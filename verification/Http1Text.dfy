/** Scanning and trimming of message text. */
module Http1Text {
  import opened Base

  /** `u8::is_ascii_whitespace`. */
  predicate IsSpace(c: char) {
    c == ' ' || c == '\t' || c == '\n' || c == '\r' || c == 12 as char
  }

  function TrimStart(s: string): string {
    if s != [] && IsSpace(s[0]) then TrimStart(s[1..]) else s
  }

  function TrimEnd(s: string): string {
    if s != [] && IsSpace(s[|s| - 1]) then TrimEnd(s[..|s| - 1]) else s
  }

  function Trim(s: string): string {
    TrimEnd(TrimStart(s))
  }

  predicate AllSpace(s: string) {
    forall i :: 0 <= i < |s| ==> IsSpace(s[i])
  }

  /** No white space at either end. */
  predicate Trimmed(s: string) {
    s != [] ==> !IsSpace(s[0]) && !IsSpace(s[|s| - 1])
  }

  lemma {:induction false} TrimStartPadding(a: string, s: string)
    requires AllSpace(a)
    ensures TrimStart(a + s) == TrimStart(s)
  {
    if a == [] {
      assert a + s == s;
    } else {
      TrimStartPadding(a[1..], s);
      assert (a + s)[1..] == a[1..] + s;
    }
  }

  lemma {:induction false} TrimEndPadding(s: string, b: string)
    requires AllSpace(b)
    ensures TrimEnd(s + b) == TrimEnd(s)
  {
    if b == [] {
      assert s + b == s;
    } else {
      TrimEndPadding(s, b[..|b| - 1]);
      assert (s + b)[..|s| + |b| - 1] == s + b[..|b| - 1];
    }
  }

  /** Trimming removes exactly the padding around text that has none of its own. */
  lemma {:induction false} TrimPadded(a: string, s: string, b: string)
    requires AllSpace(a) && Trimmed(s) && AllSpace(b)
    ensures Trim(a + s + b) == s
  {
    Associative(a, s, b);
    TrimStartPadding(a, s + b);
    if s == [] {
      assert s + b == b + [];
      TrimStartPadding(b, []);
    } else {
      assert TrimStart(s + b) == s + b;
      TrimEndPadding(s, b);
    }
  }

  // --- Case -----------------------------------------------------------------

  function LowerChar(c: char): char {
    if 'A' <= c <= 'Z' then (c as int + 32) as char else c
  }

  function Lower(s: string): (l: string)
    ensures |l| == |s| && forall i :: 0 <= i < |s| ==> l[i] == LowerChar(s[i])
  {
    seq(|s|, i requires 0 <= i < |s| => LowerChar(s[i]))
  }

  /** The same text but for the case of ASCII letters. */
  predicate SameLetters(a: string, b: string) {
    |a| == |b| && forall i :: 0 <= i < |a| ==>
      a[i] == b[i] || ('A' <= a[i] <= 'Z' && b[i] as int == a[i] as int + 32) || ('A' <= b[i] <= 'Z' && a[i] as int == b[i] as int + 32)
  }

  predicate NoCapitals(s: string) {
    forall i :: 0 <= i < |s| ==> !('A' <= s[i] <= 'Z')
  }

  lemma {:induction false} LowerIsSame(a: string, b: string)
    requires NoCapitals(b)
    ensures Lower(a) == b <==> SameLetters(a, b)
  {
    if SameLetters(a, b) {
      assert forall i :: 0 <= i < |a| ==> LowerChar(a[i]) == b[i];
    }
    if Lower(a) == b {
      assert forall i :: 0 <= i < |a| ==> b[i] == LowerChar(a[i]);
    }
  }

  // --- Header names and values ----------------------------------------------

  /** The characters of a lower-case header name: the tokens of section 5.6.2 of RFC 9110. */
  predicate IsNameChar(c: char) {
    c == '!' || '#' <= c <= '\'' || c == '*' || c == '+' || c == '-' || c == '.' || '0' <= c <= '9'
    || '^' <= c <= 'z' || c == '|' || c == '~'
  }

  /** Letters, digits, and fifteen other characters. */
  lemma {:induction false} NameCharsExactly(c: char)
    ensures IsNameChar(c) <==> 'a' <= c <= 'z' || '0' <= c <= '9' || c in "!#$%&'*+-.^_`|~"
  {}

  predicate IsName(s: string) {
    s != [] && forall i :: 0 <= i < |s| ==> IsNameChar(s[i])
  }

  /** What a header value may hold when it is parsed from text. */
  predicate IsValue(s: string) {
    forall i :: 0 <= i < |s| ==> (s[i] >= ' ' && s[i] as int != 127) || s[i] == '\t'
  }

  // --- Reading --------------------------------------------------------------

  /** `read_until`: up to and including the delimiter, or all there is when it does not occur. */
  function ReadUntil(s: string, c: char): (r: (string, string))
    ensures r.0 + r.1 == s
    ensures r.0 == [] <==> s == []
  {
    if s == [] then ([], [])
    else if s[0] == c then ([c], s[1..])
    else var (t, rest) := ReadUntil(s[1..], c); ([s[0]] + t, rest)
  }

  lemma {:induction false} ReadUntilAt(a: string, c: char, rest: string)
    requires c !in a
    ensures ReadUntil(a + [c] + rest, c) == (a + [c], rest)
  {
    if a == [] {
      assert a + [c] + rest == [c] + rest;
    } else {
      ReadUntilAt(a[1..], c, rest);
      assert (a + [c] + rest)[1..] == a[1..] + [c] + rest;
      assert [a[0]] + (a[1..] + [c]) == a + [c];
    }
  }
}
