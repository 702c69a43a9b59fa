/**
 * HTTP/1 requests: what the connection reads, and the wire form it reads it from.
 */
module Http1Read {
  import opened Base
  import opened HeaderFields
  import opened Http1Text

  /** `BadHeader` is a header name or value the header map refuses; the reader panics on it. */
  datatype Error = UnexpectedEof | InvalidData | BadHeader

  datatype Result<+T> = Ok(value: T) | Err(error: Error)

  datatype Request = Request(verb: string, uri: string, version: string,
                             headers: HeaderMap, host: Option<string>, body: Option<string>)

  const HOST: string := "host"

  // --- The first line -------------------------------------------------------

  /** The loop that reads the URI goes on as long as it has nothing, or a single space. */
  function ReadUri(uri: string, s: string): (r: Result<(string, string)>)
    ensures r.Ok? ==> |r.value.1| <= |s|
    decreases |s|
  {
    if uri != [] && uri != " " then Ok((uri, s))
    else
      var (t, rest) := ReadUntil(s, ' ');
      if t == [] then Err(UnexpectedEof) else ReadUri(uri + t, rest)
  }

  function ReadFirstLine(s: string): (r: Result<((string, string, string), string)>)
    ensures r.Ok? ==> |r.value.1| < |s|
  {
    var (verb, afterVerb) := ReadUntil(s, ' ');
    if verb == [] then Err(UnexpectedEof)
    else match ReadUri([], afterVerb)
      case Err(e) => Err(e)
      case Ok((uri, afterUri)) =>
        var (version, rest) := ReadUntil(afterUri, '\n');
        if version == [] then Err(UnexpectedEof)
        else Ok(((verb[..|verb| - 1], Trim(uri), Trim(version)), rest))
  }

  // --- Headers --------------------------------------------------------------

  datatype Head = Head(headers: HeaderMap, host: Option<string>)

  function AddHeader(h: Head, name: string, value: string): Head {
    Head(h.headers[name := [value]], if name == HOST then Some(value) else h.host)
  }

  /** One header line, whose first octet decided that it is one. */
  function ReadHeader(s: string): (r: Result<((string, string), string)>)
    requires s != []
    ensures r.Ok? ==> |r.value.1| < |s|
  {
    var (t, afterName) := ReadUntil(s[1..], ':');
    if t == [] then Err(UnexpectedEof)
    else
      var header := [s[0]] + t;
      var (value, rest) := ReadUntil(afterName, '\n');
      if value == [] then Err(UnexpectedEof)
      else Ok(((Lower(TrimStart(header[..|header| - 1])), Trim(value[..|value| - 1])), rest))
  }

  function ReadHeaders(s: string, h: Head): (r: Result<(Head, string)>)
    ensures r.Ok? ==> |r.value.1| <= |s|
    decreases |s|
  {
    if s == [] then Err(UnexpectedEof)
    else if s[0] == '\n' then Ok((h, s[1..]))
    else if s[0] == '\r' then
      if |s| == 1 then Err(UnexpectedEof) else if s[1] == '\n' then Ok((h, s[2..])) else Err(InvalidData)
    else match ReadHeader(s)
      case Err(e) => Err(e)
      case Ok(((name, value), rest)) =>
        if !IsName(name) || !IsValue(value) then Err(BadHeader) else ReadHeaders(rest, AddHeader(h, name, value))
  }

  // --- The body -------------------------------------------------------------

  /** `str::parse::<usize>`: digits with an optional plus sign, below 2^64. */
  function ParseSize(s: string): Option<nat> {
    var digits := if s != [] && s[0] == '+' then s[1..] else s;
    if IsNumeral(digits, 10) && NumeralValue(digits, 10) < 0x1_0000_0000_0000_0000 then Some(NumeralValue(digits, 10)) else None
  }

  /** Without Content-Length nothing is read and no body is published. */
  function ReadBody(headers: HeaderMap, s: string): (r: Result<(Option<string>, string)>)
    ensures r.Ok? ==> |r.value.1| <= |s|
  {
    if Values(headers, CONTENT_LENGTH) == [] then Ok((None, s))
    else match ParseSize(Values(headers, CONTENT_LENGTH)[0])
      case None => Err(InvalidData)
      case Some(n) => if |s| < n then Err(UnexpectedEof) else Ok((Some(s[..n]), s[n..]))
  }

  function ReadRequest(s: string): (r: Result<(Request, string)>)
    ensures r.Ok? ==> |r.value.1| < |s|
  {
    match ReadFirstLine(s)
    case Err(e) => Err(e)
    case Ok(((verb, uri, version), afterLine)) =>
      match ReadHeaders(afterLine, Head(map[], None))
      case Err(e) => Err(e)
      case Ok((h, afterHeaders)) =>
        match ReadBody(h.headers, afterHeaders)
        case Err(e) => Err(e)
        case Ok((body, rest)) => Ok((Request(verb, uri, version, h.headers, h.host, body), rest))
  }

  // --- The connection -------------------------------------------------------

  /** Requests are read until reading fails, which is how a kept-alive connection ends. */
  function ReadLoop(s: string): (seq<Request>, Error)
    decreases |s|
  {
    match ReadRequest(s)
    case Err(e) => ([], e)
    case Ok((r, rest)) => var (rs, e) := ReadLoop(rest); ([r] + rs, e)
  }

  predicate KeepsAlive(r: Request) {
    Values(r.headers, CONNECTION) != [] && Lower(Values(r.headers, CONNECTION)[0]) == KEEP_ALIVE
  }

  /**
   * Only the first request decides whether the connection is kept, and only its handler can hijack it, which
   * ends the reading of requests; `None` is a regular end.
   */
  function ReadConnection(s: string, hijacks: Request -> bool): (seq<Request>, Option<Error>) {
    match ReadRequest(s)
    case Err(e) => ([], Some(e))
    case Ok((r, rest)) =>
      if !hijacks(r) && KeepsAlive(r) then var (rs, e) := ReadLoop(rest); ([r] + rs, Some(e)) else ([r], None)
  }

  // --- The wire form --------------------------------------------------------

  /** White space around a value; `after` may end with the carriage return of a CRLF. */
  datatype WireField = WireField(name: string, before: string, value: string, after: string)

  datatype WireRequest = WireRequest(verb: string, spaces: nat, uri: string, version: string, pad: string,
                                     fields: seq<WireField>, crlf: bool, body: Option<string>)

  function Spaces(n: nat): (s: string)
    ensures |s| == n && forall i :: 0 <= i < n ==> s[i] == ' '
  {
    seq(n, i => ' ')
  }

  function SerialiseLine(verb: string, spaces: nat, uri: string, version: string, pad: string): string {
    verb + Spaces(spaces) + uri + " " + version + pad + "\n"
  }

  function SerialiseField(f: WireField): string {
    f.name + ":" + f.before + f.value + f.after + "\n"
  }

  function SerialiseFields(fs: seq<WireField>): string {
    if fs == [] then [] else SerialiseField(fs[0]) + SerialiseFields(fs[1..])
  }

  function EndOfHeaders(crlf: bool): string {
    if crlf then "\r\n" else "\n"
  }

  function BodyText(body: Option<string>): string {
    if body.Some? then body.value else []
  }

  function Serialise(w: WireRequest): string {
    SerialiseLine(w.verb, w.spaces, w.uri, w.version, w.pad) + SerialiseFields(w.fields) + EndOfHeaders(w.crlf) + BodyText(w.body)
  }

  function SerialiseAll(ws: seq<WireRequest>): string {
    if ws == [] then [] else Serialise(ws[0]) + SerialiseAll(ws[1..])
  }

  predicate Padding(s: string) {
    AllSpace(s) && '\n' !in s
  }

  predicate GoodField(f: WireField) {
    IsName(Lower(f.name)) && Padding(f.before) && Padding(f.after) && IsValue(f.value) && Trimmed(f.value)
  }

  predicate GoodLine(verb: string, uri: string, version: string, pad: string) {
    ' ' !in verb && uri != [] && ' ' !in uri && Trimmed(uri) && '\n' !in version && Trimmed(version) && Padding(pad)
  }

  /** Later fields of the same name replace earlier ones. */
  function LastWins(h: Head, fs: seq<WireField>): Head
    decreases |fs|
  {
    if fs == [] then h else LastWins(AddHeader(h, Lower(fs[0].name), fs[0].value), fs[1..])
  }

  function HeadOf(fs: seq<WireField>): Head {
    LastWins(Head(map[], None), fs)
  }

  /** Field `k` is the last one of this name, in any case. */
  predicate LastNamed(fs: seq<WireField>, name: string, k: int) {
    && 0 <= k < |fs| && SameLetters(fs[k].name, name)
    && forall j :: k < j < |fs| ==> !SameLetters(fs[j].name, name)
  }

  /** The value of the last field of this name, in any case. */
  function LastValue(fs: seq<WireField>, name: string): (v: Option<string>)
    ensures v.None? ==> forall k :: 0 <= k < |fs| ==> !SameLetters(fs[k].name, name)
    ensures v.Some? ==> exists k :: LastNamed(fs, name, k) && v.value == fs[k].value
  {
    if fs == [] then None
    else
      var n := |fs| - 1;
      if SameLetters(fs[n].name, name) then
        assert LastNamed(fs, name, n);
        Some(fs[n].value)
      else
        var v := LastValue(fs[..n], name);
        assert forall k :: LastNamed(fs[..n], name, k) ==> LastNamed(fs, name, k);
        v
  }

  function Lead(plus: bool, zeros: nat): string {
    (if plus then "+" else "") + seq(zeros, _ => '0')
  }

  /** The text is `n` in decimal digits, perhaps behind a plus sign and zeros. */
  ghost predicate Says(text: string, n: nat) {
    exists plus: bool, zeros: nat :: text == Lead(plus, zeros) + Numeral(n, 10)
  }

  /** The last Content-Length field, if there is one, says the length of the body; otherwise there is no body. */
  ghost predicate BodyAnnounced(w: WireRequest) {
    match LastValue(w.fields, "content-length")
    case None => w.body.None?
    case Some(text) => w.body.Some? && |w.body.value| < 0x1_0000_0000_0000_0000 && Says(text, |w.body.value|)
  }

  ghost predicate WellFormed(w: WireRequest) {
    && GoodLine(w.verb, w.uri, w.version, w.pad) && 1 <= w.spaces <= 2
    && (forall k :: 0 <= k < |w.fields| ==> GoodField(w.fields[k]))
    && BodyAnnounced(w)
  }

  /** The last Connection field asks, in any case, to keep the connection. */
  predicate AsksToKeep(w: WireRequest) {
    LastValue(w.fields, "connection").Some? && SameLetters(LastValue(w.fields, "connection").value, "keep-alive")
  }

  function Meant(w: WireRequest): Request {
    var h := HeadOf(w.fields);
    Request(w.verb, w.uri, w.version, h.headers, h.host, w.body)
  }

  function MeantAll(ws: seq<WireRequest>): seq<Request> {
    if ws == [] then [] else [Meant(ws[0])] + MeantAll(ws[1..])
  }

  lemma {:induction false} LastWinsAppend(h: Head, fs: seq<WireField>, f: WireField)
    ensures LastWins(h, fs + [f]) == AddHeader(LastWins(h, fs), Lower(f.name), f.value)
    decreases |fs|
  {
    if fs == [] {
      assert (fs + [f])[1..] == [];
    } else {
      assert (fs + [f])[1..] == fs[1..] + [f];
      LastWinsAppend(AddHeader(h, Lower(fs[0].name), fs[0].value), fs[1..], f);
    }
  }

  /**
   * The headers of a request hold for every name, in lower case, just the value of its last field, and its
   * host likewise.
   */
  lemma {:induction false} HeadHoldsLast(fs: seq<WireField>, name: string)
    ensures Values(HeadOf(fs).headers, name)
            == if NoCapitals(name) && LastValue(fs, name).Some? then [LastValue(fs, name).value] else []
    ensures HeadOf(fs).host == LastValue(fs, "host")
    decreases |fs|
  {
    hide SameLetters;
    if fs != [] {
      var n := |fs| - 1;
      HeadHoldsLast(fs[..n], name);
      LastWinsAppend(Head(map[], None), fs[..n], fs[n]);
      assert fs[..n] + [fs[n]] == fs;
      LowerIsSame(fs[n].name, "host");
      LowerHasNoCapitals(fs[n].name);
      if NoCapitals(name) {
        LowerIsSame(fs[n].name, name);
      }
    }
  }

  lemma {:induction false} LowerHasNoCapitals(s: string)
    ensures NoCapitals(Lower(s))
  {
    assert forall i :: 0 <= i < |s| ==> Lower(s)[i] == LowerChar(s[i]);
  }

  // --- The announced length -------------------------------------------------

  lemma {:induction false} ZerosValue(zeros: nat, s: string)
    requires IsNumeral(s, 10)
    ensures var t := seq(zeros, _ => '0') + s; IsNumeral(t, 10) && NumeralValue(t, 10) == NumeralValue(s, 10)
    decreases |s|
  {
    var z := seq(zeros, _ => '0');
    var n := |s| - 1;
    if n == 0 {
      OnlyZeros(zeros);
      assert s == [] + [s[n]];
      AppendDigit([], s[n], 10);
    } else {
      assert IsNumeral(s[..n], 10);
      ZerosValue(zeros, s[..n]);
      assert s == s[..n] + [s[n]];
      AppendDigit(s[..n], s[n], 10);
    }
    assert z + s == (z + s[..n]) + [s[n]];
    AppendDigit(z + s[..n], s[n], 10);
  }

  lemma {:induction false} OnlyZeros(zeros: nat)
    ensures var z := seq(zeros, _ => '0') + [];
            NumeralValue(z, 10) == 0 && (zeros > 0 ==> IsNumeral(z, 10))
  {
    if zeros > 0 {
      OnlyZeros(zeros - 1);
      var z := seq(zeros - 1, _ => '0') + [];
      AppendDigit(z, '0', 10);
      assert seq(zeros, _ => '0') + [] == z + ['0'];
    }
  }

  /** A text of decimal digits is zeros followed by the numeral of its value. */
  lemma {:induction false} DigitsSay(s: string) returns (zeros: nat)
    requires IsNumeral(s, 10)
    ensures s == seq(zeros, _ => '0') + Numeral(NumeralValue(s, 10), 10)
  {
    hide NumeralValue, Numeral;
    if s[0] == '0' && |s| > 1 {
      assert IsNumeral(s[1..], 10);
      var more := DigitsSay(s[1..]);
      assert s == seq(1, _ => '0') + s[1..];
      ZerosValue(1, s[1..]);
      zeros := more + 1;
      OneZeroMore(more, Numeral(NumeralValue(s, 10), 10));
    } else {
      zeros := 0;
      CanonicalDigits(s);
      assert s == seq(zeros, _ => '0') + s;
    }
  }

  lemma {:induction false} OneZeroMore(zeros: nat, s: string)
    ensures seq(1, _ => '0') + (seq(zeros, _ => '0') + s) == seq(zeros + 1, _ => '0') + s
  {}

  lemma {:induction false} CanonicalDigits(s: string)
    requires IsNumeral(s, 10) && (s[0] != '0' || |s| == 1)
    ensures Numeral(NumeralValue(s, 10), 10) == s && (s[0] != '0' ==> NumeralValue(s, 10) > 0)
    decreases |s|
  {
    hide NumeralValue, Numeral;
    var n := |s| - 1;
    var front, c := s[..n], s[n];
    assert s == front + [c];
    AppendDigit(front, c, 10);
    OneDigit(c);
    if n > 0 {
      assert IsNumeral(front, 10) && front[0] == s[0];
      CanonicalDigits(front);
      NumeralMore(NumeralValue(front, 10), DigitValue(c));
    } else {
      NoDigits(10);
      assert front == [];
    }
  }

  lemma {:induction false} NumeralMore(v: nat, d: nat)
    requires v > 0 && d < 10
    ensures Numeral(v * 10 + d, 10) == Numeral(v, 10) + [DIGITS[d]]
  {
    assert (v * 10 + d) / 10 == v && (v * 10 + d) % 10 == d;
  }

  lemma {:induction false} OneDigit(c: char)
    requires DigitValue(c) < 10
    ensures DIGITS[DigitValue(c)] == c && (c != '0' ==> DigitValue(c) > 0) && Numeral(DigitValue(c), 10) == [c]
  {}

  /** A Content-Length is understood as a number exactly when it says that number and the number fits 64 bits. */
  lemma {:induction false} ParseSizeExactly(text: string, n: nat)
    ensures ParseSize(text) == Some(n) <==> n < 0x1_0000_0000_0000_0000 && Says(text, n)
  {
    hide Numeral, NumeralValue, IsNumeral;
    if n < 0x1_0000_0000_0000_0000 && Says(text, n) {
      var plus: bool, zeros: nat :| text == Lead(plus, zeros) + Numeral(n, 10);
      SaidSize(text, plus, zeros, n);
    }
    if ParseSize(text) == Some(n) {
      var plus := text != [] && text[0] == '+';
      var digits := if plus then text[1..] else text;
      var zeros := DigitsSay(digits);
      assert text == Lead(plus, zeros) + Numeral(n, 10);
    }
  }

  lemma {:induction false} SaidSize(text: string, plus: bool, zeros: nat, n: nat)
    requires text == Lead(plus, zeros) + Numeral(n, 10)
    ensures ParseSize(text) == if n < 0x1_0000_0000_0000_0000 then Some(n) else None
  {
    hide NumeralValue, Numeral;
    var digits := seq(zeros, _ => '0') + Numeral(n, 10);
    NumeralRoundTrip(n, 10);
    ZerosValue(zeros, Numeral(n, 10));
    assert digits[0] != '+';
    assert text == (if plus then "+" else "") + digits;
    assert plus ==> text[1..] == digits;
    assert !plus ==> text == digits;
  }

  predicate DecimalDigits(s: string) {
    s != [] && forall i :: 0 <= i < |s| ==> '0' <= s[i] <= '9'
  }

  lemma {:induction false} DigitsOrNot(s: string)
    ensures IsNumeral(s, 10) <==> DecimalDigits(s)
  {
    assert forall i :: 0 <= i < |s| ==> (DigitValue(s[i]) < 10 <==> '0' <= s[i] <= '9');
  }

  /** And it is refused exactly when it is not a text of decimal digits, or one that says a number of 2^64 or more. */
  lemma {:induction false} ParseSizeRefuses(text: string)
    ensures ParseSize(text).None? <==>
            || !DecimalDigits(if text != [] && text[0] == '+' then text[1..] else text)
            || exists n: nat :: n >= 0x1_0000_0000_0000_0000 && Says(text, n)
  {
    hide Numeral, NumeralValue, IsNumeral, DecimalDigits;
    var plus := text != [] && text[0] == '+';
    var digits := if plus then text[1..] else text;
    DigitsOrNot(digits);
    if IsNumeral(digits, 10) {
      SaysItsValue(text, plus, digits);
    }
    if n: nat :| n >= 0x1_0000_0000_0000_0000 && Says(text, n) {
      var plus': bool, zeros: nat :| text == Lead(plus', zeros) + Numeral(n, 10);
      SaidSize(text, plus', zeros, n);
    }
  }

  lemma {:induction false} SaysItsValue(text: string, plus: bool, digits: string)
    requires IsNumeral(digits, 10) && text == (if plus then "+" else "") + digits
    ensures Says(text, NumeralValue(digits, 10))
  {
    hide Numeral, NumeralValue, IsNumeral;
    var zeros := DigitsSay(digits);
    assert text == Lead(plus, zeros) + Numeral(NumeralValue(digits, 10), 10);
  }

  /** The body announced on the wire is the one the reader takes. */
  lemma {:induction false} AnnouncedRead(w: WireRequest, rest: string)
    requires BodyAnnounced(w)
    ensures ReadBody(HeadOf(w.fields).headers, BodyText(w.body) + rest) == Ok((w.body, rest))
  {
    hide ParseSize, Says, HeadOf, LastValue;
    HeadHoldsLast(w.fields, "content-length");
    assert NoCapitals("content-length");
    var body := BodyText(w.body);
    assert (body + rest)[..|body|] == body && (body + rest)[|body|..] == rest && [] + rest == rest;
    if w.body.Some? {
      ParseSizeExactly(LastValue(w.fields, "content-length").value, |body|);
    }
  }

  /** A request is taken to keep the connection exactly when its last Connection field says so. */
  lemma {:induction false} KeptExactly(w: WireRequest)
    ensures KeepsAlive(Meant(w)) <==> AsksToKeep(w)
  {
    hide Lower, LastValue, SameLetters;
    HeadHoldsLast(w.fields, "connection");
    assert NoCapitals("connection") && NoCapitals("keep-alive");
    if LastValue(w.fields, "connection").Some? {
      LowerIsSame(LastValue(w.fields, "connection").value, "keep-alive");
    }
  }

  // --- Reading what was serialised ------------------------------------------

  lemma {:induction false} ReadSpace(rest: string)
    ensures ReadUntil(" " + rest, ' ') == (" ", rest)
  {}

  lemma {:induction false} ReadUriBack(uri: string, rest: string, lead: string)
    requires uri != [] && ' ' !in uri && (lead == [] || lead == " ")
    ensures ReadUri(lead, uri + " " + rest) == Ok((lead + uri + " ", rest))
  {
    ReadUntilAt(uri, ' ', rest);
    assert lead + (uri + " ") == lead + uri + " ";
    var u := lead + uri + " ";
    assert u != [] && u != " ";
  }

  /** The URI is found behind one or two spaces, and behind no more: a third one ends it before it began. */
  lemma {:induction false} UriBehindSpaces(verb: string, spaces: nat, uri: string, version: string, pad: string,
      rest: string)
    requires GoodLine(verb, uri, version, pad) && spaces >= 1
    ensures ReadFirstLine(SerialiseLine(verb, spaces, uri, version, pad) + rest) == Ok(((verb, uri, version), rest)) <==> spaces <= 2
  {
    var line := version + pad;
    var tail := line + "\n" + rest;
    var after := Spaces(spaces - 1) + uri + " " + tail;
    assert Spaces(spaces) == " " + Spaces(spaces - 1);
    assert SerialiseLine(verb, spaces, uri, version, pad) + rest == verb + [' '] + after;
    ReadUntilAt(verb, ' ', after);
    if spaces <= 2 {
      FirstLineEnds(version, pad, rest);
      FewSpaces(spaces, uri, tail);
    } else {
      var more := Spaces(spaces - 3) + uri + " " + tail;
      assert after == " " + (" " + more);
      ThreeSpaces(more);
    }
  }

  lemma {:induction false} FirstLineEnds(version: string, pad: string, rest: string)
    requires '\n' !in version && Trimmed(version) && Padding(pad)
    ensures ReadUntil(version + pad + "\n" + rest, '\n') == (version + pad + "\n", rest)
    ensures Trim(version + pad + "\n") == version
  {
    assert '\n' !in version + pad;
    ReadUntilAt(version + pad, '\n', rest);
    assert [] + version + (pad + "\n") == version + pad + "\n";
    TrimPadded([], version, pad + "\n");
  }

  lemma {:induction false} FewSpaces(spaces: nat, uri: string, tail: string)
    requires uri != [] && ' ' !in uri && Trimmed(uri) && 1 <= spaces <= 2
    ensures var r := ReadUri([], Spaces(spaces - 1) + uri + " " + tail);
            r.Ok? && r.value.1 == tail && Trim(r.value.0) == uri
  {
    var lead := Spaces(spaces - 1);
    if spaces == 1 {
      assert lead + uri + " " + tail == uri + " " + tail;
    } else {
      assert lead == " ";
      assert lead + uri + " " + tail == " " + (uri + " " + tail);
      ReadSpace(uri + " " + tail);
      assert [] + " " == " ";
    }
    ReadUriBack(uri, tail, lead);
    TrimPadded(lead, uri, " ");
  }

  lemma {:induction false} ThreeSpaces(more: string)
    ensures ReadUri([], " " + (" " + more)) == Ok(("  ", more)) && Trim("  ") == []
  {
    ReadSpace(" " + more);
    ReadSpace(more);
    assert [] + " " == " " && " " + " " == "  ";
    assert ReadUri(" ", " " + more) == ReadUri("  ", more);
    TrimPadded("  ", [], []);
    assert "  " + [] + [] == "  ";
  }

  lemma {:induction false} NameChars(name: string)
    requires IsName(Lower(name))
    ensures name != [] && forall i :: 0 <= i < |name| ==> !IsSpace(name[i]) && name[i] != ':'
  {
    forall i | 0 <= i < |name|
      ensures !IsSpace(name[i]) && name[i] != ':'
    {
      assert IsNameChar(Lower(name)[i]);
    }
  }

  lemma {:induction false} ReadHeaderBack(f: WireField, rest: string)
    requires GoodField(f)
    ensures SerialiseField(f) != []
    ensures ReadHeader(SerialiseField(f) + rest) == Ok(((Lower(f.name), f.value), rest))
  {
    hide Lower, ReadHeader, SerialiseField;
    NameChars(f.name);
    assert '\n' !in f.value;
    ReadFieldLine(f, rest);
  }

  lemma {:induction false} HeaderPieces(f: WireField, rest: string)
    requires f.name != []
    ensures var s := SerialiseField(f) + rest;
            s[0] == f.name[0] && s[1..] == f.name[1..] + ":" + (f.before + f.value + f.after + "\n" + rest)
  {}

  lemma {:induction false} ReadHeadersBack(fs: seq<WireField>, crlf: bool, h: Head, rest: string)
    requires forall k :: 0 <= k < |fs| ==> GoodField(fs[k])
    ensures ReadHeaders(SerialiseFields(fs) + EndOfHeaders(crlf) + rest, h) == Ok((LastWins(h, fs), rest))
    decreases |fs|
  {
    hide ReadHeader, SerialiseField, Lower;
    if fs == [] {
      assert SerialiseFields(fs) + EndOfHeaders(crlf) + rest == EndOfHeaders(crlf) + rest;
    } else {
      var f, more := fs[0], SerialiseFields(fs[1..]) + EndOfHeaders(crlf) + rest;
      ReadHeadersBack(fs[1..], crlf, AddHeader(h, Lower(f.name), f.value), rest);
      ReadHeaderBack(f, more);
      FirstOfField(f);
      assert SerialiseFields(fs) + EndOfHeaders(crlf) + rest == SerialiseField(f) + more;
    }
  }

  lemma {:induction false} FirstOfField(f: WireField)
    requires GoodField(f)
    ensures SerialiseField(f) != [] && SerialiseField(f)[0] != '\n' && SerialiseField(f)[0] != '\r'
  {
    NameChars(f.name);
    assert SerialiseField(f)[0] == f.name[0];
  }

  /** A well-formed request is read as it was meant, and reading stops exactly behind it. */
  lemma {:induction false} ReadRequestBack(w: WireRequest, rest: string)
    requires WellFormed(w)
    ensures ReadRequest(Serialise(w) + rest) == Ok((Meant(w), rest))
  {
    hide ReadFirstLine, ReadHeaders, ReadBody, SerialiseLine, SerialiseFields, LastWins, GoodField, GoodLine, BodyAnnounced;
    AnnouncedRead(w, rest);
    var body := BodyText(w.body);
    var afterLine := SerialiseFields(w.fields) + EndOfHeaders(w.crlf) + (body + rest);
    UriBehindSpaces(w.verb, w.spaces, w.uri, w.version, w.pad, afterLine);
    ReadHeadersBack(w.fields, w.crlf, Head(map[], None), body + rest);
    RequestPieces(SerialiseLine(w.verb, w.spaces, w.uri, w.version, w.pad), SerialiseFields(w.fields), EndOfHeaders(w.crlf), body, rest);
  }

  lemma {:induction false} RequestPieces(a: string, b: string, c: string, d: string, rest: string)
    ensures a + b + c + d + rest == a + (b + c + (d + rest))
    ensures (d + rest)[..|d|] == d && (d + rest)[|d|..] == rest
    ensures [] + rest == rest
  {}

  // --- Requests that are cut short ------------------------------------------

  lemma {:induction false} ReadUntilNone(s: string, c: char)
    requires c !in s
    ensures ReadUntil(s, c) == (s, [])
  {
    if s != [] {
      ReadUntilNone(s[1..], c);
      assert [s[0]] + s[1..] == s;
    }
  }

  /** The URI and what is before it, cut short: there is nothing left to read the version from. */
  lemma {:induction false} CutUri(spaces: nat, uri: string, k: nat)
    requires uri != [] && ' ' !in uri && 1 <= spaces <= 2
    requires k < |Spaces(spaces - 1) + uri + " "|
    ensures var r := ReadUri([], (Spaces(spaces - 1) + uri + " ")[..k]);
            r == Err(UnexpectedEof) || (r.Ok? && r.value.1 == [])
  {
    var s := (Spaces(spaces - 1) + uri + " ")[..k];
    if spaces == 1 {
      assert s == uri[..k];
      ReadUntilNone(s, ' ');
      assert k > 0 ==> s != " ";
    } else if k > 0 {
      var more := uri[..k - 1];
      assert s == " " + more;
      ReadSpace(more);
      ReadUntilNone(more, ' ');
      assert [] + " " == " ";
      assert ReadUri([], s) == ReadUri(" ", more);
      assert more != [] ==> |" " + more| > 1 && ReadUri(" ", more) == ReadUri(" " + more, []);
    }
  }

  lemma {:induction false} CutLine(verb: string, spaces: nat, uri: string, version: string, pad: string, k: nat)
    requires GoodLine(verb, uri, version, pad) && 1 <= spaces <= 2 && k < |SerialiseLine(verb, spaces, uri, version, pad)|
    ensures var r := ReadFirstLine(SerialiseLine(verb, spaces, uri, version, pad)[..k]);
            r == Err(UnexpectedEof) || (r.Ok? && r.value.1 == [])
  {
    hide Trim;
    var a, b, c := verb + " ", Spaces(spaces - 1) + uri + " ", version + pad + "\n";
    var line := SerialiseLine(verb, spaces, uri, version, pad);
    assert Spaces(spaces) == " " + Spaces(spaces - 1);
    assert line == a + b + c;
    CutPieces(a, b, c, k);
    if k < |a| {
      assert a[..k] == verb[..k];
      ReadUntilNone(verb[..k], ' ');
    } else if k < |a| + |b| {
      ReadUntilAt(verb, ' ', b[..k - |a|]);
      CutUri(spaces, uri, k - |a|);
    } else {
      var tail := c[..k - |a| - |b|];
      ReadUntilAt(verb, ' ', b + tail);
      FewSpaces(spaces, uri, tail);
      NoLineFeed(version, pad, |tail|);
      ReadUntilNone(tail, '\n');
    }
  }

  lemma {:induction false} NoLineFeed(version: string, pad: string, n: nat)
    requires '\n' !in version && Padding(pad) && n <= |version + pad|
    ensures '\n' !in (version + pad + "\n")[..n]
  {
    assert '\n' !in version + pad;
    assert (version + pad + "\n")[..n] == (version + pad)[..n];
  }

  lemma {:induction false} CutPieces(a: string, b: string, c: string, k: nat)
    requires k < |a + b + c|
    ensures k < |a| ==> (a + b + c)[..k] == a[..k]
    ensures |a| <= k < |a| + |b| ==> (a + b + c)[..k] == a + b[..k - |a|]
    ensures |a| + |b| <= k ==> (a + b + c)[..k] == a + (b + c[..k - |a| - |b|])
  {}

  lemma {:induction false} TrimEndPrefix(s: string)
    ensures TrimEnd(s) <= s
  {
    if s != [] && IsSpace(s[|s| - 1]) {
      TrimEndPrefix(s[..|s| - 1]);
    }
  }

  /** A value cut short is a value. */
  lemma {:induction false} CutValue(f: WireField, k: nat)
    requires GoodField(f) && k <= |f.before + f.value + f.after|
    ensures IsValue(Trim((f.before + f.value + f.after)[..k]))
  {
    var s := (f.before + f.value + f.after)[..k];
    if k <= |f.before| {
      assert s == f.before[..k] && AllSpace(s) && s + [] == s;
      TrimStartPadding(s, []);
    } else {
      var n := Min(|f.value|, k - |f.before|);
      var value, after := f.value[..n], (f.value + f.after)[n..k - |f.before|];
      assert s == f.before + (value + after);
      TrimStartPadding(f.before, value + after);
      if value == [] {
        assert value + after == after + [];
        assert AllSpace(after);
        TrimStartPadding(after, []);
      } else {
        assert value[0] == f.value[0] && TrimStart(value + after) == value + after;
        assert AllSpace(after);
        TrimEndPadding(value, after);
        TrimEndPrefix(value);
      }
    }
  }

  lemma {:induction false} CutField(f: WireField, h: Head, k: nat)
    requires GoodField(f) && k < |SerialiseField(f)|
    ensures ReadHeaders(SerialiseField(f)[..k], h) == Err(UnexpectedEof)
  {
    hide Trim, Lower, IsName;
    var s := SerialiseField(f)[..k];
    if k > 0 {
      NameChars(f.name);
      FirstOfField(f);
      assert s[0] == SerialiseField(f)[0];
      if k <= |f.name| {
        assert s == f.name[..k] && ':' !in s[1..];
        ReadUntilNone(s[1..], ':');
      } else {
        CutInValue(f, h, k);
      }
    }
  }

  lemma {:induction false} CutInValue(f: WireField, h: Head, k: nat)
    requires GoodField(f) && |f.name| < k < |SerialiseField(f)|
    ensures ReadHeaders(SerialiseField(f)[..k], h) == Err(UnexpectedEof)
  {
    hide Trim, Lower, IsName, IsValue;
    var all, j := f.before + f.value + f.after, k - |f.name| - 1;
    var s, value := SerialiseField(f)[..k], all[..j];
    NameChars(f.name);
    FirstOfField(f);
    assert s == f.name + ":" + value;
    assert s[0] == f.name[0] && s[1..] == f.name[1..] + [':'] + value;
    assert ':' !in f.name[1..];
    ReadUntilAt(f.name[1..], ':', value);
    assert [s[0]] + (f.name[1..] + ":") == f.name + ":";
    assert (f.name + ":")[..|f.name|] == f.name && TrimStart(f.name) == f.name;
    NoNewline(f);
    ReadUntilNone(value, '\n');
    if j > 0 {
      assert value[..j - 1] == all[..j - 1];
      CutValue(f, j - 1);
    }
  }

  lemma {:induction false} NoNewline(f: WireField)
    requires GoodField(f)
    ensures '\n' !in f.before + f.value + f.after
  {
    assert '\n' !in f.value;
  }

  lemma {:induction false} CutHeaders(fs: seq<WireField>, crlf: bool, h: Head, k: nat)
    requires (forall i :: 0 <= i < |fs| ==> GoodField(fs[i])) && k < |SerialiseFields(fs) + EndOfHeaders(crlf)|
    ensures ReadHeaders((SerialiseFields(fs) + EndOfHeaders(crlf))[..k], h) == Err(UnexpectedEof)
    decreases |fs|
  {
    hide ReadHeader, SerialiseField, Lower, GoodField;
    if fs == [] {
      assert SerialiseFields(fs) + EndOfHeaders(crlf) == EndOfHeaders(crlf);
    } else {
      var f, more := fs[0], SerialiseFields(fs[1..]) + EndOfHeaders(crlf);
      assert SerialiseFields(fs) + EndOfHeaders(crlf) == SerialiseField(f) + more;
      var n := |SerialiseField(f)|;
      if k < n {
        assert (SerialiseField(f) + more)[..k] == SerialiseField(f)[..k];
        CutField(f, h, k);
      } else {
        CutHeaders(fs[1..], crlf, AddHeader(h, Lower(f.name), f.value), k - n);
        assert (SerialiseField(f) + more)[..k] == SerialiseField(f) + more[..k - n];
        OneFieldRead(f, h, more[..k - n]);
      }
    }
  }

  lemma {:induction false} OneFieldRead(f: WireField, h: Head, rest: string)
    requires GoodField(f)
    ensures ReadHeaders(SerialiseField(f) + rest, h) == ReadHeaders(rest, AddHeader(h, Lower(f.name), f.value))
  {
    hide ReadHeader, SerialiseField, Lower;
    ReadHeaderBack(f, rest);
    FirstOfField(f);
  }

  lemma {:induction false} CutBody(w: WireRequest, k: nat)
    requires BodyAnnounced(w) && k < |BodyText(w.body)|
    ensures ReadBody(HeadOf(w.fields).headers, BodyText(w.body)[..k]) == Err(UnexpectedEof)
  {
    hide ParseSize, Says, HeadOf, LastValue;
    HeadHoldsLast(w.fields, "content-length");
    assert NoCapitals("content-length");
    ParseSizeExactly(LastValue(w.fields, "content-length").value, |w.body.value|);
  }

  /** Wherever a well-formed request is cut short, it is not taken for a request: reading it is an unexpected end. */
  lemma {:induction false} CutRequestRefused(w: WireRequest, k: nat)
    requires WellFormed(w) && k < |Serialise(w)|
    ensures ReadRequest(Serialise(w)[..k]) == Err(UnexpectedEof)
  {
    hide ReadFirstLine, ReadHeaders, ReadBody, SerialiseLine, SerialiseFields, EndOfHeaders, LastWins, GoodField, GoodLine, BodyAnnounced, BodyText;
    var line := SerialiseLine(w.verb, w.spaces, w.uri, w.version, w.pad);
    var headers, body := SerialiseFields(w.fields) + EndOfHeaders(w.crlf), BodyText(w.body);
    assert Serialise(w) == line + headers + body by { Regrouped(line, SerialiseFields(w.fields), EndOfHeaders(w.crlf), body); }
    if k < |line| {
      assert Serialise(w)[..k] == line[..k];
      CutLine(w.verb, w.spaces, w.uri, w.version, w.pad, k);
      NoHeaders();
    } else if k < |line| + |headers| {
      var j := k - |line|;
      assert Serialise(w)[..k] == line + headers[..j];
      UriBehindSpaces(w.verb, w.spaces, w.uri, w.version, w.pad, headers[..j]);
      CutHeaders(w.fields, w.crlf, Head(map[], None), j);
    } else {
      var j := k - |line| - |headers|;
      assert Serialise(w)[..k] == line + (headers + body[..j]);
      UriBehindSpaces(w.verb, w.spaces, w.uri, w.version, w.pad, headers + body[..j]);
      ReadHeadersBack(w.fields, w.crlf, Head(map[], None), body[..j]);
      CutBody(w, j);
    }
  }

  lemma {:induction false} Regrouped(a: string, b: string, c: string, d: string)
    ensures a + b + c + d == a + (b + c) + d
  {}

  lemma {:induction false} NoHeaders()
    ensures ReadHeaders([], Head(map[], None)) == Err(UnexpectedEof)
  {}

  /** After any number of requests, one that is cut short ends the loop, and only the complete ones are handled. */
  lemma {:induction false} CutLoop(ws: seq<WireRequest>, last: WireRequest, k: nat)
    requires (forall j :: 0 <= j < |ws| ==> WellFormed(ws[j])) && WellFormed(last) && k < |Serialise(last)|
    ensures ReadLoop(SerialiseAll(ws) + Serialise(last)[..k]) == (MeantAll(ws), UnexpectedEof)
  {
    hide ReadRequest, Serialise, WellFormed, Meant;
    if ws == [] {
      CutRequestRefused(last, k);
      assert SerialiseAll(ws) + Serialise(last)[..k] == Serialise(last)[..k];
    } else {
      CutLoop(ws[1..], last, k);
      ReadRequestBack(ws[0], SerialiseAll(ws[1..]) + Serialise(last)[..k]);
      Associative(Serialise(ws[0]), SerialiseAll(ws[1..]), Serialise(last)[..k]);
    }
  }

  /**
   * Any concatenation of well-formed requests, the last of them perhaps cut short, is consumed at exact message
   * boundaries: all the complete ones when the last Connection field of the first says keep-alive, in any case,
   * and the connection is not given away whole, and only the first otherwise.
   */
  lemma {:induction false} ReadConnectionBack(ws: seq<WireRequest>, last: WireRequest, k: nat, hijacks: Request -> bool)
    requires ws != [] && (forall j :: 0 <= j < |ws| ==> WellFormed(ws[j])) && WellFormed(last) && k < |Serialise(last)|
    ensures ReadConnection(SerialiseAll(ws) + Serialise(last)[..k], hijacks)
            == if !hijacks(Meant(ws[0])) && AsksToKeep(ws[0]) then (MeantAll(ws), Some(UnexpectedEof)) else ([Meant(ws[0])], None)
  {
    hide ReadRequest, Serialise, WellFormed, Meant, KeepsAlive, AsksToKeep;
    KeptExactly(ws[0]);
    ReadRequestBack(ws[0], SerialiseAll(ws[1..]) + Serialise(last)[..k]);
    Associative(Serialise(ws[0]), SerialiseAll(ws[1..]), Serialise(last)[..k]);
    CutLoop(ws[1..], last, k);
  }

  // --- Requests that are refused --------------------------------------------

  /** A carriage return that no line feed follows, a bad name, and a length that is not a number are refused. */
  lemma {:induction false} LoneReturnRefused(fs: seq<WireField>, h: Head, c: char, rest: string)
    requires (forall k :: 0 <= k < |fs| ==> GoodField(fs[k])) && c != '\n'
    ensures ReadHeaders(SerialiseFields(fs) + ("\r" + [c] + rest), h) == Err(InvalidData)
    decreases |fs|
  {
    hide ReadHeader, SerialiseField, Lower, GoodField;
    var tail := "\r" + [c] + rest;
    if fs == [] {
      assert SerialiseFields(fs) + tail == tail;
    } else {
      var f := fs[0];
      LoneReturnRefused(fs[1..], AddHeader(h, Lower(f.name), f.value), c, rest);
      OneFieldRead(f, h, SerialiseFields(fs[1..]) + tail);
      Associative(SerialiseField(f), SerialiseFields(fs[1..]), tail);
    }
  }

  lemma {:induction false} BadFieldRefused(f: WireField, h: Head, rest: string)
    requires f.name != [] && ':' !in f.name && !IsSpace(f.name[0]) && '\n' !in f.value
    requires Padding(f.before) && Padding(f.after) && Trimmed(f.value)
    requires !IsName(Lower(f.name)) || exists i :: 0 <= i < |f.value| && f.value[i] != '\t' && (f.value[i] < ' ' || f.value[i] as int == 127)
    ensures ReadHeaders(SerialiseField(f) + rest, h) == Err(BadHeader)
  {
    hide Lower, Trim, IsName, Padding, Trimmed;
    ReadFieldLine(f, rest);
  }

  lemma {:induction false} ReadFieldLine(f: WireField, rest: string)
    requires f.name != [] && ':' !in f.name && !IsSpace(f.name[0]) && '\n' !in f.value
    requires Padding(f.before) && Padding(f.after) && Trimmed(f.value)
    ensures SerialiseField(f) != [] && SerialiseField(f)[0] == f.name[0]
    ensures ReadHeader(SerialiseField(f) + rest) == Ok(((Lower(f.name), f.value), rest))
  {
    var s := SerialiseField(f) + rest;
    var value := f.before + f.value + f.after;
    var more := value + "\n" + rest;
    HeaderPieces(f, rest);
    ReadUntilAt(f.name[1..], ':', more);
    assert [s[0]] + (f.name[1..] + ":") == f.name + ":";
    assert (f.name + ":")[..|f.name|] == f.name;
    assert TrimStart(f.name) == f.name;
    assert '\n' !in value;
    ReadUntilAt(value, '\n', rest);
    assert (value + "\n")[..|value|] == value;
    TrimPadded(f.before, f.value, f.after);
  }

  lemma {:induction false} BadLengthRefused(fs: seq<WireField>, rest: string)
    requires LastValue(fs, "content-length").Some?
    requires forall n: nat :: n < 0x1_0000_0000_0000_0000 ==> !Says(LastValue(fs, "content-length").value, n)
    ensures ReadBody(HeadOf(fs).headers, rest) == Err(InvalidData)
  {
    hide ParseSize, Says, HeadOf, LastValue;
    HeadHoldsLast(fs, "content-length");
    assert NoCapitals("content-length");
    var text := LastValue(fs, "content-length").value;
    if ParseSize(text).Some? {
      ParseSizeExactly(text, ParseSize(text).value);
    }
  }

  // --- Text that is well-formed ---------------------------------------------

  /** Blanks and tabs, and perhaps the carriage return of a line that ends in CRLF. */
  predicate Blank(s: string) {
    forall i :: 0 <= i < |s| ==> s[i] == ' ' || s[i] == '\t' || (s[i] == '\r' && i == |s| - 1)
  }

  predicate Letters(s: string) {
    s != [] && forall i :: 0 <= i < |s| ==>
      'a' <= s[i] <= 'z' || 'A' <= s[i] <= 'Z' || '0' <= s[i] <= '9' || s[i] == '-'
  }

  /** Visible characters, with blanks between them at most. */
  predicate Visible(s: string) {
    && (forall i :: 0 <= i < |s| ==> ' ' <= s[i] <= '~')
    && (s != [] ==> s[0] != ' ' && s[|s| - 1] != ' ')
  }

  /**
   * A field with a name of letters in any case, digits and hyphens, a visible value, and blanks or tabs around
   * it, is good, whether its line ends in LF or in CRLF; and so is a first line of visible words.
   */
  lemma {:induction false} PlainField(f: WireField)
    requires Letters(f.name) && Blank(f.before) && Visible(f.value) && Blank(f.after)
    ensures GoodField(f)
  {
    forall i | 0 <= i < |f.name|
      ensures IsNameChar(Lower(f.name)[i])
    {
      assert Lower(f.name)[i] == LowerChar(f.name[i]);
    }
  }

  lemma {:induction false} PlainLine(verb: string, uri: string, version: string, pad: string)
    requires Visible(verb) && ' ' !in verb && uri != [] && Visible(uri) && ' ' !in uri && Visible(version) && Blank(pad)
    ensures GoodLine(verb, uri, version, pad)
  {}
}
