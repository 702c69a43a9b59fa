/** Bytes, options, sequences and numerals shared by both protocol versions. */
module Base {

  /** One octet. Text is `string`: each character stands for the byte of the same code. */
  type byte = c: char | c as int < 256 witness '\0'

  datatype Option<+T> = None | Some(value: T)

  function Min(a: nat, b: nat): nat {
    if a < b then a else b
  }

  /** The concatenation of all the sequences in `parts`. */
  function Concat<T>(parts: seq<seq<T>>): seq<T> {
    if parts == [] then [] else parts[0] + Concat(parts[1..])
  }

  lemma {:induction false} ConcatAppend<T>(a: seq<seq<T>>, b: seq<seq<T>>)
    ensures Concat(a + b) == Concat(a) + Concat(b)
  {
    if a == [] {
      assert a + b == b;
    } else {
      ConcatAppend(a[1..], b);
      assert (a + b)[1..] == a[1..] + b;
      Associative(a[0], Concat(a[1..]), Concat(b));
    }
  }

  lemma {:induction false} Associative<T>(a: seq<T>, b: seq<T>, c: seq<T>)
    ensures (a + b) + c == a + (b + c)
  {}

  // --- Division ---------------------------------------------------------------

  lemma {:induction false} DivCeil(len: nat, chunk: nat, i: nat)
    requires 0 < chunk && i * chunk < len
    ensures (len + chunk - 1) / chunk == i + 1 <==> len <= (i + 1) * chunk
  {
    var q := (len + chunk - 1) / chunk;
    assert q * chunk <= len + chunk - 1 < q * chunk + chunk;
    assert (i + 1) * chunk == i * chunk + chunk && (i + 2) * chunk == i * chunk + 2 * chunk;
    if q >= i + 2 {
      FactorAtLeast(q, i + 2, chunk);
    } else if q <= i {
      FactorAtLeast(i, q, chunk);
    }
  }

  lemma {:induction false} FactorAtLeast(a: nat, b: nat, c: nat)
    requires a >= b
    ensures a * c >= b * c
  {
    assert a * c == b * c + (a - b) * c;
  }

  lemma {:induction false} Quotient(n: nat, d: nat, q: nat)
    requires d > 0 && q * d <= n < q * d + d
    ensures n / d == q
  {
    var k := n / d;
    assert k * d <= n < k * d + d;
    assert (k + 1) * d == k * d + d && (q + 1) * d == q * d + d;
    if k < q {
      FactorAtLeast(q, k + 1, d);
    } else if k > q {
      FactorAtLeast(k, q + 1, d);
    }
  }

  /** One piece of full size less is one piece fewer. */
  lemma {:induction false} CeilNext(n: nat, size: nat)
    requires 0 < size < n
    ensures (n + size - 1) / size == 1 + (n - size + size - 1) / size
  {
    var q := (n - 1) / size;
    assert q * size <= n - 1 < q * size + size;
    assert (q + 1) * size == q * size + size;
    Quotient(n + size - 1, size, q + 1);
  }

  // --- Numerals -------------------------------------------------------------

  const DIGITS: string := "0123456789abcdef"

  /** `{}` (base ten) and `{:x}` (base sixteen) of Rust's formatter. */
  function Numeral(n: nat, base: nat): (s: string)
    requires base == 10 || base == 16
    ensures s != []
  {
    (if n < base then [] else Numeral(n / base, base)) + [DIGITS[n % base]]
  }

  function DigitValue(c: char): nat {
    if '0' <= c <= '9' then c as int - '0' as int
    else if 'a' <= c <= 'f' then c as int - 'a' as int + 10
    else if 'A' <= c <= 'F' then c as int - 'A' as int + 10
    else 16
  }

  predicate IsNumeral(s: string, base: nat) {
    s != [] && forall i :: 0 <= i < |s| ==> DigitValue(s[i]) < base
  }

  /** The number a digit string denotes, most significant digit first. */
  function NumeralValue(s: string, base: nat): nat {
    if s == [] then 0 else NumeralValue(s[..|s| - 1], base) * base + DigitValue(s[|s| - 1])
  }

  function ParseNumeral(s: string, base: nat): Option<nat> {
    if IsNumeral(s, base) then Some(NumeralValue(s, base)) else None
  }

  /** Printing a number and reading it back is the identity, in either base. */
  lemma {:induction false} NumeralRoundTrip(n: nat, base: nat)
    requires base == 10 || base == 16
    ensures IsNumeral(Numeral(n, base), base) && NumeralValue(Numeral(n, base), base) == n
    decreases n
  {
    hide NumeralValue, IsNumeral, DigitValue;
    var d := DIGITS[n % base];
    DigitRoundTrip(n, base);
    NoDigits(base);
    if n < base {
      AppendDigit([], d, base);
    } else {
      NumeralRoundTrip(n / base, base);
      AppendDigit(Numeral(n / base, base), d, base);
      DivMod(n, base);
    }
  }

  lemma {:induction false} NoDigits(base: nat)
    ensures NumeralValue([], base) * base == 0
  {}

  lemma {:induction false} AppendDigit(s: string, d: char, base: nat)
    requires DigitValue(d) < base
    ensures NumeralValue(s + [d], base) == NumeralValue(s, base) * base + DigitValue(d)
    ensures IsNumeral(s + [d], base) <==> s == [] || IsNumeral(s, base)
  {
    assert (s + [d])[..|s|] == s;
    if IsNumeral(s + [d], base) {
      assert forall i :: 0 <= i < |s| ==> s[i] == (s + [d])[i];
    }
  }

  lemma {:induction false} DivMod(n: nat, base: nat)
    requires base == 10 || base == 16
    ensures n / base * base + n % base == n
  {}

  lemma {:induction false} DigitRoundTrip(n: nat, base: nat)
    requires base == 10 || base == 16
    ensures DigitValue(DIGITS[n % base]) == n % base
  {}

  function Pow(base: nat, k: nat): nat {
    if k == 0 then 1 else base * Pow(base, k - 1)
  }

  lemma {:induction false} PowPositive(base: nat, k: nat)
    requires base > 0
    ensures Pow(base, k) > 0
  {
    if k > 0 {
      PowPositive(base, k - 1);
    }
  }

  lemma {:induction false} DivTwice(n: nat, a: nat, b: nat)
    requires a > 0 && b > 0
    ensures a * b > 0 && n / a / b == n / (a * b)
  {
    var q, r := n / a, n / a / b;
    Division(n, a);
    Division(q, b);
    TwoBounds(n, a, b, q, r);
    Quotient(n, a * b, r);
  }

  lemma {:induction false} Division(n: nat, d: nat)
    requires d > 0
    ensures n / d * d <= n < n / d * d + d
  {}

  lemma {:induction false} TwoBounds(n: nat, a: nat, b: nat, q: nat, r: nat)
    requires a > 0 && b > 0 && q * a <= n < q * a + a && r * b <= q < r * b + b
    ensures a * b > 0 && r * (a * b) <= n < r * (a * b) + a * b
  {
    FactorAtLeast(q, r * b, a);
    FactorAtLeast(r * b + b, q + 1, a);
    assert (q + 1) * a == q * a + a;
    assert (r * b + b) * a == r * b * a + b * a;
    assert r * b * a == r * (a * b) && b * a == a * b;
  }

  /** The digit of weight `Pow(base, k)` in positional notation. */
  function DigitAt(n: nat, base: nat, k: nat): char
    requires base == 10 || base == 16
  {
    PowPositive(base, k);
    "0123456789abcdef"[n / Pow(base, k) % base]
  }

  lemma {:induction false} DigitAtNext(n: nat, base: nat, k: nat)
    requires (base == 10 || base == 16) && k > 0
    ensures DigitAt(n / base, base, k - 1) == DigitAt(n, base, k)
  {
    PowPositive(base, k - 1);
    DivTwice(n, base, Pow(base, k - 1));
  }

  lemma {:induction false} DigitAtZero(n: nat, base: nat)
    requires base == 10 || base == 16
    ensures DigitAt(n, base, 0) == DIGITS[n % base]
  {
    assert Pow(base, 0) == 1;
  }

  /** Numerals are in positional notation, with lower-case letters. */
  lemma {:induction false} NumeralDigit(n: nat, base: nat, k: nat)
    requires (base == 10 || base == 16) && k < |Numeral(n, base)|
    ensures Numeral(n, base)[|Numeral(n, base)| - 1 - k] == DigitAt(n, base, k)
    decreases k
  {
    hide DigitAt;
    if k == 0 {
      DigitAtZero(n, base);
    } else {
      NumeralDigit(n / base, base, k - 1);
      DigitAtNext(n, base, k);
    }
  }

  /** There are as many digits as it takes: none before the first that is not zero. */
  lemma {:induction false} NumeralLength(n: nat, base: nat)
    requires base == 10 || base == 16
    ensures var k := |Numeral(n, base)|; n < Pow(base, k) && (k == 1 || Pow(base, k - 1) <= n)
    decreases n
  {
    var k := |Numeral(n, base)|;
    assert Pow(base, 1) == base * Pow(base, 0);
    if n >= base {
      NumeralLength(n / base, base);
      DivMod(n, base);
      assert Pow(base, k) == base * Pow(base, k - 1) && k >= 2;
      var m := n / base;
      FactorAtLeast(Pow(base, k - 1), m + 1, base);
      assert (m + 1) * base == m * base + base;
      if k > 2 {
        FactorAtLeast(m, Pow(base, k - 2), base);
      }
    }
  }

  /** Numerals are made of digits and lower-case letters only. */
  lemma {:induction false} NumeralChars(n: nat, base: nat)
    requires base == 10 || base == 16
    ensures forall c :: c in Numeral(n, base) ==> '0' <= c <= '9' || 'a' <= c <= 'f'
    decreases n
  {
    if n >= base {
      NumeralChars(n / base, base);
    }
  }
}
