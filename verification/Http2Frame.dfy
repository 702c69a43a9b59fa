/**
 * The HTTP/2 frame codec (section 4.1 of RFC 9113) and its resumable reader.
 */
module Http2Frame {
  import opened Base

  datatype FrameType =
    | Data | Headers | Priority | RstStream | Settings
    | PushPromise | Ping | GoAway | WindowUpdate | Continuation

  const END_STREAM: byte := 1 as char
  const END_HEADERS: byte := 4 as char
  const NO_FLAGS: byte := 0 as char

  predicate HasFlag(flags: byte, bit: nat)
    requires bit > 0
  {
    flags as int / bit % 2 == 1
  }

  function TypeCode(t: FrameType): byte {
    match t
    case Data => 0 as char
    case Headers => 1 as char
    case Priority => 2 as char
    case RstStream => 3 as char
    case Settings => 4 as char
    case PushPromise => 5 as char
    case Ping => 6 as char
    case GoAway => 7 as char
    case WindowUpdate => 8 as char
    case Continuation => 9 as char
  }

  function TypeOf(code: byte): Option<FrameType> {
    match code as int
    case 0 => Some(Data)
    case 1 => Some(Headers)
    case 2 => Some(Priority)
    case 3 => Some(RstStream)
    case 4 => Some(Settings)
    case 5 => Some(PushPromise)
    case 6 => Some(Ping)
    case 7 => Some(GoAway)
    case 8 => Some(WindowUpdate)
    case 9 => Some(Continuation)
    case _ => None
  }

  /** `length` is a `u32`: `New` truncates the payload's length to it. */
  datatype Frame = Frame(length: nat, typ: FrameType, flags: byte, id: nat, payload: seq<byte>) {
    /** What `New` builds from a payload that fits a `u32`; `encode` panics on any other frame. */
    predicate Sized() {
      length == |payload| < 0x1_0000_0000 && id < 0x1_0000_0000
    }

    /** The frames the 24-bit length and the 31-bit identifier can carry. */
    predicate Fits() {
      length == |payload| < 0x100_0000 && id < 0x8000_0000
    }
  }

  function New(typ: FrameType, flags: byte, id: nat, payload: seq<byte>): Frame {
    Frame(|payload| % 0x1_0000_0000, typ, flags, id, payload)
  }

  function Octet(n: nat): byte {
    (n % 256) as char
  }

  /** The nine header octets that `encode` writes. */
  function Head(f: Frame): (h: seq<byte>)
    ensures |h| == 9
  {
    var id := f.id % 0x8000_0000;
    [Octet(f.length / 0x1_0000), Octet(f.length / 0x100), Octet(f.length), TypeCode(f.typ), f.flags,
     Octet(id / 0x100_0000), Octet(id / 0x1_0000), Octet(id / 0x100), Octet(id)]
  }

  function Encoded(f: Frame): seq<byte> {
    Head(f) + f.payload
  }

  function EncodedAll(fs: seq<Frame>): seq<byte> {
    if fs == [] then [] else Encoded(fs[0]) + EncodedAll(fs[1..])
  }

  lemma {:induction false} EncodedAllAppend(a: seq<Frame>, b: seq<Frame>)
    ensures EncodedAll(a + b) == EncodedAll(a) + EncodedAll(b)
  {
    if a == [] {
      assert a + b == b;
    } else {
      EncodedAllAppend(a[1..], b);
      assert (a + b)[1..] == a[1..] + b;
      Associative(Encoded(a[0]), EncodedAll(a[1..]), EncodedAll(b));
    }
  }

  /** `encode`: a zeroed buffer of nine octets plus the payload, filled in place. */
  method Encode(f: Frame) returns (buf: array<byte>)
    requires f.Sized()
    ensures fresh(buf) && buf[..] == Encoded(f)
  {
    buf := new byte[9 + f.length](_ => NO_FLAGS);
    buf[0] := Octet(f.length / 0x1_0000);
    buf[1] := Octet(f.length / 0x100);
    buf[2] := Octet(f.length);
    buf[3] := TypeCode(f.typ);
    buf[4] := f.flags;
    var masked := f.id % 0x8000_0000;
    buf[5] := Octet(masked / 0x100_0000);
    buf[6] := Octet(masked / 0x1_0000);
    buf[7] := Octet(masked / 0x100);
    buf[8] := Octet(masked);
    assert buf[..9] == Head(f);
    forall i | 0 <= i < |f.payload| {
      buf[9 + i] := f.payload[i];
    }
    assert buf[..] == buf[..9] + buf[9..];
    assert buf[9..] == f.payload;
  }

  // --- Reading --------------------------------------------------------------

  function LengthOf(head: seq<byte>): nat
    requires |head| >= 9
  {
    head[0] as int * 0x1_0000 + head[1] as int * 0x100 + head[2] as int
  }

  function IdOf(head: seq<byte>): nat
    requires |head| >= 9
  {
    (head[5] as int * 0x100_0000 + head[6] as int * 0x1_0000 + head[7] as int * 0x100 + head[8] as int) % 0x8000_0000
  }

  /** The frame of a header and payload read in full; `None` where the type conversion panics. */
  function Assemble(head: seq<byte>, payload: seq<byte>): Option<Frame>
    requires |head| >= 9
  {
    match TypeOf(head[3])
    case Some(t) => Some(Frame(LengthOf(head), t, head[4], IdOf(head), payload))
    case None => None
  }

  datatype Parsed = Incomplete | Unknown | Complete(frame: Frame, rest: seq<byte>)

  /** Batch parsing, the reference for the reader: the first frame of a whole buffer. */
  function Parse(b: seq<byte>): (p: Parsed)
    ensures p.Complete? ==> |p.rest| < |b| && p.rest == b[|b| - |p.rest|..]
  {
    if |b| < 9 || |b| < 9 + LengthOf(b) then Incomplete
    else
      var n := 9 + LengthOf(b);
      match Assemble(b, b[9..n])
      case Some(f) => Complete(f, b[n..])
      case None => Unknown
  }

  /** All the frames a buffer holds, up to the first incomplete or unknown one, and what follows them. */
  function ParseAll(b: seq<byte>): (seq<Frame>, seq<byte>)
    decreases |b|
  {
    match Parse(b)
    case Complete(f, rest) => var (fs, tail) := ParseAll(rest); ([f] + fs, tail)
    case _ => ([], b)
  }

  /** Appending bytes to a buffer does not change a frame already complete in it. */
  lemma {:induction false} ParseExtend(a: seq<byte>, b: seq<byte>)
    requires !Parse(a).Incomplete?
    ensures Parse(a).Unknown? ==> Parse(a + b).Unknown?
    ensures Parse(a).Complete? ==> Parse(a + b) == Complete(Parse(a).frame, Parse(a).rest + b)
  {
    var n := 9 + LengthOf(a);
    assert LengthOf(a + b) == LengthOf(a) && IdOf(a + b) == IdOf(a);
    assert (a + b)[9..n] == a[9..n];
    assert (a + b)[n..] == a[n..] + b;
  }

  /** The batch parse of `a + b` is that of `a` followed by that of what `a` left over, plus `b`. */
  lemma {:induction false} ParseAllExtend(a: seq<byte>, b: seq<byte>)
    ensures var (fs, rest) := ParseAll(a); var (gs, tail) := ParseAll(rest + b);
            ParseAll(a + b) == (fs + gs, tail)
    decreases |a|
  {
    hide Parse;
    if Parse(a).Complete? {
      var f, rest := Parse(a).frame, Parse(a).rest;
      ParseExtend(a, b);
      ParseAllExtend(rest, b);
      var (fs, left) := ParseAll(rest);
      var (gs, tail) := ParseAll(left + b);
      Associative([f], fs, gs);
    } else {
      assert [] + ParseAll(a + b).0 == ParseAll(a + b).0;
    }
  }

  /** Decoding inverts encoding exactly on the frames whose length and identifier fit their fields. */
  lemma {:induction false} ParseEncoded(f: Frame, rest: seq<byte>)
    requires f.Sized()
    ensures Parse(Encoded(f) + rest) == Complete(f, rest) <==> f.Fits()
  {
    hide Head, LengthOf, IdOf;
    var b := Encoded(f) + rest;
    EncodedPieces(f, rest);
    HeadFields(f, b);
  }

  lemma {:induction false} EncodedPieces(f: Frame, rest: seq<byte>)
    ensures var b := Encoded(f) + rest; var n := 9 + |f.payload|;
            b[..9] == Head(f) && b[9..n] == f.payload && b[n..] == rest
  {}

  lemma {:induction false} HeadFields(f: Frame, b: seq<byte>)
    requires |b| >= 9 && b[..9] == Head(f)
    ensures LengthOf(b) == f.length % 0x100_0000 && IdOf(b) == f.id % 0x8000_0000
    ensures b[4] == f.flags && TypeOf(b[3]) == Some(f.typ)
  {
    assert forall i :: 0 <= i < 9 ==> b[i] == b[..9][i];
    ThreeOctets(f.length);
    FourOctets(f.id);
  }

  lemma {:induction false} ThreeOctets(n: nat)
    ensures n / 0x1_0000 % 256 * 0x1_0000 + n / 0x100 % 256 * 0x100 + n % 256 == n % 0x100_0000
  {
    var a, b, c, j := n % 256, n / 0x100 % 256, n / 0x1_0000 % 256, n / 0x100_0000;
    assert n == 0x100 * (n / 0x100) + a;
    assert n / 0x100 == 0x100 * (n / 0x1_0000) + b;
    assert n / 0x1_0000 == 0x100 * j + c;
    assert n == 0x100_0000 * j + (0x1_0000 * c + 0x100 * b + a);
  }

  lemma {:induction false} FourOctets(n: nat)
    ensures var m := n % 0x8000_0000;
            m / 0x100_0000 % 256 * 0x100_0000 + m / 0x1_0000 % 256 * 0x1_0000 + m / 0x100 % 256 * 0x100 + m % 256 == m
  {
    var m := n % 0x8000_0000;
    ThreeOctets(m);
  }

  /** The type codes of section 6 of RFC 9113. */
  predicate HasCode(t: FrameType, code: nat) {
    match t
    case Data => code == 0x0
    case Headers => code == 0x1
    case Priority => code == 0x2
    case RstStream => code == 0x3
    case Settings => code == 0x4
    case PushPromise => code == 0x5
    case Ping => code == 0x6
    case GoAway => code == 0x7
    case WindowUpdate => code == 0x8
    case Continuation => code == 0x9
  }

  /**
   * The layout of section 4.1 of RFC 9113: a 24-bit length, the type, the flags, a zero bit and a 31-bit
   * identifier, most significant octet first, and the payload.
   */
  lemma {:induction false} EncodedLayout(f: Frame)
    requires f.Fits()
    ensures var b := Encoded(f);
            && |b| == 9 + |f.payload| && b[9..] == f.payload
            && b[0] as int * 65536 + b[1] as int * 256 + b[2] as int == |f.payload|
            && HasCode(f.typ, b[3] as int) && b[4] == f.flags
            && b[5] as int < 128
            && b[5] as int * 16777216 + b[6] as int * 65536 + b[7] as int * 256 + b[8] as int == f.id
  {
    hide Octet;
    assert Encoded(f)[9..] == f.payload;
    OctetsOfLength(f.length);
    OctetsOfId(f.id);
  }

  lemma {:induction false} OctetsOfLength(n: nat)
    requires n < 0x100_0000
    ensures Octet(n / 0x1_0000) as int * 65536 + Octet(n / 0x100) as int * 256 + Octet(n) as int == n
  {
    ThreeOctets(n);
  }

  lemma {:induction false} OctetsOfId(n: nat)
    requires n < 0x8000_0000
    ensures n % 0x8000_0000 == n && Octet(n / 0x100_0000) as int < 128
    ensures Octet(n / 0x100_0000) as int * 16777216 + Octet(n / 0x1_0000) as int * 65536 + Octet(n / 0x100) as int * 256
            + Octet(n) as int == n
  {
    FourOctets(n);
  }

  /** The octets of the flags, and the preface of section 3.4 of RFC 9113. */
  lemma {:induction false} WireValues()
    ensures NO_FLAGS as int == 0 && END_STREAM as int == 0x1 && END_HEADERS as int == 0x4
    ensures PREFACE == "PRI * HTTP/2.0\r\n\r\nSM\r\n\r\n" && |PREFACE| == 24
  {}

  /** A concatenation of encoded frames parses back to the same frames, with nothing left over. */
  lemma {:induction false} ParseEncodedAll(fs: seq<Frame>, rest: seq<byte>)
    requires forall f :: f in fs ==> f.Fits()
    requires Parse(rest).Incomplete?
    ensures ParseAll(EncodedAll(fs) + rest) == (fs, rest)
  {
    if fs == [] {
      assert EncodedAll(fs) + rest == rest;
    } else {
      ParseEncodedAll(fs[1..], rest);
      ParseAllEncoded(fs[0], EncodedAll(fs[1..]) + rest);
      Associative(Encoded(fs[0]), EncodedAll(fs[1..]), rest);
      assert fs == [fs[0]] + fs[1..];
    }
  }

  lemma {:induction false} ParseAllEncoded(f: Frame, b: seq<byte>)
    requires f.Fits()
    ensures ParseAll(Encoded(f) + b) == ([f] + ParseAll(b).0, ParseAll(b).1)
  {
    assert f.Sized();
    ParseEncoded(f, b);
  }

  /** The bytes of a buffer with the reserved bit of its first frame's identifier cleared. */
  function ReservedCleared(b: seq<byte>): seq<byte>
    requires |b| >= 9
  {
    b[5 := (b[5] as int % 128) as char]
  }

  /** Encoding a parsed frame gives back the bytes it was parsed from, with only the reserved bit cleared. */
  lemma {:induction false} EncodeParsed(b: seq<byte>)
    requires Parse(b).Complete?
    ensures Parse(b).frame.Fits()
    ensures Encoded(Parse(b).frame) + Parse(b).rest == ReservedCleared(b)
  {
    var n := 9 + LengthOf(b);
    HeadParsed(b);
    assert ReservedCleared(b) == ReservedCleared(b)[..9] + b[9..n] + b[n..];
  }

  lemma {:induction false} HeadParsed(b: seq<byte>)
    requires Parse(b).Complete?
    ensures Parse(b).frame.Fits() && Head(Parse(b).frame) == ReservedCleared(b)[..9]
  {
    hide Octet;
    TypeCodeOf(b[3]);
    LengthOctets(b[0], b[1], b[2]);
    IdentifierOctets(b[5], b[6], b[7], b[8]);
  }

  lemma {:induction false} TypeCodeOf(code: byte)
    ensures TypeOf(code).Some? ==> TypeCode(TypeOf(code).value) == code
  {}

  lemma {:induction false} LengthOctets(a: byte, b: byte, c: byte)
    ensures var n := a as int * 0x1_0000 + b as int * 0x100 + c as int;
            n < 0x100_0000 && Octet(n / 0x1_0000) == a && Octet(n / 0x100) == b && Octet(n) == c
  {
    ThreeDigits(0, a as int, b as int, c as int);
  }

  lemma {:induction false} IdentifierOctets(a: byte, b: byte, c: byte, d: byte)
    ensures var n := (a as int * 0x100_0000 + b as int * 0x1_0000 + c as int * 0x100 + d as int) % 0x8000_0000;
            n < 0x8000_0000 && Octet(n / 0x100_0000) == (a as int % 128) as char
            && Octet(n / 0x1_0000) == b && Octet(n / 0x100) == c && Octet(n) == d
  {
    Masked(a as int, b as int * 0x1_0000 + c as int * 0x100 + d as int);
    ThreeDigits(a as int % 128, b as int, c as int, d as int);
  }

  lemma {:induction false} Masked(a: nat, low: nat)
    requires a < 256 && low < 0x100_0000
    ensures (a * 0x100_0000 + low) % 0x8000_0000 == a % 128 * 0x100_0000 + low
  {
    assert a * 0x100_0000 + low == a / 128 * 0x8000_0000 + (a % 128 * 0x100_0000 + low);
  }

  lemma {:induction false} ThreeDigits(a: nat, b: nat, c: nat, d: nat)
    requires a < 256 && b < 256 && c < 256 && d < 256
    ensures var n := a * 0x100_0000 + b * 0x1_0000 + c * 0x100 + d;
            n / 0x100_0000 == a && n / 0x1_0000 == a * 0x100 + b && n / 0x100 == a * 0x1_0000 + b * 0x100 + c
            && n / 0x1_0000 % 256 == b && n / 0x100 % 256 == c && n % 256 == d
  {}

  /** Whatever is parsed fits. */
  lemma {:induction false} ParsedFit(b: seq<byte>)
    ensures forall f :: f in ParseAll(b).0 ==> f.Fits()
    decreases |b|
  {
    hide Parse;
    if Parse(b).Complete? {
      EncodeParsed(b);
      ParsedFit(Parse(b).rest);
      var fs := ParseAll(Parse(b).rest).0;
      assert forall f :: f in [Parse(b).frame] + fs <==> f == Parse(b).frame || f in fs;
    }
  }

  /** Encoded frames read back as they were, with nothing left over, exactly when all of them fit. */
  lemma {:induction false} EncodedReadBack(fs: seq<Frame>)
    ensures ParseAll(EncodedAll(fs)) == (fs, []) <==> forall f :: f in fs ==> f.Fits()
  {
    hide Encoded, Parse;
    ParsedFit(EncodedAll(fs));
    if forall f :: f in fs ==> f.Fits() {
      assert Parse([]).Incomplete? by { NoFrame(); }
      ParseEncodedAll(fs, []);
      assert EncodedAll(fs) + [] == EncodedAll(fs);
    }
  }

  lemma {:induction false} NoFrame()
    ensures Parse([]).Incomplete?
  {}

  // --- The resumable reader -------------------------------------------------

  const PREFACE: seq<byte> := "PRI * HTTP/2.0\r\n\r\nSM\r\n\r\n"

  /**
   * Where the connection's pending read stands: `read_exact` keeps the octets it has so far, so a
   * future that is kept across interruptions goes on from here.
   */
  datatype Reader =
    | AwaitPreface(filled: seq<byte>)
    | AwaitHead(filled: seq<byte>)
    | AwaitPayload(head: seq<byte>, filled: seq<byte>)
  {
    predicate Valid() {
      match this
      case AwaitPreface(b) => |b| < 24
      case AwaitHead(b) => |b| < 9
      case AwaitPayload(h, b) => |h| == 9 && |b| < LengthOf(h)
    }

    /** The octets taken from the connection and not yet part of a finished read. */
    function Held(): seq<byte> {
      match this
      case AwaitPayload(h, b) => h + b
      case _ => filled
    }
  }

  const START := AwaitHead([])

  datatype Polled = Pending(reader: Reader) | BadType | Ready(frame: Frame, rest: seq<byte>)

  /** One poll of `read_frame`: take what is there, first for the header, then for the payload. */
  function Poll(r: Reader, avail: seq<byte>): Polled
    requires r.Valid() && !r.AwaitPreface?
  {
    match r
    case AwaitHead(b) =>
      var n := Min(9 - |b|, |avail|);
      var head := b + avail[..n];
      if |head| < 9 then Pending(AwaitHead(head)) else PollPayload(head, [], avail[n..])
    case AwaitPayload(h, b) => PollPayload(h, b, avail)
  }

  function PollPayload(head: seq<byte>, filled: seq<byte>, avail: seq<byte>): Polled
    requires |head| == 9 && |filled| <= LengthOf(head)
  {
    var n := Min(LengthOf(head) - |filled|, |avail|);
    var payload := filled + avail[..n];
    if |payload| < LengthOf(head) then Pending(AwaitPayload(head, payload))
    else match Assemble(head, payload)
      case Some(f) => Ready(f, avail[n..])
      case None => BadType
  }

  /**
   * Wherever an interruption left the reader, the next poll gives what batch parsing gives on the
   * octets held and the octets available together, and holds on to all of them if that is not a frame.
   */
  lemma {:induction false} PollIsParse(r: Reader, avail: seq<byte>)
    requires r.Valid() && !r.AwaitPreface?
    ensures match Poll(r, avail)
            case Pending(r') => Parse(r.Held() + avail).Incomplete? && r'.Valid() && !r'.AwaitPreface? && r'.Held() == r.Held() + avail
            case BadType => Parse(r.Held() + avail).Unknown?
            case Ready(f, rest) => Parse(r.Held() + avail) == Complete(f, rest)
  {
    match r
    case AwaitHead(b) =>
      if |b| + |avail| < 9 {
        assert avail[..|avail|] == avail;
      } else {
        var n := 9 - |b|;
        HeadThenPayload(b, avail, n);
        PollPayloadIsParse(b + avail[..n], [], avail[n..]);
      }
    case AwaitPayload(h, b) =>
      assert r.Held() + avail == h + (b + avail);
      PollPayloadIsParse(h, b, avail);
  }

  /** A new read on a buffer that starts with a frame. */
  lemma {:induction false} PollFresh(avail: seq<byte>)
    ensures Parse(avail).Unknown? ==> Poll(START, avail).BadType?
    ensures Parse(avail).Complete? ==> Poll(START, avail) == Ready(Parse(avail).frame, Parse(avail).rest)
  {
    PollIsParse(START, avail);
    assert START.Held() + avail == avail;
  }

  lemma {:induction false} HeadThenPayload(b: seq<byte>, avail: seq<byte>, n: nat)
    requires n <= |avail|
    ensures b + avail == (b + avail[..n]) + ([] + avail[n..])
  {}

  lemma {:induction false} PollPayloadIsParse(head: seq<byte>, filled: seq<byte>, avail: seq<byte>)
    requires |head| == 9 && |filled| <= LengthOf(head)
    ensures var all := head + (filled + avail);
            match PollPayload(head, filled, avail)
            case Pending(r') => Parse(all).Incomplete? && r'.Valid() && !r'.AwaitPreface? && r'.Held() == all
            case BadType => Parse(all).Unknown?
            case Ready(f, rest) => Parse(all) == Complete(f, rest)
  {
    var all := head + (filled + avail);
    var n := Min(LengthOf(head) - |filled|, |avail|);
    var payload := filled + avail[..n];
    assert all[..9] == head;
    assert LengthOf(all) == LengthOf(head) && IdOf(all) == IdOf(head);
    if |payload| < LengthOf(head) {
      assert avail[..n] == avail;
    } else {
      var k := 9 + LengthOf(head);
      assert all[9..k] == payload;
      assert all[k..] == avail[n..];
    }
  }
}
