/**
 * A header compression that meets what the theorems about replies suppose, and a run they apply to: every
 * block carries the number of the blocks before it, so that encoder and decoder have to stay in step.
 */
module PlainCodec {
  import opened Base
  import opened HeaderFields
  import opened Http2Frame
  import opened Http2Conn
  import opened Http2Safety
  import opened Http2Exact
  import opened Http2Output

  /** Three octets can tell any character. */
  function EncodeText(s: string): seq<byte> {
    if s == [] then [0 as char]
    else
      var n := s[0] as int;
      [1 as char, Octet(n / 0x1_0000), Octet(n / 0x100), Octet(n)] + EncodeText(s[1..])
  }

  function DecodeText(b: seq<byte>): Option<(string, seq<byte>)>
    decreases |b|
  {
    if b == [] then None
    else if b[0] as int == 0 then Some(([], b[1..]))
    else if |b| < 4 then None
    else
      var n := b[1] as int * 0x1_0000 + b[2] as int * 0x100 + b[3] as int;
      if 0xD800 <= n < 0xE000 || 0x11_0000 <= n then None
      else match DecodeText(b[4..])
        case None => None
        case Some((s, rest)) => Some(([n as char] + s, rest))
  }

  lemma {:induction false} TextBack(s: string, rest: seq<byte>)
    ensures DecodeText(EncodeText(s) + rest) == Some((s, rest))
  {
    if s == [] {
      assert (EncodeText(s) + rest)[1..] == rest;
    } else {
      TextBack(s[1..], rest);
      var n := s[0] as int;
      var first := [1 as char, Octet(n / 0x1_0000), Octet(n / 0x100), Octet(n)];
      Associative(first, EncodeText(s[1..]), rest);
      CharBack(s[0], EncodeText(s[1..]) + rest);
      assert [s[0]] + s[1..] == s;
    }
  }

  lemma {:induction false} CharBack(c: char, tail: seq<byte>)
    ensures var n := c as int;
            var b := [1 as char, Octet(n / 0x1_0000), Octet(n / 0x100), Octet(n)] + tail;
            DecodeText(b) == match DecodeText(tail)
                             case None => None
                             case Some((s, rest)) => Some(([c] + s, rest))
  {
    ThreeOctets(c as int);
    var n := c as int;
    assert ([1 as char, Octet(n / 0x1_0000), Octet(n / 0x100), Octet(n)] + tail)[4..] == tail;
  }

  function EncodeFields(fields: seq<Field>): seq<byte> {
    if fields == [] then [0 as char]
    else [1 as char] + EncodeText(fields[0].name) + EncodeText(fields[0].value) + EncodeFields(fields[1..])
  }

  lemma {:induction false} DecodeTextShorter(b: seq<byte>)
    ensures DecodeText(b).Some? ==> |DecodeText(b).value.1| < |b|
    decreases |b|
  {
    if |b| >= 4 {
      DecodeTextShorter(b[4..]);
    }
  }

  function DecodeFields(b: seq<byte>): Option<seq<Field>>
    decreases |b|
  {
    if b == [] then None
    else if b[0] as int == 0 then if |b| == 1 then Some([]) else None
    else match DecodeText(b[1..])
      case None => None
      case Some((name, afterName)) =>
        DecodeTextShorter(b[1..]);
        match DecodeText(afterName)
        case None => None
        case Some((value, rest)) =>
          DecodeTextShorter(afterName);
          match DecodeFields(rest)
          case None => None
          case Some(fields) => Some([Field(name, value)] + fields)
  }

  lemma {:induction false} FieldsBack(fields: seq<Field>)
    ensures DecodeFields(EncodeFields(fields)) == Some(fields)
  {
    hide EncodeText, DecodeText;
    if fields != [] {
      var name, value, tail := EncodeText(fields[0].name), EncodeText(fields[0].value), EncodeFields(fields[1..]);
      var b := EncodeFields(fields);
      assert b[1..] == name + (value + tail);
      TextBack(fields[0].name, value + tail);
      TextBack(fields[0].value, tail);
      FieldsBack(fields[1..]);
      assert [fields[0]] + fields[1..] == fields;
    }
  }

  function Encode(blocks: nat, fields: seq<Field>): (seq<byte>, nat) {
    ([Octet(blocks)] + EncodeFields(fields), blocks + 1)
  }

  function Decode(blocks: nat, b: seq<byte>): Option<(seq<Field>, nat)> {
    if b == [] || b[0] != Octet(blocks) then None
    else match DecodeFields(b[1..])
      case None => None
      case Some(fields) => Some((fields, blocks + 1))
  }

  predicate SameCount(encoder: nat, decoder: nat) {
    encoder == decoder
  }

  const PLAIN_CODEC: Codec<nat, nat> := Codec(Encode, Decode)
  const PLAIN_ENV: Env<nat, nat> := Env(PLAIN_CODEC, 0, 0, fields => 4096)

  /** The law of header compression can be met. */
  lemma {:induction false} PlainLockstep()
    ensures Lockstep(PLAIN_CODEC, SameCount) && SameCount(PLAIN_ENV.encoder, PLAIN_ENV.decoder) && PLAIN_ENV.Valid()
  {
    hide EncodeFields, DecodeFields, Octet;
    forall e: nat, d: nat, fields | SameCount(e, d)
      ensures PLAIN_CODEC.decode(d, PLAIN_CODEC.encode(e, fields).0) == Some((fields, e + 1))
    {
      FieldsBack(fields);
      assert ([Octet(e)] + EncodeFields(fields))[1..] == EncodeFields(fields);
    }
  }

  // --- A run the theorems apply to ------------------------------------------

  /** A request without header fields that ends its stream. */
  const REQUEST: Frame := New(Headers, 5 as char, 1, Encode(0, []).0)

  lemma {:induction false} RequestFits()
    ensures REQUEST.Fits() && HasFlag(REQUEST.flags, 1)
    ensures DecodeHeaders(PLAIN_ENV, Ledger(0, []), REQUEST) == Some(Ledger(1, [Opening(1, [], false, None)]))
  {
    FieldsBack([]);
    var block := Encode(0, []).0;
    assert !HasFlag(REQUEST.flags, 8) && !HasFlag(REQUEST.flags, 32);
    assert block[0..] == block && block[1..] == EncodeFields([]);
    assert HeaderBlock(REQUEST) == Some(block);
    assert PLAIN_CODEC.decode(0, block) == Some(([], 1));
    assert [] + [Opening(1, [], false, None)] == [Opening(1, [], false, None)];
  }

  /** The block of a plain 200 response. */
  lemma {:induction false} PlainBlock(blocks: nat)
    ensures ReplyFields(PLAIN, []) == [Field(":status", "200")]
    ensures |Encode(blocks, [Field(":status", "200")]).0| == 45
  {
    hide Octet, EncodeText;
    TwoHundred();
    TextSize(":status");
    TextSize("200");
    assert [Field(":status", "200")][1..] == [];
    assert |EncodeFields([])| == 1;
  }

  lemma {:induction false} TwoHundred()
    ensures Numeral(200, 10) == "200"
  {
    assert Numeral(2, 10) == "2";
    assert Numeral(20, 10) == "2" + "0";
    assert Numeral(200, 10) == "2" + "0" + "0";
  }

  lemma {:induction false} TextSize(s: string)
    ensures |EncodeText(s)| == 4 * |s| + 1
  {
    if s != [] {
      TextSize(s[1..]);
    }
  }

  /** With any header compression: a connection that has answered a single request with a plain 200 response. */
  lemma {:induction false} OneAnswer<E, D>(env: Env<E, D>, f: Frame) returns (es: seq<Event>, s: State<E, D>)
    requires env.Valid() && PlainFits(env) && f.Fits() && f.typ.Headers? && HasFlag(f.flags, 1)
    requires DecodeHeaders(env, Ledger(env.decoder, []), f).Some?
    ensures Run(env, Initial(env), es) == Next(s) && Clean(env, Initial(env), es)
    ensures Delivered(es) == PREFACE + Encoded(f) && FineConnection(env, Delivered(es))
    ensures Some(s.ledger) == DecodeHeaders(env, Ledger(env.decoder, []), f)
    ensures s.phases == [Answered(PLAIN, [])] && s.answered == [0] && !s.reader.AwaitPreface?
  {
    hide Run, Clean, Leads, Parse, Encoded, EncodedAll, Delivered, DecodeHeaders, FineConnection, Greet;
    var b := PREFACE + Encoded(f);
    var start := Initial(env).(incoming := b, received := b);
    var first, read := RequestRead(env, f, start);
    var more;
    more, s := AnswerLeads(env, read, 0);
    LeadsOn(env, start, first, read, more, Next(s));
    LeadsMeans(env, start, first + more, Next(s));
    Arrival(env, b);
    RunAppend(env, Initial(env), [Arrive(b)], first + more);
    CleanAppend(env, Initial(env), [Arrive(b)], first + more);
    DeliveredAppend([Arrive(b)], first + more);
    es := [Arrive(b)] + (first + more);
    assert b + [] == b;
    RequestFine(env, f);
  }

  lemma {:induction false} RequestFine<E, D>(env: Env<E, D>, f: Frame)
    requires f.Fits() && f.typ.Headers? && DecodeHeaders(env, Ledger(env.decoder, []), f).Some?
    ensures FineConnection(env, PREFACE + Encoded(f))
    ensures Parse(Encoded(f)) == Complete(f, []) && Admit(env, Ledger(env.decoder, []), f) == DecodeHeaders(env, Ledger(env.decoder, []), f)
  {
    hide Parse, Encoded, DecodeHeaders;
    var b := PREFACE + Encoded(f);
    ParseEncoded(f, []);
    NoFrame();
    assert Encoded(f) + [] == Encoded(f) && b[..24] == PREFACE && b[24..] == Encoded(f);
    var l := DecodeHeaders(env, Ledger(env.decoder, []), f).value;
    assert Fine(env, l, []);
  }

  lemma {:induction false} RequestRead<E, D>(env: Env<E, D>, f: Frame, start: State<E, D>)
    returns (es: seq<Event>, read: State<E, D>)
    requires f.Fits() && f.typ.Headers? && HasFlag(f.flags, 1) && DecodeHeaders(env, Ledger(env.decoder, []), f).Some?
    requires var b := PREFACE + Encoded(f); start == Initial(env).(incoming := b, received := b)
    ensures Leads(env, start, es, Next(read)) && Lazy(env, read) && read.answered == []
    ensures Some(read.ledger) == DecodeHeaders(env, Ledger(env.decoder, []), f)
    ensures |read.phases| == |read.ledger.requests| == 1 && !Unserved(read.ledger.requests[0])
  {
    hide Leads, Lazy, Inv, Parse, Encoded, DecodeHeaders, Admit, Initial, FineConnection;
    RequestFine(env, f);
    var b := PREFACE + Encoded(f);
    assert b[..24] == PREFACE && b[24..] == Encoded(f);
    var greeted := StartGreeted(env, start, b);
    read := LazyReads(env, greeted);
    LeadsOn(env, start, [PollReader], greeted, [PollReader], Next(read));
    es := [PollReader] + [PollReader];
    FirstOpening(env, f);
    LazyTasks(env, read);
  }

  lemma {:induction false} StartGreeted<E, D>(env: Env<E, D>, start: State<E, D>, b: seq<byte>) returns (greeted: State<E, D>)
    requires start == Initial(env).(incoming := b, received := b) && |b| >= 24 && b[..24] == PREFACE
    ensures Leads(env, start, [PollReader], Next(greeted)) && Lazy(env, greeted) && greeted.incoming == b[24..]
    ensures greeted.ledger == Ledger(env.decoder, []) && greeted.answered == []
  {
    hide Leads, Lazy;
    greeted := Greeted(env, start);
  }

  lemma {:induction false} LazyTasks<E, D>(env: Env<E, D>, s: State<E, D>)
    requires Lazy(env, s)
    ensures |s.phases| == |s.ledger.requests|
  {
    SameTasks(s);
  }

  /**
   * For this compression the hypotheses of the theorem about replies hold, and there is a run with an answer,
   * of which a client reads the one reply.
   */
  lemma {:induction false} ReplyWitnessed() returns (es: seq<Event>)
    ensures PLAIN_ENV.Valid() && Lockstep(PLAIN_CODEC, SameCount) && SameCount(PLAIN_ENV.encoder, 0)
    ensures FineConnection(PLAIN_ENV, Delivered(es)) && Clean(PLAIN_ENV, Initial(PLAIN_ENV), es)
    ensures var o := Run(PLAIN_ENV, Initial(PLAIN_ENV), es);
            && o.Next? && o.state.answered == [0]
            && Logged(PLAIN_ENV, o.state.ledger.requests, o.state.phases, o.state.answered)
            && BlocksFit(Written(PLAIN_ENV, o.state.ledger.requests, o.state.phases, o.state.answered).0)
            && ReadConnection(PLAIN_CODEC, 0, o.state.out) == Some([Reply(1, [Field(":status", "200")], [])])
  {
    hide Run, Clean, FineConnection, Encode, Decode, DecodeHeaders, Encoded, Numeral, Delivered, ReadConnection, Lockstep, ReplyFields;
    PlainLockstep();
    PlainBlock(0);
    RequestFits();
    var s;
    es, s := OneAnswer(PLAIN_ENV, REQUEST);
    ClientReadsReplies(PLAIN_ENV, SameCount, 0, es);
    OneWritten(s.ledger.requests, s.phases);
    assert Replies(s.ledger.requests, s.phases, [0]) == [Reply(1, [Field(":status", "200")], [])];
  }

  lemma {:induction false} OneWritten(requests: seq<Opening>, phases: seq<Phase>)
    requires requests == [Opening(1, [], false, None)] && phases == [Answered(PLAIN, [])]
    ensures Logged(PLAIN_ENV, requests, phases, [0]) && BlocksFit(Written(PLAIN_ENV, requests, phases, [0]).0)
  {
    hide Encode, ReplyFields;
    PlainBlock(0);
    var block := Encode(0, ReplyFields(PLAIN, [])).0;
    assert [0][..0] == [];
    assert Written(PLAIN_ENV, requests, phases, []) == (GREETING, 0);
    assert Written(PLAIN_ENV, requests, phases, [0]).0 == GREETING + [New(Headers, END_HEADERS, 1, block), New(Data, END_STREAM, 1, [])];
  }
}
