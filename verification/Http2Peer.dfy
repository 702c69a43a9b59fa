/**
 * The connection seen from its peer: the peer encodes requests and bodies into frames with its own header
 * compression, and the connection opens exactly these requests, each with its own fields and body.
 */
module Http2Peer {
  import opened Base
  import opened HeaderFields
  import opened Http2Frame
  import opened Http2Conn
  import opened Http2Safety
  import opened Http2Input
  import opened Http2Output

  // --- What a peer sends ----------------------------------------------------

  /** A request, with the pad length and the priority octets its flags announce; a body; or another frame. */
  datatype Message =
    | Request(id: nat, flags: byte, pad: seq<byte>, priority: seq<byte>, fields: seq<Field>)
    | Body(id: nat, flags: byte, payload: seq<byte>)
    | Other(frame: Frame)

  /** PADDED is 0x8 and PRIORITY 0x20 (section 6.2 of RFC 9113); what is not a request or a body is neither HEADERS nor DATA. */
  predicate Proper(m: Message) {
    match m
    case Request(_, flags, pad, priority, _) =>
      && |pad| == (if flags as int / 8 % 2 == 1 then 1 else 0)
      && |priority| == (if flags as int / 32 % 2 == 1 then 5 else 0)
    case Body(_, _, _) => true
    case Other(f) => !f.typ.Data? && !f.typ.Headers?
  }

  /** END_STREAM is 0x1. */
  predicate EndsStream(m: Message)
    requires m.Request?
  {
    m.flags as int % 2 == 1
  }

  /** The frame of a message, and the peer's encoder after it. */
  function FrameOf<P>(enc: (P, seq<Field>) -> (seq<byte>, P), p: P, m: Message): (Frame, P) {
    match m
    case Request(id, flags, pad, priority, fields) =>
      var (block, p') := enc(p, fields);
      var payload := pad + priority + block;
      (Frame(|payload|, Headers, flags, id, payload), p')
    case Body(id, flags, payload) => (Frame(|payload|, Data, flags, id, payload), p)
    case Other(f) => (f, p)
  }

  /** The frames of all messages, header blocks encoded in the order they are sent. */
  function Wire<P>(enc: (P, seq<Field>) -> (seq<byte>, P), p: P, ms: seq<Message>): (r: (seq<Frame>, P))
    ensures |r.0| == |ms|
  {
    if ms == [] then ([], p)
    else
      var (fs, q) := Wire(enc, p, ms[..|ms| - 1]);
      var (f, q') := FrameOf(enc, q, ms[|ms| - 1]);
      (fs + [f], q')
  }

  function FramesOf<P>(enc: (P, seq<Field>) -> (seq<byte>, P), p: P, ms: seq<Message>): (fs: seq<Frame>)
    ensures |fs| == |ms|
  {
    Wire(enc, p, ms).0
  }

  lemma {:induction false} WireMore<P>(enc: (P, seq<Field>) -> (seq<byte>, P), p: P, ms: seq<Message>, m: Message)
    ensures var (f, q) := FrameOf(enc, Wire(enc, p, ms).1, m);
            Wire(enc, p, ms + [m]) == (FramesOf(enc, p, ms) + [f], q)
  {
    assert (ms + [m])[..|ms|] == ms;
  }

  lemma {:induction false} WirePrefix<P>(enc: (P, seq<Field>) -> (seq<byte>, P), p: P, ms: seq<Message>, k: nat)
    requires k <= |ms|
    ensures FramesOf(enc, p, ms)[..k] == FramesOf(enc, p, ms[..k])
    decreases |ms|
  {
    if k == |ms| {
      assert ms[..k] == ms;
    } else {
      var n := |ms| - 1;
      WirePrefix(enc, p, ms[..n], k);
      assert ms[..n][..k] == ms[..k];
    }
  }

  // --- What the connection makes of it --------------------------------------

  /** Where the requests are among the messages, in order. */
  function Opens(ms: seq<Message>): (at: seq<nat>)
    ensures forall k :: 0 <= k < |at| ==> at[k] < |ms| && ms[at[k]].Request?
    ensures forall j, k :: 0 <= j < k < |at| ==> at[j] < at[k]
    ensures forall j :: 0 <= j < |ms| && ms[j].Request? ==> j in at
  {
    if ms == [] then []
    else
      var n := |ms| - 1;
      var at := Opens(ms[..n]);
      assert forall j :: 0 <= j < n ==> ms[..n][j] == ms[j];
      if ms[n].Request? then
        assert (at + [n])[|at|] == n && forall j :: j in at ==> j in at + [n];
        at + [n]
      else at
  }

  lemma {:induction false} OpensMore(ms: seq<Message>, m: Message)
    ensures Opens(ms + [m]) == if m.Request? then Opens(ms) + [|ms|] else Opens(ms)
  {
    assert (ms + [m])[..|ms|] == ms;
  }

  predicate OnStream(m: Message, id: nat) {
    !m.Other? && m.id == id
  }

  /** What the next message on stream `id`, from message `k` on, gives the request before it for a body. */
  function BodyFrom(ms: seq<Message>, id: nat, k: nat): Option<seq<byte>>
    decreases |ms| - k
  {
    if k >= |ms| then None
    else if OnStream(ms[k], id) then if ms[k].Body? then Some(ms[k].payload) else None
    else BodyFrom(ms, id, k + 1)
  }

  /** The request of message `j`: its own id and fields, and as its body the DATA that comes next on its stream. */
  predicate Mirrors(o: Opening, ms: seq<Message>, j: nat)
    requires j < |ms| && ms[j].Request?
  {
    && o.id == ms[j].id && o.fields == ms[j].fields && (o.needsBody <==> !EndsStream(ms[j]))
    && o.body == BodyFrom(ms, ms[j].id, j + 1)
  }

  /** The requests are those sent, in order. */
  predicate AllMirrored(requests: seq<Opening>, ms: seq<Message>) {
    && |requests| == |Opens(ms)|
    && forall k :: 0 <= k < |requests| ==> Mirrors(requests[k], ms, Opens(ms)[k])
  }

  /** Without regard to bodies. */
  predicate HeadsMirrored(requests: seq<Opening>, ms: seq<Message>) {
    && |requests| == |Opens(ms)|
    && forall k :: 0 <= k < |requests| ==>
         var m := ms[Opens(ms)[k]];
         requests[k].id == m.id && requests[k].fields == m.fields && (requests[k].needsBody <==> !EndsStream(m))
  }

  // --- Decoding a request ---------------------------------------------------

  /** The law of header compression, between the peer's encoder and the connection's decoder. */
  ghost predicate PeerLaw<E, D(!new), P(!new)>(env: Env<E, D>, enc: (P, seq<Field>) -> (seq<byte>, P), inStep: (P, D) -> bool) {
    Lockstep(Codec(enc, env.codec.decode), inStep)
  }

  lemma {:induction false} RequestDecodes<E, D(!new), P(!new)>(env: Env<E, D>, enc: (P, seq<Field>) -> (seq<byte>, P),
      inStep: (P, D) -> bool, p: P, l: Ledger<D>, m: Message)
    requires PeerLaw(env, enc, inStep) && inStep(p, l.dec) && m.Request? && Proper(m)
    ensures var (f, p') := FrameOf(enc, p, m);
            var r := DecodeHeaders(env, l, f);
            && r.Some? && r.value.requests == l.requests + [Opening(m.id, m.fields, !EndsStream(m), None)]
            && inStep(p', r.value.dec)
  {
    var codec := Codec(enc, env.codec.decode);
    var (block, p') := codec.encode(p, m.fields);
    var payload := m.pad + m.priority + block;
    assert payload[|m.pad| + |m.priority|..] == block;
    var f := FrameOf(enc, p, m).0;
    assert HeaderBlock(f) == Some(block);
    assert codec.decode(l.dec, block).Some?;
  }

  // --- Every run ------------------------------------------------------------

  /** What processing a frame may do to the ledger. */
  ghost predicate Takes<E, D>(env: Env<E, D>, l: Ledger<D>, f: Frame, l': Ledger<D>) {
    if f.typ.Data? then exists i: nat :: i < |l.requests| && l' == SetBody(l, i, f.payload)
    else if f.typ.Headers? then DecodeHeaders(env, l, f) == Some(l')
    else l' == l
  }

  lemma {:induction false} StepTakes<E, D>(env: Env<E, D>, s: State<E, D>, e: Event)
    requires s.reader.Valid() && Step(env, s, e).Next?
    ensures var t := Step(env, s, e).state;
            || (t.frames == s.frames && t.ledger == s.ledger)
            || (|t.frames| == |s.frames| + 1 && s.frames <= t.frames && Takes(env, s.ledger, t.frames[|s.frames|], t.ledger))
  {
    hide EncodedAll, Parse, WriteResponse, DecodeHeaders, HeaderBlock;
    if e.PollReader? && !s.reader.AwaitPreface? {
      match Poll(s.reader, s.incoming)
      case Pending(_) =>
      case BadType =>
      case Ready(f, rest) =>
        ProcessTakes(env, s.(reader := START, incoming := rest, frames := s.frames + [f]), f);
    } else if e.Recv? {
      RecvTakesNothing(env, s, e.listing);
    }
  }

  lemma {:induction false} RecvTakesNothing<E, D>(env: Env<E, D>, s: State<E, D>, listing: seq<Field>)
    requires s.queue != []
    ensures var o := WriteResponse(env, s, listing); o.Next? ==> o.state.frames == s.frames && o.state.ledger == s.ledger
  {}

  lemma {:induction false} ProcessTakes<E, D>(env: Env<E, D>, s: State<E, D>, f: Frame)
    ensures var o := Process(env, s, f); o.Next? ==> o.state.frames == s.frames && Takes(env, s.ledger, f, o.state.ledger)
  {
    hide DecodeHeaders;
    if f.typ.Data? && f.id in s.streams && s.streams[f.id] < |s.ledger.requests| {
      assert Process(env, s, f).state.ledger == SetBody(s.ledger, s.streams[f.id], f.payload);
    }
  }

  /** The requests opened are those of the messages whose frames have been processed, and the codecs are in step. */
  ghost predicate Following<E, D, P>(s: State<E, D>, enc: (P, seq<Field>) -> (seq<byte>, P), inStep: (P, D) -> bool, p: P,
      ms: seq<Message>) {
    && s.reader.Valid() && |s.frames| <= |ms|
    && HeadsMirrored(s.ledger.requests, ms[..|s.frames|])
    && inStep(Wire(enc, p, ms[..|s.frames|]).1, s.ledger.dec)
  }

  lemma {:induction false} FollowTake<E, D(!new), P(!new)>(env: Env<E, D>, enc: (P, seq<Field>) -> (seq<byte>, P),
      inStep: (P, D) -> bool, p: P, ms: seq<Message>, m: Message, l: Ledger<D>, l': Ledger<D>)
    requires PeerLaw(env, enc, inStep) && Proper(m)
    requires HeadsMirrored(l.requests, ms) && inStep(Wire(enc, p, ms).1, l.dec)
    requires Takes(env, l, FrameOf(enc, Wire(enc, p, ms).1, m).0, l')
    ensures HeadsMirrored(l'.requests, ms + [m]) && inStep(Wire(enc, p, ms + [m]).1, l'.dec)
  {
    hide PeerLaw, Wire, Opens, DecodeHeaders, HeadsMirrored;
    WireMore(enc, p, ms, m);
    if m.Request? {
      RequestDecodes(env, enc, inStep, Wire(enc, p, ms).1, l, m);
      HeadsRequest(l.requests, ms, m);
    } else {
      HeadsSame(l.requests, ms, m, l'.requests);
    }
  }

  lemma {:induction false} HeadsRequest(requests: seq<Opening>, ms: seq<Message>, m: Message)
    requires HeadsMirrored(requests, ms) && m.Request?
    ensures HeadsMirrored(requests + [Opening(m.id, m.fields, !EndsStream(m), None)], ms + [m])
  {
    hide Opens;
    OpensMore(ms, m);
  }

  lemma {:induction false} HeadsSame(requests: seq<Opening>, ms: seq<Message>, m: Message, after: seq<Opening>)
    requires HeadsMirrored(requests, ms) && !m.Request? && |after| == |requests|
    requires forall k :: 0 <= k < |after| ==>
               after[k].id == requests[k].id && after[k].fields == requests[k].fields && after[k].needsBody == requests[k].needsBody
    ensures HeadsMirrored(after, ms + [m])
  {
    hide Opens;
    OpensMore(ms, m);
  }

  lemma {:induction false} FramesGrow<E, D>(env: Env<E, D>, s: State<E, D>, es: seq<Event>)
    requires s.reader.Valid()
    ensures var o := Run(env, s, es); o.Next? ==> s.frames <= o.state.frames
    decreases |es|
  {
    hide Step, Takes;
    if es != [] {
      StepReader(env, s, es[0]);
      if Step(env, s, es[0]).Next? {
        StepTakes(env, s, es[0]);
        FramesGrow(env, Step(env, s, es[0]).state, es[1..]);
      }
    }
  }

  lemma {:induction false} FollowRun<E, D(!new), P(!new)>(env: Env<E, D>, enc: (P, seq<Field>) -> (seq<byte>, P),
      inStep: (P, D) -> bool, p: P, ms: seq<Message>, s: State<E, D>, es: seq<Event>)
    requires PeerLaw(env, enc, inStep) && (forall m :: m in ms ==> Proper(m))
    requires Following(s, enc, inStep, p, ms)
    requires Run(env, s, es).Next? && Run(env, s, es).state.frames <= FramesOf(enc, p, ms)
    ensures Following(Run(env, s, es).state, enc, inStep, p, ms)
    decreases |es|
  {
    hide Step, Following, PeerLaw, FramesOf, Wire, Takes;
    if es != [] {
      FollowReader(s, enc, inStep, p, ms);
      StepReader(env, s, es[0]);
      var t := Step(env, s, es[0]).state;
      FramesGrow(env, t, es[1..]);
      FollowStep(env, enc, inStep, p, ms, s, es[0]);
      FollowRun(env, enc, inStep, p, ms, t, es[1..]);
    }
  }

  lemma {:induction false} FollowReader<E, D, P>(s: State<E, D>, enc: (P, seq<Field>) -> (seq<byte>, P),
      inStep: (P, D) -> bool, p: P, ms: seq<Message>)
    requires Following(s, enc, inStep, p, ms)
    ensures s.reader.Valid()
  {}

  lemma {:induction false} FollowStep<E, D(!new), P(!new)>(env: Env<E, D>, enc: (P, seq<Field>) -> (seq<byte>, P),
      inStep: (P, D) -> bool, p: P, ms: seq<Message>, s: State<E, D>, e: Event)
    requires PeerLaw(env, enc, inStep) && (forall m :: m in ms ==> Proper(m))
    requires Following(s, enc, inStep, p, ms)
    requires Step(env, s, e).Next? && Step(env, s, e).state.frames <= FramesOf(enc, p, ms)
    ensures Following(Step(env, s, e).state, enc, inStep, p, ms)
  {
    hide Step, PeerLaw, Takes, HeadsMirrored, FramesOf, Wire;
    StepReader(env, s, e);
    StepTakes(env, s, e);
    var t := Step(env, s, e).state;
    var k := |s.frames|;
    if |t.frames| == k + 1 {
      NextFrame(enc, p, ms, t.frames, k);
      FollowTake(env, enc, inStep, p, ms[..k], ms[k], s.ledger, t.ledger);
      assert ms[..k] + [ms[k]] == ms[..k + 1];
    }
  }

  lemma {:induction false} NextFrame<P>(enc: (P, seq<Field>) -> (seq<byte>, P), p: P, ms: seq<Message>, fs: seq<Frame>, k: nat)
    requires |fs| == k + 1 && fs <= FramesOf(enc, p, ms)
    ensures k < |ms| && fs[k] == FrameOf(enc, Wire(enc, p, ms[..k]).1, ms[k]).0
  {
    hide Wire, FrameOf;
    WirePrefix(enc, p, ms, k + 1);
    assert ms[..k + 1] == ms[..k] + [ms[k]];
    WireMore(enc, p, ms[..k], ms[k]);
    assert fs == FramesOf(enc, p, ms)[..k + 1];
  }

  /** The octets of a peer that sends these messages. */
  function Octets<P>(enc: (P, seq<Field>) -> (seq<byte>, P), p: P, ms: seq<Message>): seq<byte> {
    PREFACE + EncodedAll(FramesOf(enc, p, ms))
  }

  /** Frames processed in a run on the first of these octets are the first of the messages' frames. */
  lemma {:induction false} FramesAreSent<E, D>(env: Env<E, D>, fs: seq<Frame>, es: seq<Event>)
    requires Run(env, Initial(env), es).Next? && Delivered(es) <= PREFACE + EncodedAll(fs)
    requires forall f :: f in fs ==> f.Fits()
    ensures var s := Run(env, Initial(env), es).state;
            && s.frames <= fs
            && (Delivered(es) == PREFACE + EncodedAll(fs) && !s.reader.AwaitPreface? && Parse(s.Unread()).Incomplete? ==> s.frames == fs)
  {
    hide Run, Parse, ParseAll, EncodedAll;
    FramesAreBatchParse(env, es);
    var s := Run(env, Initial(env), es).state;
    EncodedReadBack(fs);
    if !s.reader.AwaitPreface? {
      var got, all := Delivered(es), PREFACE + EncodedAll(fs);
      assert all[..24] == PREFACE && all[24..] == EncodedAll(fs);
      var a, b := got[24..], all[|got|..];
      assert EncodedAll(fs) == a + b;
      ParseAllExtend(a, b);
      assert ParseAll(a).0 <= fs;
      if |got| == |all| {
        assert got == all && a == EncodedAll(fs);
      }
    }
  }

  /**
   * In every run, under any interleaving and fragmentation, on octets a peer has encoded: the requests opened
   * are those of the messages processed so far, in order, each with the id and the fields the peer gave it,
   * and the connection's decoder is in step with the peer's encoder.
   */
  lemma {:induction false} RequestsAreSent<E, D(!new), P(!new)>(env: Env<E, D>, enc: (P, seq<Field>) -> (seq<byte>, P),
      inStep: (P, D) -> bool, p: P, ms: seq<Message>, es: seq<Event>)
    requires PeerLaw(env, enc, inStep) && inStep(p, env.decoder) && (forall m :: m in ms ==> Proper(m))
    requires forall f :: f in FramesOf(enc, p, ms) ==> f.Fits()
    requires Delivered(es) <= Octets(enc, p, ms) && Run(env, Initial(env), es).Next?
    ensures var s := Run(env, Initial(env), es).state;
            && s.frames <= FramesOf(enc, p, ms)
            && HeadsMirrored(s.ledger.requests, ms[..|s.frames|])
            && inStep(Wire(enc, p, ms[..|s.frames|]).1, s.ledger.dec)
            && (Delivered(es) == Octets(enc, p, ms) && !s.reader.AwaitPreface? && Parse(s.Unread()).Incomplete? ==> |s.frames| == |ms|)
  {
    hide Run, Parse, PeerLaw, Wire;
    FramesAreSent(env, FramesOf(enc, p, ms), es);
    assert ms[..0] == [] && Wire(enc, p, []) == ([], p) by { NothingSent(enc, p); }
    assert Following(Initial(env), enc, inStep, p, ms) by { assert Opens([]) == []; }
    FollowRun(env, enc, inStep, p, ms, Initial(env), es);
  }

  lemma {:induction false} NothingSent<P>(enc: (P, seq<Field>) -> (seq<byte>, P), p: P)
    ensures Wire(enc, p, []) == ([], p)
  {}

  // --- Which messages may follow which --------------------------------------

  /** The last message on a stream. */
  function LastOn(ms: seq<Message>, id: nat): (r: Option<nat>)
    ensures r.None? ==> forall j :: 0 <= j < |ms| ==> !OnStream(ms[j], id)
    ensures r.Some? ==> r.value < |ms| && OnStream(ms[r.value], id) && forall j :: r.value < j < |ms| ==> !OnStream(ms[j], id)
  {
    if ms == [] then None
    else if OnStream(ms[|ms| - 1], id) then Some(|ms| - 1)
    else
      assert forall j :: 0 <= j < |ms| - 1 ==> ms[..|ms| - 1][j] == ms[j];
      LastOn(ms[..|ms| - 1], id)
  }

  /** A request that leaves its stream open for a body. */
  predicate LeavesOpen(m: Message) {
    m.Request? && !EndsStream(m)
  }

  /**
   * A request comes on a stream that has had no message, or whose last message is a request that left it open;
   * a body comes only on the latter.
   */
  predicate InTurn(ms: seq<Message>, j: nat)
    requires j < |ms|
  {
    match ms[j]
    case Request(id, _, _, _, _) => LastOn(ms[..j], id).None? || LeavesOpen(ms[LastOn(ms[..j], id).value])
    case Body(id, _, _) => LastOn(ms[..j], id).Some? && LeavesOpen(ms[LastOn(ms[..j], id).value])
    case Other(_) => true
  }

  predicate Orderly(ms: seq<Message>) {
    forall j :: 0 <= j < |ms| ==> InTurn(ms, j)
  }

  lemma {:induction false} LastOnMore(ms: seq<Message>, m: Message, id: nat)
    ensures LastOn(ms + [m], id) == if OnStream(m, id) then Some(|ms|) else LastOn(ms, id)
  {
    assert (ms + [m])[..|ms|] == ms;
  }

  lemma {:induction false} BodyFromMore(ms: seq<Message>, m: Message, id: nat, k: nat)
    requires k <= |ms|
    ensures BodyFrom(ms + [m], id, k) ==
            if forall j :: k <= j < |ms| ==> !OnStream(ms[j], id) then (if m.Body? && m.id == id then Some(m.payload) else None)
            else BodyFrom(ms, id, k)
    decreases |ms| - k
  {
    assert forall j :: 0 <= j < |ms| ==> (ms + [m])[j] == ms[j];
    if k < |ms| {
      BodyFromMore(ms, m, id, k + 1);
    } else {
      assert (ms + [m])[k] == m;
    }
  }

  lemma {:induction false} SilentBody(ms: seq<Message>, id: nat, k: nat)
    requires forall j :: k <= j < |ms| ==> !OnStream(ms[j], id)
    ensures BodyFrom(ms, id, k) == None
    decreases |ms| - k
  {
    if k < |ms| {
      SilentBody(ms, id, k + 1);
    }
  }

  lemma {:induction false} LatestMore(requests: seq<Opening>, o: Opening, id: nat)
    ensures Latest(requests + [o], id) == if o.id == id then Some(|requests|) else Latest(requests, id)
  {
    assert (requests + [o])[..|requests|] == requests;
  }

  lemma {:induction false} LatestSame(requests: seq<Opening>, i: nat, body: seq<byte>, id: nat)
    requires i < |requests|
    ensures Latest(requests[i := requests[i].(body := Some(body))], id) == Latest(requests, id)
  {
    hide Latest, Ids, Current;
    var after := requests[i := requests[i].(body := Some(body))];
    BodyIds(requests, i, body);
    if Latest(requests, id).Some? {
      SameCurrent(requests, i, body, Latest(after, id).value);
      assert after[Latest(after, id).value].id == requests[Latest(after, id).value].id;
      CurrentUnique(requests, Latest(requests, id).value, Latest(after, id).value);
    }
  }

  lemma {:induction false} SameCurrent(requests: seq<Opening>, i: nat, body: seq<byte>, j: nat)
    requires i < |requests| && Current(requests[i := requests[i].(body := Some(body))], j)
    ensures Current(requests, j)
  {
    var after := requests[i := requests[i].(body := Some(body))];
    assert forall k :: 0 <= k < |requests| ==> after[k].id == requests[k].id;
  }

  /** The last request of an id is that of the last message on the stream, or the one that message gave a body to. */
  ghost predicate Tracks(requests: seq<Opening>, ms: seq<Message>) {
    && AllMirrored(requests, ms)
    && forall id: nat :: TracksOn(requests, ms, id)
  }

  predicate TracksOn(requests: seq<Opening>, ms: seq<Message>, id: nat)
    requires |requests| == |Opens(ms)|
  {
    match LastOn(ms, id)
    case None => Latest(requests, id).None?
    case Some(j) =>
      && Latest(requests, id).Some?
      && var i := Latest(requests, id).value;
         && (Unserved(requests[i]) <==> LeavesOpen(ms[j]))
         && (LeavesOpen(ms[j]) ==> Opens(ms)[i] == j)
  }

  lemma {:induction false} TrackRequest(requests: seq<Opening>, ms: seq<Message>, m: Message)
    requires Tracks(requests, ms) && m.Request?
    ensures Tracks(requests + [Opening(m.id, m.fields, !EndsStream(m), None)], ms + [m])
  {
    hide Opens, LastOn, BodyFrom, Latest, Mirrors;
    var o := Opening(m.id, m.fields, !EndsStream(m), None);
    var after, next := requests + [o], ms + [m];
    OpensMore(ms, m);
    forall k | 0 <= k < |after|
      ensures Mirrors(after[k], next, Opens(next)[k])
    {
      if k < |requests| {
        assert Mirrors(requests[k], ms, Opens(ms)[k]);
        MirrorNoBody(requests[k], ms, m, Opens(ms)[k]);
      } else {
        MirrorNew(ms, m);
      }
    }
    forall id: nat
      ensures TracksOn(after, next, id)
    {
      assert TracksOn(requests, ms, id);
      LastOnMore(ms, m, id);
      LatestMore(requests, o, id);
    }
  }

  lemma {:induction false} MirrorNew(ms: seq<Message>, m: Message)
    requires m.Request?
    ensures Mirrors(Opening(m.id, m.fields, !EndsStream(m), None), ms + [m], |ms|)
  {
    SilentBody(ms + [m], m.id, |ms| + 1);
  }

  lemma {:induction false} TrackBody(requests: seq<Opening>, ms: seq<Message>, m: Message, i: nat)
    requires Tracks(requests, ms) && m.Body?
    requires Latest(requests, m.id) == Some(i) && Unserved(requests[i])
    ensures Tracks(requests[i := requests[i].(body := Some(m.payload))], ms + [m])
  {
    hide Opens, LastOn, BodyFrom, Latest, Mirrors;
    var after, next := requests[i := requests[i].(body := Some(m.payload))], ms + [m];
    OpensMore(ms, m);
    assert TracksOn(requests, ms, m.id);
    var j := Opens(ms)[i];
    forall k | 0 <= k < |after|
      ensures Mirrors(after[k], next, Opens(next)[k])
    {
      assert Mirrors(requests[k], ms, Opens(ms)[k]);
      MirrorBody(requests[k], ms, m, Opens(ms)[k], LastOn(ms, m.id).value);
    }
    forall id: nat
      ensures TracksOn(after, next, id)
    {
      assert TracksOn(requests, ms, id);
      LastOnMore(ms, m, id);
      LatestSame(requests, i, m.payload, id);
      LatestOfId(requests, id, i, m.id);
    }
  }

  lemma {:induction false} LatestOfId(requests: seq<Opening>, id: nat, i: nat, other: nat)
    requires Latest(requests, other) == Some(i)
    ensures id != other ==> Latest(requests, id) != Some(i)
  {}

  lemma {:induction false} TrackOther(requests: seq<Opening>, ms: seq<Message>, m: Message)
    requires Tracks(requests, ms) && m.Other?
    ensures Tracks(requests, ms + [m])
  {
    hide Opens, LastOn, BodyFrom, Latest, Mirrors;
    var next := ms + [m];
    OpensMore(ms, m);
    forall k | 0 <= k < |requests|
      ensures Mirrors(requests[k], next, Opens(next)[k])
    {
      assert Mirrors(requests[k], ms, Opens(ms)[k]);
      MirrorNoBody(requests[k], ms, m, Opens(ms)[k]);
    }
    forall id: nat
      ensures TracksOn(requests, next, id)
    {
      assert TracksOn(requests, ms, id);
      LastOnMore(ms, m, id);
    }
  }

  lemma {:induction false} MirrorNoBody(o: Opening, ms: seq<Message>, m: Message, j: nat)
    requires j < |ms| && ms[j].Request? && Mirrors(o, ms, j) && !m.Body?
    ensures Mirrors(o, ms + [m], j)
  {
    hide BodyFrom;
    BodyFromMore(ms, m, ms[j].id, j + 1);
    if forall x :: j + 1 <= x < |ms| ==> !OnStream(ms[x], ms[j].id) {
      SilentBody(ms, ms[j].id, j + 1);
    }
  }

  /** A body belongs to the request that is the last message on its stream, and to no other. */
  lemma {:induction false} MirrorBody(o: Opening, ms: seq<Message>, m: Message, j: nat, last: nat)
    requires j < |ms| && ms[j].Request? && Mirrors(o, ms, j) && m.Body?
    requires LastOn(ms, m.id) == Some(last)
    ensures Mirrors(if j == last then o.(body := Some(m.payload)) else o, ms + [m], j)
  {
    hide BodyFrom, LastOn;
    BodyFromMore(ms, m, ms[j].id, j + 1);
    if forall x :: j + 1 <= x < |ms| ==> !OnStream(ms[x], ms[j].id) {
      SilentBody(ms, ms[j].id, j + 1);
    }
  }

  /** A message is admitted exactly when it comes in turn, and then the ledger goes on following the messages. */
  lemma {:induction false} AdmitInTurn<E, D(!new), P(!new)>(env: Env<E, D>, enc: (P, seq<Field>) -> (seq<byte>, P),
      inStep: (P, D) -> bool, p: P, ms: seq<Message>, m: Message, l: Ledger<D>)
    requires PeerLaw(env, enc, inStep) && Proper(m)
    requires Tracks(l.requests, ms) && inStep(Wire(enc, p, ms).1, l.dec)
    ensures var r := Admit(env, l, FrameOf(enc, Wire(enc, p, ms).1, m).0);
            && (r.Some? <==> InTurn(ms + [m], |ms|))
            && (r.Some? ==> Tracks(r.value.requests, ms + [m]) && inStep(Wire(enc, p, ms + [m]).1, r.value.dec))
  {
    hide PeerLaw, Wire, DecodeHeaders, Latest, LastOn, Opens, BodyFrom, Tracks, TracksOn;
    WireMore(enc, p, ms, m);
    assert (ms + [m])[..|ms|] == ms && (ms + [m])[|ms|] == m;
    if m.Other? {
      TrackOther(l.requests, ms, m);
    } else {
      TracksAt(l.requests, ms, m.id);
      if m.Request? {
        RequestDecodes(env, enc, inStep, Wire(enc, p, ms).1, l, m);
        TrackRequest(l.requests, ms, m);
      } else {
        var last := Latest(l.requests, m.id);
        if last.Some? && Unserved(l.requests[last.value]) {
          TrackBody(l.requests, ms, m, last.value);
        }
      }
    }
  }

  lemma {:induction false} TracksAt(requests: seq<Opening>, ms: seq<Message>, id: nat)
    requires Tracks(requests, ms)
    ensures LastOn(ms, id).None? <==> Latest(requests, id).None?
    ensures LastOn(ms, id).Some? ==> (Unserved(requests[Latest(requests, id).value]) <==> LeavesOpen(ms[LastOn(ms, id).value]))
  {
    assert TracksOn(requests, ms, id);
  }

  /** What is still to come is fine exactly when all its messages come in turn. */
  lemma {:induction false} FineFrom<E, D(!new), P(!new)>(env: Env<E, D>, enc: (P, seq<Field>) -> (seq<byte>, P),
      inStep: (P, D) -> bool, p: P, ms: seq<Message>, k: nat, l: Ledger<D>)
    requires PeerLaw(env, enc, inStep) && (forall m :: m in ms ==> Proper(m))
    requires forall f :: f in FramesOf(enc, p, ms) ==> f.Fits()
    requires k <= |ms| && Tracks(l.requests, ms[..k]) && inStep(Wire(enc, p, ms[..k]).1, l.dec)
    ensures Fine(env, l, EncodedAll(FramesOf(enc, p, ms)[k..])) <==> forall j :: k <= j < |ms| ==> InTurn(ms, j)
    decreases |ms| - k
  {
    hide PeerLaw, Wire, FramesOf, Tracks, Admit, Parse, InTurn, Encoded;
    var fs := FramesOf(enc, p, ms);
    if k == |ms| {
      assert fs[k..] == [];
      NoFrame();
    } else {
      NextFrame(enc, p, ms, fs[..k + 1], k);
      var f := fs[k];
      assert fs[k..] == [f] + fs[k + 1..] && fs[k..][1..] == fs[k + 1..];
      assert f in fs;
      ParseEncoded(f, EncodedAll(fs[k + 1..]));
      AdmitInTurn(env, enc, inStep, p, ms[..k], ms[k], l);
      assert ms[..k] + [ms[k]] == ms[..k + 1];
      InTurnPrefix(ms, k);
      if Admit(env, l, f).Some? {
        FineFrom(env, enc, inStep, p, ms, k + 1, Admit(env, l, f).value);
      }
    }
  }

  lemma {:induction false} InTurnPrefix(ms: seq<Message>, k: nat)
    requires k < |ms|
    ensures InTurn(ms[..k + 1], k) <==> InTurn(ms, k)
  {
    assert ms[..k + 1][..k] == ms[..k];
  }

  /** What a peer may send, told from its messages alone: its octets are fine exactly when they are orderly. */
  lemma {:induction false} FineExactly<E, D(!new), P(!new)>(env: Env<E, D>, enc: (P, seq<Field>) -> (seq<byte>, P),
      inStep: (P, D) -> bool, p: P, ms: seq<Message>)
    requires PeerLaw(env, enc, inStep) && inStep(p, env.decoder) && (forall m :: m in ms ==> Proper(m))
    requires forall f :: f in FramesOf(enc, p, ms) ==> f.Fits()
    ensures FineConnection(env, Octets(enc, p, ms)) <==> Orderly(ms)
  {
    hide PeerLaw, Wire, FramesOf, Fine, InTurn, EncodedAll, Tracks;
    NothingSent(enc, p);
    NothingTracked();
    var b, fs := Octets(enc, p, ms), FramesOf(enc, p, ms);
    assert b[..24] == PREFACE && b[24..] == EncodedAll(fs) && fs[0..] == fs && ms[..0] == [];
    FineFrom(env, enc, inStep, p, ms, 0, Ledger(env.decoder, []));
  }

  lemma {:induction false} NothingTracked()
    ensures Tracks([], [])
  {
    forall id: nat
      ensures TracksOn([], [], id)
    {
      assert LastOn([], id) == None && Latest([], id) == None;
    }
  }

  lemma {:induction false} ReplayTracks<E, D(!new), P(!new)>(env: Env<E, D>, enc: (P, seq<Field>) -> (seq<byte>, P),
      inStep: (P, D) -> bool, p: P, ms: seq<Message>)
    requires PeerLaw(env, enc, inStep) && inStep(p, env.decoder) && (forall m :: m in ms ==> Proper(m)) && Orderly(ms)
    ensures var r := Replay(env, FramesOf(enc, p, ms));
            r.Some? && Tracks(r.value.requests, ms) && inStep(Wire(enc, p, ms).1, r.value.dec)
    decreases |ms|
  {
    hide PeerLaw, Wire, Tracks, Admit, InTurn;
    if ms == [] {
      NothingSent(enc, p);
      NothingTracked();
    } else {
      var n := |ms| - 1;
      var before, m := ms[..n], ms[n];
      assert before + [m] == ms;
      OrderlyPrefix(ms, n);
      ReplayTracks(env, enc, inStep, p, before);
      WireMore(enc, p, before, m);
      assert FramesOf(enc, p, ms)[..n] == FramesOf(enc, p, before);
      AdmitInTurn(env, enc, inStep, p, before, m, Replay(env, FramesOf(enc, p, before)).value);
    }
  }

  lemma {:induction false} OrderlyPrefix(ms: seq<Message>, k: nat)
    requires Orderly(ms) && k <= |ms|
    ensures Orderly(ms[..k])
  {
    forall j | 0 <= j < k
      ensures InTurn(ms[..k], j)
    {
      assert InTurn(ms, j) && ms[..k][..j] == ms[..j];
    }
  }

  /**
   * In every run on the octets of orderly messages, the requests opened are those of the messages processed so
   * far, each with its own id, fields and body: the payload of the DATA that comes next on its stream.
   */
  lemma {:induction false} BodiesAreSent<E, D(!new), P(!new)>(env: Env<E, D>, enc: (P, seq<Field>) -> (seq<byte>, P),
      inStep: (P, D) -> bool, p: P, ms: seq<Message>, es: seq<Event>)
    requires env.Valid() && PeerLaw(env, enc, inStep) && inStep(p, env.decoder) && (forall m :: m in ms ==> Proper(m))
    requires (forall f :: f in FramesOf(enc, p, ms) ==> f.Fits()) && Orderly(ms)
    requires Delivered(es) <= Octets(enc, p, ms) && Run(env, Initial(env), es).Next?
    ensures var s := Run(env, Initial(env), es).state;
            && s.frames <= FramesOf(enc, p, ms) && FineConnection(env, Delivered(es))
            && AllMirrored(s.ledger.requests, ms[..|s.frames|])
  {
    hide Run, PeerLaw, Wire, Orderly, Octets, FineConnection, Replay;
    FineExactly(env, enc, inStep, p, ms);
    var rest := Octets(enc, p, ms)[|Delivered(es)|..];
    assert Octets(enc, p, ms) == Delivered(es) + rest;
    FineConnectionPrefix(env, Delivered(es), rest);
    RequestsAreReplay(env, es);
    RequestsAreSent(env, enc, inStep, p, ms, es);
    var k := |Run(env, Initial(env), es).state.frames|;
    WirePrefix(enc, p, ms, k);
    OrderlyPrefix(ms, k);
    ReplayTracks(env, enc, inStep, p, ms[..k]);
    assert Run(env, Initial(env), es).state.frames == FramesOf(enc, p, ms[..k]);
  }
}
