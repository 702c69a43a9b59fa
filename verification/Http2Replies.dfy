/**
 * The connection from end to end: the responses that handlers return are what the client reads, each on the
 * stream of its own request, and the octets in between are blocks of frames that do not mix.
 */
module Http2Replies {
  import opened Base
  import opened HeaderFields
  import opened Http2Frame
  import opened Http2Conn
  import opened Http2Safety
  import opened Http2Output
  import opened Http2Peer

  // --- What handlers return -------------------------------------------------

  /** The response the handler of task `i` returned in a run, told from its events alone. */
  function Returned(es: seq<Event>, i: nat): Option<Response> {
    if es == [] then None
    else if es[0].HandlerDone? && es[0].task == i then Some(es[0].response)
    else Returned(es[1..], i)
  }

  /** No handler returns twice. */
  ghost predicate ReturnOnce(es: seq<Event>) {
    forall j, k :: 0 <= j < k < |es| && es[j].HandlerDone? && es[k].HandlerDone? ==> es[j].task != es[k].task
  }

  lemma {:induction false} ReturnedMore(es: seq<Event>, e: Event, i: nat)
    ensures Returned(es + [e], i) ==
            if Returned(es, i).Some? then Returned(es, i)
            else if e.HandlerDone? && e.task == i then Some(e.response) else None
    decreases |es|
  {
    if es == [] {
      assert [] + [e] == [e] && [e][1..] == [];
    } else {
      ReturnedMore(es[1..], e, i);
      assert (es + [e])[1..] == es[1..] + [e];
    }
  }

  lemma {:induction false} ReturnedNone(es: seq<Event>, i: nat, k: nat)
    requires Returned(es, i).None? && k < |es|
    ensures !(es[k].HandlerDone? && es[k].task == i)
  {
    if k > 0 {
      ReturnedNone(es[1..], i, k - 1);
    }
  }

  /** A task holds the response its handler has returned, if it has, and an answer has listed just its headers. */
  ghost predicate Holds(p: Phase, returned: Option<Response>) {
    match p
    case Handling => returned.None?
    case Answered(r, listing) => returned == Some(r) && Lists(listing, r.headers)
    case _ => returned == Some(p.response)
  }

  ghost predicate Holding<E, D>(s: State<E, D>, es: seq<Event>) {
    && s.reader.Valid() && ReturnOnce(es)
    && (forall i :: 0 <= i < |s.phases| ==> Holds(s.phases[i], Returned(es, i)))
    && (forall i: nat :: i >= |s.phases| ==> Returned(es, i).None?)
  }

  /** What an event does to the tasks. */
  ghost predicate Moves<E, D>(s: State<E, D>, e: Event, t: State<E, D>) {
    match e
    case HandlerDone(i, r) =>
      && i < |s.phases| == |t.phases| && s.phases[i].Handling?
      && (t.phases[i] == AwaitBody(r) || t.phases[i] == Sending(r))
      && forall j :: 0 <= j < |s.phases| && j != i ==> t.phases[j] == s.phases[j]
    case _ =>
      && |s.phases| <= |t.phases|
      && (forall j :: 0 <= j < |s.phases| ==> Later(s.phases[j], t.phases[j]))
      && (forall j :: |s.phases| <= j < |t.phases| ==> t.phases[j].Handling?)
  }

  ghost predicate Later(p: Phase, q: Phase) {
    || p == q
    || (!p.Handling? && !p.Answered? && !q.Handling? && q.response == p.response && (q.Answered? ==> Lists(q.listing, q.response.headers)))
  }

  lemma {:induction false} StepMoves<E, D>(env: Env<E, D>, s: State<E, D>, e: Event)
    requires s.reader.Valid() && Step(env, s, e).Next?
    ensures Moves(s, e, Step(env, s, e).state)
  {
    hide EncodedAll, Parse, Lists, ReplyFields, ReplyFrames, DecodeHeaders;
    if e.PollReader? {
      if s.reader.AwaitPreface? { GreetMoves(s); } else { ReadMoves(env, s); }
    } else if e.Recv? {
      RecvMoves(env, s, e.listing);
    }
  }

  lemma {:induction false} GreetMoves<E, D>(s: State<E, D>)
    requires s.reader.Valid() && s.reader.AwaitPreface?
    ensures Greet(s).Next? ==> Greet(s).state.phases == s.phases
  {}

  lemma {:induction false} ReadMoves<E, D>(env: Env<E, D>, s: State<E, D>)
    requires s.reader.Valid() && !s.reader.AwaitPreface?
    ensures var o := Read(env, s); o.Next? ==> o.state.phases == s.phases || o.state.phases == s.phases + [Handling]
  {
    hide DecodeHeaders, Parse;
  }

  lemma {:induction false} RecvMoves<E, D>(env: Env<E, D>, s: State<E, D>, listing: seq<Field>)
    requires s.queue != []
    ensures var o := WriteResponse(env, s, listing); o.Next? ==> Moves(s, Recv(listing), o.state)
  {
    hide EncodedAll, Lists, ReplyFields, ReplyFrames;
  }

  lemma {:induction false} HoldStep<E, D>(env: Env<E, D>, s: State<E, D>, es: seq<Event>, e: Event)
    requires Holding(s, es) && Step(env, s, e).Next?
    ensures Holding(Step(env, s, e).state, es + [e])
  {
    hide Step, Lists, Returned;
    StepReader(env, s, e);
    StepMoves(env, s, e);
    var t := Step(env, s, e).state;
    forall i: nat
      ensures i < |t.phases| ==> Holds(t.phases[i], Returned(es + [e], i))
      ensures i >= |t.phases| ==> Returned(es + [e], i).None?
    {
      ReturnedMore(es, e, i);
    }
    OnceMore(es, e);
  }

  lemma {:induction false} OnceMore(es: seq<Event>, e: Event)
    requires ReturnOnce(es) && (e.HandlerDone? ==> Returned(es, e.task).None?)
    ensures ReturnOnce(es + [e])
  {
    if e.HandlerDone? {
      forall k | 0 <= k < |es|
        ensures !(es[k].HandlerDone? && es[k].task == e.task)
      {
        ReturnedNone(es, e.task, k);
      }
    }
  }

  lemma {:induction false} HoldRun<E, D>(env: Env<E, D>, s: State<E, D>, before: seq<Event>, es: seq<Event>)
    requires Holding(s, before)
    ensures s.reader.Valid()
    ensures Run(env, s, es).Next? ==> Holding(Run(env, s, es).state, before + es)
    decreases |es|
  {
    hide Step, Holding;
    HoldReader(s, before);
    if es == [] {
      assert before + [] == before;
    } else {
      StepReader(env, s, es[0]);
      if Step(env, s, es[0]).Next? {
        HoldStep(env, s, before, es[0]);
        HoldRun(env, Step(env, s, es[0]).state, before + [es[0]], es[1..]);
        assert before + [es[0]] + es[1..] == before + es;
      }
    }
  }

  lemma {:induction false} HoldReader<E, D>(s: State<E, D>, es: seq<Event>)
    requires Holding(s, es)
    ensures s.reader.Valid()
  {}

  /**
   * In every run every handler returns once at most, a task that is past its handler holds exactly what the
   * handler returned, and the headers of an answer were listed from that.
   */
  lemma {:induction false} ResponsesAreReturned<E, D>(env: Env<E, D>, es: seq<Event>)
    requires Run(env, Initial(env), es).Next?
    ensures Holding(Run(env, Initial(env), es).state, es)
  {
    hide Run;
    assert Holding(Initial(env), []);
    HoldRun(env, Initial(env), [], es);
    assert [] + es == es;
  }

  // --- Blocks of frames -----------------------------------------------------

  function Payloads(fs: seq<Frame>): (ps: seq<seq<byte>>)
    ensures |ps| == |fs| && forall k :: 0 <= k < |fs| ==> ps[k] == fs[k].payload
  {
    seq(|fs|, k requires 0 <= k < |fs| => fs[k].payload)
  }

  /**
   * One HEADERS frame, which ends the header section (0x4) and not the stream, and the body in DATA frames of
   * the same stream: full chunks and a last one, which alone ends the stream (0x1).
   */
  predicate IsReplyBlock(fs: seq<Frame>, id: nat, body: seq<byte>, chunk: nat) {
    && |fs| >= 2 && fs[0].typ.Headers? && fs[0].flags as int == 4 && fs[0].id == id
    && (forall k :: 1 <= k < |fs| ==> IsPiece(fs[k], id, chunk, k == |fs| - 1))
    && (body != [] ==> forall k :: 1 <= k < |fs| ==> fs[k].payload != [])
    && Concat(Payloads(fs[1..])) == body
  }

  lemma {:induction false} DataPayloads(id: nat, body: seq<byte>, chunk: nat)
    requires chunk > 0
    ensures Concat(Payloads(DataFrames(id, body, chunk))) == body
    decreases |body|
  {
    var fs := DataFrames(id, body, chunk);
    if |body| > chunk {
      DataPayloads(id, body[chunk..], chunk);
      assert Payloads(fs)[1..] == Payloads(DataFrames(id, body[chunk..], chunk));
      assert body[..chunk] + body[chunk..] == body;
    } else {
      assert Payloads(fs) == [body] && [body][1..] == [] && body + [] == body;
    }
  }

  lemma {:induction false} ReplyIsBlock(id: nat, block: seq<byte>, body: seq<byte>, chunk: nat)
    requires chunk > 0
    ensures IsReplyBlock(ReplyFrames(id, block, body, chunk), id, body, chunk)
  {
    hide DataFrames;
    var data := DataFrames(id, body, chunk);
    var fs := ReplyFrames(id, block, body, chunk);
    DataFramesShape(id, body, chunk);
    DataPayloads(id, body, chunk);
    assert fs[1..] == data && forall k :: 1 <= k < |fs| ==> fs[k] == data[k - 1];
  }

  /** The blocks written for a log of answers. */
  function Blocks<E, D>(env: Env<E, D>, requests: seq<Opening>, phases: seq<Phase>, answered: seq<nat>): (bs: seq<seq<Frame>>)
    requires Logged(env, requests, phases, answered)
    ensures |bs| == |answered|
  {
    if answered == [] then []
    else
      var n := |answered| - 1;
      var o, p := requests[answered[n]], phases[answered[n]];
      var block := env.codec.encode(Written(env, requests, phases, answered[..n]).1, ReplyFields(p.response, p.listing)).0;
      Blocks(env, requests, phases, answered[..n]) + [ReplyFrames(o.id, block, p.response.body, env.chunkFor(o.fields))]
  }

  lemma {:induction false} WrittenIsBlocks<E, D>(env: Env<E, D>, requests: seq<Opening>, phases: seq<Phase>, answered: seq<nat>)
    requires Logged(env, requests, phases, answered)
    ensures var bs := Blocks(env, requests, phases, answered);
            && Written(env, requests, phases, answered).0 == GREETING + Concat(bs)
            && forall k :: 0 <= k < |bs| ==>
                 var o, p := requests[answered[k]], phases[answered[k]];
                 IsReplyBlock(bs[k], o.id, p.response.body, env.chunkFor(o.fields))
    decreases |answered|
  {
    hide IsReplyBlock, ReplyFrames, ReplyFields, Concat;
    if answered == [] {
      NoBlocks();
    } else {
      var n := |answered| - 1;
      var before := answered[..n];
      WrittenIsBlocks(env, requests, phases, before);
      var o, p := requests[answered[n]], phases[answered[n]];
      var block := env.codec.encode(Written(env, requests, phases, before).1, ReplyFields(p.response, p.listing)).0;
      var bs, last := Blocks(env, requests, phases, before), ReplyFrames(o.id, block, p.response.body, env.chunkFor(o.fields));
      ReplyIsBlock(o.id, block, p.response.body, env.chunkFor(o.fields));
      OneBlockMore(bs, last);
      Associative(GREETING, Concat(bs), last);
    }
  }

  lemma {:induction false} NoBlocks()
    ensures Concat<Frame>([]) == [] && GREETING + [] == GREETING
  {}

  lemma {:induction false} OneBlockMore(bs: seq<seq<Frame>>, last: seq<Frame>)
    ensures Concat(bs + [last]) == Concat(bs) + last
  {
    ConcatAppend(bs, [last]);
    assert Concat([last]) == last + Concat<Frame>([last][1..]);
    assert last + [] == last;
  }

  /** SETTINGS and its acknowledgement, octet by octet. */
  const GREETING_OCTETS: seq<int> := [0, 0, 0, 4, 0, 0, 0, 0, 0, 0, 0, 0, 4, 1, 0, 0, 0, 0]

  predicate StartsWithGreeting(out: seq<byte>) {
    |out| >= 18 && forall k :: 0 <= k < 18 ==> out[k] as int == GREETING_OCTETS[k]
  }

  lemma {:induction false} GreetingOctets(rest: seq<Frame>)
    ensures StartsWithGreeting(EncodedAll(GREETING + rest))
    ensures EncodedAll(GREETING + rest)[18..] == EncodedAll(rest)
  {
    EncodedAllAppend(GREETING, rest);
    assert GREETING[1..] == [SETTINGS_ACK] && GREETING[1..][1..] == [];
    assert EncodedAll(GREETING) == Encoded(SETTINGS_FRAME) + (Encoded(SETTINGS_ACK) + []);
  }

  /**
   * In every run, for any peer and any header compression: the octets written are the greeting and one block
   * of frames for every answer, in answering order and unmixed, on the stream of its request, with the body its
   * handler returned, cut at the chunk size configured for the request.
   */
  lemma {:induction false} OutputIsBlocks<E, D>(env: Env<E, D>, es: seq<Event>) returns (blocks: seq<seq<Frame>>)
    requires env.Valid() && Run(env, Initial(env), es).Next? && !Run(env, Initial(env), es).state.reader.AwaitPreface?
    ensures var s := Run(env, Initial(env), es).state;
            && Logged(env, s.ledger.requests, s.phases, s.answered) && |blocks| == |s.answered|
            && StartsWithGreeting(s.out) && s.out[18..] == EncodedAll(Concat(blocks))
            && (ParseAll(s.out[18..]) == (Concat(blocks), []) <==> forall k :: 0 <= k < |blocks| ==> forall f :: f in blocks[k] ==> f.Fits())
            && forall k :: 0 <= k < |blocks| ==>
                 var o, r := s.ledger.requests[s.answered[k]], Returned(es, s.answered[k]);
                 r.Some? && IsReplyBlock(blocks[k], o.id, r.value.body, env.chunkFor(o.fields))
  {
    hide Run, Written, Blocks, EncodedAll, ParseAll, IsReplyBlock, Returned, StartsWithGreeting, Concat, Lists;
    InitialOutput(env);
    OutputRun(env, Initial(env), es);
    ResponsesAreReturned(env, es);
    var s := Run(env, Initial(env), es).state;
    blocks := Blocks(env, s.ledger.requests, s.phases, s.answered);
    WrittenIsBlocks(env, s.ledger.requests, s.phases, s.answered);
    GreetingOctets(Concat(blocks));
    EncodedReadBack(Concat(blocks));
    InSomeBlock(blocks);
    forall k | 0 <= k < |blocks|
      ensures var o, r := s.ledger.requests[s.answered[k]], Returned(es, s.answered[k]);
              r.Some? && IsReplyBlock(blocks[k], o.id, r.value.body, env.chunkFor(o.fields))
    {
      assert Holds(s.phases[s.answered[k]], Returned(es, s.answered[k]));
    }
  }

  lemma {:induction false} InSomeBlock(bs: seq<seq<Frame>>)
    ensures (forall f :: f in Concat(bs) ==> f.Fits()) <==> forall k :: 0 <= k < |bs| ==> forall f :: f in bs[k] ==> f.Fits()
  {
    if bs != [] {
      InSomeBlock(bs[1..]);
      assert forall f :: f in Concat(bs) <==> f in bs[0] || f in Concat(bs[1..]);
      assert forall k :: 0 <= k < |bs| ==> bs[k] == if k == 0 then bs[0] else bs[1..][k - 1];
    }
  }

  // --- What the client reads ------------------------------------------------

  /**
   * In every run, under any interleaving and for any peer: if the header blocks written fit their frames, a
   * client in step with the encoder reads one reply for every answer, in answering order, on the stream of its
   * request, and the reply tells exactly the response that the handler of this request returned.
   */
  lemma {:induction false} ClientGetsResponses<E(!new), D(!new)>(env: Env<E, D>, inStep: (E, D) -> bool, d: D, es: seq<Event>)
    returns (rs: seq<Reply>)
    requires env.Valid() && Lockstep(env.codec, inStep) && inStep(env.encoder, d)
    requires Run(env, Initial(env), es).Next? && !Run(env, Initial(env), es).state.reader.AwaitPreface?
    ensures var s := Run(env, Initial(env), es).state;
            && Logged(env, s.ledger.requests, s.phases, s.answered) && |rs| == |s.answered|
            && (BlocksFit(Written(env, s.ledger.requests, s.phases, s.answered).0) ==> ReadConnection(env.codec, d, s.out) == Some(rs))
            && forall k :: 0 <= k < |rs| ==>
                 var i := s.answered[k];
                 && rs[k].id == s.ledger.requests[i].id
                 && Returned(es, i).Some? && Tells(rs[k], Returned(es, i).value)
  {
    hide Run, Written, ReadConnection, BlocksFit, Lockstep, Returned, Tells, Lists, ReplyFields;
    ClientReadsReplies(env, inStep, d, es);
    ResponsesAreReturned(env, es);
    var s := Run(env, Initial(env), es).state;
    rs := Replies(s.ledger.requests, s.phases, s.answered);
    forall k | 0 <= k < |rs|
      ensures var i := s.answered[k];
              && rs[k].id == s.ledger.requests[i].id
              && Returned(es, i).Some? && Tells(rs[k], Returned(es, i).value)
    {
      var i := s.answered[k];
      assert Holds(s.phases[i], Returned(es, i));
      ReplyTells(s.ledger.requests[i].id, s.phases[i].response, s.phases[i].listing);
    }
  }

  /**
   * From end to end: the peer sends orderly messages, and the client reads the replies. Reply `k` is for the
   * task that was the k-th to send; it is on the stream of that task's request, which has the fields and the
   * body the peer gave it, and it tells what the handler of that request returned. No two are on one stream.
   * `processed` are the messages whose frames the connection has processed.
   */
  lemma {:induction false} PeerServed<E(!new), D(!new), P(!new)>(env: Env<E, D>, inStep: (E, D) -> bool, d: D,
      enc: (P, seq<Field>) -> (seq<byte>, P), peerInStep: (P, D) -> bool, p: P, ms: seq<Message>, es: seq<Event>)
    returns (rs: seq<Reply>, processed: seq<Message>)
    requires env.Valid() && Lockstep(env.codec, inStep) && inStep(env.encoder, d)
    requires PeerLaw(env, enc, peerInStep) && peerInStep(p, env.decoder) && (forall m :: m in ms ==> Proper(m))
    requires (forall f :: f in FramesOf(enc, p, ms) ==> f.Fits()) && Orderly(ms) && Delivered(es) <= Octets(enc, p, ms)
    requires Run(env, Initial(env), es).Next? && !Run(env, Initial(env), es).state.reader.AwaitPreface?
    ensures var s := Run(env, Initial(env), es).state;
            && processed <= ms && s.frames == FramesOf(enc, p, processed) && AllMirrored(s.ledger.requests, processed)
            && Logged(env, s.ledger.requests, s.phases, s.answered) && |rs| == |s.answered| <= |Sent(es)|
            && (BlocksFit(Written(env, s.ledger.requests, s.phases, s.answered).0) ==> ReadConnection(env.codec, d, s.out) == Some(rs))
    ensures forall j, k :: 0 <= j < k < |rs| ==> rs[j].id != rs[k].id
    ensures forall k :: 0 <= k < |rs| ==> Serves(rs[k], processed, Sent(es)[k], Returned(es, Sent(es)[k]))
  {
    hide Run, Written, ReadConnection, BlocksFit, Lockstep, PeerLaw, Returned, Tells, Orderly, FramesOf, Wire, Octets, BodyFrom,
    FineConnection, Inv, Sent, Delivered, AllMirrored, Logged;
    BodiesAreSent(env, enc, peerInStep, p, ms, es);
    rs := ClientGetsResponses(env, inStep, d, es);
    FirstSentFirstAnswered(env, es);
    var s := Run(env, Initial(env), es).state;
    processed := ms[..|s.frames|];
    WirePrefix(enc, p, ms, |s.frames|);
    DifferentStreams(env, es, rs);
    forall k | 0 <= k < |rs|
      ensures Serves(rs[k], processed, Sent(es)[k], Returned(es, Sent(es)[k]))
    {
      assert s.answered[k] == Sent(es)[k];
      LoggedIndex(env, s, k);
      MirroredId(s.ledger.requests, processed, s.answered[k]);
    }
  }

  /** The reply is on the stream of request `i` of these messages, and tells what its handler returned. */
  ghost predicate Serves(reply: Reply, ms: seq<Message>, i: nat, returned: Option<Response>) {
    && i < |Opens(ms)| && reply.id == ms[Opens(ms)[i]].id
    && returned.Some? && Tells(reply, returned.value)
  }

  lemma {:induction false} LoggedIndex<E, D>(env: Env<E, D>, s: State<E, D>, k: nat)
    requires Logged(env, s.ledger.requests, s.phases, s.answered) && k < |s.answered|
    ensures s.answered[k] < |s.ledger.requests|
  {}

  lemma {:induction false} MirroredId(requests: seq<Opening>, ms: seq<Message>, i: nat)
    requires AllMirrored(requests, ms) && i < |requests|
    ensures i < |Opens(ms)| && requests[i].id == ms[Opens(ms)[i]].id
  {
    assert Mirrors(requests[i], ms, Opens(ms)[i]);
  }

  lemma {:induction false} DifferentStreams<E, D>(env: Env<E, D>, es: seq<Event>, rs: seq<Reply>)
    requires env.Valid() && FineConnection(env, Delivered(es)) && Run(env, Initial(env), es).Next?
    requires var s := Run(env, Initial(env), es).state;
             && Logged(env, s.ledger.requests, s.phases, s.answered) && |rs| == |s.answered|
             && forall k :: 0 <= k < |rs| ==> rs[k].id == s.ledger.requests[s.answered[k]].id
    ensures forall j, k :: 0 <= j < k < |rs| ==> rs[j].id != rs[k].id
  {
    hide Run, FineConnection, Inv, ReplyFields;
    RepliesOnce(env, es);
    var s := Run(env, Initial(env), es).state;
    var same := Replies(s.ledger.requests, s.phases, s.answered);
    assert forall k :: 0 <= k < |rs| ==> rs[k].id == same[k].id;
  }
}
