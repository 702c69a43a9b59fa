/** What a peer makes of the octets a connection writes, in every run. */
module Http2Output {
  import opened Base
  import opened HeaderFields
  import opened Http2Frame
  import opened Http2Conn
  import opened Http2Safety

  // --- A client, read off the protocol --------------------------------------

  datatype Reply = Reply(id: nat, fields: seq<Field>, body: seq<byte>)

  /** The DATA frames of one stream, uninterrupted, up to the one that ends it. */
  function TakeBody(fs: seq<Frame>, id: nat): (r: Option<(seq<byte>, seq<Frame>)>)
    ensures r.Some? ==> |r.value.1| < |fs|
    decreases |fs|
  {
    if fs == [] || !fs[0].typ.Data? || fs[0].id != id then None
    else if fs[0].flags as int == 1 then Some((fs[0].payload, fs[1..]))
    else if fs[0].flags as int != 0 then None
    else match TakeBody(fs[1..], id)
      case Some((body, rest)) => Some((fs[0].payload + body, rest))
      case None => None
  }

  lemma {:induction false} TakeBodyExtend(fs: seq<Frame>, id: nat, more: seq<Frame>)
    requires TakeBody(fs, id).Some?
    ensures var (body, rest) := TakeBody(fs, id).value;
            TakeBody(fs + more, id) == Some((body, rest + more))
    decreases |fs|
  {
    assert (fs + more)[1..] == fs[1..] + more;
    if fs[0].flags as int != 1 {
      TakeBodyExtend(fs[1..], id, more);
    }
  }

  /**
   * A client that accepts only blocks of one HEADERS frame, which ends the header section and not the
   * stream, and DATA frames of the same stream; it decodes header blocks in wire order.
   */
  function Demux<E, D>(codec: Codec<E, D>, d: D, fs: seq<Frame>): (r: Option<(seq<Reply>, D)>)
    decreases |fs|
  {
    if fs == [] then Some(([], d))
    else if !fs[0].typ.Headers? || fs[0].flags as int != 4 then None
    else match codec.decode(d, fs[0].payload)
      case None => None
      case Some((fields, d')) =>
        match TakeBody(fs[1..], fs[0].id)
        case None => None
        case Some((body, rest)) =>
          match Demux(codec, d', rest)
          case None => None
          case Some((replies, d'')) => Some(([Reply(fs[0].id, fields, body)] + replies, d''))
  }

  /** SETTINGS without settings, and its acknowledgement (section 6.5 of RFC 9113). */
  predicate IsGreeting(fs: seq<Frame>) {
    fs == [Frame(0, Settings, 0 as char, 0, []), Frame(0, Settings, 1 as char, 0, [])]
  }

  /** The client's view of a connection: the greeting, and then replies with nothing left over. */
  function ReadConnection<E, D>(codec: Codec<E, D>, d: D, out: seq<byte>): Option<seq<Reply>> {
    var (fs, rest) := ParseAll(out);
    if rest != [] || |fs| < 2 || !IsGreeting(fs[..2]) then None
    else match Demux(codec, d, fs[2..])
      case None => None
      case Some((replies, _)) => Some(replies)
  }

  /**
   * The law of header compression: as long as decoder and encoder are in step, decoding inverts
   * encoding and keeps them in step.
   */
  ghost predicate Lockstep<E(!new), D(!new)>(codec: Codec<E, D>, inStep: (E, D) -> bool) {
    forall e, d, fields {:trigger inStep(e, d), codec.encode(e, fields)} :: inStep(e, d) ==>
      var (block, e') := codec.encode(e, fields);
      codec.decode(d, block).Some? && codec.decode(d, block).value.0 == fields
      && inStep(e', codec.decode(d, block).value.1)
  }

  lemma {:induction false} DemuxAppend<E, D>(codec: Codec<E, D>, d: D, fs: seq<Frame>, more: seq<Frame>)
    requires Demux(codec, d, fs).Some?
    ensures var (replies, d') := Demux(codec, d, fs).value;
            Demux(codec, d', more).Some? ==>
              Demux(codec, d, fs + more) == Some((replies + Demux(codec, d', more).value.0, Demux(codec, d', more).value.1))
    decreases |fs|
  {
    if fs == [] {
      assert fs + more == more;
      if Demux(codec, d, more).Some? {
        assert [] + Demux(codec, d, more).value.0 == Demux(codec, d, more).value.0;
      }
    } else {
      var (fields, d1) := codec.decode(d, fs[0].payload).value;
      TakeBodyExtend(fs[1..], fs[0].id, more);
      assert (fs + more)[1..] == fs[1..] + more;
      var (body, rest) := TakeBody(fs[1..], fs[0].id).value;
      DemuxAppend(codec, d1, rest, more);
      var (tail, d2) := Demux(codec, d1, rest).value;
      if Demux(codec, d2, more).Some? {
        Associative([Reply(fs[0].id, fields, body)], tail, Demux(codec, d2, more).value.0);
      }
    }
  }

  lemma {:induction false} DataFramesRead(id: nat, body: seq<byte>, chunk: nat)
    requires 0 < chunk < 0x100_0000 && id < 0x8000_0000
    ensures TakeBody(DataFrames(id, body, chunk), id) == Some((body, []))
    ensures forall f :: f in DataFrames(id, body, chunk) ==> f.Fits()
    decreases |body|
  {
    var fs := DataFrames(id, body, chunk);
    if |body| > chunk {
      DataFramesRead(id, body[chunk..], chunk);
      assert fs[1..] == DataFrames(id, body[chunk..], chunk);
      assert body[..chunk] + body[chunk..] == body;
    }
  }

  /** The DATA frames are as many as the body takes, one at least. */
  lemma {:induction false} DataFrameCount(id: nat, body: seq<byte>, chunk: nat)
    requires chunk > 0
    ensures |DataFrames(id, body, chunk)| == if body == [] then 1 else (|body| + chunk - 1) / chunk
    decreases |body|
  {
    if |body| > chunk {
      DataFrameCount(id, body[chunk..], chunk);
      CeilNext(|body|, chunk);
    } else if body != [] {
      Quotient(|body| + chunk - 1, chunk, 1);
    }
  }

  /** A DATA frame as large as a chunk, or smaller if it is the last; END_STREAM marks just the last. */
  predicate IsPiece(f: Frame, id: nat, chunk: nat, last: bool) {
    && f.typ.Data? && f.id == id && f.flags as int == (if last then 1 else 0)
    && if last then |f.payload| <= chunk else |f.payload| == chunk
  }

  /** All are full chunks but the last, none is empty unless the body is, and exactly the last ends the stream. */
  lemma {:induction false} DataFramesShape(id: nat, body: seq<byte>, chunk: nat)
    requires chunk > 0
    ensures var fs := DataFrames(id, body, chunk);
            && fs != []
            && (forall k :: 0 <= k < |fs| ==> IsPiece(fs[k], id, chunk, k == |fs| - 1))
            && (body != [] ==> forall k :: 0 <= k < |fs| ==> fs[k].payload != [])
    decreases |body|
  {
    var fs := DataFrames(id, body, chunk);
    if |body| > chunk {
      var rest := DataFrames(id, body[chunk..], chunk);
      DataFramesShape(id, body[chunk..], chunk);
      assert fs == [New(Data, NO_FLAGS, id, body[..chunk])] + rest;
      forall k | 0 <= k < |fs|
        ensures IsPiece(fs[k], id, chunk, k == |fs| - 1) && fs[k].payload != []
      {
        if k > 0 {
          assert fs[k] == rest[k - 1];
        }
      }
    }
  }

  // --- What is written, answer by answer ------------------------------------

  /** The frames written for a log of answers, and the encoder state they leave. */
  function Written<E, D>(env: Env<E, D>, requests: seq<Opening>, phases: seq<Phase>,
      answered: seq<nat>): (seq<Frame>, E)
    requires Logged(env, requests, phases, answered)
  {
    if answered == [] then (GREETING, env.encoder)
    else
      var n := |answered| - 1;
      WriteOne(env, Written(env, requests, phases, answered[..n]), requests[answered[n]], phases[answered[n]])
  }

  /** One answer more: its frames, and the encoder state after its header block. */
  function WriteOne<E, D>(env: Env<E, D>, before: (seq<Frame>, E), o: Opening, p: Phase): (seq<Frame>, E)
    requires p.Answered? && env.chunkFor(o.fields) > 0
  {
    var (block, e) := env.codec.encode(before.1, ReplyFields(p.response, p.listing));
    (before.0 + ReplyFrames(o.id, block, p.response.body, env.chunkFor(o.fields)), e)
  }

  function ReplyOf(o: Opening, p: Phase): Reply
    requires p.Answered?
  {
    Reply(o.id, ReplyFields(p.response, p.listing), p.response.body)
  }

  predicate Logged<E, D>(env: Env<E, D>, requests: seq<Opening>, phases: seq<Phase>, answered: seq<nat>) {
    && |requests| == |phases|
    && (forall i :: 0 <= i < |requests| ==> 0 < env.chunkFor(requests[i].fields) < 0x100_0000 && requests[i].id < 0x8000_0000)
    && (forall k :: 0 <= k < |answered| ==> answered[k] < |phases| && phases[answered[k]].Answered?)
  }

  /** The replies a client should see: each answered stream's status, headers and body, in answering order. */
  function Replies(requests: seq<Opening>, phases: seq<Phase>, answered: seq<nat>): (rs: seq<Reply>)
    requires |requests| == |phases|
    requires forall k :: 0 <= k < |answered| ==> answered[k] < |phases| && phases[answered[k]].Answered?
    ensures |rs| == |answered|
    ensures forall k :: 0 <= k < |rs| ==> rs[k] == ReplyOf(requests[answered[k]], phases[answered[k]])
  {
    seq(|answered|, k requires 0 <= k < |answered| => ReplyOf(requests[answered[k]], phases[answered[k]]))
  }

  /** The log fixes what was written: later frames and other tasks do not change it. */
  lemma {:induction false} WrittenStable<E, D>(env: Env<E, D>, requests: seq<Opening>, phases: seq<Phase>,
      answered: seq<nat>, requests': seq<Opening>, phases': seq<Phase>)
    requires Logged(env, requests, phases, answered) && Logged(env, requests', phases', answered)
    requires forall k :: 0 <= k < |answered| ==>
               var i := answered[k];
               requests'[i].id == requests[i].id && requests'[i].fields == requests[i].fields && phases'[i] == phases[i]
    ensures Written(env, requests', phases', answered) == Written(env, requests, phases, answered)
  {
    if answered != [] {
      WrittenStable(env, requests, phases, answered[..|answered| - 1], requests', phases');
    }
  }

  /** What has been written is what the log says, and the encoder has been through exactly that. */
  ghost predicate OutputOk<E, D>(env: Env<E, D>, s: State<E, D>) {
    && s.reader.Valid()
    && Logged(env, s.ledger.requests, s.phases, s.answered)
    && (forall id :: id in s.streams ==> s.streams[id] < |s.phases| && s.ledger.requests[s.streams[id]].id == id)
    && if s.reader.AwaitPreface? then
         s.out == [] && s.phases == [] && s.queue == [] && s.answered == [] && s.enc == env.encoder
       else
         (EncodedAll(Written(env, s.ledger.requests, s.phases, s.answered).0), Written(env, s.ledger.requests, s.phases, s.answered).1)
         == (s.out, s.enc)
  }

  lemma {:induction false} OutputStep<E, D>(env: Env<E, D>, s: State<E, D>, e: Event)
    requires OutputOk(env, s) && env.Valid()
    ensures var o := Step(env, s, e); o.Next? ==> OutputOk(env, o.state)
  {
    hide Read, Greet, WriteResponse, EncodedAll;
    var o := Step(env, s, e);
    if o.Next? {
      StepReader(env, s, e);
      if e.PollReader? {
        if s.reader.AwaitPreface? { GreetWrites(env, s); } else { ReadWritesNothing(env, s); }
      } else if e.Recv? {
        AnswerWrites(env, s, e.listing);
      } else if !e.Arrive? && !e.Close? {
        WrittenStable(env, s.ledger.requests, s.phases, s.answered, s.ledger.requests, o.state.phases);
      }
    }
  }

  lemma {:induction false} GreetWrites<E, D>(env: Env<E, D>, s: State<E, D>)
    requires OutputOk(env, s) && s.reader.AwaitPreface?
    ensures Greet(s).Next? ==> OutputOk(env, Greet(s).state)
  {
    assert [] + EncodedAll(GREETING) == EncodedAll(GREETING);
  }

  lemma {:induction false} ReadWritesNothing<E, D>(env: Env<E, D>, s: State<E, D>)
    requires OutputOk(env, s) && env.Valid() && !s.reader.AwaitPreface?
    ensures Read(env, s).Next? ==> OutputOk(env, Read(env, s).state)
  {
    PollIsParse(s.reader, s.incoming);
    match Poll(s.reader, s.incoming)
    case Pending(_) =>
    case BadType =>
    case Ready(f, rest) =>
      ProcessWritesNothing(env, s.(reader := START, incoming := rest, frames := s.frames + [f]), f);
  }

  lemma {:induction false} ProcessWritesNothing<E, D>(env: Env<E, D>, s: State<E, D>, f: Frame)
    requires OutputOk(env, s) && env.Valid() && !s.reader.AwaitPreface? && f.id < 0x8000_0000
    ensures Process(env, s, f).Next? ==> OutputOk(env, Process(env, s, f).state)
  {
    hide Written, EncodedAll;
    var o := Process(env, s, f);
    if o.Next? {
      LoggedStable(env, s.ledger.requests, s.phases, s.answered, o.state.ledger.requests, o.state.phases);
    }
  }

  /** Opening a request and writing a body leave the log and what it stands for alone. */
  lemma {:induction false} LoggedStable<E, D>(env: Env<E, D>, requests: seq<Opening>, phases: seq<Phase>,
      answered: seq<nat>, requests': seq<Opening>, phases': seq<Phase>)
    requires Logged(env, requests, phases, answered) && env.Valid()
    requires |requests'| == |phases'| && phases <= phases'
    requires forall i :: 0 <= i < |requests'| ==> requests'[i].id < 0x8000_0000
    requires forall i :: 0 <= i < |requests| ==> requests'[i].id == requests[i].id && requests'[i].fields == requests[i].fields
    ensures Logged(env, requests', phases', answered)
    ensures Written(env, requests', phases', answered) == Written(env, requests, phases, answered)
  {
    assert forall i :: 0 <= i < |requests'| ==> 0 < env.chunkFor(requests'[i].fields) < 0x100_0000;
    WrittenStable(env, requests, phases, answered, requests', phases');
  }

  lemma {:induction false} AnswerWrites<E, D>(env: Env<E, D>, s: State<E, D>, listing: seq<Field>)
    requires OutputOk(env, s) && env.Valid() && s.queue != []
    ensures var o := WriteResponse(env, s, listing); o.Next? ==> OutputOk(env, o.state)
  {
    if WriteResponse(env, s, listing).Next? {
      AnswerLogged(env, s.ledger.requests, s.phases, s.answered, s.streams[s.queue[0]], listing);
    }
  }

  lemma {:induction false} AnswerLogged<E, D>(env: Env<E, D>, requests: seq<Opening>, phases: seq<Phase>,
      answered: seq<nat>, i: nat, listing: seq<Field>)
    requires Logged(env, requests, phases, answered) && i < |phases| && phases[i].Queued?
    ensures var r := phases[i].response;
            var after := phases[i := Answered(r, listing)];
            var (fs, e) := Written(env, requests, phases, answered);
            var (block, e') := env.codec.encode(e, ReplyFields(r, listing));
            var more := ReplyFrames(requests[i].id, block, r.body, env.chunkFor(requests[i].fields));
            && Logged(env, requests, after, answered + [i])
            && Written(env, requests, after, answered + [i]) == (fs + more, e')
            && EncodedAll(fs + more) == EncodedAll(fs) + EncodedAll(more)
  {
    var r := phases[i].response;
    var after := phases[i := Answered(r, listing)];
    var (fs, e) := Written(env, requests, phases, answered);
    var (block, _) := env.codec.encode(e, ReplyFields(r, listing));
    WrittenStable(env, requests, phases, answered, requests, after);
    WrittenAppend(env, requests, after, answered, i);
    EncodedAllAppend(fs, ReplyFrames(requests[i].id, block, r.body, env.chunkFor(requests[i].fields)));
  }

  lemma {:induction false} WrittenAppend<E, D>(env: Env<E, D>, requests: seq<Opening>, phases: seq<Phase>,
      answered: seq<nat>, i: nat)
    requires Logged(env, requests, phases, answered) && i < |phases| && phases[i].Answered?
    ensures Logged(env, requests, phases, answered + [i])
    ensures Written(env, requests, phases, answered + [i])
            == WriteOne(env, Written(env, requests, phases, answered), requests[i], phases[i])
  {
    assert (answered + [i])[..|answered|] == answered;
  }

  lemma {:induction false} OutputRun<E, D>(env: Env<E, D>, s: State<E, D>, es: seq<Event>)
    requires OutputOk(env, s) && env.Valid()
    ensures var o := Run(env, s, es); o.Next? ==> OutputOk(env, o.state)
    decreases |es|
  {
    if es != [] {
      OutputStep(env, s, es[0]);
      var o := Step(env, s, es[0]);
      if o.Next? {
        OutputRun(env, o.state, es[1..]);
      }
    }
  }

  ghost predicate Demuxed<E, D>(env: Env<E, D>, inStep: (E, D) -> bool, d: D, written: (seq<Frame>, E),
      replies: seq<Reply>, d': D) {
    var fs := written.0;
    && |fs| >= 2 && fs[..2] == GREETING
    && Demux(env.codec, d, fs[2..]) == Some((replies, d')) && inStep(written.1, d')
  }

  /** A client in step with the encoder demultiplexes what was written into the logged replies. */
  lemma {:induction false} WrittenDemux<E(!new), D(!new)>(env: Env<E, D>, inStep: (E, D) -> bool, d: D,
                                              requests: seq<Opening>, phases: seq<Phase>, answered: seq<nat>) returns (d': D)
    requires Lockstep(env.codec, inStep) && inStep(env.encoder, d)
    requires Logged(env, requests, phases, answered)
    ensures Demuxed(env, inStep, d, Written(env, requests, phases, answered), Replies(requests, phases, answered), d')
    decreases |answered|
  {
    hide Demuxed, Lockstep, WriteOne;
    if answered == [] {
      d' := d;
      NothingDemuxed(env, inStep, d);
    } else {
      var n := |answered| - 1;
      var before, i := answered[..n], answered[n];
      var d1 := WrittenDemux(env, inStep, d, requests, phases, before);
      d' := DemuxedAppend(env, inStep, d, Written(env, requests, phases, before), Replies(requests, phases, before), d1,
                          requests[i], phases[i]);
      assert Replies(requests, phases, answered) == Replies(requests, phases, before) + [ReplyOf(requests[i], phases[i])];
    }
  }

  lemma {:induction false} NothingDemuxed<E, D>(env: Env<E, D>, inStep: (E, D) -> bool, d: D)
    requires inStep(env.encoder, d)
    ensures Demuxed(env, inStep, d, (GREETING, env.encoder), [], d)
  {
    assert GREETING[2..] == [];
  }

  lemma {:induction false} DemuxedAppend<E(!new), D(!new)>(env: Env<E, D>, inStep: (E, D) -> bool, d: D,
      written: (seq<Frame>, E), replies: seq<Reply>, d1: D, o: Opening, p: Phase) returns (d': D)
    requires Lockstep(env.codec, inStep) && Demuxed(env, inStep, d, written, replies, d1)
    requires p.Answered? && 0 < env.chunkFor(o.fields) < 0x100_0000 && o.id < 0x8000_0000
    ensures Demuxed(env, inStep, d, WriteOne(env, written, o, p), replies + [ReplyOf(o, p)], d')
  {
    var (fs, e) := written;
    var fields, chunk := ReplyFields(p.response, p.listing), env.chunkFor(o.fields);
    d' := ReplyDemux(env.codec, inStep, e, d1, fields, o.id, p.response.body, chunk);
    var frames := ReplyFrames(o.id, env.codec.encode(e, fields).0, p.response.body, chunk);
    DemuxOneMore(env.codec, d, fs, replies, d1, frames, ReplyOf(o, p), d');
  }

  lemma {:induction false} DemuxOneMore<E, D>(codec: Codec<E, D>, d: D, fs: seq<Frame>, replies: seq<Reply>, d1: D,
      more: seq<Frame>, reply: Reply, d2: D)
    requires |fs| >= 2 && Demux(codec, d, fs[2..]) == Some((replies, d1))
    requires Demux(codec, d1, more) == Some(([reply], d2))
    ensures (fs + more)[..2] == fs[..2]
    ensures Demux(codec, d, (fs + more)[2..]) == Some((replies + [reply], d2))
  {
    DemuxAppend(codec, d, fs[2..], more);
    assert (fs + more)[2..] == fs[2..] + more;
  }

  lemma {:induction false} ReplyDemux<E(!new), D(!new)>(codec: Codec<E, D>, inStep: (E, D) -> bool, e: E, d: D,
      fields: seq<Field>, id: nat, body: seq<byte>, chunk: nat) returns (d': D)
    requires Lockstep(codec, inStep) && inStep(e, d)
    requires 0 < chunk < 0x100_0000 && id < 0x8000_0000
    ensures var (block, e') := codec.encode(e, fields);
            && Demux(codec, d, ReplyFrames(id, block, body, chunk)) == Some(([Reply(id, fields, body)], d'))
            && inStep(e', d')
            && ((forall f :: f in ReplyFrames(id, block, body, chunk) ==> f.Fits()) <==> |block| < 0x100_0000)
  {
    var (block, e') := codec.encode(e, fields);
    var fs := ReplyFrames(id, block, body, chunk);
    DataFramesRead(id, body, chunk);
    assert fs[1..] == DataFrames(id, body, chunk);
    d' := codec.decode(d, block).value.1;
    assert fs[0] in fs && forall f :: f in fs[1..] <==> f in DataFrames(id, body, chunk);
    assert forall f :: f in fs <==> f == fs[0] || f in fs[1..];
    assert Demux(codec, d', []) == Some(([], d'));
    assert [Reply(id, fields, body)] + [] == [Reply(id, fields, body)];
  }

  // --- What reads back as frames --------------------------------------------

  /** Every header block fits the 24-bit length of its frame; the writer does not see to that. */
  predicate BlocksFit(fs: seq<Frame>) {
    forall f :: f in fs && f.typ.Headers? ==> |f.payload| < 0x100_0000
  }

  /** Nothing but the length of a header block can keep a frame from fitting. */
  ghost predicate BlocksDecide(fs: seq<Frame>) {
    forall f :: f in fs ==> (f.Fits() <==> (f.typ.Headers? ==> |f.payload| < 0x100_0000))
  }

  lemma {:induction false} WrittenShape<E, D>(env: Env<E, D>, requests: seq<Opening>, phases: seq<Phase>,
      answered: seq<nat>)
    requires Logged(env, requests, phases, answered)
    ensures BlocksDecide(Written(env, requests, phases, answered).0)
    decreases |answered|
  {
    hide DataFrames, ReplyFields, BlocksDecide;
    if answered != [] {
      var n := |answered| - 1;
      var before, o, p := Written(env, requests, phases, answered[..n]), requests[answered[n]], phases[answered[n]];
      WrittenShape(env, requests, phases, answered[..n]);
      var chunk, block := env.chunkFor(o.fields), env.codec.encode(before.1, ReplyFields(p.response, p.listing)).0;
      DataFramesRead(o.id, p.response.body, chunk);
      BlocksMore(before.0, New(Headers, END_HEADERS, o.id, block), DataFrames(o.id, p.response.body, chunk));
    } else {
      GreetingFits();
    }
  }

  lemma {:induction false} GreetingFits()
    ensures BlocksDecide(GREETING)
  {}

  lemma {:induction false} BlocksMore(fs: seq<Frame>, head: Frame, data: seq<Frame>)
    requires BlocksDecide(fs) && forall f :: f in data ==> f.Fits()
    requires head.typ.Headers? && head.length == |head.payload| % 0x1_0000_0000 && head.id < 0x8000_0000
    ensures BlocksDecide(fs + ([head] + data))
  {
    var all := fs + ([head] + data);
    forall f | f in all
      ensures f.Fits() <==> (f.typ.Headers? ==> |f.payload| < 0x100_0000)
    {
      assert f in fs || f == head || f in data;
    }
  }

  /**
   * In every run, for any peer and any header compression, the octets written so far parse back to the
   * frames of the greeting and of the answers, with nothing left over, if and only if every header block
   * written fits its frame.
   */
  lemma {:induction false} OutputParsesExactly<E, D>(env: Env<E, D>, es: seq<Event>)
    requires env.Valid() && Run(env, Initial(env), es).Next?
    ensures var s := Run(env, Initial(env), es).state;
            && Logged(env, s.ledger.requests, s.phases, s.answered)
            && if s.reader.AwaitPreface? then s.out == []
               else
                 var fs := Written(env, s.ledger.requests, s.phases, s.answered).0;
                 ParseAll(s.out) == (fs, []) <==> BlocksFit(fs)
  {
    hide Run, Written, EncodedAll, ParseAll, Parse, BlocksFit, BlocksDecide;
    InitialOutput(env);
    OutputRun(env, Initial(env), es);
    var s := Run(env, Initial(env), es).state;
    if !s.reader.AwaitPreface? {
      WrittenShape(env, s.ledger.requests, s.phases, s.answered);
      var fs := Written(env, s.ledger.requests, s.phases, s.answered).0;
      EncodedReadBack(fs);
      FitOrNot(fs);
    }
  }

  lemma {:induction false} FitOrNot(fs: seq<Frame>)
    requires BlocksDecide(fs)
    ensures (forall f :: f in fs ==> f.Fits()) <==> BlocksFit(fs)
  {}

  lemma {:induction false} InitialOutput<E, D>(env: Env<E, D>)
    ensures OutputOk(env, Initial(env))
  {}

  /**
   * And if they do, a client whose decoder starts in step with the encoder reads exactly the replies of the
   * answered requests, uninterleaved, each with its own headers and its whole body: in every run, under any
   * interleaving and for any peer.
   */
  lemma {:induction false} ClientReadsReplies<E(!new), D(!new)>(env: Env<E, D>, inStep: (E, D) -> bool, d: D,
      es: seq<Event>)
    requires env.Valid() && Lockstep(env.codec, inStep) && inStep(env.encoder, d)
    requires Run(env, Initial(env), es).Next?
    ensures var s := Run(env, Initial(env), es).state;
            && Logged(env, s.ledger.requests, s.phases, s.answered)
            && if s.reader.AwaitPreface? then s.out == []
               else
                 BlocksFit(Written(env, s.ledger.requests, s.phases, s.answered).0) ==>
                   ReadConnection(env.codec, d, s.out) == Some(Replies(s.ledger.requests, s.phases, s.answered))
  {
    hide Run, Written, EncodedAll, ParseAll, Demux, BlocksFit, Lockstep;
    OutputParsesExactly(env, es);
    var s := Run(env, Initial(env), es).state;
    if !s.reader.AwaitPreface? {
      var d' := WrittenDemux(env, inStep, d, s.ledger.requests, s.phases, s.answered);
    }
  }

  /** And if the peer's octets are fine, no two replies belong to the same stream and no open stream has one. */
  lemma {:induction false} RepliesOnce<E, D>(env: Env<E, D>, es: seq<Event>)
    requires env.Valid() && FineConnection(env, Delivered(es))
    requires Run(env, Initial(env), es).Next?
    ensures var s := Run(env, Initial(env), es).state;
            && Inv(s)
            && var rs := Replies(s.ledger.requests, s.phases, s.answered);
               && |rs| + |s.streams| == |Ids(s.ledger.requests)|
               && (forall j, k :: 0 <= j < k < |rs| ==> rs[j].id != rs[k].id)
               && (forall k :: 0 <= k < |rs| ==> rs[k].id !in s.streams)
  {
    hide Run, FineConnection, Clean, Current;
    NoRunPanics(env, es);
    var s := Run(env, Initial(env), es).state;
    var rs := Replies(s.ledger.requests, s.phases, s.answered);
    forall j, k | 0 <= j < k < |rs|
      ensures rs[j].id != rs[k].id
    {
      AnsweredCurrent(s, j);
      AnsweredCurrent(s, k);
      DifferentCurrent(s.ledger.requests, s.answered[j], s.answered[k]);
    }
    forall k | 0 <= k < |rs|
      ensures rs[k].id !in s.streams
    {
      AnsweredCurrent(s, k);
    }
  }

  /** An answered request is the last of its id, and its stream is gone. */
  lemma {:induction false} AnsweredCurrent<E, D>(s: State<E, D>, k: nat)
    requires Inv(s) && k < |s.answered|
    ensures s.answered[k] < |s.ledger.requests| && Current(s.ledger.requests, s.answered[k])
    ensures s.ledger.requests[s.answered[k]].id !in s.streams
    ensures forall j :: 0 <= j < |s.answered| && j != k ==> s.answered[j] != s.answered[k]
  {
    hide QueueOk;
    ServedIsCurrent(s.ledger.requests, s.phases, s.streams, s.answered[k]);
  }

  lemma {:induction false} DifferentCurrent(requests: seq<Opening>, i: nat, j: nat)
    requires Current(requests, i) && Current(requests, j) && i != j
    ensures requests[i].id != requests[j].id
  {}

  // --- What a reply tells ---------------------------------------------------

  predicate ConnectionSpecific(name: string) {
    name == "transfer-encoding" || name == "connection" || name == "keep-alive"
  }

  /**
   * The reply tells the response: its status in decimal, first of all fields, its whole body, and for every
   * header that is not connection-specific its values.
   */
  ghost predicate Tells(reply: Reply, r: Response) {
    && reply.body == r.body
    && reply.fields != [] && reply.fields[0] == Field(":status", Numeral(r.status, 10))
    && forall name: string :: ValuesOf(reply.fields[1..], name) == if ConnectionSpecific(name) then [] else Values(r.headers, name)
  }

  lemma {:induction false} ReplyTells(id: nat, r: Response, listing: seq<Field>)
    requires Lists(listing, r.headers)
    ensures Tells(Reply(id, ReplyFields(r, listing), r.body), r)
  {
    hide Numeral;
    var fs := ReplyFields(r, listing);
    assert fs[1..] == Without(listing, HOP_BY_HOP);
    forall name: string
      ensures ValuesOf(fs[1..], name) == if ConnectionSpecific(name) then [] else Values(r.headers, name)
    {
      ValuesOfWithout(listing, HOP_BY_HOP, name);
      assert ValuesOf(listing, name) == Values(r.headers, name);
    }
  }

  // --- Order ----------------------------------------------------------------

  /** The tasks that sent their ids, in the order they did. */
  function Sent(es: seq<Event>): seq<nat> {
    if es == [] then [] else (if es[0].Send? then [es[0].task] else []) + Sent(es[1..])
  }

  /** `sent` is what has been answered, followed by what is in the channel. */
  ghost predicate InOrder<E, D>(s: State<E, D>, sent: seq<nat>) {
    && |sent| == |s.answered| + |s.queue|
    && s.answered == sent[..|s.answered|]
    && forall k :: |s.answered| <= k < |sent| ==>
         && sent[k] < |s.phases| == |s.ledger.requests| && s.phases[sent[k]].Queued?
         && s.ledger.requests[sent[k]].id == s.queue[k - |s.answered|]
  }

  /** Reading only adds requests, tasks and bodies; it does not touch ids, the channel or the log. */
  ghost predicate SameIds<E, D>(s: State<E, D>, t: State<E, D>) {
    && s.phases <= t.phases
    && (|s.phases| == |s.ledger.requests| ==> |t.phases| == |t.ledger.requests|)
    && t.queue == s.queue && t.answered == s.answered && |s.ledger.requests| <= |t.ledger.requests|
    && forall i :: 0 <= i < |s.ledger.requests| ==> t.ledger.requests[i].id == s.ledger.requests[i].id
  }

  lemma {:induction false} PollKeepsIds<E, D>(env: Env<E, D>, s: State<E, D>)
    requires s.reader.Valid()
    ensures var o := Step(env, s, PollReader); o.Next? ==> SameIds(s, o.state)
  {
    hide EncodedAll, Parse;
    if !s.reader.AwaitPreface? {
      PollIsParse(s.reader, s.incoming);
    }
  }

  lemma {:induction false} OrderStep<E, D>(env: Env<E, D>, s: State<E, D>, e: Event, sent: seq<nat>)
    requires Inv(s) && InOrder(s, sent)
    ensures var o := Step(env, s, e); o.Next? ==> InOrder(o.state, sent + if e.Send? then [e.task] else [])
  {
    hide EncodedAll, BodiesOk, AnsweredOk, Read, Greet, WriteResponse;
    assert sent + [] == sent;
    if e.PollReader? {
      PollKeepsIds(env, s);
    } else if e.Recv? {
      if s.queue != [] {
        AnswerInOrder(env, s, e.listing, sent);
      }
    } else if e.Send? {
      SendInOrder(env, s, e.task, sent);
    }
  }

  lemma {:induction false} SendInOrder<E, D>(env: Env<E, D>, s: State<E, D>, i: nat, sent: seq<nat>)
    requires Inv(s) && InOrder(s, sent)
    ensures var o := Step(env, s, Event.Send(i)); o.Next? ==> InOrder(o.state, sent + [i])
  {
    hide EncodedAll, Read, Greet, WriteResponse, TasksOk, StreamsOk, BodiesOk, QueueOk, AnsweredOk;
    TasksParts(s.ledger.requests, s.phases, s.streams, s.queue, s.answered);
    assert (sent + [i])[..|s.answered|] == sent[..|s.answered|];
  }

  lemma {:induction false} AnswerInOrder<E, D>(env: Env<E, D>, s: State<E, D>, listing: seq<Field>, sent: seq<nat>)
    requires Inv(s) && InOrder(s, sent) && s.queue != []
    ensures var o := WriteResponse(env, s, listing); o.Next? ==> InOrder(o.state, sent)
  {
    hide EncodedAll, TasksOk, Lists, ReplyFields, ReplyFrames;
    OldestAnswered(s, sent);
    LaterSent(s, sent);
  }

  /** The oldest id in the channel leads to the task that sent it. */
  lemma {:induction false} OldestAnswered<E, D>(s: State<E, D>, sent: seq<nat>)
    requires Inv(s) && InOrder(s, sent) && s.queue != []
    ensures s.queue[0] in s.streams && s.streams[s.queue[0]] == sent[|s.answered|]
    ensures s.answered + [sent[|s.answered|]] == sent[..|s.answered| + 1]
  {
    hide StreamsOk, BodiesOk, QueueOk, AnsweredOk;
    var i := sent[|s.answered|];
    assert s.ledger.requests[i].id == s.queue[0];
    QueuedCurrent(s.ledger.requests, s.phases, s.streams, i);
  }

  /** And no later id in the channel was sent by that task. */
  lemma {:induction false} LaterSent<E, D>(s: State<E, D>, sent: seq<nat>)
    requires Inv(s) && InOrder(s, sent) && s.queue != []
    ensures forall k :: |s.answered| < k < |sent| ==> sent[k] != sent[|s.answered|]
  {
    hide TasksOk, StreamsOk, BodiesOk, QueueOk, AnsweredOk;
    TasksParts(s.ledger.requests, s.phases, s.streams, s.queue, s.answered);
    forall k | |s.answered| < k < |sent|
      ensures sent[k] != sent[|s.answered|]
    {
      QueueDistinct(s.ledger.requests, s.phases, s.streams, s.queue, k - |s.answered|);
    }
  }

  lemma {:induction false} OrderRun<E, D>(env: Env<E, D>, s: State<E, D>, es: seq<Event>, sent: seq<nat>)
    requires Inv(s) && Early(env, s) && env.Valid() && InOrder(s, sent)
    requires FineRest(env, s, Delivered(es))
    ensures var o := Run(env, s, es); o.Next? ==> InOrder(o.state, sent + Sent(es))
    decreases |es|
  {
    hide Step, TasksOk, FineRest, InOrder, Early;
    if es == [] {
      assert sent + [] == sent;
    } else {
      assert Delivered(es) == Delivered([es[0]]) + Delivered(es[1..]);
      StepOk(env, s, es[0], Delivered(es[1..]));
      OrderStep(env, s, es[0], sent);
      var o := Step(env, s, es[0]);
      if o.Next? {
        var one := if es[0].Send? then [es[0].task] else [];
        OrderRun(env, o.state, es[1..], sent + one);
        Associative(sent, one, Sent(es[1..]));
      }
    }
  }

  /** Responses are written in the order in which the tasks sent their ids, and the rest of those ids is in the channel. */
  lemma {:induction false} FirstSentFirstAnswered<E, D>(env: Env<E, D>, es: seq<Event>)
    requires env.Valid() && FineConnection(env, Delivered(es))
    requires Run(env, Initial(env), es).Next?
    ensures InOrder(Run(env, Initial(env), es).state, Sent(es))
  {
    hide Run, FineConnection, TasksOk;
    var s := Initial(env);
    InitialOk(env);
    assert s.Unread() + Delivered(es) == Delivered(es);
    OrderRun(env, s, es, []);
    assert [] + Sent(es) == Sent(es);
  }
}
