/**
 * What the connection makes of the octets it receives: however they are cut up, and wherever the
 * writing of responses comes between two polls of the pending read, the frames processed are the
 * batch parse of the octets, and the requests opened are what those frames say.
 */
module Http2Input {
  import opened Base
  import opened Http2Frame
  import opened Http2Conn
  import opened Http2Safety

  /**
   * No octet is lost, duplicated or reordered: what was received is the preface, the octets that
   * finished reads have consumed, and those still unread; the consumed ones are exactly the frames processed.
   */
  ghost predicate InputOk<E, D>(s: State<E, D>, consumed: seq<byte>) {
    && s.reader.Valid()
    && if s.reader.AwaitPreface? then s.received == s.Unread() && s.frames == [] && consumed == []
       else s.received == PREFACE + consumed + s.Unread() && ParseAll(consumed) == (s.frames, [])
  }

  lemma {:induction false} ParsePrefix(b: seq<byte>)
    requires Parse(b).Complete?
    ensures Parse(b[..|b| - |Parse(b).rest|]) == Complete(Parse(b).frame, [])
  {
    var n := 9 + LengthOf(b);
    assert b[..n][9..n] == b[9..n] && IdOf(b[..n]) == IdOf(b);
  }

  /** One more frame consumed is one more frame in the batch parse. */
  lemma {:induction false} ParseAllSnoc(a: seq<byte>, fs: seq<Frame>, x: seq<byte>, f: Frame)
    requires ParseAll(a) == (fs, []) && Parse(x) == Complete(f, [])
    ensures ParseAll(a + x) == (fs + [f], [])
  {
    ParseAllExtend(a, x);
    assert [] + x == x;
    assert ParseAll([]) == ([], []);
    assert [f] + [] == [f];
  }

  lemma {:induction false} ReadConsumes<E, D>(env: Env<E, D>, s: State<E, D>, consumed: seq<byte>)
    returns (after: seq<byte>)
    requires InputOk(s, consumed) && !s.reader.AwaitPreface?
    ensures Read(env, s).Next? ==> InputOk(Read(env, s).state, after)
  {
    hide Parse, Poll, Process, ParseAll, Reader.Held;
    PollIsParse(s.reader, s.incoming);
    var b := s.Unread();
    after := consumed;
    match Poll(s.reader, s.incoming)
    case Pending(r) =>
      assert r.Held() + [] == b;
    case BadType =>
    case Ready(f, rest) =>
      var x := b[..|b| - |rest|];
      ParsePrefix(b);
      ParseAllSnoc(consumed, s.frames, x, f);
      after := consumed + x;
      FrameConsumed(s.received, PREFACE, consumed, b, x, rest);
      var t := s.(reader := START, incoming := rest, frames := s.frames + [f]);
      StartHolds();
      assert START.Held() + rest == rest;
      ProcessReads(env, t, f);
  }

  lemma {:induction false} StartHolds()
    ensures START.Held() == []
  {}

  lemma {:induction false} FrameConsumed(received: seq<byte>, p: seq<byte>, consumed: seq<byte>, b: seq<byte>,
      x: seq<byte>, rest: seq<byte>)
    requires received == p + consumed + b && |rest| <= |b| && rest == b[|b| - |rest|..] && x == b[..|b| - |rest|]
    ensures received == p + (consumed + x) + rest
  {
    assert b == x + rest;
  }

  lemma {:induction false} ProcessReads<E, D>(env: Env<E, D>, s: State<E, D>, f: Frame)
    ensures var o := Process(env, s, f);
            o.Next? ==> (o.state.reader == s.reader && o.state.incoming == s.incoming
                         && o.state.received == s.received && o.state.frames == s.frames)
  {}

  lemma {:induction false} GreetConsumes<E, D>(s: State<E, D>)
    requires InputOk(s, []) && s.reader.AwaitPreface?
    ensures Greet(s).Next? ==> InputOk(Greet(s).state, [])
  {
    hide EncodedAll, Parse, ParseAll;
    var n := Min(24 - |s.reader.filled|, |s.incoming|);
    GreetPieces(s.reader.filled, s.incoming, n);
  }

  lemma {:induction false} GreetPieces(filled: seq<byte>, incoming: seq<byte>, n: nat)
    requires n <= |incoming|
    ensures filled + incoming == (filled + incoming[..n]) + incoming[n..]
    ensures PREFACE + [] + ([] + incoming[n..]) == PREFACE + incoming[n..]
    ensures ParseAll([]) == ([], [])
  {
    assert incoming == incoming[..n] + incoming[n..];
  }

  lemma {:induction false} ArriveConsumes<E, D>(env: Env<E, D>, s: State<E, D>, consumed: seq<byte>, bytes: seq<byte>)
    requires InputOk(s, consumed) && !s.closed
    ensures InputOk(Step(env, s, Arrive(bytes)).state, consumed)
  {
    hide ParseAll;
    Associative(s.reader.Held(), s.incoming, bytes);
    Associative(PREFACE + consumed, s.Unread(), bytes);
  }

  lemma {:induction false} InputStep<E, D>(env: Env<E, D>, s: State<E, D>, consumed: seq<byte>, e: Event)
    returns (after: seq<byte>)
    requires InputOk(s, consumed)
    ensures var o := Step(env, s, e);
            o.Next? ==> (InputOk(o.state, after) && o.state.received == s.received + Delivered([e]))
  {
    hide Read, Greet, EncodedAll, ParseAll;
    assert Delivered([e]) == if e.Arrive? then e.bytes else [];
    after := consumed;
    if e.Arrive? {
      if !s.closed { ArriveConsumes(env, s, consumed, e.bytes); }
    } else if e.PollReader? {
      if s.reader.AwaitPreface? { GreetConsumes(s); } else { after := ReadConsumes(env, s, consumed); }
      PollReceives(env, s);
    }
  }

  lemma {:induction false} PollReceives<E, D>(env: Env<E, D>, s: State<E, D>)
    requires s.reader.Valid()
    ensures var o := Step(env, s, PollReader); o.Next? ==> o.state.received == s.received
  {}

  lemma {:induction false} InputRun<E, D>(env: Env<E, D>, s: State<E, D>, consumed: seq<byte>, es: seq<Event>)
    returns (after: seq<byte>)
    requires InputOk(s, consumed)
    ensures s.reader.Valid()
    ensures var o := Run(env, s, es);
            o.Next? ==> (InputOk(o.state, after) && o.state.received == s.received + Delivered(es))
    decreases |es|
  {
    hide Step, InputOk;
    after := consumed;
    ValidReader(s, consumed);
    if es != [] {
      var next := InputStep(env, s, consumed, es[0]);
      var o := Step(env, s, es[0]);
      if o.Next? {
        after := InputRun(env, o.state, next, es[1..]);
        DeliveredHead(es);
        Associative(s.received, Delivered([es[0]]), Delivered(es[1..]));
      }
    }
  }

  lemma {:induction false} ValidReader<E, D>(s: State<E, D>, consumed: seq<byte>)
    requires InputOk(s, consumed)
    ensures s.reader.Valid()
  {}

  lemma {:induction false} DeliveredHead(es: seq<Event>)
    requires es != []
    ensures Delivered(es) == Delivered([es[0]]) + Delivered(es[1..])
  {}

  /**
   * At every point of every run the frames processed so far, followed by those still to be found in
   * the octets not consumed, are the batch parse of all the octets received; and once the pending read
   * has nothing to finish, the frames processed are that parse.
   */
  lemma {:induction false} FramesAreBatchParse<E, D>(env: Env<E, D>, es: seq<Event>)
    requires Run(env, Initial(env), es).Next?
    ensures var s := Run(env, Initial(env), es).state;
            && s.received == Delivered(es)
            && if s.reader.AwaitPreface? then s.frames == [] && s.received == s.Unread()
               else
                 && PREFACE <= s.received
                 && ParseAll(s.received[24..]) == (s.frames + ParseAll(s.Unread()).0, ParseAll(s.Unread()).1)
                 && (Parse(s.Unread()).Incomplete? ==> ParseAll(s.received[24..]) == (s.frames, s.Unread()))
  {
    hide Run, Parse, ParseAll;
    var consumed := InputRun(env, Initial(env), [], es);
    var s := Run(env, Initial(env), es).state;
    assert [] + Delivered(es) == Delivered(es);
    if !s.reader.AwaitPreface? {
      AfterPreface(s.received, consumed, s.Unread());
      ParseAllExtend(consumed, s.Unread());
      NothingMore(s.frames, s.Unread());
    }
  }

  lemma {:induction false} AfterPreface(received: seq<byte>, consumed: seq<byte>, unread: seq<byte>)
    requires received == PREFACE + consumed + unread
    ensures PREFACE <= received && received[24..] == consumed + unread && [] + unread == unread
  {
    assert received == PREFACE + (consumed + unread);
  }

  lemma {:induction false} NothingMore(fs: seq<Frame>, b: seq<byte>)
    ensures Parse(b).Incomplete? ==> ParseAll(b) == ([], b)
    ensures fs + [] == fs
  {}

  // --- The requests ---------------------------------------------------------

  /** The ledger a sequence of frames amounts to, if every one of them is admitted. */
  function Replay<E, D>(env: Env<E, D>, frames: seq<Frame>): Option<Ledger<D>> {
    if frames == [] then Some(Ledger(env.decoder, []))
    else match Replay(env, frames[..|frames| - 1])
      case None => None
      case Some(l) =>
        Admit(env, l, frames[|frames| - 1])
  }

  ghost predicate Replayed<E, D>(env: Env<E, D>, s: State<E, D>) {
    Inv(s) && Early(env, s) && Replay(env, s.frames) == Some(s.ledger)
  }

  lemma {:induction false} ReplayStep<E, D>(env: Env<E, D>, s: State<E, D>, e: Event, future: seq<byte>)
    requires Replayed(env, s) && env.Valid()
    requires FineRest(env, s, Delivered([e]) + future)
    ensures var o := Step(env, s, e);
            o.Next? ==> (Replayed(env, o.state) && FineRest(env, o.state, future))
  {
    hide TasksOk, EncodedAll, FineRest, Admit, Read;
    StepOk(env, s, e, future);
    if e.PollReader? && !s.reader.AwaitPreface? {
      assert Delivered([e]) + future == future;
      ReadReplays(env, s, future);
    }
  }

  lemma {:induction false} ReadReplays<E, D>(env: Env<E, D>, s: State<E, D>, future: seq<byte>)
    requires Replayed(env, s) && !s.reader.AwaitPreface?
    requires FineRest(env, s, future)
    ensures var o := Read(env, s); o.Next? ==> Replay(env, o.state.frames) == Some(o.state.ledger)
  {
    hide TasksOk, Poll, Parse, Admit, Process;
    PollIsParse(s.reader, s.incoming);
    match Poll(s.reader, s.incoming)
    case Pending(_) =>
    case BadType =>
    case Ready(f, rest) =>
      ParseExtend(s.Unread(), future);
      var t := s.(reader := START, incoming := rest, frames := s.frames + [f]);
      ProcessOk(env, t, f);
      assert t.frames[..|s.frames|] == s.frames;
      ProcessKeepsFrames(env, t, f);
  }

  lemma {:induction false} ProcessKeepsFrames<E, D>(env: Env<E, D>, s: State<E, D>, f: Frame)
    ensures Process(env, s, f).Next? ==> Process(env, s, f).state.frames == s.frames
  {}

  lemma {:induction false} ReplayRun<E, D>(env: Env<E, D>, s: State<E, D>, es: seq<Event>)
    requires Replayed(env, s) && env.Valid()
    requires FineRest(env, s, Delivered(es))
    ensures var o := Run(env, s, es); o.Next? ==> Replayed(env, o.state)
    decreases |es|
  {
    hide Step, TasksOk, FineRest, Replay, Early;
    if es != [] {
      DeliveredHead(es);
      ReplayStep(env, s, es[0], Delivered(es[1..]));
      var o := Step(env, s, es[0]);
      if o.Next? {
        ReplayRun(env, o.state, es[1..]);
      }
    }
  }

  /**
   * On a peer whose octets are fine, the requests opened, and the body each has been given, depend on
   * the frames processed alone: task scheduling, blocked senders and interleaved responses do not show.
   */
  lemma {:induction false} RequestsAreReplay<E, D>(env: Env<E, D>, es: seq<Event>)
    requires env.Valid() && FineConnection(env, Delivered(es))
    requires Run(env, Initial(env), es).Next?
    ensures var s := Run(env, Initial(env), es).state; Replay(env, s.frames) == Some(s.ledger)
  {
    hide Run, FineConnection, TasksOk;
    var s := Initial(env);
    InitialOk(env);
    assert s.Unread() + Delivered(es) == Delivered(es);
    ReplayRun(env, s, es);
  }
}
