/**
 * Progress: once input stops and handlers terminate, every stream whose body is there is answered,
 * within a number of steps fixed by the state.
 */
module Http2Liveness {
  import opened HeaderFields
  import opened Http2Frame
  import opened Http2Conn
  import opened Http2Safety

  /** Steps of handler tasks and of the channel, as against receiving and reading. */
  predicate Internal(e: Event) {
    !e.Arrive? && !e.Close? && !e.PollReader?
  }

  predicate AllInternal(es: seq<Event>) {
    forall e :: e in es ==> Internal(e)
  }

  /** How many steps a task still has before it. */
  function Rank(p: Phase): nat {
    match p
    case Handling => 4
    case AwaitBody(_) => 3
    case Sending(_) => 2
    case Queued(_) => 1
    case Answered(_, _) => 0
  }

  function Remaining(phases: seq<Phase>): nat {
    if phases == [] then 0 else Rank(phases[0]) + Remaining(phases[1..])
  }

  lemma {:induction false} RemainingUpdate(phases: seq<Phase>, i: nat, p: Phase)
    requires i < |phases|
    ensures Remaining(phases[i := p]) == Remaining(phases) - Rank(phases[i]) + Rank(p)
  {
    if i == 0 {
      assert phases[0 := p][1..] == phases[1..];
    } else {
      RemainingUpdate(phases[1..], i - 1, p);
      assert phases[i := p][1..] == phases[1..][i - 1 := p];
    }
  }

  lemma {:induction false} RemainingBound(phases: seq<Phase>)
    ensures Remaining(phases) <= 4 * |phases|
  {
    if phases != [] {
      RemainingBound(phases[1..]);
    }
  }

  lemma {:induction false} InternalStep<E, D>(env: Env<E, D>, s: State<E, D>, e: Event)
    requires Inv(s) && env.Valid() && Internal(e)
    ensures var o := Step(env, s, e);
            && (o.Panic? <==> Oversize(env, s, e))
            && (o.Next? ==> (Inv(o.state) && SameReading(s, o.state) && Remaining(o.state.phases) < Remaining(s.phases)))
  {
    hide TasksOk, EncodedAll, ReplyFields, ReplyFrames, Lists;
    var o := Step(env, s, e);
    if e.Recv? {
      if s.queue != [] {
        WriteOk(env, s, e.listing);
        if o.Next? {
          RemainingUpdate(s.phases, s.streams[s.queue[0]], o.state.phases[s.streams[s.queue[0]]]);
        }
      }
    } else {
      TaskStepOk(env, s, e);
      if o.Next? {
        RemainingUpdate(s.phases, e.task, o.state.phases[e.task]);
      }
    }
  }

  /** Every internal continuation is short: each step uses up at least one unit of what remains. */
  lemma {:induction false} InternalRun<E, D>(env: Env<E, D>, s: State<E, D>, es: seq<Event>)
    requires Inv(s) && env.Valid() && AllInternal(es)
    ensures var o := Run(env, s, es);
            && (o.Panic? <==> !Clean(env, s, es))
            && (o.Next? ==> (Inv(o.state) && SameReading(s, o.state) && |es| + Remaining(o.state.phases) <= Remaining(s.phases)))
    decreases |es|
  {
    hide Step, TasksOk, Oversize;
    if es != [] {
      InternalStep(env, s, es[0]);
      var o := Step(env, s, es[0]);
      if o.Next? {
        InternalRun(env, o.state, es[1..]);
      }
    }
  }

  /** A task that wants to send has to wait exactly while the channel holds a hundred ids. */
  lemma {:induction false} SendWaitsExactly<E, D>(env: Env<E, D>, s: State<E, D>, i: nat)
    requires Inv(s) && i < |s.phases| && s.phases[i].Sending?
    ensures Step(env, s, Send(i)).Disabled? <==> |s.queue| == 100
    ensures Step(env, s, Send(i)).Next? <==> |s.queue| < 100
  {
    hide Read, Greet, WriteResponse;
  }

  /** A request that only the server keeps from being answered. */
  ghost predicate Answerable<E, D>(s: State<E, D>, i: nat)
    requires |s.phases| == |s.ledger.requests|
  {
    i < |s.phases| && Live(s.phases[i]) && (s.ledger.requests[i].needsBody ==> s.ledger.requests[i].body.Some?)
  }

  /** While some request is answerable an internal step is enabled, even with the channel full. */
  lemma {:induction false} SomethingEnabled<E, D>(env: Env<E, D>, s: State<E, D>, i: nat) returns (e: Event)
    requires Inv(s) && env.Valid() && Answerable(s, i)
    ensures Internal(e) && !Step(env, s, e).Disabled?
  {
    hide EncodedAll, AnsweredOk, WriteResponse, Read, Greet;
    if s.phases[i].Handling? {
      e := HandlerDone(i, Response(200, map[], []));
    } else if s.phases[i].AwaitBody? {
      e := BodyReady(i);
    } else if s.phases[i].Sending? && |s.queue| < CAPACITY {
      e := Send(i);
    } else {
      e := OldestEnabled(env, s);
    }
  }

  lemma {:induction false} OldestEnabled<E, D>(env: Env<E, D>, s: State<E, D>) returns (e: Event)
    requires Inv(s) && env.Valid() && s.queue != []
    ensures Internal(e) && !Step(env, s, e).Disabled?
  {
    hide EncodedAll, BodiesOk, AnsweredOk, Step, Lists, ListsBut;
    var i := s.streams[s.queue[0]];
    var headers := s.phases[i].response.headers;
    var listing := ListingExists(headers, headers.Keys);
    assert headers.Keys - headers.Keys == {};
    Listed(listing, headers);
    e := Recv(listing);
    assert Lists(listing, s.phases[i].response.headers) && s.phases[i].Queued?;
    WriteOk(env, s, listing);
    RecvWrites(env, s, listing);
  }

  /**
   * From any reachable state, without further input: an internal run has at most `Remaining` steps and
   * panics only on an oversize header block, and when no internal step is enabled any more, every request is answered except those
   * whose DATA the peer has not sent.
   */
  lemma {:induction false} EveryRunAnswers<E, D>(env: Env<E, D>, es: seq<Event>, more: seq<Event>)
    requires env.Valid() && FineConnection(env, Delivered(es)) && AllInternal(more)
    requires Run(env, Initial(env), es).Next?
    ensures var s := Run(env, Initial(env), es).state;
            var o := Run(env, s, more);
            && (o.Panic? <==> !Clean(env, s, more))
            && (o.Next? ==> |more| <= Remaining(s.phases) <= 4 * |s.ledger.requests|)
            && (o.Next? && (forall e | Internal(e) :: Step(env, o.state, e).Disabled?) ==>
                  o.state.ledger == s.ledger && |o.state.phases| == |s.ledger.requests|
                  && forall i :: 0 <= i < |s.ledger.requests| ==>
                       (o.state.phases[i].Answered? <==>
                        (s.ledger.requests[i].needsBody ==> s.ledger.requests[i].body.Some?)))
  {
    hide Step, Run, Clean, FineConnection, Remaining;
    NoRunPanics(env, es);
    var s := Run(env, Initial(env), es).state;
    InternalRun(env, s, more);
    RemainingBound(s.phases);
    var o := Run(env, s, more);
    if o.Next? && (forall e | Internal(e) :: Step(env, o.state, e).Disabled?) {
      forall i | 0 <= i < |s.ledger.requests|
        ensures o.state.phases[i].Answered? <==> (s.ledger.requests[i].needsBody ==> s.ledger.requests[i].body.Some?)
      {
        if Answerable(o.state, i) {
          var e := SomethingEnabled(env, o.state, i);
          assert false;
        }
      }
    }
  }

  /**
   * And such a state is reached: some internal run, and hence every one that is not cut short, gets there,
   * unless a header block turns out oversize on the way.
   */
  lemma {:induction false} QuiescenceReached<E, D>(env: Env<E, D>, s: State<E, D>)
    returns (es: seq<Event>, o: Outcome<State<E, D>>)
    requires Inv(s) && env.Valid()
    ensures AllInternal(es) && Run(env, s, es) == o && !o.Disabled? && (o.Panic? <==> !Clean(env, s, es))
    ensures o.Next? ==> (Inv(o.state) && SameReading(s, o.state) && forall i :: 0 <= i < |o.state.phases| ==> !Answerable(o.state, i))
    decreases Remaining(s.phases)
  {
    hide Step, Remaining, BodiesOk, QueueOk, AnsweredOk, Oversize;
    if i: nat :| i < |s.phases| && Answerable(s, i) {
      var e := SomethingEnabled(env, s, i);
      InternalStep(env, s, e);
      o := Step(env, s, e);
      es := [e];
      assert es[1..] == [];
      if o.Next? {
        var rest;
        rest, o := QuiescenceReached(env, o.state);
        es := [e] + rest;
        assert es[1..] == rest;
      }
    } else {
      es, o := [], Next(s);
    }
  }
}
