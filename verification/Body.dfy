/**
 * The request body as a meeting point: the reader of a connection publishes it, and tasks wait for it
 * through a single waker slot. Each `poll` and each `write_body` is one step.
 */
module Body {
  import opened Base

  /** The shared body. `waker` is the task registered last; wake-ups not yet acted on are in `woken`. */
  class RequestBody {
    var bytes: Option<string>
    var isWritten: bool
    var waker: Option<nat>
    var woken: set<nat>

    constructor ()
      ensures View() == Cell(None, false, None, {})
    {
      bytes, isWritten, waker, woken := None, false, None, {};
    }

    function View(): Cell
      reads this
    {
      Cell(bytes, isWritten, waker, woken)
    }

    /** `GetBody::poll` of a task: ready once the body has been written, and parked until then. */
    method Poll(task: nat) returns (ready: bool, body: Option<string>)
      modifies this
      ensures (View(), ready) == Polled(old(View()), task)
      ensures body == bytes == old(bytes)
    {
      woken := woken - {task};
      body := bytes;
      if !isWritten {
        waker := Some(task);
        return false, body;
      }
      ready := true;
    }

    method WriteBody(content: Option<string>)
      modifies this
      ensures View() == Published(old(View()), content)
    {
      bytes := content;
      isWritten := true;
      if waker.Some? {
        woken := woken + {waker.value};
      }
    }
  }

  datatype Cell = Cell(bytes: Option<string>, isWritten: bool, waker: Option<nat>, woken: set<nat>)

  function Polled(c: Cell, task: nat): (Cell, bool) {
    var c' := c.(woken := c.woken - {task});
    if c.isWritten then (c', true) else (c'.(waker := Some(task)), false)
  }

  function Published(c: Cell, content: Option<string>): Cell {
    c.(bytes := content, isWritten := true, woken := c.woken + if c.waker.Some? then {c.waker.value} else {})
  }

  // --- Reading the body -----------------------------------------------------

  datatype Announced = Length(n: nat) | NoLength | BadLength

  datatype Outcome = Waiting | Finished | Failed

  /** How a poll of the reader ends, on the octets there are and with or without more to come. */
  function PollOutcome(announced: Announced, available: string, eof: bool): Outcome {
    if !announced.Length? then Failed
    else if |available| >= announced.n then Finished
    else if eof then Failed
    else Waiting
  }

  /**
   * The reader's side: the octets it has not looked at, whether the input has ended, whether something has
   * happened since its last poll, and how that poll ended.
   */
  datatype Source = Source(announced: Announced, available: string, eof: bool, stirred: bool, outcome: Outcome)

  /** One poll of the reader: what it publishes, and what it leaves. */
  function ReaderPolled(c: Cell, r: Source): (Cell, Source) {
    match PollOutcome(r.announced, r.available, r.eof)
    case Waiting => (c, r.(available := [], stirred := false))
    case Finished =>
      (Published(c, Some(r.available[..r.announced.n])), r.(available := r.available[r.announced.n..], outcome := Finished))
    case Failed =>
      (Published(c, None), r.(available := if r.announced.Length? then [] else r.available, outcome := Failed))
  }

  /**
   * `ReadBody::poll`: every exit but the waiting one has published exactly once. The buffer is made anew
   * by every poll, so the octets a waiting poll took are gone.
   */
  method PollRead(body: RequestBody, announced: Announced, available: string, eof: bool)
    returns (outcome: Outcome, rest: string)
    modifies body
    ensures var (c, r) := ReaderPolled(old(body.View()), Source(announced, available, eof, true, Waiting));
            body.View() == c && rest == r.available && outcome == r.outcome
    ensures !announced.Length? ==> outcome.Failed?
    ensures announced.Length? ==> (outcome.Finished? <==> |available| >= announced.n)
    ensures announced.Length? ==> (outcome.Waiting? <==> |available| < announced.n && !eof)
    ensures outcome.Waiting? ==> body.View() == old(body.View()) && rest == []
    ensures outcome.Finished? ==> body.View() == Published(old(body.View()), Some(available[..announced.n]))
    ensures outcome.Finished? ==> rest == available[announced.n..]
    ensures outcome.Failed? ==> body.View() == Published(old(body.View()), None)
    ensures outcome.Failed? ==> rest == if announced.Length? then [] else available
  {
    if !announced.Length? {
      body.WriteBody(None);
      return Failed, available;
    }
    var n := announced.n;
    var taken := Min(n, |available|);
    rest := available[taken..];
    if taken == n {
      body.WriteBody(Some(available[..n]));
      outcome := Finished;
    } else if eof {
      body.WriteBody(None);
      outcome := Failed;
    } else {
      outcome := Waiting;
    }
  }

  /** The first poll that finds the whole body, `arrivals[k]` being what has come in since the poll before. */
  function FinishingPoll(n: nat, arrivals: seq<string>): (f: nat)
    ensures f <= |arrivals|
    ensures f < |arrivals| ==> |arrivals[f]| >= n
    ensures forall k :: 0 <= k < f ==> |arrivals[k]| < n
  {
    if arrivals == [] || |arrivals[0]| >= n then 0 else 1 + FinishingPoll(n, arrivals[1..])
  }

  /** What the connection had received before poll `k`, and all of which earlier polls have taken. */
  function Before(arrivals: seq<string>, k: nat): string
    requires k <= |arrivals|
  {
    Concat(arrivals[..k])
  }

  /**
   * Polling once per arrival, the last of which comes with the end of input: the body published is the
   * window of the octets sent that starts where the finishing poll found them, or none; and nothing is
   * lost if and only if no earlier poll found an octet.
   */
  method ReadToEnd(body: RequestBody, n: nat, arrivals: seq<string>) returns (outcome: Outcome, finish: nat, rest: string)
    requires arrivals != []
    modifies body
    ensures finish == FinishingPoll(n, arrivals)
    ensures outcome == if finish < |arrivals| then Finished else Failed
    ensures outcome.Failed? ==> body.View() == Published(old(body.View()), None)
    ensures outcome.Finished? ==>
              var sent, off := Concat(arrivals), |Before(arrivals, finish)|;
              && off + n <= off + n + |rest| <= |sent|
              && body.View() == Published(old(body.View()), Some(sent[off..off + n]))
              && rest == sent[off + n..off + n + |rest|]
              && off + n + |rest| == |Before(arrivals, finish + 1)|
              && (sent[off..off + n] + rest == Before(arrivals, finish + 1) <==> forall j :: 0 <= j < finish ==> arrivals[j] == [])
  {
    hide Concat, Before, FinishingPoll;
    outcome, finish, rest := Waiting, 0, [];
    while outcome.Waiting?
      invariant finish <= |arrivals|
      invariant outcome.Waiting? ==> finish < |arrivals| && body.View() == old(body.View())
      invariant forall k :: 0 <= k < finish ==> |arrivals[k]| < n
      invariant outcome.Finished? ==> finish < |arrivals| && |arrivals[finish]| >= n
      invariant outcome.Finished? ==> body.View() == Published(old(body.View()), Some(arrivals[finish][..n])) && rest == arrivals[finish][n..]
      invariant outcome.Failed? ==> finish == |arrivals| && body.View() == Published(old(body.View()), None)
      decreases |arrivals| - finish, outcome.Waiting?
    {
      outcome, rest := PollRead(body, Length(n), arrivals[finish], finish == |arrivals| - 1);
      if !outcome.Finished? {
        finish := finish + 1;
      }
    }
    FirstIs(n, arrivals, finish);
    if outcome.Finished? {
      WindowLost(n, arrivals, finish);
    }
  }

  /** What the finishing poll finds, as a window of all that is sent. */
  lemma {:induction false} WindowLost(n: nat, arrivals: seq<string>, f: nat)
    requires f == FinishingPoll(n, arrivals) < |arrivals|
    ensures var sent, off, rest := Concat(arrivals), |Before(arrivals, f)|, arrivals[f][n..];
            && off + n <= off + n + |rest| <= |sent| && off + n + |rest| == |Before(arrivals, f + 1)|
            && sent[off..off + n] == arrivals[f][..n]
            && sent[off + n..off + n + |rest|] == rest
            && (sent[off..off + n] + rest == Before(arrivals, f + 1) <==> forall j :: 0 <= j < f ==> arrivals[j] == [])
  {
    hide Concat, Before;
    Window(arrivals, f, n);
    BodyWholeExactly(n, arrivals, arrivals[f][..n], arrivals[f][n..]);
  }

  lemma {:induction false} FirstIs(n: nat, arrivals: seq<string>, f: nat)
    requires f <= |arrivals| && (f < |arrivals| ==> |arrivals[f]| >= n) && forall k :: 0 <= k < f ==> |arrivals[k]| < n
    ensures f == FinishingPoll(n, arrivals)
  {
    var g := FinishingPoll(n, arrivals);
    assert !(f < g) && !(g < f);
  }

  /** An arrival within all of them. */
  lemma {:induction false} Window(arrivals: seq<string>, f: nat, n: nat)
    requires f < |arrivals| && n <= |arrivals[f]|
    ensures var sent, off := Concat(arrivals), |Before(arrivals, f)|;
            && |Before(arrivals, f + 1)| == off + |arrivals[f]| <= |sent|
            && sent[off..off + n] == arrivals[f][..n]
            && sent[off + n..off + |arrivals[f]|] == arrivals[f][n..]
  {
    var a, x, b := Before(arrivals, f), arrivals[f], Concat(arrivals[f + 1..]);
    BeforeNext(arrivals, f);
    assert arrivals == arrivals[..f + 1] + arrivals[f + 1..];
    ConcatAppend(arrivals[..f + 1], arrivals[f + 1..]);
    assert Concat(arrivals) == a + x + b;
  }

  lemma {:induction false} BeforeNext(arrivals: seq<string>, k: nat)
    requires k < |arrivals|
    ensures Before(arrivals, k + 1) == Before(arrivals, k) + arrivals[k]
  {
    assert arrivals[..k + 1] == arrivals[..k] + [arrivals[k]];
    ConcatAppend(arrivals[..k], [arrivals[k]]);
    assert Concat([arrivals[k]]) == arrivals[k] + [];
  }

  /** Nothing arrived before poll `k` exactly when no earlier poll found an octet. */
  lemma {:induction false} NothingBefore(arrivals: seq<string>, k: nat)
    requires k <= |arrivals|
    ensures Before(arrivals, k) == [] <==> forall j :: 0 <= j < k ==> arrivals[j] == []
    decreases k
  {
    if k > 0 {
      NothingBefore(arrivals, k - 1);
      BeforeNext(arrivals, k - 1);
    }
  }

  /**
   * The body published and what is left behind it are together all that has been received if and only if
   * no poll before the finishing one found an octet: what an unfinished poll took is lost. And then the
   * body is the first octets received, as announced.
   */
  lemma {:induction false} BodyWholeExactly(n: nat, arrivals: seq<string>, body: string, rest: string)
    requires var f := FinishingPoll(n, arrivals); f < |arrivals| && body == arrivals[f][..n] && rest == arrivals[f][n..]
    ensures var f := FinishingPoll(n, arrivals);
            var whole := forall j :: 0 <= j < f ==> arrivals[j] == [];
            && (body + rest == Before(arrivals, f + 1) <==> whole)
            && (whole ==> |Concat(arrivals)| >= n && body == Concat(arrivals)[..n])
  {
    var f := FinishingPoll(n, arrivals);
    BeforeNext(arrivals, f);
    NothingBefore(arrivals, f);
    Window(arrivals, f, n);
    assert body + rest == arrivals[f];
  }

  lemma {:induction false} SplitBody()
    ensures var arrivals := ["a", "bc"];
            Concat(arrivals) == "abc" && FinishingPoll(2, arrivals) == 1 && Before(arrivals, 1) == "a"
  {
    var arrivals := ["a", "bc"];
    assert arrivals[1..] == ["bc"] && ["bc"][1..] == [] && arrivals[..1] == ["a"] && ["a"][1..] == [];
    assert Concat(["bc"]) == "bc" + Concat([]) && Concat(["a"]) == "a" + Concat([]);
    assert Concat(arrivals) == "a" + Concat(["bc"]);
    FirstIs(2, arrivals, 1);
  }

  /** A body of two octets, "ab", that comes in as one and then two more: the second and the third are published for it. */
  method SplitBodyShifts() returns (published: Option<string>)
    ensures Concat(["a", "bc"])[..2] == "ab" && published == Some("bc")
  {
    var body := new RequestBody();
    SplitBody();
    var outcome, finish, rest := ReadToEnd(body, 2, ["a", "bc"]);
    published := body.bytes;
    assert body.View().bytes == Some("abc"[1..3]);
    assert "abc"[..2] == "ab" && "abc"[1..3] == "bc";
  }

  // --- The protocol ---------------------------------------------------------

  datatype Waiter = Runnable | Parked | Done(body: Option<string>)

  datatype System = System(cell: Cell, waiters: map<nat, Waiter>, source: Source)

  /**
   * A waiting task runs when it is runnable or has been woken, and the reader when input has stirred it;
   * either may also be polled without a reason.
   */
  datatype Action =
    | Run(task: nat)
    | Read
    | SpuriousRun(task: nat)
    | SpuriousRead
    | Arrive(bytes: string)
    | EndInput

  predicate Enabled(s: System, a: Action) {
    match a
    case Run(t) => t in s.waiters && (s.waiters[t].Runnable? || (s.waiters[t].Parked? && t in s.cell.woken))
    case Read => s.source.outcome.Waiting? && s.source.stirred
    case SpuriousRun(t) => t in s.waiters && s.waiters[t].Parked?
    case SpuriousRead => s.source.outcome.Waiting?
    case Arrive(_) => !s.source.eof
    case EndInput => !s.source.eof
  }

  function RunTask(s: System, t: nat): System
    requires t in s.waiters
  {
    var (cell, ready) := Polled(s.cell, t);
    s.(cell := cell, waiters := s.waiters[t := if ready then Done(s.cell.bytes) else Parked])
  }

  function RunReader(s: System): System {
    var (cell, source) := ReaderPolled(s.cell, s.source);
    s.(cell := cell, source := source)
  }

  function Act(s: System, a: Action): System
    requires Enabled(s, a)
  {
    match a
    case Run(t) => RunTask(s, t)
    case SpuriousRun(t) => RunTask(s, t)
    case Read => RunReader(s)
    case SpuriousRead => RunReader(s)
    case Arrive(bytes) => s.(source := s.source.(available := s.source.available + bytes, stirred := true))
    case EndInput => s.(source := s.source.(eof := true, stirred := true))
  }

  /** Tasks and reader start out ready for their first poll. */
  function Start(tasks: set<nat>, announced: Announced): System {
    System(Cell(None, false, None, {}), map t | t in tasks :: Runnable, Source(announced, [], false, true, Waiting))
  }

  /** The parked tasks that nothing will run again: neither woken nor registered. */
  ghost predicate Lost(s: System, t: nat) {
    t in s.waiters && s.waiters[t].Parked? && t !in s.cell.woken && (s.cell.isWritten || s.cell.waker != Some(t))
  }

  ghost predicate NobodyLost(s: System) {
    forall t :: !Lost(s, t)
  }

  /** The runs of the protocol, step by step. */
  predicate IsRun(s: System, actions: seq<Action>)
    decreases |actions|
  {
    actions == [] || (Enabled(s, actions[0]) && IsRun(Act(s, actions[0]), actions[1..]))
  }

  function After(s: System, actions: seq<Action>): System
    requires IsRun(s, actions)
    decreases |actions|
  {
    if actions == [] then s else After(Act(s, actions[0]), actions[1..])
  }

  /**
   * What a finished task got is what was published; it is published just when the reader is through, and
   * the reader has a reason to run as long as the end of input is news to it.
   */
  ghost predicate Sound(s: System) {
    && (forall t :: t in s.waiters && s.waiters[t].Done? ==> s.cell.isWritten && s.waiters[t].body == s.cell.bytes)
    && (s.cell.isWritten <==> !s.source.outcome.Waiting?)
    && (s.source.eof && s.source.outcome.Waiting? ==> s.source.stirred)
  }

  lemma {:induction false} ActSound(s: System, a: Action)
    requires Enabled(s, a) && Sound(s)
    ensures Sound(Act(s, a)) && Act(s, a).waiters.Keys == s.waiters.Keys
  {}

  lemma {:induction false} RunSound(s: System, actions: seq<Action>)
    requires IsRun(s, actions) && Sound(s)
    ensures Sound(After(s, actions)) && After(s, actions).waiters.Keys == s.waiters.Keys
    decreases |actions|
  {
    if actions != [] {
      ActSound(s, actions[0]);
      RunSound(Act(s, actions[0]), actions[1..]);
    }
  }

  /** What has been published stays: the body is published once. */
  lemma {:induction false} PublishedOnce(s: System, actions: seq<Action>)
    requires IsRun(s, actions) && Sound(s) && s.cell.isWritten
    ensures After(s, actions).cell.isWritten && After(s, actions).cell.bytes == s.cell.bytes
    decreases |actions|
  {
    if actions != [] {
      ActSound(s, actions[0]);
      PublishedOnce(Act(s, actions[0]), actions[1..]);
    }
  }

  /** With a single waiting task, no step loses its wake-up. */
  lemma {:induction false} ActKeepsSingle(s: System, t: nat, a: Action)
    requires Enabled(s, a) && s.waiters.Keys == {t} && !Lost(s, t) && Sound(s)
    ensures Act(s, a).waiters.Keys == {t} && !Lost(Act(s, a), t) && Sound(Act(s, a))
  {
    ActSound(s, a);
  }

  lemma {:induction false} SingleRun(s: System, t: nat, actions: seq<Action>)
    requires s.waiters.Keys == {t} && !Lost(s, t) && Sound(s) && IsRun(s, actions)
    ensures var s' := After(s, actions); NobodyLost(s') && Sound(s') && s'.waiters.Keys == {t}
    decreases |actions|
  {
    if actions == [] {
      assert forall u :: u in s.waiters ==> u == t;
    } else {
      ActKeepsSingle(s, t, actions[0]);
      SingleRun(Act(s, actions[0]), t, actions[1..]);
    }
  }

  /** The run in which two tasks wait and the second registers over the first. */
  function Overwritten(t: nat, u: nat): seq<Action> {
    [Run(t), Run(u)]
  }

  lemma {:induction false} SecondWaiterOverwrites(tasks: set<nat>, announced: Announced, t: nat, u: nat)
    requires t in tasks && u in tasks && t != u
    ensures var s := Start(tasks, announced); IsRun(s, Overwritten(t, u)) && Lost(After(s, Overwritten(t, u)), t)
  {
    var s := Start(tasks, announced);
    var s1 := Act(s, Run(t));
    var s2 := Act(s1, Run(u));
    assert Overwritten(t, u)[1..] == [Run(u)] && [Run(u)][1..] == [];
    assert After(s1, [Run(u)]) == After(s2, []) == s2;
  }

  /** A lost task stays lost, whatever happens later, unless it is polled without a reason. */
  lemma {:induction false} LostForever(s: System, t: nat, actions: seq<Action>)
    requires IsRun(s, actions) && Sound(s) && Lost(s, t) && SpuriousRun(t) !in actions
    ensures Lost(After(s, actions), t)
    decreases |actions|
  {
    if actions != [] {
      ActSound(s, actions[0]);
      LostForever(Act(s, actions[0]), t, actions[1..]);
    }
  }

  /**
   * The slot is enough for one waiting task and for no more: no run loses a wake-up if and only if at
   * most one task waits for the body.
   */
  lemma {:induction false} NoWakeUpLostExactly(tasks: set<nat>, announced: Announced)
    ensures (forall actions | IsRun(Start(tasks, announced), actions) :: NobodyLost(After(Start(tasks, announced), actions))) <==> |tasks| <= 1
  {
    var s := Start(tasks, announced);
    assert s.waiters.Keys == tasks;
    if |tasks| == 0 {
      forall actions | IsRun(s, actions)
        ensures NobodyLost(After(s, actions))
      {
        RunSound(s, actions);
      }
    } else if |tasks| == 1 {
      var t :| t in tasks;
      assert |tasks - {t}| == 0;
      forall actions | IsRun(s, actions)
        ensures NobodyLost(After(s, actions))
      {
        SingleRun(s, t, actions);
      }
    } else {
      var t :| t in tasks;
      assert |tasks - {t}| > 0;
      var u :| u in tasks - {t};
      SecondWaiterOverwrites(tasks, announced, t, u);
      assert !NobodyLost(After(s, Overwritten(t, u)));
    }
  }

  /** Polls that have a reason. */
  predicate Driven(a: Action) {
    a.Run? || a.Read?
  }

  ghost predicate Quiet(s: System) {
    forall a :: Enabled(s, a) ==> !Driven(a)
  }

  /**
   * The scope that reads a body and waits for it, with one waiting task: when nothing more is driven, the
   * task has got the body just when the reader is through; and once the input has ended both are, so that
   * the scope joins.
   */
  lemma {:induction false} ScopeJoins(t: nat, announced: Announced, actions: seq<Action>)
    requires IsRun(Start({t}, announced), actions) && Quiet(After(Start({t}, announced), actions))
    ensures var s := After(Start({t}, announced), actions);
            && t in s.waiters
            && (s.waiters[t].Done? <==> !s.source.outcome.Waiting?)
            && (s.source.eof ==> s.cell.isWritten && !s.source.outcome.Waiting? && s.waiters[t] == Done(s.cell.bytes))
  {
    var s0 := Start({t}, announced);
    assert s0.waiters.Keys == {t};
    SingleRun(s0, t, actions);
    var s := After(s0, actions);
    assert !Enabled(s, Run(t)) && !Enabled(s, Read) && !Lost(s, t);
  }

  /** The slot holds nothing but the one waiting task, and it is woken only by what it waits for. */
  ghost predicate Single(s: System, t: nat) {
    && s.waiters.Keys == {t} && !Lost(s, t) && Sound(s)
    && (s.cell.waker.Some? ==> s.cell.waker == Some(t) && !s.waiters[t].Runnable?)
    && s.cell.woken <= {t}
    && (t in s.cell.woken ==> s.cell.isWritten && s.waiters[t].Parked?)
  }

  /** The driven polls that are left if no more input comes. */
  function Left(s: System, t: nat): nat
    requires t in s.waiters
  {
    (if s.source.outcome.Waiting? && s.source.stirred then 1 else 0) + match s.waiters[t]
    case Runnable => if s.cell.isWritten then 1 else 2
    case Parked => 1
    case Done(_) => 0
  }

  function Count(actions: seq<Action>, driven: bool): nat {
    if actions == [] then 0
    else (if (if driven then Driven(actions[0]) else actions[0].Arrive? || actions[0].EndInput?) then 1 else 0)
         + Count(actions[1..], driven)
  }

  lemma {:induction false} ActUsesUp(s: System, t: nat, a: Action)
    requires Single(s, t) && Enabled(s, a)
    ensures Single(Act(s, a), t)
    ensures Count([a], true) + Left(Act(s, a), t) <= Left(s, t) + Count([a], false)
  {
    ActKeepsSingle(s, t, a);
  }

  lemma {:induction false} RunUsesUp(s: System, t: nat, actions: seq<Action>)
    requires Single(s, t) && IsRun(s, actions)
    ensures t in After(s, actions).waiters
    ensures Count(actions, true) + Left(After(s, actions), t) <= Left(s, t) + Count(actions, false)
    decreases |actions|
  {
    if actions != [] {
      ActUsesUp(s, t, actions[0]);
      RunUsesUp(Act(s, actions[0]), t, actions[1..]);
      assert Count(actions, true) == Count([actions[0]], true) + Count(actions[1..], true);
      assert Count(actions, false) == Count([actions[0]], false) + Count(actions[1..], false);
    }
  }

  /**
   * The waiting task is never spun, and neither is the reader: however often they are polled without a
   * reason, the polls that have one are at most three and one for every piece of input.
   */
  lemma {:induction false} RunsAreShort(t: nat, announced: Announced, actions: seq<Action>)
    requires IsRun(Start({t}, announced), actions)
    ensures Count(actions, true) <= 3 + Count(actions, false)
  {
    assert Start({t}, announced).waiters.Keys == {t};
    RunUsesUp(Start({t}, announced), t, actions);
  }
}
