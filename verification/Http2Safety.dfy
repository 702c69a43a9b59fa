/**
 * Safety of every run: the invariant tying streams, tasks and channel together, and the exact
 * condition on the peer's octets under which no interleaving makes the connection task panic.
 */
module Http2Safety {
  import opened Base
  import opened HeaderFields
  import opened Http2Frame
  import opened Http2Conn

  // --- The invariant --------------------------------------------------------

  predicate Live(p: Phase) {
    !p.Answered?
  }

  ghost predicate NoRepeats<T>(q: seq<T>) {
    forall i, j :: 0 <= i < j < |q| ==> q[i] != q[j]
  }

  /** A request still waiting for its DATA. */
  predicate Unserved(o: Opening) {
    o.needsBody && o.body.None?
  }

  /** The last request opened under its id. */
  ghost predicate Current(requests: seq<Opening>, i: nat) {
    i < |requests| && forall j :: i < j < |requests| ==> requests[j].id != requests[i].id
  }

  /**
   * `streams` leads from an id to the last request opened under it, as long as that one is unanswered;
   * a request is opened under the id of an earlier one only while that one still waits for its DATA.
   */
  ghost predicate StreamsOk(requests: seq<Opening>, phases: seq<Phase>, streams: map<nat, nat>) {
    && |phases| == |requests|
    && (forall i, j :: 0 <= i < j < |requests| && requests[i].id == requests[j].id ==> Unserved(requests[i]))
    && (forall id :: id in streams ==> Current(requests, streams[id]) && requests[streams[id]].id == id && Live(phases[streams[id]]))
    && (forall i :: 0 <= i < |phases| && Live(phases[i]) && Current(requests, i) ==>
          requests[i].id in streams && streams[requests[i].id] == i)
  }

  /** A task is past waiting for a body only if there is none to wait for or it has been written. */
  ghost predicate BodiesOk(requests: seq<Opening>, phases: seq<Phase>)
    requires |phases| == |requests|
  {
    && (forall i :: 0 <= i < |phases| && phases[i].AwaitBody? ==> requests[i].needsBody)
    && (forall i :: 0 <= i < |phases| && Unserved(requests[i]) ==> phases[i].Handling? || phases[i].AwaitBody?)
  }

  /** The channel holds the ids of exactly the requests whose task has sent and which are unanswered, once each. */
  ghost predicate QueueOk(requests: seq<Opening>, phases: seq<Phase>, streams: map<nat, nat>, queue: seq<nat>)
    requires |phases| == |requests|
  {
    && |queue| <= CAPACITY
    && NoRepeats(queue)
    && (forall k :: 0 <= k < |queue| ==> queue[k] in streams && streams[queue[k]] < |phases| && phases[streams[queue[k]]].Queued?)
    && (forall i :: 0 <= i < |phases| && phases[i].Queued? ==> requests[i].id in queue)
  }

  /** The log of answers lists exactly the answered requests, once each. */
  ghost predicate AnsweredOk(phases: seq<Phase>, answered: seq<nat>) {
    && NoRepeats(answered)
    && (forall k :: 0 <= k < |answered| ==> answered[k] < |phases| && phases[answered[k]].Answered?)
    && (forall i :: 0 <= i < |phases| && phases[i].Answered? ==> i in answered)
  }

  ghost predicate TasksOk(requests: seq<Opening>, phases: seq<Phase>, streams: map<nat, nat>, queue: seq<nat>,
      answered: seq<nat>) {
    && StreamsOk(requests, phases, streams)
    && BodiesOk(requests, phases)
    && QueueOk(requests, phases, streams, queue)
    && AnsweredOk(phases, answered)
    && |Ids(requests)| == |streams| + |answered|
  }

  /** The ids requests have been opened under. */
  function Ids(requests: seq<Opening>): set<nat> {
    set o | o in requests :: o.id
  }

  /** The ids opened are those of the streams still open and those answered, and nothing else. */
  ghost predicate Inv<E, D>(s: State<E, D>) {
    s.reader.Valid() && TasksOk(s.ledger.requests, s.phases, s.streams, s.queue, s.answered)
  }

  /** A request that does not wait for DATA is the last of its id. */
  lemma {:induction false} ServedIsCurrent(requests: seq<Opening>, phases: seq<Phase>, streams: map<nat, nat>, i: nat)
    requires StreamsOk(requests, phases, streams) && i < |requests| && !Unserved(requests[i])
    ensures Current(requests, i)
    ensures Live(phases[i]) ==> requests[i].id in streams && streams[requests[i].id] == i
  {}

  lemma {:induction false} CurrentUnique(requests: seq<Opening>, i: nat, j: nat)
    requires Current(requests, i) && Current(requests, j) && requests[i].id == requests[j].id
    ensures i == j
  {}

  // --- How the tasks' state changes -----------------------------------------

  lemma {:induction false} TasksParts(requests: seq<Opening>, phases: seq<Phase>, streams: map<nat, nat>,
      queue: seq<nat>, answered: seq<nat>)
    requires TasksOk(requests, phases, streams, queue, answered)
    ensures |phases| == |requests| && StreamsOk(requests, phases, streams) && BodiesOk(requests, phases)
    ensures QueueOk(requests, phases, streams, queue) && AnsweredOk(phases, answered)
    ensures |Ids(requests)| == |streams| + |answered|
  {}

  lemma {:induction false} TasksWhole(requests: seq<Opening>, phases: seq<Phase>, streams: map<nat, nat>,
      queue: seq<nat>, answered: seq<nat>)
    requires |phases| == |requests| && StreamsOk(requests, phases, streams) && BodiesOk(requests, phases)
    requires QueueOk(requests, phases, streams, queue) && AnsweredOk(phases, answered)
    requires |Ids(requests)| == |streams| + |answered|
    ensures TasksOk(requests, phases, streams, queue, answered)
  {}

  lemma {:induction false} OpenKeeps(requests: seq<Opening>, phases: seq<Phase>, streams: map<nat, nat>,
      queue: seq<nat>, answered: seq<nat>, o: Opening)
    requires TasksOk(requests, phases, streams, queue, answered)
    requires forall i :: 0 <= i < |requests| && requests[i].id == o.id ==> Unserved(requests[i])
    ensures TasksOk(requests + [o], phases + [Handling], streams[o.id := |requests|], queue, answered)
  {
    OpenStreams(requests, phases, streams, o);
    OpenQueue(requests, phases, streams, queue, o);
    OpenCount(requests, phases, streams, o);
  }

  lemma {:induction false} OpenStreams(requests: seq<Opening>, phases: seq<Phase>, streams: map<nat, nat>, o: Opening)
    requires StreamsOk(requests, phases, streams) && BodiesOk(requests, phases)
    requires forall i :: 0 <= i < |requests| && requests[i].id == o.id ==> Unserved(requests[i])
    ensures StreamsOk(requests + [o], phases + [Handling], streams[o.id := |requests|])
    ensures BodiesOk(requests + [o], phases + [Handling])
  {
    var after := requests + [o];
    forall i | 0 <= i < |requests|
      ensures Current(after, i) <==> Current(requests, i) && requests[i].id != o.id
    {
      assert after[|requests|] == o;
      assert forall j :: 0 <= j < |requests| ==> after[j] == requests[j];
    }
    assert Current(after, |requests|);
  }

  /** An id in the channel leads to a request that is the last of its id and waits for no DATA. */
  lemma {:induction false} QueuedServed(requests: seq<Opening>, phases: seq<Phase>, streams: map<nat, nat>,
      queue: seq<nat>, k: nat)
    requires StreamsOk(requests, phases, streams) && BodiesOk(requests, phases) && QueueOk(requests, phases, streams, queue)
    requires k < |queue|
    ensures |phases| == |requests| && queue[k] in streams && streams[queue[k]] < |requests| && phases[streams[queue[k]]].Queued?
    ensures var i := streams[queue[k]]; requests[i].id == queue[k] && !Unserved(requests[i]) && Current(requests, i)
  {}

  lemma {:induction false} OpenQueue(requests: seq<Opening>, phases: seq<Phase>, streams: map<nat, nat>,
      queue: seq<nat>, o: Opening)
    requires StreamsOk(requests, phases, streams) && BodiesOk(requests, phases) && QueueOk(requests, phases, streams, queue)
    requires forall i :: 0 <= i < |requests| && requests[i].id == o.id ==> Unserved(requests[i])
    ensures QueueOk(requests + [o], phases + [Handling], streams[o.id := |requests|], queue)
  {
    forall k | 0 <= k < |queue|
      ensures queue[k] != o.id
    {
      QueuedServed(requests, phases, streams, queue, k);
    }
  }

  lemma {:induction false} IdsMore(requests: seq<Opening>, o: Opening)
    ensures Ids(requests + [o]) == Ids(requests) + {o.id}
  {
    assert (requests + [o])[|requests|] == o;
    assert forall x :: x in requests + [o] <==> x in requests || x == o;
  }

  lemma {:induction false} OpenCount(requests: seq<Opening>, phases: seq<Phase>, streams: map<nat, nat>, o: Opening)
    requires StreamsOk(requests, phases, streams) && BodiesOk(requests, phases)
    requires forall i :: 0 <= i < |requests| && requests[i].id == o.id ==> Unserved(requests[i])
    ensures |Ids(requests + [o])| - |Ids(requests)| == |streams[o.id := |requests|]| - |streams|
  {
    hide StreamsOk, BodiesOk, Ids;
    IdsMore(requests, o);
    KeysMore(streams, o.id, |requests|);
    OpenStream(requests, phases, streams, o.id);
    if o.id in Ids(requests) {
      assert Ids(requests) + {o.id} == Ids(requests);
    }
  }

  lemma {:induction false} KeysMore(m: map<nat, nat>, k: nat, v: nat)
    ensures |m[k := v]| == |m| + if k in m then 0 else 1
  {
    assert m[k := v].Keys == m.Keys + {k};
    assert |m[k := v].Keys| == |m[k := v]| && |m.Keys| == |m|;
    if k in m {
      assert m.Keys + {k} == m.Keys;
    }
  }

  /** An id whose requests all wait for DATA has a stream as soon as it has a request. */
  lemma {:induction false} OpenStream(requests: seq<Opening>, phases: seq<Phase>, streams: map<nat, nat>, id: nat)
    requires StreamsOk(requests, phases, streams) && BodiesOk(requests, phases)
    requires forall i :: 0 <= i < |requests| && requests[i].id == id ==> Unserved(requests[i])
    ensures id in Ids(requests) <==> id in streams
  {
    if id in streams {
      assert requests[streams[id]] in requests;
    }
    if id in Ids(requests) {
      var i := Latest(requests, id).value;
      assert Unserved(requests[i]) && Live(phases[i]);
    }
  }

  lemma {:induction false} BodyKeeps(requests: seq<Opening>, phases: seq<Phase>, streams: map<nat, nat>,
      queue: seq<nat>, answered: seq<nat>, i: nat, body: seq<byte>)
    requires TasksOk(requests, phases, streams, queue, answered) && Current(requests, i)
    ensures TasksOk(requests[i := requests[i].(body := Some(body))], phases, streams, queue, answered)
  {
    hide TasksOk, StreamsOk, BodiesOk, QueueOk, AnsweredOk, Ids;
    var after := requests[i := requests[i].(body := Some(body))];
    TasksParts(requests, phases, streams, queue, answered);
    BodyStreams(requests, phases, streams, i, body);
    BodyQueue(requests, phases, streams, queue, i, body);
    BodyIds(requests, i, body);
    TasksWhole(after, phases, streams, queue, answered);
  }

  lemma {:induction false} BodyIds(requests: seq<Opening>, i: nat, body: seq<byte>)
    requires i < |requests|
    ensures Ids(requests[i := requests[i].(body := Some(body))]) == Ids(requests)
  {
    var after := requests[i := requests[i].(body := Some(body))];
    assert forall j :: 0 <= j < |after| ==> after[j] in after && requests[j] in requests && after[j].id == requests[j].id;
  }

  lemma {:induction false} BodyQueue(requests: seq<Opening>, phases: seq<Phase>, streams: map<nat, nat>,
      queue: seq<nat>, i: nat, body: seq<byte>)
    requires |phases| == |requests| && i < |requests| && QueueOk(requests, phases, streams, queue)
    ensures QueueOk(requests[i := requests[i].(body := Some(body))], phases, streams, queue)
  {}

  lemma {:induction false} BodyStreams(requests: seq<Opening>, phases: seq<Phase>, streams: map<nat, nat>,
      i: nat, body: seq<byte>)
    requires StreamsOk(requests, phases, streams) && BodiesOk(requests, phases) && Current(requests, i)
    ensures var after := requests[i := requests[i].(body := Some(body))];
            StreamsOk(after, phases, streams) && BodiesOk(after, phases)
  {
    var after := requests[i := requests[i].(body := Some(body))];
    forall j | 0 <= j < |requests|
      ensures after[j].id == requests[j].id && (Current(after, j) <==> Current(requests, j))
      ensures j != i ==> after[j] == requests[j]
    {
      assert forall k :: 0 <= k < |requests| ==> after[k].id == requests[k].id;
    }
  }

  /** A task that stays unanswered keeps its stream. */
  lemma {:induction false} PhaseStreams(requests: seq<Opening>, phases: seq<Phase>, streams: map<nat, nat>, i: nat, p: Phase)
    requires StreamsOk(requests, phases, streams) && i < |phases| && Live(phases[i]) && Live(p)
    ensures StreamsOk(requests, phases[i := p], streams)
  {}

  lemma {:induction false} PhaseLog(phases: seq<Phase>, answered: seq<nat>, i: nat, p: Phase)
    requires AnsweredOk(phases, answered) && i < |phases| && Live(phases[i]) && Live(p)
    ensures AnsweredOk(phases[i := p], answered)
  {}

  lemma {:induction false} PhaseQueue(requests: seq<Opening>, phases: seq<Phase>, streams: map<nat, nat>,
      queue: seq<nat>, i: nat, p: Phase)
    requires |phases| == |requests| && QueueOk(requests, phases, streams, queue) && i < |phases|
    requires !phases[i].Queued? && !p.Queued?
    ensures QueueOk(requests, phases[i := p], streams, queue)
  {}

  lemma {:induction false} PhaseKeeps(requests: seq<Opening>, phases: seq<Phase>, streams: map<nat, nat>,
      queue: seq<nat>, answered: seq<nat>, i: nat, p: Phase)
    requires TasksOk(requests, phases, streams, queue, answered) && i < |phases|
    requires !phases[i].Queued? && !phases[i].Answered?
    requires (p.AwaitBody? && requests[i].needsBody) || (p.Sending? && !Unserved(requests[i]))
    ensures TasksOk(requests, phases[i := p], streams, queue, answered)
  {
    hide TasksOk, StreamsOk, QueueOk, AnsweredOk, Ids;
    TasksParts(requests, phases, streams, queue, answered);
    PhaseStreams(requests, phases, streams, i, p);
    PhaseQueue(requests, phases, streams, queue, i, p);
    PhaseLog(phases, answered, i, p);
    TasksWhole(requests, phases[i := p], streams, queue, answered);
  }

  lemma {:induction false} SendKeeps(requests: seq<Opening>, phases: seq<Phase>, streams: map<nat, nat>,
      queue: seq<nat>, answered: seq<nat>, i: nat)
    requires TasksOk(requests, phases, streams, queue, answered) && i < |phases|
    requires phases[i].Sending? && |queue| < CAPACITY
    ensures TasksOk(requests, phases[i := Queued(phases[i].response)], streams, queue + [requests[i].id], answered)
  {
    hide TasksOk, StreamsOk, QueueOk, AnsweredOk, Ids;
    TasksParts(requests, phases, streams, queue, answered);
    var p := Queued(phases[i].response);
    ServedIsCurrent(requests, phases, streams, i);
    PhaseStreams(requests, phases, streams, i, p);
    PhaseLog(phases, answered, i, p);
    EnqueueKeeps(requests, phases, streams, queue, i, p);
    TasksWhole(requests, phases[i := p], streams, queue + [requests[i].id], answered);
  }

  lemma {:induction false} EnqueueKeeps(requests: seq<Opening>, phases: seq<Phase>, streams: map<nat, nat>,
      queue: seq<nat>, i: nat, p: Phase)
    requires |phases| == |requests| && QueueOk(requests, phases, streams, queue) && |queue| < CAPACITY
    requires i < |phases| && !phases[i].Queued? && p.Queued?
    requires requests[i].id in streams && streams[requests[i].id] == i
    ensures QueueOk(requests, phases[i := p], streams, queue + [requests[i].id])
  {
    var after, q := phases[i := p], queue + [requests[i].id];
    assert forall k :: 0 <= k < |queue| ==> streams[queue[k]] != i;
    forall j | 0 <= j < |after| && after[j].Queued?
      ensures requests[j].id in q
    {
      if j != i {
        assert requests[j].id in queue;
      }
    }
  }

  lemma {:induction false} AnswerKeeps(requests: seq<Opening>, phases: seq<Phase>, streams: map<nat, nat>,
      queue: seq<nat>, answered: seq<nat>, i: nat, listing: seq<Field>)
    requires TasksOk(requests, phases, streams, queue, answered)
    requires queue != [] && queue[0] in streams && streams[queue[0]] == i < |phases| && phases[i].Queued?
    ensures TasksOk(requests, phases[i := Answered(phases[i].response, listing)], streams - {queue[0]}, queue[1..], answered + [i])
  {
    hide TasksOk, StreamsOk, QueueOk, AnsweredOk, Ids;
    TasksParts(requests, phases, streams, queue, answered);
    var after := phases[i := Answered(phases[i].response, listing)];
    AnswerStreams(requests, phases, streams, queue[0], after[i]);
    KeysLess(streams, queue[0]);
    DequeueKeeps(requests, phases, streams, queue, listing);
    LogKeeps(phases, answered, i, listing);
    TasksWhole(requests, after, streams - {queue[0]}, queue[1..], answered + [i]);
  }

  lemma {:induction false} AnswerStreams(requests: seq<Opening>, phases: seq<Phase>, streams: map<nat, nat>, id: nat, p: Phase)
    requires StreamsOk(requests, phases, streams) && id in streams && p.Answered?
    ensures StreamsOk(requests, phases[streams[id] := p], streams - {id})
  {
    assert requests[streams[id]].id == id;
  }

  lemma {:induction false} KeysLess(m: map<nat, nat>, k: nat)
    requires k in m
    ensures |m - {k}| == |m| - 1
  {
    assert (m - {k}).Keys == m.Keys - {k};
    assert |(m - {k}).Keys| == |m - {k}| && |m.Keys| == |m|;
  }

  lemma {:induction false} DequeueKeeps(requests: seq<Opening>, phases: seq<Phase>, streams: map<nat, nat>,
      queue: seq<nat>, listing: seq<Field>)
    requires StreamsOk(requests, phases, streams) && BodiesOk(requests, phases) && QueueOk(requests, phases, streams, queue)
    requires queue != []
    ensures var i := streams[queue[0]];
            QueueOk(requests, phases[i := Answered(phases[i].response, listing)], streams - {queue[0]}, queue[1..])
  {
    hide StreamsOk, BodiesOk, QueueOk;
    QueuedServed(requests, phases, streams, queue, 0);
    var i, rest := streams[queue[0]], queue[1..];
    forall k | 0 <= k < |rest|
      ensures rest[k] in streams && rest[k] != queue[0] && streams[rest[k]] < |phases| && streams[rest[k]] != i
    {
      QueueDistinct(requests, phases, streams, queue, k + 1);
      QueuedServed(requests, phases, streams, queue, k + 1);
    }
    forall j | 0 <= j < |phases| && j != i && phases[j].Queued?
      ensures j < |requests| && requests[j].id != queue[0]
    {
      QueuedCurrent(requests, phases, streams, j);
    }
    QueueRest(requests, phases, streams, queue, i, Answered(phases[i].response, listing));
  }

  lemma {:induction false} QueueDistinct(requests: seq<Opening>, phases: seq<Phase>, streams: map<nat, nat>,
      queue: seq<nat>, k: nat)
    requires |phases| == |requests| && QueueOk(requests, phases, streams, queue) && 0 < k < |queue|
    ensures queue[k] != queue[0]
  {}

  lemma {:induction false} QueueRest(requests: seq<Opening>, phases: seq<Phase>, streams: map<nat, nat>,
      queue: seq<nat>, i: nat, p: Phase)
    requires |phases| == |requests| && QueueOk(requests, phases, streams, queue) && queue != []
    requires i < |phases| && p.Answered?
    requires var rest := queue[1..]; forall k :: 0 <= k < |rest| ==> rest[k] != queue[0] && rest[k] in streams && streams[rest[k]] != i
    requires forall j :: 0 <= j < |phases| && j != i && phases[j].Queued? ==> requests[j].id != queue[0]
    ensures QueueOk(requests, phases[i := p], streams - {queue[0]}, queue[1..])
  {
    var after, left, rest := phases[i := p], streams - {queue[0]}, queue[1..];
    TailDistinct(queue);
    forall j | 0 <= j < |after| && after[j].Queued?
      ensures requests[j].id in rest
    {
      InTail(queue, requests[j].id);
    }
    forall k | 0 <= k < |rest|
      ensures rest[k] in left && left[rest[k]] < |after| && after[left[rest[k]]].Queued?
    {
      assert rest[k] == queue[k + 1];
    }
  }

  lemma {:induction false} TailDistinct<T>(q: seq<T>)
    requires q != [] && NoRepeats(q)
    ensures NoRepeats(q[1..])
  {}

  lemma {:induction false} InTail<T>(q: seq<T>, x: T)
    requires x in q && x != q[0]
    ensures x in q[1..]
  {
    assert q == [q[0]] + q[1..];
  }

  lemma {:induction false} QueuedCurrent(requests: seq<Opening>, phases: seq<Phase>, streams: map<nat, nat>, i: nat)
    requires StreamsOk(requests, phases, streams) && BodiesOk(requests, phases)
    requires i < |phases| && phases[i].Queued?
    ensures i < |requests| && requests[i].id in streams && streams[requests[i].id] == i
  {
    ServedIsCurrent(requests, phases, streams, i);
  }

  lemma {:induction false} LogKeeps(phases: seq<Phase>, answered: seq<nat>, i: nat, listing: seq<Field>)
    requires AnsweredOk(phases, answered) && i < |phases| && phases[i].Queued?
    ensures AnsweredOk(phases[i := Answered(phases[i].response, listing)], answered + [i])
  {
    var log := answered + [i];
    assert i !in answered;
    assert log[|answered|] == i;
    assert forall k :: 0 <= k < |answered| ==> log[k] == answered[k];
    assert forall j :: j in answered ==> j in log;
  }

  // --- What the peer may send -----------------------------------------------

  /** The last request opened under this id. */
  function Latest(requests: seq<Opening>, id: nat): (r: Option<nat>)
    ensures r.None? <==> id !in Ids(requests)
    ensures r.Some? ==> Current(requests, r.value) && requests[r.value].id == id
  {
    if requests == [] then None
    else
      var n := |requests| - 1;
      if requests[n].id == id then
        assert requests[n] in requests;
        Some(n)
      else
        assert forall x :: x in requests <==> x in requests[..n] || x == requests[n];
        Latest(requests[..n], id)
  }

  /**
   * The frames a peer may send next: HEADERS that decode, on an id that no request has been opened under
   * or whose last one still waits for its DATA; and DATA for the last request of its id, if that one
   * waits for it. Frames of other known types are ignored.
   */
  function Admit<E, D>(env: Env<E, D>, l: Ledger<D>, f: Frame): Option<Ledger<D>> {
    var last := Latest(l.requests, f.id);
    match f.typ
    case Data => if last.Some? && Unserved(l.requests[last.value]) then Some(SetBody(l, last.value, f.payload)) else None
    case Headers => if last.Some? && !Unserved(l.requests[last.value]) then None else DecodeHeaders(env, l, f)
    case _ => Some(l)
  }

  /** Octets are fine if every frame they complete is of a known type and admitted. */
  predicate Fine<E, D>(env: Env<E, D>, l: Ledger<D>, b: seq<byte>)
    decreases |b|
  {
    match Parse(b)
    case Incomplete => true
    case Unknown => false
    case Complete(f, rest) =>
      match Admit(env, l, f)
      case Some(l') => Fine(env, l', rest)
      case None => false
  }

  /** Everything a peer sends over a connection is fine, preface included. */
  predicate FineConnection<E, D>(env: Env<E, D>, b: seq<byte>) {
    |b| >= 24 ==> b[..24] == PREFACE && Fine(env, Ledger(env.decoder, []), b[24..])
  }

  /** What a run has not read yet, followed by `future`, is fine. */
  predicate FineRest<E, D>(env: Env<E, D>, s: State<E, D>, future: seq<byte>) {
    if s.reader.AwaitPreface? then FineConnection(env, s.Unread() + future)
    else Fine(env, s.ledger, s.Unread() + future)
  }

  /** What is fine was fine all along. */
  lemma {:induction false} FinePrefix<E, D>(env: Env<E, D>, l: Ledger<D>, a: seq<byte>, b: seq<byte>)
    requires Fine(env, l, a + b)
    ensures Fine(env, l, a)
    decreases |a|
  {
    hide Parse, Admit;
    if !Parse(a).Incomplete? {
      ParseExtend(a, b);
      if Parse(a).Complete? && Admit(env, l, Parse(a).frame).Some? {
        FinePrefix(env, Admit(env, l, Parse(a).frame).value, Parse(a).rest, b);
      }
    }
  }

  lemma {:induction false} FineConnectionPrefix<E, D>(env: Env<E, D>, a: seq<byte>, b: seq<byte>)
    requires FineConnection(env, a + b)
    ensures FineConnection(env, a)
  {
    hide Fine;
    if |a| >= 24 {
      assert (a + b)[..24] == a[..24] && (a + b)[24..] == a[24..] + b;
      FinePrefix(env, Ledger(env.decoder, []), a[24..], b);
    }
  }

  // --- One step -------------------------------------------------------------

  /** Processing an admitted frame does not panic, keeps the invariant, and does what the ledger says. */
  lemma {:induction false} ProcessOk<E, D>(env: Env<E, D>, s: State<E, D>, f: Frame)
    requires Inv(s)
    requires Admit(env, s.ledger, f).Some?
    ensures var o := Process(env, s, f);
            o.Next? && Inv(o.state) && Some(o.state.ledger) == Admit(env, s.ledger, f)
            && o.state.reader == s.reader && o.state.incoming == s.incoming
  {
    hide BodiesOk, QueueOk, AnsweredOk;
    match f.typ
    case Data =>
      var i := Latest(s.ledger.requests, f.id).value;
      UnservedLive(s, i);
      BodyKeeps(s.ledger.requests, s.phases, s.streams, s.queue, s.answered, i, f.payload);
    case Headers =>
      var l := DecodeHeaders(env, s.ledger, f).value;
      var o := l.requests[|s.ledger.requests|];
      assert l.requests == s.ledger.requests + [o];
      EarlierUnserved(s.ledger.requests, s.phases, s.streams, f.id);
      OpenKeeps(s.ledger.requests, s.phases, s.streams, s.queue, s.answered, o);
    case _ =>
  }

  lemma {:induction false} UnservedLive<E, D>(s: State<E, D>, i: nat)
    requires Inv(s) && i < |s.ledger.requests| && Unserved(s.ledger.requests[i])
    ensures i < |s.phases| && Live(s.phases[i])
  {}

  /** All requests of an id wait for DATA if the last one does. */
  lemma {:induction false} EarlierUnserved(requests: seq<Opening>, phases: seq<Phase>, streams: map<nat, nat>, id: nat)
    requires StreamsOk(requests, phases, streams)
    requires Latest(requests, id).Some? ==> Unserved(requests[Latest(requests, id).value])
    ensures forall i :: 0 <= i < |requests| && requests[i].id == id ==> Unserved(requests[i])
  {
    forall i | 0 <= i < |requests| && requests[i].id == id
      ensures Unserved(requests[i])
    {
      assert requests[i] in requests;
      var last := Latest(requests, id).value;
      assert i <= last;
    }
  }

  /** A finished read hands over the frame that batch parsing finds; an unfinished one fails once the peer has closed. */
  lemma {:induction false} ReadOk<E, D>(env: Env<E, D>, s: State<E, D>, future: seq<byte>)
    requires Inv(s) && !s.reader.AwaitPreface?
    requires FineRest(env, s, future)
    ensures var o := Read(env, s);
            && !o.Disabled? && (o.Panic? <==> s.closed && Unfinished(s))
            && (o.Next? ==> (Inv(o.state) && FineRest(env, o.state, future) && !o.state.reader.AwaitPreface?))
  {
    hide TasksOk, Parse, Poll, Admit, Process;
    PollIsParse(s.reader, s.incoming);
    var b := s.Unread();
    match Poll(s.reader, s.incoming)
    case Pending(r) =>
      assert r.Held() + [] == b;
    case BadType =>
      ParseExtend(b, future);
    case Ready(f, rest) =>
      ParseExtend(b, future);
      var t := s.(reader := START, incoming := rest, frames := s.frames + [f]);
      ProcessOk(env, t, f);
      assert Process(env, t, f).state.Unread() == rest;
  }

  lemma {:induction false} GreetOk<E, D>(env: Env<E, D>, s: State<E, D>, future: seq<byte>)
    requires Inv(s) && s.reader.AwaitPreface? && s.ledger == Ledger(env.decoder, [])
    requires FineRest(env, s, future)
    ensures var o := Greet(s);
            && !o.Disabled? && (o.Panic? <==> s.closed && Unfinished(s))
            && (o.Next? ==> (Inv(o.state) && o.state.ledger == s.ledger && FineRest(env, o.state, future)))
  {
    hide EncodedAll, TasksOk, Fine;
    var n := Min(24 - |s.reader.filled|, |s.incoming|);
    var filled := s.reader.filled + s.incoming[..n];
    var b := s.Unread() + future;
    assert b == filled + (s.incoming[n..] + future);
    if |filled| == 24 {
      assert b[..24] == filled;
      assert b[24..] == ([] + s.incoming[n..]) + future;
    } else {
      assert b == filled + s.incoming[n..] + future;
    }
  }

  /** While the preface is outstanding no request has been opened. */
  ghost predicate Early<E, D>(env: Env<E, D>, s: State<E, D>) {
    s.reader.AwaitPreface? ==> s.ledger == Ledger(env.decoder, [])
  }

  /** Steps that neither receive nor read leave the reader's side alone. */
  ghost predicate SameReading<E, D>(s: State<E, D>, t: State<E, D>) {
    t.ledger == s.ledger && t.reader == s.reader && t.incoming == s.incoming
  }

  lemma {:induction false} TaskStepOk<E, D>(env: Env<E, D>, s: State<E, D>, e: Event)
    requires Inv(s) && (e.HandlerDone? || e.BodyReady? || e.Send?)
    ensures var o := Step(env, s, e); !o.Panic? && (o.Next? ==> (Inv(o.state) && SameReading(s, o.state)))
  {
    hide Read, Greet, WriteResponse;
    var o := Step(env, s, e);
    if o.Next? {
      if e.Send? {
        SendKeeps(s.ledger.requests, s.phases, s.streams, s.queue, s.answered, e.task);
      } else {
        PhaseKeeps(s.ledger.requests, s.phases, s.streams, s.queue, s.answered, e.task, o.state.phases[e.task]);
      }
    }
  }

  /** The oldest id in the channel leads to a request whose task has sent it. */
  lemma {:induction false} QueueHead<E, D>(s: State<E, D>)
    requires Inv(s) && s.queue != []
    ensures s.queue[0] in s.streams
    ensures var i := s.streams[s.queue[0]];
            i < |s.phases| == |s.ledger.requests| && s.phases[i].Queued? && s.ledger.requests[i].id == s.queue[0]
  {
    hide StreamsOk, BodiesOk, QueueOk, AnsweredOk;
    QueuedServed(s.ledger.requests, s.phases, s.streams, s.queue, 0);
  }

  /** Answering panics on nothing but an oversize header block. */
  lemma {:induction false} WriteOk<E, D>(env: Env<E, D>, s: State<E, D>, listing: seq<Field>)
    requires Inv(s) && env.Valid() && s.queue != []
    ensures var o := WriteResponse(env, s, listing);
            && (o.Panic? <==> Oversize(env, s, Recv(listing)))
            && (o.Next? ==> (Inv(o.state) && SameReading(s, o.state)))
  {
    hide EncodedAll, ReplyFrames, ReplyFields, TasksOk, Lists;
    QueueHead(s);
    var i := s.streams[s.queue[0]];
    assert 0 < env.chunkFor(s.ledger.requests[i].fields);
    AnswerKeeps(s.ledger.requests, s.phases, s.streams, s.queue, s.answered, i, listing);
  }

  /**
   * One step on a fine peer panics exactly when it polls a read that the peer's close cut short, or
   * writes an oversize header block.
   */
  lemma {:induction false} StepOk<E, D>(env: Env<E, D>, s: State<E, D>, e: Event, future: seq<byte>)
    requires Inv(s) && Early(env, s) && env.Valid()
    requires FineRest(env, s, Delivered([e]) + future)
    ensures var o := Step(env, s, e);
            && (o.Panic? <==> CutShort(s, e) || Oversize(env, s, e))
            && (o.Next? ==> (Inv(o.state) && Early(env, o.state) && FineRest(env, o.state, future)))
  {
    hide TasksOk, Fine, Read, Greet, WriteResponse, Unfinished;
    if e.Arrive? {
      if !s.closed { ArriveOk(env, s, e.bytes, future); }
    } else {
      assert Delivered([e]) + future == future;
      if e.PollReader? {
        if s.reader.AwaitPreface? { GreetOk(env, s, future); } else { ReadOk(env, s, future); }
      } else if e.Recv? {
        if s.queue != [] { WriteOk(env, s, e.listing); }
      } else if !e.Close? {
        TaskStepOk(env, s, e);
      }
    }
  }

  lemma {:induction false} ArriveOk<E, D>(env: Env<E, D>, s: State<E, D>, bytes: seq<byte>, future: seq<byte>)
    requires Inv(s) && !s.closed
    ensures var t := Step(env, s, Arrive(bytes)).state;
            Inv(t) && (FineRest(env, t, future) <==> FineRest(env, s, Delivered([Arrive(bytes)]) + future))
  {
    hide TasksOk, Fine;
    var t := Step(env, s, Arrive(bytes)).state;
    assert Delivered([Arrive(bytes)]) == bytes;
    assert t.Unread() + future == s.Unread() + (bytes + future);
  }

  // --- Every run ------------------------------------------------------------

  lemma {:induction false} RunOk<E, D>(env: Env<E, D>, s: State<E, D>, es: seq<Event>)
    requires Inv(s) && Early(env, s) && env.Valid()
    requires FineRest(env, s, Delivered(es))
    ensures var o := Run(env, s, es);
            (o.Panic? <==> !Clean(env, s, es)) && (o.Next? ==> (Inv(o.state) && FineRest(env, o.state, [])))
    decreases |es|
  {
    hide TasksOk, FineRest, Step, CutShort, Oversize, Early;
    if es == [] {
    } else {
      assert Delivered(es) == Delivered([es[0]]) + Delivered(es[1..]);
      StepOk(env, s, es[0], Delivered(es[1..]));
      var o := Step(env, s, es[0]);
      if o.Next? {
        RunOk(env, o.state, es[1..]);
      }
    }
  }

  /**
   * On a peer whose octets are fine, a run under any interleaving and fragmentation panics exactly when it
   * polls a read that the peer's close cut short, or writes an oversize header block: every `unwrap` on the
   * stream map, on the shared response and on the peer's frames succeeds, and the invariant holds throughout.
   */
  lemma {:induction false} NoRunPanics<E, D>(env: Env<E, D>, es: seq<Event>)
    requires env.Valid() && FineConnection(env, Delivered(es))
    ensures var o := Run(env, Initial(env), es);
            && (o.Panic? <==> !Clean(env, Initial(env), es))
            && (o.Next? ==> (Inv(o.state) && FineRest(env, o.state, [])))
  {
    hide Run, Clean, FineConnection;
    var s := Initial(env);
    InitialOk(env);
    assert s.Unread() + Delivered(es) == Delivered(es);
    RunOk(env, s, es);
  }

  lemma {:induction false} InitialOk<E, D>(env: Env<E, D>)
    ensures Inv(Initial(env)) && Early(env, Initial(env))
  {}

  /** No event of the run writes an oversize header block. */
  ghost predicate BlocksSized<E, D>(env: Env<E, D>, s: State<E, D>, es: seq<Event>)
    requires s.reader.Valid()
    decreases |es|
  {
    es != [] ==>
      && !Oversize(env, s, es[0])
      && (StepReader(env, s, es[0]);
          Step(env, s, es[0]).Next? ==> BlocksSized(env, Step(env, s, es[0]).state, es[1..]))
  }

  lemma {:induction false} OpenClean<E, D>(env: Env<E, D>, s: State<E, D>, es: seq<Event>)
    requires s.reader.Valid() && !s.closed && Close !in es
    ensures Clean(env, s, es) <==> BlocksSized(env, s, es)
    decreases |es|
  {
    hide Oversize, Read, Greet, WriteResponse;
    if es != [] {
      StepReader(env, s, es[0]);
      var o := Step(env, s, es[0]);
      if o.Next? {
        ClosedStep(env, s, es[0]);
        OpenClean(env, o.state, es[1..]);
      }
    }
  }

  /** Only the peer's close closes. */
  lemma {:induction false} ClosedStep<E, D>(env: Env<E, D>, s: State<E, D>, e: Event)
    requires s.reader.Valid()
    ensures var o := Step(env, s, e); o.Next? ==> (o.state.closed <==> s.closed || e.Close?)
  {}

  /** As long as the peer of a fine connection keeps it open, nothing but an oversize header block panics. */
  lemma {:induction false} NoPanicWhileOpen<E, D>(env: Env<E, D>, es: seq<Event>)
    requires env.Valid() && FineConnection(env, Delivered(es)) && Close !in es
    ensures Run(env, Initial(env), es).Panic? <==> !BlocksSized(env, Initial(env), es)
  {
    hide Run, Clean, FineConnection, BlocksSized;
    NoRunPanics(env, es);
    OpenClean(env, Initial(env), es);
  }

  /**
   * Once the peer has closed, reading goes on through the frames it had completed, and the next poll
   * panics: there is no regular end of a connection.
   */
  lemma {:induction false} ClosedPollPanics<E, D>(env: Env<E, D>, es: seq<Event>)
    requires env.Valid() && FineConnection(env, Delivered(es))
    requires Run(env, Initial(env), es).Next? && Run(env, Initial(env), es).state.closed
    ensures var s := Run(env, Initial(env), es).state;
            Step(env, s, PollReader).Panic? <==> if s.reader.AwaitPreface? then |s.Unread()| < 24 else Parse(s.Unread()).Incomplete?
  {
    hide Run, Step, Inv, FineRest, Parse;
    NoRunPanics(env, es);
    EarlyRun(env, Initial(env), es);
    var s := Run(env, Initial(env), es).state;
    assert Delivered([PollReader]) == [];
    StepOk(env, s, PollReader, []);
  }

  lemma {:induction false} EarlyRun<E, D>(env: Env<E, D>, s: State<E, D>, es: seq<Event>)
    requires s.reader.Valid() && Early(env, s)
    ensures var o := Run(env, s, es); o.Next? ==> Early(env, o.state)
    decreases |es|
  {
    if es != [] {
      EarlyStep(env, s, es[0]);
      StepReader(env, s, es[0]);
      var o := Step(env, s, es[0]);
      if o.Next? {
        EarlyRun(env, o.state, es[1..]);
      }
    }
  }

  lemma {:induction false} EarlyStep<E, D>(env: Env<E, D>, s: State<E, D>, e: Event)
    requires s.reader.Valid() && Early(env, s)
    ensures var o := Step(env, s, e); o.Next? ==> Early(env, o.state)
  {
    hide EncodedAll, Parse;
    if e.PollReader? && !s.reader.AwaitPreface? {
      PollIsParse(s.reader, s.incoming);
    }
  }

  /**
   * At every point of every run: the last request of an id that still waits for its DATA has an open stream
   * for the DATA frame to find, and no request that waits is in the channel or answered.
   */
  lemma {:induction false} NoAnswerBeforeBody<E, D>(env: Env<E, D>, es: seq<Event>, i: nat)
    requires env.Valid() && FineConnection(env, Delivered(es))
    requires Run(env, Initial(env), es).Next?
    ensures var s := Run(env, Initial(env), es).state;
            i < |s.ledger.requests| && Unserved(s.ledger.requests[i]) ==>
              && |s.phases| == |s.ledger.requests| && (s.phases[i].Handling? || s.phases[i].AwaitBody?)
              && i !in s.answered
              && (Current(s.ledger.requests, i) ==>
                    && s.ledger.requests[i].id !in s.queue
                    && s.ledger.requests[i].id in s.streams && s.streams[s.ledger.requests[i].id] == i)
  {
    hide Run, Step;
    NoRunPanics(env, es);
    var s := Run(env, Initial(env), es).state;
    if i < |s.ledger.requests| && Unserved(s.ledger.requests[i]) {
      assert Live(s.phases[i]);
      if Current(s.ledger.requests, i) {
        WaitingNotQueued(s.ledger.requests, s.phases, s.streams, s.queue, i);
      }
    }
  }

  /** The id whose last request waits for DATA is not in the channel. */
  lemma {:induction false} WaitingNotQueued(requests: seq<Opening>, phases: seq<Phase>, streams: map<nat, nat>,
      queue: seq<nat>, i: nat)
    requires StreamsOk(requests, phases, streams) && BodiesOk(requests, phases) && QueueOk(requests, phases, streams, queue)
    requires Current(requests, i) && Unserved(requests[i])
    ensures requests[i].id !in queue
  {
    forall k | 0 <= k < |queue|
      ensures queue[k] != requests[i].id
    {
      QueuedServed(requests, phases, streams, queue, k);
    }
  }

  /** The streams held are those of running tasks, of tasks that wait to send, and of ids in the channel. */
  lemma {:induction false} StreamsAccounted<E, D>(env: Env<E, D>, es: seq<Event>, id: nat)
    requires env.Valid() && FineConnection(env, Delivered(es))
    requires Run(env, Initial(env), es).Next?
    ensures var s := Run(env, Initial(env), es).state;
            && |s.queue| <= 100 && NoRepeats(s.queue)
            && (id in s.queue ==> id in s.streams)
            && (id in s.streams ==>
                  && s.streams[id] < |s.phases|
                  && (id in s.queue <==> s.phases[s.streams[id]].Queued?)
                  && !s.phases[s.streams[id]].Answered?)
            && |Ids(s.ledger.requests)| == |s.streams| + |s.answered|
  {
    hide Run, Step, BodiesOk, AnsweredOk;
    NoRunPanics(env, es);
    var s := Run(env, Initial(env), es).state;
    if id in s.streams {
      assert s.ledger.requests[s.streams[id]].id == id;
    }
  }
}
