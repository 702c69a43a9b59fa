/**
 * The peer condition of `Http2Safety` is exact: octets that are not fine make some interleaving panic.
 * The interleaving is the one that reads frame after frame, without letting any task run, up to the
 * first frame that is refused.
 */
module Http2Exact {
  import opened Base
  import opened HeaderFields
  import opened Http2Frame
  import opened Http2Conn
  import opened Http2Safety

  const PLAIN := Response(200, map[], [])

  /** A plain 200 response can be encoded as the first one of a connection. */
  predicate PlainFits<E, D>(env: Env<E, D>) {
    |env.codec.encode(env.encoder, ReplyFields(PLAIN, [])).0| < 0x1_0000_0000
  }

  // --- Runs that deliver nothing --------------------------------------------

  /** A run without arrivals, in which no read is cut short and no header block is oversize. */
  ghost predicate Leads<E, D>(env: Env<E, D>, s: State<E, D>, es: seq<Event>, o: Outcome<State<E, D>>) {
    s.reader.Valid() && Run(env, s, es) == o && Clean(env, s, es) && Delivered(es) == []
  }

  lemma {:induction false} LeadsOn<E, D>(env: Env<E, D>, s: State<E, D>, es: seq<Event>, t: State<E, D>,
      more: seq<Event>, o: Outcome<State<E, D>>)
    requires Leads(env, s, es, Next(t)) && Leads(env, t, more, o)
    ensures Leads(env, s, es + more, o)
  {
    hide Run, Clean;
    RunAppend(env, s, es, more);
    CleanAppend(env, s, es, more);
    DeliveredAppend(es, more);
  }

  lemma {:induction false} LeadsOne<E, D>(env: Env<E, D>, s: State<E, D>, e: Event)
    requires s.reader.Valid() && !e.Arrive? && !CutShort(s, e) && !Oversize(env, s, e)
    ensures Leads(env, s, [e], Step(env, s, e))
  {
    hide Step, CutShort, Oversize;
    RunOne(env, s, e);
    StepReader(env, s, e);
    assert [e][1..] == [];
    assert Delivered([e]) == [] + Delivered([]);
    assert Step(env, s, e).Next? ==> Clean(env, Step(env, s, e).state, []);
    assert Clean(env, s, [e]);
  }

  /** A ready task gets to the point of sending its id. */
  lemma {:induction false} FinishLeads<E, D>(env: Env<E, D>, s: State<E, D>, i: nat) returns (es: seq<Event>)
    requires s.reader.Valid() && i < |s.phases| && i < |s.ledger.requests|
    requires s.phases[i].Handling? && !Unserved(s.ledger.requests[i])
    ensures Leads(env, s, es, Next(s.(phases := s.phases[i := Sending(PLAIN)])))
  {
    hide Leads, Read, Greet, WriteResponse;
    LeadsOne(env, s, HandlerDone(i, PLAIN));
    es := [HandlerDone(i, PLAIN)];
    if s.ledger.requests[i].needsBody {
      var t := s.(phases := s.phases[i := AwaitBody(PLAIN)]);
      assert Step(env, s, HandlerDone(i, PLAIN)) == Next(t);
      LeadsOne(env, t, BodyReady(i));
      assert t.phases[i := Sending(PLAIN)] == s.phases[i := Sending(PLAIN)];
      LeadsOn(env, s, es, t, [BodyReady(i)], Step(env, t, BodyReady(i)));
      es := es + [BodyReady(i)];
    }
  }

  /** And sends it on an empty channel. */
  lemma {:induction false} SendLeads<E, D>(env: Env<E, D>, s: State<E, D>, i: nat) returns (es: seq<Event>)
    requires s.reader.Valid() && i < |s.phases| && i < |s.ledger.requests| && s.queue == []
    requires s.phases[i].Handling? && !Unserved(s.ledger.requests[i])
    ensures Leads(env, s, es, Next(s.(phases := s.phases[i := Queued(PLAIN)], queue := [s.ledger.requests[i].id])))
  {
    hide Leads, Read, Greet, WriteResponse;
    var t := s.(phases := s.phases[i := Sending(PLAIN)]);
    es := FinishLeads(env, s, i);
    LeadsOne(env, t, Send(i));
    assert t.phases[i := Queued(PLAIN)] == s.phases[i := Queued(PLAIN)];
    assert [] + [s.ledger.requests[i].id] == [s.ledger.requests[i].id];
    LeadsOn(env, s, es, t, [Send(i)], Step(env, t, Send(i)));
    es := es + [Send(i)];
  }

  /** Finishing one ready task answers exactly it. */
  lemma {:induction false} AnswerLeads<E, D>(env: Env<E, D>, s: State<E, D>, i: nat) returns (es: seq<Event>, t: State<E, D>)
    requires Inv(s) && env.Valid() && PlainFits(env) && s.enc == env.encoder && s.queue == []
    requires i < |s.phases| && s.phases[i].Handling? && !Unserved(s.ledger.requests[i])
    ensures Leads(env, s, es, Next(t)) && Inv(t) && SameReading(s, t) && t.closed == s.closed
    ensures t.phases == s.phases[i := Answered(PLAIN, [])] && t.answered == s.answered + [i]
  {
    hide Leads, TasksOk, EncodedAll, ReplyFields, ReplyFrames, Step;
    SameTasks(s);
    var u := s.(phases := s.phases[i := Queued(PLAIN)], queue := [s.ledger.requests[i].id]);
    es := SendLeads(env, s, i);
    SentOk(s, i);
    QueueHead(u);
    SentLast(u, i);
    assert Lists([], PLAIN.headers);
    WriteOk(env, u, []);
    RecvWrites(env, u, []);
    t := WriteResponse(env, u, []).state;
    assert u.phases[i := Answered(PLAIN, [])] == s.phases[i := Answered(PLAIN, [])];
    LeadsOne(env, u, Recv([]));
    LeadsOn(env, s, es, u, [Recv([])], Next(t));
    es := es + [Recv([])];
  }

  lemma {:induction false} SentOk<E, D>(s: State<E, D>, i: nat)
    requires Inv(s) && s.queue == []
    requires i < |s.phases| && s.phases[i].Handling? && !Unserved(s.ledger.requests[i])
    ensures Inv(s.(phases := s.phases[i := Queued(PLAIN)], queue := [s.ledger.requests[i].id]))
  {
    var p := s.phases[i := Sending(PLAIN)];
    PhaseKeeps(s.ledger.requests, s.phases, s.streams, s.queue, s.answered, i, Sending(PLAIN));
    SendKeeps(s.ledger.requests, p, s.streams, s.queue, s.answered, i);
    assert p[i := Queued(PLAIN)] == s.phases[i := Queued(PLAIN)];
    assert [] + [s.ledger.requests[i].id] == [s.ledger.requests[i].id];
  }

  lemma {:induction false} SentLast<E, D>(s: State<E, D>, i: nat)
    requires Inv(s) && i < |s.phases| && s.phases[i].Queued?
    ensures s.ledger.requests[i].id in s.streams && s.streams[s.ledger.requests[i].id] == i
  {
    QueuedCurrent(s.ledger.requests, s.phases, s.streams, i);
  }

  // --- Reading frame after frame --------------------------------------------

  /** Frames have been read and nothing else has been done. */
  ghost predicate Lazy<E, D>(env: Env<E, D>, s: State<E, D>) {
    && Inv(s) && s.reader == START && s.queue == [] && !s.closed && s.enc == env.encoder
    && forall i :: 0 <= i < |s.phases| ==> s.phases[i].Handling?
  }

  lemma {:induction false} PollLeads<E, D>(env: Env<E, D>, s: State<E, D>)
    requires s.reader == START && !s.closed
    requires Parse(s.incoming).Complete?
    ensures var u := s.(reader := START, incoming := Parse(s.incoming).rest, frames := s.frames + [Parse(s.incoming).frame]);
            Leads(env, s, [PollReader], Process(env, u, Parse(s.incoming).frame))
  {
    hide Leads, Parse, Poll, Process;
    PollFresh(s.incoming);
    LeadsOne(env, s, PollReader);
  }

  lemma {:induction false} LazyReads<E, D>(env: Env<E, D>, s: State<E, D>) returns (t: State<E, D>)
    requires Lazy(env, s) && Parse(s.incoming).Complete? && Admit(env, s.ledger, Parse(s.incoming).frame).Some?
    ensures Leads(env, s, [PollReader], Next(t)) && Lazy(env, t) && t.incoming == Parse(s.incoming).rest
    ensures t.answered == s.answered
    ensures t.ledger == Admit(env, s.ledger, Parse(s.incoming).frame).value
  {
    hide Leads, Parse, Admit, Process, TasksOk;
    var f := Parse(s.incoming).frame;
    PollLeads(env, s);
    var u := s.(reader := START, incoming := Parse(s.incoming).rest, frames := s.frames + [f]);
    ProcessOk(env, u, f);
    t := Process(env, u, f).state;
    ProcessAddsHandling(env, u, f);
  }

  lemma {:induction false} ProcessAddsHandling<E, D>(env: Env<E, D>, s: State<E, D>, f: Frame)
    requires Process(env, s, f).Next?
    ensures var t := Process(env, s, f).state;
            && t.queue == s.queue && t.closed == s.closed && t.enc == s.enc && t.answered == s.answered
            && (t.phases == s.phases || t.phases == s.phases + [Handling])
  {}

  // --- The first frame refused ----------------------------------------------

  /** A frame that no earlier request has a part in panics as soon as it is read. */
  lemma {:induction false} RefusedAtOnce<E, D>(env: Env<E, D>, s: State<E, D>, f: Frame)
    requires Inv(s) && Admit(env, s.ledger, f).None?
    requires f.typ.Data? ==> Latest(s.ledger.requests, f.id).None?
    requires f.typ.Headers? ==> DecodeHeaders(env, s.ledger, f).None?
    ensures Process(env, s, f).Panic?
  {
    StreamKnown(s, f.id);
  }

  lemma {:induction false} StreamKnown<E, D>(s: State<E, D>, id: nat)
    requires Inv(s)
    ensures id in s.streams ==> id in Ids(s.ledger.requests)
    ensures id in s.streams ==> s.streams[id] < |s.phases| && Current(s.ledger.requests, s.streams[id])
    ensures id in s.streams ==> s.ledger.requests[s.streams[id]].id == id && Live(s.phases[s.streams[id]])
  {
    if id in s.streams {
      assert s.ledger.requests[s.streams[id]] in s.ledger.requests;
    }
  }

  /** DATA for a request that waits for none: it panics once that request has been answered. */
  lemma {:induction false} LateDataPanics<E, D>(env: Env<E, D>, s: State<E, D>, i: nat) returns (es: seq<Event>)
    requires Lazy(env, s) && env.Valid() && PlainFits(env) && Parse(s.incoming).Complete?
    requires Parse(s.incoming).frame.typ.Data? && Latest(s.ledger.requests, Parse(s.incoming).frame.id) == Some(i)
    requires !Unserved(s.ledger.requests[i])
    ensures Leads(env, s, es, Panic)
  {
    hide Leads, Parse, TasksOk;
    var f := Parse(s.incoming).frame;
    SameTasks(s);
    var t;
    es, t := AnswerLeads(env, s, i);
    AnsweredGone(t, i);
    PollLeads(env, t);
    LeadsOn(env, s, es, t, [PollReader], Panic);
    es := es + [PollReader];
  }

  lemma {:induction false} SameTasks<E, D>(s: State<E, D>)
    requires Inv(s)
    ensures |s.phases| == |s.ledger.requests|
  {}

  lemma {:induction false} AnsweredGone<E, D>(s: State<E, D>, i: nat)
    requires Inv(s) && i < |s.ledger.requests| && Current(s.ledger.requests, i) && s.phases[i].Answered?
    ensures s.ledger.requests[i].id !in s.streams
  {
    hide Inv, Current;
    var id := s.ledger.requests[i].id;
    StreamKnown(s, id);
    if id in s.streams {
      CurrentUnique(s.ledger.requests, i, s.streams[id]);
    }
  }

  /**
   * HEADERS on the id of a request that needs nothing more: they replace the stream's entry, and when the
   * earlier request is then finished, its id leads to a response that the later task still holds.
   */
  lemma {:induction false} ReusePanics<E, D>(env: Env<E, D>, s: State<E, D>, i: nat) returns (es: seq<Event>)
    requires Lazy(env, s) && Parse(s.incoming).Complete?
    requires var f := Parse(s.incoming).frame;
             f.typ.Headers? && DecodeHeaders(env, s.ledger, f).Some? && Latest(s.ledger.requests, f.id) == Some(i)
    requires !Unserved(s.ledger.requests[i])
    ensures Leads(env, s, es, Panic)
  {
    hide Leads, Parse, TasksOk, DecodeHeaders;
    var f := Parse(s.incoming).frame;
    SameTasks(s);
    PollLeads(env, s);
    var u := s.(reader := START, incoming := Parse(s.incoming).rest, frames := s.frames + [f]);
    var t := Process(env, u, f).state;
    DecodedLast(env, s.ledger, f);
    assert t.ledger.requests[i] == s.ledger.requests[i] && t.phases[i].Handling?;
    var more := SendLeads(env, t, i);
    LeadsOn(env, s, [PollReader], t, more, Next(t.(phases := t.phases[i := Queued(PLAIN)], queue := [f.id])));
    ReplacedPanics(env, t.(phases := t.phases[i := Queued(PLAIN)], queue := [f.id]));
    LeadsOn(env, s, [PollReader] + more, t.(phases := t.phases[i := Queued(PLAIN)], queue := [f.id]), [Recv([])], Panic);
    es := [PollReader] + more + [Recv([])];
  }

  lemma {:induction false} DecodedLast<E, D>(env: Env<E, D>, l: Ledger<D>, f: Frame)
    requires DecodeHeaders(env, l, f).Some?
    ensures var l' := DecodeHeaders(env, l, f).value; |l'.requests| == |l.requests| + 1 && l.requests <= l'.requests
  {}

  lemma {:induction false} ReplacedPanics<E, D>(env: Env<E, D>, s: State<E, D>)
    requires s.reader.Valid() && s.queue != [] && s.queue[0] in s.streams
    requires s.streams[s.queue[0]] < |s.phases| && s.phases[s.streams[s.queue[0]]].Handling?
    ensures Leads(env, s, [Recv([])], Panic)
  {
    hide Leads, Lists, ReplyFields;
    RecvWrites(env, s, []);
    LeadsOne(env, s, Recv([]));
  }

  lemma {:induction false} RefusedPanics<E, D>(env: Env<E, D>, s: State<E, D>) returns (es: seq<Event>)
    requires Lazy(env, s) && env.Valid() && PlainFits(env)
    requires Parse(s.incoming).Complete? && Admit(env, s.ledger, Parse(s.incoming).frame).None?
    ensures Leads(env, s, es, Panic)
  {
    hide Leads, Parse, TasksOk, Process, DecodeHeaders;
    var f := Parse(s.incoming).frame;
    var last := Latest(s.ledger.requests, f.id);
    if f.typ.Data? && last.Some? {
      es := LateDataPanics(env, s, last.value);
    } else if f.typ.Headers? && DecodeHeaders(env, s.ledger, f).Some? {
      es := ReusePanics(env, s, last.value);
    } else {
      PollLeads(env, s);
      RefusedAtOnce(env, s.(reader := START, incoming := Parse(s.incoming).rest, frames := s.frames + [f]), f);
      es := [PollReader];
    }
  }

  lemma {:induction false} FaultPanics<E, D>(env: Env<E, D>, s: State<E, D>) returns (es: seq<Event>)
    requires Lazy(env, s) && env.Valid() && PlainFits(env)
    requires !Fine(env, s.ledger, s.incoming)
    ensures Leads(env, s, es, Panic)
    decreases |s.incoming|
  {
    hide Leads, Inv, Process, Parse, Admit, Poll;
    if Parse(s.incoming).Unknown? {
      PollFresh(s.incoming);
      LeadsOne(env, s, PollReader);
      es := [PollReader];
    } else if Admit(env, s.ledger, Parse(s.incoming).frame).None? {
      es := RefusedPanics(env, s);
    } else {
      var t := LazyReads(env, s);
      var more := FaultPanics(env, t);
      LeadsOn(env, s, [PollReader], t, more, Panic);
      es := [PollReader] + more;
    }
  }

  // --- From the start -------------------------------------------------------

  /** Octets that are not fine, delivered in one piece, panic under the lazy interleaving. */
  lemma {:induction false} FaultyConnectionPanics<E, D>(env: Env<E, D>, b: seq<byte>) returns (es: seq<Event>)
    requires env.Valid() && PlainFits(env) && !FineConnection(env, b)
    ensures Delivered(es) == b && Clean(env, Initial(env), es) && Run(env, Initial(env), es).Panic?
  {
    hide Run, Clean, Leads, Fine;
    var s := Initial(env);
    var t := s.(incoming := b, received := b);
    var more := ArrivedPanics(env, t);
    DeliveredAppend([Arrive(b)], more);
    Arrival(env, b);
    RunAppend(env, s, [Arrive(b)], more);
    CleanAppend(env, s, [Arrive(b)], more);
    LeadsMeans(env, t, more, Panic);
    es := [Arrive(b)] + more;
  }

  lemma {:induction false} LeadsMeans<E, D>(env: Env<E, D>, s: State<E, D>, es: seq<Event>, o: Outcome<State<E, D>>)
    requires Leads(env, s, es, o)
    ensures s.reader.Valid() && Run(env, s, es) == o && Clean(env, s, es) && Delivered(es) == []
  {}

  lemma {:induction false} Arrival<E, D>(env: Env<E, D>, b: seq<byte>)
    ensures var s := Initial(env);
            Run(env, s, [Arrive(b)]) == Next(s.(incoming := b, received := b)) && Clean(env, s, [Arrive(b)]) && Delivered([Arrive(b)]) == b
  {
    var s := Initial(env);
    RunOne(env, s, Arrive(b));
    assert [] + b == b && [Arrive(b)][1..] == [];
    assert Delivered([Arrive(b)]) == b + Delivered([]);
  }

  /** With the preface there, the first poll leads to the greeting. */
  lemma {:induction false} Greeted<E, D>(env: Env<E, D>, t: State<E, D>) returns (u: State<E, D>)
    requires t == Initial(env).(incoming := t.incoming, received := t.received)
    requires |t.incoming| >= 24 && t.incoming[..24] == PREFACE
    ensures Leads(env, t, [PollReader], Next(u)) && Lazy(env, u) && u.incoming == t.incoming[24..]
    ensures u.ledger == Ledger(env.decoder, []) && u.phases == [] && u.answered == []
  {
    hide EncodedAll, Leads;
    LeadsOne(env, t, PollReader);
    assert [] + t.incoming[..24] == PREFACE;
    u := Greet(t).state;
  }

  /** The greeting, and then the frames up to the one refused. */
  lemma {:induction false} ArrivedPanics<E, D>(env: Env<E, D>, t: State<E, D>) returns (es: seq<Event>)
    requires env.Valid() && PlainFits(env) && t == Initial(env).(incoming := t.incoming, received := t.received)
    requires !FineConnection(env, t.incoming)
    ensures Leads(env, t, es, Panic)
  {
    hide EncodedAll, Leads, Fine, Lazy;
    var b := t.incoming;
    es := [PollReader];
    if b[..24] == PREFACE {
      var u := Greeted(env, t);
      var more := FaultPanics(env, u);
      LeadsOn(env, t, es, u, more, Panic);
      es := es + more;
    } else {
      LeadsOne(env, t, PollReader);
      assert [] + b[..24] == b[..24];
    }
  }

  /**
   * Every clean run of every fragmentation is free of panics if and only if the octets are fine: one that
   * polls no read cut short by the peer's close and writes no oversize header block.
   */
  lemma {:induction false} PanicFreeExactly<E, D>(env: Env<E, D>, b: seq<byte>)
    requires env.Valid() && PlainFits(env)
    ensures FineConnection(env, b) <==>
            forall es | Delivered(es) == b && Clean(env, Initial(env), es) :: !Run(env, Initial(env), es).Panic?
  {
    hide Run, Clean, FineConnection, Delivered;
    if FineConnection(env, b) {
      forall es | Delivered(es) == b && Clean(env, Initial(env), es)
        ensures !Run(env, Initial(env), es).Panic?
      {
        NoRunPanics(env, es);
      }
    } else {
      var es := FaultyConnectionPanics(env, b);
    }
  }

  // --- A stream id used twice -----------------------------------------------

  /**
   * Two HEADERS frames on the same id, both of which decode: a connection may have them just when the first
   * does not end its stream, and if it does, some run on these octets panics.
   */
  lemma {:induction false} ReuseExactly<E, D>(env: Env<E, D>, f: Frame, g: Frame)
    requires env.Valid() && PlainFits(env) && f.Fits() && g.Fits()
    requires f.typ.Headers? && g.typ.Headers? && f.id == g.id
    requires var l := DecodeHeaders(env, Ledger(env.decoder, []), f); l.Some? && DecodeHeaders(env, l.value, g).Some?
    ensures var b := PREFACE + EncodedAll([f, g]);
            && (FineConnection(env, b) <==> !HasFlag(f.flags, 1))
            && ((forall es | Delivered(es) == b && Clean(env, Initial(env), es) :: !Run(env, Initial(env), es).Panic?)
                <==> !HasFlag(f.flags, 1))
  {
    hide Run, Clean, Parse, Encoded, Delivered, DecodeHeaders;
    var b := PREFACE + EncodedAll([f, g]);
    assert b[..24] == PREFACE && b[24..] == EncodedAll([f, g]);
    TwoFrames(f, g);
    var l0 := Ledger(env.decoder, []);
    var l1 := DecodeHeaders(env, l0, f).value;
    var l2 := DecodeHeaders(env, l1, g).value;
    assert Admit(env, l0, f) == Some(l1);
    FirstOpening(env, f);
    assert Admit(env, l1, g) == if HasFlag(f.flags, 1) then None else Some(l2);
    assert Fine(env, l2, []);
    assert Fine(env, l1, Encoded(g)) <==> !HasFlag(f.flags, 1);
    assert Fine(env, l0, EncodedAll([f, g])) <==> Fine(env, l1, Encoded(g));
    assert |b| >= 24;
    PanicFreeExactly(env, b);
  }

  lemma {:induction false} TwoFrames(f: Frame, g: Frame)
    requires f.Fits() && g.Fits()
    ensures Parse(EncodedAll([f, g])) == Complete(f, Encoded(g)) && Parse(Encoded(g)) == Complete(g, []) && Parse([]).Incomplete?
  {
    hide Encoded, Parse;
    assert [f, g][1..] == [g] && [g][1..] == [];
    assert EncodedAll([g]) == Encoded(g) + EncodedAll([]);
    assert EncodedAll([f, g]) == Encoded(f) + EncodedAll([g]);
    assert Encoded(g) + [] == Encoded(g);
    ParseEncoded(f, Encoded(g));
    ParseEncoded(g, []);
    NoFrame();
  }

  lemma {:induction false} FirstOpening<E, D>(env: Env<E, D>, f: Frame)
    requires DecodeHeaders(env, Ledger(env.decoder, []), f).Some?
    ensures var l := DecodeHeaders(env, Ledger(env.decoder, []), f).value;
            && Latest(l.requests, f.id) == Some(0) && |l.requests| == 1
            && (Unserved(l.requests[0]) <==> !HasFlag(f.flags, 1))
  {}
}
