/**
 * An HTTP/2 connection as a system of interleaved steps: the connection task, which selects between
 * its pending frame read and the channel of finished stream ids, and one handler task for every
 * HEADERS frame. Whatever the scheduler chooses is a sequence of events.
 */
module Http2Conn {
  import opened Base
  import opened HeaderFields
  import opened Http2Frame

  /** The header compression in use: both directions are stateful. */
  datatype Codec<!E, !D> = Codec(
    encode: (E, seq<Field>) -> (seq<byte>, E),
    decode: (D, seq<byte>) -> Option<(seq<Field>, D)>)

  /** The codec with its initial states, and the chunk size configured for a request. */
  datatype Env<!E, !D> = Env(codec: Codec<E, D>, encoder: E, decoder: D, chunkFor: seq<Field> -> nat) {
    /** The writer divides by the chunk size, and a chunk has to fit a frame. */
    ghost predicate Valid() {
      forall fields {:trigger chunkFor(fields)} :: 0 < chunkFor(fields) < 0x100_0000
    }
  }

  /** A request opened by a HEADERS frame; `needsBody` when the frame did not end the stream. */
  datatype Opening = Opening(id: nat, fields: seq<Field>, needsBody: bool, body: Option<seq<byte>>)

  /** What the frames read so far amount to: the decoder's state and the requests, in wire order. */
  datatype Ledger<+D> = Ledger(dec: D, requests: seq<Opening>)

  /** How far the task of a request has come. */
  datatype Phase =
    | Handling
    | AwaitBody(response: Response)
    | Sending(response: Response)
    | Queued(response: Response)
    | Answered(response: Response, listing: seq<Field>)

  const CAPACITY: nat := 100

  /**
   * Requests are numbered in the order their tasks were spawned. `streams` leads from an id to the
   * request whose shared state the connection holds for it; `closed` says that the peer will send
   * nothing more; `received`, `frames` and `answered` are the history of the run.
   */
  datatype State<+E, +D> = State(
    reader: Reader, incoming: seq<byte>, closed: bool,
    ledger: Ledger<D>, phases: seq<Phase>, streams: map<nat, nat>, queue: seq<nat>,
    enc: E, out: seq<byte>,
    received: seq<byte>, frames: seq<Frame>, answered: seq<nat>)
  {
    /** The octets received that no finished read has consumed. */
    function Unread(): seq<byte> {
      reader.Held() + incoming
    }
  }

  datatype Event =
    | Arrive(bytes: seq<byte>)
    | Close
    | PollReader
    | HandlerDone(task: nat, response: Response)
    | BodyReady(task: nat)
    | Send(task: nat)
    | Recv(listing: seq<Field>)

  /** `Panic` is an `unwrap` or `panic!` in the connection task, which ends the connection. */
  datatype Outcome<+S> = Next(state: S) | Disabled | Panic

  function Initial<E, D>(env: Env<E, D>): State<E, D> {
    State(AwaitPreface([]), [], false, Ledger(env.decoder, []), [], map[], [], env.encoder, [], [], [], [])
  }

  ghost function Step<E, D>(env: Env<E, D>, s: State<E, D>, e: Event): Outcome<State<E, D>>
    requires s.reader.Valid()
  {
    match e
    case Arrive(bytes) =>
      if s.closed then Disabled else Next(s.(incoming := s.incoming + bytes, received := s.received + bytes))
    case Close => if s.closed then Disabled else Next(s.(closed := true))
    case PollReader => if s.reader.AwaitPreface? then Greet(s) else Read(env, s)
    case HandlerDone(i, r) =>
      if i < |s.phases| && i < |s.ledger.requests| && s.phases[i].Handling? then
        Next(s.(phases := s.phases[i := if s.ledger.requests[i].needsBody then AwaitBody(r) else Sending(r)]))
      else Disabled
    case BodyReady(i) =>
      if i < |s.phases| && i < |s.ledger.requests| && s.phases[i].AwaitBody? && s.ledger.requests[i].body.Some? then
        Next(s.(phases := s.phases[i := Sending(s.phases[i].response)]))
      else Disabled
    case Send(i) =>
      if i < |s.phases| && i < |s.ledger.requests| && s.phases[i].Sending? && |s.queue| < CAPACITY then
        Next(s.(phases := s.phases[i := Queued(s.phases[i].response)], queue := s.queue + [s.ledger.requests[i].id]))
      else Disabled
    case Recv(listing) => if s.queue == [] then Disabled else WriteResponse(env, s, listing)
  }

  const SETTINGS_FRAME := New(Settings, NO_FLAGS, 0, [])
  const SETTINGS_ACK := New(Settings, 1 as char, 0, [])
  const GREETING := [SETTINGS_FRAME, SETTINGS_ACK]

  /**
   * Reading the connection preface; once it is there, SETTINGS and its acknowledgement are written. A
   * read that the peer's close leaves unfinished fails, and its `unwrap` panics.
   */
  function Greet<E, D>(s: State<E, D>): Outcome<State<E, D>>
    requires s.reader.Valid() && s.reader.AwaitPreface?
  {
    var n := Min(24 - |s.reader.filled|, |s.incoming|);
    var filled := s.reader.filled + s.incoming[..n];
    if |filled| < 24 then
      if s.closed then Panic else Next(s.(reader := AwaitPreface(filled), incoming := s.incoming[n..]))
    else if filled != PREFACE then Panic
    else Next(s.(reader := START, incoming := s.incoming[n..], out := s.out + EncodedAll(GREETING)))
  }

  /** Polling the pending read. Only a finished one is replaced by a new one. */
  function Read<E, D>(env: Env<E, D>, s: State<E, D>): Outcome<State<E, D>>
    requires s.reader.Valid() && !s.reader.AwaitPreface?
  {
    match Poll(s.reader, s.incoming)
    case Pending(r) => if s.closed then Panic else Next(s.(reader := r, incoming := []))
    case BadType => Panic
    case Ready(f, rest) => Process(env, s.(reader := START, incoming := rest, frames := s.frames + [f]), f)
  }

  /** The header block of a HEADERS frame; the pad length and the priority fields are skipped. */
  function HeaderBlock(f: Frame): Option<seq<byte>> {
    var pad := if HasFlag(f.flags, 8) then 1 else 0;
    var skip := pad + if HasFlag(f.flags, 32) then 5 else 0;
    if |f.payload| < skip then None else Some(f.payload[skip..])
  }

  function Process<E, D>(env: Env<E, D>, s: State<E, D>, f: Frame): Outcome<State<E, D>> {
    match f.typ
    case Data =>
      if f.id !in s.streams || s.streams[f.id] >= |s.ledger.requests| then Panic
      else Next(s.(ledger := SetBody(s.ledger, s.streams[f.id], f.payload)))
    case Headers =>
      (match DecodeHeaders(env, s.ledger, f)
       case None => Panic
       case Some(ledger) =>
         Next(s.(ledger := ledger, phases := s.phases + [Handling],
                 streams := s.streams[f.id := |s.ledger.requests|])))
    case _ => Next(s)
  }

  function SetBody<D>(l: Ledger<D>, i: nat, payload: seq<byte>): Ledger<D>
    requires i < |l.requests|
  {
    l.(requests := l.requests[i := l.requests[i].(body := Some(payload))])
  }

  function DecodeHeaders<E, D>(env: Env<E, D>, l: Ledger<D>, f: Frame): Option<Ledger<D>> {
    match HeaderBlock(f)
    case None => None
    case Some(block) =>
      match env.codec.decode(l.dec, block)
      case None => None
      case Some((fields, dec)) => Some(Ledger(dec, l.requests + [Opening(f.id, fields, !HasFlag(f.flags, 1), None)]))
  }

  // --- Writing --------------------------------------------------------------

  const HOP_BY_HOP: set<string> := {TRANSFER_ENCODING, CONNECTION, KEEP_ALIVE}

  /** The fields the writer encodes: the status, then the response headers that are not connection-specific. */
  function ReplyFields(r: Response, listing: seq<Field>): seq<Field> {
    [Field(":status", Numeral(r.status, 10))] + Without(listing, HOP_BY_HOP)
  }

  /** The DATA frames of a body: one empty frame, or full chunks and a last one that ends the stream. */
  function DataFrames(id: nat, body: seq<byte>, chunk: nat): seq<Frame>
    requires chunk > 0 || body == []
    decreases |body|
  {
    if |body| <= chunk then [New(Data, END_STREAM, id, body)]
    else [New(Data, NO_FLAGS, id, body[..chunk])] + DataFrames(id, body[chunk..], chunk)
  }

  function ReplyFrames(id: nat, block: seq<byte>, body: seq<byte>, chunk: nat): seq<Frame>
    requires chunk > 0 || body == []
  {
    [New(Headers, END_HEADERS, id, block)] + DataFrames(id, body, chunk)
  }

  /**
   * The connection task takes the oldest finished id. The stream has to be there, its task has to have
   * let go of the response, and the length of the header block has to fit a `u32`: `encode` makes a buffer
   * of the truncated length and panics on copying a longer block into it.
   */
  ghost function WriteResponse<E, D>(env: Env<E, D>, s: State<E, D>, listing: seq<Field>): Outcome<State<E, D>>
    requires s.queue != []
  {
    var id := s.queue[0];
    if id !in s.streams || s.streams[id] >= |s.phases| || s.streams[id] >= |s.ledger.requests| then Panic
    else
      var i := s.streams[id];
      if !s.phases[i].Queued? then Panic
      else
        var r := s.phases[i].response;
        var chunk := env.chunkFor(s.ledger.requests[i].fields);
        if !Lists(listing, r.headers) then Disabled
        else if chunk == 0 && r.body != [] then Panic
        else
          var (block, enc) := env.codec.encode(s.enc, ReplyFields(r, listing));
          if |block| >= 0x1_0000_0000 then Panic
          else
            Next(s.(streams := s.streams - {id}, queue := s.queue[1..], phases := s.phases[i := Answered(r, listing)],
                    enc := enc, out := s.out + EncodedAll(ReplyFrames(id, block, r.body, chunk)),
                    answered := s.answered + [i]))
  }

  lemma {:induction false} RecvWrites<E, D>(env: Env<E, D>, s: State<E, D>, listing: seq<Field>)
    requires s.reader.Valid() && s.queue != []
    ensures Step(env, s, Recv(listing)) == WriteResponse(env, s, listing)
  {}

  // --- What no peer can be blamed for ---------------------------------------

  /** The octets there are do not finish the pending read. */
  predicate Unfinished<E, D>(s: State<E, D>) {
    if s.reader.AwaitPreface? then |s.Unread()| < 24 else Parse(s.Unread()).Incomplete?
  }

  /** A poll after the peer has closed, of a read that its octets do not finish. */
  predicate CutShort<E, D>(s: State<E, D>, e: Event) {
    e.PollReader? && s.closed && Unfinished(s)
  }

  /** An answer whose header block is longer than a `u32` can say. */
  ghost predicate Oversize<E, D>(env: Env<E, D>, s: State<E, D>, e: Event) {
    && e.Recv? && s.queue != [] && s.queue[0] in s.streams && s.streams[s.queue[0]] < |s.phases|
    && var p := s.phases[s.streams[s.queue[0]]];
       p.Queued? && Lists(e.listing, p.response.headers)
       && |env.codec.encode(s.enc, ReplyFields(p.response, e.listing)).0| >= 0x1_0000_0000
  }

  // --- Runs -----------------------------------------------------------------

  /** The octets the events of a run deliver. */
  function Delivered(es: seq<Event>): seq<byte> {
    if es == [] then []
    else (if es[0].Arrive? then es[0].bytes else []) + Delivered(es[1..])
  }

  /** A step keeps the reader well formed. */
  lemma {:induction false} StepReader<E, D>(env: Env<E, D>, s: State<E, D>, e: Event)
    requires s.reader.Valid()
    ensures var o := Step(env, s, e); o.Next? ==> o.state.reader.Valid()
  {
    if e.PollReader? && !s.reader.AwaitPreface? {
      PollIsParse(s.reader, s.incoming);
    }
  }

  /** The outcome of a whole run: where it leads, or the first event that panics or is not enabled. */
  ghost function Run<E, D>(env: Env<E, D>, s: State<E, D>, es: seq<Event>): (o: Outcome<State<E, D>>)
    requires s.reader.Valid()
    ensures o.Next? ==> o.state.reader.Valid()
    decreases |es|
  {
    if es == [] then Next(s)
    else
      StepReader(env, s, es[0]);
      match Step(env, s, es[0])
      case Next(t) => Run(env, t, es[1..])
      case other => other
  }

  lemma {:induction false} RunAppend<E, D>(env: Env<E, D>, s: State<E, D>, a: seq<Event>, b: seq<Event>)
    requires s.reader.Valid()
    ensures var o := Run(env, s, a); Run(env, s, a + b) == if o.Next? then Run(env, o.state, b) else o
    decreases |a|
  {
    if a == [] {
      assert a + b == b;
    } else {
      StepReader(env, s, a[0]);
      assert (a + b)[1..] == a[1..] + b;
      var o := Step(env, s, a[0]);
      if o.Next? {
        RunAppend(env, o.state, a[1..], b);
      }
    }
  }

  lemma {:induction false} RunOne<E, D>(env: Env<E, D>, s: State<E, D>, e: Event)
    requires s.reader.Valid()
    ensures Run(env, s, [e]) == Step(env, s, e)
  {
    StepReader(env, s, e);
    assert [e][1..] == [];
  }

  /** A run and one step more. */
  lemma {:induction false} RunSnoc<E, D>(env: Env<E, D>, s: State<E, D>, es: seq<Event>, t: State<E, D>, e: Event)
    requires s.reader.Valid() && t.reader.Valid() && Run(env, s, es) == Next(t)
    ensures Run(env, s, es + [e]) == Step(env, t, e)
  {
    hide Step, Run;
    RunAppend(env, s, es, [e]);
    RunOne(env, t, e);
  }

  lemma {:induction false} DeliveredAppend(a: seq<Event>, b: seq<Event>)
    ensures Delivered(a + b) == Delivered(a) + Delivered(b)
  {
    if a == [] {
      assert a + b == b;
    } else {
      DeliveredAppend(a[1..], b);
      assert (a + b)[1..] == a[1..] + b;
      Associative(if a[0].Arrive? then a[0].bytes else [], Delivered(a[1..]), Delivered(b));
    }
  }

  /** No event of the run polls a read that was cut short, and none writes an oversize header block. */
  ghost predicate Clean<E, D>(env: Env<E, D>, s: State<E, D>, es: seq<Event>)
    requires s.reader.Valid()
    decreases |es|
  {
    es != [] ==>
      && !CutShort(s, es[0]) && !Oversize(env, s, es[0])
      && (StepReader(env, s, es[0]);
          Step(env, s, es[0]).Next? ==> Clean(env, Step(env, s, es[0]).state, es[1..]))
  }

  lemma {:induction false} CleanAppend<E, D>(env: Env<E, D>, s: State<E, D>, a: seq<Event>, b: seq<Event>)
    requires s.reader.Valid()
    ensures var o := Run(env, s, a);
            Clean(env, s, a + b) <==> Clean(env, s, a) && (o.Next? ==> Clean(env, o.state, b))
    decreases |a|
  {
    hide Step, CutShort, Oversize;
    if a == [] {
      assert a + b == b;
    } else {
      StepReader(env, s, a[0]);
      assert (a + b)[1..] == a[1..] + b;
      var o := Step(env, s, a[0]);
      if o.Next? {
        CleanAppend(env, o.state, a[1..], b);
      }
    }
  }
}
