/** The connection as the program runs it: an object whose fields the steps update. */
module Http2Server {
  import opened Base
  import opened HeaderFields
  import opened Http2Frame
  import opened Http2Conn
  import opened Http2Safety

  class Connection<E(!new), D(!new)> {
    const env: Env<E, D>
    var reader: Reader
    var incoming: seq<byte>
    var closed: bool
    var decoder: D
    var requests: seq<Opening>
    var phases: seq<Phase>
    var streams: map<nat, nat>
    var queue: seq<nat>
    var encoder: E
    var out: seq<byte>
    ghost var received: seq<byte>
    ghost var frames: seq<Frame>
    ghost var answered: seq<nat>

    /** The state the object stands for. */
    ghost function State(): State<E, D>
      reads this
    {
      Http2Conn.State(reader, incoming, closed, Ledger(decoder, requests), phases, streams, queue, encoder, out, received,
                      frames, answered)
    }

    /** The representation: chunk sizes fit a frame, and `streams` leads into the tables. */
    ghost predicate Valid()
      reads this
    {
      && reader.Valid() && env.Valid()
      && |phases| == |requests|
      && (forall id :: id in streams ==> id < 0x8000_0000 && streams[id] < |phases| && requests[streams[id]].id == id)
    }

    constructor (env: Env<E, D>)
      requires env.Valid()
      ensures Valid() && this.env == env && State() == Initial(env)
    {
      this.env := env;
      reader, incoming, closed, decoder, requests := AwaitPreface([]), [], false, env.decoder, [];
      phases, streams, queue, encoder, out := [], map[], [], env.encoder, [];
      received, frames, answered := [], [], [];
    }

    method Arrive(bytes: seq<byte>)
      requires Valid() && !closed
      modifies this
      ensures Valid() && Step(env, old(State()), Event.Arrive(bytes)) == Next(State())
    {
      incoming := incoming + bytes;
      received := received + bytes;
    }

    method Close()
      requires Valid() && !closed
      modifies this
      ensures Valid() && Step(env, old(State()), Event.Close) == Next(State())
    {
      closed := true;
    }

    /**
     * Polling the pending read and, when it finishes, processing its frame; `false` is a panic. A read
     * that can no longer finish fails.
     */
    method PollReader() returns (ok: bool)
      requires Valid()
      modifies this
      ensures Step(env, old(State()), Event.PollReader) == if ok then Next(State()) else Panic
      ensures ok ==> Valid()
    {
      hide EncodedAll, Parse, Process, Greet;
      if reader.AwaitPreface? {
        ok := PollPreface();
        return;
      }
      PollIsParse(reader, incoming);
      FrameIds(reader.Held() + incoming);
      match Poll(reader, incoming)
      case Pending(r) =>
        reader, incoming := r, [];
        ok := !closed;
      case BadType =>
        ok := false;
      case Ready(f, rest) =>
        reader, incoming, frames := START, rest, frames + [f];
        ok := ProcessFrame(f);
    }

    /** The 24 octets of the preface, and the greeting once they are there. */
    method PollPreface() returns (ok: bool)
      requires Valid() && reader.AwaitPreface?
      modifies this
      ensures Greet(old(State())) == if ok then Next(State()) else Panic
      ensures ok ==> Valid()
    {
      hide EncodedAll, Parse;
      var n := Min(24 - |reader.filled|, |incoming|);
      var filled := reader.filled + incoming[..n];
      incoming := incoming[n..];
      if |filled| < 24 {
        reader := AwaitPreface(filled);
        ok := !closed;
      } else if filled != PREFACE {
        ok := false;
      } else {
        reader := START;
        WriteGreeting();
        ok := true;
      }
    }

    lemma {:induction false} FrameIds(b: seq<byte>)
      ensures Parse(b).Complete? ==> Parse(b).frame.id < 0x8000_0000
    {}

    method WriteGreeting()
      modifies this`out
      ensures out == old(out) + EncodedAll(GREETING)
    {
      var settings := Encode(SETTINGS_FRAME);
      var before := out;
      out := out + settings[..];
      var ack := Encode(SETTINGS_ACK);
      out := out + ack[..];
      assert GREETING[1..] == [SETTINGS_ACK] && GREETING[1..][1..] == [];
      Associative(before, Encoded(SETTINGS_FRAME), Encoded(SETTINGS_ACK));
      assert EncodedAll(GREETING[1..]) == Encoded(SETTINGS_ACK) + [];
    }

    method ProcessFrame(f: Frame) returns (ok: bool)
      requires Valid() && f.id < 0x8000_0000
      modifies this
      ensures Process(env, old(State()), f) == if ok then Next(State()) else Panic
      ensures ok ==> Valid()
    {
      match f.typ
      case Data =>
        ok := f.id in streams;
        if ok {
          requests := requests[streams[f.id] := requests[streams[f.id]].(body := Some(f.payload))];
        }
      case Headers =>
        ok := ProcessHeaders(f);
      case _ =>
        ok := true;
    }

    /** Decoding a request and spawning its task. */
    method ProcessHeaders(f: Frame) returns (ok: bool)
      requires Valid() && f.id < 0x8000_0000 && f.typ.Headers?
      modifies this
      ensures Process(env, old(State()), f) == if ok then Next(State()) else Panic
      ensures ok ==> Valid()
    {
      hide HeaderBlock, HasFlag;
      var payload := BlockOf(f);
      if payload.None? { return false; }
      match env.codec.decode(decoder, payload.value)
      case None =>
        ok := false;
      case Some((fields, dec)) =>
        streams := streams[f.id := |requests|];
        requests := requests + [Opening(f.id, fields, !HasFlag(f.flags, 1), None)];
        phases := phases + [Handling];
        decoder := dec;
        ok := true;
    }

    /** The payload behind the pad length and the priority fields, which are read one after the other. */
    static method BlockOf(f: Frame) returns (block: Option<seq<byte>>)
      ensures block == HeaderBlock(f)
    {
      var payload := f.payload;
      if HasFlag(f.flags, 8) {
        if |payload| < 1 { return None; }
        payload := payload[1..];
      }
      if HasFlag(f.flags, 32) {
        if |payload| < 5 { return None; }
        payload := payload[5..];
      }
      block := Some(payload);
    }

    /** A handler returns its response; the task goes on to wait for a body if one is due. */
    method FinishHandler(i: nat, r: Response)
      requires Valid() && i < |phases| && phases[i].Handling?
      modifies this`phases
      ensures Valid() && Step(env, old(State()), HandlerDone(i, r)) == Next(State())
    {
      phases := phases[i := if requests[i].needsBody then AwaitBody(r) else Sending(r)];
    }

    method TakeBody(i: nat)
      requires Valid() && i < |phases| && phases[i].AwaitBody? && requests[i].body.Some?
      modifies this`phases
      ensures Valid() && Step(env, old(State()), BodyReady(i)) == Next(State())
    {
      phases := phases[i := Sending(phases[i].response)];
    }

    method SendId(i: nat)
      requires Valid() && i < |phases| && phases[i].Sending? && |queue| < CAPACITY
      modifies this`phases, this`queue
      ensures Valid() && Step(env, old(State()), Send(i)) == Next(State())
    {
      phases := phases[i := Queued(phases[i].response)];
      queue := queue + [requests[i].id];
    }

    method WriteFrame(f: Frame)
      requires f.Sized()
      modifies this`out
      ensures out == old(out) + Encoded(f)
    {
      var buf := Encode(f);
      out := out + buf[..];
    }

    /** The body in chunks of the configured size, the last one marked by its index. */
    method WriteBody(id: nat, body: seq<byte>, chunk: nat)
      requires 0 < chunk < 0x100_0000 && id < 0x8000_0000
      modifies this`out
      ensures out == old(out) + EncodedAll(DataFrames(id, body, chunk))
    {
      hide Encoded, EncodedAll, DataFrames;
      if body == [] {
        WriteFrame(New(Data, END_STREAM, id, []));
        OneFrame(New(Data, END_STREAM, id, []));
        EmptyBody(id, chunk);
        return;
      }
      var last := (|body| + chunk - 1) / chunk - 1;
      var i, pos := 0, 0;
      ghost var sent: seq<Frame> := [];
      NothingSent(id, body, chunk);
      while pos < |body|
        invariant pos == Min(i * chunk, |body|)
        invariant out == old(out) + EncodedAll(sent)
        invariant DataFrames(id, body, chunk) == if pos < |body| then sent + DataFrames(id, body[pos..], chunk) else sent
        decreases |body| - pos
      {
        LastChunk(|body|, chunk, i, pos);
        var n := Min(chunk, |body| - pos);
        var f := New(Data, if i == last then END_STREAM else NO_FLAGS, id, body[pos..pos + n]);
        NextChunk(id, body, chunk, pos, sent, f);
        WriteFrame(f);
        SentOne(old(out), sent, f);
        sent := sent + [f];
        i, pos := i + 1, pos + n;
      }
    }

    lemma {:induction false} EmptyBody(id: nat, chunk: nat)
      requires chunk > 0
      ensures DataFrames(id, [], chunk) == [New(Data, END_STREAM, id, [])]
    {}

    lemma {:induction false} NothingSent(id: nat, body: seq<byte>, chunk: nat)
      requires chunk > 0
      ensures DataFrames(id, body, chunk) == [] + DataFrames(id, body[0..], chunk)
      ensures EncodedAll([]) == []
    {
      assert body[0..] == body;
    }

    lemma {:induction false} OneFrame(f: Frame)
      ensures EncodedAll([f]) == Encoded(f)
    {
      assert EncodedAll([f]) == Encoded(f) + [];
    }

    lemma {:induction false} SentOne(before: seq<byte>, sent: seq<Frame>, f: Frame)
      ensures before + EncodedAll(sent) + Encoded(f) == before + EncodedAll(sent + [f])
    {
      EncodedAllAppend(sent, [f]);
      OneFrame(f);
      Associative(before, EncodedAll(sent), Encoded(f));
    }

    /** The chunk at index `i` is the last one exactly when what is left fits in it. */
    lemma {:induction false} LastChunk(len: nat, chunk: nat, i: nat, pos: nat)
      requires 0 < chunk && pos < len && pos == Min(i * chunk, len)
      ensures pos == i * chunk
      ensures i == (len + chunk - 1) / chunk - 1 <==> len - pos <= chunk
      ensures Min((i + 1) * chunk, len) == pos + Min(chunk, len - pos)
    {
      DivCeil(len, chunk, i);
      assert (i + 1) * chunk == i * chunk + chunk;
    }

    lemma {:induction false} NextChunk(id: nat, body: seq<byte>, chunk: nat, pos: nat, sent: seq<Frame>, f: Frame)
      requires 0 < chunk && pos < |body|
      requires DataFrames(id, body, chunk) == sent + DataFrames(id, body[pos..], chunk)
      requires var n := Min(chunk, |body| - pos);
               f == New(Data, if |body| - pos <= chunk then END_STREAM else NO_FLAGS, id, body[pos..pos + n])
      ensures var next := pos + Min(chunk, |body| - pos);
              DataFrames(id, body, chunk) == if next < |body| then sent + [f] + DataFrames(id, body[next..], chunk) else sent + [f]
    {
      var left := body[pos..];
      if |left| <= chunk {
        assert body[pos..pos + |left|] == left;
      } else {
        assert left[..chunk] == body[pos..pos + chunk];
        assert left[chunk..] == body[pos + chunk..];
        Associative(sent, [f], DataFrames(id, left[chunk..], chunk));
      }
    }

    /** The oldest finished id, its stream taken out; `false` if there is none, or its task still holds the response. */
    method TakeStream() returns (ok: bool, id: nat, i: nat)
      requires Valid() && queue != []
      modifies this`queue, this`streams
      ensures ok <==> Finished(old(State()))
      ensures ok ==> Valid() && id == old(queue)[0] < 0x8000_0000 && i == old(streams)[id]
      ensures ok ==> queue == old(queue)[1..] && streams == old(streams) - {id}
    {
      id, i := queue[0], 0;
      queue := queue[1..];
      ok := id in streams;
      if ok {
        i := streams[id];
        streams := streams - {id};
        ok := phases[i].Queued?;
      }
    }

    /**
     * The connection task receives a finished id and writes the response. `listing` is the order in
     * which the response's headers were iterated.
     */
    method WriteResponse() returns (ok: bool, listing: seq<Field>)
      requires Valid() && queue != []
      modifies this
      ensures Step(env, old(State()), Recv(listing)) == if ok then Next(State()) else Panic
      ensures ok ==> Valid()
    {
      hide EncodedAll, Encoded, Lists, ReplyFields, ReplyFrames, Step, Http2Conn.WriteResponse;
      listing := [];
      ghost var s := State();
      RecvWrites(env, s, []);
      var id, i;
      ok, id, i := TakeStream();
      if !ok {
        NotFinished(env, s);
        return;
      }
      ok, listing := Respond(id, i);
      RecvWrites(env, s, listing);
      FinishedWrites(env, s, listing);
    }

    /** Writing the response that a finished task has left. */
    method Respond(id: nat, i: nat) returns (ok: bool, listing: seq<Field>)
      requires Valid() && i < |phases| && phases[i].Queued? && id < 0x8000_0000
      modifies this`phases, this`answered, this`encoder, this`out
      ensures var r, chunk := old(phases)[i].response, env.chunkFor(requests[i].fields);
              var (block, enc) := env.codec.encode(old(encoder), ReplyFields(r, listing));
              && Lists(listing, r.headers) && chunk > 0
              && (ok <==> |block| < 0x1_0000_0000)
              && (ok ==>
                    && phases == old(phases)[i := Answered(r, listing)] && answered == old(answered) + [i]
                    && encoder == enc && out == old(out) + EncodedAll(ReplyFrames(id, block, r.body, chunk)))
      ensures ok ==> Valid()
    {
      hide EncodedAll, Encoded, Lists, ReplyFields, ReplyFrames;
      var r := phases[i].response;
      listing := Iterate(r.headers);
      phases, answered := phases[i := Answered(r, listing)], answered + [i];
      var chunk := env.chunkFor(requests[i].fields);
      assert 0 < chunk < 0x100_0000;
      ok := Emit(id, r, listing, chunk);
    }

    /** The stream of the oldest finished id is there, and its task has let go of the response. */
    ghost predicate Finished(s: State<E, D>)
      requires s.queue != []
    {
      && s.queue[0] in s.streams
      && var i := s.streams[s.queue[0]];
         i < |s.phases| && i < |s.ledger.requests| && s.phases[i].Queued?
    }

    lemma {:induction false} NotFinished(env: Env<E, D>, s: State<E, D>)
      requires s.queue != [] && !Finished(s)
      ensures Http2Conn.WriteResponse(env, s, []).Panic?
    {}

    lemma {:induction false} FinishedWrites(env: Env<E, D>, s: State<E, D>, listing: seq<Field>)
      requires s.queue != [] && Finished(s)
      requires var i := s.streams[s.queue[0]];
               Lists(listing, s.phases[i].response.headers) && env.chunkFor(s.ledger.requests[i].fields) > 0
      ensures var i := s.streams[s.queue[0]];
              var r, chunk := s.phases[i].response, env.chunkFor(s.ledger.requests[i].fields);
              var (block, enc) := env.codec.encode(s.enc, ReplyFields(r, listing));
              Http2Conn.WriteResponse(env, s, listing) ==
              if |block| >= 0x1_0000_0000 then Panic
              else Next(s.(streams := s.streams - {s.queue[0]}, queue := s.queue[1..], phases := s.phases[i := Answered(r, listing)],
                           enc := enc, out := s.out + EncodedAll(ReplyFrames(s.queue[0], block, r.body, chunk)),
                           answered := s.answered + [i]))
    {
      hide Lists, EncodedAll, ReplyFrames, ReplyFields;
    }

    /**
     * The frames of one response: the header block of its fields, then its body. A block whose length a
     * `u32` cannot hold fails in `encode`.
     */
    method Emit(id: nat, r: Response, listing: seq<Field>, chunk: nat) returns (ok: bool)
      requires 0 < chunk < 0x100_0000 && id < 0x8000_0000
      modifies this`encoder, this`out
      ensures var (block, enc) := env.codec.encode(old(encoder), ReplyFields(r, listing));
              && (ok <==> |block| < 0x1_0000_0000)
              && (ok ==> encoder == enc && out == old(out) + EncodedAll(ReplyFrames(id, block, r.body, chunk)))
    {
      hide EncodedAll, Encoded;
      var (block, enc) := env.codec.encode(encoder, ReplyFields(r, listing));
      encoder := enc;
      if |block| >= 0x1_0000_0000 { return false; }
      var head := New(Headers, END_HEADERS, id, block);
      WriteFrame(head);
      WriteBody(id, r.body, chunk);
      BlockWritten(old(out), head, DataFrames(id, r.body, chunk));
      ok := true;
    }

    lemma {:induction false} BlockWritten(before: seq<byte>, head: Frame, data: seq<Frame>)
      ensures before + Encoded(head) + EncodedAll(data) == before + EncodedAll([head] + data)
    {
      assert ([head] + data)[1..] == data;
      Associative(before, Encoded(head), EncodedAll(data));
    }

    /** One event of a schedule, skipped if it is not enabled. */
    method Perform(e: Event) returns (ok: bool, done: bool, ghost event: Event)
      requires Valid()
      modifies this
      ensures !done ==> ok && State() == old(State()) && (e.Arrive? || e.Close? ==> closed)
      ensures done ==> Step(env, old(State()), event) == if ok then Next(State()) else Panic
      ensures done ==> (event == e || (event.Recv? && e.Recv?)) && (e.Arrive? ==> !old(closed))
      ensures ok ==> Valid()
    {
      hide Step;
      event := e;
      ok, done := true, false;
      match e
      case Arrive(bytes) =>
        if !closed {
          Arrive(bytes);
          done := true;
        }
      case Close =>
        if !closed {
          Close();
          done := true;
        }
      case PollReader =>
        ok := PollReader();
        done := true;
      case HandlerDone(i, r) =>
        if i < |phases| && phases[i].Handling? {
          FinishHandler(i, r);
          done := true;
        }
      case BodyReady(i) =>
        if i < |phases| && phases[i].AwaitBody? && requests[i].body.Some? {
          TakeBody(i);
          done := true;
        }
      case Send(i) =>
        if i < |phases| && phases[i].Sending? && |queue| < CAPACITY {
          SendId(i);
          done := true;
        }
      case Recv(_) =>
        if queue != [] {
          var listing;
          ok, listing := WriteResponse();
          event := Event.Recv(listing);
          done := true;
        }
    }

    /**
     * The connection over a schedule of events, those that are not enabled being skipped. `run` is what
     * was done, with the iteration orders that were used. On a peer whose octets are fine it panics exactly
     * when it polls a read that the peer's close cut short, or writes an oversize header block.
     */
    method HandleConnection(schedule: seq<Event>) returns (ok: bool, ghost run: seq<Event>)
      requires Valid() && State() == Initial(env)
      modifies this
      ensures Run(env, Initial(env), run) == if ok then Next(State()) else Panic
      ensures ok ==> Delivered(run) == Heard(schedule)
      ensures FineConnection(env, Heard(schedule)) ==> (ok <==> Clean(env, Initial(env), run)) && (ok ==> Inv(State()))
    {
      hide Step, Inv, FineConnection, Clean;
      run := [];
      ok := true;
      var k := 0;
      while k < |schedule| && ok
        invariant k <= |schedule|
        invariant Run(env, Initial(env), run) == if ok then Next(State()) else Panic
        invariant ok ==> Valid() && closed == HasClose(schedule[..k])
        invariant Delivered(run) == Heard(schedule[..k])
      {
        hide Run, Delivered, Heard, HasClose;
        ghost var s := State();
        var done;
        ghost var event;
        ok, done, event := Perform(schedule[k]);
        Account(schedule, k, run, s.closed, done, event);
        if done {
          ClosedStep(env, s, event);
          RunSnoc(env, Initial(env), run, s, event);
          run := run + [event];
        }
        k := k + 1;
      }
      assert schedule == schedule[..k] + schedule[k..];
      HeardPrefix(schedule[..k], schedule[k..]);
      if FineConnection(env, Heard(schedule)) {
        assert Heard(schedule) == Delivered(run) + Heard(schedule)[|Delivered(run)|..];
        FineConnectionPrefix(env, Delivered(run), Heard(schedule)[|Delivered(run)|..]);
        NoRunPanics(env, run);
      }
      assert ok ==> schedule[..k] == schedule;
    }

    lemma {:induction false} Account(schedule: seq<Event>, k: nat, run: seq<Event>, wasClosed: bool, done: bool, event: Event)
      requires k < |schedule| && Delivered(run) == Heard(schedule[..k]) && wasClosed == HasClose(schedule[..k])
      requires !done && (schedule[k].Arrive? || schedule[k].Close?) ==> wasClosed
      requires done ==> event == schedule[k] || (event.Recv? && schedule[k].Recv?)
      requires done && schedule[k].Arrive? ==> !wasClosed
      ensures Delivered(if done then run + [event] else run) == Heard(schedule[..k + 1])
      ensures HasClose(schedule[..k + 1]) == (wasClosed || schedule[k].Close?)
    {
      assert schedule[..k + 1] == schedule[..k] + [schedule[k]];
      HeardMore(schedule[..k], schedule[k]);
      DeliveredAppend(run, [event]);
      assert Delivered([event]) == if event.Arrive? then event.bytes else [];
      assert Delivered([schedule[k]]) == if schedule[k].Arrive? then schedule[k].bytes else [];
      assert Delivered(run) + [] == Delivered(run);
    }
  }

  // --- What a closed peer still says ----------------------------------------

  predicate HasClose(es: seq<Event>) {
    es != [] && (es[0].Close? || HasClose(es[1..]))
  }

  /** The octets a schedule delivers before the peer closes; what it has arrive later is never sent. */
  function Heard(es: seq<Event>): seq<byte> {
    if es == [] || es[0].Close? then [] else Delivered([es[0]]) + Heard(es[1..])
  }

  lemma {:induction false} HeardMore(es: seq<Event>, e: Event)
    ensures HasClose(es + [e]) == (HasClose(es) || e.Close?)
    ensures Heard(es + [e]) == Heard(es) + if HasClose(es) then [] else Delivered([e])
    decreases |es|
  {
    hide Delivered;
    if es == [] {
      assert [] + [e] == [e] && [e][1..] == [] && !HasClose([]);
      assert Delivered([e]) + [] == Delivered([e]) && [] + Delivered([e]) == Delivered([e]);
      NothingInClose(e);
    } else {
      HeardMore(es[1..], e);
      assert (es + [e])[1..] == es[1..] + [e];
      Associative(Delivered([es[0]]), Heard(es[1..]), if HasClose(es[1..]) then [] else Delivered([e]));
    }
  }

  lemma {:induction false} NothingInClose(e: Event)
    ensures e.Close? ==> Delivered([e]) == []
  {}

  lemma {:induction false} HeardPrefix(a: seq<Event>, b: seq<Event>)
    ensures Heard(a) <= Heard(a + b)
    decreases |a|
  {
    hide Delivered;
    if a != [] {
      HeardPrefix(a[1..], b);
      assert (a + b)[1..] == a[1..] + b;
    }
  }
}
