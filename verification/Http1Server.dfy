/** An HTTP/1 connection as the program runs it, and what its client gets. */
module Http1Server {
  import opened Base
  import opened HeaderFields
  import opened Http1Text
  import opened Http1Read
  import Writer = Http1Write

  /** A request handled, and the order in which the headers of its response were iterated. */
  datatype Exchange = Exchange(request: Request, listing: seq<Field>)

  /** The response of an exchange was listed as the writer framed it. */
  ghost predicate AsFramed(handler: Request -> Response, chunk: nat, x: Exchange) {
    var r := handler(x.request);
    Lists(x.listing, Writer.Framed(r.headers, |r.body|, chunk))
  }

  function RenderExchange(handler: Request -> Response, chunk: nat, x: Exchange): string
    requires chunk > 0
  {
    var r := handler(x.request);
    Writer.Render(x.request.version, r.status, x.listing, r.body, chunk)
  }

  function RenderLog(handler: Request -> Response, chunk: nat, log: seq<Exchange>): string
    requires chunk > 0
  {
    if log == [] then [] else RenderExchange(handler, chunk, log[0]) + RenderLog(handler, chunk, log[1..])
  }

  lemma {:induction false} RenderLogAppend(handler: Request -> Response, chunk: nat, log: seq<Exchange>, x: Exchange)
    requires chunk > 0
    ensures RenderLog(handler, chunk, log + [x]) == RenderLog(handler, chunk, log) + RenderExchange(handler, chunk, x)
  {
    hide RenderExchange;
    if log == [] {
      assert log + [x] == [x] && [x][1..] == [];
    } else {
      RenderLogAppend(handler, chunk, log[1..], x);
      assert (log + [x])[1..] == log[1..] + [x];
      Associative(RenderExchange(handler, chunk, log[0]), RenderLog(handler, chunk, log[1..]), RenderExchange(handler, chunk, x));
    }
  }

  function RequestsOf(log: seq<Exchange>): (rs: seq<Request>)
    ensures |rs| == |log| && forall k :: 0 <= k < |log| ==> rs[k] == log[k].request
  {
    seq(|log|, k requires 0 <= k < |log| => log[k].request)
  }

  class Connection {
    var input: string
    var out: string
    var request: Request
    var response: Response
    ghost var log: seq<Exchange>

    constructor (input: string)
      ensures this.input == input && out == [] && log == []
    {
      this.input := input;
      out := [];
      request := Request([], [], [], map[], None, None);
      response := Response(0, map[], []);
      log := [];
    }

    /** `read_until`; reading nothing at all is an unexpected end. */
    method Take(c: char) returns (taken: string)
      modifies this`input
      ensures (taken, input) == ReadUntil(old(input), c)
    {
      var (t, rest) := ReadUntil(input, c);
      taken, input := t, rest;
    }

    method ParseFirstLine() returns (failure: Option<Error>)
      modifies this`input, this`request
      ensures match ReadFirstLine(old(input))
              case Err(e) => failure == Some(e)
              case Ok(((verb, uri, version), rest)) =>
                failure == None && input == rest
                && request == old(request).(verb := verb, uri := uri, version := version)
    {
      var verb := Take(' ');
      if verb == [] { return Some(UnexpectedEof); }
      var uri := [];
      ghost var start := input;
      while uri == [] || uri == " "
        invariant ReadUri(uri, input) == ReadUri([], start)
        invariant request == old(request)
        decreases |input|
      {
        var more := Take(' ');
        if more == [] { return Some(UnexpectedEof); }
        uri := uri + more;
      }
      var version := Take('\n');
      if version == [] { return Some(UnexpectedEof); }
      request := request.(verb := verb[..|verb| - 1], uri := Trim(uri), version := Trim(version));
      failure := None;
    }

    method ParseHeaders() returns (failure: Option<Error>)
      requires request.headers == map[] && request.host == None
      modifies this`input, this`request
      ensures match ReadHeaders(old(input), Head(map[], None))
              case Err(e) => failure == Some(e)
              case Ok((h, rest)) =>
                failure == None && input == rest && request == old(request).(headers := h.headers, host := h.host)
    {
      ghost var start := input;
      while true
        invariant ReadHeaders(input, Head(request.headers, request.host)) == ReadHeaders(start, Head(map[], None))
        invariant request == old(request).(headers := request.headers, host := request.host)
        decreases |input|
      {
        hide Lower, Trim, IsName, IsValue;
        if input == [] { return Some(UnexpectedEof); }
        var next := input[0];
        ghost var before := input;
        input := input[1..];
        if next == '\n' { return None; }
        if next == '\r' {
          if input == [] { return Some(UnexpectedEof); }
          var feed := input[0] == '\n';
          input := input[1..];
          return if feed then None else Some(InvalidData);
        }
        var header := [next];
        var more := Take(':');
        if more == [] { return Some(UnexpectedEof); }
        header := header + more;
        var value := Take('\n');
        if value == [] { return Some(UnexpectedEof); }
        var name := Lower(TrimStart(header[..|header| - 1]));
        value := Trim(value[..|value| - 1]);
        assert ReadHeader(before) == Ok(((name, value), input));
        if !IsName(name) || !IsValue(value) { return Some(BadHeader); }
        if name == HOST {
          request := request.(host := Some(value));
        }
        request := request.(headers := request.headers[name := [value]]);
      }
    }

    method ReadBodyOf() returns (failure: Option<Error>)
      modifies this`input, this`request
      ensures match ReadBody(old(request).headers, old(input))
              case Err(e) => failure == Some(e)
              case Ok((body, rest)) => failure == None && input == rest && request == old(request).(body := body)
    {
      if Values(request.headers, CONTENT_LENGTH) == [] {
        request := request.(body := None);
        return None;
      }
      match ParseSize(Values(request.headers, CONTENT_LENGTH)[0])
      case None =>
        failure := Some(InvalidData);
      case Some(n) =>
        if |input| < n { return Some(UnexpectedEof); }
        request := request.(body := Some(input[..n]));
        input := input[n..];
        failure := None;
    }

    /** The framing decision, the header text, and the body, whole or in chunks. */
    method WriteResponse(chunk: nat) returns (listing: seq<Field>)
      requires chunk > 0 && Writer.PrintableMap(response.headers)
      modifies this`response, this`out
      ensures response == old(response).(headers := Writer.Framed(old(response).headers, |old(response).body|, chunk))
      ensures Lists(listing, response.headers)
      ensures out == old(out) + Writer.Render(request.version, response.status, listing, response.body, chunk)
    {
      hide Lists, Numeral, Writer.Chunks, Writer.RenderChunks, Writer.PrintableMap;
      var length := |response.body|;
      var chunked := length > chunk;
      if chunked {
        response := response.(headers := response.headers - {CONTENT_LENGTH});
        response := response.(headers := response.headers[TRANSFER_ENCODING := [Writer.CHUNKED]]);
      } else {
        response := response.(headers := response.headers - {TRANSFER_ENCODING});
        response := response.(headers := response.headers[CONTENT_LENGTH := [Numeral(length, 10)]]);
      }
      listing := Iterate(response.headers);
      var status := request.version + " " + Numeral(response.status, 10) + "\n";
      var text := "";
      ghost var framed := response;
      for k := 0 to |listing|
        invariant response == framed && out == old(out)
        invariant text == Writer.RenderFields(listing[..k])
      {
        var f := listing[k];
        text := text + (f.name + ": " + f.value + "\n");
        assert listing[..k + 1] == listing[..k] + [f];
        RenderFieldsAppend(listing[..k], f);
      }
      assert listing[..|listing|] == listing;
      out := out + (status + text + "\n");
      if chunked { WriteChunks(chunk); } else { out := out + response.body; }
      Associative(old(out), status + text + "\n", Writer.RenderBody(response.body, chunk));
    }

    lemma {:induction false} RenderFieldsAppend(fields: seq<Field>, f: Field)
      ensures Writer.RenderFields(fields + [f]) == Writer.RenderFields(fields) + (f.name + ": " + f.value + "\n")
    {
      var text := f.name + ": " + f.value + "\n";
      if fields == [] {
        assert fields + [f] == [f] && [f][1..] == [];
        assert text + [] == [] + text;
      } else {
        RenderFieldsAppend(fields[1..], f);
        assert (fields + [f])[1..] == fields[1..] + [f];
        Associative(fields[0].name + ": " + fields[0].value + "\n", Writer.RenderFields(fields[1..]), text);
      }
    }

    method WriteChunks(chunk: nat)
      requires 0 < chunk < |response.body|
      modifies this`out
      ensures out == old(out) + (Writer.RenderChunks(Writer.Chunks(response.body, chunk)) + Writer.LAST_CHUNK)
    {
      hide Writer.RenderChunk, Writer.Chunks, Writer.RenderChunks;
      var body, pos := response.body, 0;
      ghost var done: seq<string> := [];
      assert body[0..] == body;
      assert [] + Writer.Chunks(body, chunk) == Writer.Chunks(body, chunk);
      RenderNoChunks();
      while pos < |body|
        invariant pos <= |body|
        invariant Writer.Chunks(body, chunk) == done + Writer.Chunks(body[pos..], chunk)
        invariant out == old(out) + Writer.RenderChunks(done)
      {
        var n := Min(chunk, |body| - pos);
        var piece := body[pos..pos + n];
        NextChunk(body, chunk, pos);
        out := out + Writer.RenderChunk(piece);
        RenderChunksAppend(done, piece);
        Associative(old(out), Writer.RenderChunks(done), Writer.RenderChunk(piece));
        Associative(done, [piece], Writer.Chunks(body[pos + n..], chunk));
        done := done + [piece];
        pos := pos + n;
      }
      assert body[pos..] == [] && done + [] == done;
      NoMoreChunks(chunk);
      out := out + Writer.LAST_CHUNK;
      Associative(old(out), Writer.RenderChunks(done), Writer.LAST_CHUNK);
    }

    lemma {:induction false} RenderNoChunks()
      ensures Writer.RenderChunks([]) == []
    {}

    lemma {:induction false} NoMoreChunks(chunk: nat)
      requires chunk > 0
      ensures Writer.Chunks([], chunk) == []
    {}

    lemma {:induction false} NextChunk(body: string, chunk: nat, pos: nat)
      requires 0 < chunk && pos < |body|
      ensures var n := Min(chunk, |body| - pos);
              Writer.Chunks(body[pos..], chunk) == [body[pos..pos + n]] + Writer.Chunks(body[pos + n..], chunk)
    {
      var left := body[pos..];
      if |left| <= chunk {
        assert body[pos..pos + |left|] == left && body[pos + |left|..] == [];
        assert [left] + [] == [left];
      } else {
        assert left[..chunk] == body[pos..pos + chunk] && left[chunk..] == body[pos + chunk..];
      }
    }

    lemma {:induction false} RenderChunksAppend(chunks: seq<string>, piece: string)
      ensures Writer.RenderChunks(chunks + [piece]) == Writer.RenderChunks(chunks) + Writer.RenderChunk(piece)
    {
      hide Writer.RenderChunk;
      if chunks == [] {
        assert chunks + [piece] == [piece] && [piece][1..] == [];
        assert Writer.RenderChunk(piece) + [] == [] + Writer.RenderChunk(piece);
      } else {
        RenderChunksAppend(chunks[1..], piece);
        assert (chunks + [piece])[1..] == chunks[1..] + [piece];
        Associative(Writer.RenderChunk(chunks[0]), Writer.RenderChunks(chunks[1..]), Writer.RenderChunk(piece));
      }
    }

    /** One request, from its first octet to the last of its response. */
    method HandleRequest(handler: Request -> Response, chunk: nat) returns (failure: Option<Error>)
      requires chunk > 0 && forall r: Request :: Writer.PrintableMap(handler(r).headers)
      modifies this
      ensures match ReadRequest(old(input))
              case Err(e) => failure == Some(e) && out == old(out) && log == old(log)
              case Ok((r, rest)) =>
                && failure == None && input == rest && request == r
                && |log| > 0 && log[..|log| - 1] == old(log) && log[|log| - 1].request == r
                && AsFramed(handler, chunk, log[|log| - 1])
                && out == old(out) + RenderExchange(handler, chunk, log[|log| - 1])
    {
      hide ReadFirstLine, ReadHeaders, ReadBody, Lists, Writer.Render, Writer.Framed, Writer.PrintableMap;
      request := Request([], [], [], map[], None, None);
      failure := ParseFirstLine();
      if failure.Some? { return; }
      failure := ParseHeaders();
      if failure.Some? { return; }
      failure := ReadBodyOf();
      if failure.Some? { return; }
      response := handler(request);
      var listing := WriteResponse(chunk);
      log := log + [Exchange(request, listing)];
    }

    /**
     * The connection: requests are answered one after the other, in order, for as long as the first one
     * asked for and reading succeeds, unless that one's handler hijacks the connection.
     */
    method HandleConnection(handler: Request -> Response, hijacks: Request -> bool, chunk: nat) returns (end: Option<Error>)
      requires chunk > 0 && log == [] && forall r: Request :: Writer.PrintableMap(handler(r).headers)
      modifies this
      ensures (RequestsOf(log), end) == ReadConnection(old(input), hijacks)
      ensures forall k :: 0 <= k < |log| ==> AsFramed(handler, chunk, log[k])
      ensures out == old(out) + RenderLog(handler, chunk, log)
    {
      hide ReadRequest, AsFramed, RenderExchange, KeepsAlive, Writer.PrintableMap;
      end := HandleRequest(handler, chunk);
      if end.Some? {
        assert RequestsOf(log) == [];
        return;
      }
      assert log[..0] == [];
      RenderLogAppend(handler, chunk, [], log[0]);
      assert [] + [log[0]] == log && old(out) + [] == old(out);
      ghost var first := request;
      assert RequestsOf(log) == [first];
      if hijacks(request) { return; }
      if KeepsAlive(request) {
        ghost var rest := input;
        while end.None?
          invariant forall k :: 0 <= k < |log| ==> AsFramed(handler, chunk, log[k])
          invariant out == old(out) + RenderLog(handler, chunk, log)
          invariant |log| > 0 && log[0].request == first
          invariant end.None? ==> ([first] + ReadLoop(rest).0, ReadLoop(rest).1) == (RequestsOf(log) + ReadLoop(input).0, ReadLoop(input).1)
          invariant end.Some? ==> ([first] + ReadLoop(rest).0, Some(ReadLoop(rest).1)) == (RequestsOf(log), end)
          decreases end.None?, |input|
        {
          ghost var before, was := log, out;
          end := HandleRequest(handler, chunk);
          if end.Some? {
            assert RequestsOf(log) + [] == RequestsOf(log);
          } else {
            var x := log[|log| - 1];
            assert log == before + [x];
            RenderLogAppend(handler, chunk, before, x);
            Associative(old(out), RenderLog(handler, chunk, before), RenderExchange(handler, chunk, x));
            assert RequestsOf(log) == RequestsOf(before) + [x.request];
            Associative(RequestsOf(before), [x.request], ReadLoop(input).0);
          }
        }
      }
    }
  }

  // --- What the client gets -------------------------------------------------

  function MessageOf(handler: Request -> Response, x: Exchange): Writer.Message {
    var r := handler(x.request);
    Writer.Message(x.request.version, r.status, Writer.Stripped(x.listing), r.body)
  }

  function MessagesOf(handler: Request -> Response, log: seq<Exchange>): seq<Writer.Message> {
    if log == [] then [] else [MessageOf(handler, log[0])] + MessagesOf(handler, log[1..])
  }

  /**
   * Responses written back to back decode uniquely: a client gets, for every request in turn, the
   * handler's status, its headers with exactly one of the two framing headers, and its whole body.
   */
  lemma {:induction false} ClientReadsLog(handler: Request -> Response, chunk: nat, log: seq<Exchange>)
    requires chunk > 0
    requires forall k :: 0 <= k < |log| ==>
               AsFramed(handler, chunk, log[k]) && Writer.PlainVersion(log[k].request.version)
               && Writer.PrintableMap(handler(log[k].request).headers)
    ensures Writer.ReadMessages(RenderLog(handler, chunk, log)) == Some(MessagesOf(handler, log))
    ensures |MessagesOf(handler, log)| == |log|
    ensures forall k :: 0 <= k < |log| ==>
              var m := MessagesOf(handler, log)[k];
              m.version == log[k].request.version && Writer.Carries(m, handler(log[k].request))
    decreases |log|
  {
    hide Writer.ReadMessage, Writer.Render, Writer.Carries, Lists;
    if log != [] {
      var r := handler(log[0].request);
      ClientReadsLog(handler, chunk, log[1..]);
      var rest := RenderLog(handler, chunk, log[1..]);
      Writer.ReadMessageBack(log[0].request.version, r, log[0].listing, chunk, rest);
      assert RenderLog(handler, chunk, log) != [] by {
        NotEmpty(Writer.Render(log[0].request.version, r.status, log[0].listing, r.body, chunk) + rest);
      }
    }
  }

  lemma {:induction false} NotEmpty(s: string)
    requires Writer.ReadMessage(s).Some?
    ensures s != []
  {}

  /**
   * From end to end: well-formed requests on a connection that the first of them keeps alive, and whose handler
   * does not hijack it, are all answered, in order, each by what the handler makes of the request it meant.
   */
  lemma {:induction false} ConversationAnswered(handler: Request -> Response, hijacks: Request -> bool, chunk: nat,
      ws: seq<WireRequest>, last: WireRequest, k: nat, log: seq<Exchange>)
    returns (ms: seq<Writer.Message>)
    requires chunk > 0 && ws != [] && forall j :: 0 <= j < |ws| ==> WellFormed(ws[j]) && ' ' !in ws[j].version
    requires AsksToKeep(ws[0]) && !hijacks(Meant(ws[0])) && forall r: Request :: Writer.PrintableMap(handler(r).headers)
    requires WellFormed(last) && k < |Serialise(last)|
    requires RequestsOf(log) == ReadConnection(SerialiseAll(ws) + Serialise(last)[..k], hijacks).0
    requires forall j :: 0 <= j < |log| ==> AsFramed(handler, chunk, log[j])
    ensures |log| == |ws| && forall j :: 0 <= j < |ws| ==> log[j].request == Meant(ws[j])
    ensures Writer.ReadMessages(RenderLog(handler, chunk, log)) == Some(ms) && |ms| == |ws|
    ensures forall j :: 0 <= j < |ws| ==> ms[j].version == ws[j].version && Writer.Carries(ms[j], handler(Meant(ws[j])))
  {
    hide WellFormed, AsFramed, Writer.ReadMessages, ReadConnection, SerialiseAll, Serialise, AsksToKeep, Writer.PrintableMap, Writer.Carries;
    ReadConnectionBack(ws, last, k, hijacks);
    MeantAt(ws);
    assert RequestsOf(log) == MeantAll(ws);
    forall j | 0 <= j < |log|
      ensures log[j].request == Meant(ws[j]) && Writer.PlainVersion(log[j].request.version)
    {
      assert RequestsOf(log)[j] == log[j].request;
      VersionPlain(ws[j]);
    }
    ClientReadsLog(handler, chunk, log);
    ms := MessagesOf(handler, log);
  }

  lemma {:induction false} VersionPlain(w: WireRequest)
    requires WellFormed(w) && ' ' !in w.version
    ensures Writer.PlainVersion(w.version)
  {}

  lemma {:induction false} MeantAt(ws: seq<WireRequest>)
    ensures |MeantAll(ws)| == |ws| && forall k :: 0 <= k < |ws| ==> MeantAll(ws)[k] == Meant(ws[k])
  {
    hide Meant;
    if ws != [] {
      MeantAt(ws[1..]);
    }
  }
}
