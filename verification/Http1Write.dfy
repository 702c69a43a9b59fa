/**
 * HTTP/1 responses: what the writer prints, and what a client that frames messages by
 * Transfer-Encoding or Content-Length (section 6 of RFC 9112) reads from it.
 */
module Http1Write {
  import opened Base
  import opened HeaderFields
  import opened Http1Text

  const CHUNKED: string := "chunked"
  const CRLF: string := "\r\n"

  // --- The writer -----------------------------------------------------------

  /** The headers after the writer has chosen how to frame the body. */
  function Framed(headers: HeaderMap, length: nat, chunk: nat): HeaderMap {
    if length > chunk then (headers - {CONTENT_LENGTH})[TRANSFER_ENCODING := [CHUNKED]]
    else (headers - {TRANSFER_ENCODING})[CONTENT_LENGTH := [Numeral(length, 10)]]
  }

  function RenderFields(fields: seq<Field>): string {
    if fields == [] then []
    else fields[0].name + ": " + fields[0].value + "\n" + RenderFields(fields[1..])
  }

  function Chunks(body: string, chunk: nat): seq<string>
    requires chunk > 0
  {
    if body == [] then []
    else if |body| <= chunk then [body]
    else [body[..chunk]] + Chunks(body[chunk..], chunk)
  }

  function RenderChunk(data: string): string {
    Numeral(|data|, 16) + CRLF + data + CRLF
  }

  function RenderChunks(chunks: seq<string>): string {
    if chunks == [] then [] else RenderChunk(chunks[0]) + RenderChunks(chunks[1..])
  }

  const LAST_CHUNK: string := "0\r\n\r\n"

  function RenderBody(body: string, chunk: nat): string
    requires chunk > 0 || body == []
  {
    if |body| > chunk then RenderChunks(Chunks(body, chunk)) + LAST_CHUNK else body
  }

  function RenderHead(version: string, status: nat, fields: seq<Field>): string {
    version + " " + Numeral(status, 10) + "\n" + RenderFields(fields) + "\n"
  }

  /** The octets of a response whose framed headers were iterated as `fields`. */
  function Render(version: string, status: nat, fields: seq<Field>, body: string, chunk: nat): string
    requires chunk > 0 || body == []
  {
    RenderHead(version, status, fields) + RenderBody(body, chunk)
  }

  // --- The client -----------------------------------------------------------

  datatype Message = Message(version: string, status: nat, fields: seq<Field>, body: string)

  /** A line without its line feed. */
  function ReadLine(s: string): (r: Option<(string, string)>)
    ensures r.Some? ==> |r.value.1| < |s|
  {
    var (line, rest) := ReadUntil(s, '\n');
    if line == [] || line[|line| - 1] != '\n' then None else Some((line[..|line| - 1], rest))
  }

  function ReadFields(s: string): (r: Option<(seq<Field>, string)>)
    ensures r.Some? ==> |r.value.1| <= |s|
    decreases |s|
  {
    match ReadLine(s)
    case None => None
    case Some((line, rest)) =>
      if line == [] then Some(([], rest))
      else
        var (name, value) := ReadUntil(line, ':');
        if name[|name| - 1] != ':' then None
        else match ReadFields(rest)
          case None => None
          case Some((fields, tail)) => Some(([Field(name[..|name| - 1], Trim(value))] + fields, tail))
  }

  /** The chunks of a chunked body (section 7.1 of RFC 9112), up to and including the last one. */
  function ReadChunks(s: string): (r: Option<(seq<string>, string)>)
    ensures r.Some? ==> |r.value.1| <= |s|
    decreases |s|
  {
    match ReadLine(s)
    case None => None
    case Some((line, rest)) =>
      if line == [] || line[|line| - 1] != '\r' then None
      else match ParseNumeral(line[..|line| - 1], 16)
        case None => None
        case Some(n) =>
          if |rest| < n + 2 || rest[n..n + 2] != "\r\n" then None
          else if n == 0 then Some(([], rest[2..]))
          else match ReadChunks(rest[n + 2..])
            case None => None
            case Some((chunks, tail)) => Some(([rest[..n]] + chunks, tail))
  }

  function ReadBody(fields: seq<Field>, s: string): (r: Option<(string, string)>)
    ensures r.Some? ==> |r.value.1| <= |s|
  {
    if ValuesOf(fields, "transfer-encoding") == ["chunked"] then
      match ReadChunks(s)
      case None => None
      case Some((chunks, rest)) => Some((Concat(chunks), rest))
    else if |ValuesOf(fields, "content-length")| != 1 then None
    else match ParseNumeral(ValuesOf(fields, "content-length")[0], 10)
      case None => None
      case Some(n) => if |s| < n then None else Some((s[..n], s[n..]))
  }

  function ReadStatusLine(line: string): Option<(string, nat)> {
    var (version, status) := ReadUntil(line, ' ');
    if version == [] || version[|version| - 1] != ' ' then None
    else match ParseNumeral(status, 10)
      case None => None
      case Some(n) => Some((version[..|version| - 1], n))
  }

  function ReadMessage(s: string): (r: Option<(Message, string)>)
    ensures r.Some? ==> |r.value.1| < |s|
  {
    match ReadLine(s)
    case None => None
    case Some((line, rest)) =>
      match ReadStatusLine(line)
      case None => None
      case Some((version, status)) =>
        match ReadFields(rest)
        case None => None
        case Some((fields, content)) =>
          match ReadBody(fields, content)
          case None => None
          case Some((body, tail)) => Some((Message(version, status, fields, body), tail))
  }

  /** All the messages on a connection. */
  function ReadMessages(s: string): Option<seq<Message>>
    decreases |s|
  {
    if s == [] then Some([])
    else match ReadMessage(s)
      case None => None
      case Some((m, rest)) =>
        match ReadMessages(rest)
        case None => None
        case Some(ms) => Some([m] + ms)
  }

  // --- Chunked bodies -------------------------------------------------------

  /** The chunks are the body cut into nonempty pieces, all of full size but the last. */
  lemma {:induction false} ChunksCutBody(body: string, chunk: nat)
    requires chunk > 0
    ensures var cs := Chunks(body, chunk);
            && Concat(cs) == body
            && (forall k :: 0 <= k < |cs| ==> 0 < |cs[k]| <= chunk)
            && (forall k :: 0 <= k < |cs| - 1 ==> |cs[k]| == chunk)
    decreases |body|
  {
    var cs := Chunks(body, chunk);
    if body != [] && |body| <= chunk {
      assert cs[1..] == [] && body + [] == body;
    } else if body != [] {
      ChunksCutBody(body[chunk..], chunk);
      assert cs[1..] == Chunks(body[chunk..], chunk);
      assert body[..chunk] + body[chunk..] == body;
    }
  }

  /** There are as many chunks as it takes. */
  lemma {:induction false} ChunkCount(body: string, chunk: nat)
    requires chunk > 0
    ensures |Chunks(body, chunk)| == (|body| + chunk - 1) / chunk
    decreases |body|
  {
    if body == [] {
      Quotient(chunk - 1, chunk, 0);
    } else if |body| <= chunk {
      Quotient(|body| + chunk - 1, chunk, 1);
    } else {
      ChunkCount(body[chunk..], chunk);
      CeilNext(|body|, chunk);
    }
  }

  lemma {:induction false} ReadLineBack(line: string, rest: string)
    requires '\n' !in line
    ensures ReadLine(line + "\n" + rest) == Some((line, rest))
  {
    ReadUntilAt(line, '\n', rest);
  }

  lemma {:induction false} ChunkPieces(size: string, data: string, rest: string)
    ensures size + CRLF + data + CRLF + rest == (size + "\r") + "\n" + (data + CRLF + rest)
    ensures (data + CRLF + rest)[..|data|] == data
    ensures (data + CRLF + rest)[|data|..|data| + 2] == CRLF
    ensures (data + CRLF + rest)[|data| + 2..] == rest
  {}

  lemma {:induction false} ReadChunkSize(data: string, rest: string)
    ensures var size := Numeral(|data|, 16);
            && ReadLine(RenderChunk(data) + rest) == Some((size + "\r", data + CRLF + rest))
            && ParseNumeral(size, 16) == Some(|data|)
  {
    hide Numeral, ReadLine;
    var size := Numeral(|data|, 16);
    NumeralRoundTrip(|data|, 16);
    NumeralChars(|data|, 16);
    assert '\n' !in size + "\r";
    ReadLineBack(size + "\r", data + CRLF + rest);
    ChunkPieces(size, data, rest);
  }

  /** Reading one chunk that is not the last. */
  lemma {:induction false} ReadOneChunk(data: string, rest: string, chunks: seq<string>, tail: string)
    requires data != [] && ReadChunks(rest) == Some((chunks, tail))
    ensures ReadChunks(RenderChunk(data) + rest) == Some(([data] + chunks, tail))
  {
    hide ReadLine, RenderChunk, ParseNumeral, Numeral;
    ReadChunkSize(data, rest);
    ChunkPieces([], data, rest);
    var line := Numeral(|data|, 16) + "\r";
    assert line[..|line| - 1] == Numeral(|data|, 16);
  }

  lemma {:induction false} ReadLastChunk(rest: string)
    ensures ReadChunks(LAST_CHUNK + rest) == Some(([], rest))
  {
    hide ReadLine, ParseNumeral, Numeral;
    ReadChunkSize([], rest);
    LastChunkIs(rest);
    ChunkPieces([], [], rest);
    var line := Numeral(0, 16) + "\r";
    assert line[..|line| - 1] == Numeral(0, 16);
  }

  lemma {:induction false} LastChunkIs(rest: string)
    ensures LAST_CHUNK + rest == RenderChunk([]) + rest
  {
    assert Numeral(0, 16) == "0";
  }

  /** A chunked body delimits itself: reading it stops exactly behind it, whatever follows. */
  lemma {:induction false} ReadChunksBack(chunks: seq<string>, rest: string)
    requires forall k :: 0 <= k < |chunks| ==> chunks[k] != []
    ensures ReadChunks(RenderChunks(chunks) + LAST_CHUNK + rest) == Some((chunks, rest))
  {
    hide ReadChunks, RenderChunk;
    if chunks == [] {
      ReadLastChunk(rest);
      assert RenderChunks(chunks) + LAST_CHUNK == LAST_CHUNK;
    } else {
      var tail := RenderChunks(chunks[1..]) + LAST_CHUNK + rest;
      ReadChunksBack(chunks[1..], rest);
      ReadOneChunk(chunks[0], tail, chunks[1..], rest);
      Regroup(RenderChunk(chunks[0]), RenderChunks(chunks[1..]), LAST_CHUNK, rest);
      assert [chunks[0]] + chunks[1..] == chunks;
    }
  }

  lemma {:induction false} Regroup(a: string, b: string, c: string, d: string)
    ensures (a + b) + c + d == a + (b + c + d)
  {}

  // --- Messages -------------------------------------------------------------

  /** What the writer needs of a response's headers: `to_str` panics on any other value. */
  predicate Printable(value: string) {
    forall i :: 0 <= i < |value| ==> ' ' <= value[i] <= '~' || value[i] == '\t'
  }

  ghost predicate PrintableMap(m: HeaderMap) {
    forall name :: name in m ==> IsName(name) && m[name] != [] && forall k :: 0 <= k < |m[name]| ==> Printable(m[name][k])
  }

  predicate PrintableFields(fields: seq<Field>) {
    forall k :: 0 <= k < |fields| ==> IsName(fields[k].name) && Printable(fields[k].value)
  }

  /** The fields as a recipient sees them: white space around a value is not part of it. */
  function Stripped(fields: seq<Field>): (r: seq<Field>)
    ensures |r| == |fields|
    ensures forall k :: 0 <= k < |fields| ==> r[k] == Field(fields[k].name, Trim(fields[k].value))
  {
    seq(|fields|, k requires 0 <= k < |fields| => Field(fields[k].name, Trim(fields[k].value)))
  }

  lemma {:induction false} ReadFieldsBack(fields: seq<Field>, rest: string)
    requires PrintableFields(fields)
    ensures ReadFields(RenderFields(fields) + "\n" + rest) == Some((Stripped(fields), rest))
  {
    hide ReadFields, IsName, Printable;
    if fields == [] {
      ReadNoField(rest);
      assert RenderFields(fields) + "\n" == "\n";
    } else {
      ReadFieldsBack(fields[1..], rest);
      ReadOneField(fields[0], RenderFields(fields[1..]) + "\n" + rest, Stripped(fields[1..]), rest);
      Regroup(fields[0].name + ": " + fields[0].value + "\n", RenderFields(fields[1..]), "\n", rest);
      assert [Stripped(fields)[0]] + Stripped(fields[1..]) == Stripped(fields);
    }
  }

  lemma {:induction false} ReadNoField(rest: string)
    ensures ReadFields("\n" + rest) == Some(([], rest))
  {
    ReadLineBack([], rest);
    assert [] + "\n" + rest == "\n" + rest;
  }

  lemma {:induction false} ReadOneField(f: Field, rest: string, fields: seq<Field>, tail: string)
    requires IsName(f.name) && Printable(f.value) && ReadFields(rest) == Some((fields, tail))
    ensures ReadFields(f.name + ": " + f.value + "\n" + rest) == Some(([Field(f.name, Trim(f.value))] + fields, tail))
  {
    hide ReadLine, Trim;
    var line := f.name + ": " + f.value;
    assert '\n' !in line;
    ReadLineBack(line, rest);
    ReadFieldLine(f.name, f.value);
    var (name, value) := ReadUntil(line, ':');
    assert name[..|name| - 1] == f.name;
  }

  lemma {:induction false} ReadFieldLine(name: string, value: string)
    requires IsName(name)
    ensures ReadUntil(name + ": " + value, ':') == (name + ":", " " + value)
    ensures Trim(" " + value) == Trim(value)
  {
    assert ':' !in name;
    ReadUntilAt(name, ':', " " + value);
    assert name + ": " + value == name + [':'] + (" " + value);
    TrimStartPadding(" ", value);
  }

  /** A version that can be told from the status after it. */
  predicate PlainVersion(version: string) {
    ' ' !in version && '\n' !in version
  }

  lemma {:induction false} ReadStatusBack(version: string, status: nat, rest: string)
    requires PlainVersion(version)
    ensures var line := version + " " + Numeral(status, 10);
            ReadLine(line + "\n" + rest) == Some((line, rest)) && ReadStatusLine(line) == Some((version, status))
  {
    var n := Numeral(status, 10);
    NumeralRoundTrip(status, 10);
    NumeralChars(status, 10);
    assert '\n' !in version + " " + n;
    ReadUntilAt(version + " " + n, '\n', rest);
    ReadUntilAt(version, ' ', n);
  }

  /**
   * Exactly one of the two framing headers is there, once, and it tells the truth: `chunked` for a body
   * sent in chunks, and otherwise the number of octets of the body.
   */
  lemma {:induction false} FramingHeader(headers: HeaderMap, length: nat, chunk: nat, fields: seq<Field>)
    requires Lists(fields, Framed(headers, length, chunk))
    ensures ValuesOf(fields, "transfer-encoding") == if length > chunk then ["chunked"] else []
    ensures ValuesOf(fields, "content-length") == if length > chunk then [] else [Numeral(length, 10)]
  {
    var m := Framed(headers, length, chunk);
    assert TRANSFER_ENCODING[0] != CONTENT_LENGTH[0];
    assert ValuesOf(fields, TRANSFER_ENCODING) == Values(m, TRANSFER_ENCODING);
    assert ValuesOf(fields, CONTENT_LENGTH) == Values(m, CONTENT_LENGTH);
  }

  /** Every other header is sent with its values, `connection` and `keep-alive` among them. */
  lemma {:induction false} OtherHeadersKept(headers: HeaderMap, length: nat, chunk: nat, fields: seq<Field>, name: string)
    requires Lists(fields, Framed(headers, length, chunk)) && name != "transfer-encoding" && name != "content-length"
    ensures ValuesOf(fields, name) == Values(headers, name)
  {
    hide Numeral;
    assert ValuesOf(fields, name) == Values(Framed(headers, length, chunk), name);
  }

  /**
   * The message carries the response: its status, its whole body, and for every header outside the two
   * framing ones its values, up to the white space HTTP/1 strips.
   */
  ghost predicate Carries(m: Message, r: Response) {
    && m.status == r.status && m.body == r.body
    && forall name: string :: name != "transfer-encoding" && name != "content-length" ==>
         TrimsOf(ValuesOf(m.fields, name), Values(r.headers, name))
  }

  predicate TrimsOf(a: seq<string>, b: seq<string>) {
    |a| == |b| && forall k :: 0 <= k < |a| ==> a[k] == Trim(b[k])
  }

  lemma {:induction false} StrippedCarries(version: string, r: Response, fields: seq<Field>, chunk: nat)
    requires Lists(fields, Framed(r.headers, |r.body|, chunk))
    ensures Carries(Message(version, r.status, Stripped(fields), r.body), r)
  {
    hide Lists, Framed, Trim;
    forall name: string | name != "transfer-encoding" && name != "content-length"
      ensures TrimsOf(ValuesOf(Stripped(fields), name), Values(r.headers, name))
    {
      ValuesOfStripped(fields, name);
      OtherHeadersKept(r.headers, |r.body|, chunk, fields, name);
    }
  }

  lemma {:induction false} ValuesOfStripped(fields: seq<Field>, name: string)
    ensures |ValuesOf(Stripped(fields), name)| == |ValuesOf(fields, name)|
    ensures forall k :: 0 <= k < |ValuesOf(fields, name)| ==> ValuesOf(Stripped(fields), name)[k] == Trim(ValuesOf(fields, name)[k])
  {
    if fields != [] {
      ValuesOfStripped(fields[1..], name);
      assert Stripped(fields)[1..] == Stripped(fields[1..]);
    }
  }

  lemma {:induction false} FieldsPrintable(fields: seq<Field>, m: HeaderMap)
    requires Lists(fields, m) && PrintableMap(m)
    ensures PrintableFields(fields)
  {
    forall k | 0 <= k < |fields|
      ensures IsName(fields[k].name) && Printable(fields[k].value)
    {
      var name := fields[k].name;
      ValuesOfMember(fields, k);
      assert ValuesOf(fields, name) == Values(m, name);
    }
  }

  lemma {:induction false} FramedPrintable(headers: HeaderMap, length: nat, chunk: nat)
    requires PrintableMap(headers)
    ensures PrintableMap(Framed(headers, length, chunk))
  {
    var n := Numeral(length, 10);
    NumeralChars(length, 10);
    assert forall i :: 0 <= i < |n| ==> n[i] in n;
    assert IsName(CONTENT_LENGTH) && IsName(TRANSFER_ENCODING);
    assert Printable(CHUNKED) && Printable(n);
  }

  lemma {:induction false} TrimPlain(s: string)
    requires Trimmed(s)
    ensures Trim(s) == s
  {
    assert [] + s + [] == s;
    TrimPadded([], s, []);
  }

  lemma {:induction false} NumeralTrim(n: nat)
    ensures Trim(Numeral(n, 10)) == Numeral(n, 10)
  {
    var s := Numeral(n, 10);
    NumeralChars(n, 10);
    assert s[0] in s && s[|s| - 1] in s;
    TrimPlain(s);
  }

  lemma {:induction false} ReadBodyBack(headers: HeaderMap, fields: seq<Field>, body: string, chunk: nat, rest: string)
    requires chunk > 0 || body == []
    requires Lists(fields, Framed(headers, |body|, chunk))
    ensures ReadBody(Stripped(fields), RenderBody(body, chunk) + rest) == Some((body, rest))
  {
    hide Framed, ReadChunks, RenderChunks, Chunks, Numeral, Lists, ValuesOf, Trim;
    FramingHeader(headers, |body|, chunk, fields);
    ValuesOfStripped(fields, TRANSFER_ENCODING);
    ValuesOfStripped(fields, CONTENT_LENGTH);
    if |body| > chunk {
      TrimPlain(CHUNKED);
      assert ValuesOf(Stripped(fields), TRANSFER_ENCODING) == [CHUNKED];
      ChunksCutBody(body, chunk);
      ReadChunksBack(Chunks(body, chunk), rest);
    } else {
      NumeralTrim(|body|);
      NumeralRoundTrip(|body|, 10);
      assert ValuesOf(Stripped(fields), CONTENT_LENGTH) == [Numeral(|body|, 10)];
      assert (body + rest)[..|body|] == body && (body + rest)[|body|..] == rest;
    }
  }

  /** A client reads a response back as written, and stops exactly behind it, in whatever order its headers came. */
  lemma {:induction false} ReadMessageBack(version: string, r: Response, fields: seq<Field>, chunk: nat, rest: string)
    requires PlainVersion(version) && PrintableMap(r.headers) && (chunk > 0 || r.body == [])
    requires Lists(fields, Framed(r.headers, |r.body|, chunk))
    ensures ReadMessage(Render(version, r.status, fields, r.body, chunk) + rest)
            == Some((Message(version, r.status, Stripped(fields), r.body), rest))
    ensures Carries(Message(version, r.status, Stripped(fields), r.body), r)
  {
    hide Carries, ReadFields, ReadBody, ReadStatusLine, RenderFields, RenderBody, ReadChunks, RenderChunks, ReadUntil, ReadLine, Framed, Numeral, Lists;
    StrippedCarries(version, r, fields, chunk);
    var content := RenderBody(r.body, chunk) + rest;
    FramedPrintable(r.headers, |r.body|, chunk);
    FieldsPrintable(fields, Framed(r.headers, |r.body|, chunk));
    ReadStatusBack(version, r.status, RenderFields(fields) + "\n" + content);
    ReadFieldsBack(fields, content);
    ReadBodyBack(r.headers, fields, r.body, chunk, rest);
    var line := version + " " + Numeral(r.status, 10);
    assert Render(version, r.status, fields, r.body, chunk) + rest == line + "\n" + (RenderFields(fields) + "\n" + content);
  }
}
