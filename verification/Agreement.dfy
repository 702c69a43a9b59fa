/** What the two writers, and the writer and the reader, have to agree on. */
module Agreement {
  import opened Base
  import opened HeaderFields
  import opened Http1Text
  import Reader = Http1Read
  import Writer = Http1Write
  import opened Http2Frame
  import opened Http2Conn
  import opened Http2Output

  /** A reply has one status, no connection-specific header, and every other header with its values. */
  lemma {:induction false} StatusFirst(r: Response, reply: Reply)
    requires Tells(reply, r) && ":status" !in r.headers
    ensures ValuesOf(reply.fields, ":status") == [Numeral(r.status, 10)]
    ensures forall name: string :: name != ":status" ==>
              ValuesOf(reply.fields, name) == if ConnectionSpecific(name) then [] else Values(r.headers, name)
  {
    hide Numeral;
    forall name: string
      ensures ValuesOf(reply.fields, name)
              == (if name == ":status" then [Numeral(r.status, 10)] else []) + if ConnectionSpecific(name) then [] else Values(r.headers, name)
    {
      assert ValuesOf(reply.fields[1..], name) == if ConnectionSpecific(name) then [] else Values(r.headers, name);
    }
  }

  /** The headers on which a response legitimately differs between the protocol versions. */
  predicate IsFraming(name: string) {
    name == "content-length" || name == "transfer-encoding" || name == "connection" || name == "keep-alive" || name == ":status"
  }

  /**
   * For one and the same response, whatever the chunk sizes, the iteration orders and the header
   * compression: an HTTP/1 client and an HTTP/2 client recover the same status and the same body, and for
   * every header outside the framing ones the same values, up to the white space HTTP/1 strips. The
   * HTTP/2 client gets its frames from the octets exactly when the header block fits its frame.
   */
  lemma {:induction false} WritersAgree<E(!new), D(!new)>(
    r: Response, version: string, chunk1: nat, listing1: seq<Field>, rest: string,
    codec: Codec<E, D>, inStep: (E, D) -> bool, e: E, d: D, id: nat, chunk2: nat, listing2: seq<Field>)
    returns (m: Writer.Message, reply: Reply)
    requires Writer.PlainVersion(version) && Writer.PrintableMap(r.headers) && 0 < chunk1
    requires Lists(listing1, Writer.Framed(r.headers, |r.body|, chunk1))
    requires Lockstep(codec, inStep) && inStep(e, d) && Lists(listing2, r.headers)
    requires 0 < chunk2 < 0x100_0000 && id < 0x8000_0000
    ensures Writer.ReadMessage(Writer.Render(version, r.status, listing1, r.body, chunk1) + rest) == Some((m, rest))
    ensures var frames := ReplyFrames(id, codec.encode(e, ReplyFields(r, listing2)).0, r.body, chunk2);
            && Demux(codec, d, frames).Some? && Demux(codec, d, frames).value.0 == [reply]
            && (ParseAll(EncodedAll(frames)) == (frames, []) <==> |codec.encode(e, ReplyFields(r, listing2)).0| < 0x100_0000)
    ensures m.version == version && Writer.Carries(m, r) && reply.id == id && Tells(reply, r)
    ensures m.body == reply.body == r.body
    ensures |ValuesOf(reply.fields, ":status")| == 1 && ParseNumeral(ValuesOf(reply.fields, ":status")[0], 10) == Some(m.status)
    ensures forall name: string :: !IsFraming(name) ==> Writer.TrimsOf(ValuesOf(m.fields, name), ValuesOf(reply.fields, name))
  {
    hide Writer.ReadMessage, Writer.Render, Demux, ParseAll, EncodedAll, ReplyFrames, ReplyFields, Lockstep, Lists, Numeral, Trim,
    Writer.Framed, Writer.TrimsOf;
    Writer.ReadMessageBack(version, r, listing1, chunk1, rest);
    m := Writer.Message(version, r.status, Writer.Stripped(listing1), r.body);
    var d' := ReplyDemux(codec, inStep, e, d, ReplyFields(r, listing2), id, r.body, chunk2);
    EncodedReadBack(ReplyFrames(id, codec.encode(e, ReplyFields(r, listing2)).0, r.body, chunk2));
    reply := Reply(id, ReplyFields(r, listing2), r.body);
    NumeralRoundTrip(r.status, 10);
    assert !IsName(":status") by { assert !IsNameChar(":status"[0]); }
    ReplyTells(id, r, listing2);
    StatusFirst(r, reply);
    forall name: string | !IsFraming(name)
      ensures Writer.TrimsOf(ValuesOf(m.fields, name), ValuesOf(reply.fields, name))
    {
      assert ValuesOf(reply.fields, name) == Values(r.headers, name);
    }
  }

  // --- The request reader on the response writer's header text --------------

  /** Printed fields, as the wire form the request reader is specified on. */
  function AsWire(fields: seq<Field>): (ws: seq<Reader.WireField>)
    ensures |ws| == |fields|
    ensures forall k :: 0 <= k < |fields| ==> ws[k] == Reader.WireField(fields[k].name, " ", fields[k].value, [])
  {
    seq(|fields|, k requires 0 <= k < |fields| => Reader.WireField(fields[k].name, " ", fields[k].value, []))
  }

  lemma {:induction false} PrintedIsSerialised(fields: seq<Field>)
    ensures Writer.RenderFields(fields) == Reader.SerialiseFields(AsWire(fields))
  {
    if fields != [] {
      PrintedIsSerialised(fields[1..]);
      assert AsWire(fields)[1..] == AsWire(fields[1..]);
      assert Reader.SerialiseField(AsWire(fields)[0]) == fields[0].name + ": " + fields[0].value + "\n";
    }
  }

  lemma {:induction false} LowerName(name: string)
    requires IsName(name)
    ensures Lower(name) == name
  {
    forall i | 0 <= i < |name|
      ensures LowerChar(name[i]) == name[i]
    {
      assert IsNameChar(name[i]);
    }
  }

  lemma {:induction false} LastPrinted(fields: seq<Field>, name: string)
    requires Writer.PrintableFields(fields) && NoCapitals(name)
    ensures var vs := ValuesOf(fields, name);
            Reader.LastValue(AsWire(fields), name) == if vs == [] then None else Some(vs[|vs| - 1])
    decreases |fields|
  {
    hide Writer.Printable, IsName, Lower, SameLetters;
    if fields != [] {
      var n := |fields| - 1;
      var f := fields[n];
      LastPrinted(fields[..n], name);
      LowerName(f.name);
      LowerIsSame(f.name, name);
      assert AsWire(fields)[..n] == AsWire(fields[..n]);
      assert fields[..n] + [f] == fields;
      ValuesOfAppend(fields[..n], [f], name);
      assert ValuesOf([f], name) == if f.name == name then [f.value] else [];
    }
  }

  /**
   * The request reader, applied to the header text of the response writer, stops at the first octet of
   * the body and gets the same header map, whatever order the headers were printed in. Of a name with
   * several values it keeps the last.
   */
  lemma {:induction false} ReaderReadsPrinted(m: HeaderMap, fields: seq<Field>, rest: string)
    requires Lists(fields, m) && Writer.PrintableMap(m)
    requires forall name :: name in m ==> forall k :: 0 <= k < |m[name]| ==> Trimmed(m[name][k])
    ensures var r := Reader.ReadHeaders(Writer.RenderFields(fields) + "\n" + rest, Reader.Head(map[], None));
            && r.Ok? && r.value.1 == rest
            && (forall name: string :: Values(r.value.0.headers, name) == if name in m then [m[name][|m[name]| - 1]] else [])
            && ((forall name :: name in m ==> |m[name]| == 1) ==> forall name: string :: Values(r.value.0.headers, name) == Values(m, name))
  {
    hide Reader.ReadHeaders, Writer.RenderFields, Reader.SerialiseFields, Reader.LastWins, Reader.LastValue, Lower;
    Writer.FieldsPrintable(fields, m);
    PrintedIsSerialised(fields);
    var ws := AsWire(fields);
    forall k | 0 <= k < |ws|
      ensures Reader.GoodField(ws[k])
    {
      GoodPrinted(m, fields, k);
    }
    Reader.ReadHeadersBack(ws, false, Reader.Head(map[], None), rest);
    var h := Reader.HeadOf(ws);
    forall name: string
      ensures Values(h.headers, name) == if name in m then [m[name][|m[name]| - 1]] else []
    {
      Reader.HeadHoldsLast(ws, name);
      if NoCapitals(name) {
        LastPrinted(fields, name);
      } else {
        NameLower(m, name);
      }
      assert ValuesOf(fields, name) == Values(m, name);
    }
  }

  lemma {:induction false} NameLower(m: HeaderMap, name: string)
    requires Writer.PrintableMap(m) && !NoCapitals(name)
    ensures name !in m
  {
    var i :| 0 <= i < |name| && 'A' <= name[i] <= 'Z';
    assert !IsNameChar(name[i]);
  }

  lemma {:induction false} GoodPrinted(m: HeaderMap, fields: seq<Field>, k: nat)
    requires Lists(fields, m) && Writer.PrintableFields(fields) && k < |fields|
    requires forall name :: name in m ==> forall j :: 0 <= j < |m[name]| ==> Trimmed(m[name][j])
    ensures Reader.GoodField(AsWire(fields)[k])
  {
    var f := fields[k];
    LowerName(f.name);
    ValuesOfMember(fields, k);
    assert ValuesOf(fields, f.name) == Values(m, f.name);
    assert Writer.Printable(f.value);
  }
}
