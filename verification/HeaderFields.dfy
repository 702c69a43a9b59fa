/** Header maps, as the `http` crate's `HeaderMap` presents them. */
module HeaderFields {
  import opened Base

  datatype Field = Field(name: string, value: string)

  /** Every name maps to its nonempty list of values, in insertion order. */
  type HeaderMap = map<string, seq<string>>

  const CONTENT_LENGTH := "content-length"
  const TRANSFER_ENCODING := "transfer-encoding"
  const CONNECTION := "connection"
  const KEEP_ALIVE := "keep-alive"

  datatype Response = Response(status: nat, headers: HeaderMap, body: seq<byte>)

  /** The values of `name`, in the order they occur in `fields`. */
  function ValuesOf(fields: seq<Field>, name: string): seq<string> {
    if fields == [] then []
    else (if fields[0].name == name then [fields[0].value] else []) + ValuesOf(fields[1..], name)
  }

  function Values(m: HeaderMap, name: string): seq<string> {
    if name in m then m[name] else []
  }

  /** `fields` is an iteration of `m`: names in any order, the values of one name in theirs. */
  ghost predicate Lists(fields: seq<Field>, m: HeaderMap) {
    forall name: string :: ValuesOf(fields, name) == Values(m, name)
  }

  function Without(fields: seq<Field>, names: set<string>): seq<Field> {
    if fields == [] then []
    else (if fields[0].name in names then [] else [fields[0]]) + Without(fields[1..], names)
  }

  lemma {:induction false} ValuesOfWithout(fields: seq<Field>, names: set<string>, name: string)
    ensures ValuesOf(Without(fields, names), name) == if name in names then [] else ValuesOf(fields, name)
  {
    if fields != [] {
      ValuesOfWithout(fields[1..], names, name);
      var tail := Without(fields[1..], names);
      if fields[0].name !in names {
        assert ([fields[0]] + tail)[1..] == tail;
      } else {
        assert [] + tail == tail;
      }
    }
  }

  lemma {:induction false} ValuesOfAppend(a: seq<Field>, b: seq<Field>, name: string)
    ensures ValuesOf(a + b, name) == ValuesOf(a, name) + ValuesOf(b, name)
  {
    if a == [] {
      assert a + b == b;
    } else {
      ValuesOfAppend(a[1..], b, name);
      assert (a + b)[1..] == a[1..] + b;
      var head := if a[0].name == name then [a[0].value] else [];
      Associative(head, ValuesOf(a[1..], name), ValuesOf(b, name));
    }
  }

  lemma {:induction false} ValuesOfMember(fields: seq<Field>, k: nat)
    requires k < |fields|
    ensures fields[k].value in ValuesOf(fields, fields[k].name)
  {
    if k > 0 {
      ValuesOfMember(fields[1..], k - 1);
    }
  }

  // --- Iteration ------------------------------------------------------------

  function FieldsOf(name: string, values: seq<string>): seq<Field> {
    if values == [] then [] else [Field(name, values[0])] + FieldsOf(name, values[1..])
  }

  lemma {:induction false} ValuesOfFields(name: string, values: seq<string>, n: string)
    ensures ValuesOf(FieldsOf(name, values), n) == if n == name then values else []
  {
    if values != [] {
      ValuesOfFields(name, values[1..], n);
      assert FieldsOf(name, values)[1..] == FieldsOf(name, values[1..]);
      assert [values[0]] + values[1..] == values;
    }
  }

  /** `fields` lists the part of `m` whose names are not in `todo`. */
  ghost predicate ListsBut(fields: seq<Field>, m: HeaderMap, todo: set<string>) {
    forall name: string :: ValuesOf(fields, name) == if name in todo then [] else Values(m, name)
  }

  lemma {:induction false} ListNext(fields: seq<Field>, m: HeaderMap, todo: set<string>, name: string)
    requires ListsBut(fields, m, todo) && name in todo && todo <= m.Keys
    ensures ListsBut(fields + FieldsOf(name, m[name]), m, todo - {name})
  {
    forall n: string
      ensures ValuesOf(fields + FieldsOf(name, m[name]), n) == if n in todo - {name} then [] else Values(m, n)
    {
      ValuesOfAppend(fields, FieldsOf(name, m[name]), n);
      ValuesOfFields(name, m[name], n);
      assert ValuesOf(fields, n) == if n in todo then [] else Values(m, n);
      assert [] + Values(m, n) == Values(m, n) && Values(m, n) + [] == Values(m, n);
    }
  }

  /** Iterating a header map: names in whatever order the map yields them. */
  method Iterate(m: HeaderMap) returns (listing: seq<Field>)
    ensures Lists(listing, m)
  {
    listing := [];
    var todo := m.Keys;
    while todo != {}
      invariant todo <= m.Keys
      invariant ListsBut(listing, m, todo)
      decreases |todo|
    {
      var name :| name in todo;
      ListNext(listing, m, todo, name);
      listing := listing + FieldsOf(name, m[name]);
      todo := todo - {name};
    }
    Listed(listing, m);
  }

  lemma {:induction false} Listed(fields: seq<Field>, m: HeaderMap)
    requires ListsBut(fields, m, {})
    ensures Lists(fields, m)
  {
    forall name: string
      ensures ValuesOf(fields, name) == Values(m, name)
    {
      assert ValuesOf(fields, name) == if name in {} then [] else Values(m, name);
    }
  }

  /** Any header map can be iterated. */
  lemma {:induction false} ListingExists(m: HeaderMap, todo: set<string>) returns (fields: seq<Field>)
    requires todo <= m.Keys
    ensures ListsBut(fields, m, m.Keys - todo)
    decreases |todo|
  {
    if todo == {} {
      fields := [];
    } else {
      var name :| name in todo;
      var rest := ListingExists(m, todo - {name});
      ListNext(rest, m, m.Keys - (todo - {name}), name);
      fields := rest + FieldsOf(name, m[name]);
      assert m.Keys - (todo - {name}) - {name} == m.Keys - todo;
    }
  }
}
