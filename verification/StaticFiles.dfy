/** The path a request for a static file is served from. */
module StaticFiles {
  import opened Base

  const UP: string := ".."
  const INDEX: string := "index.html"

  // --- Components -----------------------------------------------------------

  /** The pieces between slashes. */
  function Split(path: string): (pieces: seq<string>)
    ensures pieces != [] && forall k :: 0 <= k < |pieces| ==> '/' !in pieces[k]
  {
    if path == [] then [[]]
    else if path[0] == '/' then [[]] + Split(path[1..])
    else var rest := Split(path[1..]); [[path[0]] + rest[0]] + rest[1..]
  }

  function Join(pieces: seq<string>): string {
    if pieces == [] then [] else if |pieces| == 1 then pieces[0] else pieces[0] + "/" + Join(pieces[1..])
  }

  /** Splitting loses nothing: the pieces joined by slashes are the path. */
  lemma {:induction false} SplitJoins(path: string)
    ensures Join(Split(path)) == path
  {
    hide Join;
    if path == [] {
      JoinOne([]);
    } else {
      SplitJoins(path[1..]);
      var rest := Split(path[1..]);
      assert [path[0]] + path[1..] == path;
      if path[0] == '/' {
        JoinMore([], rest);
      } else {
        JoinLonger(path[0], rest);
      }
    }
  }

  lemma {:induction false} JoinOne(piece: string)
    ensures Join([piece]) == piece
  {}

  lemma {:induction false} JoinMore(piece: string, rest: seq<string>)
    requires rest != []
    ensures Join([piece] + rest) == piece + "/" + Join(rest)
  {
    assert ([piece] + rest)[1..] == rest;
  }

  lemma {:induction false} JoinLonger(c: char, pieces: seq<string>)
    requires pieces != []
    ensures Join([[c] + pieces[0]] + pieces[1..]) == [c] + Join(pieces)
  {
    if |pieces| == 1 {
      assert [[c] + pieces[0]] + pieces[1..] == [[c] + pieces[0]];
    } else {
      JoinMore([c] + pieces[0], pieces[1..]);
      assert pieces == [pieces[0]] + pieces[1..];
      Associative([c], pieces[0], "/");
      Associative([c], pieces[0] + "/", Join(pieces[1..]));
    }
  }

  /** Empty pieces do not count, and `.` counts only at the very beginning of a relative path. */
  function Kept(pieces: seq<string>): (components: seq<string>)
    ensures forall c :: c in components ==> c in pieces && c != [] && c != "."
  {
    if pieces == [] then []
    else (if pieces[0] == [] || pieces[0] == "." then [] else [pieces[0]]) + Kept(pieces[1..])
  }

  /** `Path::components` of a path without a leading slash. */
  function Components(path: string): (components: seq<string>)
    ensures forall c :: c in components ==> c != [] && '/' !in c
  {
    var pieces := Split(path);
    (if pieces[0] == "." then ["."] else []) + Kept(pieces)
  }

  predicate Counts(piece: string) {
    piece != "" && piece != "."
  }

  /** The components are the pieces that count, each in its place. */
  lemma {:induction false} KeptAt(pieces: seq<string>) returns (at: seq<nat>)
    ensures |at| == |Kept(pieces)|
    ensures forall j, k :: 0 <= j < k < |at| ==> at[j] < at[k]
    ensures forall k :: 0 <= k < |at| ==> at[k] < |pieces| && Counts(pieces[at[k]]) && Kept(pieces)[k] == pieces[at[k]]
    ensures forall i :: 0 <= i < |pieces| && Counts(pieces[i]) ==> i in at
  {
    hide Kept, Counts;
    if pieces == [] {
      KeptOne([]);
      at := [];
    } else {
      var n := |pieces| - 1;
      at := KeptAt(pieces[..n]);
      assert pieces == pieces[..n] + [pieces[n]];
      KeptAppend(pieces[..n], [pieces[n]]);
      KeptOne(pieces[n..]);
      assert pieces[n..] == [pieces[n]];
      assert forall i :: 0 <= i < n ==> pieces[..n][i] == pieces[i];
      if Counts(pieces[n]) {
        assert (at + [n])[|at|] == n && forall i :: i in at ==> i in at + [n];
        at := at + [n];
      }
    }
  }

  lemma {:induction false} KeptOne(pieces: seq<string>)
    ensures pieces == [] ==> Kept(pieces) == []
    ensures |pieces| == 1 ==> Kept(pieces) == if Counts(pieces[0]) then pieces else []
  {}

  predicate AllCount(pieces: seq<string>) {
    forall k :: 0 <= k < |pieces| ==> Counts(pieces[k]) && '/' !in pieces[k]
  }

  lemma {:induction false} KeptAppend(a: seq<string>, b: seq<string>)
    ensures Kept(a + b) == Kept(a) + Kept(b)
  {
    if a == [] {
      assert a + b == b;
    } else {
      KeptAppend(a[1..], b);
      assert (a + b)[1..] == a[1..] + b;
      Associative(if a[0] == [] || a[0] == "." then [] else [a[0]], Kept(a[1..]), Kept(b));
    }
  }

  lemma {:induction false} KeptAll(pieces: seq<string>)
    requires AllCount(pieces)
    ensures Kept(pieces) == pieces
  {
    if pieces != [] {
      assert forall k :: 0 <= k < |pieces| - 1 ==> pieces[1..][k] == pieces[k + 1];
      assert Counts(pieces[0]);
      KeptAll(pieces[1..]);
    }
  }

  /** Joining pieces without slashes and splitting again is the identity. */
  lemma {:induction false} JoinSplits(pieces: seq<string>)
    requires pieces != [] && forall k :: 0 <= k < |pieces| ==> '/' !in pieces[k]
    ensures Split(Join(pieces)) == pieces
  {
    hide Split;
    if |pieces| == 1 {
      SplitPiece(pieces[0]);
      assert pieces == [pieces[0]];
    } else {
      assert forall k :: 0 <= k < |pieces| - 1 ==> pieces[1..][k] == pieces[k + 1];
      JoinSplits(pieces[1..]);
      SplitAtSlash(pieces[0], Join(pieces[1..]));
      assert pieces == [pieces[0]] + pieces[1..];
    }
  }

  lemma {:induction false} SplitPiece(piece: string)
    requires '/' !in piece
    ensures Split(piece) == [piece]
  {
    if piece != [] {
      SplitPiece(piece[1..]);
      assert [piece[0]] + piece[1..] == piece;
    }
  }

  lemma {:induction false} SplitAtSlash(piece: string, rest: string)
    requires '/' !in piece
    ensures Split(piece + "/" + rest) == [piece] + Split(rest)
  {
    var path := piece + "/" + rest;
    if piece == [] {
      assert path[1..] == rest;
    } else {
      SplitAtSlash(piece[1..], rest);
      assert path[1..] == piece[1..] + "/" + rest;
      assert [piece[0]] + piece[1..] == piece;
    }
  }

  /** The components of a path are the pieces it was joined from. */
  lemma {:induction false} ComponentsJoined(cs: seq<string>)
    requires cs != [] && AllCount(cs)
    ensures Components(Join(cs)) == cs
  {
    JoinSplits(cs);
    KeptAll(cs);
    assert Counts(cs[0]);
  }

  /** An empty piece, or one that is a dot, put in behind the first piece changes nothing. */
  lemma {:induction false} EmptyPieceIgnored(a: seq<string>, piece: string, b: seq<string>)
    requires a != [] && (piece == "" || piece == ".")
    requires (forall k :: 0 <= k < |a| ==> '/' !in a[k]) && forall k :: 0 <= k < |b| ==> '/' !in b[k]
    ensures Components(Join(a + [piece] + b)) == Components(Join(a + b))
  {
    hide Split, Join, Kept;
    JoinSplits(a + [piece] + b);
    JoinSplits(a + b);
    KeptAppend(a + [piece], b);
    KeptAppend(a, [piece]);
    KeptAppend(a, b);
    NothingKept(piece);
    assert Kept(a) + [] == Kept(a);
  }

  /** A dot counts only as the very first piece. */
  lemma {:induction false} LeadingDotKept(cs: seq<string>)
    requires AllCount(cs)
    ensures Components(Join(["."] + cs)) == ["."] + cs
    ensures Components("") == []
  {
    hide Split, Join, Kept;
    JoinSplits(["."] + cs);
    KeptAppend(["."], cs);
    NothingKept(".");
    KeptAll(cs);
    SplitPiece("");
    NothingKept("");
    assert [] + cs == cs;
  }

  lemma {:induction false} NothingKept(piece: string)
    requires piece == "" || piece == "."
    ensures Kept([piece]) == []
  {}

  function TrimSlashes(path: string): string {
    if path != [] && path[0] == '/' then TrimSlashes(path[1..]) else path
  }

  /** The part of a URI before the first question mark. */
  function UriPath(uri: string): string {
    if uri == [] || uri[0] == '?' then [] else [uri[0]] + UriPath(uri[1..])
  }

  lemma {:induction false} UriPathEndsAtQuery(uri: string)
    ensures UriPath(uri) <= uri && '?' !in UriPath(uri)
    ensures UriPath(uri) == uri || uri[|UriPath(uri)|] == '?'
  {
    if uri != [] && uri[0] != '?' {
      UriPathEndsAtQuery(uri[1..]);
      assert [uri[0]] + uri[1..] == uri;
    }
  }

  /** The request path below the configured prefix, if it has that prefix. */
  function Below(path: string, prefix: Option<string>): string {
    TrimSlashes(if prefix.Some? && prefix.value <= path then path[|prefix.value|..] else path)
  }

  /**
   * Below the prefix, if the path has it, and below the slashes after that: what is left begins with no slash,
   * and nothing else is taken off.
   */
  lemma {:induction false} BelowExactly(path: string, prefix: Option<string>) returns (slashes: nat)
    ensures var taken := if prefix.Some? && prefix.value <= path then prefix.value else "";
            path == taken + seq(slashes, _ => '/') + Below(path, prefix)
    ensures Below(path, prefix) != [] ==> Below(path, prefix)[0] != '/'
  {
    hide TrimSlashes;
    var taken := if prefix.Some? && prefix.value <= path then prefix.value else "";
    var left := path[|taken|..];
    slashes := TrimmedSlashes(left);
    assert path == taken + left && path[0..] == path;
    Associative(taken, seq(slashes, _ => '/'), TrimSlashes(left));
  }

  lemma {:induction false} TrimmedSlashes(path: string) returns (slashes: nat)
    ensures path == seq(slashes, _ => '/') + TrimSlashes(path)
    ensures TrimSlashes(path) != [] ==> TrimSlashes(path)[0] != '/'
  {
    if path != [] && path[0] == '/' {
      var more := TrimmedSlashes(path[1..]);
      slashes := more + 1;
      assert seq(slashes, _ => '/') == ['/'] + seq(more, _ => '/');
      assert path == ['/'] + path[1..];
    } else {
      slashes := 0;
      assert seq(0, _ => '/') + path == path;
    }
  }

  // --- The stack machine ----------------------------------------------------

  /** One component: `..` takes the last one off, if there is one, and any other is added. */
  function Push(stack: seq<string>, c: string): seq<string> {
    if c != UP then stack + [c]
    else if stack == [] then []
    else stack[..|stack| - 1]
  }

  function Walk(components: seq<string>): seq<string> {
    if components == [] then []
    else Push(Walk(components[..|components| - 1]), components[|components| - 1])
  }

  // --- What it computes -----------------------------------------------------

  /** How much deeper the components from `i` to `j` lead. */
  function Depth(cs: seq<string>, i: nat, j: nat): int
    requires i <= j <= |cs|
  {
    if i == j then 0 else Depth(cs, i, j - 1) + if cs[j - 1] == ".." then -1 else 1
  }

  /** No window that starts at `i` goes up more than down. */
  predicate Unclimbed(cs: seq<string>, i: nat)
    requires i <= |cs|
  {
    forall j :: i <= j <= |cs| ==> Depth(cs, i, j) >= 0
  }

  /** Nothing after component `i` climbs back over it. */
  predicate Survives(cs: seq<string>, i: nat)
    requires i < |cs|
  {
    cs[i] != ".." && Unclimbed(cs, i + 1)
  }

  /** The surviving components from `i` on, in order. */
  function Survivors(cs: seq<string>, i: nat): seq<string>
    requires i <= |cs|
    decreases |cs| - i
  {
    if i == |cs| then [] else (if Survives(cs, i) then [cs[i]] else []) + Survivors(cs, i + 1)
  }

  lemma {:induction false} DepthPrefix(cs: seq<string>, c: string, i: nat, j: nat)
    requires i <= j <= |cs|
    ensures Depth(cs + [c], i, j) == Depth(cs, i, j)
    decreases j
  {
    if i < j {
      DepthPrefix(cs, c, i, j - 1);
    }
  }

  lemma {:induction false} DepthSplit(cs: seq<string>, i: nat, k: nat, j: nat)
    requires i <= k <= j <= |cs|
    ensures Depth(cs, i, j) == Depth(cs, i, k) + Depth(cs, k, j)
    decreases j
  {
    if k < j {
      DepthSplit(cs, i, k, j - 1);
    }
  }

  /** From behind a survivor on, the number of survivors is the depth reached. */
  lemma {:induction false} SurvivorsCount(cs: seq<string>, i: nat)
    requires i <= |cs| && Unclimbed(cs, i)
    ensures |Survivors(cs, i)| == Depth(cs, i, |cs|)
    decreases |cs| - i
  {
    if i < |cs| {
      assert Depth(cs, i, i) == 0;
      assert cs[i] != UP by { assert Depth(cs, i, i + 1) >= 0; }
      assert Depth(cs, i, i + 1) == 1;
      if Survives(cs, i) {
        SurvivorsCount(cs, i + 1);
        DepthSplit(cs, i, i + 1, |cs|);
      } else {
        var m := Climb(cs, i);
        SkipTo(cs, i, m);
        forall j | m <= j <= |cs|
          ensures Depth(cs, m, j) >= 0
        {
          DepthSplit(cs, i, m, j);
        }
        SurvivorsCount(cs, m);
        DepthSplit(cs, i, m, |cs|);
      }
    }
  }

  /** Where a component that does not survive is climbed over for the first time. */
  lemma {:induction false} Climb(cs: seq<string>, i: nat) returns (m: nat)
    requires i < |cs| && cs[i] != UP && !Survives(cs, i)
    requires Unclimbed(cs, i)
    ensures i < m <= |cs| && Depth(cs, i, m) == 0
    ensures forall k :: i < k < m ==> Depth(cs, i, k) > 0
  {
    m := i + 1;
    assert Depth(cs, i, i + 1) == 1 by { assert Depth(cs, i, i) == 0; }
    var bad: nat :| i < bad <= |cs| && Depth(cs, i + 1, bad) < 0;
    DepthSplit(cs, i, i + 1, bad);
    while Depth(cs, i, m) > 0
      invariant i < m <= bad
      invariant forall k :: i < k < m ==> Depth(cs, i, k) > 0
      decreases bad - m
    {
      m := m + 1;
    }
  }

  /** No component before the point where the depth is back survives. */
  lemma {:induction false} SkipTo(cs: seq<string>, i: nat, m: nat)
    requires i < m <= |cs| && Depth(cs, i, m) == 0
    requires forall k :: i < k < m ==> Depth(cs, i, k) > 0
    ensures Survivors(cs, i) == Survivors(cs, m)
  {
    var k := m;
    while k > i
      invariant i <= k <= m
      invariant Survivors(cs, k) == Survivors(cs, m)
    {
      k := k - 1;
      DepthSplit(cs, i, k, m);
      DepthSplit(cs, k, k + 1, m);
      assert Depth(cs, k, k) == 0 && Depth(cs, i, i) == 0;
      assert !Survives(cs, k) by {
        if cs[k] != UP {
          assert Depth(cs, k, k + 1) == 1;
          assert Depth(cs, k + 1, m) < 0;
          assert k < m;
        }
      }
    }
  }

  /** A component that is not `..` ends up on top. */
  lemma {:induction false} SurvivorsPush(cs: seq<string>, c: string, i: nat)
    requires i <= |cs| && c != UP
    ensures Survivors(cs + [c], i) == Survivors(cs, i) + [c]
    decreases |cs| - i
  {
    var ds := cs + [c];
    if i == |cs| {
      assert Depth(ds, i + 1, i + 1) == 0;
      assert Survives(ds, i);
      assert Survivors(ds, i + 1) == [];
    } else {
      SurvivorsPush(cs, c, i + 1);
      var k := i + 1;
      forall j | k <= j <= |cs|
        ensures Depth(ds, k, j) == Depth(cs, k, j)
      {
        DepthPrefix(cs, c, k, j);
      }
      assert Depth(ds, k, |ds|) == Depth(ds, k, |cs|) + 1;
      assert Survives(ds, i) <==> Survives(cs, i);
    }
  }

  /** And `..` takes off exactly the last survivor. */
  lemma {:induction false} SurvivorsPop(cs: seq<string>, i: nat)
    requires i <= |cs|
    ensures Survivors(cs + [UP], i) == Push(Survivors(cs, i), UP)
    decreases |cs| - i
  {
    var ds := cs + [UP];
    if i == |cs| {
      assert !Survives(ds, i);
      assert Survivors(ds, i + 1) == [];
    } else {
      SurvivorsPop(cs, i + 1);
      var k := i + 1;
      forall j | k <= j <= |cs|
        ensures Depth(ds, k, j) == Depth(cs, k, j)
      {
        DepthPrefix(cs, UP, k, j);
      }
      assert Depth(ds, k, |ds|) == Depth(ds, k, |cs|) - 1;
      assert Survives(ds, i) <==> Survives(cs, i) && Depth(cs, i + 1, |cs|) > 0;
      if Survives(cs, i) {
        SurvivorsCount(cs, i + 1);
        if Survivors(cs, i + 1) == [] {
          assert [cs[i]] + [] == [cs[i]];
        } else {
          var tail := Survivors(cs, i + 1);
          assert ([cs[i]] + tail)[..|tail|] == [cs[i]] + tail[..|tail| - 1];
        }
      }
    }
  }

  /**
   * The normalised path is exactly the subsequence of the components that nothing after them climbs
   * back over.
   */
  lemma {:induction false} WalkIsSurvivors(cs: seq<string>)
    ensures Walk(cs) == Survivors(cs, 0)
  {
    if cs != [] {
      var n := |cs| - 1;
      WalkIsSurvivors(cs[..n]);
      assert cs[..n] + [cs[n]] == cs;
      if cs[n] == UP { SurvivorsPop(cs[..n], 0); } else { SurvivorsPush(cs[..n], cs[n], 0); }
    }
  }

  /** No survivor is `..`, and all of them are components of the request. */
  lemma {:induction false} SurvivorsClean(cs: seq<string>, i: nat)
    requires i <= |cs|
    ensures forall c :: c in Survivors(cs, i) ==> c != UP && c in cs
    decreases |cs| - i
  {
    if i < |cs| {
      SurvivorsClean(cs, i + 1);
    }
  }

  /** The loop over the components, which pushes and pops a path. */
  method Normalise(components: seq<string>) returns (stack: seq<string>)
    ensures stack == Survivors(components, 0)
  {
    hide Survivors;
    stack := [];
    for i := 0 to |components|
      invariant stack == Walk(components[..i])
    {
      WalkNext(components, i);
      if components[i] == UP {
        if stack != [] {
          stack := stack[..|stack| - 1];
        }
      } else {
        stack := stack + [components[i]];
      }
    }
    assert components[..|components|] == components;
    WalkIsSurvivors(components);
  }

  lemma {:induction false} WalkNext(cs: seq<string>, i: nat)
    requires i < |cs|
    ensures Walk(cs[..i + 1]) == Push(Walk(cs[..i]), cs[i])
  {
    assert cs[..i + 1][..i] == cs[..i];
  }

  /** The URI is the prefix, if one is configured, a slash, and these components, perhaps with a query. */
  ghost predicate AsksFor(uri: string, prefix: Option<string>, cs: seq<string>) {
    && cs != [] && AllCount(cs) && (forall k :: 0 <= k < |cs| ==> '?' !in cs[k])
    && (prefix.Some? ==> '?' !in prefix.value)
    && exists query: string ::
         (query != [] ==> query[0] == '?') && uri == (if prefix.Some? then prefix.value else "") + ("/" + Join(cs)) + query
  }

  /** Such a request is served from the components asked for that nothing behind them climbs back over. */
  lemma {:induction false} ServedBelow(uri: string, prefix: Option<string>, cs: seq<string>)
    requires AsksFor(uri, prefix, cs)
    ensures Components(Below(UriPath(uri), prefix)) == cs
  {
    hide Components, Join, UriPath;
    var lead := if prefix.Some? then prefix.value else "";
    var query: string :| (query != [] ==> query[0] == '?') && uri == lead + ("/" + Join(cs)) + query;
    JoinedPlain(cs);
    UriPathOf(lead + ("/" + Join(cs)), query);
    assert (lead + ("/" + Join(cs)))[|lead|..] == "/" + Join(cs);
    assert TrimSlashes("/" + Join(cs)) == Join(cs) by {
      assert ("/" + Join(cs))[1..] == Join(cs);
    }
    ComponentsJoined(cs);
  }

  /** What is configured: a directory to serve from, or a single file. */
  datatype PathKind = Dir(path: seq<string>) | File(path: seq<string>)

  /** The final path: a configured file as it is, or the configured directory and below it the components served. */
  method Resolve(configured: PathKind, uri: string, prefix: Option<string>) returns (final: seq<string>)
    ensures configured.File? ==> final == configured.path
    ensures configured.Dir? ==>
              var kept := Survivors(Components(Below(UriPath(uri), prefix)), 0);
              && final == configured.path + (if kept == [] then ["index.html"] else kept)
              && configured.path <= final && |final| > |configured.path|
              && forall k :: |configured.path| <= k < |final| ==> Plain(final[k])
    ensures configured.Dir? ==> forall cs :: AsksFor(uri, prefix, cs) ==>
              final == configured.path + if Survivors(cs, 0) == [] then ["index.html"] else Survivors(cs, 0)
  {
    hide Survivors, Components, Below, UriPath, AsksFor;
    forall cs | AsksFor(uri, prefix, cs)
      ensures Components(Below(UriPath(uri), prefix)) == cs
    {
      ServedBelow(uri, prefix, cs);
    }
    if configured.File? {
      return configured.path;
    }
    var dir := configured.path;
    var components := Components(Below(UriPath(uri), prefix));
    var stack := Normalise(components);
    SurvivorsClean(components, 0);
    assert forall c :: c in stack ==> Plain(c);
    if stack == [] {
      stack := [INDEX];
    }
    final := dir + stack;
    PlainBelow(dir, stack);
  }

  lemma {:induction false} JoinedPlain(cs: seq<string>)
    requires cs != [] && AllCount(cs) && forall k :: 0 <= k < |cs| ==> '?' !in cs[k]
    ensures '?' !in Join(cs) && Join(cs) != [] && Join(cs)[0] != '/'
  {
    assert Counts(cs[0]) && cs[0][0] in cs[0];
    if |cs| > 1 {
      assert forall k :: 0 <= k < |cs| - 1 ==> cs[1..][k] == cs[k + 1];
      JoinedPlain(cs[1..]);
    }
  }

  lemma {:induction false} UriPathOf(path: string, query: string)
    requires '?' !in path && (query != [] ==> query[0] == '?')
    ensures UriPath(path + query) == path
  {
    if path == [] {
      assert path + query == query;
    } else {
      UriPathOf(path[1..], query);
      assert (path + query)[1..] == path[1..] + query;
      assert [path[0]] + path[1..] == path;
    }
  }

  predicate Plain(c: string) {
    c != ".." && c != [] && '/' !in c
  }

  lemma {:induction false} PlainBelow(dir: seq<string>, stack: seq<string>)
    requires stack != [] && forall c :: c in stack ==> Plain(c)
    ensures dir <= dir + stack && |dir + stack| > |dir|
    ensures forall k :: |dir| <= k < |dir + stack| ==> Plain((dir + stack)[k])
  {
    forall k | |dir| <= k < |dir + stack|
      ensures Plain((dir + stack)[k])
    {
      assert (dir + stack)[k] == stack[k - |dir|];
    }
  }
}
