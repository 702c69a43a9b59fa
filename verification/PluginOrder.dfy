/**
 * The order in which plugins are loaded, and the order in which their handlers run: the plugin list
 * names one plugin a line, and a line may require a plugin named on a later one.
 */
module PluginOrder {
  import opened Base

  datatype Line = Line(name: string, requirement: Option<string>)

  /** The place of the line with this name, or the number of lines when there is none. */
  function Place(lines: seq<Line>, name: string): (p: nat)
    ensures p <= |lines|
    ensures p < |lines| ==> lines[p].name == name
    ensures forall j :: 0 <= j < p ==> lines[j].name != name
  {
    if lines == [] || lines[0].name == name then 0 else 1 + Place(lines[1..], name)
  }

  /** Names are distinct, and every requirement is the name of one later line that itself requires nothing. */
  ghost predicate WellFormed(lines: seq<Line>) {
    && (forall i, j :: 0 <= i < j < |lines| ==> lines[i].name != lines[j].name)
    && (forall i, j :: 0 <= i < j < |lines| && lines[i].requirement.Some? ==> lines[i].requirement != lines[j].requirement)
    && (forall i :: 0 <= i < |lines| && lines[i].requirement.Some? ==>
          i < Place(lines, lines[i].requirement.value) < |lines|
          && lines[Place(lines, lines[i].requirement.value)].requirement.None?)
  }

  // --- Generating the load order --------------------------------------------

  /** The number, counted from one, of the last line before `i` that requires `name`; zero if there is none. */
  function Dependent(lines: seq<Line>, i: nat, name: string): (d: nat)
    requires i <= |lines|
    ensures d <= i
    ensures d > 0 ==> lines[d - 1].requirement == Some(name)
    ensures forall j :: d <= j < i ==> lines[j].requirement != Some(name)
  {
    if i == 0 then 0
    else if lines[i - 1].requirement == Some(name) then i
    else Dependent(lines, i - 1, name)
  }

  /** The line numbers in load order, for the first `i` lines. */
  function Order(lines: seq<Line>, i: nat): seq<nat>
    requires i <= |lines|
  {
    if i == 0 then []
    else if lines[i - 1].requirement.Some? then Order(lines, i - 1)
    else
      var d := Dependent(lines, i - 1, lines[i - 1].name);
      Order(lines, i - 1) + [i] + if d > 0 then [d] else []
  }

  /** What the generator remembers: for every required name, the last line so far that requires it. */
  ghost predicate Remembers(addAfter: map<string, (string, nat)>, lines: seq<Line>, i: nat)
    requires i <= |lines|
  {
    forall r: string :: if r in addAfter then
        Dependent(lines, i, r) > 0 && addAfter[r] == (lines[Dependent(lines, i, r) - 1].name, Dependent(lines, i, r))
      else Dependent(lines, i, r) == 0
  }

  ghost predicate Named(plugins: seq<string>, indexes: seq<nat>, lines: seq<Line>) {
    |plugins| == |indexes| && forall k :: 0 <= k < |indexes| ==> 1 <= indexes[k] <= |lines| && plugins[k] == lines[indexes[k] - 1].name
  }

  lemma {:induction false} NamedMore(plugins: seq<string>, indexes: seq<nat>, lines: seq<Line>, n: nat)
    requires Named(plugins, indexes, lines) && 1 <= n <= |lines|
    ensures Named(plugins + [lines[n - 1].name], indexes + [n], lines)
  {}

  lemma {:induction false} RememberNext(addAfter: map<string, (string, nat)>, lines: seq<Line>, i: nat)
    requires i < |lines| && Remembers(addAfter, lines, i)
    ensures var line := lines[i];
            Remembers(if line.requirement.Some? then addAfter[line.requirement.value := (line.name, i + 1)] else addAfter, lines, i + 1)
  {
    var line := lines[i];
    var after := if line.requirement.Some? then addAfter[line.requirement.value := (line.name, i + 1)] else addAfter;
    forall r: string
      ensures if r in after then
          Dependent(lines, i + 1, r) > 0 && after[r] == (lines[Dependent(lines, i + 1, r) - 1].name, Dependent(lines, i + 1, r))
        else Dependent(lines, i + 1, r) == 0
    {
      assert Dependent(lines, i + 1, r) == if line.requirement == Some(r) then i + 1 else Dependent(lines, i, r);
      assert if r in addAfter then Dependent(lines, i, r) > 0 else Dependent(lines, i, r) == 0;
    }
  }

  /** The loop of the generator: plugins to load, and the slots to insert them at. */
  method Generate(lines: seq<Line>) returns (plugins: seq<string>, indexes: seq<nat>)
    ensures indexes == Order(lines, |lines|)
    ensures |plugins| == |indexes|
    ensures forall k :: 0 <= k < |indexes| ==> 1 <= indexes[k] <= |lines| && plugins[k] == lines[indexes[k] - 1].name
  {
    var addAfter: map<string, (string, nat)> := map[];
    plugins, indexes := [], [];
    for i := 0 to |lines|
      invariant indexes == Order(lines, i)
      invariant Named(plugins, indexes, lines)
      invariant Remembers(addAfter, lines, i)
    {
      hide Remembers, Dependent, Named;
      var line := lines[i];
      RememberNext(addAfter, lines, i);
      Remembered(addAfter, lines, i, line.name);
      NamedMore(plugins, indexes, lines, i + 1);
      if line.name in addAfter {
        NamedMore(plugins + [line.name], indexes + [i + 1], lines, addAfter[line.name].1);
      }
      if line.requirement.Some? {
        addAfter := addAfter[line.requirement.value := (line.name, i + 1)];
      } else {
        plugins, indexes := plugins + [line.name], indexes + [i + 1];
        if line.name in addAfter {
          plugins, indexes := plugins + [addAfter[line.name].0], indexes + [addAfter[line.name].1];
        }
      }
    }
  }

  lemma {:induction false} Remembered(addAfter: map<string, (string, nat)>, lines: seq<Line>, i: nat, r: string)
    requires i < |lines| && Remembers(addAfter, lines, i)
    ensures r in addAfter <==> Dependent(lines, i, r) > 0
    ensures r in addAfter ==> addAfter[r] == (lines[Dependent(lines, i, r) - 1].name, Dependent(lines, i, r))
  {}

  /** Line `n` is loaded by the first `i` lines: its own if it requires nothing, and that of its requirement otherwise. */
  predicate Due(lines: seq<Line>, i: nat, n: nat) {
    1 <= n <= |lines| && match lines[n - 1].requirement
                         case None => n <= i
                         case Some(r) => Place(lines, r) < i
  }

  ghost predicate Once(order: seq<nat>) {
    forall j, k :: 0 <= j < k < |order| ==> order[j] != order[k]
  }

  lemma {:induction false} PlaceOf(lines: seq<Line>, t: nat)
    requires WellFormed(lines) && t < |lines|
    ensures Place(lines, lines[t].name) == t
  {}

  /** A line that requires nothing makes itself due, and the line that requires it. */
  lemma {:induction false} DueNext(lines: seq<Line>, i: nat, n: nat)
    requires WellFormed(lines) && i < |lines|
    ensures var added := n == i + 1 || (1 <= n <= i && lines[n - 1].requirement == Some(lines[i].name));
            && (added ==> !Due(lines, i, n))
            && (Due(lines, i + 1, n) <==> Due(lines, i, n) || (lines[i].requirement.None? && added))
  {
    PlaceOf(lines, i);
  }

  /** The order so far is that of the lines that are due. */
  ghost predicate Exactly(order: seq<nat>, lines: seq<Line>, i: nat) {
    Once(order) && forall n: nat :: n in order <==> Due(lines, i, n)
  }

  lemma {:induction false} OrderIsDue(lines: seq<Line>, i: nat)
    requires WellFormed(lines) && i <= |lines|
    ensures Exactly(Order(lines, i), lines, i)
    decreases i
  {
    hide WellFormed;
    if i > 0 {
      OrderIsDue(lines, i - 1);
      OrderNext(lines, i - 1);
    }
  }

  lemma {:induction false} OnceMore(order: seq<nat>, x: nat)
    requires Once(order) && x !in order
    ensures Once(order + [x]) && forall n: nat :: n in order + [x] <==> n in order || n == x
  {
    assert forall n: nat :: n in [x] <==> n == x;
  }

  lemma {:induction false} OrderNext(lines: seq<Line>, i: nat)
    requires WellFormed(lines) && i < |lines| && Exactly(Order(lines, i), lines, i)
    ensures Exactly(Order(lines, i + 1), lines, i + 1)
  {
    hide Due, WellFormed, Once;
    var before, line, d := Order(lines, i), lines[i], Dependent(lines, i, lines[i].name);
    forall n: nat
      ensures Due(lines, i + 1, n) <==> n in before || (line.requirement.None? && (n == i + 1 || (d > 0 && n == d)))
      ensures n == i + 1 || (d > 0 && n == d) ==> n !in before
    {
      DueNext(lines, i, n);
      OnlyDependent(lines, i, n);
      assert n in before <==> Due(lines, i, n);
    }
    if line.requirement.None? {
      OnceMore(before, i + 1);
      if d > 0 {
        OnceMore(before + [i + 1], d);
      } else {
        assert before + [i + 1] + [] == before + [i + 1];
      }
    }
  }

  lemma {:induction false} OnlyDependent(lines: seq<Line>, i: nat, n: nat)
    requires WellFormed(lines) && i < |lines|
    ensures var d := Dependent(lines, i, lines[i].name);
            1 <= n <= i && lines[n - 1].requirement == Some(lines[i].name) <==> d > 0 && n == d
  {
    var d := Dependent(lines, i, lines[i].name);
    if 1 <= n <= i && lines[n - 1].requirement == Some(lines[i].name) {
      assert d >= n;
    }
  }

  /** Every plugin is loaded exactly once, and a plugin that requires another right after it. */
  lemma {:induction false} LoadedOnceInOrder(lines: seq<Line>)
    requires WellFormed(lines)
    ensures var order := Order(lines, |lines|);
            && Once(order)
            && (forall n: nat :: n in order <==> 1 <= n <= |lines|)
            && (forall d, t :: 0 <= d < t < |lines| && lines[d].requirement == Some(lines[t].name) ==> Adjacent(order, t + 1, d + 1))
  {
    OrderIsDue(lines, |lines|);
    forall n: nat
      ensures Due(lines, |lines|, n) <==> 1 <= n <= |lines|
    {
      assert n in Order(lines, |lines|) <==> Due(lines, |lines|, n);
    }
    forall d, t | 0 <= d < t < |lines| && lines[d].requirement == Some(lines[t].name)
      ensures Adjacent(Order(lines, |lines|), t + 1, d + 1)
    {
      PlaceOf(lines, t);
      RightAfter(lines, d, t, |lines|);
    }
  }

  /** `b` comes right after `a`. */
  ghost predicate Adjacent(order: seq<nat>, a: nat, b: nat) {
    exists k :: 0 <= k < |order| - 1 && order[k] == a && order[k + 1] == b
  }

  lemma {:induction false} AdjacentPrefix(a: seq<nat>, b: seq<nat>, x: nat, y: nat)
    requires Adjacent(a, x, y)
    ensures Adjacent(a + b, x, y)
  {
    var k :| 0 <= k < |a| - 1 && a[k] == x && a[k + 1] == y;
    assert (a + b)[k] == x && (a + b)[k + 1] == y;
  }

  lemma {:induction false} RightAfter(lines: seq<Line>, d: nat, t: nat, i: nat)
    requires WellFormed(lines) && d < t < i <= |lines|
    requires lines[d].requirement == Some(lines[t].name) && lines[t].requirement.None?
    ensures Adjacent(Order(lines, i), t + 1, d + 1)
    decreases i
  {
    hide WellFormed;
    var before, order := Order(lines, i - 1), Order(lines, i);
    if i == t + 1 {
      OnlyDependent(lines, t, d + 1);
      assert order[|before|] == t + 1 && order[|before| + 1] == d + 1;
    } else {
      RightAfter(lines, d, t, i - 1);
      OrderGrows(lines, i);
      AdjacentPrefix(before, order[|before|..], t + 1, d + 1);
      assert before + order[|before|..] == order;
    }
  }

  lemma {:induction false} OrderGrows(lines: seq<Line>, i: nat)
    requires 0 < i <= |lines|
    ensures Order(lines, i - 1) <= Order(lines, i)
  {}

  // --- The vector of plugins ------------------------------------------------

  /** `Vec::insert`: what was at the slot and behind it moves on. */
  function Insert<T>(v: seq<T>, i: nat, x: T): seq<T>
    requires i <= |v|
  {
    v[..i] + [x] + v[i..]
  }

  function Empty(n: nat): seq<Option<nat>> {
    seq(n, _ => None)
  }

  predicate Bounded(order: seq<nat>, size: nat) {
    forall k :: 0 <= k < |order| ==> order[k] <= size
  }

  /** The slots after the plugins of `order` have been inserted at their line numbers; zero is the main configuration. */
  function Slots(size: nat, order: seq<nat>): (v: seq<Option<nat>>)
    requires Bounded(order, size)
    ensures |v| == size + 1 + |order|
  {
    if order == [] then Insert(Empty(size), 0, Some(0))
    else
      var k := |order| - 1;
      Insert(Slots(size, order[..k]), order[k], Some(order[k]))
  }

  function Flatten(v: seq<Option<nat>>): seq<nat> {
    if v == [] then [] else (if v[0].Some? then [v[0].value] else []) + Flatten(v[1..])
  }

  /** A plugin that is not configured leaves its slot empty. */
  function Slot(keep: set<nat>, x: Option<nat>): Option<nat> {
    if x.Some? && x.value in keep then x else None
  }

  function Mask(v: seq<Option<nat>>, keep: set<nat>): (w: seq<Option<nat>>)
    ensures |w| == |v|
  {
    seq(|v|, k requires 0 <= k < |v| => Slot(keep, v[k]))
  }

  /** The numbers of `s` that are in `keep`, in order. */
  function Kept(s: seq<nat>, keep: set<nat>): seq<nat> {
    if s == [] then [] else (if s[0] in keep then [s[0]] else []) + Kept(s[1..], keep)
  }

  lemma {:induction false} MaskInsert(v: seq<Option<nat>>, i: nat, x: Option<nat>, keep: set<nat>)
    requires i <= |v|
    ensures Mask(Insert(v, i, x), keep) == Insert(Mask(v, keep), i, Slot(keep, x))
  {}

  lemma {:induction false} FlattenMask(v: seq<Option<nat>>, keep: set<nat>)
    ensures Flatten(Mask(v, keep)) == Kept(Flatten(v), keep)
  {
    if v != [] {
      FlattenMask(v[1..], keep);
      assert Mask(v, keep)[1..] == Mask(v[1..], keep);
      var tail := Flatten(v[1..]);
      if v[0].Some? {
        assert ([v[0].value] + tail)[1..] == tail;
      } else {
        assert [] + tail == tail && [] + Kept(tail, keep) == Kept(tail, keep);
      }
    }
  }

  lemma {:induction false} FlattenFirst(v: seq<Option<nat>>, x: nat)
    requires v != [] && v[0] == Some(x)
    ensures Flatten(v) != [] && Flatten(v)[0] == x
  {}

  /**
   * The generated code, for any set of configured plugins: no insertion is out of bounds, the handlers are
   * those of the full order that are configured, in that order, and the first is the main configuration's.
   */
  method Load(order: seq<nat>, lines: nat, configured: set<nat>) returns (handlers: seq<nat>)
    requires |order| == lines && Bounded(order, lines) && forall k :: 0 <= k < |order| ==> order[k] > 0
    ensures handlers == Kept(Flatten(Slots(lines + 1, order)), configured + {0})
    ensures handlers != [] && handlers[0] == 0
  {
    hide Flatten, Kept;
    var size := |order| + 1;
    ghost var keep := configured + {0};
    var v := Empty(size);
    v := Insert(v, 0, Some(0));
    assert v == Mask(Slots(size, []), keep);
    for k := 0 to |order|
      invariant v == Mask(Slots(size, order[..k]), keep) && v[0] == Some(0)
    {
      PrefixMore(size, order, k);
      MaskInsert(Slots(size, order[..k]), order[k], Some(order[k]), keep);
      v := Insert(v, order[k], if order[k] in configured then Some(order[k]) else None);
    }
    assert order[..|order|] == order;
    FlattenMask(Slots(size, order), keep);
    FlattenFirst(v, 0);
    handlers := Flatten(v);
  }

  /** `a` has a slot before one of `b`. */
  ghost predicate Before(v: seq<Option<nat>>, a: nat, b: nat) {
    exists p, q :: 0 <= p < q < |v| && v[p] == Some(a) && v[q] == Some(b)
  }

  lemma {:induction false} InsertKeepsBefore(v: seq<Option<nat>>, i: nat, x: Option<nat>, a: nat, b: nat)
    requires i <= |v| && Before(v, a, b)
    ensures Before(Insert(v, i, x), a, b)
  {
    var p, q :| 0 <= p < q < |v| && v[p] == Some(a) && v[q] == Some(b);
    var w := Insert(v, i, x);
    var p' := if p < i then p else p + 1;
    var q' := if q < i then q else q + 1;
    assert w[p'] == Some(a) && w[q'] == Some(b);
  }

  lemma {:induction false} FlattenHas(v: seq<Option<nat>>, q: nat)
    requires q < |v| && v[q].Some?
    ensures v[q].value in Flatten(v)
  {
    if q > 0 {
      FlattenHas(v[1..], q - 1);
    }
  }

  /** The handlers are in the order of the slots. */
  lemma {:induction false} FlattenBefore(v: seq<Option<nat>>, a: nat, b: nat)
    requires Before(v, a, b)
    ensures exists p, q :: 0 <= p < q < |Flatten(v)| && Flatten(v)[p] == a && Flatten(v)[q] == b
  {
    var p, q :| 0 <= p < q < |v| && v[p] == Some(a) && v[q] == Some(b);
    var f, tail := Flatten(v), Flatten(v[1..]);
    if p == 0 {
      FlattenHas(v[1..], q - 1);
      var j :| 0 <= j < |tail| && tail[j] == b;
      assert f[0] == a && f[j + 1] == b;
    } else {
      assert v[1..][p - 1] == Some(a) && v[1..][q - 1] == Some(b);
      FlattenBefore(v[1..], a, b);
      var j, k :| 0 <= j < k < |tail| && tail[j] == a && tail[k] == b;
      var s := if v[0].Some? then 1 else 0;
      assert f[j + s] == a && f[k + s] == b;
    }
  }

  // --- When handlers run in the order of the lines --------------------------

  /** A plugin that has been shifted: its slot is beyond its line number. */
  ghost predicate Shifted(v: seq<Option<nat>>, t: nat) {
    exists p :: t < p < |v| && v[p] == Some(t)
  }

  lemma {:induction false} InsertKeepsShifted(v: seq<Option<nat>>, i: nat, x: Option<nat>, t: nat)
    requires i <= |v| && Shifted(v, t)
    ensures Shifted(Insert(v, i, x), t)
  {
    var p :| t < p < |v| && v[p] == Some(t);
    assert Insert(v, i, x)[if p < i then p else p + 1] == Some(t);
  }

  /** Inserting a plugin that requires `t` shifts `t`, for good. */
  lemma {:induction false} OvertakenAt(size: nat, order: seq<nat>, k: nat, m: nat, t: nat, d: nat)
    requires Bounded(order, size)
    requires k + 2 <= m <= |order| && order[k] == t && order[k + 1] == d && 1 <= d < t
    ensures Shifted(Slots(size, order[..m]), t)
    decreases m
  {
    hide Shifted, Slots, Insert;
    if m == k + 2 {
      var v0 := Slots(size, order[..k]);
      PrefixMore(size, order, k);
      PrefixMore(size, order, k + 1);
      ShiftedByTwo(v0, t, d);
    } else {
      OvertakenAt(size, order, k, m - 1, t, d);
      PrefixMore(size, order, m - 1);
      InsertKeepsShifted(Slots(size, order[..m - 1]), order[m - 1], Some(order[m - 1]), t);
    }
  }

  lemma {:induction false} PrefixMore(size: nat, order: seq<nat>, m: nat)
    requires Bounded(order, size) && m < |order|
    ensures Slots(size, order[..m + 1]) == Insert(Slots(size, order[..m]), order[m], Some(order[m]))
  {
    assert order[..m + 1][..m] == order[..m];
  }

  lemma {:induction false} ShiftedByTwo(v: seq<Option<nat>>, t: nat, d: nat)
    requires 1 <= d < t <= |v|
    ensures Shifted(Insert(Insert(v, t, Some(t)), d, Some(d)), t)
  {
    var w := Insert(v, t, Some(t));
    assert w[t] == Some(t);
    assert Insert(w, d, Some(d))[t + 1] == Some(t);
  }

  lemma {:induction false} StaysBefore(size: nat, order: seq<nat>, from: nat, a: nat, b: nat)
    requires Bounded(order, size)
    requires from <= |order| && Before(Slots(size, order[..from]), a, b)
    ensures Before(Slots(size, order), a, b)
  {
    hide Before, Slots;
    var m := from;
    while m < |order|
      invariant from <= m <= |order| && Before(Slots(size, order[..m]), a, b)
    {
      PrefixMore(size, order, m);
      InsertKeepsBefore(Slots(size, order[..m]), order[m], Some(order[m]), a, b);
      m := m + 1;
    }
    assert order[..m] == order;
  }

  /** A line that comes in after `t` was shifted is put in front of it. */
  lemma {:induction false} Overtakes(size: nat, order: seq<nat>, m: nat, t: nat)
    requires Bounded(order, size)
    requires m < |order| && order[m] == t + 1 && Shifted(Slots(size, order[..m]), t)
    ensures Before(Slots(size, order), t + 1, t)
  {
    var v := Slots(size, order[..m]);
    PrefixMore(size, order, m);
    var p :| t < p < |v| && v[p] == Some(t);
    var w := Insert(v, t + 1, Some(t + 1));
    assert w[t + 1] == Some(t + 1) && w[p + 1] == Some(t);
    assert Slots(size, order[..m + 1]) == w;
    StaysBefore(size, order, m + 1, t + 1, t);
  }

  /** The slots when the first `i` lines but `d` have been inserted, in order; `d` is zero if all have. */
  function Lined(size: nat, i: nat, d: nat, inserted: nat): (v: seq<Option<nat>>)
    requires i <= size
    ensures |v| == size + 1 + inserted
  {
    seq(size + 1 + inserted, p => if p <= i && (p != d || d == 0) then Some(p) else None)
  }

  lemma {:induction false} LinedNext(size: nat, i: nat, d: nat, inserted: nat)
    requires i + 1 <= size && (d == 0 || d != i + 1)
    ensures Insert(Lined(size, i, d, inserted), i + 1, Some(i + 1)) == Lined(size, i + 1, d, inserted + 1)
  {}

  /** Only the last line is required, by line `d`; `d` is zero if nothing is required. */
  ghost predicate OnlyLast(lines: seq<Line>, d: nat) {
    && d < |lines|
    && (forall j :: 0 <= j < |lines| ==> (lines[j].requirement.Some? <==> j + 1 == d))
    && (d > 0 ==> lines[d - 1].requirement == Some(lines[|lines| - 1].name))
  }

  lemma {:induction false} NoDependent(lines: seq<Line>, d: nat, i: nat)
    requires WellFormed(lines) && OnlyLast(lines, d) && i < |lines| - 1
    ensures Dependent(lines, i, lines[i].name) == 0
  {}

  /** While only the last line is required, the lines come in one behind the other. */
  lemma {:induction false} LinesInOrder(lines: seq<Line>, i: nat, d: nat, size: nat)
    requires WellFormed(lines) && OnlyLast(lines, d) && i < |lines| <= size
    ensures var order := Order(lines, i);
            Bounded(order, size) && Slots(size, order) == Lined(size, i, d, |order|)
    decreases i
  {
    hide WellFormed, Lined, Insert, Slots, Dependent;
    if i == 0 {
      NothingLined(size, d);
    } else {
      LinesInOrder(lines, i - 1, d, size);
      var before := Order(lines, i - 1);
      if i != d {
        NoDependent(lines, d, i - 1);
        assert before + [i] + [] == before + [i];
        SlotsMore(size, before, i);
        LinedNext(size, i - 1, d, |before|);
      } else {
        LinedSkips(size, i - 1, d, |before|);
      }
    }
  }

  lemma {:induction false} NothingLined(size: nat, d: nat)
    ensures Slots(size, []) == Lined(size, 0, d, 0)
  {
    assert Insert(Empty(size), 0, Some(0)) == Lined(size, 0, d, 0);
  }

  lemma {:induction false} LinedSkips(size: nat, i: nat, d: nat, inserted: nat)
    requires i + 1 == d <= size
    ensures Lined(size, i, d, inserted) == Lined(size, i + 1, d, inserted)
  {}

  lemma {:induction false} FlattenAppend(a: seq<Option<nat>>, b: seq<Option<nat>>)
    ensures Flatten(a + b) == Flatten(a) + Flatten(b)
  {
    if a == [] {
      assert a + b == b;
    } else {
      FlattenAppend(a[1..], b);
      assert (a + b)[1..] == a[1..] + b;
      Associative(if a[0].Some? then [a[0].value] else [], Flatten(a[1..]), Flatten(b));
    }
  }

  lemma {:induction false} FlattenNone(v: seq<Option<nat>>)
    requires forall k :: 0 <= k < |v| ==> v[k].None?
    ensures Flatten(v) == []
  {
    if v != [] {
      FlattenNone(v[1..]);
    }
  }

  /** Consecutive numbers, from `a` on. */
  function Range(a: nat, n: nat): (s: seq<nat>)
    ensures |s| == n && forall k :: 0 <= k < n ==> s[k] == a + k
  {
    seq(n, k requires 0 <= k => a + k)
  }

  lemma {:induction false} FlattenRange(v: seq<Option<nat>>, a: nat)
    requires forall k :: 0 <= k < |v| ==> v[k] == Some(a + k)
    ensures Flatten(v) == Range(a, |v|)
  {
    if v != [] {
      assert v[0] == Some(a + 0);
      forall k | 0 <= k < |v| - 1
        ensures v[1..][k] == Some(a + 1 + k)
      {
        assert v[k + 1] == Some(a + (k + 1));
      }
      FlattenRange(v[1..], a + 1);
      assert [a] + Range(a + 1, |v| - 1) == Range(a, |v|);
    }
  }

  /** Numbers up to `d`, perhaps a gap, the rest of the numbers, and empty slots: the handlers are in order. */
  lemma {:induction false} FlattenWithGap(v: seq<Option<nat>>, d: nat, gap: nat, n: nat)
    requires d <= n && d + 1 + gap + (n - d) <= |v|
    requires forall k :: 0 <= k <= d ==> v[k] == Some(k)
    requires forall k :: d + 1 <= k < d + 1 + gap ==> v[k].None?
    requires forall k :: d + 1 + gap <= k < d + 1 + gap + (n - d) ==> v[k] == Some(k - gap)
    requires forall k :: d + 1 + gap + (n - d) <= k < |v| ==> v[k].None?
    ensures Flatten(v) == Range(0, n + 1)
  {
    hide Flatten;
    var p, q, r := d + 1, d + 1 + gap, d + 1 + gap + (n - d);
    Cut(v, p, q, r);
    FlattenAppend(v[..p], v[p..q] + (v[q..r] + v[r..]));
    FlattenAppend(v[p..q], v[q..r] + v[r..]);
    FlattenAppend(v[q..r], v[r..]);
    FlattenRange(v[..p], 0);
    FlattenNone(v[p..q]);
    FlattenRange(v[q..r], p);
    FlattenNone(v[r..]);
    RangeJoin(p, n - d);
  }

  lemma {:induction false} Cut(v: seq<Option<nat>>, p: nat, q: nat, r: nat)
    requires p <= q <= r <= |v|
    ensures v == v[..p] + (v[p..q] + (v[q..r] + v[r..]))
  {}

  lemma {:induction false} RangeJoin(p: nat, n: nat)
    ensures Range(0, p) + ([] + (Range(p, n) + [])) == Range(0, p + n)
  {}

  // --- The exact condition --------------------------------------------------

  lemma {:induction false} OrderBounds(lines: seq<Line>)
    requires WellFormed(lines)
    ensures var order := Order(lines, |lines|); |order| == |lines| && Bounded(order, |lines|) && Bounded(order, |lines| + 1)
  {
    LoadedOnceInOrder(lines);
    var order, n := Order(lines, |lines|), |lines|;
    assert forall k :: 0 <= k < |order| ==> order[k] in order;
    OnceSize(order);
    NumbersSize(n);
    assert Elements(order) == Numbers(n);
  }

  function Numbers(n: nat): set<nat> {
    if n == 0 then {} else Numbers(n - 1) + {n}
  }

  lemma {:induction false} NumbersSize(n: nat)
    ensures |Numbers(n)| == n && forall k: nat :: k in Numbers(n) <==> 1 <= k <= n
  {
    if n > 0 {
      NumbersSize(n - 1);
    }
  }

  function Elements(order: seq<nat>): set<nat> {
    set x | x in order
  }

  lemma {:induction false} OnceSize(order: seq<nat>)
    requires Once(order)
    ensures |Elements(order)| == |order|
  {
    if order != [] {
      OnceTail(order);
      OnceSize(order[1..]);
    }
  }

  lemma {:induction false} OnceTail(order: seq<nat>)
    requires Once(order) && order != []
    ensures Once(order[1..]) && order[0] !in order[1..]
    ensures order[0] !in Elements(order[1..]) && Elements(order) == {order[0]} + Elements(order[1..])
  {
    var tail := order[1..];
    assert forall k :: 0 <= k < |tail| ==> tail[k] == order[k + 1];
    assert order == [order[0]] + tail;
  }

  lemma {:induction false} OrderPrefix(lines: seq<Line>, i: nat, j: nat)
    requires i <= j <= |lines|
    ensures Order(lines, i) <= Order(lines, j)
    decreases j
  {
    if i < j {
      OrderPrefix(lines, i, j - 1);
      OrderGrows(lines, j);
    }
  }

  /** If a line other than the last is required, the line after it is handled before it. */
  lemma {:induction false} OvertakenWhenRequired(lines: seq<Line>, d: nat, t: nat)
    requires WellFormed(lines) && d < t < |lines| - 1
    requires lines[d].requirement == Some(lines[t].name) && lines[t].requirement.None?
    ensures var order := Order(lines, |lines|); Bounded(order, |lines| + 1) && Before(Slots(|lines| + 1, order), t + 2, t + 1)
  {
    hide Slots, Order, WellFormed, Shifted, Before;
    OrderBounds(lines);
    var k, m := Positions(lines, d, t);
    var order := Order(lines, |lines|);
    OvertakenAt(|lines| + 1, order, k, m, t + 1, d + 1);
    Overtakes(|lines| + 1, order, m, t + 1);
  }

  /** Where they come in the load order: the required line, the one requiring it, and later the line after. */
  lemma {:induction false} Positions(lines: seq<Line>, d: nat, t: nat) returns (k: nat, m: nat)
    requires WellFormed(lines) && d < t < |lines| - 1
    requires lines[d].requirement == Some(lines[t].name) && lines[t].requirement.None?
    ensures var order := Order(lines, |lines|);
            k + 2 <= m < |order| && order[k] == t + 1 && order[k + 1] == d + 1 && order[m] == t + 2
  {
    hide Once, Bounded, Adjacent, Order, WellFormed, Dependent;
    var order, before := Order(lines, |lines|), Order(lines, t + 1);
    OrderPrefix(lines, t + 1, |lines|);
    OnlyDependent(lines, t, d + 1);
    OrderUnfolds(lines, t + 1);
    k := |Order(lines, t)|;
    assert before[k] == t + 1 && before[k + 1] == d + 1;
    LoadedOnceInOrder(lines);
    assert t + 2 in order;
    NotYetDue(lines, t);
    assert forall j :: 0 <= j < |before| ==> order[j] == before[j];
    m :| 0 <= m < |order| && order[m] == t + 2;
  }

  lemma {:induction false} NotYetDue(lines: seq<Line>, t: nat)
    requires WellFormed(lines) && t + 1 < |lines|
    ensures t + 2 !in Order(lines, t + 1)
  {
    OrderIsDue(lines, t + 1);
    assert !Due(lines, t + 1, t + 2);
  }

  /** If only the last line is required, every number ends up in front of the greater ones. */
  lemma {:induction false} InOrderWhenLast(lines: seq<Line>, d: nat)
    requires WellFormed(lines) && OnlyLast(lines, d)
    ensures var order := Order(lines, |lines|);
            Bounded(order, |lines| + 1) && Flatten(Slots(|lines| + 1, order)) == Range(0, |lines| + 1)
  {
    hide Slots, Lined, Insert, Flatten, WellFormed, Order;
    var n, size := |lines|, |lines| + 1;
    OrderBounds(lines);
    LinesInOrder(lines, n - 1, d, size);
    LastLine(lines, d);
    var before := Order(lines, n - 1);
    SlotsMore(size, before, n);
    LinedNext(size, n - 1, d, |before|);
    if d == 0 {
      assert before + [n] + [] == before + [n];
      FlattenLined(size, n, |before| + 1);
    } else {
      SlotsMore(size, before + [n], d);
      FlattenFilled(size, n, d, |before| + 1);
    }
  }

  lemma {:induction false} LastLine(lines: seq<Line>, d: nat)
    requires OnlyLast(lines, d) && WellFormed(lines)
    ensures var n := |lines|;
            Order(lines, n) == Order(lines, n - 1) + [n] + if d > 0 then [d] else []
    ensures Bounded(Order(lines, |lines| - 1), |lines| + 1)
  {
    hide WellFormed, OnlyLast, Order, Once, Dependent;
    var n := |lines|;
    DependentOfLast(lines, d);
    OrderUnfolds(lines, n);
    OrderBounds(lines);
    OrderPrefix(lines, n - 1, n);
    assert forall k :: 0 <= k < |Order(lines, n - 1)| ==> Order(lines, n - 1)[k] == Order(lines, n)[k];
  }

  lemma {:induction false} DependentOfLast(lines: seq<Line>, d: nat)
    requires WellFormed(lines) && OnlyLast(lines, d)
    ensures lines[|lines| - 1].requirement.None?
    ensures Dependent(lines, |lines| - 1, lines[|lines| - 1].name) == d
  {
    PlaceOf(lines, |lines| - 1);
    if d > 0 {
      OnlyDependent(lines, |lines| - 1, d);
    }
  }

  lemma {:induction false} OrderUnfolds(lines: seq<Line>, i: nat)
    requires 0 < i <= |lines| && lines[i - 1].requirement.None?
    ensures var d := Dependent(lines, i - 1, lines[i - 1].name);
            Order(lines, i) == Order(lines, i - 1) + [i] + if d > 0 then [d] else []
  {}

  lemma {:induction false} SlotsMore(size: nat, order: seq<nat>, n: nat)
    requires Bounded(order, size) && n <= size
    ensures Bounded(order + [n], size) && Slots(size, order + [n]) == Insert(Slots(size, order), n, Some(n))
  {
    assert (order + [n])[..|order|] == order;
  }

  lemma {:induction false} FlattenLined(size: nat, n: nat, inserted: nat)
    requires n <= size
    ensures Flatten(Lined(size, n, 0, inserted)) == Range(0, n + 1)
  {
    hide Flatten;
    FlattenWithGap(Lined(size, n, 0, inserted), n, 0, n);
  }

  lemma {:induction false} FlattenFilled(size: nat, n: nat, d: nat, inserted: nat)
    requires 0 < d <= n <= size
    ensures Flatten(Insert(Lined(size, n, d, inserted), d, Some(d))) == Range(0, n + 1)
  {
    hide Flatten;
    FlattenWithGap(Insert(Lined(size, n, d, inserted), d, Some(d)), d, 1, n);
  }

  predicate Increasing(s: seq<nat>) {
    forall p, q :: 0 <= p < q < |s| ==> s[p] < s[q]
  }

  /** Two configured lines of which the later one is handled first. */
  ghost predicate Inverted(s: seq<nat>, keep: set<nat>) {
    exists p, q :: 0 <= p < q < |s| && s[p] >= s[q] && s[p] in keep && s[q] in keep
  }

  lemma {:induction false} KeptHas(s: seq<nat>, keep: set<nat>, x: nat)
    ensures x in Kept(s, keep) <==> x in s && x in keep
  {
    if s != [] {
      KeptHas(s[1..], keep, x);
      assert s == [s[0]] + s[1..];
    }
  }

  /** The configured handlers are in the order of their lines exactly when no two of them are inverted in the full order. */
  lemma {:induction false} KeptIncreasing(s: seq<nat>, keep: set<nat>)
    ensures Increasing(Kept(s, keep)) <==> !Inverted(s, keep)
  {
    if s != [] {
      var tail, kept := s[1..], Kept(s[1..], keep);
      KeptIncreasing(tail, keep);
      InvertedTail(s, keep);
      if s[0] in keep {
        forall x: nat
          ensures x in kept <==> x in tail && x in keep
        {
          KeptHas(tail, keep, x);
        }
        IncreasingHead(s[0], kept);
      } else {
        assert [] + kept == kept;
      }
    }
  }

  lemma {:induction false} IncreasingHead(x: nat, s: seq<nat>)
    ensures Increasing([x] + s) <==> Increasing(s) && forall y :: y in s ==> x < y
  {
    if Increasing([x] + s) {
      IncreasingTail(x, s);
    }
    if Increasing(s) && forall y :: y in s ==> x < y {
      IncreasingMore(x, s);
    }
  }

  lemma {:induction false} IncreasingTail(x: nat, s: seq<nat>)
    requires Increasing([x] + s)
    ensures Increasing(s) && forall y :: y in s ==> x < y
  {
    var all := [x] + s;
    forall p, q | 0 <= p < q < |s|
      ensures s[p] < s[q]
    {
      assert all[p + 1] < all[q + 1];
    }
    forall k | 0 <= k < |s|
      ensures x < s[k]
    {
      assert all[0] < all[k + 1];
    }
  }

  lemma {:induction false} IncreasingMore(x: nat, s: seq<nat>)
    requires Increasing(s) && forall y :: y in s ==> x < y
    ensures Increasing([x] + s)
  {
    var all := [x] + s;
    forall p, q | 0 <= p < q < |all|
      ensures all[p] < all[q]
    {
      assert all[q] == s[q - 1] && s[q - 1] in s;
      if p > 0 {
        assert all[p] == s[p - 1] && s[p - 1] < s[q - 1];
      }
    }
  }

  lemma {:induction false} InvertedTail(s: seq<nat>, keep: set<nat>)
    requires s != []
    ensures Inverted(s, keep) <==>
            Inverted(s[1..], keep) || (s[0] in keep && exists x :: x in s[1..] && x in keep && s[0] >= x)
  {
    var tail := s[1..];
    if Inverted(tail, keep) {
      var p, q :| 0 <= p < q < |tail| && tail[p] >= tail[q] && tail[p] in keep && tail[q] in keep;
      assert s[p + 1] >= s[q + 1];
    }
    if Inverted(s, keep) {
      var p, q :| 0 <= p < q < |s| && s[p] >= s[q] && s[p] in keep && s[q] in keep;
      assert tail[q - 1] == s[q];
      if p > 0 {
        assert tail[p - 1] == s[p];
      }
    }
  }

  /** The handlers of the configured plugins, the main configuration's included. */
  function Handlers(lines: seq<Line>, configured: set<nat>): seq<nat>
    requires Bounded(Order(lines, |lines|), |lines| + 1)
  {
    Kept(Flatten(Slots(|lines| + 1, Order(lines, |lines|))), configured + {0})
  }

  /** No line but the last is required. */
  ghost predicate OnlyLastRequired(lines: seq<Line>) {
    forall j :: 0 <= j < |lines| && lines[j].requirement.Some? ==> lines[j].requirement == Some(lines[|lines| - 1].name)
  }

  /**
   * Handlers run in the order of the lines, whichever plugins are configured, if and only if no line other
   * than the last one is required; and with all of them configured the same holds.
   */
  lemma {:induction false} HandlersInLineOrderExactly(lines: seq<Line>)
    requires WellFormed(lines) && lines != []
    ensures Bounded(Order(lines, |lines|), |lines| + 1)
    ensures (forall configured :: Increasing(Handlers(lines, configured))) <==> OnlyLastRequired(lines)
    ensures Increasing(Flatten(Slots(|lines| + 1, Order(lines, |lines|)))) <==> OnlyLastRequired(lines)
    ensures OnlyLastRequired(lines) ==> Flatten(Slots(|lines| + 1, Order(lines, |lines|))) == Range(0, |lines| + 1)
  {
    hide Slots, Order, Flatten, Bounded, WellFormed, Place, Kept, Increasing;
    OrderBounds(lines);
    var all := Flatten(Slots(|lines| + 1, Order(lines, |lines|)));
    if OnlyLastRequired(lines) {
      var d := OnlyRequirement(lines);
      InOrderWhenLast(lines, d);
      RangeIncreasing(|lines| + 1);
      forall configured
        ensures Increasing(Handlers(lines, configured))
      {
        KeptIncreasing(all, configured + {0});
      }
    } else {
      var j: nat :| j < |lines| && lines[j].requirement.Some? && lines[j].requirement != Some(lines[|lines| - 1].name);
      var t := NotInOrder(lines, j);
      KeptIncreasing(all, {t + 1, t + 2} + {0});
      assert !Increasing(Handlers(lines, {t + 1, t + 2}));
    }
  }

  lemma {:induction false} RangeIncreasing(n: nat)
    ensures Increasing(Range(0, n)) && forall keep :: !Inverted(Range(0, n), keep)
  {}

  lemma {:induction false} InsertCounts(v: seq<Option<nat>>, i: nat, x: Option<nat>)
    requires i <= |v|
    ensures multiset(Flatten(Insert(v, i, x))) == multiset(Flatten(v)) + if x.Some? then multiset{x.value} else multiset{}
  {
    hide Flatten;
    FlattenAppend(v[..i] + [x], v[i..]);
    FlattenAppend(v[..i], [x]);
    FlattenAppend(v[..i], v[i..]);
    assert v == v[..i] + v[i..];
    FlattenOne(x);
  }

  lemma {:induction false} FlattenOne(x: Option<nat>)
    ensures Flatten([x]) == if x.Some? then [x.value] else []
  {}

  /** Every plugin loaded has its handler, once, and so has the main configuration. */
  lemma {:induction false} SlotsCount(size: nat, order: seq<nat>)
    requires Bounded(order, size)
    ensures multiset(Flatten(Slots(size, order))) == multiset([0]) + multiset(order)
    decreases |order|
  {
    hide Flatten, Insert;
    if order == [] {
      FlattenNone(Empty(size));
      InsertCounts(Empty(size), 0, Some(0));
    } else {
      var k := |order| - 1;
      SlotsCount(size, order[..k]);
      InsertCounts(Slots(size, order[..k]), order[k], Some(order[k]));
      assert order == order[..k] + [order[k]];
    }
  }

  lemma {:induction false} KeptCounts(s: seq<nat>, keep: set<nat>, x: nat)
    ensures multiset(Kept(s, keep))[x] == if x in keep then multiset(s)[x] else 0
  {
    if s != [] {
      KeptCounts(s[1..], keep, x);
      assert s == [s[0]] + s[1..];
    }
  }

  /** Every configured plugin of the list is handled exactly once, the main configuration too, and no other is. */
  lemma {:induction false} HandledOnce(lines: seq<Line>, configured: set<nat>, n: nat)
    requires WellFormed(lines)
    ensures Bounded(Order(lines, |lines|), |lines| + 1)
    ensures multiset(Handlers(lines, configured))[n] == if n == 0 || (n in configured && n <= |lines|) then 1 else 0
  {
    hide Slots, Order, Flatten, Kept, WellFormed, Bounded;
    OrderBounds(lines);
    LoadedOnceInOrder(lines);
    var order := Order(lines, |lines|);
    SlotsCount(|lines| + 1, order);
    KeptCounts(Flatten(Slots(|lines| + 1, order)), configured + {0}, n);
    OnceCount(order, n);
  }

  lemma {:induction false} OnceCount(order: seq<nat>, x: nat)
    requires Once(order)
    ensures multiset(order)[x] == if x in order then 1 else 0
  {
    if order != [] {
      OnceTail(order);
      OnceCount(order[1..], x);
      assert order == [order[0]] + order[1..];
    }
  }

  /** Which configured plugins do run in line order, when some line but the last is required. */
  lemma {:induction false} ConfiguredInLineOrder(lines: seq<Line>, configured: set<nat>)
    requires WellFormed(lines)
    ensures Bounded(Order(lines, |lines|), |lines| + 1)
    ensures Increasing(Handlers(lines, configured)) <==>
            !Inverted(Flatten(Slots(|lines| + 1, Order(lines, |lines|))), configured + {0})
  {
    hide Slots, Order, Flatten, Bounded, WellFormed, Increasing, Inverted;
    OrderBounds(lines);
    KeptIncreasing(Flatten(Slots(|lines| + 1, Order(lines, |lines|))), configured + {0});
  }

  /** A required line that is not the last, and the line after it, are inverted. */
  lemma {:induction false} NotInOrder(lines: seq<Line>, j: nat) returns (t: nat)
    requires WellFormed(lines) && j < |lines|
    requires lines[j].requirement.Some? && lines[j].requirement != Some(lines[|lines| - 1].name)
    ensures var order := Order(lines, |lines|);
            && Bounded(order, |lines| + 1)
            && Inverted(Flatten(Slots(|lines| + 1, order)), {t + 1, t + 2} + {0})
            && !Increasing(Flatten(Slots(|lines| + 1, order)))
  {
    hide Slots, Order, Flatten, Before;
    t := Place(lines, lines[j].requirement.value);
    var n := |lines|;
    OvertakenWhenRequired(lines, j, t);
    var handlers := Flatten(Slots(n + 1, Order(lines, n)));
    FlattenBefore(Slots(n + 1, Order(lines, n)), t + 2, t + 1);
    var p, q :| 0 <= p < q < |handlers| && handlers[p] == t + 2 && handlers[q] == t + 1;
  }

  lemma {:induction false} OnlyRequirement(lines: seq<Line>) returns (d: nat)
    requires WellFormed(lines) && lines != []
    requires forall j :: 0 <= j < |lines| && lines[j].requirement.Some? ==> lines[j].requirement == Some(lines[|lines| - 1].name)
    ensures OnlyLast(lines, d)
  {
    PlaceOf(lines, |lines| - 1);
    if j: nat :| j < |lines| && lines[j].requirement.Some? {
      d := j + 1;
    } else {
      d := 0;
    }
  }
}
