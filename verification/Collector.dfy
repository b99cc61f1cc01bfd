/** Mark and sweep over the store of a frame. */
module Collector {
  import opened Values
  import opened Stores

  function Elems(ms: seq<nat>): set<nat> {
    set a | a in ms
  }

  function RefSet(v: Value): set<nat> {
    match v
    case SetValue(c) => c.addrs
    case ObjectValue(ms, _) => Elems(ms)
  }

  /** The slots that slot `i` refers to. */
  function Succ(env: Env, slots: seq<Slot>, i: int): set<int>
    requires 0 <= i < |slots|
  {
    set a | a in RefSet(HeldBy(slots[i])) && Resolve(env, a) >= 0 :: Resolve(env, a)
  }

  /** The slots that a holder refers to. */
  function Targets(env: Env, v: Value): set<int> {
    set a | a in RefSet(v) && Resolve(env, a) >= 0 :: Resolve(env, a)
  }

  ghost predicate IsPath(env: Env, slots: seq<Slot>, p: seq<int>) {
    && p != [] && (forall k :: 0 <= k < |p| ==> 0 <= p[k] < |slots|)
    && (forall k :: 0 <= k < |p| - 1 ==> p[k + 1] in Succ(env, slots, p[k]))
  }

  ghost predicate Leads(env: Env, slots: seq<Slot>, roots: set<int>, p: seq<int>, i: int) {
    IsPath(env, slots, p) && p[0] in roots && p[|p| - 1] == i
  }

  ghost predicate Reachable(env: Env, slots: seq<Slot>, roots: set<int>, i: int) {
    exists p :: Leads(env, slots, roots, p, i)
  }

  lemma ReachRoot(env: Env, slots: seq<Slot>, roots: set<int>, i: int)
    requires i in roots && 0 <= i < |slots|
    ensures Reachable(env, slots, roots, i)
  {
    assert Leads(env, slots, roots, [i], i);
  }

  lemma ReachStep(env: Env, slots: seq<Slot>, roots: set<int>, i: int, j: int)
    requires Reachable(env, slots, roots, i) && 0 <= i < |slots| && j in Succ(env, slots, i) && 0 <= j < |slots|
    ensures Reachable(env, slots, roots, j)
  {
    var p :| Leads(env, slots, roots, p, i);
    assert Leads(env, slots, roots, p + [j], j);
  }

  lemma {:induction false} ReachClosed(env: Env, slots: seq<Slot>, roots: set<int>, closed: set<int>, p: seq<int>)
    requires IsPath(env, slots, p) && p[0] in roots && roots <= closed
    requires forall i :: i in closed && 0 <= i < |slots| ==> Succ(env, slots, i) <= closed
    ensures forall k :: 0 <= k < |p| ==> p[k] in closed
  {
    if |p| > 1 {
      var n := |p| - 1;
      ReachClosed(env, slots, roots, closed, p[..n]);
      assert p[..n][n - 1] == p[n - 1] && p[n - 1 + 1] in Succ(env, slots, p[n - 1]);
      assert forall k :: 0 <= k < n ==> p[..n][k] == p[k];
    }
  }

  // ---------- reachability in terms of addresses ----------

  /** Some address in the value names slot `j`. */
  ghost predicate Points(reloc: map<nat, nat>, v: Value, j: int) {
    exists a :: a in RefSet(v) && Names(reloc, a, j)
  }

  /** Slot `j` is named in some root. */
  ghost predicate Rooted(reloc: map<nat, nat>, sets: seq<AddrSet>, j: int) {
    exists k :: 0 <= k < |sets| && Points(reloc, SetValue(sets[k]), j)
  }

  /** A chain of cells from a root to slot `j`, each naming the next. */
  ghost predicate Route(reloc: map<nat, nat>, slots: seq<Slot>, sets: seq<AddrSet>, p: seq<int>, j: int) {
    && p != [] && (forall k :: 0 <= k < |p| ==> 0 <= p[k] < |slots|) && Rooted(reloc, sets, p[0]) && p[|p| - 1] == j
    && (forall k :: 0 <= k < |p| - 1 ==> Points(reloc, HeldBy(slots[p[k]]), p[k + 1]))
  }

  ghost predicate Reaches(reloc: map<nat, nat>, slots: seq<Slot>, sets: seq<AddrSet>, j: int) {
    exists p :: Route(reloc, slots, sets, p, j)
  }

  lemma TargetsPoints(env: Env, v: Value, j: int)
    requires 0 <= j < env.size
    ensures j in Targets(env, v) <==> Points(env.reloc, v, j)
  {
    forall a
      ensures Resolve(env, a) == j <==> Names(env.reloc, a, j)
    {
      ResolveNames(env, a, j);
    }
  }

  lemma {:induction false} RootsRooted(env: Env, sets: seq<AddrSet>, j: int)
    requires 0 <= j < env.size
    ensures j in RootSlots(env, sets) <==> Rooted(env.reloc, sets, j)
  {
    if sets != [] {
      var n := |sets| - 1;
      RootsRooted(env, sets[..n], j);
      TargetsPoints(env, SetValue(sets[n]), j);
      if Rooted(env.reloc, sets, j) {
        var k :| 0 <= k < |sets| && Points(env.reloc, SetValue(sets[k]), j);
        assert k < n ==> sets[..n][k] == sets[k];
      }
    }
  }

  lemma PathIsRoute(env: Env, slots: seq<Slot>, sets: seq<AddrSet>, p: seq<int>, j: int)
    requires env.size == |slots|
    ensures Leads(env, slots, RootSlots(env, sets), p, j) <==> Route(env.reloc, slots, sets, p, j)
  {
    hide Points, Targets, RootSlots, Rooted;
    if p != [] && forall k :: 0 <= k < |p| ==> 0 <= p[k] < |slots| {
      RootsRooted(env, sets, p[0]);
      forall k | 0 <= k < |p| - 1
        ensures p[k + 1] in Succ(env, slots, p[k]) <==> Points(env.reloc, HeldBy(slots[p[k]]), p[k + 1])
      {
        SuccTargets(env, slots, p[k]);
        TargetsPoints(env, HeldBy(slots[p[k]]), p[k + 1]);
      }
    }
  }

  lemma SuccTargets(env: Env, slots: seq<Slot>, i: int)
    requires 0 <= i < |slots|
    ensures Succ(env, slots, i) == Targets(env, HeldBy(slots[i]))
  {
  }

  /** Reachable slots are those that a chain of addresses leads to, starting in a root. */
  lemma ReachableReaches(env: Env, slots: seq<Slot>, sets: seq<AddrSet>, j: int)
    requires env.size == |slots|
    ensures Reachable(env, slots, RootSlots(env, sets), j) <==> Reaches(env.reloc, slots, sets, j)
  {
    hide Leads, Route, RootSlots;
    if Reachable(env, slots, RootSlots(env, sets), j) {
      var p :| Leads(env, slots, RootSlots(env, sets), p, j);
      PathIsRoute(env, slots, sets, p, j);
    }
    if Reaches(env.reloc, slots, sets, j) {
      var p :| Route(env.reloc, slots, sets, p, j);
      PathIsRoute(env, slots, sets, p, j);
    }
  }

  /** A slot that an address in a root names is reached. */
  lemma RootReaches(reloc: map<nat, nat>, slots: seq<Slot>, sets: seq<AddrSet>, k: nat, a: nat, j: int)
    requires k < |sets| && a in sets[k].addrs && Names(reloc, a, j) && 0 <= j < |slots|
    ensures Reaches(reloc, slots, sets, j)
  {
    assert Points(reloc, SetValue(sets[k]), j);
    assert Route(reloc, slots, sets, [j], j);
  }

  function Marked(f: seq<nat>, tick: nat): set<int> {
    set i | 0 <= i < |f| && f[i] == tick
  }

  /** What a traversal promises: it only adds reachable marks, and leaves no successor of them unmarked. */
  ghost predicate Traversed(env: Env, slots: seq<Slot>, roots: set<int>, was: seq<nat>, now: seq<nat>, tick: nat) {
    && |was| == |now| && Marked(was, tick) <= Marked(now, tick)
    && (forall i :: i in Marked(now, tick) && i !in Marked(was, tick) ==>
          i < |slots| && Reachable(env, slots, roots, i) && Succ(env, slots, i) <= Marked(now, tick))
  }

  lemma TraversedThen(env: Env, slots: seq<Slot>, roots: set<int>, f0: seq<nat>, f1: seq<nat>, f2: seq<nat>, tick: nat)
    requires Traversed(env, slots, roots, f0, f1, tick) && Traversed(env, slots, roots, f1, f2, tick)
    ensures Traversed(env, slots, roots, f0, f2, tick)
  {
  }

  lemma TraversedNode(env: Env, slots: seq<Slot>, roots: set<int>, f0: seq<nat>, f2: seq<nat>, tick: nat, i: int)
    requires 0 <= i < |slots| <= |f0| && f0[i] != tick && Reachable(env, slots, roots, i)
    requires Traversed(env, slots, roots, f0[i := tick], f2, tick) && Succ(env, slots, i) <= Marked(f2, tick)
    ensures Traversed(env, slots, roots, f0, f2, tick) && i in Marked(f2, tick)
  {
    assert Marked(f0[i := tick], tick) == Marked(f0, tick) + {i};
  }

  function Unmarked(f: seq<nat>, tick: nat): set<int> {
    set i | 0 <= i < |f| && f[i] != tick
  }

  lemma UnmarkedShrinks(env: Env, slots: seq<Slot>, roots: set<int>, f0: seq<nat>, f1: seq<nat>, tick: nat)
    requires Traversed(env, slots, roots, f0, f1, tick)
    ensures Unmarked(f1, tick) <= Unmarked(f0, tick)
  {
    forall i | i in Unmarked(f1, tick)
      ensures i in Unmarked(f0, tick)
    {
      assert i !in Marked(f1, tick);
    }
  }

  ghost predicate AllReachable(env: Env, slots: seq<Slot>, roots: set<int>, addrs: set<nat>) {
    forall a :: a in addrs && Resolve(env, a) >= 0 ==> Reachable(env, slots, roots, Resolve(env, a))
  }

  /** Every slot that one of the addresses stands for is marked. */
  ghost predicate Covered(env: Env, addrs: set<nat>, f: seq<nat>, tick: nat) {
    forall a :: a in addrs && Resolve(env, a) >= 0 ==> Resolve(env, a) in Marked(f, tick)
  }

  /** Depth-first search from one address. */
  method Mark(a: nat, env: Env, slots: seq<Slot>, f: array<nat>, tick: nat, ghost roots: set<int>)
    requires env.size == |slots| <= f.Length && AllReachable(env, slots, roots, {a})
    modifies f
    ensures Traversed(env, slots, roots, old(f[..]), f[..], tick) && Covered(env, {a}, f[..], tick)
    decreases Unmarked(f[..], tick), 0
  {
    var i := Resolve(env, a);
    if i < 0 || f[i] == tick {
      return;
    }
    ghost var f0 := f[..];
    f[i] := tick;
    assert f[..] == f0[i := tick];
    assert i in Unmarked(f0, tick) && Unmarked(f[..], tick) == Unmarked(f0, tick) - {i};
    SuccReachable(env, slots, roots, i);
    match slots[i].value {
      case None =>
      case Some(SetValue(c)) => MarkSet(c.addrs, env, slots, f, tick, roots);
      case Some(ObjectValue(ms, _)) => MarkMembers(ms, env, slots, f, tick, roots);
    }
    TraversedNode(env, slots, roots, f0, f[..], tick, i);
  }

  lemma SuccReachable(env: Env, slots: seq<Slot>, roots: set<int>, i: int)
    requires env.size == |slots| && 0 <= i < |slots| && Reachable(env, slots, roots, i)
    ensures AllReachable(env, slots, roots, RefSet(HeldBy(slots[i])))
  {
    forall a | a in RefSet(HeldBy(slots[i])) && Resolve(env, a) >= 0
      ensures Reachable(env, slots, roots, Resolve(env, a))
    {
      assert Resolve(env, a) in Succ(env, slots, i);
      ReachStep(env, slots, roots, i, Resolve(env, a));
    }
  }

  /** Searches from every address of a set. */
  method MarkSet(addrs: set<nat>, env: Env, slots: seq<Slot>, f: array<nat>, tick: nat, ghost roots: set<int>)
    requires env.size == |slots| <= f.Length && AllReachable(env, slots, roots, addrs)
    modifies f
    ensures Traversed(env, slots, roots, old(f[..]), f[..], tick) && Covered(env, addrs, f[..], tick)
    decreases Unmarked(f[..], tick), 1
  {
    ghost var f0 := f[..];
    var rest := addrs;
    while rest != {}
      invariant rest <= addrs && Traversed(env, slots, roots, f0, f[..], tick)
      invariant Covered(env, addrs - rest, f[..], tick)
      decreases rest
    {
      var a :| a in rest;
      ghost var f1 := f[..];
      UnmarkedShrinks(env, slots, roots, f0, f1, tick);
      Mark(a, env, slots, f, tick, roots);
      TraversedThen(env, slots, roots, f0, f1, f[..], tick);
      rest := rest - {a};
    }
  }

  /** Searches from every member of an object. */
  method MarkMembers(ms: seq<nat>, env: Env, slots: seq<Slot>, f: array<nat>, tick: nat, ghost roots: set<int>)
    requires env.size == |slots| <= f.Length && AllReachable(env, slots, roots, Elems(ms))
    modifies f
    ensures Traversed(env, slots, roots, old(f[..]), f[..], tick) && Covered(env, Elems(ms), f[..], tick)
    decreases Unmarked(f[..], tick), 1
  {
    ghost var f0 := f[..];
    for j := 0 to |ms|
      invariant Traversed(env, slots, roots, f0, f[..], tick)
      invariant Covered(env, Elems(ms[..j]), f[..], tick)
    {
      ghost var f1 := f[..];
      UnmarkedShrinks(env, slots, roots, f0, f1, tick);
      Mark(ms[j], env, slots, f, tick, roots);
      TraversedThen(env, slots, roots, f0, f1, f[..], tick);
      assert forall a :: a in ms[..j + 1] <==> a in ms[..j] || a == ms[j];
    }
    assert ms[..|ms|] == ms;
  }

  // ---------- roots ----------

  /** Registers and static fields as holders of references. */
  function AsHolders(sets: seq<AddrSet>): (hs: seq<Value>)
    ensures |hs| == |sets| && forall k :: 0 <= k < |sets| ==> hs[k] == SetValue(sets[k])
  {
    seq(|sets|, k requires 0 <= k < |sets| => SetValue(sets[k]))
  }

  /** The slots the roots refer to. */
  function RootSlots(env: Env, sets: seq<AddrSet>): set<int> {
    if sets == [] then {} else RootSlots(env, sets[..|sets| - 1]) + Targets(env, SetValue(sets[|sets| - 1]))
  }

  lemma {:induction false} RootSlotsOf(env: Env, sets: seq<AddrSet>, k: nat)
    requires k < |sets|
    ensures Targets(env, SetValue(sets[k])) <= RootSlots(env, sets)
  {
    if k < |sets| - 1 {
      RootSlotsOf(env, sets[..|sets| - 1], k);
    }
  }

  lemma {:induction false} RootHolder(env: Env, sets: seq<AddrSet>, i: int)
    requires i in RootSlots(env, sets)
    ensures Total(env, AsHolders(sets), i) >= 1
  {
    var n := |sets| - 1;
    if sets != [] {
      assert AsHolders(sets)[..n] == AsHolders(sets[..n]);
      if i in RootSlots(env, sets[..n]) {
        RootHolder(env, sets[..n], i);
      } else {
        var a :| a in sets[n].addrs && Resolve(env, a) == i;
        CountTarget(env, SetValue(sets[n]), a);
      }
    }
  }

  lemma {:induction false} MemberPoints(env: Env, ms: seq<nat>, a: nat)
    requires a in ms
    ensures PointingSeq(env, ms, Resolve(env, a)) >= 1
  {
    if ms[0] != a {
      MemberPoints(env, ms[1..], a);
    }
  }

  lemma CountTarget(env: Env, v: Value, a: nat)
    requires a in RefSet(v)
    ensures Count(env, v, Resolve(env, a)) >= 1
  {
    match v
    case SetValue(c) => assert a in Pointing(env, c.addrs, Resolve(env, a));
    case ObjectValue(ms, _) => MemberPoints(env, ms, a);
  }

  // ---------- sweeping ----------

  /** `now` is `s0` with some unmarked cells emptied. */
  ghost predicate Intact(s0: seq<Slot>, now: seq<Slot>, marked: set<int>) {
    && |s0| == |now|
    && (forall j :: Live(s0, j) && j in marked ==> Live(now, j))
    && (forall j :: Live(now, j) ==> Live(s0, j) && now[j].value == s0[j].value)
  }

  /** A reachable cell survives a sweep of an unreachable one. */
  lemma {:induction false} PathSurvives(env: Env, s0: seq<Slot>, mid: seq<Slot>, now: seq<Slot>, sets: seq<AddrSet>, marked: set<int>, i: int, p: seq<int>)
    requires Intact(s0, mid, marked) && Others(mid, now, i) && i !in marked
    requires forall j :: j != i && Live(mid, j) && !Live(now, j) ==> Refs(env, now, AsHolders(sets), j) == 0
    requires IsPath(env, s0, p) && p[0] in RootSlots(env, sets) && (forall k :: 0 <= k < |p| ==> p[k] in marked)
    requires Live(s0, p[|p| - 1])
    ensures Live(now, p[|p| - 1])
  {
    var x := p[|p| - 1];
    if |p| == 1 {
      RootHolder(env, sets, x);
    } else {
      var y := p[|p| - 2];
      assert p[|p| - 2 + 1] in Succ(env, s0, y);
      var a :| a in RefSet(HeldBy(s0[y])) && Resolve(env, a) == x;
      PathSurvives(env, s0, mid, now, sets, marked, i, p[..|p| - 1]);
      CountTarget(env, HeldBy(now[y]), a);
      TotalAtLeast(env, Held(now), y, x);
    }
  }

  /** The marks are the slots reachable from the roots. */
  ghost predicate MarksAre(env: Env, slots: seq<Slot>, sets: seq<AddrSet>, marked: set<int>) {
    && env.size == |slots|
    && forall j :: j in marked <==> Reachable(env, slots, RootSlots(env, sets), j)
  }

  lemma SweepKeeps(env: Env, s0: seq<Slot>, mid: seq<Slot>, now: seq<Slot>, sets: seq<AddrSet>, marked: set<int>, i: int)
    requires Intact(s0, mid, marked) && Others(mid, now, i) && i !in marked && 0 <= i < |now| && now[i].value.None?
    requires forall j :: j != i && Live(mid, j) && !Live(now, j) ==> Refs(env, now, AsHolders(sets), j) == 0
    requires MarksAre(env, s0, sets, marked)
    ensures Intact(s0, now, marked)
  {
    hide MarksAre, IsPath, RootSlots, Refs;
    forall j | Live(s0, j) && j in marked
      ensures Live(now, j)
    {
      var p := MarkedPath(env, s0, sets, marked, j);
      PathSurvives(env, s0, mid, now, sets, marked, i, p);
    }
  }

  lemma MarkedPath(env: Env, slots: seq<Slot>, sets: seq<AddrSet>, marked: set<int>, j: int) returns (p: seq<int>)
    requires MarksAre(env, slots, sets, marked) && j in marked
    ensures IsPath(env, slots, p) && p[0] in RootSlots(env, sets) && p[|p| - 1] == j
    ensures forall k :: 0 <= k < |p| ==> p[k] in marked
  {
    MarksClosed(env, slots, sets, marked);
    p :| Leads(env, slots, RootSlots(env, sets), p, j);
    ReachClosed(env, slots, RootSlots(env, sets), marked, p);
  }

  /** Marks from every root. */
  method MarkRoots(sets: seq<AddrSet>, env: Env, slots: seq<Slot>, f: array<nat>, tick: nat)
    requires env.size == |slots| <= f.Length && Marked(f[..], tick) == {}
    modifies f
    ensures MarksAre(env, slots, sets, Marked(f[..], tick))
  {
    ghost var roots, f0 := RootSlots(env, sets), f[..];
    for k := 0 to |sets|
      invariant Traversed(env, slots, roots, f0, f[..], tick)
      invariant forall m :: 0 <= m < k ==> Covered(env, sets[m].addrs, f[..], tick)
    {
      ghost var f1 := f[..];
      RootReachable(env, slots, sets, k);
      MarkSet(sets[k].addrs, env, slots, f, tick, roots);
      TraversedThen(env, slots, roots, f0, f1, f[..], tick);
    }
    MarkedExactly(env, slots, sets, f0, f[..], tick);
  }

  lemma RootReachable(env: Env, slots: seq<Slot>, sets: seq<AddrSet>, k: nat)
    requires env.size == |slots| && k < |sets|
    ensures AllReachable(env, slots, RootSlots(env, sets), sets[k].addrs)
  {
    forall a | a in sets[k].addrs && Resolve(env, a) >= 0
      ensures Reachable(env, slots, RootSlots(env, sets), Resolve(env, a))
    {
      RootSlotsOf(env, sets, k);
      assert Resolve(env, a) in Targets(env, SetValue(sets[k]));
      ReachRoot(env, slots, RootSlots(env, sets), Resolve(env, a));
    }
  }

  lemma {:induction false} RootsCovered(env: Env, sets: seq<AddrSet>, f: seq<nat>, tick: nat)
    requires forall m :: 0 <= m < |sets| ==> Covered(env, sets[m].addrs, f, tick)
    ensures RootSlots(env, sets) <= Marked(f, tick)
  {
    if sets != [] {
      RootsCovered(env, sets[..|sets| - 1], f, tick);
      assert Covered(env, sets[|sets| - 1].addrs, f, tick);
    }
  }

  lemma MarkedExactly(env: Env, slots: seq<Slot>, sets: seq<AddrSet>, f0: seq<nat>, f: seq<nat>, tick: nat)
    requires Marked(f0, tick) == {} && Traversed(env, slots, RootSlots(env, sets), f0, f, tick)
    requires forall m :: 0 <= m < |sets| ==> Covered(env, sets[m].addrs, f, tick)
    ensures forall j :: j in Marked(f, tick) <==> Reachable(env, slots, RootSlots(env, sets), j)
  {
    RootsCovered(env, sets, f, tick);
    forall j | Reachable(env, slots, RootSlots(env, sets), j)
      ensures j in Marked(f, tick)
    {
      var p :| Leads(env, slots, RootSlots(env, sets), p, j);
      ReachClosed(env, slots, RootSlots(env, sets), Marked(f, tick), p);
    }
  }

  /** Empties the unmarked cells. */
  method Sweep(store: Store, f: seq<nat>, tick: nat, ghost sets: seq<AddrSet>)
    requires store.Accurate() && |store.slots| <= |f|
    requires Bound(store.TheEnv(), store.slots, AsHolders(sets))
    requires MarksAre(store.TheEnv(), store.slots, sets, Marked(f, tick))
    modifies store`slots, store`numEnt
    ensures store.Accurate() && |store.slots| == old(|store.slots|)
    ensures Bound(store.TheEnv(), store.slots, AsHolders(sets))
    ensures forall j :: Live(store.slots, j) <==> old(Live(store.slots, j)) && j in Marked(f, tick)
    ensures forall j :: Live(store.slots, j) ==> store.slots[j].value == old(store.slots[j].value)
    ensures Spent(old(store.slots), store.slots, -1)
  {
    hide GapsMoved, MarksAre, Bound, Intact, LiveIn, Live, Spent, LiveSet;
    ghost var env, s0, e0, marked := store.TheEnv(), store.slots, store.numEnt, Marked(f, tick);
    GapsSame(store.blockSlots, s0, e0, s0, 0);
    IntactSelf(s0, marked);
    SpentSelf(s0, -1);
    for k := 0 to |store.slots|
      invariant store.Shaped() && store.TheEnv() == env && Intact(s0, store.slots, marked)
      invariant GapsMoved(store.blockSlots, s0, e0, store.slots, store.numEnt, 0, 0)
      invariant Bound(env, store.slots, AsHolders(sets)) && Spent(s0, store.slots, -1)
      invariant forall j :: 0 <= j < k && j !in marked ==> store.slots[j].value.None?
    {
      ghost var s1, e1 := store.slots, store.numEnt;
      if f[k] != tick && store.slots[k].value.Some? {
        IsLive(store.slots, k);
        SweepOne(store, k, sets, s0, marked);
        SweptSpent(s0, s1, store.slots);
        GapsThen(store.blockSlots, s0, e0, s1, e1, store.slots, store.numEnt, 0, 0, 0);
      }
    }
    SweepDone(s0, store.slots, marked);
    StillAccurate(store.blockSlots, s0, e0, store.slots, store.numEnt);
  }

  lemma IntactSelf(slots: seq<Slot>, marked: set<int>)
    ensures Intact(slots, slots, marked)
  {
  }

  lemma SweptSpent(s0: seq<Slot>, s1: seq<Slot>, s2: seq<Slot>)
    requires |s0| == |s1| == |s2| && Spent(s0, s1, -1) && Spent(s1, s2, -1)
    requires forall j :: 0 <= j < |s1| && s1[j].value.None? ==> s2[j] == s1[j]
    ensures Spent(s0, s2, -1)
  {
  }

  lemma IsLive(slots: seq<Slot>, k: nat)
    requires k < |slots| && slots[k].value.Some?
    ensures Live(slots, k)
  {
  }

  lemma SweepDone(s0: seq<Slot>, now: seq<Slot>, marked: set<int>)
    requires Intact(s0, now, marked) && forall j :: 0 <= j < |now| && j !in marked ==> now[j].value.None?
    ensures forall j :: Live(now, j) <==> Live(s0, j) && j in marked
    ensures forall j :: Live(now, j) ==> now[j].value == s0[j].value
  {
  }

  lemma StillAccurate(n: nat, s0: seq<Slot>, e0: seq<int>, s1: seq<Slot>, e1: seq<int>)
    requires GapsMoved(n, s0, e0, s1, e1, 0, 0)
    requires forall b :: 0 <= b < |e0| ==> e0[b] == |LiveIn(s0, n, b)|
    ensures forall b :: 0 <= b < |e1| ==> e1[b] == |LiveIn(s1, n, b)|
  {
  }

  lemma MarksClosed(env: Env, slots: seq<Slot>, sets: seq<AddrSet>, marked: set<int>)
    requires MarksAre(env, slots, sets, marked)
    ensures RootSlots(env, sets) <= marked
    ensures forall j :: j in marked && 0 <= j < |slots| ==> Succ(env, slots, j) <= marked
  {
    forall r | r in RootSlots(env, sets)
      ensures r in marked
    {
      RootSlotsInRange(env, sets);
      ReachRoot(env, slots, RootSlots(env, sets), r);
    }
    forall j, x | j in marked && 0 <= j < |slots| && x in Succ(env, slots, j)
      ensures x in marked
    {
      ReachStep(env, slots, RootSlots(env, sets), j, x);
    }
  }

  lemma {:induction false} RootSlotsInRange(env: Env, sets: seq<AddrSet>)
    ensures forall r :: r in RootSlots(env, sets) ==> 0 <= r < env.size
  {
    if sets != [] {
      RootSlotsInRange(env, sets[..|sets| - 1]);
    }
  }

  /** Detaches one unmarked cell and clears its counter. */
  method SweepOne(store: Store, k: nat, ghost sets: seq<AddrSet>, ghost s0: seq<Slot>, ghost marked: set<int>)
    requires store.Shaped() && Live(store.slots, k) && k !in marked && Intact(s0, store.slots, marked)
    requires Bound(store.TheEnv(), store.slots, AsHolders(sets)) && MarksAre(store.TheEnv(), s0, sets, marked)
    modifies store`slots, store`numEnt
    ensures store.Shaped() && |store.slots| == old(|store.slots|) && Intact(s0, store.slots, marked)
    ensures GapsMoved(store.blockSlots, old(store.slots), old(store.numEnt), store.slots, store.numEnt, 0, 0)
    ensures Bound(store.TheEnv(), store.slots, AsHolders(sets)) && store.slots[k].value.None?
    ensures forall j :: 0 <= j < |store.slots| && old(store.slots[j].value.None?) ==> store.slots[j] == old(store.slots[j])
    ensures Spent(old(store.slots), store.slots, -1)
  {
    hide MarksAre, GapsMoved;
    ghost var env, s1, e1 := store.TheEnv(), store.slots, store.numEnt;
    NothingPending(env, AsHolders(sets), NOTHING);
    store.Attach(k, None, AsHolders(sets));
    ghost var s2 := store.slots;
    SweepKeeps(env, s0, s1, s2, sets, marked, k);
    store.slots := store.slots[k := store.slots[k].(refcnt := 0)];
    assert Held(store.slots) == Held(s2);
    assert LiveSet(store.slots) == LiveSet(s2);
    GapsSame(store.blockSlots, s2, store.numEnt, store.slots, 0);
    GapsThen(store.blockSlots, s1, e1, s2, store.numEnt, store.slots, store.numEnt, 0, 0, 0);
  }

  // ---------- the collector ----------

  lemma ResolveShorter(env: Env, m: nat, a: nat, i: int)
    requires 0 <= i < m <= env.size
    ensures Resolve(Env(m, env.reloc), a) == i <==> Resolve(env, a) == i
  {
  }

  lemma {:induction false} PointingShorter(env: Env, m: nat, ms: seq<nat>, i: int)
    requires 0 <= i < m <= env.size
    ensures PointingSeq(Env(m, env.reloc), ms, i) == PointingSeq(env, ms, i)
  {
    if ms != [] {
      ResolveShorter(env, m, ms[0], i);
      PointingShorter(env, m, ms[1..], i);
    }
  }

  lemma {:induction false} TotalShorter(env: Env, m: nat, hs: seq<Value>, i: int)
    requires 0 <= i < m <= env.size
    ensures Total(Env(m, env.reloc), hs, i) == Total(env, hs, i)
  {
    if hs != [] {
      TotalShorter(env, m, hs[..|hs| - 1], i);
      match hs[|hs| - 1] {
        case SetValue(c) =>
          forall a | a in c.addrs
            ensures Resolve(Env(m, env.reloc), a) == i <==> Resolve(env, a) == i
          {
            ResolveShorter(env, m, a, i);
          }
          assert Pointing(Env(m, env.reloc), c.addrs, i) == Pointing(env, c.addrs, i);
        case ObjectValue(ms, _) => PointingShorter(env, m, ms, i);
      }
    }
  }

  lemma {:induction false} DeadTail(env: Env, slots: seq<Slot>, m: nat, i: int)
    requires m <= |slots| && forall j :: m <= j < |slots| ==> !Live(slots, j)
    ensures Total(env, Held(slots), i) == Total(env, Held(slots[..m]), i)
  {
    var n := |slots| - 1;
    if m <= n {
      assert !Live(slots, n);
      CountNothing(env, i);
      assert Held(slots)[..n] == Held(slots[..n]);
      assert slots[..n][..m] == slots[..m];
      forall j | m <= j < n
        ensures !Live(slots[..n], j)
      {
        assert !Live(slots, j);
      }
      DeadTail(env, slots[..n], m, i);
    } else {
      assert slots[..m] == slots;
    }
  }

  lemma BoundShorter(env: Env, slots: seq<Slot>, m: nat, hs: seq<Value>)
    requires env.size == |slots| && m <= |slots| && (forall j :: m <= j < |slots| ==> !Live(slots, j))
    requires Bound(env, slots, hs)
    ensures Bound(Env(m, env.reloc), slots[..m], hs)
  {
    var slots' := slots[..m];
    forall i | Live(slots', i)
      ensures slots'[i].refcnt >= Refs(Env(m, env.reloc), slots', hs, i)
    {
      assert Live(slots, i);
      TotalShorter(env, m, hs, i);
      TotalShorter(env, m, Held(slots'), i);
      DeadTail(env, slots, m, i);
    }
  }

  /**
   Collection is exact: the live cells left are those that were live and are reachable from the roots,
   with their values; the blocks released at the end of the store were empty.
   */
  method Collect(store: Store, sets: seq<AddrSet>, f: array<nat>, tick: nat)
    requires store.Accurate() && |store.slots| <= f.Length && Marked(f[..], tick) == {}
    requires Bound(store.TheEnv(), store.slots, AsHolders(sets))
    modifies store`slots, store`numEnt, f
    ensures store.Accurate() && |store.slots| <= old(|store.slots|)
    ensures forall j :: Live(store.slots, j) <==> old(Live(store.slots, j)) && old(Reaches(store.reloc, store.slots, sets, j))
    ensures forall j :: Live(store.slots, j) ==> store.slots[j].value == old(store.slots[j].value)
    ensures NamedKept(store.reloc, old(store.slots), store.slots, sets)
    ensures Spent(old(store.slots), store.slots, -1)
    ensures |store.numEnt| > 0 ==> LiveIn(store.slots, store.blockSlots, |store.numEnt| - 1) != {}
    ensures Bound(store.TheEnv(), store.slots, AsHolders(sets))
  {
    hide Reachable, RootSlots, Bound, LiveIn, Reaches, Spent, NamedKept;
    ghost var env0, s0 := store.TheEnv(), store.slots;
    forall j
      ensures Reachable(env0, s0, RootSlots(env0, sets), j) <==> Reaches(env0.reloc, s0, sets, j)
    {
      ReachableReaches(env0, s0, sets, j);
    }
    MarkRoots(sets, store.TheEnv(), store.slots, f, tick);
    Sweep(store, f[..], tick, sets);
    ghost var env, swept := store.TheEnv(), store.slots;
    store.Compact();
    BoundShorter(env, swept, |store.slots|, AsHolders(sets));
    assert swept[..|store.slots|] == store.slots;
    SpentShorter(s0, swept, |store.slots|);
    RootsKept(env0.reloc, s0, store.slots, sets);
  }

  lemma SpentShorter(was: seq<Slot>, now: seq<Slot>, m: nat)
    requires Spent(was, now, -1) && m <= |now|
    ensures Spent(was, now[..m], -1)
  {
    forall i | Live(was, i) && !Live(now[..m], i) && i < m
      ensures now[i].refcnt == 0
    {
      assert !Live(now, i);
    }
  }

  /** A live cell whose object address or relocated address a root holds is kept with its value. */
  ghost predicate NamedKept(reloc: map<nat, nat>, was: seq<Slot>, now: seq<Slot>, sets: seq<AddrSet>) {
    forall k, a :: 0 <= k < |sets| && a in sets[k].addrs ==>
      && (IsObj(a) && Live(was, a) ==> Live(now, a) && now[a].value == was[a].value)
      && (IsReloc(a) && a in reloc && Live(was, reloc[a]) ==> Live(now, reloc[a]) && now[reloc[a]].value == was[reloc[a]].value)
  }

  lemma RootsKept(reloc: map<nat, nat>, was: seq<Slot>, now: seq<Slot>, sets: seq<AddrSet>)
    requires forall j :: Live(was, j) && Reaches(reloc, was, sets, j) ==> Live(now, j)
    requires forall j :: Live(now, j) ==> Live(was, j) && now[j].value == was[j].value
    ensures NamedKept(reloc, was, now, sets)
  {
    hide Reaches;
    forall k, a | 0 <= k < |sets| && a in sets[k].addrs
      ensures IsObj(a) && Live(was, a) ==> Live(now, a) && now[a].value == was[a].value
      ensures IsReloc(a) && a in reloc && Live(was, reloc[a]) ==> Live(now, reloc[a]) && now[reloc[a]].value == was[reloc[a]].value
    {
      if IsObj(a) && Live(was, a) {
        RootReaches(reloc, was, sets, k, a, a);
      }
      if IsReloc(a) && a in reloc && Live(was, reloc[a]) {
        RootReaches(reloc, was, sets, k, a, reloc[a]);
      }
    }
  }
}
