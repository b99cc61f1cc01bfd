/**
 Frames: registers, static fields and a store, with operations that log every write into a forward and a
 reverse buffer and keep the reference counters in step.
 */
module Frames {
  import opened Values
  import opened Diffs
  import opened DiffBuffers
  import opened Stores
  import opened Collector
  import opened Patches
  import opened Logging

  // ---------- references of the roots ----------

  /** Replacing a root trades the references of its new value for those of its old one. */
  lemma RootReplaced(env: Env, roots: seq<AddrSet>, l: nat, v: AddrSet, ext: seq<Value>)
    requires l < |roots|
    ensures SameRefs(env, AsHolders(roots) + ext + [SetValue(v)], AsHolders(roots[l := v]) + ext + [SetValue(roots[l])])
  {
    forall i
      ensures Total(env, AsHolders(roots) + ext + [SetValue(v)], i)
           == Total(env, AsHolders(roots[l := v]) + ext + [SetValue(roots[l])], i)
    {
      assert AsHolders(roots[l := v]) == AsHolders(roots)[l := SetValue(v)];
      TotalUpdate(env, AsHolders(roots), l, SetValue(v), i);
      TotalConcat(env, AsHolders(roots), ext, i);
      TotalConcat(env, AsHolders(roots[l := v]), ext, i);
      TotalSnoc(env, AsHolders(roots) + ext, SetValue(v), i);
      TotalSnoc(env, AsHolders(roots[l := v]) + ext, SetValue(roots[l]), i);
    }
  }

  function Grown(c: AddrSet, a: nat): AddrSet {
    AddrSet(c.addrs + {a}, c.tags)
  }

  /** Pushing a new address adds one reference. */
  lemma RootGrown(env: Env, roots: seq<AddrSet>, l: nat, a: nat, ext: seq<Value>)
    requires l < |roots| && a !in roots[l].addrs
    ensures SameRefs(env, AsHolders(roots) + ext + [One(a)], AsHolders(roots[l := Grown(roots[l], a)]) + ext)
  {
    var v := Grown(roots[l], a);
    forall i
      ensures Total(env, AsHolders(roots) + ext + [One(a)], i) == Total(env, AsHolders(roots[l := v]) + ext, i)
    {
      assert AsHolders(roots[l := v]) == AsHolders(roots)[l := SetValue(v)];
      TotalUpdate(env, AsHolders(roots), l, SetValue(v), i);
      TotalConcat(env, AsHolders(roots), ext, i);
      TotalConcat(env, AsHolders(roots[l := v]), ext, i);
      TotalSnoc(env, AsHolders(roots) + ext, One(a), i);
      CountSetRemove(env, v.addrs, v.tags, a, i);
      assert v.addrs - {a} == roots[l].addrs;
    }
  }

  /** Tags carry no references. */
  lemma RootTagged(env: Env, roots: seq<AddrSet>, l: nat, tags: set<Tag>, ext: seq<Value>)
    requires l < |roots|
    ensures SameRefs(env, AsHolders(roots) + ext, AsHolders(roots[l := AddrSet(roots[l].addrs, tags)]) + ext)
  {
    var v := AddrSet(roots[l].addrs, tags);
    forall i
      ensures Total(env, AsHolders(roots) + ext, i) == Total(env, AsHolders(roots[l := v]) + ext, i)
    {
      assert AsHolders(roots[l := v]) == AsHolders(roots)[l := SetValue(v)];
      TotalUpdate(env, AsHolders(roots), l, SetValue(v), i);
      TotalConcat(env, AsHolders(roots), ext, i);
      TotalConcat(env, AsHolders(roots[l := v]), ext, i);
    }
  }

  /** More references are counted; the cells stay as they are. */
  ghost predicate Counted(env: Env, was: seq<Slot>, now: seq<Slot>, h0: seq<Value>, h1: seq<Value>) {
    && |was| == |now|
    && (forall i :: 0 <= i < |was| ==> now[i].value == was[i].value)
    && (forall i :: 0 <= i < |was| && was[i].value.None? ==> now[i] == was[i])
    && (Bound(env, was, h0) ==> Bound(env, now, h1)) && (Exact(env, was, h0) ==> Exact(env, now, h1))
    && (Positive(was, -1) ==> Positive(now, -1))
  }

  lemma RaisedCounted(env: Env, was: seq<Slot>, now: seq<Slot>, hs: seq<Value>, v: Value, hs': seq<Value>)
    requires Raised(env, was, now, hs, v) && SameRefs(env, hs + [v], hs')
    ensures Counted(env, was, now, hs, hs')
  {
  }

  lemma SameCounted(env: Env, slots: seq<Slot>, h0: seq<Value>, h1: seq<Value>)
    requires SameRefs(env, h0, h1)
    ensures Counted(env, slots, slots, h0, h1)
  {
  }

  lemma CountedThen(env: Env, s0: seq<Slot>, s1: seq<Slot>, s2: seq<Slot>, h0: seq<Value>, h1: seq<Value>, h2: seq<Value>)
    requires Counted(env, s0, s1, h0, h1) && Counted(env, s1, s2, h1, h2)
    ensures Counted(env, s0, s2, h0, h2)
  {
  }

  /** Counting first and then dropping is one cascade. */
  lemma CountedCascade(env: Env, s0: seq<Slot>, s1: seq<Slot>, s2: seq<Slot>, h0: seq<Value>, h1: seq<Value>, h1': seq<Value>, h2: seq<Value>)
    requires Counted(env, s0, s1, h0, h1) && SameRefs(env, h1, h1')
    requires Shrunk(s1, s2) && Cascaded(env, s1, s2, h1', h2)
    ensures Shrunk(s0, s2) && Cascaded(env, s0, s2, h0, h2)
  {
    assert forall i :: Live(s0, i) <==> Live(s1, i);
    if Bound(env, s0, h0) {
      SameRefsBound(env, s1, h1, h1');
    }
    if Exact(env, s0, h0) {
      SameRefsExact(env, s1, h1, h1');
    }
  }

  lemma CountedShrunk(env: Env, s0: seq<Slot>, s1: seq<Slot>, h0: seq<Value>, h1: seq<Value>)
    requires Counted(env, s0, s1, h0, h1)
    ensures Shrunk(s0, s1) && Cascaded(env, s0, s1, h0, h1) && LiveSet(s0) == LiveSet(s1) && (Positive(s0, -1) ==> Positive(s1, -1))
  {
    assert forall i :: Live(s0, i) <==> Live(s1, i);
  }

  lemma NoExtra(hs: seq<Value>)
    ensures hs + [] == hs
  {
  }

  // ---------- roots ----------

  /** What reading a static field gives: its value, its default if it has none yet; NULL_ADDR is no default. */
  function FieldValue(field: Option<AddrSet>, default: nat): AddrSet {
    if field.Some? then field.value else if default == NULL_ADDR then EMPTY_SET else AddrSet({default}, {})
  }

  function RootsOf(regs: seq<AddrSet>, statics: seq<Option<AddrSet>>, defaults: seq<nat>): (r: seq<AddrSet>)
    requires |statics| == |defaults|
    ensures |r| == |regs| + |statics|
    ensures forall l :: 0 <= l < |regs| ==> r[l] == regs[l]
    ensures forall k :: 0 <= k < |statics| ==> r[|regs| + k] == FieldValue(statics[k], defaults[k])
  {
    regs + seq(|statics|, k requires 0 <= k < |statics| => FieldValue(statics[k], defaults[k]))
  }

  lemma RegRoots(regs: seq<AddrSet>, statics: seq<Option<AddrSet>>, defaults: seq<nat>, r: nat, v: AddrSet)
    requires |statics| == |defaults| && r < |regs|
    ensures RootsOf(regs[r := v], statics, defaults) == RootsOf(regs, statics, defaults)[r := v]
  {
  }

  lemma FieldRoots(regs: seq<AddrSet>, statics: seq<Option<AddrSet>>, defaults: seq<nat>, k: nat, v: AddrSet)
    requires |statics| == |defaults| && k < |statics|
    ensures RootsOf(regs, statics[k := Some(v)], defaults) == RootsOf(regs, statics, defaults)[|regs| + k := v]
  {
    var xs, ys := RootsOf(regs, statics[k := Some(v)], defaults), RootsOf(regs, statics, defaults)[|regs| + k := v];
    forall l | 0 <= l < |xs|
      ensures xs[l] == ys[l]
    {
      if l >= |regs| {
        assert xs[|regs| + (l - |regs|)] == FieldValue(statics[k := Some(v)][l - |regs|], defaults[l - |regs|]);
      }
    }
  }

  lemma WriteLogged(d: Dims, roots: seq<AddrSet>, r: nat, v: AddrSet, f: seq<Rec>, i: seq<Rec>)
    requires d.Valid() && |roots| == d.size + d.fields && RefLoc(d, r) >= 0
    ensures Logged(r, RootCells(d, roots), RootCells(d, roots[RefLoc(d, r) := v]),
                   f, f + [Rec(r, SetArg(v))], i, i + [Rec(r, SetArg(roots[RefLoc(d, r)]))])
  {
    hide RootCells;
    RootCellsAt(d, roots, r);
    RootCellsUpdate(d, roots, r, v);
  }

  lemma FailureLogged(d: Dims, roots: seq<AddrSet>, r: nat, f: seq<Rec>, i: seq<Rec>)
    requires d.Valid() && |roots| == d.size + d.fields && RefLoc(d, r) >= 0
    ensures Logged(r, RootCells(d, roots), RootCells(d, roots), f, f, i, i + [Rec(r, SetArg(roots[RefLoc(d, r)]))])
  {
    hide RootCells;
    RootCellsAt(d, roots, r);
  }

  // ---------- fields of objects ----------

  /** The contents of the set cell at `a`. */
  function SetAt(env: Env, slots: seq<Slot>, a: nat): Option<AddrSet>
    requires env.size == |slots|
  {
    var i := Resolve(env, a);
    if i >= 0 && slots[i].value.Some? && slots[i].value.value.SetValue? then Some(slots[i].value.value.contents) else None
  }

  /** What loading a field of the object at `a` gives; `lookup` finds the cell of the field in an object. */
  function FieldAt(env: Env, slots: seq<Slot>, lookup: seq<nat> -> Option<nat>, a: nat): AddrSet
    requires env.size == |slots|
  {
    var i := Resolve(env, a);
    if i >= 0 && slots[i].value.Some? && slots[i].value.value.ObjectValue? && lookup(slots[i].value.value.members).Some? then
      var c := SetAt(env, slots, lookup(slots[i].value.value.members).value);
      if c.Some? then c.value else EMPTY_SET
    else EMPTY_SET
  }

  /** The union of that field over all objects of a set. */
  ghost function Gathered(env: Env, slots: seq<Slot>, lookup: seq<nat> -> Option<nat>, objs: set<nat>): AddrSet
    requires env.size == |slots|
  {
    AddrSet(set a, x | a in objs && x in FieldAt(env, slots, lookup, a).addrs :: x,
            set a, t | a in objs && t in FieldAt(env, slots, lookup, a).tags :: t)
  }

  /** Address `a` names a set cell with contents `c`. */
  ghost predicate NamesSet(reloc: map<nat, nat>, slots: seq<Slot>, a: nat, c: AddrSet) {
    exists i :: Names(reloc, a, i) && Live(slots, i) && slots[i].value.value == SetValue(c)
  }

  /** Address `a` names an object in which `lookup` finds a field whose set cell has contents `c`. */
  ghost predicate HoldsField(reloc: map<nat, nat>, slots: seq<Slot>, lookup: seq<nat> -> Option<nat>, a: nat, c: AddrSet) {
    exists i :: Names(reloc, a, i) && Live(slots, i) && slots[i].value.value.ObjectValue? &&
      lookup(slots[i].value.value.members).Some? && NamesSet(reloc, slots, lookup(slots[i].value.value.members).value, c)
  }

  lemma SetAtNames(env: Env, slots: seq<Slot>, a: nat, c: AddrSet)
    requires env.size == |slots|
    ensures SetAt(env, slots, a) == Some(c) <==> NamesSet(env.reloc, slots, a, c)
  {
    forall i
      ensures Live(slots, i) ==> (Resolve(env, a) == i <==> Names(env.reloc, a, i))
    {
      ResolveNames(env, a, i);
    }
  }

  lemma NamedSet(env: Env, slots: seq<Slot>, a: nat)
    requires env.size == |slots|
    ensures forall c :: NamesSet(env.reloc, slots, a, c) <==> SetAt(env, slots, a) == Some(c)
  {
    hide NamesSet, SetAt;
    forall c
      ensures NamesSet(env.reloc, slots, a, c) <==> SetAt(env, slots, a) == Some(c)
    {
      SetAtNames(env, slots, a, c);
    }
  }

  lemma FieldAtHolds(env: Env, slots: seq<Slot>, lookup: seq<nat> -> Option<nat>, a: nat)
    requires env.size == |slots|
    ensures forall c :: HoldsField(env.reloc, slots, lookup, a, c) ==> FieldAt(env, slots, lookup, a) == c
    ensures FieldAt(env, slots, lookup, a) != EMPTY_SET ==> HoldsField(env.reloc, slots, lookup, a, FieldAt(env, slots, lookup, a))
  {
    hide NamesSet;
    forall b, c
      ensures SetAt(env, slots, b) == Some(c) <==> NamesSet(env.reloc, slots, b, c)
    {
      SetAtNames(env, slots, b, c);
    }
    forall i
      ensures Live(slots, i) ==> (Resolve(env, a) == i <==> Names(env.reloc, a, i))
    {
      ResolveNames(env, a, i);
    }
  }

  /**
   `now` is what a load of a field from `objs` leaves in a register that held `was`: what the set cells of that
   field hold, over all objects that have it. An empty register keeps its tags.
   */
  ghost predicate Gathers(reloc: map<nat, nat>, slots: seq<Slot>, lookup: seq<nat> -> Option<nat>, objs: set<nat>, was: AddrSet, now: AddrSet) {
    && (forall x :: x in now.addrs <==> exists a, c :: a in objs && HoldsField(reloc, slots, lookup, a, c) && x in c.addrs)
    && (forall t :: t in now.tags <==>
          (was.addrs == {} && t in was.tags) || exists a, c :: a in objs && HoldsField(reloc, slots, lookup, a, c) && t in c.tags)
  }

  lemma GatheredHolds(env: Env, slots: seq<Slot>, lookup: seq<nat> -> Option<nat>, objs: set<nat>, was: AddrSet)
    requires env.size == |slots|
    ensures Gathers(env.reloc, slots, lookup, objs, was, FieldLoaded(was, Gathered(env, slots, lookup, objs)))
  {
    hide HoldsField, FieldAt;
    var g := Gathered(env, slots, lookup, objs);
    forall a
      ensures forall c :: HoldsField(env.reloc, slots, lookup, a, c) ==> FieldAt(env, slots, lookup, a) == c
      ensures FieldAt(env, slots, lookup, a) != EMPTY_SET ==> HoldsField(env.reloc, slots, lookup, a, FieldAt(env, slots, lookup, a))
    {
      FieldAtHolds(env, slots, lookup, a);
    }
    forall a, c | a in objs && HoldsField(env.reloc, slots, lookup, a, c)
      ensures c.addrs <= g.addrs && c.tags <= g.tags
    {
      assert FieldAt(env, slots, lookup, a) == c;
    }
    forall x | x in g.addrs
      ensures exists a, c :: a in objs && HoldsField(env.reloc, slots, lookup, a, c) && x in c.addrs
    {
      var a :| a in objs && x in FieldAt(env, slots, lookup, a).addrs;
      assert HoldsField(env.reloc, slots, lookup, a, FieldAt(env, slots, lookup, a));
    }
    forall t | t in g.tags
      ensures exists a, c :: a in objs && HoldsField(env.reloc, slots, lookup, a, c) && t in c.tags
    {
      var a :| a in objs && t in FieldAt(env, slots, lookup, a).tags;
      assert HoldsField(env.reloc, slots, lookup, a, FieldAt(env, slots, lookup, a));
    }
  }

  lemma GatheredNone(env: Env, slots: seq<Slot>, lookup: seq<nat> -> Option<nat>, c: AddrSet)
    requires env.size == |slots|
    ensures Join(c, Gathered(env, slots, lookup, {})) == c
  {
  }

  lemma GatheredMore(env: Env, slots: seq<Slot>, lookup: seq<nat> -> Option<nat>, objs: set<nat>, a: nat, c: AddrSet)
    requires env.size == |slots|
    ensures Join(c, Gathered(env, slots, lookup, objs + {a}))
         == Join(Join(c, Gathered(env, slots, lookup, objs)), FieldAt(env, slots, lookup, a))
  {
  }

  lemma FieldsSame(env: Env, s0: seq<Slot>, s1: seq<Slot>, lookup: seq<nat> -> Option<nat>, objs: set<nat>)
    requires env.size == |s0| == |s1| && forall i :: 0 <= i < |s0| ==> s0[i].value == s1[i].value
    ensures forall a :: FieldAt(env, s0, lookup, a) == FieldAt(env, s1, lookup, a)
    ensures Gathered(env, s0, lookup, objs) == Gathered(env, s1, lookup, objs)
  {
    assert forall a :: FieldAt(env, s0, lookup, a) == FieldAt(env, s1, lookup, a);
  }

  /** One operation on the store: emptied cells were unreferenced, and counters and entity counts keep up. */
  ghost predicate Balanced(store: Store, s0: seq<Slot>, e0: seq<int>, roots0: seq<AddrSet>, roots: seq<AddrSet>)
    reads store
  {
    && Shrunk(s0, store.slots)
    && GapsMoved(store.blockSlots, s0, e0, store.slots, store.numEnt, 0, 0)
    && Cascaded(store.TheEnv(), s0, store.slots, AsHolders(roots0), AsHolders(roots))
    && (Positive(s0, -1) ==> Positive(store.slots, -1))
  }

  lemma CountedBalanced(store: Store, s0: seq<Slot>, roots0: seq<AddrSet>, roots: seq<AddrSet>)
    requires Counted(store.TheEnv(), s0, store.slots, AsHolders(roots0), AsHolders(roots))
    ensures Balanced(store, s0, store.numEnt, roots0, roots)
  {
    hide GapsMoved, Counted, Shrunk, Cascaded, LiveSet, AsHolders, Positive;
    CountedShrunk(store.TheEnv(), s0, store.slots, AsHolders(roots0), AsHolders(roots));
    ShrunkSize(s0, store.slots);
    GapsSame(store.blockSlots, s0, store.numEnt, store.slots, 0);
  }

  /** Counting and then dropping, as one operation. */
  lemma CountedThenDropped(store: Store, s0: seq<Slot>, s1: seq<Slot>, e0: seq<int>, roots0: seq<AddrSet>, h1: seq<Value>, h1': seq<Value>, roots: seq<AddrSet>)
    requires Counted(store.TheEnv(), s0, s1, AsHolders(roots0), h1) && SameRefs(store.TheEnv(), h1, h1')
    requires Shrunk(s1, store.slots) && Cascaded(store.TheEnv(), s1, store.slots, h1', AsHolders(roots))
    requires Positive(s1, -1) ==> Positive(store.slots, -1)
    requires GapsMoved(store.blockSlots, s1, e0, store.slots, store.numEnt, 0, 0)
    ensures Balanced(store, s0, e0, roots0, roots)
  {
    hide GapsMoved, Counted, Shrunk, Cascaded, LiveSet, AsHolders, SameRefs, Positive;
    CountedCascade(store.TheEnv(), s0, s1, store.slots, AsHolders(roots0), h1, h1', AsHolders(roots));
    CountedShrunk(store.TheEnv(), s0, s1, AsHolders(roots0), h1);
    ShrunkSize(s0, s1);
    GapsSame(store.blockSlots, s0, e0, s1, 0);
    GapsThen(store.blockSlots, s0, e0, s1, e0, store.slots, store.numEnt, 0, 0, 0);
  }

  lemma Unchanged(store: Store, roots: seq<AddrSet>)
    ensures Balanced(store, store.slots, store.numEnt, roots, roots)
  {
    SameRefsSelf(store.TheEnv(), AsHolders(roots));
    SameCounted(store.TheEnv(), store.slots, AsHolders(roots), AsHolders(roots));
    CountedBalanced(store, store.slots, roots, roots);
  }

  /** What a load leaves in a register that held `c`. */
  function Loaded(c: AddrSet, a: nat, tags: Option<set<Tag>>): AddrSet {
    AddrSet({a}, if tags.Some? then tags.value else if c.addrs == {} then c.tags else {})
  }

  /** What loading a field leaves in a register that held `c`: an empty one keeps its tags. */
  function FieldLoaded(c: AddrSet, loaded: AddrSet): AddrSet {
    Join(if c.addrs == {} then c else EMPTY_SET, loaded)
  }

  lemma RootEmptied(env: Env, roots: seq<AddrSet>, l: nat)
    requires l < |roots|
    ensures SameRefs(env, AsHolders(roots), AsHolders(roots[l := EMPTY_SET]) + [SetValue(roots[l])])
  {
    hide AsHolders;
    RootReplaced(env, roots, l, EMPTY_SET, []);
    NoExtra(AsHolders(roots));
    NoExtra(AsHolders(roots[l := EMPTY_SET]));
    NothingPending(env, AsHolders(roots), NOTHING);
  }

  lemma RootLoaded(env: Env, roots: seq<AddrSet>, l: nat, a: nat, tags: set<Tag>)
    requires l < |roots| && roots[l].addrs == {}
    ensures SameRefs(env, AsHolders(roots) + [One(a)], AsHolders(roots[l := AddrSet(roots[l].addrs + {a}, tags)]))
  {
    hide AsHolders;
    RootGrown(env, roots, l, a, []);
    var roots1 := roots[l := Grown(roots[l], a)];
    RootTagged(env, roots1, l, tags, []);
    NoExtra(AsHolders(roots));
    NoExtra(AsHolders(roots1));
    assert roots1[l := AddrSet(roots1[l].addrs, tags)] == roots[l := AddrSet(roots[l].addrs + {a}, tags)];
    NoExtra(AsHolders(roots[l := AddrSet(roots[l].addrs + {a}, tags)]));
  }

  lemma SameRefsSwap(env: Env, xs: seq<Value>, ys: seq<Value>)
    requires SameRefs(env, xs, ys)
    ensures SameRefs(env, ys, xs)
  {
  }

  lemma SameRefsSelf(env: Env, hs: seq<Value>)
    ensures SameRefs(env, hs, hs)
  {
  }

  class Frame {
    const dims: Dims
    /** The default value of each static field, NULL_ADDR before the field has been queried. */
    const defaults: seq<nat>
    var regs: seq<AddrSet>
    /** The static fields; None for one that has not been initialised. */
    var statics: seq<Option<AddrSet>>
    const store: Store

    /** A frame with empty registers and no static field initialised. */
    constructor (dims: Dims, defaults: seq<nat>, store: Store)
      requires dims.size <= STATIC_PREFIX && dims.fields < STATIC_PREFIX && |defaults| == dims.fields && store.Shaped()
      requires forall k :: 0 <= k < |defaults| ==> IsConst(defaults[k])
      ensures Valid() && this.dims == dims && this.store == store
      ensures forall l :: 0 <= l < dims.size ==> Roots()[l] == EMPTY_SET
      ensures forall k :: 0 <= k < dims.fields ==> Roots()[dims.size + k] == FieldValue(None, defaults[k])
    {
      this.dims, this.defaults, this.store := dims, defaults, store;
      regs := seq(dims.size, l => EMPTY_SET);
      statics := seq(dims.fields, k => None);
    }

    ghost predicate Valid()
      reads this, store
    {
      && dims.size <= STATIC_PREFIX && dims.fields < STATIC_PREFIX
      && |regs| == dims.size && |statics| == |defaults| == dims.fields
      && (forall k :: 0 <= k < |defaults| ==> IsConst(defaults[k]))
      && store.Shaped()
    }

    ghost function Roots(): (r: seq<AddrSet>)
      requires Valid()
      reads this, store
      ensures |r| == dims.size + dims.fields
    {
      RootsOf(regs, statics, defaults)
    }

    /** Registers and static fields as cells. */
    ghost function RootMap(): Cells
      requires Valid()
      reads this, store
    {
      RootCells(dims, Roots())
    }

    /** A register, or a static field that has a value or a default. */
    predicate Readable(r: nat)
      requires |statics| == |defaults| == dims.fields
      reads this
    {
      RefLoc(dims, r) >= 0 &&
      (IsStatic(r) ==> statics[r - STATIC_PREFIX].Some? || defaults[r - STATIC_PREFIX] != NULL_ADDR)
    }

    // ---------- unlogged parts ----------

    /** `cesk_static_table_get_ro` with initialisation: materialises the default of an uninitialised field. */
    method ReadField(k: nat) returns (ok: bool, v: AddrSet)
      requires Valid() && k < dims.fields
      modifies this`statics
      ensures Valid() && Roots() == old(Roots())
      ensures ok <==> old(statics[k].Some?) || defaults[k] != NULL_ADDR
      ensures statics == if ok then old(statics)[k := Some(v)] else old(statics)
      ensures ok ==> v == Roots()[dims.size + k]
    {
      if statics[k].Some? {
        return true, statics[k].value;
      }
      if defaults[k] == NULL_ADDR {
        return false, EMPTY_SET;
      }
      v := AddrSet({defaults[k]}, {});
      FieldRoots(regs, statics, defaults, k, v);
      assert Roots()[dims.size + k] == v;
      statics := statics[k := Some(v)];
      ok := true;
    }

    /** Reads a root; registers are not range checked. */
    method ReadRoot(r: nat) returns (ok: bool, v: AddrSet)
      requires Valid() && (IsStatic(r) || r < dims.size)
      modifies this`statics
      ensures Valid() && Roots() == old(Roots())
      ensures ok <==> old(Readable(r))
      ensures ok ==> v == Roots()[RefLoc(dims, r)]
      ensures forall q :: Readable(q) <==> old(Readable(q))
    {
      if !IsStatic(r) {
        RootAt(regs, statics, defaults, r);
        return true, regs[r];
      }
      hide RootsOf;
      var k := r - STATIC_PREFIX;
      if k >= dims.fields {
        return false, EMPTY_SET;
      }
      ok, v := ReadField(k);
    }

    /** Drops the references of a root and overwrites it; those of the new value have been counted. */
    method Replace(r: nat, v: AddrSet, ghost ext: seq<Value>)
      requires Valid() && RefLoc(dims, r) >= 0
      modifies this`regs, this`statics, store`slots, store`numEnt
      ensures Valid() && Roots() == old(Roots())[RefLoc(dims, r) := v] && |store.slots| == old(|store.slots|)
      ensures forall q :: old(Readable(q)) ==> Readable(q)
      ensures Shrunk(old(store.slots), store.slots) && (Positive(old(store.slots), -1) ==> Positive(store.slots, -1))
      ensures GapsMoved(store.blockSlots, old(store.slots), old(store.numEnt), store.slots, store.numEnt, 0, 0)
      ensures Cascaded(store.TheEnv(), old(store.slots), store.slots, AsHolders(old(Roots())) + ext + [SetValue(v)], AsHolders(Roots()) + ext)
    {
      hide GapsMoved, Cascaded, Shrunk, Positive, AsHolders, SameRefs, RootsOf;
      ghost var env, s0, roots, l := store.TheEnv(), store.slots, Roots(), RefLoc(dims, r);
      ghost var hs := AsHolders(roots[l := v]) + ext;
      RootReplaced(env, roots, l, v, ext);
      if IsStatic(r) {
        var k := r - STATIC_PREFIX;
        var was := FieldValue(statics[k], defaults[k]);
        FieldRoots(regs, statics, defaults, k, v);
        RootAt(regs, statics, defaults, dims.size + k);
        store.FreeSet(was, hs);
        statics := statics[k := Some(v)];
      } else {
        RegRoots(regs, statics, defaults, r, v);
        RootAt(regs, statics, defaults, r);
        store.FreeSet(regs[r], hs);
        regs := regs[r := v];
      }
      ShrunkSize(s0, store.slots);
      CascadeFrom(env, s0, store.slots, AsHolders(roots) + ext + [SetValue(v)], hs + [SetValue(roots[l])], hs);
    }

    /** Pushes an address into a register and counts it, unless it is there already. */
    method PushAddr(r: nat, a: nat, ghost ext: seq<Value>)
      requires Valid() && r < dims.size
      modifies this`regs, store`slots
      ensures Valid() && regs == old(regs)[r := Grown(old(regs[r]), a)]
      ensures Counted(store.TheEnv(), old(store.slots), store.slots, AsHolders(old(Roots())) + ext, AsHolders(Roots()) + ext)
    {
      hide Counted, Raised, AsHolders, SameRefs, RootsOf;
      ghost var env, s0, roots := store.TheEnv(), store.slots, Roots();
      RootAt(regs, statics, defaults, r);
      if a in regs[r].addrs {
        assert Grown(regs[r], a) == regs[r];
        SameRefsSelf(env, AsHolders(roots) + ext);
        SameCounted(env, s0, AsHolders(roots) + ext, AsHolders(roots) + ext);
      } else {
        RegRoots(regs, statics, defaults, r, Grown(regs[r], a));
        regs := regs[r := Grown(regs[r], a)];
        var _ := store.Incref(a, AsHolders(roots) + ext);
        RootGrown(env, roots, r, a, ext);
        RaisedCounted(env, s0, store.slots, AsHolders(roots) + ext, One(a), AsHolders(Roots()) + ext);
      }
    }

    /** Appends the set at store address `a` to a register. */
    method AppendCell(r: nat, a: nat, ghost ext: seq<Value>) returns (ok: bool)
      requires Valid() && r < dims.size
      modifies this`regs, store`slots
      ensures Valid() && |store.slots| == old(|store.slots|)
      ensures ok <==> SetAt(store.TheEnv(), old(store.slots), a).Some?
      ensures regs == if ok then old(regs)[r := Join(old(regs[r]), SetAt(store.TheEnv(), old(store.slots), a).value)] else old(regs)
      ensures Counted(store.TheEnv(), old(store.slots), store.slots, AsHolders(old(Roots())) + ext, AsHolders(Roots()) + ext)
    {
      hide Counted, AsHolders, SameRefs, RootsOf;
      ghost var env, s0, h0, c0 := store.TheEnv(), store.slots, AsHolders(Roots()) + ext, regs[r];
      SameRefsSelf(env, h0);
      SameCounted(env, s0, h0, h0);
      var i := Resolve(store.TheEnv(), a);
      if i < 0 || store.slots[i].value.None? || store.slots[i].value.value.ObjectValue? {
        return false;
      }
      var c := store.slots[i].value.value.contents;
      var rest := c.addrs;
      assert AddrSet(c0.addrs + (c.addrs - rest), c0.tags) == c0;
      while rest != {}
        invariant Valid() && store.TheEnv() == env && rest <= c.addrs
        invariant regs == old(regs)[r := AddrSet(c0.addrs + (c.addrs - rest), c0.tags)]
        invariant Counted(env, s0, store.slots, h0, AsHolders(Roots()) + ext)
        decreases rest
      {
        var x :| x in rest;
        ghost var s1, h1 := store.slots, AsHolders(Roots()) + ext;
        PushAddr(r, x, ext);
        CountedSize(env, s1, store.slots, h1, AsHolders(Roots()) + ext);
        CountedThen(env, s0, s1, store.slots, h0, h1, AsHolders(Roots()) + ext);
        assert c0.addrs + (c.addrs - rest) + {x} == c0.addrs + (c.addrs - (rest - {x}));
        rest := rest - {x};
      }
      ghost var s1, roots1 := store.slots, Roots();
      RootAt(regs, statics, defaults, r);
      RootTagged(env, roots1, r, regs[r].tags + c.tags, ext);
      RegRoots(regs, statics, defaults, r, AddrSet(regs[r].addrs, regs[r].tags + c.tags));
      regs := regs[r := AddrSet(regs[r].addrs, regs[r].tags + c.tags)];
      SameCounted(env, s1, AsHolders(roots1) + ext, AsHolders(Roots()) + ext);
      CountedThen(env, s0, s1, s1, h0, AsHolders(roots1) + ext, AsHolders(Roots()) + ext);
      assert regs[r] == Join(c0, c);
      ok := true;
    }

    /** Counts the references of a value, drops those of a root and overwrites it with the value. */
    method Assign(r: nat, v: AddrSet)
      requires Valid() && RefLoc(dims, r) >= 0
      modifies this`regs, this`statics, store`slots, store`numEnt
      ensures Valid() && Roots() == old(Roots())[RefLoc(dims, r) := v]
      ensures Balanced(store, old(store.slots), old(store.numEnt), old(Roots()), Roots())
    {
      hide Counted, Raised, AsHolders, SameRefs, RootsOf, Positive, Shrunk, Cascaded, GapsMoved, Balanced;
      ghost var env, s0, e0, roots := store.TheEnv(), store.slots, store.numEnt, Roots();
      ghost var h := AsHolders(roots) + [SetValue(v)];
      store.IncrefSet(v, AsHolders(roots));
      ghost var s1 := store.slots;
      SameRefsSelf(env, h);
      RaisedCounted(env, s0, s1, AsHolders(roots), SetValue(v), h);
      Replace(r, v, []);
      ShrunkSize(s1, store.slots);
      NoExtra(AsHolders(roots));
      NoExtra(AsHolders(Roots()));
      CountedThenDropped(store, s0, s1, e0, roots, h, h, Roots());
    }

    /** Empties a register that holds addresses. */
    method ClearReg(r: nat, ghost ext: seq<Value>)
      requires Valid() && r < dims.size
      modifies this`regs, this`statics, store`slots, store`numEnt
      ensures Valid() && Roots() == if old(regs[r]).addrs == {} then old(Roots()) else old(Roots())[r := EMPTY_SET]
      ensures Shrunk(old(store.slots), store.slots) && (Positive(old(store.slots), -1) ==> Positive(store.slots, -1))
      ensures GapsMoved(store.blockSlots, old(store.slots), old(store.numEnt), store.slots, store.numEnt, 0, 0)
      ensures Cascaded(store.TheEnv(), old(store.slots), store.slots, AsHolders(old(Roots())) + ext, AsHolders(Roots()) + ext)
    {
      hide Counted, AsHolders, SameRefs, RootsOf, Positive, Shrunk, Cascaded, GapsMoved, LiveSet;
      ghost var env, s0, h0 := store.TheEnv(), store.slots, AsHolders(Roots()) + ext;
      if regs[r].addrs == {} {
        SameRefsSelf(env, h0);
        SameCounted(env, s0, h0, h0);
        CountedShrunk(env, s0, s0, h0, h0);
        GapsSame(store.blockSlots, s0, store.numEnt, s0, 0);
        return;
      }
      Replace(r, EMPTY_SET, ext);
      ShrunkSize(s0, store.slots);
      NothingPending(env, h0, NOTHING);
      SameRefsSwap(env, h0 + [NOTHING], h0);
      CascadeFrom(env, s0, store.slots, h0, h0 + [NOTHING], AsHolders(Roots()) + ext);
    }

    /** Makes a register hold just the counted address `a`; without `tags`, an empty register keeps its own. */
    method SetTo(r: nat, a: nat, tags: Option<set<Tag>>)
      requires Valid() && r < dims.size
      modifies this`regs, this`statics, store`slots, store`numEnt
      ensures Valid() && Roots() == old(Roots())[r := Loaded(old(regs[r]), a, tags)]
      ensures Shrunk(old(store.slots), store.slots) && (Positive(old(store.slots), -1) ==> Positive(store.slots, -1))
      ensures GapsMoved(store.blockSlots, old(store.slots), old(store.numEnt), store.slots, store.numEnt, 0, 0)
      ensures Cascaded(store.TheEnv(), old(store.slots), store.slots, AsHolders(old(Roots())) + [One(a)], AsHolders(Roots()))
    {
      hide AsHolders, SameRefs, RootsOf, Positive, Shrunk, Cascaded, GapsMoved;
      ghost var env, s0, roots := store.TheEnv(), store.slots, Roots();
      RootAt(regs, statics, defaults, r);
      ClearReg(r, [One(a)]);
      ShrunkSize(s0, store.slots);
      ghost var roots1 := Roots();
      RootAt(regs, statics, defaults, r);
      var c := AddrSet(regs[r].addrs + {a}, if tags.Some? then tags.value else regs[r].tags);
      RegRoots(regs, statics, defaults, r, c);
      regs := regs[r := c];
      assert {} + {a} == {a} && c == Loaded(old(regs[r]), a, tags);
      RootLoaded(env, roots1, r, a, c.tags);
      CascadeDone(env, s0, store.slots, AsHolders(roots) + [One(a)], AsHolders(roots1) + [One(a)], AsHolders(Roots()));
    }

    /** Appends a field of every object in `objs` to a register; what cannot be loaded is skipped. */
    method Gather(r: nat, objs: set<nat>, lookup: seq<nat> -> Option<nat>, ghost ext: seq<Value>)
      requires Valid() && r < dims.size
      modifies this`regs, store`slots
      ensures Valid() && |store.slots| == old(|store.slots|)
      ensures regs == old(regs)[r := Join(old(regs[r]), Gathered(store.TheEnv(), old(store.slots), lookup, objs))]
      ensures Counted(store.TheEnv(), old(store.slots), store.slots, AsHolders(old(Roots())) + ext, AsHolders(Roots()) + ext)
    {
      hide Counted, AsHolders, SameRefs, RootsOf, Gathered, Join, FieldAt;
      ghost var env, s0, h0, c0 := store.TheEnv(), store.slots, AsHolders(Roots()) + ext, regs[r];
      SameRefsSelf(env, h0);
      SameCounted(env, s0, h0, h0);
      var rest := objs;
      ghost var done := {};
      GatheredNone(env, s0, lookup, c0);
      while rest != {}
        invariant Valid() && store.TheEnv() == env && |store.slots| == |s0| && done + rest == objs
        invariant regs == old(regs)[r := Join(c0, Gathered(env, s0, lookup, done))]
        invariant Counted(env, s0, store.slots, h0, AsHolders(Roots()) + ext)
        decreases rest
      {
        var a :| a in rest;
        ghost var s1, h1 := store.slots, AsHolders(Roots()) + ext;
        CountedSize(env, s0, s1, h0, h1);
        FieldsSame(env, s0, s1, lookup, {});
        AppendField(r, a, lookup, ext);
        CountedThen(env, s0, s1, store.slots, h0, h1, AsHolders(Roots()) + ext);
        GatheredMore(env, s0, lookup, done, a, c0);
        rest, done := rest - {a}, done + {a};
      }
      assert done == objs;
    }

    method AppendField(r: nat, a: nat, lookup: seq<nat> -> Option<nat>, ghost ext: seq<Value>)
      requires Valid() && r < dims.size
      modifies this`regs, store`slots
      ensures Valid() && |store.slots| == old(|store.slots|)
      ensures regs == old(regs)[r := Join(old(regs[r]), FieldAt(store.TheEnv(), old(store.slots), lookup, a))]
      ensures Counted(store.TheEnv(), old(store.slots), store.slots, AsHolders(old(Roots())) + ext, AsHolders(Roots()) + ext)
    {
      hide Counted, AsHolders, SameRefs, RootsOf;
      ghost var env, h0 := store.TheEnv(), AsHolders(Roots()) + ext;
      SameRefsSelf(env, h0);
      SameCounted(env, store.slots, h0, h0);
      assert Join(regs[r], EMPTY_SET) == regs[r];
      var i := Resolve(store.TheEnv(), a);
      if i >= 0 && store.slots[i].value.Some? && store.slots[i].value.value.ObjectValue? {
        var cell := lookup(store.slots[i].value.value.members);
        if cell.Some? {
          var _ := AppendCell(r, cell.value, ext);
        }
      }
    }

    /** Replaces a register by a field of the objects in `objs`; the old value is dropped last. */
    method Reload(r: nat, objs: set<nat>, lookup: seq<nat> -> Option<nat>)
      requires Valid() && r < dims.size
      modifies this`regs, store`slots, store`numEnt
      ensures Valid()
      ensures Roots() == old(Roots())[r := FieldLoaded(old(regs[r]), old(Gathered(store.TheEnv(), store.slots, lookup, objs)))]
      ensures Balanced(store, old(store.slots), old(store.numEnt), old(Roots()), Roots())
    {
      hide Counted, AsHolders, SameRefs, RootsOf, Gathered, Positive, Shrunk, Cascaded, GapsMoved, Balanced;
      ghost var env, s0, e0, roots := store.TheEnv(), store.slots, store.numEnt, Roots();
      var was := regs[r];
      RootAt(regs, statics, defaults, r);
      RegRoots(regs, statics, defaults, r, FieldLoaded(was, Gathered(env, s0, lookup, objs)));
      if was.addrs == {} {
        Gather(r, objs, lookup, []);
        NoExtra(AsHolders(roots));
        NoExtra(AsHolders(Roots()));
        CountedBalanced(store, s0, roots, Roots());
        return;
      }
      ghost var ext := [SetValue(was)];
      RegRoots(regs, statics, defaults, r, EMPTY_SET);
      regs := regs[r := EMPTY_SET];
      ghost var roots1 := Roots();
      RootEmptied(env, roots, r);
      SameCounted(env, s0, AsHolders(roots), AsHolders(roots1) + ext);
      Gather(r, objs, lookup, ext);
      assert regs == old(regs)[r := FieldLoaded(was, Gathered(env, s0, lookup, objs))];
      ghost var s1, h := store.slots, AsHolders(Roots()) + ext;
      CountedThen(env, s0, s0, s1, AsHolders(roots), AsHolders(roots1) + ext, h);
      store.FreeSet(was, AsHolders(Roots()));
      ShrunkSize(s1, store.slots);
      SameRefsSelf(env, h);
      CountedThenDropped(store, s0, s1, e0, roots, h, h, Roots());
    }

    // ---------- logged operations ----------

    /** Overwrites a root that holds `cur` with `v`, logging both. */
    method Rewrite(r: nat, cur: AddrSet, v: AddrSet, fwd: Buffer, inv: Buffer)
      requires Valid() && fwd != inv && Recording(fwd) && Recording(inv)
      requires RefLoc(dims, r) >= 0 && Roots()[RefLoc(dims, r)] == cur
      modifies this`regs, this`statics, store`slots, store`numEnt, fwd, inv
      ensures Valid() && Recording(fwd) && Recording(inv) && Roots() == old(Roots())[RefLoc(dims, r) := v]
      ensures Balanced(store, old(store.slots), old(store.numEnt), old(Roots()), Roots())
      ensures Logged(r, old(RootMap()), RootMap(), old(Log(fwd.nodes, REG)), Log(fwd.nodes, REG), old(Log(inv.nodes, REG)), Log(inv.nodes, REG))
      ensures |Log(fwd.nodes, REG)| == |old(Log(fwd.nodes, REG))| + 1 && |Log(inv.nodes, REG)| == |old(Log(inv.nodes, REG))| + 1
    {
      hide AsHolders, RootsOf, Balanced, RootCells, Logged, Log, Recording;
      ghost var roots, f0, i0 := Roots(), Log(fwd.nodes, REG), Log(inv.nodes, REG);
      Snapshot(inv, REG, r, SetArg(cur));
      Assign(r, v);
      Snapshot(fwd, REG, r, SetArg(v));
      WriteLogged(dims, roots, r, v, f0, i0);
    }

    /** Copies a register into another one. */
    method Move(dst: nat, src: nat, fwd: Buffer, inv: Buffer) returns (ok: bool)
      requires Valid() && fwd != inv && Recording(fwd) && Recording(inv) && dst != src
      modifies this`regs, this`statics, store`slots, store`numEnt, fwd, inv
      ensures Valid() && Recording(fwd) && Recording(inv)
      ensures ok <==> dst < dims.size && src < dims.size
      ensures Roots() == if ok then old(Roots())[dst := old(Roots())[src]] else old(Roots())
      ensures Balanced(store, old(store.slots), old(store.numEnt), old(Roots()), Roots())
      ensures Logged(dst, old(RootMap()), RootMap(), old(Log(fwd.nodes, REG)), Log(fwd.nodes, REG), old(Log(inv.nodes, REG)), Log(inv.nodes, REG))
      ensures |Log(fwd.nodes, REG)| == |old(Log(fwd.nodes, REG))| + if ok then 1 else 0
      ensures |Log(inv.nodes, REG)| == |old(Log(inv.nodes, REG))| + if ok then 1 else 0
    {
      hide AsHolders, RootsOf, Balanced, RootCells, Logged, Log, Recording;
      if dst >= dims.size || src >= dims.size {
        Unchanged(store, Roots());
        NothingLogged(dst, RootMap(), Log(fwd.nodes, REG), Log(inv.nodes, REG));
        return false;
      }
      RootAt(regs, statics, defaults, dst);
      RootAt(regs, statics, defaults, src);
      Rewrite(dst, regs[dst], regs[src], fwd, inv);
      ok := true;
    }

    /** Empties a register. */
    method Clear(dst: nat, fwd: Buffer, inv: Buffer) returns (ok: bool)
      requires Valid() && fwd != inv && Recording(fwd) && Recording(inv)
      modifies this`regs, this`statics, store`slots, store`numEnt, fwd, inv
      ensures Valid() && Recording(fwd) && Recording(inv)
      ensures ok <==> dst < dims.size
      ensures Roots() == if ok && old(regs[dst]).addrs != {} then old(Roots())[dst := EMPTY_SET] else old(Roots())
      ensures Balanced(store, old(store.slots), old(store.numEnt), old(Roots()), Roots())
      ensures Logged(dst, old(RootMap()), RootMap(), old(Log(fwd.nodes, REG)), Log(fwd.nodes, REG), old(Log(inv.nodes, REG)), Log(inv.nodes, REG))
      ensures |Log(fwd.nodes, REG)| == |old(Log(fwd.nodes, REG))| + if ok && old(regs[dst]).addrs != {} then 1 else 0
      ensures |Log(inv.nodes, REG)| == |old(Log(inv.nodes, REG))| + if ok && old(regs[dst]).addrs != {} then 1 else 0
    {
      hide AsHolders, RootsOf, Positive, Shrunk, Cascaded, GapsMoved, RootCells, Logged, Log, Recording;
      if dst >= dims.size || regs[dst].addrs == {} {
        Unchanged(store, Roots());
        NothingLogged(dst, RootMap(), Log(fwd.nodes, REG), Log(inv.nodes, REG));
        return dst < dims.size;
      }
      RootAt(regs, statics, defaults, dst);
      Snapshot(inv, REG, dst, SetArg(regs[dst]));
      ClearReg(dst, []);
      NoExtra(AsHolders(old(Roots())));
      NoExtra(AsHolders(Roots()));
      Snapshot(fwd, REG, dst, SetArg(EMPTY_SET));
      WriteLogged(dims, old(Roots()), dst, EMPTY_SET, old(Log(fwd.nodes, REG)), old(Log(inv.nodes, REG)));
      ok := true;
    }

    /** Makes a register hold just one address, which must be a constant or a live cell. */
    method Load(dst: nat, a: nat, tags: Option<set<Tag>>, fwd: Buffer, inv: Buffer) returns (ok: bool)
      requires Valid() && fwd != inv && Recording(fwd) && Recording(inv)
      modifies this`regs, this`statics, store`slots, store`numEnt, fwd, inv
      ensures Valid() && Recording(fwd) && Recording(inv)
      ensures ok <==> dst < dims.size && Known(store.TheEnv(), old(store.slots), a)
      ensures ok <==> dst < dims.size && ((IsConst(a) && a != NULL_ADDR) || exists i :: Names(store.reloc, a, i) && Live(old(store.slots), i))
      ensures Roots() == if ok then old(Roots())[dst := Loaded(old(regs[dst]), a, tags)] else old(Roots())
      ensures Balanced(store, old(store.slots), old(store.numEnt), old(Roots()), Roots())
      ensures Logged(dst, old(RootMap()), RootMap(), old(Log(fwd.nodes, REG)), Log(fwd.nodes, REG), old(Log(inv.nodes, REG)), Log(inv.nodes, REG))
      ensures |Log(fwd.nodes, REG)| == |old(Log(fwd.nodes, REG))| + if ok then 1 else 0
      ensures |Log(inv.nodes, REG)| == |old(Log(inv.nodes, REG))| + if dst < dims.size then 1 else 0
    {
      hide AsHolders, RootsOf, Positive, Shrunk, Cascaded, GapsMoved, Balanced, RootCells, Logged, Log, Recording, Counted, Raised, SameRefs;
      if dst >= dims.size {
        Unchanged(store, Roots());
        NothingLogged(dst, RootMap(), Log(fwd.nodes, REG), Log(inv.nodes, REG));
        return false;
      }
      ghost var env, s0, e0, roots := store.TheEnv(), store.slots, store.numEnt, Roots();
      RootAt(regs, statics, defaults, dst);
      Snapshot(inv, REG, dst, SetArg(regs[dst]));
      ok := store.Incref(a, AsHolders(roots));
      if !ok {
        Unchanged(store, roots);
        FailureLogged(dims, roots, dst, old(Log(fwd.nodes, REG)), old(Log(inv.nodes, REG)));
        return;
      }
      ghost var s1, h := store.slots, AsHolders(roots) + [One(a)];
      SameRefsSelf(env, h);
      RaisedCounted(env, s0, s1, AsHolders(roots), One(a), h);
      SetTo(dst, a, tags);
      ShrunkSize(s1, store.slots);
      CountedThenDropped(store, s0, s1, e0, roots, h, h, Roots());
      RootAt(regs, statics, defaults, dst);
      Snapshot(fwd, REG, dst, SetArg(regs[dst]));
      WriteLogged(dims, roots, dst, regs[dst], old(Log(fwd.nodes, REG)), old(Log(inv.nodes, REG)));
    }

    /** Adds an address to a register. */
    method Push(dst: nat, a: nat, fwd: Buffer, inv: Buffer) returns (ok: bool)
      requires Valid() && fwd != inv && Recording(fwd) && Recording(inv)
      modifies this`regs, this`statics, store`slots, store`numEnt, fwd, inv
      ensures Valid() && Recording(fwd) && Recording(inv)
      ensures ok <==> dst < dims.size && (a != NULL_ADDR || a in old(regs[dst]).addrs)
      ensures Roots() == if ok then old(Roots())[dst := Grown(old(regs[dst]), a)] else old(Roots())
      ensures Balanced(store, old(store.slots), old(store.numEnt), old(Roots()), Roots())
      ensures Logged(dst, old(RootMap()), RootMap(), old(Log(fwd.nodes, REG)), Log(fwd.nodes, REG), old(Log(inv.nodes, REG)), Log(inv.nodes, REG))
      ensures |Log(fwd.nodes, REG)| == |old(Log(fwd.nodes, REG))| + if ok && a !in old(regs[dst]).addrs then 1 else 0
      ensures |Log(inv.nodes, REG)| == |old(Log(inv.nodes, REG))| + if dst < dims.size && a !in old(regs[dst]).addrs then 1 else 0
    {
      hide AsHolders, RootsOf, Balanced, RootCells, Logged, Log, Recording, Counted;
      if dst >= dims.size {
        Unchanged(store, Roots());
        NothingLogged(dst, RootMap(), Log(fwd.nodes, REG), Log(inv.nodes, REG));
        return false;
      }
      ghost var roots, s0 := Roots(), store.slots;
      RootAt(regs, statics, defaults, dst);
      if a in regs[dst].addrs {
        assert Grown(regs[dst], a) == regs[dst];
        Unchanged(store, roots);
        NothingLogged(dst, RootMap(), Log(fwd.nodes, REG), Log(inv.nodes, REG));
        return true;
      }
      Snapshot(inv, REG, dst, SetArg(regs[dst]));
      if a == NULL_ADDR {
        Unchanged(store, roots);
        FailureLogged(dims, roots, dst, old(Log(fwd.nodes, REG)), old(Log(inv.nodes, REG)));
        return false;
      }
      RegRoots(regs, statics, defaults, dst, Grown(regs[dst], a));
      PushAddr(dst, a, []);
      NoExtra(AsHolders(roots));
      NoExtra(AsHolders(Roots()));
      CountedBalanced(store, s0, roots, Roots());
      Snapshot(fwd, REG, dst, SetArg(regs[dst]));
      WriteLogged(dims, roots, dst, regs[dst], old(Log(fwd.nodes, REG)), old(Log(inv.nodes, REG)));
      ok := true;
    }

    /** Appends the contents of a set cell to a register. */
    method AppendFromStore(dst: nat, a: nat, fwd: Buffer, inv: Buffer) returns (ok: bool)
      requires Valid() && fwd != inv && Recording(fwd) && Recording(inv)
      modifies this`regs, this`statics, store`slots, store`numEnt, fwd, inv
      ensures Valid() && Recording(fwd) && Recording(inv)
      ensures ok <==> dst < dims.size && old(SetAt(store.TheEnv(), store.slots, a)).Some?
      ensures ok <==> dst < dims.size && exists c :: NamesSet(store.reloc, old(store.slots), a, c)
      ensures forall c :: ok && NamesSet(store.reloc, old(store.slots), a, c) ==> Roots()[dst] == Join(old(regs[dst]), c)
      ensures Roots() == if ok then old(Roots())[dst := Join(old(regs[dst]), old(SetAt(store.TheEnv(), store.slots, a)).value)] else old(Roots())
      ensures Balanced(store, old(store.slots), old(store.numEnt), old(Roots()), Roots())
      ensures Logged(dst, old(RootMap()), RootMap(), old(Log(fwd.nodes, REG)), Log(fwd.nodes, REG), old(Log(inv.nodes, REG)), Log(inv.nodes, REG))
      ensures |Log(fwd.nodes, REG)| == |old(Log(fwd.nodes, REG))| + if ok then 1 else 0
      ensures |Log(inv.nodes, REG)| == |old(Log(inv.nodes, REG))| + if dst < dims.size then 1 else 0
    {
      hide AsHolders, RootsOf, Balanced, RootCells, Logged, Log, Recording, Counted, SetAt, NamesSet;
      NamedSet(store.TheEnv(), store.slots, a);
      if dst >= dims.size {
        Unchanged(store, Roots());
        NothingLogged(dst, RootMap(), Log(fwd.nodes, REG), Log(inv.nodes, REG));
        return false;
      }
      ghost var roots, s0, env := Roots(), store.slots, store.TheEnv();
      RootAt(regs, statics, defaults, dst);
      Snapshot(inv, REG, dst, SetArg(regs[dst]));
      ok := AppendCell(dst, a, []);
      NoExtra(AsHolders(roots));
      NoExtra(AsHolders(Roots()));
      CountedBalanced(store, s0, roots, Roots());
      if !ok {
        FailureLogged(dims, roots, dst, old(Log(fwd.nodes, REG)), old(Log(inv.nodes, REG)));
        return;
      }
      RegRoots(old(regs), statics, defaults, dst, regs[dst]);
      Snapshot(fwd, REG, dst, SetArg(regs[dst]));
      WriteLogged(dims, roots, dst, regs[dst], old(Log(fwd.nodes, REG)), old(Log(inv.nodes, REG)));
    }

    /** Loads a field of the objects a register names; every cell it names holds an object. */
    method LoadFromObject(dst: nat, src: nat, lookup: seq<nat> -> Option<nat>, fwd: Buffer, inv: Buffer) returns (ok: bool)
      requires Valid() && fwd != inv && Recording(fwd) && Recording(inv)
      requires src < dims.size ==> forall a :: a in regs[src].addrs ==> SetAt(store.TheEnv(), store.slots, a).None?
      modifies this`regs, store`slots, store`numEnt, fwd, inv
      ensures Valid() && Recording(fwd) && Recording(inv)
      ensures ok <==> dst < dims.size && src < dims.size
      ensures Roots() == if !ok then old(Roots())
          else old(Roots())[dst := FieldLoaded(old(regs[dst]), old(Gathered(store.TheEnv(), store.slots, lookup, regs[src].addrs)))]
      ensures ok ==> Gathers(store.reloc, old(store.slots), lookup, old(regs[src]).addrs, old(regs[dst]), Roots()[dst])
      ensures Balanced(store, old(store.slots), old(store.numEnt), old(Roots()), Roots())
      ensures Logged(dst, old(RootMap()), RootMap(), old(Log(fwd.nodes, REG)), Log(fwd.nodes, REG), old(Log(inv.nodes, REG)), Log(inv.nodes, REG))
      ensures |Log(fwd.nodes, REG)| == |old(Log(fwd.nodes, REG))| + if ok then 1 else 0
      ensures |Log(inv.nodes, REG)| == |old(Log(inv.nodes, REG))| + if ok then 1 else 0
    {
      hide AsHolders, RootsOf, Balanced, RootCells, Logged, Log, Recording, Gathered, SetAt, Gathers, FieldLoaded;
      if dst >= dims.size || src >= dims.size {
        Unchanged(store, Roots());
        NothingLogged(dst, RootMap(), Log(fwd.nodes, REG), Log(inv.nodes, REG));
        return false;
      }
      ghost var roots := Roots();
      RootAt(regs, statics, defaults, dst);
      Snapshot(inv, REG, dst, SetArg(regs[dst]));
      GatheredHolds(store.TheEnv(), store.slots, lookup, regs[src].addrs, regs[dst]);
      Reload(dst, regs[src].addrs, lookup);
      RootAt(regs, statics, defaults, dst);
      Snapshot(fwd, REG, dst, SetArg(regs[dst]));
      WriteLogged(dims, roots, dst, regs[dst], old(Log(fwd.nodes, REG)), old(Log(inv.nodes, REG)));
      ok := true;
    }

    /** Copies a register into a static field. */
    method StaticLoadFromRegister(dst: nat, src: nat, fwd: Buffer, inv: Buffer) returns (ok: bool)
      requires Valid() && fwd != inv && Recording(fwd) && Recording(inv)
      modifies this`regs, this`statics, store`slots, store`numEnt, fwd, inv
      ensures Valid() && Recording(fwd) && Recording(inv)
      ensures ok <==> IsStatic(dst) && old(Readable(dst)) && src < dims.size
      ensures Roots() == if ok then old(Roots())[RefLoc(dims, dst) := old(Roots())[src]] else old(Roots())
      ensures Balanced(store, old(store.slots), old(store.numEnt), old(Roots()), Roots())
      ensures Logged(dst, old(RootMap()), RootMap(), old(Log(fwd.nodes, REG)), Log(fwd.nodes, REG), old(Log(inv.nodes, REG)), Log(inv.nodes, REG))
      ensures |Log(fwd.nodes, REG)| == |old(Log(fwd.nodes, REG))| + if ok then 1 else 0
      ensures |Log(inv.nodes, REG)| == |old(Log(inv.nodes, REG))| + if ok then 1 else 0
    {
      hide AsHolders, RootsOf, Balanced, RootCells, Logged, Log, Recording;
      if RefLoc(dims, dst) < dims.size || src >= dims.size {
        Unchanged(store, Roots());
        NothingLogged(dst, RootMap(), Log(fwd.nodes, REG), Log(inv.nodes, REG));
        return false;
      }
      ghost var roots := Roots();
      NothingLogged(dst, RootMap(), Log(fwd.nodes, REG), Log(inv.nodes, REG));
      var v;
      ok, v := ReadField(dst - STATIC_PREFIX);
      if !ok {
        Unchanged(store, roots);
        return;
      }
      RootAt(regs, statics, defaults, src);
      Rewrite(dst, v, regs[src], fwd, inv);
    }

    /** Copies a static field into a register. */
    method RegisterLoadFromStatic(dst: nat, src: nat, fwd: Buffer, inv: Buffer) returns (ok: bool)
      requires Valid() && fwd != inv && Recording(fwd) && Recording(inv)
      modifies this`regs, this`statics, store`slots, store`numEnt, fwd, inv
      ensures Valid() && Recording(fwd) && Recording(inv)
      ensures ok <==> IsStatic(src) && old(Readable(src)) && dst < dims.size
      ensures Roots() == if ok then old(Roots())[dst := old(Roots())[RefLoc(dims, src)]] else old(Roots())
      ensures Balanced(store, old(store.slots), old(store.numEnt), old(Roots()), Roots())
      ensures Logged(dst, old(RootMap()), RootMap(), old(Log(fwd.nodes, REG)), Log(fwd.nodes, REG), old(Log(inv.nodes, REG)), Log(inv.nodes, REG))
      ensures |Log(fwd.nodes, REG)| == |old(Log(fwd.nodes, REG))| + if ok then 1 else 0
      ensures |Log(inv.nodes, REG)| == |old(Log(inv.nodes, REG))| + if ok then 1 else 0
    {
      hide AsHolders, RootsOf, Balanced, RootCells, Logged, Log, Recording;
      if RefLoc(dims, src) < dims.size || dst >= dims.size {
        Unchanged(store, Roots());
        NothingLogged(dst, RootMap(), Log(fwd.nodes, REG), Log(inv.nodes, REG));
        return false;
      }
      ghost var roots := Roots();
      NothingLogged(dst, RootMap(), Log(fwd.nodes, REG), Log(inv.nodes, REG));
      var v;
      ok, v := ReadField(src - STATIC_PREFIX);
      if !ok {
        Unchanged(store, roots);
        return;
      }
      RootAt(regs, statics, defaults, dst);
      Rewrite(dst, regs[dst], v, fwd, inv);
    }
  }

  lemma CountedSize(env: Env, was: seq<Slot>, now: seq<Slot>, h0: seq<Value>, h1: seq<Value>)
    requires Counted(env, was, now, h0, h1)
    ensures |was| == |now| && forall i :: 0 <= i < |was| ==> was[i].value == now[i].value
  {
  }

  lemma RootAt(regs: seq<AddrSet>, statics: seq<Option<AddrSet>>, defaults: seq<nat>, l: nat)
    requires |statics| == |defaults| && l < |regs| + |statics|
    ensures RootsOf(regs, statics, defaults)[l] ==
        if l < |regs| then regs[l] else FieldValue(statics[l - |regs|], defaults[l - |regs|])
  {
    if l >= |regs| {
      assert RootsOf(regs, statics, defaults)[|regs| + (l - |regs|)] == FieldValue(statics[l - |regs|], defaults[l - |regs|]);
    }
  }

  lemma CascadeFrom(env: Env, was: seq<Slot>, now: seq<Slot>, h0: seq<Value>, h1: seq<Value>, h2: seq<Value>)
    requires Cascaded(env, was, now, h1, h2) && SameRefs(env, h0, h1)
    ensures Cascaded(env, was, now, h0, h2)
  {
  }
}
