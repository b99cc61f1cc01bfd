/**
 What a diff does to the roots and cells of a frame, and why counting the new references before
 dropping the old ones keeps every cell the patched frame can reach.
 */
module Patches {
  import opened Values
  import opened Diffs
  import opened Stores
  import opened Collector

  // ---------- register references ----------

  /** The number of registers and of static fields. */
  datatype Dims = Dims(size: nat, fields: nat) {
    predicate Valid() {
      size <= STATIC_PREFIX && fields <= STATIC_PREFIX
    }
  }

  /** Roots are the registers followed by the static fields; -1 for a reference to neither. */
  function RefLoc(d: Dims, r: nat): (l: int)
    ensures -1 <= l < d.size + d.fields
  {
    if IsStatic(r) then (if r - STATIC_PREFIX < d.fields then d.size + (r - STATIC_PREFIX) else -1)
    else if r < d.size then r else -1
  }

  lemma RefLocInjective(d: Dims, r: nat, q: nat)
    requires RefLoc(d, r) == RefLoc(d, q) >= 0
    ensures r == q
  {
  }

  function RefOf(d: Dims, l: nat): nat {
    if l < d.size then l else STATIC_PREFIX + (l - d.size)
  }

  lemma RefOfLoc(d: Dims, l: nat)
    requires d.Valid() && l < d.size + d.fields
    ensures RefLoc(d, RefOf(d, l)) == l
  {
  }

  function RootRefs(d: Dims): set<nat> {
    set l | 0 <= l < d.size + d.fields :: RefOf(d, l)
  }

  /** The roots as cells addressed by register references. */
  function RootCells(d: Dims, roots: seq<AddrSet>): Cells
    requires |roots| == d.size + d.fields
  {
    map r | r in RootRefs(d) && RefLoc(d, r) >= 0 :: SetArg(roots[RefLoc(d, r)])
  }

  lemma RootCellsAt(d: Dims, roots: seq<AddrSet>, r: nat)
    requires d.Valid() && |roots| == d.size + d.fields
    ensures r in RootCells(d, roots) <==> RefLoc(d, r) >= 0
    ensures RefLoc(d, r) >= 0 ==> RootCells(d, roots)[r] == SetArg(roots[RefLoc(d, r)])
  {
    if RefLoc(d, r) >= 0 {
      assert RefOf(d, RefLoc(d, r)) == r;
    }
  }

  lemma RootCellsUpdate(d: Dims, roots: seq<AddrSet>, r: nat, v: AddrSet)
    requires d.Valid() && |roots| == d.size + d.fields && RefLoc(d, r) >= 0
    ensures RootCells(d, roots[RefLoc(d, r) := v]) == RootCells(d, roots)[r := SetArg(v)]
  {
    var roots' := roots[RefLoc(d, r) := v];
    RootCellsAt(d, roots, r);
    forall q | RefLoc(d, q) == RefLoc(d, r)
      ensures q == r
    {
      RefLocInjective(d, q, r);
    }
  }

  // ---------- register section ----------

  ghost predicate GoodRegs(d: Dims, recs: seq<Rec>) {
    && WellFormedSection(recs)
    && forall k :: 0 <= k < |recs| ==> RefLoc(d, recs[k].addr) >= 0 && recs[k].arg.SetArg?
  }

  function ApplyRegs(d: Dims, roots: seq<AddrSet>, recs: seq<Rec>): (r: seq<AddrSet>)
    requires |roots| == d.size + d.fields
    ensures |r| == |roots|
    decreases |recs|
  {
    if recs == [] then roots
    else
      var l := RefLoc(d, recs[0].addr);
      ApplyRegs(d, if l >= 0 && recs[0].arg.SetArg? then roots[l := recs[0].arg.contents] else roots, recs[1..])
  }

  /** What one register record counts in advance: the references of its value, if it changes the root. */
  function PendReg(d: Dims, roots: seq<AddrSet>, rec: Rec): Value
    requires |roots| == d.size + d.fields
  {
    var l := RefLoc(d, rec.addr);
    if l >= 0 && rec.arg.SetArg? && roots[l] != rec.arg.contents then SetValue(rec.arg.contents) else NOTHING
  }

  /** The values whose references are counted before the section is applied. */
  function PendRegs(d: Dims, roots: seq<AddrSet>, recs: seq<Rec>): (r: seq<Value>)
    requires |roots| == d.size + d.fields
    ensures |r| == |recs|
  {
    if recs == [] then [] else [PendReg(d, roots, recs[0])] + PendRegs(d, roots, recs[1..])
  }

  lemma {:induction false} PendRegsSnoc(d: Dims, roots: seq<AddrSet>, recs: seq<Rec>, k: nat)
    requires |roots| == d.size + d.fields && k < |recs|
    ensures PendRegs(d, roots, recs[..k + 1]) == PendRegs(d, roots, recs[..k]) + [PendReg(d, roots, recs[k])]
    decreases k
  {
    if k == 0 {
      assert recs[..1][1..] == [] && recs[..0] == [];
    } else {
      PendRegsSnoc(d, roots, recs[1..], k - 1);
      assert recs[..k + 1][1..] == recs[1..][..k] && recs[..k][1..] == recs[1..][..k - 1];
    }
  }

  lemma {:induction false} LaterRegsApart(d: Dims, roots: seq<AddrSet>, recs: seq<Rec>, l: int, v: AddrSet)
    requires |roots| == d.size + d.fields && 0 <= l < |roots|
    requires forall k :: 0 <= k < |recs| ==> RefLoc(d, recs[k].addr) != l
    ensures PendRegs(d, roots[l := v], recs) == PendRegs(d, roots, recs)
    ensures ApplyRegs(d, roots, recs)[l] == roots[l]
    decreases |recs|
  {
    if recs != [] {
      var m := RefLoc(d, recs[0].addr);
      LaterRegsApart(d, roots, recs[1..], l, v);
      if m >= 0 && recs[0].arg.SetArg? {
        LaterRegsApart(d, roots[m := recs[0].arg.contents], recs[1..], l, v);
      }
    }
  }

  lemma GoodRegsTail(d: Dims, recs: seq<Rec>)
    requires GoodRegs(d, recs) && recs != []
    ensures GoodRegs(d, recs[1..])
    ensures forall k :: 0 <= k < |recs[1..]| ==> RefLoc(d, recs[1..][k].addr) != RefLoc(d, recs[0].addr)
  {
    forall k | 0 <= k < |recs[1..]|
      ensures RefLoc(d, recs[1..][k].addr) != RefLoc(d, recs[0].addr)
    {
      assert recs[1..][k] == recs[k + 1];
      if RefLoc(d, recs[1..][k].addr) == RefLoc(d, recs[0].addr) {
        RefLocInjective(d, recs[k + 1].addr, recs[0].addr);
      }
    }
  }

  /** Every root of the patched frame is a root now, or is among the values counted in advance. */
  lemma {:induction false} RootsSupported(env: Env, d: Dims, roots: seq<AddrSet>, recs: seq<Rec>, l: nat, i: int)
    requires |roots| == d.size + d.fields && l < |roots| && GoodRegs(d, recs)
    ensures Count(env, SetValue(ApplyRegs(d, roots, recs)[l]), i)
         <= Count(env, SetValue(roots[l]), i) + Total(env, PendRegs(d, roots, recs), i)
    decreases |recs|
  {
    if recs != [] {
      var m, v := RefLoc(d, recs[0].addr), recs[0].arg.contents;
      GoodRegsTail(d, recs);
      var pend := PendRegs(d, roots, recs);
      HeadTotal(env, pend, i);
      if m == l {
        LaterRegsApart(d, roots[m := v], recs[1..], l, v);
      } else {
        RootsSupported(env, d, roots[m := v], recs[1..], l, i);
        LaterRegsApart(d, roots, recs[1..], m, v);
      }
    }
  }

  /** Applying the section to the roots is replaying it on their cells. */
  lemma {:induction false} ApplyRegsReplays(d: Dims, roots: seq<AddrSet>, recs: seq<Rec>)
    requires d.Valid() && |roots| == d.size + d.fields && GoodRegs(d, recs)
    ensures RootCells(d, ApplyRegs(d, roots, recs)) == Replay(RootCells(d, roots), recs)
    decreases |recs|
  {
    if recs != [] {
      GoodRegsTail(d, recs);
      var l, v := RefLoc(d, recs[0].addr), recs[0].arg.contents;
      RootCellsUpdate(d, roots, recs[0].addr, v);
      ApplyRegsReplays(d, roots[l := v], recs[1..]);
      ReplayCons(RootCells(d, roots), recs);
    }
  }

  // ---------- store section ----------

  predicate SameType(v: Value, w: Value) {
    v.SetValue? <==> w.SetValue?
  }

  /** The records name live cells of their value's type, no cell twice. */
  ghost predicate GoodStore(env: Env, slots: seq<Slot>, recs: seq<Rec>) {
    && env.size == |slots|
    && (forall k :: 0 <= k < |recs| ==>
          && Live(slots, Resolve(env, recs[k].addr))
          && recs[k].arg.ValueArg? && SameType(slots[Resolve(env, recs[k].addr)].value.value, recs[k].arg.cell))
    && (forall j, k :: 0 <= j < k < |recs| ==> Resolve(env, recs[j].addr) != Resolve(env, recs[k].addr))
  }

  /** What the records leave in cell `y` when it holds `v` before. */
  function Overwrites(env: Env, recs: seq<Rec>, y: int, v: Option<Value>): Option<Value> {
    if recs == [] then v
    else
      Overwrites(env, recs[1..], y,
                 if Resolve(env, recs[0].addr) == y && recs[0].arg.ValueArg? then Some(recs[0].arg.cell) else v)
  }

  /** The cells of the patched frame, before any garbage is swiped. */
  function Patched(env: Env, slots: seq<Slot>, recs: seq<Rec>): (r: seq<Slot>)
    ensures |r| == |slots|
    ensures forall y :: 0 <= y < |slots| ==> r[y] == slots[y].(value := Overwrites(env, recs, y, slots[y].value))
  {
    seq(|slots|, y requires 0 <= y < |slots| => slots[y].(value := Overwrites(env, recs, y, slots[y].value)))
  }

  predicate Changes(env: Env, slots: seq<Slot>, rec: Rec) {
    var i := Resolve(env, rec.addr);
    0 <= i < |slots| && rec.arg.ValueArg? && slots[i].value != Some(rec.arg.cell)
  }

  function PendCell(env: Env, slots: seq<Slot>, rec: Rec): Value {
    if Changes(env, slots, rec) then rec.arg.cell else NOTHING
  }

  function PendStore(env: Env, slots: seq<Slot>, recs: seq<Rec>): (r: seq<Value>)
    ensures |r| == |recs|
  {
    if recs == [] then [] else [PendCell(env, slots, recs[0])] + PendStore(env, slots, recs[1..])
  }

  lemma {:induction false} PendStoreSnoc(env: Env, slots: seq<Slot>, recs: seq<Rec>, k: nat)
    requires k < |recs|
    ensures PendStore(env, slots, recs[..k + 1]) == PendStore(env, slots, recs[..k]) + [PendCell(env, slots, recs[k])]
    decreases k
  {
    if k == 0 {
      assert recs[..1][1..] == [] && recs[..0] == [];
    } else {
      PendStoreSnoc(env, slots, recs[1..], k - 1);
      assert recs[..k + 1][1..] == recs[1..][..k] && recs[..k][1..] == recs[1..][..k - 1];
    }
  }

  lemma {:induction false} StoreRecsSame(env: Env, s0: seq<Slot>, s1: seq<Slot>, recs: seq<Rec>)
    requires |s0| == |s1|
    requires forall k :: 0 <= k < |recs| ==>
        var i := Resolve(env, recs[k].addr); 0 <= i < |s0| ==> s0[i].value == s1[i].value
    ensures PendStore(env, s0, recs) == PendStore(env, s1, recs)
  {
    if recs != [] {
      forall k | 0 <= k < |recs[1..]|
        ensures var i := Resolve(env, recs[1..][k].addr); 0 <= i < |s0| ==> s0[i].value == s1[i].value
      {
        assert recs[1..][k] == recs[k + 1];
      }
      StoreRecsSame(env, s0, s1, recs[1..]);
    }
  }

  lemma {:induction false} NotOverwritten(env: Env, recs: seq<Rec>, y: int, v: Option<Value>)
    requires forall k :: 0 <= k < |recs| ==> Resolve(env, recs[k].addr) != y
    ensures Overwrites(env, recs, y, v) == v
  {
    if recs != [] {
      forall k | 0 <= k < |recs[1..]|
        ensures Resolve(env, recs[1..][k].addr) != y
      {
        assert recs[1..][k] == recs[k + 1];
      }
      NotOverwritten(env, recs[1..], y, v);
    }
  }

  /** A record's value is what its cell ends up with. */
  lemma {:induction false} OverwrittenBy(env: Env, recs: seq<Rec>, k: nat, v: Option<Value>)
    requires k < |recs| && recs[k].arg.ValueArg?
    requires forall j, k :: 0 <= j < k < |recs| ==> Resolve(env, recs[j].addr) != Resolve(env, recs[k].addr)
    ensures Overwrites(env, recs, Resolve(env, recs[k].addr), v) == Some(recs[k].arg.cell)
    decreases k
  {
    var rest := recs[1..];
    assert forall j :: 0 <= j < |rest| ==> rest[j] == recs[j + 1];
    if k == 0 {
      NotOverwritten(env, rest, Resolve(env, recs[0].addr), Some(recs[0].arg.cell));
    } else {
      OverwrittenBy(env, rest, k - 1, v);
    }
  }

  /** What the patched cell `y` holds is held now, or is among the values counted in advance. */
  lemma {:induction false} CellSupported(env: Env, slots: seq<Slot>, recs: seq<Rec>, y: nat, x: int)
    requires env.size == |slots| && y < |slots|
    requires forall j, k :: 0 <= j < k < |recs| ==> Resolve(env, recs[j].addr) != Resolve(env, recs[k].addr)
    ensures Count(env, HeldBy(slots[y].(value := Overwrites(env, recs, y, slots[y].value))), x)
         <= Count(env, HeldBy(slots[y]), x) + Total(env, PendStore(env, slots, recs), x)
  {
    if recs != [] {
      var pend, rest := PendStore(env, slots, recs), recs[1..];
      HeadTotal(env, pend, x);
      assert forall k :: 0 <= k < |rest| ==> rest[k] == recs[k + 1];
      if Resolve(env, recs[0].addr) == y && recs[0].arg.ValueArg? {
        NotOverwritten(env, rest, y, Some(recs[0].arg.cell));
      } else {
        CellSupported(env, slots, rest, y, x);
      }
    }
  }

  // ---------- survival ----------

  /** Every cell that the patched frame can reach is still live. */
  ghost predicate AllAlive(env: Env, target: seq<Slot>, roots: seq<AddrSet>, now: seq<Slot>) {
    forall i :: Live(target, i) && Reachable(env, target, RootSlots(env, roots), i) ==> Live(now, i)
  }

  /** The references of the patched frame are held, by the frame so far or in advance. */
  ghost predicate Supported(env: Env, target: seq<Slot>, roots: seq<AddrSet>, now: seq<Slot>, hs: seq<Value>) {
    && |target| == |now|
    && (forall x :: x in RootSlots(env, roots) ==> Total(env, hs, x) >= 1)
    && (forall y, x :: Live(now, y) && x in Succ(env, target, y) ==> Refs(env, now, hs, x) >= 1)
  }

  lemma {:induction false} PathAlive(env: Env, target: seq<Slot>, roots: seq<AddrSet>, mid: seq<Slot>, now: seq<Slot>, hs: seq<Value>, p: seq<int>)
    requires AllAlive(env, target, roots, mid) && Supported(env, target, roots, now, hs)
    requires forall j :: Live(mid, j) && !Live(now, j) ==> Refs(env, now, hs, j) == 0
    requires IsPath(env, target, p) && p[0] in RootSlots(env, roots) && Live(target, p[|p| - 1])
    ensures Live(now, p[|p| - 1])
  {
    var x := p[|p| - 1];
    assert Leads(env, target, RootSlots(env, roots), p, x);
    if |p| > 1 {
      var y := p[|p| - 2];
      assert p[|p| - 2 + 1] in Succ(env, target, y);
      PathAlive(env, target, roots, mid, now, hs, p[..|p| - 1]);
    }
  }

  /** A step in which only unreferenced cells die leaves everything the patched frame can reach. */
  lemma StaysAlive(env: Env, target: seq<Slot>, roots: seq<AddrSet>, mid: seq<Slot>, now: seq<Slot>, hs: seq<Value>)
    requires AllAlive(env, target, roots, mid) && Supported(env, target, roots, now, hs)
    requires forall j :: Live(mid, j) && !Live(now, j) ==> Refs(env, now, hs, j) == 0
    ensures AllAlive(env, target, roots, now)
  {
    forall i | Live(target, i) && Reachable(env, target, RootSlots(env, roots), i)
      ensures Live(now, i)
    {
      var p :| Leads(env, target, RootSlots(env, roots), p, i);
      PathAlive(env, target, roots, mid, now, hs, p);
    }
  }

  /** `now` only lacks garbage: what lives will hold what the patched frame holds there. */
  ghost predicate OnTrack(env: Env, target: seq<Slot>, now: seq<Slot>, rest: seq<Rec>) {
    && |target| == |now|
    && forall y :: Live(now, y) ==> Overwrites(env, rest, y, now[y].value) == target[y].value
  }

  /** `now` is `base` with some cells emptied. */
  ghost predicate Within(now: seq<Slot>, base: seq<Slot>) {
    |now| == |base| && forall y :: Live(now, y) ==> now[y].value == base[y].value
  }

  /** The holders while a diff is applied: the roots, and the new values of the records to come. */
  ghost function Holders(env: Env, d: Dims, roots: seq<AddrSet>, recs: seq<Rec>, slots: seq<Slot>, rest: seq<Rec>): seq<Value>
    requires |roots| == d.size + d.fields
  {
    AsHolders(roots) + PendRegs(d, roots, recs) + PendStore(env, slots, rest)
  }

  lemma HoldersTotal(env: Env, d: Dims, roots: seq<AddrSet>, recs: seq<Rec>, slots: seq<Slot>, rest: seq<Rec>, x: int)
    requires |roots| == d.size + d.fields
    ensures Total(env, Holders(env, d, roots, recs, slots, rest), x) ==
        Total(env, AsHolders(roots), x) + Total(env, PendRegs(d, roots, recs), x) + Total(env, PendStore(env, slots, rest), x)
  {
    TotalConcat(env, AsHolders(roots) + PendRegs(d, roots, recs), PendStore(env, slots, rest), x);
    TotalConcat(env, AsHolders(roots), PendRegs(d, roots, recs), x);
  }

  lemma SupportHolds(env: Env, d: Dims, target: seq<Slot>, roots': seq<AddrSet>, base: seq<Slot>, now: seq<Slot>,
                     roots: seq<AddrSet>, recs: seq<Rec>, rest: seq<Rec>)
    requires |roots| == d.size + d.fields && GoodRegs(d, recs) && roots' == ApplyRegs(d, roots, recs)
    requires env.size == |base| && OnTrack(env, target, base, rest) && Within(now, base)
    requires forall j, k :: 0 <= j < k < |rest| ==> Resolve(env, rest[j].addr) != Resolve(env, rest[k].addr)
    ensures Supported(env, target, roots', now, Holders(env, d, roots, recs, base, rest))
  {
    var hs := Holders(env, d, roots, recs, base, rest);
    forall x | x in RootSlots(env, roots')
      ensures Total(env, hs, x) >= 1
    {
      var l := HoldingRoot(env, roots', x);
      RootsSupported(env, d, roots, recs, l, x);
      TotalAtLeast(env, AsHolders(roots), l, x);
      HoldersTotal(env, d, roots, recs, base, rest, x);
    }
    forall y, x | Live(now, y) && x in Succ(env, target, y)
      ensures Refs(env, now, hs, x) >= 1
    {
      assert Live(base, y);
      var a :| a in RefSet(HeldBy(target[y])) && Resolve(env, a) == x;
      CountTarget(env, HeldBy(target[y]), a);
      CellSupported(env, base, rest, y, x);
      TotalAtLeast(env, Held(now), y, x);
      HoldersTotal(env, d, roots, recs, base, rest, x);
    }
  }

  lemma {:induction false} HoldingRoot(env: Env, sets: seq<AddrSet>, x: int) returns (l: nat)
    requires x in RootSlots(env, sets)
    ensures l < |sets| && Count(env, SetValue(sets[l]), x) >= 1
  {
    var n := |sets| - 1;
    l := 0;
    if sets != [] {
      if x in RootSlots(env, sets[..n]) {
        l := HoldingRoot(env, sets[..n], x);
      } else {
        var a :| a in sets[n].addrs && Resolve(env, a) == x;
        CountTarget(env, SetValue(sets[n]), a);
        l := n;
      }
    }
  }

  // ---------- the state between two records ----------

  /** Every record of the store section names a cell that the patched frame can reach. */
  ghost predicate Reached(env: Env, target: seq<Slot>, roots': seq<AddrSet>, rest: seq<Rec>) {
    forall k :: 0 <= k < |rest| ==>
      var i := Resolve(env, rest[k].addr);
      Live(target, i) && Reachable(env, target, RootSlots(env, roots'), i)
  }

  /** With register records `recs` and store records `rest` still to be applied. */
  ghost predicate Midway(env: Env, d: Dims, target: seq<Slot>, roots': seq<AddrSet>, now: seq<Slot>,
                         roots: seq<AddrSet>, recs: seq<Rec>, rest: seq<Rec>)
  {
    && |roots| == d.size + d.fields && GoodRegs(d, recs) && roots' == ApplyRegs(d, roots, recs)
    && GoodStore(env, now, rest) && OnTrack(env, target, now, rest) && Reached(env, target, roots', rest)
    && AllAlive(env, target, roots', now)
    && Bound(env, now, Holders(env, d, roots, recs, now, rest))
  }

  lemma {:induction false} HeadTotal(env: Env, vs: seq<Value>, i: int)
    requires vs != []
    ensures Total(env, vs, i) == Count(env, vs[0], i) + Total(env, vs[1..], i)
  {
    assert vs == [vs[0]] + vs[1..];
    TotalConcat(env, [vs[0]], vs[1..], i);
    TotalSnoc(env, [], vs[0], i);
    assert [] + [vs[0]] == [vs[0]];
  }

  lemma SkipHolders(env: Env, d: Dims, now: seq<Slot>, roots: seq<AddrSet>, recs: seq<Rec>, rest: seq<Rec>)
    requires |roots| == d.size + d.fields && recs != [] && PendRegs(d, roots, recs)[0] == NOTHING
    ensures SameRefs(env, Holders(env, d, roots, recs, now, rest), Holders(env, d, roots, recs[1..], now, rest))
  {
    forall i
      ensures Total(env, Holders(env, d, roots, recs, now, rest), i) == Total(env, Holders(env, d, roots, recs[1..], now, rest), i)
    {
      HoldersTotal(env, d, roots, recs, now, rest, i);
      HoldersTotal(env, d, roots, recs[1..], now, rest, i);
      HeadTotal(env, PendRegs(d, roots, recs), i);
      CountNothing(env, i);
    }
  }

  /** A register record that changes nothing. */
  lemma SkipReg(env: Env, d: Dims, target: seq<Slot>, roots': seq<AddrSet>, now: seq<Slot>,
                roots: seq<AddrSet>, recs: seq<Rec>, rest: seq<Rec>)
    requires Midway(env, d, target, roots', now, roots, recs, rest) && recs != []
    requires roots[RefLoc(d, recs[0].addr)] == recs[0].arg.contents
    ensures Midway(env, d, target, roots', now, roots, recs[1..], rest)
  {
    hide AllAlive, OnTrack, GoodStore, Reached, Bound, Holders;
    GoodRegsTail(d, recs);
    assert roots[RefLoc(d, recs[0].addr) := recs[0].arg.contents] == roots;
    SkipHolders(env, d, now, roots, recs, rest);
    SameRefsBound(env, now, Holders(env, d, roots, recs, now, rest), Holders(env, d, roots, recs[1..], now, rest));
  }

  /** A register record that replaces a root: its new value was counted, its old one becomes pending. */
  lemma RegHolders(env: Env, d: Dims, now: seq<Slot>, roots: seq<AddrSet>, recs: seq<Rec>, rest: seq<Rec>)
    requires |roots| == d.size + d.fields && GoodRegs(d, recs) && recs != []
    requires roots[RefLoc(d, recs[0].addr)] != recs[0].arg.contents
    ensures var l := RefLoc(d, recs[0].addr);
            SameRefs(env, Holders(env, d, roots, recs, now, rest),
                     Holders(env, d, roots[l := recs[0].arg.contents], recs[1..], now, rest) + [SetValue(roots[l])])
  {
    var l, v := RefLoc(d, recs[0].addr), recs[0].arg.contents;
    GoodRegsTail(d, recs);
    LaterRegsApart(d, roots, recs[1..], l, v);
    var hs, hs' := Holders(env, d, roots, recs, now, rest), Holders(env, d, roots[l := v], recs[1..], now, rest);
    forall i
      ensures Total(env, hs, i) == Total(env, hs' + [SetValue(roots[l])], i)
    {
      HoldersTotal(env, d, roots, recs, now, rest, i);
      HoldersTotal(env, d, roots[l := v], recs[1..], now, rest, i);
      TotalSnoc(env, hs', SetValue(roots[l]), i);
      assert AsHolders(roots[l := v]) == AsHolders(roots)[l := SetValue(v)];
      TotalUpdate(env, AsHolders(roots), l, SetValue(v), i);
      HeadTotal(env, PendRegs(d, roots, recs), i);
    }
  }

  /** What the cascade of a step may have done to the cells. */
  lemma AfterCascade(env: Env, d: Dims, target: seq<Slot>, roots': seq<AddrSet>, base: seq<Slot>, mid: seq<Slot>, now: seq<Slot>,
                     roots: seq<AddrSet>, recs: seq<Rec>, rest: seq<Rec>)
    requires |roots| == d.size + d.fields && GoodRegs(d, recs) && roots' == ApplyRegs(d, roots, recs)
    requires GoodStore(env, base, rest) && OnTrack(env, target, base, rest) && Within(now, base)
    requires Reached(env, target, roots', rest) && AllAlive(env, target, roots', mid)
    requires forall j :: Live(mid, j) && !Live(now, j) ==> Refs(env, now, Holders(env, d, roots, recs, base, rest), j) == 0
    requires Bound(env, now, Holders(env, d, roots, recs, base, rest))
    ensures Midway(env, d, target, roots', now, roots, recs, rest)
  {
    hide Reachable, Refs, ApplyRegs, RootSlots, Resolve, Overwrites;
    SupportHolds(env, d, target, roots', base, now, roots, recs, rest);
    StaysAlive(env, target, roots', mid, now, Holders(env, d, roots, recs, base, rest));
    forall k | 0 <= k < |rest|
      ensures Live(now, Resolve(env, rest[k].addr))
    {
    }
    StoreRecsSame(env, base, now, rest);
  }

  lemma RegStep(env: Env, d: Dims, target: seq<Slot>, roots': seq<AddrSet>, mid: seq<Slot>, now: seq<Slot>,
                roots: seq<AddrSet>, recs: seq<Rec>, rest: seq<Rec>)
    requires Midway(env, d, target, roots', mid, roots, recs, rest) && recs != []
    requires roots[RefLoc(d, recs[0].addr)] != recs[0].arg.contents
    requires var l := RefLoc(d, recs[0].addr);
             var hs := Holders(env, d, roots[l := recs[0].arg.contents], recs[1..], mid, rest);
             Shrunk(mid, now) && Cascaded(env, mid, now, hs + [SetValue(roots[l])], hs)
    ensures Midway(env, d, target, roots', now, roots[RefLoc(d, recs[0].addr) := recs[0].arg.contents], recs[1..], rest)
  {
    var l := RefLoc(d, recs[0].addr);
    var roots1 := roots[l := recs[0].arg.contents];
    GoodRegsTail(d, recs);
    RegHolders(env, d, mid, roots, recs, rest);
    SameRefsBound(env, mid, Holders(env, d, roots, recs, mid, rest), Holders(env, d, roots1, recs[1..], mid, rest) + [SetValue(roots[l])]);
    AfterCascade(env, d, target, roots', mid, mid, now, roots1, recs[1..], rest);
  }

  lemma GoodStoreTail(env: Env, slots: seq<Slot>, rest: seq<Rec>)
    requires GoodStore(env, slots, rest) && rest != []
    ensures GoodStore(env, slots, rest[1..])
    ensures forall k :: 0 <= k < |rest[1..]| ==> Resolve(env, rest[1..][k].addr) != Resolve(env, rest[0].addr)
  {
    forall k | 0 <= k < |rest[1..]|
      ensures rest[1..][k] == rest[k + 1]
    {
    }
  }

  lemma ReachedTail(env: Env, target: seq<Slot>, roots': seq<AddrSet>, rest: seq<Rec>)
    requires Reached(env, target, roots', rest) && rest != []
    ensures Reached(env, target, roots', rest[1..])
  {
    forall k | 0 <= k < |rest[1..]|
      ensures rest[1..][k] == rest[k + 1]
    {
    }
  }

  /** The store record at the head puts its value into its cell, and later ones do not touch it. */
  lemma OnTrackTail(env: Env, target: seq<Slot>, now: seq<Slot>, rest: seq<Rec>)
    requires GoodStore(env, now, rest) && OnTrack(env, target, now, rest) && rest != []
    ensures var i := Resolve(env, rest[0].addr);
            OnTrack(env, target, now[i := now[i].(value := Some(rest[0].arg.cell))], rest[1..])
  {
    var i := Resolve(env, rest[0].addr);
    var now' := now[i := now[i].(value := Some(rest[0].arg.cell))];
    forall y | Live(now', y)
      ensures Overwrites(env, rest[1..], y, now'[y].value) == target[y].value
    {
      assert Live(now, y);
    }
  }

  lemma StoreHolders(env: Env, d: Dims, now: seq<Slot>, roots: seq<AddrSet>, rest: seq<Rec>)
    requires |roots| == d.size + d.fields && rest != []
    ensures SameRefs(env, Holders(env, d, roots, [], now, rest),
                     Holders(env, d, roots, [], now, rest[1..]) + [PendStore(env, now, rest)[0]])
  {
    var ps := PendStore(env, now, rest);
    forall i
      ensures Total(env, Holders(env, d, roots, [], now, rest), i) ==
          Total(env, Holders(env, d, roots, [], now, rest[1..]) + [ps[0]], i)
    {
      HoldersTotal(env, d, roots, [], now, rest, i);
      HoldersTotal(env, d, roots, [], now, rest[1..], i);
      TotalSnoc(env, Holders(env, d, roots, [], now, rest[1..]), ps[0], i);
      assert ps[1..] == PendStore(env, now, rest[1..]);
      HeadTotal(env, ps, i);
    }
  }

  /** A store record that changes nothing. */
  lemma SkipStore(env: Env, d: Dims, target: seq<Slot>, roots': seq<AddrSet>, now: seq<Slot>, roots: seq<AddrSet>, rest: seq<Rec>)
    requires Midway(env, d, target, roots', now, roots, [], rest) && rest != []
    requires !Changes(env, now, rest[0])
    ensures Midway(env, d, target, roots', now, roots, [], rest[1..])
  {
    GoodStoreTail(env, now, rest);
    ReachedTail(env, target, roots', rest);
    OnTrackTail(env, target, now, rest);
    var i := Resolve(env, rest[0].addr);
    assert now[i := now[i].(value := Some(rest[0].arg.cell))] == now;
    StoreHolders(env, d, now, roots, rest);
    NothingPending(env, Holders(env, d, roots, [], now, rest[1..]), NOTHING);
  }

  lemma StoreStep(env: Env, d: Dims, target: seq<Slot>, roots': seq<AddrSet>, mid: seq<Slot>, now: seq<Slot>,
                  roots: seq<AddrSet>, rest: seq<Rec>)
    requires Midway(env, d, target, roots', mid, roots, [], rest) && rest != [] && Changes(env, mid, rest[0])
    requires var i := Resolve(env, rest[0].addr);
             && Others(mid, now, i) && now[i].value == Some(rest[0].arg.cell)
             && Attached(env, mid, now, Holders(env, d, roots, [], mid, rest[1..]), i)
    ensures Midway(env, d, target, roots', now, roots, [], rest[1..])
  {
    var i, cell := Resolve(env, rest[0].addr), rest[0].arg.cell;
    var base := mid[i := mid[i].(value := Some(cell))];
    GoodStoreTail(env, mid, rest);
    ReachedTail(env, target, roots', rest);
    OnTrackTail(env, target, mid, rest);
    StoreHolders(env, d, mid, roots, rest);
    hide Reachable, Refs, RootSlots, Resolve, Overwrites;
    SameRefsBound(env, mid, Holders(env, d, roots, [], mid, rest), Holders(env, d, roots, [], mid, rest[1..]) + [cell]);
    StoreRecsSame(env, mid, base, rest[1..]);
    AfterCascade(env, d, target, roots', base, mid, now, roots, [], rest[1..]);
  }

  /** Before the first record: counting the new values in advance makes the start of the application. */
  lemma MidwayStart(env: Env, d: Dims, s0: seq<Slot>, slots: seq<Slot>, roots: seq<AddrSet>, recs: seq<Rec>, rest: seq<Rec>)
    requires |roots| == d.size + d.fields && GoodRegs(d, recs) && GoodStore(env, s0, rest)
    requires |s0| == |slots| && forall i :: 0 <= i < |s0| ==> slots[i].value == s0[i].value
    requires Bound(env, slots, Holders(env, d, roots, recs, slots, rest))
    requires Reached(env, Patched(env, s0, rest), ApplyRegs(d, roots, recs), rest)
    ensures Midway(env, d, Patched(env, s0, rest), ApplyRegs(d, roots, recs), slots, roots, recs, rest)
  {
    hide Reachable, RootSlots, Resolve;
    var target := Patched(env, s0, rest);
    forall i | Live(target, i)
      ensures Live(slots, i)
    {
      if !Live(s0, i) {
        DeadStays(env, s0, rest, i);
      }
    }
  }

  lemma {:induction false} DeadStays(env: Env, slots: seq<Slot>, rest: seq<Rec>, i: int)
    requires GoodStore(env, slots, rest) && 0 <= i < |slots| && !Live(slots, i)
    ensures Overwrites(env, rest, i, slots[i].value).None?
  {
    NotOverwritten(env, rest, i, slots[i].value);
  }
}
