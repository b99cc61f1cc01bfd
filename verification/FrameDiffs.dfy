/**
 Applying a diff to a frame: new references are counted first, then the register and store sections are
 written record by record, each change logged.
 */
module FrameDiffs {
  import opened Values
  import opened Diffs
  import opened DiffBuffers
  import opened Stores
  import opened Collector
  import opened Patches
  import opened Logging
  import opened Frames

  lemma PendingCounted(env: Env, was: seq<Slot>, now: seq<Slot>, hs: seq<Value>, v: Value, hs': seq<Value>)
    requires Raised(env, was, now, hs, v) || (was == now && v == NOTHING)
    requires hs' == hs + [v]
    ensures Counted(env, was, now, hs, hs')
  {
    if was == now && v == NOTHING {
      NothingPending(env, hs, v);
      SameRefsSwap(env, hs', hs);
      SameCounted(env, was, hs, hs');
    } else {
      SameRefsSelf(env, hs');
      RaisedCounted(env, was, now, hs, v, hs');
    }
  }

  /** The values of the cells are as they were, and the counters still cover the references. */
  ghost predicate Spared(env: Env, was: seq<Slot>, now: seq<Slot>, hs: seq<Value>) {
    && |was| == |now| && (forall i :: 0 <= i < |was| ==> was[i].value == now[i].value)
    && (Bound(env, was, hs) ==> Bound(env, now, hs))
  }

  /** Counters that count too much still cover the references. */
  lemma CountedSpares(env: Env, was: seq<Slot>, now: seq<Slot>, hs: seq<Value>, more: seq<Value>)
    requires Counted(env, was, now, hs, hs + more)
    ensures Spared(env, was, now, hs)
    ensures forall rec :: TypesFit(env, was, rec) <==> TypesFit(env, now, rec)
    ensures forall i :: Live(was, i) <==> Live(now, i)
  {
    forall i
      ensures Total(env, hs, i) <= Total(env, hs + more, i)
    {
      TotalConcat(env, hs, more, i);
    }
  }

  lemma Assoc(xs: seq<Value>, ys: seq<Value>, zs: seq<Value>)
    ensures xs + ys + zs == xs + (ys + zs)
  {
  }

  /** Counts the references of the register section. */
  method CountRegs(frame: Frame, recs: seq<Rec>) returns (ok: bool)
    requires frame.Valid()
    requires forall k :: 0 <= k < |recs| ==> recs[k].arg.SetArg? && (IsStatic(recs[k].addr) || recs[k].addr < frame.dims.size)
    modifies frame`statics, frame.store`slots
    ensures frame.Valid() && frame.Roots() == old(frame.Roots()) && |frame.store.slots| == old(|frame.store.slots|)
    ensures forall q :: frame.Readable(q) <==> old(frame.Readable(q))
    ensures ok <==> forall k :: 0 <= k < |recs| ==> old(frame.Readable(recs[k].addr))
    ensures ok ==> Counted(frame.store.TheEnv(), old(frame.store.slots), frame.store.slots, AsHolders(frame.Roots()),
                           AsHolders(frame.Roots()) + PendRegs(frame.dims, frame.Roots(), recs))
    ensures Spared(frame.store.TheEnv(), old(frame.store.slots), frame.store.slots, AsHolders(frame.Roots()))
  {
    hide Counted, Raised, AsHolders, PendRegs, RootsOf, SameRefs, Spared;
    ghost var env, s0, roots, d := frame.store.TheEnv(), frame.store.slots, frame.Roots(), frame.dims;
    ghost var hs := AsHolders(roots);
    ghost var pend := [];
    PendRegsNone(d, roots);
    NoExtra(hs);
    SameRefsSelf(env, hs);
    SameCounted(env, s0, hs, hs);
    for k := 0 to |recs|
      invariant frame.Valid() && frame.Roots() == roots && frame.store.TheEnv() == env
      invariant forall q :: frame.Readable(q) <==> old(frame.Readable(q))
      invariant forall j :: 0 <= j < k ==> old(frame.Readable(recs[j].addr))
      invariant pend == PendRegs(d, roots, recs[..k]) && Counted(env, s0, frame.store.slots, hs, hs + pend)
    {
      ghost var s1 := frame.store.slots;
      var known, cur := frame.ReadRoot(recs[k].addr);
      if !known {
        CountedSpares(env, s0, s1, hs, pend);
        return false;
      }
      ghost var v := PendReg(d, roots, recs[k]);
      if cur != recs[k].arg.contents {
        frame.store.IncrefSet(recs[k].arg.contents, hs + pend);
      }
      PendRegsSnoc(d, roots, recs, k);
      Assoc(hs, pend, [v]);
      PendingCounted(env, s1, frame.store.slots, hs + pend, v, hs + (pend + [v]));
      CountedThen(env, s0, s1, frame.store.slots, hs, hs + pend, hs + (pend + [v]));
      pend := pend + [v];
    }
    assert recs[..|recs|] == recs;
    CountedSpares(env, s0, frame.store.slots, hs, pend);
    ok := true;
  }

  lemma PendRegsNone(d: Dims, roots: seq<AddrSet>)
    requires |roots| == d.size + d.fields
    ensures forall recs: seq<Rec> :: PendRegs(d, roots, recs[..0]) == []
  {
  }

  predicate TypesFit(env: Env, slots: seq<Slot>, rec: Rec) {
    var i := Resolve(env, rec.addr);
    Live(slots, i) && rec.arg.ValueArg? && SameType(slots[i].value.value, rec.arg.cell)
  }

  /** A store record fits if its address names a live cell and both values are sets or both are objects. */
  lemma TypesFitMeans(env: Env, slots: seq<Slot>, rec: Rec)
    requires env.size == |slots|
    ensures TypesFit(env, slots, rec) <==> rec.arg.ValueArg? && exists i ::
        Names(env.reloc, rec.addr, i) && Live(slots, i) && (slots[i].value.value.SetValue? <==> rec.arg.cell.SetValue?)
  {
    forall i
      ensures Live(slots, i) ==> (Resolve(env, rec.addr) == i <==> Names(env.reloc, rec.addr, i))
    {
      ResolveNames(env, rec.addr, i);
    }
  }

  /** Counts the references of the store section. */
  method CountCells(store: Store, recs: seq<Rec>, ghost hs: seq<Value>) returns (ok: bool)
    requires store.Shaped()
    requires forall k :: 0 <= k < |recs| ==> recs[k].arg.ValueArg? && Live(store.slots, Resolve(store.TheEnv(), recs[k].addr))
    modifies store`slots
    ensures store.Shaped() && |store.slots| == old(|store.slots|)
    ensures ok <==> forall k :: 0 <= k < |recs| ==> TypesFit(store.TheEnv(), old(store.slots), recs[k])
    ensures ok ==> Counted(store.TheEnv(), old(store.slots), store.slots, hs, hs + PendStore(store.TheEnv(), old(store.slots), recs))
    ensures Spared(store.TheEnv(), old(store.slots), store.slots, hs)
  {
    hide Counted, Raised, PendStore, SameRefs, Spared;
    ghost var env, s0 := store.TheEnv(), store.slots;
    ghost var pend := [];
    PendStoreNone(env, s0);
    NoExtra(hs);
    SameRefsSelf(env, hs);
    SameCounted(env, s0, hs, hs);
    for k := 0 to |recs|
      invariant store.Shaped() && store.TheEnv() == env
      invariant forall j :: 0 <= j < k ==> TypesFit(env, s0, recs[j])
      invariant pend == PendStore(env, s0, recs[..k]) && Counted(env, s0, store.slots, hs, hs + pend)
    {
      ghost var s1 := store.slots;
      CountedSize(env, s0, s1, hs, hs + pend);
      var i, cell := Resolve(store.TheEnv(), recs[k].addr), recs[k].arg.cell;
      var cur := store.slots[i].value.value;
      if !SameType(cur, cell) {
        CountedSpares(env, s0, s1, hs, pend);
        return false;
      }
      ghost var v := PendCell(env, s0, recs[k]);
      if cur != cell {
        match cell {
          case SetValue(c) => store.IncrefSet(c, hs + pend);
          case ObjectValue(ms, tags) => store.IncrefObject(ms, tags, hs + pend);
        }
      }
      PendStoreSnoc(env, s0, recs, k);
      Assoc(hs, pend, [v]);
      PendingCounted(env, s1, store.slots, hs + pend, v, hs + (pend + [v]));
      CountedThen(env, s0, s1, store.slots, hs, hs + pend, hs + (pend + [v]));
      pend := pend + [v];
    }
    assert recs[..|recs|] == recs;
    CountedSpares(env, s0, store.slots, hs, pend);
    ok := true;
  }

  lemma PendStoreNone(env: Env, slots: seq<Slot>)
    ensures forall recs: seq<Rec> :: PendStore(env, slots, recs[..0]) == []
  {
  }

  // ---------- writing the register section ----------

  /** A buffer has recorded `recs` of type `kind` and nothing else. */
  ghost predicate Recorded(was: seq<Node>, now: seq<Node>, kind: int, recs: seq<Rec>) {
    forall k :: Log(now, k) == Log(was, k) + if k == kind then recs else []
  }

  lemma RecordedThen(n0: seq<Node>, n1: seq<Node>, n2: seq<Node>, kind: int, xs: seq<Rec>, ys: seq<Rec>)
    requires Recorded(n0, n1, kind, xs) && Recorded(n1, n2, kind, ys)
    ensures Recorded(n0, n2, kind, xs + ys)
  {
    hide Log;
    forall k
      ensures Log(n2, k) == Log(n0, k) + if k == kind then xs + ys else []
    {
      assert Log(n0, k) + xs + ys == Log(n0, k) + (xs + ys);
    }
  }

  /** Whether a register record changes the roots, seen on their cells. */
  lemma ChangingRoot(d: Dims, roots: seq<AddrSet>, rec: Rec)
    requires d.Valid() && |roots| == d.size + d.fields && RefLoc(d, rec.addr) >= 0 && rec.arg.SetArg?
    ensures rec.addr in RootCells(d, roots) && RootCells(d, roots)[rec.addr] == SetArg(roots[RefLoc(d, rec.addr)])
    ensures Changing(RootCells(d, roots), rec) <==> roots[RefLoc(d, rec.addr)] != rec.arg.contents
  {
    RootCellsAt(d, roots, rec.addr);
  }

  lemma ChangedSnoc(c: Cells, recs: seq<Rec>, k: nat)
    requires k < |recs|
    ensures Changed(c, recs[..k + 1]) == Changed(c, recs[..k]) + if Changing(c, recs[k]) then [recs[k]] else []
    ensures Undo(c, recs[..k + 1]) == Undo(c, recs[..k]) + if Changing(c, recs[k]) then [Rec(recs[k].addr, c[recs[k].addr])] else []
  {
    assert recs[..k + 1][..k] == recs[..k];
  }

  lemma ChangedNone(c: Cells, recs: seq<Rec>)
    ensures Changed(c, recs[..0]) == [] == Undo(c, recs[..0])
  {
  }

  /** The references while a register record is applied, as the register's overwriting sees them. */
  lemma RegCascade(env: Env, d: Dims, mid: seq<Slot>, now: seq<Slot>, roots: seq<AddrSet>, recs: seq<Rec>, rest: seq<Rec>, ext: seq<Value>)
    requires |roots| == d.size + d.fields && recs != [] && RefLoc(d, recs[0].addr) >= 0 && recs[0].arg.SetArg?
    requires ext == RegExtra(env, d, mid, roots, recs, rest)
    requires var roots1 := roots[RefLoc(d, recs[0].addr) := recs[0].arg.contents];
             Cascaded(env, mid, now, AsHolders(roots) + ext + [SetValue(recs[0].arg.contents)], AsHolders(roots1) + ext)
    ensures var l := RefLoc(d, recs[0].addr);
            var hs := Holders(env, d, roots[l := recs[0].arg.contents], recs[1..], mid, rest);
            Cascaded(env, mid, now, hs + [SetValue(roots[l])], hs)
  {
    hide Cascaded, AsHolders, PendRegs, PendStore, SameRefs;
    var l, v := RefLoc(d, recs[0].addr), recs[0].arg.contents;
    var roots1 := roots[l := v];
    Assoc(AsHolders(roots1), PendRegs(d, roots1, recs[1..]), PendStore(env, mid, rest));
    RootReplaced(env, roots, l, v, ext);
    SameRefsSwap(env, AsHolders(roots) + ext + [SetValue(v)], AsHolders(roots1) + ext + [SetValue(roots[l])]);
    CascadeFrom(env, mid, now, AsHolders(roots1) + ext + [SetValue(roots[l])], AsHolders(roots) + ext + [SetValue(v)], AsHolders(roots1) + ext);
  }

  ghost function RegExtra(env: Env, d: Dims, mid: seq<Slot>, roots: seq<AddrSet>, recs: seq<Rec>, rest: seq<Rec>): seq<Value>
    requires |roots| == d.size + d.fields && recs != [] && RefLoc(d, recs[0].addr) >= 0 && recs[0].arg.SetArg?
  {
    PendRegs(d, roots[RefLoc(d, recs[0].addr) := recs[0].arg.contents], recs[1..]) + PendStore(env, mid, rest)
  }

  lemma ShrunkWithin(was: seq<Slot>, now: seq<Slot>)
    requires Shrunk(was, now)
    ensures Within(now, was)
  {
  }

  /** A register record in the middle of its section. */
  method ApplyReg(frame: Frame, ghost recs: seq<Rec>, rec: Rec, fwd: Buffer, inv: Buffer,
                  ghost rest: seq<Rec>, ghost target: seq<Slot>, ghost roots': seq<AddrSet>)
    returns (changed: bool)
    requires frame.Valid() && fwd != inv && Recording(fwd) && Recording(inv)
    requires recs != [] && rec == recs[0] && rec.addr < NULL_ADDR && frame.Readable(rec.addr) && rec.arg.SetArg?
    requires Midway(frame.store.TheEnv(), frame.dims, target, roots', frame.store.slots, frame.Roots(), recs, rest)
    modifies frame`regs, frame`statics, frame.store`slots, frame.store`numEnt, fwd, inv
    ensures frame.Valid() && Recording(fwd) && Recording(inv) && |frame.store.slots| == old(|frame.store.slots|)
    ensures forall q :: old(frame.Readable(q)) ==> frame.Readable(q)
    ensures Midway(frame.store.TheEnv(), frame.dims, target, roots', frame.store.slots, frame.Roots(), recs[1..], rest)
    ensures GapsMoved(frame.store.blockSlots, old(frame.store.slots), old(frame.store.numEnt), frame.store.slots, frame.store.numEnt, 0, 0)
    ensures Within(frame.store.slots, old(frame.store.slots))
    ensures frame.Roots() == old(frame.Roots())[RefLoc(frame.dims, rec.addr) := rec.arg.contents]
    ensures changed <==> old(frame.Roots())[RefLoc(frame.dims, rec.addr)] != rec.arg.contents
    ensures Recorded(old(fwd.nodes), fwd.nodes, REG, if changed then [rec] else [])
    ensures Recorded(old(inv.nodes), inv.nodes, REG,
                     if changed then [Rec(rec.addr, SetArg(old(frame.Roots())[RefLoc(frame.dims, rec.addr)]))] else [])
  {
    hide Midway, AsHolders, Cascaded, GapsMoved, RootsOf, Log, Recording, Shrunk, RegExtra, Holders, LiveSet;
    ghost var env, s0, e0, roots, d := frame.store.TheEnv(), frame.store.slots, frame.store.numEnt, frame.Roots(), frame.dims;
    var ok, cur := frame.ReadRoot(rec.addr);
    if cur == rec.arg.contents {
      assert roots[RefLoc(d, rec.addr) := rec.arg.contents] == roots;
      SkipReg(env, d, target, roots', s0, roots, recs, rest);
      GapsSame(frame.store.blockSlots, s0, e0, s0, 0);
      return false;
    }
    Snapshot(inv, REG, rec.addr, SetArg(cur));
    Snapshot(fwd, REG, rec.addr, rec.arg);
    ghost var ext := RegExtra(env, d, s0, roots, recs, rest);
    frame.Replace(rec.addr, rec.arg.contents, ext);
    RegCascade(env, d, s0, frame.store.slots, roots, recs, rest, ext);
    RegStep(env, d, target, roots', s0, frame.store.slots, roots, recs, rest);
    ShrunkWithin(s0, frame.store.slots);
    changed := true;
  }

  lemma NothingRecorded(ns: seq<Node>, kind: int)
    ensures Recorded(ns, ns, kind, [])
  {
  }

  lemma MidwayGood(env: Env, d: Dims, target: seq<Slot>, roots': seq<AddrSet>, now: seq<Slot>, roots: seq<AddrSet>, recs: seq<Rec>, rest: seq<Rec>)
    requires Midway(env, d, target, roots', now, roots, recs, rest)
    ensures |roots| == d.size + d.fields && GoodRegs(d, recs) && roots' == ApplyRegs(d, roots, recs) && GoodStore(env, now, rest)
  {
  }

  /** The records from `k` on still find what the roots held before the section. */
  ghost predicate Untouched(d: Dims, roots0: seq<AddrSet>, roots: seq<AddrSet>, recs: seq<Rec>, k: nat)
    requires |roots0| == |roots| == d.size + d.fields
  {
    forall j :: k <= j < |recs| && RefLoc(d, recs[j].addr) >= 0 ==> roots[RefLoc(d, recs[j].addr)] == roots0[RefLoc(d, recs[j].addr)]
  }

  lemma StillUntouched(d: Dims, roots0: seq<AddrSet>, roots: seq<AddrSet>, recs: seq<Rec>, k: nat, v: AddrSet)
    requires |roots0| == |roots| == d.size + d.fields && GoodRegs(d, recs) && k < |recs|
    requires Untouched(d, roots0, roots, recs, k)
    ensures Untouched(d, roots0, roots[RefLoc(d, recs[k].addr) := v], recs, k + 1)
  {
    forall j | k + 1 <= j < |recs| && RefLoc(d, recs[j].addr) >= 0
      ensures RefLoc(d, recs[j].addr) != RefLoc(d, recs[k].addr)
    {
      if RefLoc(d, recs[j].addr) == RefLoc(d, recs[k].addr) {
        RefLocInjective(d, recs[j].addr, recs[k].addr);
      }
    }
  }

  /** Writes the register section; logs and counts the records that change something. */
  method ApplyRegSection(frame: Frame, recs: seq<Rec>, fwd: Buffer, inv: Buffer,
                         ghost rest: seq<Rec>, ghost target: seq<Slot>, ghost roots': seq<AddrSet>)
    returns (n: nat)
    requires frame.Valid() && fwd != inv && Recording(fwd) && Recording(inv)
    requires forall k :: 0 <= k < |recs| ==> frame.Readable(recs[k].addr)
    requires Midway(frame.store.TheEnv(), frame.dims, target, roots', frame.store.slots, frame.Roots(), recs, rest)
    modifies frame`regs, frame`statics, frame.store`slots, frame.store`numEnt, fwd, inv
    ensures frame.Valid() && Recording(fwd) && Recording(inv) && |frame.store.slots| == old(|frame.store.slots|)
    ensures Midway(frame.store.TheEnv(), frame.dims, target, roots', frame.store.slots, frame.Roots(), [], rest)
    ensures GapsMoved(frame.store.blockSlots, old(frame.store.slots), old(frame.store.numEnt), frame.store.slots, frame.store.numEnt, 0, 0)
    ensures Within(frame.store.slots, old(frame.store.slots))
    ensures n == |Changed(old(frame.RootMap()), recs)|
    ensures Recorded(old(fwd.nodes), fwd.nodes, REG, Changed(old(frame.RootMap()), recs))
    ensures Recorded(old(inv.nodes), inv.nodes, REG, Undo(old(frame.RootMap()), recs))
  {
    hide Midway, GapsMoved, RootsOf, Log, Recording, Recorded, Changed, Undo, RootCells, LiveSet, Untouched;
    ghost var env, s0, e0, roots0, d := frame.store.TheEnv(), frame.store.slots, frame.store.numEnt, frame.Roots(), frame.dims;
    ghost var c0, f0, i0 := frame.RootMap(), fwd.nodes, inv.nodes;
    MidwayGood(env, d, target, roots', s0, roots0, recs, rest);
    GapsSame(frame.store.blockSlots, s0, e0, s0, 0);
    NothingRecorded(f0, REG);
    NothingRecorded(i0, REG);
    ChangedNone(c0, recs);
    assert recs[0..] == recs;
    assert Untouched(d, roots0, roots0, recs, 0) by {
      StartUntouched(d, roots0, recs);
    }
    n := 0;
    for k := 0 to |recs|
      invariant frame.Valid() && Recording(fwd) && Recording(inv) && frame.store.TheEnv() == env
      invariant forall j :: 0 <= j < |recs| ==> frame.Readable(recs[j].addr)
      invariant Midway(env, d, target, roots', frame.store.slots, frame.Roots(), recs[k..], rest)
      invariant GapsMoved(frame.store.blockSlots, s0, e0, frame.store.slots, frame.store.numEnt, 0, 0)
      invariant Within(frame.store.slots, s0)
      invariant Untouched(d, roots0, frame.Roots(), recs, k)
      invariant n == |Changed(c0, recs[..k])|
      invariant Recorded(f0, fwd.nodes, REG, Changed(c0, recs[..k])) && Recorded(i0, inv.nodes, REG, Undo(c0, recs[..k]))
    {
      ghost var s1, e1, f1, i1, roots1 := frame.store.slots, frame.store.numEnt, fwd.nodes, inv.nodes, frame.Roots();
      assert recs[k..][1..] == recs[k + 1..];
      UntouchedAt(d, roots0, roots1, recs, k);
      var changed := ApplyReg(frame, recs[k..], recs[k], fwd, inv, rest, target, roots');
      StillUntouched(d, roots0, roots1, recs, k, recs[k].arg.contents);
      GapsThen(frame.store.blockSlots, s0, e0, s1, e1, frame.store.slots, frame.store.numEnt, 0, 0, 0);
      ChangingRoot(d, roots0, recs[k]);
      ChangedSnoc(c0, recs, k);
      RecordedThen(f0, f1, fwd.nodes, REG, Changed(c0, recs[..k]), if changed then [recs[k]] else []);
      RecordedThen(i0, i1, inv.nodes, REG, Undo(c0, recs[..k]), if changed then [Rec(recs[k].addr, c0[recs[k].addr])] else []);
      if changed {
        n := n + 1;
      }
    }
    assert recs[..|recs|] == recs && recs[|recs|..] == [];
  }

  lemma StartUntouched(d: Dims, roots: seq<AddrSet>, recs: seq<Rec>)
    requires |roots| == d.size + d.fields
    ensures Untouched(d, roots, roots, recs, 0)
  {
  }

  lemma UntouchedAt(d: Dims, roots0: seq<AddrSet>, roots: seq<AddrSet>, recs: seq<Rec>, k: nat)
    requires |roots0| == |roots| == d.size + d.fields && Untouched(d, roots0, roots, recs, k)
    requires k < |recs| && RefLoc(d, recs[k].addr) >= 0
    ensures roots[RefLoc(d, recs[k].addr)] == roots0[RefLoc(d, recs[k].addr)]
  {
  }

  // ---------- writing the store section ----------

  /** The live cells that a store section names, by the addresses it uses for them. */
  function StoreCells(env: Env, slots: seq<Slot>, recs: seq<Rec>): Cells {
    map a | a in Addrs(recs) && Live(slots, Resolve(env, a)) :: ValueArg(slots[Resolve(env, a)].value.value)
  }

  lemma StoreCellsAt(env: Env, slots: seq<Slot>, recs: seq<Rec>, k: nat)
    requires k < |recs| && Live(slots, Resolve(env, recs[k].addr))
    ensures recs[k].addr in StoreCells(env, slots, recs)
    ensures StoreCells(env, slots, recs)[recs[k].addr] == ValueArg(slots[Resolve(env, recs[k].addr)].value.value)
  {
    assert recs[k].addr in Addrs(recs);
  }

  ghost predicate CellsUntouched(env: Env, s0: seq<Slot>, now: seq<Slot>, recs: seq<Rec>, k: nat) {
    && |s0| == |now|
    && forall j :: k <= j < |recs| && Live(now, Resolve(env, recs[j].addr)) ==>
        now[Resolve(env, recs[j].addr)].value == s0[Resolve(env, recs[j].addr)].value
  }

  lemma StillCellsUntouched(env: Env, s0: seq<Slot>, mid: seq<Slot>, now: seq<Slot>, recs: seq<Rec>, k: nat)
    requires k < |recs| && CellsUntouched(env, s0, mid, recs, k)
    requires forall j, m :: 0 <= j < m < |recs| ==> Resolve(env, recs[j].addr) != Resolve(env, recs[m].addr)
    requires Others(mid, now, Resolve(env, recs[k].addr))
    ensures CellsUntouched(env, s0, now, recs, k + 1)
  {
  }

  /** A store record in the middle of its section. */
  method ApplyCell(store: Store, ghost recs: seq<Rec>, rec: Rec, fwd: Buffer, inv: Buffer,
                   ghost d: Dims, ghost target: seq<Slot>, ghost roots: seq<AddrSet>)
    returns (changed: bool)
    requires store.Shaped() && fwd != inv && Recording(fwd) && Recording(inv)
    requires recs != [] && rec == recs[0] && rec.addr < NULL_ADDR && TypesFit(store.TheEnv(), store.slots, rec)
    requires Midway(store.TheEnv(), d, target, roots, store.slots, roots, [], recs)
    modifies store`slots, store`numEnt, fwd, inv
    ensures store.Shaped() && Recording(fwd) && Recording(inv) && |store.slots| == old(|store.slots|)
    ensures Midway(store.TheEnv(), d, target, roots, store.slots, roots, [], recs[1..])
    ensures GapsMoved(store.blockSlots, old(store.slots), old(store.numEnt), store.slots, store.numEnt, 0, 0)
    ensures Others(old(store.slots), store.slots, Resolve(store.TheEnv(), rec.addr))
    ensures changed <==> Changes(store.TheEnv(), old(store.slots), rec)
    ensures Recorded(old(fwd.nodes), fwd.nodes, STORE, if changed then [rec] else [])
    ensures Recorded(old(inv.nodes), inv.nodes, STORE,
                     if changed then [Rec(rec.addr, ValueArg(old(store.slots)[Resolve(store.TheEnv(), rec.addr)].value.value))] else [])
  {
    hide Midway, GapsMoved, Log, Recording, Holders, LiveSet, Attached, Others;
    ghost var env, s0, e0 := store.TheEnv(), store.slots, store.numEnt;
    var i := Resolve(store.TheEnv(), rec.addr);
    var cur := store.slots[i].value.value;
    if cur == rec.arg.cell {
      SkipStore(env, d, target, roots, s0, roots, recs);
      GapsSame(store.blockSlots, s0, e0, s0, 0);
      OthersSame(s0, i);
      return false;
    }
    MidwaySize(env, d, target, roots, s0, roots, [], recs);
    Snapshot(inv, STORE, rec.addr, ValueArg(cur));
    Snapshot(fwd, STORE, rec.addr, rec.arg);
    store.Attach(i, Some(rec.arg.cell), Holders(env, d, roots, [], s0, recs[1..]));
    StoreStep(env, d, target, roots, s0, store.slots, roots, recs);
    changed := true;
  }

  lemma OthersSame(slots: seq<Slot>, i: int)
    ensures Others(slots, slots, i)
  {
  }

  lemma MidwaySize(env: Env, d: Dims, target: seq<Slot>, roots': seq<AddrSet>, now: seq<Slot>, roots: seq<AddrSet>, recs: seq<Rec>, rest: seq<Rec>)
    requires Midway(env, d, target, roots', now, roots, recs, rest)
    ensures |roots| == d.size + d.fields
  {
  }

  /** Writes the store section; logs and counts the records that change something. */
  method ApplyStoreSection(store: Store, recs: seq<Rec>, fwd: Buffer, inv: Buffer,
                           ghost d: Dims, ghost target: seq<Slot>, ghost roots: seq<AddrSet>, ghost start: seq<Slot>)
    returns (n: nat)
    requires store.Shaped() && fwd != inv && Recording(fwd) && Recording(inv)
    requires (forall k :: 0 <= k < |recs| ==> recs[k].addr < NULL_ADDR) && GoodStore(store.TheEnv(), start, recs)
    requires CellsUntouched(store.TheEnv(), start, store.slots, recs, 0)
    requires Midway(store.TheEnv(), d, target, roots, store.slots, roots, [], recs)
    modifies store`slots, store`numEnt, fwd, inv
    ensures store.Shaped() && Recording(fwd) && Recording(inv) && |store.slots| == old(|store.slots|)
    ensures Midway(store.TheEnv(), d, target, roots, store.slots, roots, [], [])
    ensures GapsMoved(store.blockSlots, old(store.slots), old(store.numEnt), store.slots, store.numEnt, 0, 0)
    ensures n == |Changed(StoreCells(store.TheEnv(), start, recs), recs)|
    ensures Recorded(old(fwd.nodes), fwd.nodes, STORE, Changed(StoreCells(store.TheEnv(), start, recs), recs))
    ensures Recorded(old(inv.nodes), inv.nodes, STORE, Undo(StoreCells(store.TheEnv(), start, recs), recs))
  {
    hide Midway, GapsMoved, Log, Recording, Recorded, Changed, Undo, StoreCells, LiveSet, CellsUntouched, GoodStore, Others, Changing, Changes;
    ghost var env, s0, e0 := store.TheEnv(), store.slots, store.numEnt;
    ghost var c0, f0, i0 := StoreCells(env, start, recs), fwd.nodes, inv.nodes;
    GapsSame(store.blockSlots, s0, e0, s0, 0);
    NothingRecorded(f0, STORE);
    NothingRecorded(i0, STORE);
    ChangedNone(c0, recs);
    assert recs[0..] == recs;
    n := 0;
    for k := 0 to |recs|
      invariant store.Shaped() && Recording(fwd) && Recording(inv) && store.TheEnv() == env
      invariant Midway(env, d, target, roots, store.slots, roots, [], recs[k..])
      invariant GapsMoved(store.blockSlots, s0, e0, store.slots, store.numEnt, 0, 0)
      invariant CellsUntouched(env, start, store.slots, recs, k)
      invariant n == |Changed(c0, recs[..k])|
      invariant Recorded(f0, fwd.nodes, STORE, Changed(c0, recs[..k])) && Recorded(i0, inv.nodes, STORE, Undo(c0, recs[..k]))
    {
      ghost var s1, e1, f1, i1 := store.slots, store.numEnt, fwd.nodes, inv.nodes;
      assert recs[k..][1..] == recs[k + 1..];
      ChangingCell(env, d, target, roots, start, s1, recs, k);
      var changed := ApplyCell(store, recs[k..], recs[k], fwd, inv, d, target, roots);
      StillApart(env, start, s1, store.slots, recs, k);
      GapsThen(store.blockSlots, s0, e0, s1, e1, store.slots, store.numEnt, 0, 0, 0);
      ChangedSnoc(c0, recs, k);
      RecordedThen(f0, f1, fwd.nodes, STORE, Changed(c0, recs[..k]), if changed then [recs[k]] else []);
      RecordedThen(i0, i1, inv.nodes, STORE, Undo(c0, recs[..k]), if changed then [Rec(recs[k].addr, c0[recs[k].addr])] else []);
      if changed {
        n := n + 1;
      }
    }
    assert recs[..|recs|] == recs && recs[|recs|..] == [];
  }

  lemma StillApart(env: Env, start: seq<Slot>, mid: seq<Slot>, now: seq<Slot>, recs: seq<Rec>, k: nat)
    requires GoodStore(env, start, recs) && k < |recs| && CellsUntouched(env, start, mid, recs, k)
    requires Others(mid, now, Resolve(env, recs[k].addr))
    ensures CellsUntouched(env, start, now, recs, k + 1)
  {
    StillCellsUntouched(env, start, mid, now, recs, k);
  }

  /** Whether a store record changes its cell, seen on the cells before the section. */
  lemma ChangingCell(env: Env, d: Dims, target: seq<Slot>, roots: seq<AddrSet>, start: seq<Slot>, now: seq<Slot>, recs: seq<Rec>, k: nat)
    requires k < |recs| && GoodStore(env, start, recs) && CellsUntouched(env, start, now, recs, k)
    requires Midway(env, d, target, roots, now, roots, [], recs[k..])
    ensures TypesFit(env, now, recs[k])
    ensures recs[k].addr in StoreCells(env, start, recs)
    ensures StoreCells(env, start, recs)[recs[k].addr] == ValueArg(now[Resolve(env, recs[k].addr)].value.value)
    ensures Changing(StoreCells(env, start, recs), recs[k]) <==> Changes(env, now, recs[k])
  {
    MidwayGood(env, d, target, roots, now, roots, [], recs[k..]);
    assert recs[k..][0] == recs[k];
    StoreCellsAt(env, start, recs, k);
  }

  // ---------- the whole diff ----------

  /** What the source expects of a register section: register numbers in range; static fields are checked. */
  ghost predicate RegSection(d: Dims, recs: seq<Rec>) {
    WellFormedSection(recs) &&
    forall k :: 0 <= k < |recs| ==> recs[k].arg.SetArg? && (IsStatic(recs[k].addr) || recs[k].addr < d.size)
  }

  /** What it expects of a store section: live cells, none named twice; value types are checked. */
  ghost predicate StoreSection(env: Env, slots: seq<Slot>, recs: seq<Rec>) {
    && WellFormedSection(recs) && env.size == |slots|
    && (forall k :: 0 <= k < |recs| ==> recs[k].arg.ValueArg? && Live(slots, Resolve(env, recs[k].addr)))
    && (forall j, k :: 0 <= j < k < |recs| ==> Resolve(env, recs[j].addr) != Resolve(env, recs[k].addr))
  }

  /** The frame after a diff has been applied to one with `roots0` and `s0`. */
  ghost predicate Applied(env: Env, d: Dims, roots0: seq<AddrSet>, s0: seq<Slot>, recs: seq<Rec>, rest: seq<Rec>,
                          roots: seq<AddrSet>, slots: seq<Slot>)
    requires |roots0| == d.size + d.fields
  {
    && roots == ApplyRegs(d, roots0, recs)
    && |slots| == |s0|
    && (forall i :: Live(slots, i) ==> slots[i].value == Patched(env, s0, rest)[i].value)
    && AllAlive(env, Patched(env, s0, rest), roots, slots)
    && Bound(env, slots, AsHolders(roots))
  }

  lemma MidwayEnd(env: Env, d: Dims, roots0: seq<AddrSet>, s0: seq<Slot>, recs: seq<Rec>, rest: seq<Rec>, roots: seq<AddrSet>, slots: seq<Slot>)
    requires |roots0| == d.size + d.fields
    requires Midway(env, d, Patched(env, s0, rest), ApplyRegs(d, roots0, recs), slots, roots, [], [])
    ensures Applied(env, d, roots0, s0, recs, rest, roots, slots)
  {
    hide AllAlive, Bound, ApplyRegs;
    assert Holders(env, d, roots, [], slots, []) == AsHolders(roots);
    assert ApplyRegs(d, roots, []) == roots by {
      AppliedNone(d, roots);
    }
    forall i | Live(slots, i)
      ensures slots[i].value == Patched(env, s0, rest)[i].value
    {
      assert Overwrites(env, [], i, slots[i].value) == slots[i].value;
    }
  }

  lemma AppliedNone(d: Dims, roots: seq<AddrSet>)
    requires |roots| == d.size + d.fields
    ensures ApplyRegs(d, roots, []) == roots
  {
  }

  lemma {:induction false} ReplayAt(c: Cells, recs: seq<Rec>, k: nat)
    requires Distinct(recs) && k < |recs|
    ensures recs[k].addr in Replay(c, recs) && Replay(c, recs)[recs[k].addr] == recs[k].arg
  {
    var n := |recs| - 1;
    if k < n {
      ReplayAt(c, recs[..n], k);
    }
  }

  lemma AliveAt(env: Env, target: seq<Slot>, roots: seq<AddrSet>, slots: seq<Slot>, rest: seq<Rec>, k: nat)
    requires k < |rest| && Reached(env, target, roots, rest) && AllAlive(env, target, roots, slots)
    ensures Live(slots, Resolve(env, rest[k].addr))
  {
  }

  /** Writing the store section is replaying it on the cells it names. */
  lemma StoreReplays(env: Env, d: Dims, roots0: seq<AddrSet>, s0: seq<Slot>, recs: seq<Rec>, rest: seq<Rec>, roots: seq<AddrSet>, slots: seq<Slot>)
    requires |roots0| == d.size + d.fields && Applied(env, d, roots0, s0, recs, rest, roots, slots)
    requires StoreSection(env, s0, rest) && Reached(env, Patched(env, s0, rest), roots, rest)
    ensures StoreCells(env, slots, rest) == Replay(StoreCells(env, s0, rest), rest)
    ensures forall k :: 0 <= k < |rest| ==> rest[k].addr in StoreCells(env, s0, rest)
  {
    hide Reachable, RootSlots, ApplyRegs, Bound, AllAlive, Reached, StoreCells, Overwrites;
    var c, c' := StoreCells(env, s0, rest), StoreCells(env, slots, rest);
    assert Distinct(rest);
    forall k | 0 <= k < |rest|
      ensures rest[k].addr in c && rest[k].addr in c' && c'[rest[k].addr] == rest[k].arg
      ensures rest[k].addr in Replay(c, rest) && Replay(c, rest)[rest[k].addr] == rest[k].arg
    {
      var i := Resolve(env, rest[k].addr);
      AliveAt(env, Patched(env, s0, rest), roots, slots, rest, k);
      OverwrittenBy(env, rest, k, s0[i].value);
      StoreCellsAt(env, s0, rest, k);
      StoreCellsAt(env, slots, rest, k);
      ReplayAt(c, rest, k);
    }
    forall a
      ensures a in c' <==> a in Replay(c, rest)
      ensures a in c' ==> c'[a] == Replay(c, rest)[a]
    {
      if a in c' {
        StoreKeys(env, slots, rest, a);
      } else {
        if a in c {
          StoreKeys(env, s0, rest, a);
        }
        ReplayKeys(c, rest, a);
      }
    }
  }

  lemma StoreKeys(env: Env, slots: seq<Slot>, recs: seq<Rec>, a: nat)
    requires a in StoreCells(env, slots, recs)
    ensures exists k :: 0 <= k < |recs| && recs[k].addr == a
  {
  }

  lemma UntouchedStart(env: Env, s0: seq<Slot>, s1: seq<Slot>, now: seq<Slot>, rest: seq<Rec>)
    requires env.size == |s0| == |s1| && (forall i :: 0 <= i < |s0| ==> s0[i].value == s1[i].value) && Within(now, s1)
    ensures CellsUntouched(env, s0, now, rest, 0)
  {
  }

  /** Counting ahead of both sections makes the start of the application. */
  lemma CountedStart(env: Env, d: Dims, s0: seq<Slot>, s1: seq<Slot>, s2: seq<Slot>, roots: seq<AddrSet>, recs: seq<Rec>, rest: seq<Rec>)
    requires |roots| == d.size + d.fields && GoodRegs(d, recs) && StoreSection(env, s0, rest)
    requires forall k :: 0 <= k < |rest| ==> TypesFit(env, s1, rest[k])
    requires Bound(env, s0, AsHolders(roots)) && Reached(env, Patched(env, s0, rest), ApplyRegs(d, roots, recs), rest)
    requires Counted(env, s0, s1, AsHolders(roots), AsHolders(roots) + PendRegs(d, roots, recs))
    requires var hs := AsHolders(roots) + PendRegs(d, roots, recs); Counted(env, s1, s2, hs, hs + PendStore(env, s1, rest))
    ensures GoodStore(env, s0, rest)
    ensures Midway(env, d, Patched(env, s0, rest), ApplyRegs(d, roots, recs), s2, roots, recs, rest)
  {
    hide Bound, Reached, ApplyRegs, AsHolders, PendRegs, PendStore, Patched, Midway;
    assert forall i :: 0 <= i < |s0| ==> s0[i].value == s1[i].value == s2[i].value;
    StoreRecsSame(env, s1, s2, rest);
    MidwayStart(env, d, s0, s2, roots, recs, rest);
  }

  /** A buffer has recorded `regs` for registers and static fields and `cells` for the store. */
  ghost predicate Logs(was: seq<Node>, now: seq<Node>, regs: seq<Rec>, cells: seq<Rec>) {
    forall k :: Log(now, k) == Log(was, k) + if k == REG then regs else if k == STORE then cells else []
  }

  lemma LogsBoth(n0: seq<Node>, n1: seq<Node>, n2: seq<Node>, regs: seq<Rec>, cells: seq<Rec>)
    requires Recorded(n0, n1, REG, regs) && Recorded(n1, n2, STORE, cells)
    ensures Logs(n0, n2, regs, cells)
  {
  }

  /**
   A section has turned `c0` into `c`: its changing records replay it, the recorded old values undo it,
   and there is one record for each cell that differs.
   */
  ghost predicate Enacted(c0: Cells, c: Cells, recs: seq<Rec>) {
    && c == Replay(c0, recs) && Tracks(c0, c, Changed(c0, recs), Undo(c0, recs))
    && |Changed(c0, recs)| == |Differing(c0, c)|
  }

  lemma SectionEnacted(c0: Cells, recs: seq<Rec>)
    requires Distinct(recs) && forall k :: 0 <= k < |recs| ==> recs[k].addr in c0
    ensures Enacted(c0, Replay(c0, recs), recs)
  {
    ChangedTracks(c0, recs);
    ChangedCounts(c0, recs);
  }

  lemma RootsEnacted(d: Dims, roots: seq<AddrSet>, recs: seq<Rec>)
    requires d.Valid() && |roots| == d.size + d.fields && GoodRegs(d, recs)
    ensures Enacted(RootCells(d, roots), RootCells(d, ApplyRegs(d, roots, recs)), recs)
  {
    hide RootCells, Replay, ApplyRegs, Enacted;
    ApplyRegsReplays(d, roots, recs);
    forall k | 0 <= k < |recs|
      ensures recs[k].addr in RootCells(d, roots)
    {
      ChangingRoot(d, roots, recs[k]);
    }
    SectionEnacted(RootCells(d, roots), recs);
  }

  lemma CellsEnacted(env: Env, d: Dims, roots0: seq<AddrSet>, s0: seq<Slot>, recs: seq<Rec>, rest: seq<Rec>, roots: seq<AddrSet>, slots: seq<Slot>)
    requires |roots0| == d.size + d.fields && Applied(env, d, roots0, s0, recs, rest, roots, slots)
    requires StoreSection(env, s0, rest) && Reached(env, Patched(env, s0, rest), roots, rest)
    ensures Enacted(StoreCells(env, s0, rest), StoreCells(env, slots, rest), rest)
  {
    StoreReplays(env, d, roots0, s0, recs, rest, roots, slots);
    SectionEnacted(StoreCells(env, s0, rest), rest);
  }

  /** Writes both sections, once their references have been counted; `start` is the store before counting. */
  method ApplySections(frame: Frame, recs: seq<Rec>, rest: seq<Rec>, fwd: Buffer, inv: Buffer, ghost start: seq<Slot>) returns (ret: nat)
    requires frame.Valid() && fwd != inv && Recording(fwd) && Recording(inv)
    requires StoreSection(frame.store.TheEnv(), start, rest) && GoodStore(frame.store.TheEnv(), start, rest)
    requires |start| == |frame.store.slots| && forall i :: 0 <= i < |start| ==> start[i].value == frame.store.slots[i].value
    requires forall k :: 0 <= k < |recs| ==> frame.Readable(recs[k].addr)
    requires Midway(frame.store.TheEnv(), frame.dims, Patched(frame.store.TheEnv(), start, rest), ApplyRegs(frame.dims, frame.Roots(), recs),
                    frame.store.slots, frame.Roots(), recs, rest)
    modifies frame`regs, frame`statics, frame.store`slots, frame.store`numEnt, fwd, inv
    ensures frame.Valid() && Recording(fwd) && Recording(inv) && |frame.store.slots| == old(|frame.store.slots|)
    ensures GapsMoved(frame.store.blockSlots, old(frame.store.slots), old(frame.store.numEnt), frame.store.slots, frame.store.numEnt, 0, 0)
    ensures Applied(frame.store.TheEnv(), frame.dims, old(frame.Roots()), start, recs, rest, frame.Roots(), frame.store.slots)
    ensures var c0, m0 := old(frame.RootMap()), StoreCells(frame.store.TheEnv(), start, rest);
            && Logs(old(fwd.nodes), fwd.nodes, Changed(c0, recs), Changed(m0, rest))
            && Logs(old(inv.nodes), inv.nodes, Undo(c0, recs), Undo(m0, rest))
            && ret == |Changed(c0, recs)| + |Changed(m0, rest)|
  {
    hide ApplyRegs, Patched, Midway, GapsMoved, RootsOf, Log, Recording, Recorded, Changed, Undo, StoreCells, CellsUntouched,
      Within, RootCells, Logs, Applied, GoodStore;
    ghost var env, s0, e0, roots, d := frame.store.TheEnv(), frame.store.slots, frame.store.numEnt, frame.Roots(), frame.dims;
    ghost var target, roots' := Patched(env, start, rest), ApplyRegs(d, roots, recs);
    ghost var c0, m0, f0, i0 := frame.RootMap(), StoreCells(env, start, rest), fwd.nodes, inv.nodes;
    var n := ApplyRegSection(frame, recs, fwd, inv, rest, target, roots');
    ghost var s1, e1, f1, i1 := frame.store.slots, frame.store.numEnt, fwd.nodes, inv.nodes;
    UntouchedStart(env, start, s0, s1, rest);
    MidwayDone(env, d, target, roots', s1, frame.Roots(), rest);
    var m := ApplyStoreSection(frame.store, rest, fwd, inv, d, target, roots', start);
    GapsThen(frame.store.blockSlots, s0, e0, s1, e1, frame.store.slots, frame.store.numEnt, 0, 0, 0);
    MidwayEnd(env, d, roots, start, recs, rest, roots', frame.store.slots);
    LogsBoth(f0, f1, fwd.nodes, Changed(c0, recs), Changed(m0, rest));
    LogsBoth(i0, i1, inv.nodes, Undo(c0, recs), Undo(m0, rest));
    ret := n + m;
  }

  lemma MidwayDone(env: Env, d: Dims, target: seq<Slot>, roots': seq<AddrSet>, now: seq<Slot>, roots: seq<AddrSet>, rest: seq<Rec>)
    requires Midway(env, d, target, roots', now, roots, [], rest)
    ensures roots == roots'
  {
  }

  /** The values of the cells are as they were. */
  ghost predicate Unaffected(s0: seq<Slot>, s1: seq<Slot>) {
    |s0| == |s1| && forall i :: 0 <= i < |s0| ==> s0[i].value == s1[i].value
  }

  lemma SparedValues(env: Env, s0: seq<Slot>, s1: seq<Slot>, hs: seq<Value>)
    requires Spared(env, s0, s1, hs)
    ensures Unaffected(s0, s1) && (Bound(env, s0, hs) ==> Bound(env, s1, hs))
    ensures forall rec :: TypesFit(env, s0, rec) <==> TypesFit(env, s1, rec)
    ensures forall i :: Live(s0, i) <==> Live(s1, i)
  {
  }

  lemma UnaffectedGaps(n: nat, s0: seq<Slot>, s1: seq<Slot>, e: seq<int>)
    requires Unaffected(s0, s1)
    ensures GapsMoved(n, s0, e, s1, e, 0, 0)
  {
    assert forall i :: Live(s0, i) <==> Live(s1, i);
    GapsSame(n, s0, e, s1, 0);
  }

  /** Every record can be applied: its root can be read, its cell has the type of its value. */
  ghost predicate Fits(frame: Frame, recs: seq<Rec>, rest: seq<Rec>)
    requires frame.Valid()
    reads frame, frame.store
  {
    && (forall k :: 0 <= k < |recs| ==> frame.Readable(recs[k].addr))
    && (forall k :: 0 <= k < |rest| ==> TypesFit(frame.store.TheEnv(), frame.store.slots, rest[k]))
  }

  /**
   Applies a diff without ALLOC and REUSE records to a frame whose counters cover its references. The
   store section may only write cells that the patched frame can reach.
   */
  method ApplyDiff(frame: Frame, diff: Diff, fwd: Buffer, inv: Buffer) returns (ret: int)
    requires frame.Valid() && fwd != inv && Recording(fwd) && Recording(inv)
    requires diff.Section(ALLOC) == [] && diff.Section(REUSE) == []
    requires RegSection(frame.dims, diff.Section(REG))
    requires StoreSection(frame.store.TheEnv(), frame.store.slots, diff.Section(STORE))
    requires Bound(frame.store.TheEnv(), frame.store.slots, AsHolders(frame.Roots()))
    requires Reached(frame.store.TheEnv(), Patched(frame.store.TheEnv(), frame.store.slots, diff.Section(STORE)),
                     ApplyRegs(frame.dims, frame.Roots(), diff.Section(REG)), diff.Section(STORE))
    modifies frame`regs, frame`statics, frame.store`slots, frame.store`numEnt, fwd, inv
    ensures frame.Valid() && Recording(fwd) && Recording(inv) && |frame.store.slots| == old(|frame.store.slots|)
    ensures ret == -1 || ret >= 0
    ensures ret >= 0 <==> old(Fits(frame, diff.Section(REG), diff.Section(STORE)))
    ensures GapsMoved(frame.store.blockSlots, old(frame.store.slots), old(frame.store.numEnt), frame.store.slots, frame.store.numEnt, 0, 0)
    ensures Bound(frame.store.TheEnv(), frame.store.slots, AsHolders(frame.Roots()))
    ensures ret < 0 ==>
      && frame.Roots() == old(frame.Roots()) && Unaffected(old(frame.store.slots), frame.store.slots)
      && fwd.nodes == old(fwd.nodes) && inv.nodes == old(inv.nodes)
    ensures ret >= 0 ==> Applied(frame.store.TheEnv(), frame.dims, old(frame.Roots()), old(frame.store.slots),
                                 diff.Section(REG), diff.Section(STORE), frame.Roots(), frame.store.slots)
    ensures ret >= 0 ==>
      var recs, rest := diff.Section(REG), diff.Section(STORE);
      var c0, c := old(frame.RootMap()), frame.RootMap();
      var m0, m := StoreCells(frame.store.TheEnv(), old(frame.store.slots), rest), StoreCells(frame.store.TheEnv(), frame.store.slots, rest);
      && Enacted(c0, c, recs) && Enacted(m0, m, rest)
      && Logs(old(fwd.nodes), fwd.nodes, Changed(c0, recs), Changed(m0, rest))
      && Logs(old(inv.nodes), inv.nodes, Undo(c0, recs), Undo(m0, rest))
      && ret == |Differing(c0, c)| + |Differing(m0, m)|
  {
    hide Bound, Reached, ApplyRegs, AsHolders, PendRegs, PendStore, Patched, Midway, GapsMoved, Counted, RootsOf, Log, Recording,
      Changed, Undo, StoreCells, RootCells, Logs, GoodStore, Differing, TypesFit, Unaffected, Spared;
    ghost var env, s0, e0, roots, d := frame.store.TheEnv(), frame.store.slots, frame.store.numEnt, frame.Roots(), frame.dims;
    ghost var hs := AsHolders(roots);
    var p := diff.pkg;
    var recs, rest := p.data[p.offset[REG]..p.offset[REG + 1]], p.data[p.offset[STORE]..p.offset[STORE + 1]];
    var ok := CountRegs(frame, recs);
    ghost var s1 := frame.store.slots;
    SparedValues(env, s0, s1, hs);
    if !ok {
      UnaffectedGaps(frame.store.blockSlots, s0, s1, e0);
      return -1;
    }
    ok := CountCells(frame.store, rest, hs + PendRegs(d, roots, recs));
    ghost var s2 := frame.store.slots;
    SparedBoth(env, s0, s1, s2, hs, PendRegs(d, roots, recs));
    SparedValues(env, s0, s2, hs);
    UnaffectedGaps(frame.store.blockSlots, s0, s2, e0);
    if !ok {
      return -1;
    }
    ReadableGood(frame, recs);
    CountedStart(env, d, s0, s1, s2, roots, recs, rest);
    ret := ApplySections(frame, recs, rest, fwd, inv, s0);
    GapsThen(frame.store.blockSlots, s0, e0, s2, e0, frame.store.slots, frame.store.numEnt, 0, 0, 0);
    RootsEnacted(d, roots, recs);
    CellsEnacted(env, d, roots, s0, recs, rest, frame.Roots(), frame.store.slots);
  }

  lemma ReadableGood(frame: Frame, recs: seq<Rec>)
    requires frame.Valid() && RegSection(frame.dims, recs) && forall k :: 0 <= k < |recs| ==> frame.Readable(recs[k].addr)
    ensures GoodRegs(frame.dims, recs)
  {
  }

  lemma SparedBoth(env: Env, s0: seq<Slot>, s1: seq<Slot>, s2: seq<Slot>, hs: seq<Value>, more: seq<Value>)
    requires Counted(env, s0, s1, hs, hs + more) && Spared(env, s1, s2, hs + more)
    ensures Spared(env, s0, s2, hs)
  {
    forall i
      ensures Total(env, hs, i) <= Total(env, hs + more, i)
    {
      TotalConcat(env, hs, more, i);
    }
  }

  // ---------- composed diffs on a frame ----------

  /** Applies register sections one after the other. */
  function ApplyAllRegs(d: Dims, roots: seq<AddrSet>, secs: seq<seq<Rec>>): (r: seq<AddrSet>)
    requires |roots| == d.size + d.fields
    ensures |r| == |roots|
  {
    if secs == [] then roots else ApplyRegs(d, ApplyAllRegs(d, roots, secs[..|secs| - 1]), secs[|secs| - 1])
  }

  lemma {:induction false} ApplyAllReplays(d: Dims, roots: seq<AddrSet>, secs: seq<seq<Rec>>)
    requires d.Valid() && |roots| == d.size + d.fields && forall i :: 0 <= i < |secs| ==> GoodRegs(d, secs[i])
    ensures RootCells(d, ApplyAllRegs(d, roots, secs)) == ReplayAll(RootCells(d, roots), secs)
  {
    if secs != [] {
      var n := |secs| - 1;
      ApplyAllReplays(d, roots, secs[..n]);
      ApplyRegsReplays(d, ApplyAllRegs(d, roots, secs[..n]), secs[n]);
    }
  }

  /** Roots are determined by their cells. */
  lemma SameRootCells(d: Dims, xs: seq<AddrSet>, ys: seq<AddrSet>)
    requires d.Valid() && |xs| == |ys| == d.size + d.fields && RootCells(d, xs) == RootCells(d, ys)
    ensures xs == ys
  {
    forall l | 0 <= l < |xs|
      ensures xs[l] == ys[l]
    {
      RefOfLoc(d, l);
      RootCellsAt(d, xs, RefOf(d, l));
      RootCellsAt(d, ys, RefOf(d, l));
    }
  }

  /** Applying a composed diff to the roots of a frame is applying the diffs one by one. */
  lemma ComposedOnFrame(args: seq<Diff>, out: seq<Rec>, d: Dims, roots: seq<AddrSet>)
    requires d.Valid() && |roots| == d.size + d.fields && (forall i, j :: 0 <= i < j < |args| ==> args[i] != args[j])
    requires forall i :: 0 <= i < |args| ==> GoodRegs(d, Sections(args, REG)[i])
    requires Emitted(out, Merged(args, REG), NULL_ADDR, REG)
    ensures GoodRegs(d, out) && ApplyRegs(d, roots, out) == ApplyAllRegs(d, roots, Sections(args, REG))
  {
    hide RootCells, Replay, ReplayAll, ApplyRegs;
    ComposedGood(args, out, d);
    ComposeIsAction(args, REG, out, RootCells(d, roots));
    ApplyRegsReplays(d, roots, out);
    ApplyAllReplays(d, roots, Sections(args, REG));
    SameRootCells(d, ApplyRegs(d, roots, out), ApplyAllRegs(d, roots, Sections(args, REG)));
  }

  lemma ComposedGood(args: seq<Diff>, out: seq<Rec>, d: Dims)
    requires forall i :: 0 <= i < |args| ==> GoodRegs(d, Sections(args, REG)[i])
    requires Emitted(out, Merged(args, REG), NULL_ADDR, REG)
    ensures GoodRegs(d, out)
  {
    hide Merged;
    forall k | 0 <= k < |out|
      ensures RefLoc(d, out[k].addr) >= 0 && out[k].arg.SetArg?
    {
      MergedFrom(args, out[k].addr, d);
    }
  }

  lemma {:induction false} MergedFrom(args: seq<Diff>, a: nat, d: Dims)
    requires (forall i :: 0 <= i < |args| ==> GoodRegs(d, Sections(args, REG)[i])) && a in Merged(args, REG)
    ensures RefLoc(d, a) >= 0 && Merged(args, REG)[a].SetArg?
  {
    var n := |args| - 1;
    var sec := args[n].Section(REG);
    assert Sections(args, REG)[n] == sec;
    if args[n] !in args[..n] && a in Writes(sec) {
      WritesKeys(sec);
      var r :| r in sec && r.addr == a;
      var k :| 0 <= k < |sec| && sec[k] == r;
      WritesAt(sec, k);
    } else {
      assert forall i :: 0 <= i < n ==> Sections(args[..n], REG)[i] == Sections(args, REG)[i];
      MergedFrom(args[..n], a, d);
    }
  }
}
