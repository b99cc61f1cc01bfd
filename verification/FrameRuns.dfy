/**
 Whole runs of frame operations: the two logs replay and undo the run, and no operation loses a cell
 that the frame can still reach.
 */
module FrameRuns {
  import opened Values
  import opened Diffs
  import opened DiffBuffers
  import opened Stores
  import opened Collector
  import opened Patches
  import opened Logging
  import opened Frames

  // ---------- reference safety of one operation ----------

  lemma HeldAfter(env: Env, s0: seq<Slot>, s1: seq<Slot>, roots: seq<AddrSet>)
    requires env.size == |s0| && Shrunk(s0, s1)
    ensures Supported(env, s0, roots, s1, AsHolders(roots))
  {
    forall x | x in RootSlots(env, roots)
      ensures Total(env, AsHolders(roots), x) >= 1
    {
      RootHolder(env, roots, x);
    }
    forall y, x | Live(s1, y) && x in Succ(env, s0, y)
      ensures Refs(env, s1, AsHolders(roots), x) >= 1
    {
      var a :| a in RefSet(HeldBy(s0[y])) && Resolve(env, a) == x;
      CountTarget(env, HeldBy(s0[y]), a);
      TotalAtLeast(env, Held(s1), y, x);
    }
  }

  /** After an operation, every live cell that the new roots can reach is still there with its value. */
  lemma NothingLost(store: Store, s0: seq<Slot>, e0: seq<int>, roots0: seq<AddrSet>, roots: seq<AddrSet>)
    requires Balanced(store, s0, e0, roots0, roots) && Bound(store.TheEnv(), s0, AsHolders(roots0))
    ensures Bound(store.TheEnv(), store.slots, AsHolders(roots))
    ensures forall i :: Live(s0, i) && Reachable(store.TheEnv(), s0, RootSlots(store.TheEnv(), roots), i) ==>
        Live(store.slots, i) && store.slots[i].value == s0[i].value
  {
    hide Reachable, RootSlots, Refs, Supported;
    var env := store.TheEnv();
    assert AllAlive(env, s0, roots, s0);
    HeldAfter(env, s0, store.slots, roots);
    StaysAlive(env, s0, roots, s0, store.slots, AsHolders(roots));
  }

  // ---------- runs ----------

  datatype Op =
    | Move(dst: nat, src: nat)
    | Clear(dst: nat)
    | Push(dst: nat, addr: nat)
    | Load(dst: nat, addr: nat, tags: Option<set<Tag>>)
    | AppendFromStore(dst: nat, addr: nat)
    | LoadFromObject(dst: nat, src: nat, lookup: seq<nat> -> Option<nat>)
    | StaticLoadFromRegister(dst: nat, src: nat)
    | RegisterLoadFromStatic(dst: nat, src: nat)

  /** What a run can observe of a frame: its roots, its cells and the references it can read. */
  datatype State = State(roots: seq<AddrSet>, slots: seq<Slot>, readable: set<nat>)

  ghost function StateOf(frame: Frame): State
    requires frame.Valid()
    reads frame, frame.store
  {
    State(frame.Roots(), frame.store.slots, set r | r in RootRefs(frame.dims) && frame.Readable(r))
  }

  lemma ReadableRef(d: Dims, r: nat)
    requires RefLoc(d, r) >= 0
    ensures r in RootRefs(d)
  {
    assert RefOf(d, RefLoc(d, r)) == r;
  }

  /** What the source expects: no move of a register onto itself, field loads through objects only. */
  predicate Allowed(env: Env, slots: seq<Slot>, regs: seq<AddrSet>, op: Op)
    requires env.size == |slots|
  {
    match op
    case Move(dst, src) => dst != src
    case LoadFromObject(_, src, _) => src < |regs| ==> forall a :: a in regs[src].addrs ==> SetAt(env, slots, a).None?
    case _ => true
  }

  /** The roots after an operation. */
  ghost function Outcome(d: Dims, env: Env, s: State, op: Op): (r: seq<AddrSet>)
    requires |s.roots| == d.size + d.fields && env.size == |s.slots|
    ensures |r| == |s.roots|
  {
    match op
    case Move(dst, src) => if dst < d.size && src < d.size then s.roots[dst := s.roots[src]] else s.roots
    case Clear(dst) => if dst < d.size && s.roots[dst].addrs != {} then s.roots[dst := EMPTY_SET] else s.roots
    case Push(dst, a) =>
      if dst < d.size && (a != NULL_ADDR || a in s.roots[dst].addrs) then s.roots[dst := Grown(s.roots[dst], a)] else s.roots
    case Load(dst, a, tags) =>
      if dst < d.size && Known(env, s.slots, a) then s.roots[dst := Loaded(s.roots[dst], a, tags)] else s.roots
    case AppendFromStore(dst, a) =>
      if dst < d.size && SetAt(env, s.slots, a).Some? then s.roots[dst := Join(s.roots[dst], SetAt(env, s.slots, a).value)] else s.roots
    case LoadFromObject(dst, src, lookup) =>
      if dst < d.size && src < d.size
      then s.roots[dst := FieldLoaded(s.roots[dst], Gathered(env, s.slots, lookup, s.roots[src].addrs))] else s.roots
    case StaticLoadFromRegister(dst, src) =>
      if IsStatic(dst) && dst in s.readable && src < d.size && RefLoc(d, dst) >= 0 then s.roots[RefLoc(d, dst) := s.roots[src]] else s.roots
    case RegisterLoadFromStatic(dst, src) =>
      if IsStatic(src) && src in s.readable && dst < d.size && RefLoc(d, src) >= 0 then s.roots[dst := s.roots[RefLoc(d, src)]] else s.roots
  }

  /** Performs one operation. */
  method Perform(frame: Frame, op: Op, fwd: Buffer, inv: Buffer) returns (ok: bool)
    requires frame.Valid() && fwd != inv && Recording(fwd) && Recording(inv)
    requires Allowed(frame.store.TheEnv(), frame.store.slots, frame.regs, op)
    modifies frame`regs, frame`statics, frame.store`slots, frame.store`numEnt, fwd, inv
    ensures frame.Valid() && Recording(fwd) && Recording(inv)
    ensures frame.Roots() == Outcome(frame.dims, old(frame.store.TheEnv()), old(StateOf(frame)), op)
    ensures Balanced(frame.store, old(frame.store.slots), old(frame.store.numEnt), old(frame.Roots()), frame.Roots())
    ensures Logged(op.dst, old(frame.RootMap()), frame.RootMap(), old(Log(fwd.nodes, REG)), Log(fwd.nodes, REG), old(Log(inv.nodes, REG)), Log(inv.nodes, REG))
  {
    hide Balanced, Logged, Log, Recording, RootsOf, RootCells, SetAt, Gathered, Loaded, FieldLoaded, Join, Grown, Known, RootRefs, IsStatic, Resolve;
    var r := if op.Move? || op.LoadFromObject? || op.StaticLoadFromRegister? || op.RegisterLoadFromStatic? then op.src else op.dst;
    ReadableSet(frame, op.dst);
    ReadableSet(frame, r);
    RegAt(frame, op.dst);
    RegAt(frame, r);
    match op {
      case Move(dst, src) => ok := frame.Move(dst, src, fwd, inv);
      case Clear(dst) => ok := frame.Clear(dst, fwd, inv);
      case Push(dst, addr) => ok := frame.Push(dst, addr, fwd, inv);
      case Load(dst, addr, tags) => ok := frame.Load(dst, addr, tags, fwd, inv);
      case AppendFromStore(dst, addr) => ok := frame.AppendFromStore(dst, addr, fwd, inv);
      case LoadFromObject(dst, src, lookup) => ok := frame.LoadFromObject(dst, src, lookup, fwd, inv);
      case StaticLoadFromRegister(dst, src) => ok := frame.StaticLoadFromRegister(dst, src, fwd, inv);
      case RegisterLoadFromStatic(dst, src) => ok := frame.RegisterLoadFromStatic(dst, src, fwd, inv);
    }
    BalancedKeeps(frame.store, old(frame.store.slots), old(frame.store.numEnt), old(frame.Roots()), frame.Roots());
  }

  lemma ReadableSet(frame: Frame, r: nat)
    requires frame.Valid()
    ensures r in StateOf(frame).readable <==> frame.Readable(r)
  {
    if frame.Readable(r) {
      ReadableRef(frame.dims, r);
    }
  }

  lemma RegAt(frame: Frame, r: nat)
    requires frame.Valid()
    ensures r < frame.dims.size ==> frame.Roots()[r] == frame.regs[r]
  {
    if r < frame.dims.size {
      RootAt(frame.regs, frame.statics, frame.defaults, r);
    }
  }

  /** One step of a run: the roots follow the operation, and no cell the new roots can reach is lost. */
  ghost predicate Steps(d: Dims, env: Env, a: State, op: Op, b: State)
    requires |a.roots| == d.size + d.fields && env.size == |a.slots|
  {
    && b.roots == Outcome(d, env, a, op) && |b.slots| == |a.slots|
    && forall i :: Live(a.slots, i) && Reachable(env, a.slots, RootSlots(env, b.roots), i) ==>
        Live(b.slots, i) && b.slots[i].value == a.slots[i].value
  }

  /** The states of a run of `ops`. */
  ghost predicate IsTrace(d: Dims, env: Env, trace: seq<State>, ops: seq<Op>) {
    && |trace| == |ops| + 1
    && (forall k :: 0 <= k < |trace| ==> |trace[k].roots| == d.size + d.fields && env.size == |trace[k].slots|)
    && forall k :: 0 <= k < |ops| ==> StepAt(d, env, trace, ops, k)
  }

  ghost predicate StepAt(d: Dims, env: Env, trace: seq<State>, ops: seq<Op>, k: nat)
    requires k < |ops| && |trace| == |ops| + 1 && |trace[k].roots| == d.size + d.fields && env.size == |trace[k].slots|
  {
    Steps(d, env, trace[k], ops[k], trace[k + 1])
  }

  lemma TraceGrows(d: Dims, env: Env, trace: seq<State>, ops: seq<Op>, s: State, op: Op)
    requires IsTrace(d, env, trace, ops) && Steps(d, env, trace[|ops|], op, s)
    ensures IsTrace(d, env, trace + [s], ops + [op])
  {
    hide Outcome, Reachable, RootSlots;
    forall k | 0 <= k < |ops + [op]|
      ensures StepAt(d, env, trace + [s], ops + [op], k)
    {
      if k < |ops| {
        assert StepAt(d, env, trace, ops, k);
      }
    }
  }

  lemma BalancedSteps(store: Store, d: Dims, a: State, e0: seq<int>, op: Op, b: State)
    requires |a.roots| == d.size + d.fields && |a.slots| == |store.slots| && b.slots == store.slots
    requires b.roots == Outcome(d, store.TheEnv(), a, op) && Balanced(store, a.slots, e0, a.roots, b.roots)
    requires Bound(store.TheEnv(), a.slots, AsHolders(a.roots))
    ensures Steps(d, store.TheEnv(), a, op, b) && Bound(store.TheEnv(), b.slots, AsHolders(b.roots))
  {
    hide Balanced, Outcome, Reachable, RootSlots;
    NothingLost(store, a.slots, e0, a.roots, b.roots);
  }

  ghost function Now(frame: Frame, fwd: Buffer, inv: Buffer): Moment
    requires frame.Valid()
    reads frame, frame.store, fwd, inv
  {
    Moment(frame.RootMap(), Log(fwd.nodes, REG), Log(inv.nodes, REG))
  }

  lemma RunGrows(run: seq<Moment>, m: Moment, r: nat)
    requires IsRun(run)
    requires var l := run[|run| - 1]; Logged(r, l.cells, m.cells, l.fwd, m.fwd, l.inv, m.inv)
    ensures IsRun(run + [m])
  {
    LoggedStep(r, run[|run| - 1], m);
    forall k | 1 <= k < |run + [m]|
      ensures OneOp((run + [m])[k - 1], (run + [m])[k])
    {
      if k < |run| {
        assert OneOp(run[k - 1], run[k]);
      }
    }
  }

  /** Performs the operations in order, up to the first one the source does not allow. */
  method PerformAll(frame: Frame, ops: seq<Op>, fwd: Buffer, inv: Buffer)
    returns (done: nat, ghost run: seq<Moment>, ghost trace: seq<State>)
    requires frame.Valid() && fwd != inv && Recording(fwd) && Recording(inv)
    requires Log(fwd.nodes, REG) == [] && Log(inv.nodes, REG) == []
    requires Bound(frame.store.TheEnv(), frame.store.slots, AsHolders(frame.Roots()))
    modifies frame`regs, frame`statics, frame.store`slots, frame.store`numEnt, fwd, inv
    ensures frame.Valid() && Recording(fwd) && Recording(inv) && |frame.store.slots| == old(|frame.store.slots|)
    ensures IsRun(run) && run[0] == old(Now(frame, fwd, inv)) && run[|run| - 1] == Now(frame, fwd, inv)
    ensures GapsMoved(frame.store.blockSlots, old(frame.store.slots), old(frame.store.numEnt), frame.store.slots, frame.store.numEnt, 0, 0)
    ensures Bound(frame.store.TheEnv(), frame.store.slots, AsHolders(frame.Roots()))
    ensures old(Tight(frame.store.TheEnv(), frame.store.slots, AsHolders(frame.Roots()))) ==>
        Tight(frame.store.TheEnv(), frame.store.slots, AsHolders(frame.Roots()))
    ensures done <= |ops| && IsTrace(frame.dims, frame.store.TheEnv(), trace, ops[..done])
    ensures trace[0] == old(StateOf(frame)) && trace[done] == StateOf(frame)
    ensures done < |ops| ==> !Allowed(frame.store.TheEnv(), frame.store.slots, frame.regs, ops[done])
  {
    hide Balanced, Logged, Log, Recording, RootsOf, RootCells, IsRun, GapsMoved, Bound, Tight, Allowed, LiveSet, AsHolders, IsTrace, Steps, Outcome;
    ghost var env, s0, e0, d := frame.store.TheEnv(), frame.store.slots, frame.store.numEnt, frame.dims;
    run, trace, done := [Now(frame, fwd, inv)], [StateOf(frame)], 0;
    RunStarts(run[0]);
    TraceStarts(d, env, trace[0]);
    GapsSame(frame.store.blockSlots, s0, e0, s0, 0);
    while done < |ops| && Allowed(frame.store.TheEnv(), frame.store.slots, frame.regs, ops[done])
      invariant frame.Valid() && Recording(fwd) && Recording(inv) && frame.store.TheEnv() == env
      invariant run != [] && IsRun(run) && run[0] == old(Now(frame, fwd, inv)) && run[|run| - 1] == Now(frame, fwd, inv)
      invariant GapsMoved(frame.store.blockSlots, s0, e0, frame.store.slots, frame.store.numEnt, 0, 0)
      invariant Bound(env, frame.store.slots, AsHolders(frame.Roots()))
      invariant old(Tight(frame.store.TheEnv(), frame.store.slots, AsHolders(frame.Roots()))) ==> Tight(env, frame.store.slots, AsHolders(frame.Roots()))
      invariant done <= |ops| && |trace| == done + 1 && IsTrace(d, env, trace, ops[..done])
      invariant trace[0] == old(StateOf(frame)) && trace[done] == StateOf(frame)
    {
      var op := ops[done];
      ghost var s1, e1, state := frame.store.slots, frame.store.numEnt, StateOf(frame);
      var _ := Perform(frame, op, fwd, inv);
      ghost var now := Now(frame, fwd, inv);
      RunGrows(run, now, op.dst);
      BalancedKeeps(frame.store, s1, e1, state.roots, frame.Roots());
      BalancedSteps(frame.store, d, state, e1, op, StateOf(frame));
      GapsThen(frame.store.blockSlots, s0, e0, s1, e1, frame.store.slots, frame.store.numEnt, 0, 0, 0);
      TraceGrows(d, env, trace, ops[..done], StateOf(frame), op);
      assert ops[..done + 1] == ops[..done] + [op];
      run, trace, done := run + [now], trace + [StateOf(frame)], done + 1;
    }
  }

  lemma TraceStarts(d: Dims, env: Env, s: State)
    requires |s.roots| == d.size + d.fields && env.size == |s.slots|
    ensures IsTrace(d, env, [s], [])
  {
  }

  lemma RunStarts(m: Moment)
    requires m.fwd == [] && m.inv == []
    ensures IsRun([m])
  {
  }

  lemma BalancedKeeps(store: Store, s0: seq<Slot>, e0: seq<int>, roots0: seq<AddrSet>, roots: seq<AddrSet>)
    requires Balanced(store, s0, e0, roots0, roots)
    ensures |s0| == |store.slots| && GapsMoved(store.blockSlots, s0, e0, store.slots, store.numEnt, 0, 0)
    ensures Bound(store.TheEnv(), s0, AsHolders(roots0)) ==> Bound(store.TheEnv(), store.slots, AsHolders(roots))
    ensures Tight(store.TheEnv(), s0, AsHolders(roots0)) ==> Tight(store.TheEnv(), store.slots, AsHolders(roots))
  {
  }

  /** Every live cell is referenced, and its counter is the number of its references. */
  ghost predicate Tight(env: Env, slots: seq<Slot>, hs: seq<Value>) {
    Exact(env, slots, hs) && Positive(slots, -1)
  }

  lemma EmptyLogs()
    ensures Log([], REG) == [] && Stamped([], false) && Stamped([], true) && WellFormed([])
  {
  }

  /**
   Any run of operations, logged from empty buffers: the diff of the forward buffer turns the registers
   and static fields before the run into those after it, the diff of the reverse buffer turns them back,
   and the counters keep covering all references.
   */
  method Run(frame: Frame, ops: seq<Op>) returns (done: nat, fwdDiff: Diff, invDiff: Diff, ghost trace: seq<State>)
    requires frame.Valid() && frame.store.Accurate() && Bound(frame.store.TheEnv(), frame.store.slots, AsHolders(frame.Roots()))
    modifies frame`regs, frame`statics, frame.store`slots, frame.store`numEnt
    ensures frame.Valid() && frame.store.Accurate() && Bound(frame.store.TheEnv(), frame.store.slots, AsHolders(frame.Roots()))
    ensures old(Tight(frame.store.TheEnv(), frame.store.slots, AsHolders(frame.Roots()))) ==>
        Tight(frame.store.TheEnv(), frame.store.slots, AsHolders(frame.Roots()))
    ensures done <= |ops| && IsTrace(frame.dims, frame.store.TheEnv(), trace, ops[..done])
    ensures trace[0] == old(StateOf(frame)) && trace[done] == StateOf(frame)
    ensures done < |ops| ==> !Allowed(frame.store.TheEnv(), frame.store.slots, frame.regs, ops[done])
    ensures Replay(old(frame.RootMap()), fwdDiff.Section(REG)) == frame.RootMap()
    ensures Replay(frame.RootMap(), invDiff.Section(REG)) == old(frame.RootMap())
  {
    hide Log, RootsOf, RootCells, IsRun, GapsMoved, Bound, Tight, Stamped, WellFormed, Sorted, AsHolders, Collapse, OfKind, Replay, LiveIn,
      Allowed, IsTrace;
    var fwd := new Buffer(false, false);
    var inv := new Buffer(true, false);
    EmptyLogs();
    ghost var run;
    done, run, trace := PerformAll(frame, ops, fwd, inv);
    ghost var f, i := fwd.nodes, inv.nodes;
    StillAccurate(frame.store.blockSlots, old(frame.store.slots), old(frame.store.numEnt), frame.store.slots, frame.store.numEnt);
    fwdDiff := fwd.ToDiff();
    invDiff := inv.ToDiff();
    ReplayAndUndo(run, REG, f, fwd.nodes, i, inv.nodes);
  }

  // ---------- collection ----------

  /** The sets that hold references: the registers and the initialised static fields. */
  function Initialised(statics: seq<Option<AddrSet>>): seq<AddrSet> {
    if statics == [] then []
    else
      var n := |statics| - 1;
      Initialised(statics[..n]) + if statics[n].Some? then [statics[n].value] else []
  }

  method InitialisedFields(statics: seq<Option<AddrSet>>) returns (sets: seq<AddrSet>)
    ensures sets == Initialised(statics)
  {
    sets := [];
    for k := 0 to |statics|
      invariant sets == Initialised(statics[..k])
    {
      assert statics[..k + 1][..k] == statics[..k];
      if statics[k].Some? {
        sets := sets + [statics[k].value];
      }
    }
    assert statics[..|statics|] == statics;
  }

  /** A default refers to no slot. */
  lemma DefaultHolds(env: Env, default: nat, i: int)
    requires IsConst(default) && i >= 0
    ensures Targets(env, SetValue(FieldValue(None, default))) == {} && Count(env, SetValue(FieldValue(None, default)), i) == 0
  {
    assert Pointing(env, FieldValue(None, default).addrs, i) == {};
  }

  /** Uninitialised fields hold no references. */
  lemma {:induction false} OnlyInitialised(env: Env, regs: seq<AddrSet>, statics: seq<Option<AddrSet>>, defaults: seq<nat>, i: int)
    requires |statics| == |defaults| && i >= 0 && forall k :: 0 <= k < |defaults| ==> IsConst(defaults[k])
    ensures RootSlots(env, RootsOf(regs, statics, defaults)) == RootSlots(env, regs + Initialised(statics))
    ensures Total(env, AsHolders(RootsOf(regs, statics, defaults)), i) == Total(env, AsHolders(regs + Initialised(statics)), i)
    decreases |statics|
  {
    hide AsHolders, RootsOf, RootSlots, Total, Count, Targets, FieldValue;
    if statics == [] {
      NoFields(regs);
      assert statics == [] && defaults == [] && regs + Initialised(statics) == regs;
    } else {
      var n := |statics| - 1;
      var v := FieldValue(statics[n], defaults[n]);
      var roots, front := RootsOf(regs, statics, defaults), RootsOf(regs, statics[..n], defaults[..n]);
      var sets := regs + Initialised(statics[..n]);
      OnlyInitialised(env, regs, statics[..n], defaults[..n], i);
      RootsSnoc(regs, statics, defaults);
      HolderSnoc(env, front, v, i);
      if statics[n].Some? {
        FieldHolds(statics[n], defaults[n]);
        assert regs + Initialised(statics) == sets + [v];
        HolderSnoc(env, sets, v, i);
      } else {
        assert regs + Initialised(statics) == sets;
        DefaultHolds(env, defaults[n], i);
      }
    }
  }

  lemma NoFields(regs: seq<AddrSet>)
    ensures RootsOf(regs, [], []) == regs
  {
  }

  lemma FieldHolds(field: Option<AddrSet>, default: nat)
    ensures field.Some? ==> FieldValue(field, default) == field.value
  {
  }

  lemma RootsSnoc(regs: seq<AddrSet>, statics: seq<Option<AddrSet>>, defaults: seq<nat>)
    requires |statics| == |defaults| > 0
    ensures var n := |statics| - 1;
            RootsOf(regs, statics, defaults) == RootsOf(regs, statics[..n], defaults[..n]) + [FieldValue(statics[n], defaults[n])]
  {
  }

  lemma HolderSnoc(env: Env, sets: seq<AddrSet>, v: AddrSet, i: int)
    ensures RootSlots(env, sets + [v]) == RootSlots(env, sets) + Targets(env, SetValue(v))
    ensures Total(env, AsHolders(sets + [v]), i) == Total(env, AsHolders(sets), i) + Count(env, SetValue(v), i)
  {
    assert (sets + [v])[..|sets|] == sets;
    assert AsHolders(sets + [v]) == AsHolders(sets) + [SetValue(v)];
    TotalSnoc(env, AsHolders(sets), SetValue(v), i);
  }

  lemma OnlyInitialisedBound(env: Env, slots: seq<Slot>, regs: seq<AddrSet>, statics: seq<Option<AddrSet>>, defaults: seq<nat>)
    requires |statics| == |defaults| && forall k :: 0 <= k < |defaults| ==> IsConst(defaults[k])
    ensures Bound(env, slots, AsHolders(RootsOf(regs, statics, defaults))) <==> Bound(env, slots, AsHolders(regs + Initialised(statics)))
  {
    hide AsHolders, RootsOf;
    forall i | i >= 0
      ensures Refs(env, slots, AsHolders(RootsOf(regs, statics, defaults)), i) == Refs(env, slots, AsHolders(regs + Initialised(statics)), i)
    {
      OnlyInitialised(env, regs, statics, defaults, i);
    }
  }

  /**
   `cesk_frame_gc`: exactly the cells that registers and static fields can reach are left, with their
   values; `f` is a flag buffer in which no slot carries the current tick.
   */
  method Gc(frame: Frame, f: array<nat>, tick: nat)
    requires frame.Valid() && frame.store.Accurate() && |frame.store.slots| <= f.Length && Marked(f[..], tick) == {}
    requires Bound(frame.store.TheEnv(), frame.store.slots, AsHolders(frame.Roots()))
    modifies frame.store`slots, frame.store`numEnt, f
    ensures frame.Valid() && frame.store.Accurate() && |frame.store.slots| <= old(|frame.store.slots|)
    ensures frame.Roots() == old(frame.Roots())
    ensures Bound(frame.store.TheEnv(), frame.store.slots, AsHolders(frame.Roots()))
    ensures forall j :: Live(frame.store.slots, j) <==>
        old(Live(frame.store.slots, j)) && old(Reaches(frame.store.reloc, frame.store.slots, frame.Roots(), j))
    ensures forall j :: Live(frame.store.slots, j) ==> frame.store.slots[j].value == old(frame.store.slots[j].value)
    ensures NamedKept(frame.store.reloc, old(frame.store.slots), frame.store.slots, frame.Roots())
    ensures Spent(old(frame.store.slots), frame.store.slots, -1)
    ensures |frame.store.numEnt| > 0 ==> LiveIn(frame.store.slots, frame.store.blockSlots, |frame.store.numEnt| - 1) != {}
  {
    hide AsHolders, RootsOf, Bound, Reaches, RootSlots, LiveIn, Initialised, Marked, NamedKept, Spent;
    ghost var reloc, s0 := frame.store.reloc, frame.store.slots;
    var fields := InitialisedFields(frame.statics);
    OnlyInitialisedBound(frame.store.TheEnv(), frame.store.slots, frame.regs, frame.statics, frame.defaults);
    SameReach(frame.store.TheEnv(), s0, frame.regs, frame.statics, frame.defaults);
    Collect(frame.store, frame.regs + fields, f, tick);
    OnlyInitialisedBound(frame.store.TheEnv(), frame.store.slots, frame.regs, frame.statics, frame.defaults);
    RootsKept(reloc, s0, frame.store.slots, frame.Roots());
  }

  /** Uninitialised fields lead nowhere. */
  lemma SameReach(env: Env, slots: seq<Slot>, regs: seq<AddrSet>, statics: seq<Option<AddrSet>>, defaults: seq<nat>)
    requires env.size == |slots| && |statics| == |defaults| && forall k :: 0 <= k < |defaults| ==> IsConst(defaults[k])
    ensures forall j :: Reaches(env.reloc, slots, RootsOf(regs, statics, defaults), j) <==> Reaches(env.reloc, slots, regs + Initialised(statics), j)
  {
    hide RootsOf, Reaches, RootSlots, Initialised;
    OnlyInitialised(env, regs, statics, defaults, 0);
    forall j
      ensures Reaches(env.reloc, slots, RootsOf(regs, statics, defaults), j) <==> Reaches(env.reloc, slots, regs + Initialised(statics), j)
    {
      ReachableReaches(env, slots, RootsOf(regs, statics, defaults), j);
      ReachableReaches(env, slots, regs + Initialised(statics), j);
    }
  }
}
