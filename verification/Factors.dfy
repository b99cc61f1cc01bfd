/**
 Factoring diffs over a join: one diff that does to the sum of some states what the given diffs do to them
 one by one.
 */
module Factors {
  import opened Values
  import opened Diffs
  import opened DiffBuffers
  import opened Patches
  import opened Frames

  // ---------- joining states ----------

  /** A join as a record of section `s` holds it. */
  function Wrap(s: int, c: AddrSet): Arg {
    if s == STORE then ValueArg(SetValue(c)) else SetArg(c)
  }

  /** What state `c` has at address `a`; nothing if it has no such cell. */
  function At(c: Cells, a: nat): AddrSet {
    if a in c then ContentsOf(c[a]) else EMPTY_SET
  }

  function AllAt(cs: seq<Cells>, a: nat): (r: seq<AddrSet>)
    ensures |r| == |cs| && forall i :: 0 <= i < |cs| ==> r[i] == At(cs[i], a)
  {
    seq(|cs|, i requires 0 <= i < |cs| => At(cs[i], a))
  }

  function Domain(cs: seq<Cells>): set<nat> {
    set i, a | 0 <= i < |cs| && a in cs[i] :: a
  }

  /** The pointwise join of states. */
  function Sum(s: int, cs: seq<Cells>): Cells {
    map a | a in Domain(cs) :: Wrap(s, JoinAll(AllAt(cs, a)))
  }

  lemma {:induction false} JoinAllMembers(vs: seq<AddrSet>)
    ensures forall x :: x in JoinAll(vs).addrs <==> exists i :: 0 <= i < |vs| && x in vs[i].addrs
    ensures forall t :: t in JoinAll(vs).tags <==> exists i :: 0 <= i < |vs| && t in vs[i].tags
  {
    if vs != [] {
      JoinAllMembers(vs[..|vs| - 1]);
    }
  }

  // ---------- the law ----------

  /** The addresses that some section writes. */
  function Written(ds: seq<seq<Rec>>): set<nat> {
    set i, k | 0 <= i < |ds| && 0 <= k < |ds[i]| :: ds[i][k].addr
  }

  /** State `cur[i]` is state `ss[i]` after section `ds[i]`, which only writes cells that are there. */
  ghost predicate Stepped(s: int, ss: seq<Cells>, ds: seq<seq<Rec>>, cur: seq<Cells>) {
    && |ss| == |ds| == |cur|
    && (forall i :: 0 <= i < |ss| ==> cur[i] == Replay(ss[i], ds[i]))
    && (forall i, k :: 0 <= i < |ds| && 0 <= k < |ds[i]| ==> ds[i][k].addr in ss[i])
  }

  /** `out` writes the join of what `vals` gives at every address that some section writes. */
  ghost predicate Factored(s: int, out: seq<Rec>, ds: seq<seq<Rec>>, vals: nat -> seq<AddrSet>) {
    && WellFormedSection(out)
    && (forall k :: 0 <= k < |out| ==> out[k].addr in Written(ds) && out[k].arg == Wrap(s, JoinAll(vals(out[k].addr))))
    && (forall a :: a in Written(ds) ==> exists k :: 0 <= k < |out| && out[k].addr == a)
  }

  lemma {:induction false} ReplayTouches(c: Cells, recs: seq<Rec>, a: nat)
    ensures a in Replay(c, recs) <==> a in c || exists k :: 0 <= k < |recs| && recs[k].addr == a
    ensures (forall k :: 0 <= k < |recs| ==> recs[k].addr != a) && a in c ==> Replay(c, recs)[a] == c[a]
  {
    if recs != [] {
      var n := |recs| - 1;
      ReplayTouches(c, recs[..n], a);
      assert forall k :: 0 <= k < n ==> recs[..n][k] == recs[k];
      if recs[n].addr == a {
        assert a in Replay(c, recs);
      }
    }
  }

  lemma SteppedDomain(s: int, ss: seq<Cells>, ds: seq<seq<Rec>>, cur: seq<Cells>)
    requires Stepped(s, ss, ds, cur)
    ensures Domain(cur) == Domain(ss) && Written(ds) <= Domain(ss)
  {
    forall i, a | 0 <= i < |ss|
      ensures a in cur[i] <==> a in ss[i]
    {
      ReplayTouches(ss[i], ds[i], a);
    }
  }

  /** Where nobody writes, every state is as it was. */
  lemma Unwritten(s: int, ss: seq<Cells>, ds: seq<seq<Rec>>, cur: seq<Cells>, a: nat)
    requires Stepped(s, ss, ds, cur) && a !in Written(ds)
    ensures AllAt(cur, a) == AllAt(ss, a)
  {
    forall i | 0 <= i < |ss|
      ensures At(cur[i], a) == At(ss[i], a)
    {
      ReplayTouches(ss[i], ds[i], a);
      assert forall k :: 0 <= k < |ds[i]| ==> ds[i][k].addr in Written(ds);
    }
  }

  lemma FactoredAt(s: int, out: seq<Rec>, ds: seq<seq<Rec>>, vals: nat -> seq<AddrSet>, c: Cells, a: nat)
    requires Factored(s, out, ds, vals)
    ensures a in Replay(c, out) <==> a in c || a in Written(ds)
    ensures a in Written(ds) ==> Replay(c, out)[a] == Wrap(s, JoinAll(vals(a)))
    ensures a !in Written(ds) && a in c ==> Replay(c, out)[a] == c[a]
  {
    ReplayTouches(c, out, a);
    if a in Written(ds) {
      var k :| 0 <= k < |out| && out[k].addr == a;
      ReplayIsOverlay(c, out);
      WritesAt(out, k);
    }
  }

  /**
   The factorisation law: the factored section turns the join of the states into the join of the states
   that the single sections lead to, exactly if reading the current states gives their join wherever
   something is written.
   */
  lemma FactorLaw(s: int, ss: seq<Cells>, ds: seq<seq<Rec>>, cur: seq<Cells>, out: seq<Rec>, vals: nat -> seq<AddrSet>)
    requires Stepped(s, ss, ds, cur) && Factored(s, out, ds, vals)
    ensures Replay(Sum(s, ss), out) == Sum(s, cur) <==>
            forall a :: a in Written(ds) ==> JoinAll(vals(a)) == JoinAll(AllAt(cur, a))
  {
    hide Stepped, Factored, JoinAll, Replay, Sum, Written, AllAt;
    var lhs, rhs := Replay(Sum(s, ss), out), Sum(s, cur);
    forall a
      ensures a in lhs <==> a in rhs
      ensures a in Written(ds) ==> a in rhs && (lhs[a] == rhs[a] <==> JoinAll(vals(a)) == JoinAll(AllAt(cur, a)))
      ensures a !in Written(ds) && a in lhs ==> lhs[a] == rhs[a]
    {
      FactorAt(s, ss, ds, cur, out, vals, a);
    }
    assert lhs.Keys == rhs.Keys;
  }

  lemma FactorAt(s: int, ss: seq<Cells>, ds: seq<seq<Rec>>, cur: seq<Cells>, out: seq<Rec>, vals: nat -> seq<AddrSet>, a: nat)
    requires Stepped(s, ss, ds, cur) && Factored(s, out, ds, vals)
    ensures var lhs, rhs := Replay(Sum(s, ss), out), Sum(s, cur);
            && (a in lhs <==> a in rhs)
            && (a in Written(ds) ==> a in rhs && (lhs[a] == rhs[a] <==> JoinAll(vals(a)) == JoinAll(AllAt(cur, a))))
            && (a !in Written(ds) && a in lhs ==> lhs[a] == rhs[a])
  {
    hide Stepped, Factored, JoinAll, Replay, Written;
    SteppedDomain(s, ss, ds, cur);
    FactoredAt(s, out, ds, vals, Sum(s, ss), a);
    if a !in Written(ds) {
      Unwritten(s, ss, ds, cur, a);
    }
  }

  // ---------- what factoring reads of a frame ----------

  /** The sizes and the field defaults that all frames share. */
  datatype Setting = Setting(d: Dims, defaults: seq<nat>) {
    ghost predicate Valid() {
      d.size <= STATIC_PREFIX && d.fields < STATIC_PREFIX && |defaults| == d.fields
    }
  }

  /** A frame: registers, static fields and the store by address. */
  datatype Side = Side(regs: seq<AddrSet>, statics: seq<Option<AddrSet>>, cells: map<nat, Value>) {
    ghost predicate Fits(w: Setting) {
      w.Valid() && |regs| == w.d.size && |statics| == w.d.fields
    }

    /** `regs[r]`, or the static field if it is initialised. */
    function ReadReg(r: nat): AddrSet {
      if IsStatic(r) then
        (if r - STATIC_PREFIX < |statics| && statics[r - STATIC_PREFIX].Some? then statics[r - STATIC_PREFIX].value else EMPTY_SET)
      else if r < |regs| then regs[r] else EMPTY_SET
    }

    function ReadCell(a: nat): AddrSet {
      if a in cells && cells[a].SetValue? then cells[a].contents else EMPTY_SET
    }

    ghost function Regs(w: Setting): Cells
      requires Fits(w)
    {
      RootCells(w.d, RootsOf(regs, statics, w.defaults))
    }

    function Store(): Cells {
      map a | a in cells :: ValueArg(cells[a])
    }
  }

  /** What is merged for a record of section `s` at address `a`. */
  function SideReads(s: int, sides: seq<Side>, a: nat): (r: seq<AddrSet>)
    ensures |r| == |sides|
  {
    seq(|sides|, i requires 0 <= i < |sides| => if s == STORE then sides[i].ReadCell(a) else sides[i].ReadReg(a))
  }

  ghost function States(s: int, w: Setting, sides: seq<Side>): (r: seq<Cells>)
    requires forall i :: 0 <= i < |sides| ==> sides[i].Fits(w)
    ensures |r| == |sides|
  {
    seq(|sides|, i requires 0 <= i < |sides| => if s == STORE then sides[i].Store() else sides[i].Regs(w))
  }

  /** Cells are read as they are. */
  lemma CellsAgree(w: Setting, sides: seq<Side>, a: nat)
    requires forall i :: 0 <= i < |sides| ==> sides[i].Fits(w)
    ensures SideReads(STORE, sides, a) == AllAt(States(STORE, w, sides), a)
  {
    forall i | 0 <= i < |sides|
      ensures SideReads(STORE, sides, a)[i] == AllAt(States(STORE, w, sides), a)[i]
    {
      assert States(STORE, w, sides)[i] == sides[i].Store();
    }
  }

  lemma RegAt(w: Setting, side: Side, r: nat)
    requires side.Fits(w) && RefLoc(w.d, r) >= 0
    ensures At(side.Regs(w), r) == if IsStatic(r) then FieldValue(side.statics[r - STATIC_PREFIX], w.defaults[r - STATIC_PREFIX]) else side.regs[r]
  {
    RootCellsAt(w.d, RootsOf(side.regs, side.statics, w.defaults), r);
    RootAt(side.regs, side.statics, w.defaults, RefLoc(w.d, r));
  }

  /** So are ordinary registers. */
  lemma RegistersAgree(w: Setting, sides: seq<Side>, r: nat)
    requires (forall i :: 0 <= i < |sides| ==> sides[i].Fits(w)) && !IsStatic(r) && RefLoc(w.d, r) >= 0
    ensures SideReads(REG, sides, r) == AllAt(States(REG, w, sides), r)
  {
    forall i | 0 <= i < |sides|
      ensures SideReads(REG, sides, r)[i] == AllAt(States(REG, w, sides), r)[i]
    {
      RegAt(w, sides[i], r);
      assert States(REG, w, sides)[i] == sides[i].Regs(w);
    }
  }

  /** Some frame has not initialised the field. */
  ghost predicate Uninitialised(sides: seq<Side>, k: nat) {
    exists i :: 0 <= i < |sides| && k < |sides[i].statics| && sides[i].statics[k].None?
  }

  /** Some frame that has initialised the field holds its default. */
  ghost predicate HoldsDefault(w: Setting, sides: seq<Side>, k: nat) {
    k < |w.defaults| && exists i :: 0 <= i < |sides| && k < |sides[i].statics| && sides[i].statics[k].Some? && w.defaults[k] in sides[i].statics[k].value.addrs
  }

  /**
   A static field is read right exactly if its default is not missed: every frame has initialised it, or one
   that has holds the default, or it has no default.
   */
  lemma StaticsAgree(w: Setting, sides: seq<Side>, r: nat)
    requires w.Valid() && (forall i :: 0 <= i < |sides| ==> sides[i].Fits(w)) && IsStatic(r) && RefLoc(w.d, r) >= 0
    ensures var k := r - STATIC_PREFIX;
            JoinAll(SideReads(REG, sides, r)) == JoinAll(AllAt(States(REG, w, sides), r))
            <==> (Uninitialised(sides, k) ==> w.defaults[k] == NULL_ADDR || HoldsDefault(w, sides, k))
  {
    hide JoinAll, RootsOf, RootCells, At, FieldValue;
    var k := r - STATIC_PREFIX;
    var some, all := SideReads(REG, sides, r), AllAt(States(REG, w, sides), r);
    forall i | 0 <= i < |sides|
      ensures all[i] == FieldValue(sides[i].statics[k], w.defaults[k])
      ensures some[i] == if sides[i].statics[k].Some? then sides[i].statics[k].value else EMPTY_SET
    {
      RegAt(w, sides[i], r);
      assert States(REG, w, sides)[i] == sides[i].Regs(w);
    }
    JoinsDiffer(sides, k, w.defaults[k], some, all);
  }

  lemma JoinsDiffer(sides: seq<Side>, k: nat, default: nat, some: seq<AddrSet>, all: seq<AddrSet>)
    requires |some| == |all| == |sides| && forall i :: 0 <= i < |sides| ==> k < |sides[i].statics|
    requires forall i :: 0 <= i < |sides| ==> all[i] == FieldValue(sides[i].statics[k], default)
    requires forall i :: 0 <= i < |sides| ==> some[i] == if sides[i].statics[k].Some? then sides[i].statics[k].value else EMPTY_SET
    ensures JoinAll(some) == JoinAll(all) <==>
            (Uninitialised(sides, k) && default != NULL_ADDR ==>
              exists i :: 0 <= i < |sides| && sides[i].statics[k].Some? && default in sides[i].statics[k].value.addrs)
  {
    JoinAllMembers(some);
    JoinAllMembers(all);
    hide JoinAll;
    if !Uninitialised(sides, k) || default == NULL_ADDR {
      assert some == all;
    } else {
      var i :| 0 <= i < |sides| && sides[i].statics[k].None?;
      assert default in all[i].addrs;
      if default in JoinAll(some).addrs {
        assert JoinAll(some).addrs == JoinAll(all).addrs && JoinAll(some).tags == JoinAll(all).tags;
      }
    }
  }

  /** A written field on which factoring misses the default of the frame that has not initialised it. */
  lemma MissedDefault()
    ensures var w := Setting(Dims(0, 1), [0xffffff02]);
            var one, other := Side([], [Some(AddrSet({7}, {}))], map[]), Side([], [None], map[]);
            one.Fits(w) && other.Fits(w) &&
            JoinAll(SideReads(REG, [one, other], STATIC_PREFIX)) != JoinAll(AllAt(States(REG, w, [one, other]), STATIC_PREFIX))
  {
    var w := Setting(Dims(0, 1), [0xffffff02]);
    var sides := [Side([], [Some(AddrSet({7}, {}))], map[]), Side([], [None], map[])];
    assert sides[1].statics[0].None? && Uninitialised(sides, 0);
    assert !HoldsDefault(w, sides, 0);
    StaticsAgree(w, sides, STATIC_PREFIX);
  }

  // ---------- factoring ----------

  lemma JoinAllSnoc(vs: seq<AddrSet>, v: AddrSet)
    ensures JoinAll(vs + [v]) == Join(JoinAll(vs), v)
  {
    assert (vs + [v])[..|vs|] == vs;
  }

  lemma SideReadsSnoc(s: int, sides: seq<Side>, a: nat, i: nat)
    requires i < |sides|
    ensures SideReads(s, sides[..i + 1], a) == SideReads(s, sides[..i], a) + [if s == STORE then sides[i].ReadCell(a) else sides[i].ReadReg(a)]
  {
  }

  /** The join of a register or static field over all frames; fields that are not initialised are left out. */
  method JoinRegister(sides: seq<Side>, r: nat) returns (c: AddrSet)
    ensures c == JoinAll(SideReads(REG, sides, r))
  {
    c := EMPTY_SET;
    for i := 0 to |sides|
      invariant c == JoinAll(SideReads(REG, sides[..i], r))
    {
      SideReadsSnoc(REG, sides, r, i);
      JoinAllSnoc(SideReads(REG, sides[..i], r), sides[i].ReadReg(r));
      assert Join(c, EMPTY_SET) == c;
      if !IsStatic(r) {
        c := Join(c, sides[i].ReadReg(r));
      } else if r - STATIC_PREFIX < |sides[i].statics| && sides[i].statics[r - STATIC_PREFIX].Some? {
        c := Join(c, sides[i].statics[r - STATIC_PREFIX].value);
      }
    }
    assert sides[..|sides|] == sides;
  }

  lemma NextCell(sides: seq<Side>, a: nat, i: nat)
    requires i < |sides| && (a in sides[i].cells ==> sides[i].cells[a].SetValue?)
    ensures JoinAll(SideReads(STORE, sides[..i + 1], a)) ==
        if a in sides[i].cells then Join(JoinAll(SideReads(STORE, sides[..i], a)), sides[i].cells[a].contents)
        else JoinAll(SideReads(STORE, sides[..i], a))
  {
    hide JoinAll;
    var c := JoinAll(SideReads(STORE, sides[..i], a));
    SideReadsSnoc(STORE, sides, a, i);
    JoinAllSnoc(SideReads(STORE, sides[..i], a), sides[i].ReadCell(a));
    assert Join(c, EMPTY_SET) == c;
  }

  lemma JoinFirst(sides: seq<Side>, c: AddrSet)
    ensures Join(EMPTY_SET, c) == c && forall a :: JoinAll(SideReads(STORE, sides[..0], a)) == EMPTY_SET
  {
  }

  /** The join of a set cell over the frames that have it; None if no frame does. */
  method JoinCell(sides: seq<Side>, a: nat) returns (c: Option<AddrSet>)
    requires forall i :: 0 <= i < |sides| && a in sides[i].cells ==> sides[i].cells[a].SetValue?
    ensures c.None? <==> forall i :: 0 <= i < |sides| ==> a !in sides[i].cells
    ensures c.Some? ==> c.value == JoinAll(SideReads(STORE, sides, a))
  {
    hide JoinAll, SideReads, Join;
    c := None;
    var i := 0;
    JoinFirst(sides, EMPTY_SET);
    while i < |sides| && c.None?
      invariant i <= |sides| && (c.None? ==> forall j :: 0 <= j < i ==> a !in sides[j].cells)
      invariant JoinAll(SideReads(STORE, sides[..i], a)) == if c.Some? then c.value else EMPTY_SET
      invariant c.Some? ==> i > 0 && a in sides[i - 1].cells
    {
      NextCell(sides, a, i);
      if a in sides[i].cells {
        c := Some(sides[i].cells[a].contents);
        JoinFirst(sides, c.value);
      }
      i := i + 1;
    }
    if c.None? {
      return;
    }
    ghost var first := i - 1;
    while i < |sides|
      invariant first < i <= |sides| && c.Some? && c.value == JoinAll(SideReads(STORE, sides[..i], a))
    {
      NextCell(sides, a, i);
      if a in sides[i].cells {
        c := Some(Join(c.value, sides[i].cells[a].contents));
      }
      i := i + 1;
    }
    assert sides[..|sides|] == sides;
  }

  ghost predicate Present(s: int, sides: seq<Side>, a: nat) {
    s == STORE ==> exists i :: 0 <= i < |sides| && a in sides[i].cells
  }

  /** What factoring section `s` writes: the joins at the addresses some diff writes; cells no frame has are dropped. */
  ghost function Factor(args: seq<Diff>, s: int, sides: seq<Side>): Cells
    requires 0 <= s < NTYPES
  {
    map a | a in Merged(args, s) && Present(s, sides, a) :: Wrap(s, JoinAll(SideReads(s, sides, a)))
  }

  /** Moves every cursor that stands at `cur` past it. */
  method Consume(args: seq<Diff>, s: int, cur: nat)
    requires 0 <= s < NTYPES && CursorsAt(args, s, cur) && cur < NULL_ADDR
    modifies args`index
    ensures CursorsAt(args, s, cur + 1)
  {
    hide CursorAt, Writes;
    for i := 0 to |args|
      invariant forall j :: 0 <= j < |args| ==> CursorAt(args[j], s, if args[j] in args[..i] then cur + 1 else cur)
    {
      assert args[..i + 1] == args[..i] + [args[i]];
      Pass(args[i], s, cur, if args[i] in args[..i] then cur + 1 else cur);
    }
    assert args[..|args|] == args;
  }

  method Pass(d: Diff, s: int, cur: nat, ghost lo: int)
    requires 0 <= s < NTYPES && CursorAt(d, s, lo) && cur <= lo <= cur + 1
    modifies d`index
    ensures CursorAt(d, s, cur + 1)
  {
    ghost var sec, c := d.Section(s), d.index - d.pkg.offset[s];
    if d.index < d.pkg.offset[s + 1] && d.pkg.data[d.index].addr == cur {
      assert sec[c].addr == cur;
      d.index := d.index + 1;
    }
  }

  /** The record for one address, if there is one. */
  method FactorAddress(s: int, sides: seq<Side>, a: nat) returns (v: Option<AddrSet>)
    requires s == REG || s == STORE
    requires s == STORE ==> forall i :: 0 <= i < |sides| && a in sides[i].cells ==> sides[i].cells[a].SetValue?
    ensures v.Some? <==> Present(s, sides, a)
    ensures v.Some? ==> v.value == JoinAll(SideReads(s, sides, a))
  {
    if s == REG {
      var c := JoinRegister(sides, a);
      v := Some(c);
    } else {
      v := JoinCell(sides, a);
    }
  }

  /** Factors one section. */
  method FactorSection(args: seq<Diff>, s: int, sides: seq<Side>) returns (out: seq<Rec>)
    requires 0 <= s < NTYPES && CursorsAt(args, s, 0)
    requires s != REG && s != STORE ==> Merged(args, s) == map[]
    requires s == STORE ==> SetCells(args, sides)
    modifies args`index
    ensures CursorsAt(args, s, NULL_ADDR)
    ensures Emitted(out, Factor(args, s, sides), NULL_ADDR, s) && |out| <= |Below(Merged(args, s), NULL_ADDR)|
  {
    hide Emitted, CursorsAt, Merged, Factor, Below, SetCells, Present, SideReads, JoinAll;
    ghost var m := Factor(args, s, sides);
    ghost var lo := 0;
    out := [];
    EmittedNone(m, s);
    while true
      invariant 0 <= lo <= NULL_ADDR && CursorsAt(args, s, lo) && Emitted(out, m, lo, s)
      decreases NULL_ADDR - lo
    {
      var cur := NextAddress(args, s, lo);
      NoneBetween(args, s, lo, cur);
      FactorGap(args, s, sides, lo, cur);
      Advance(out, m, lo, cur, s);
      if cur == NULL_ADDR {
        FactorSmaller(args, s, sides, out);
        return;
      }
      MergedKeys(args, s, cur);
      if s == STORE {
        CellsAreSets(args, sides, cur);
      }
      var v := FactorAddress(s, sides, cur);
      FactorEntry(args, s, sides, cur);
      if v.Some? {
        var rec := Rec(cur, Wrap(s, v.value));
        EmittedNext(out, rec, m, s);
        out := out + [rec];
      } else {
        SkipAddress(m, cur);
        Advance(out, m, cur, cur + 1, s);
      }
      Consume(args, s, cur);
      lo := cur + 1;
    }
  }

  /** Every store address that is written holds sets in the frames that have it. */
  ghost predicate SetCells(args: seq<Diff>, sides: seq<Side>) {
    forall a, i :: a in Merged(args, STORE) && 0 <= i < |sides| && a in sides[i].cells ==> sides[i].cells[a].SetValue?
  }

  lemma CellsAreSets(args: seq<Diff>, sides: seq<Side>, a: nat)
    requires SetCells(args, sides) && a in Merged(args, STORE)
    ensures forall i :: 0 <= i < |sides| && a in sides[i].cells ==> sides[i].cells[a].SetValue?
  {
  }

  lemma FactorGap(args: seq<Diff>, s: int, sides: seq<Side>, lo: int, hi: int)
    requires 0 <= s < NTYPES && lo <= hi && forall a :: lo <= a < hi ==> a !in Merged(args, s)
    ensures Below(Factor(args, s, sides), hi) == Below(Factor(args, s, sides), lo)
  {
    hide Merged;
    forall a
      ensures a in Below(Factor(args, s, sides), hi) <==> a in Below(Factor(args, s, sides), lo)
    {
    }
  }

  lemma FactorEntry(args: seq<Diff>, s: int, sides: seq<Side>, a: nat)
    requires 0 <= s < NTYPES && a in Merged(args, s)
    ensures a in Factor(args, s, sides) <==> Present(s, sides, a)
    ensures a in Factor(args, s, sides) ==> Factor(args, s, sides)[a] == Wrap(s, JoinAll(SideReads(s, sides, a)))
  {
  }

  lemma SkipAddress(m: Cells, a: nat)
    requires a !in m
    ensures Below(m, a + 1) == Below(m, a)
  {
  }

  lemma FactorSmaller(args: seq<Diff>, s: int, sides: seq<Side>, out: seq<Rec>)
    requires 0 <= s < NTYPES && Emitted(out, Factor(args, s, sides), NULL_ADDR, s)
    ensures |out| <= |Below(Merged(args, s), NULL_ADDR)|
  {
    Smaller(Below(Factor(args, s, sides), NULL_ADDR), Below(Merged(args, s), NULL_ADDR));
  }

  /** Only registers, static fields and cells are written. */
  ghost predicate OnlyUpdates(args: seq<Diff>) {
    Merged(args, ALLOC) == map[] && Merged(args, REUSE) == map[] && Merged(args, DEALLOC) == map[]
  }

  lemma SectionUpdates(args: seq<Diff>, s: int)
    requires OnlyUpdates(args) && 0 <= s < NTYPES
    ensures s != REG && s != STORE ==> Merged(args, s) == map[]
  {
  }

  /**
   `cesk_diff_factorize` for diffs without ALLOC, REUSE and DEALLOC records, on frames in which the cells that
   are written hold sets.
   */
  method Factorize(args: seq<Diff>, sides: seq<Side>) returns (ret: Diff)
    requires |args| == |sides| && OnlyUpdates(args) && SetCells(args, sides)
    modifies args`index
    ensures fresh(ret) && forall s :: 0 <= s < NTYPES ==> Emitted(ret.Section(s), Factor(args, s, sides), NULL_ADDR, s)
  {
    hide Emitted, CursorsAt, Merged, Factor, Below, SetCells, OnlyUpdates, Packed;
    ghost var outs: seq<seq<Rec>> := [];
    var offs, data := [0], [];
    Rewind(args);
    PackedNone(data);
    for s := 0 to NTYPES
      invariant s < NTYPES ==> CursorsAt(args, s, 0)
      invariant |offs| == s + 1 && offs[s] == |data| && |outs| == s && Packed(offs, data, outs)
      invariant forall t :: 0 <= t < s ==> Emitted(outs[t], Factor(args, t, sides), NULL_ADDR, t)
    {
      SectionUpdates(args, s);
      var out := FactorSection(args, s, sides);
      PackMore(offs, data, outs, out);
      offs, data := offs + [|data| + |out|], data + out;
      outs := outs + [out];
      if s < NTYPES - 1 {
        NextSection(args, s);
      }
    }
    forall t | 0 <= t < NTYPES
      ensures WellFormedSection(outs[t])
    {
      EmittedSorted(outs[t], Factor(args, t, sides), t);
    }
    PackedLayout(offs, data, outs);
    ret := new Diff(Layout(offs, data));
  }

  lemma EmittedSorted(out: seq<Rec>, m: Cells, s: int)
    requires Emitted(out, m, NULL_ADDR, s)
    ensures WellFormedSection(out)
  {
  }

  lemma PackMore(offs: seq<int>, data: seq<Rec>, outs: seq<seq<Rec>>, out: seq<Rec>)
    requires Packed(offs, data, outs) && offs[|outs|] == |data|
    ensures Packed(offs + [|data| + |out|], data + out, outs + [out])
  {
    var offs', data', outs' := offs + [|data| + |out|], data + out, outs + [out];
    forall t | 0 <= t < |outs'|
      ensures PackedAt(offs', data', outs', t)
    {
      if t < |outs| {
        assert PackedAt(offs, data, outs, t);
        assert (data + out)[offs[t]..offs[t + 1]] == data[offs[t]..offs[t + 1]];
      } else {
        assert (data + out)[|data|..] == out;
      }
    }
  }

  // ---------- the law for the method ----------

  lemma MergedWritten(args: seq<Diff>, s: int, a: nat)
    requires 0 <= s < NTYPES
    ensures a in Merged(args, s) <==> a in Written(Sections(args, s))
  {
    hide Merged;
    MergedKeys(args, s, a);
    forall i | 0 <= i < |args|
      ensures a in Writes(args[i].Section(s)) <==> exists k :: 0 <= k < |Sections(args, s)[i]| && Sections(args, s)[i][k].addr == a
    {
      var sec := args[i].Section(s);
      WritesKeys(sec);
      if a in Addrs(sec) {
        var r :| r in sec && r.addr == a;
        var k :| 0 <= k < |sec| && sec[k] == r;
        assert Sections(args, s)[i][k].addr == a;
      }
    }
  }

  /** What the method emits is the factored section, if no written cell is missing everywhere. */
  lemma EmittedFactored(args: seq<Diff>, s: int, sides: seq<Side>, out: seq<Rec>)
    requires (s == REG || s == STORE) && Emitted(out, Factor(args, s, sides), NULL_ADDR, s)
    requires forall a :: a in Written(Sections(args, s)) ==> Present(s, sides, a) && a < NULL_ADDR
    ensures Factored(s, out, Sections(args, s), (a: nat) => SideReads(s, sides, a))
  {
    hide Merged, JoinAll, SideReads, Written, Sections;
    var m := Factor(args, s, sides);
    forall k | 0 <= k < |out|
      ensures out[k].addr in Written(Sections(args, s)) && out[k].arg == Wrap(s, JoinAll(SideReads(s, sides, out[k].addr)))
    {
      MergedWritten(args, s, out[k].addr);
    }
    forall a | a in Written(Sections(args, s))
      ensures exists k :: 0 <= k < |out| && out[k].addr == a
    {
      MergedWritten(args, s, a);
      assert a in Below(m, NULL_ADDR);
      var r :| r in out && r.addr == a;
    }
  }

  /**
   D1*S1 + ... + Dn*Sn = D*(S1 + ... + Sn) for the cells: always, if the frames are what the diffs make of
   the states and the diffs only write cells that are there.
   */
  lemma StoreLaw(args: seq<Diff>, w: Setting, sides: seq<Side>, ss: seq<Cells>, out: seq<Rec>)
    requires |args| == |sides| && forall i :: 0 <= i < |sides| ==> sides[i].Fits(w)
    requires Stepped(STORE, ss, Sections(args, STORE), States(STORE, w, sides))
    requires Emitted(out, Factor(args, STORE, sides), NULL_ADDR, STORE)
    ensures Replay(Sum(STORE, ss), out) == Sum(STORE, States(STORE, w, sides))
  {
    hide Stepped, Emitted, Factor, Sum, Replay, JoinAll, Factored, SideReads;
    var ds, cur := Sections(args, STORE), States(STORE, w, sides);
    forall a | a in Written(ds)
      ensures Present(STORE, sides, a) && a < NULL_ADDR
    {
      WrittenPresent(args, w, sides, ss, a);
    }
    EmittedFactored(args, STORE, sides, out);
    var vals := (a: nat) => SideReads(STORE, sides, a);
    forall a | a in Written(ds)
      ensures JoinAll(vals(a)) == JoinAll(AllAt(cur, a))
    {
      CellsAgree(w, sides, a);
    }
    FactorLaw(STORE, ss, ds, cur, out, vals);
  }

  lemma WrittenPresent(args: seq<Diff>, w: Setting, sides: seq<Side>, ss: seq<Cells>, a: nat)
    requires |args| == |sides| && (forall i :: 0 <= i < |sides| ==> sides[i].Fits(w)) && a in Written(Sections(args, STORE))
    requires Stepped(STORE, ss, Sections(args, STORE), States(STORE, w, sides))
    ensures Present(STORE, sides, a) && a < NULL_ADDR
  {
    hide Sections, Replay;
    var ds: seq<seq<Rec>> := Sections(args, STORE);
    var cur := States(STORE, w, sides);
    var i, k :| 0 <= i < |ds| && 0 <= k < |ds[i]| && ds[i][k].addr == a;
    ReplayTouches(ss[i], ds[i], a);
    assert cur[i] == sides[i].Store() && a in cur[i];
    assert ds[i] == args[i].Section(STORE) && WellFormedSection(args[i].Section(STORE));
  }

  /**
   The same for registers and static fields: exactly if no default is missed at a written field. The condition
   is about the frames and the written addresses alone.
   */
  lemma RegisterLaw(args: seq<Diff>, w: Setting, sides: seq<Side>, ss: seq<Cells>, out: seq<Rec>)
    requires w.Valid() && |args| == |sides| && forall i :: 0 <= i < |sides| ==> sides[i].Fits(w)
    requires Stepped(REG, ss, Sections(args, REG), States(REG, w, sides))
    requires forall a :: a in Written(Sections(args, REG)) ==> RefLoc(w.d, a) >= 0
    requires Emitted(out, Factor(args, REG, sides), NULL_ADDR, REG)
    ensures Replay(Sum(REG, ss), out) == Sum(REG, States(REG, w, sides)) <==>
            forall a :: a in Written(Sections(args, REG)) && IsStatic(a) ==> NoDefaultMissed(w, sides, a - STATIC_PREFIX)
  {
    hide Stepped, Emitted, Factor, Sum, Replay, JoinAll, Factored, SideReads, NoDefaultMissed;
    var ds, cur := Sections(args, REG), States(REG, w, sides);
    forall a | a in Written(ds)
      ensures a < NULL_ADDR
    {
      WrittenBelowNull(args, a);
    }
    EmittedFactored(args, REG, sides, out);
    var vals := (a: nat) => SideReads(REG, sides, a);
    forall a | a in Written(ds)
      ensures JoinAll(vals(a)) == JoinAll(AllAt(cur, a)) <==> (IsStatic(a) ==> NoDefaultMissed(w, sides, a - STATIC_PREFIX))
    {
      if IsStatic(a) {
        StaticsAgree(w, sides, a);
        MissedMeans(w, sides, a - STATIC_PREFIX);
      } else {
        RegistersAgree(w, sides, a);
      }
    }
    FactorLaw(REG, ss, ds, cur, out, vals);
  }

  lemma WrittenBelowNull(args: seq<Diff>, a: nat)
    requires a in Written(Sections(args, REG))
    ensures a < NULL_ADDR
  {
    hide Sections;
    var ds: seq<seq<Rec>> := Sections(args, REG);
    var i, k :| 0 <= i < |ds| && 0 <= k < |ds[i]| && ds[i][k].addr == a;
    assert ds[i] == args[i].Section(REG) && WellFormedSection(args[i].Section(REG));
  }

  /** Every frame has initialised the field, or one that has holds its default, or it has none. */
  ghost predicate NoDefaultMissed(w: Setting, sides: seq<Side>, k: nat) {
    Uninitialised(sides, k) ==> k < |w.defaults| && (w.defaults[k] == NULL_ADDR || HoldsDefault(w, sides, k))
  }

  lemma MissedMeans(w: Setting, sides: seq<Side>, k: nat)
    requires k < |w.defaults|
    ensures NoDefaultMissed(w, sides, k) <==> (Uninitialised(sides, k) ==> w.defaults[k] == NULL_ADDR || HoldsDefault(w, sides, k))
  {
  }
}
