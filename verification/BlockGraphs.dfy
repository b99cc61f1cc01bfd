/**
 Cutting a method into basic blocks at its key instructions, and why the block graph has exactly the
 control flow of the instructions.
 */
module BlockGraphs {
  import opened Values

  const INVALID: nat := 0xffffffff

  // ---------- instructions ----------

  datatype IfFlag = EQ | NE | GT | GE | LE | LT

  datatype Case = Case(cond: int, isDefault: bool, target: nat)

  /** Instructions as the block builder tells them apart; labels are resolved to instruction numbers. */
  datatype Inst =
    | Plain
    | Invoke
    | Return
    | Goto(target: nat)
    | If(flag: IfFlag, target: nat)
    | Switch(cases: seq<Case>)

  /** A method: consecutive instructions from number `entry` on. */
  datatype Code = Code(entry: nat, insts: seq<Inst>) {
    function End(): nat { entry + |insts| }

    predicate Has(i: int) { entry <= i < End() }

    function At(i: nat): Inst
      requires Has(i)
    {
      insts[i - entry]
    }

    /** The `next` field of an instruction. */
    function Next(i: nat): nat {
      if i + 1 < End() then i + 1 else INVALID
    }
  }

  predicate InMethod(c: Code, x: Inst) {
    match x
    case Goto(t) => c.Has(t)
    case If(_, t) => c.Has(t)
    case Switch(cs) => forall j :: 0 <= j < |cs| ==> c.Has(cs[j].target)
    case _ => true
  }

  /** What the builder relies on: a number before the entry exists, and labels stay inside the method. */
  ghost predicate Proper(c: Code) {
    && 1 <= c.entry && c.insts != [] && c.End() <= INVALID
    && forall k :: 0 <= k < |c.insts| ==> InMethod(c, c.insts[k])
  }

  /** When a branch is taken: always, on a comparison, or when the switch value equals a constant. */
  datatype Guard = Always | Compare(eq: bool, lt: bool, gt: bool) | Equals(value: int)

  function FlagGuard(f: IfFlag): Guard {
    Compare(f == EQ || f == LE || f == GE, f == LE || f == LT, f == GE || f == GT)
  }

  function CaseGuard(x: Case): Guard {
    if x.isDefault then Always else Equals(x.cond)
  }

  /** The instructions that may follow instruction `i`, each with its guard. */
  function Follows(c: Code, i: nat): seq<(Guard, nat)>
    requires c.Has(i)
  {
    var fall := if i + 1 < c.End() then [(Always, i + 1)] else [];
    match c.At(i)
    case Plain => fall
    case Invoke => fall
    case Return => []
    case Goto(t) => [(Always, t)]
    case If(f, t) => [(FlagGuard(f), t)] + fall
    case Switch(cs) => seq(|cs|, j requires 0 <= j < |cs| => (CaseGuard(cs[j]), cs[j].target))
  }

  /** What the flags of an IF branch say about a comparison, and what the instruction means. */
  predicate Taken(g: Guard, cmp: int)
    requires g.Compare?
  {
    (cmp == 0 && g.eq) || (cmp < 0 && g.lt) || (cmp > 0 && g.gt)
  }

  predicate Meant(f: IfFlag, cmp: int) {
    match f
    case EQ => cmp == 0
    case NE => cmp != 0
    case GT => cmp > 0
    case GE => cmp >= 0
    case LE => cmp <= 0
    case LT => cmp < 0
  }

  /** The comparison flags are right except for IF_NE, which sets none and would never be taken. */
  lemma GuardMeans(f: IfFlag)
    ensures (forall cmp :: Taken(FlagGuard(f), cmp) <==> Meant(f, cmp)) <==> f != NE
    ensures f == NE ==> forall cmp :: !Taken(FlagGuard(f), cmp)
  {
    if f == NE {
      assert !Taken(FlagGuard(NE), 1) && Meant(NE, 1);
    }
  }

  /** A guard lets a switch value through. */
  predicate Lets(g: Guard, v: int)
    requires !g.Compare?
  {
    match g
    case Always => true
    case Equals(value) => v == value
  }

  /** A case lets exactly its constant through, and the default lets everything through. */
  lemma CaseMeans(x: Case)
    ensures !CaseGuard(x).Compare?
    ensures forall v :: Lets(CaseGuard(x), v) <==> x.isDefault || v == x.cond
  {
    assert !x.isDefault ==> !Lets(CaseGuard(x), x.cond + 1);
  }

  // ---------- key instructions ----------

  /** The values that instruction `i` pushes, those before the entry included. */
  function Pushes(c: Code, i: nat): seq<int>
    requires c.Has(i)
  {
    match c.At(i)
    case Plain => []
    case Invoke => (if i != c.entry then [i - 1] else []) + [i]
    case Return => (if i != c.entry then [i - 1] else []) + [i]
    case Goto(t) => [i, t - 1]
    case If(_, t) => [i, t - 1]
    case Switch(cs) => [i] + seq(|cs|, j requires 0 <= j < |cs| => cs[j].target - 1)
  }

  /** Values before the entry are ignored. */
  function Kept(entry: nat, xs: seq<int>): seq<int> {
    if xs == [] then []
    else
      var n := |xs| - 1;
      Kept(entry, xs[..n]) + if xs[n] >= entry then [xs[n]] else []
  }

  /** Everything the first `k` instructions push. */
  function Scanned(c: Code, k: nat): seq<int>
    requires k <= |c.insts|
  {
    if k == 0 then [] else Scanned(c, k - 1) + Pushes(c, c.entry + k - 1)
  }

  /** All pushes of a scan; the last instruction comes last. */
  function AllPushes(c: Code): seq<int> {
    Kept(c.entry, Scanned(c, |c.insts|) + [c.End() - 1])
  }

  lemma {:induction false} KeptIn(entry: nat, xs: seq<int>, x: int)
    ensures x in Kept(entry, xs) <==> x in xs && x >= entry
  {
    if xs != [] {
      var n := |xs| - 1;
      KeptIn(entry, xs[..n], x);
      assert xs == xs[..n] + [xs[n]];
    }
  }

  lemma {:induction false} KeptConcat(entry: nat, xs: seq<int>, ys: seq<int>)
    ensures Kept(entry, xs + ys) == Kept(entry, xs) + Kept(entry, ys)
  {
    if ys == [] {
      assert xs + ys == xs;
    } else {
      var n := |ys| - 1;
      assert (xs + ys)[..|xs| + n] == xs + ys[..n];
      KeptConcat(entry, xs, ys[..n]);
    }
  }

  lemma {:induction false} ScannedIn(c: Code, k: nat, i: nat, x: int)
    requires k <= |c.insts| && c.entry <= i < c.entry + k && x in Pushes(c, i)
    ensures x in Scanned(c, k)
  {
    if i < c.entry + k - 1 {
      ScannedIn(c, k - 1, i, x);
    }
  }

  lemma {:induction false} ScannedInRange(c: Code, k: nat, x: int)
    requires Proper(c) && k <= |c.insts| && x in Scanned(c, k)
    ensures c.entry - 1 <= x < c.End()
  {
    if k > 0 && x !in Scanned(c, k - 1) {
      assert InMethod(c, c.insts[k - 1]);
    } else if k > 0 {
      ScannedInRange(c, k - 1, x);
    }
  }

  /** Strictly increasing keys of the method, the last one its last instruction. */
  ghost predicate Keys(c: Code, keys: seq<int>) {
    && (forall a, b :: 0 <= a < b < |keys| ==> keys[a] < keys[b])
    && (forall x :: x in keys <==> x in AllPushes(c))
  }

  lemma KeyBounds(c: Code, keys: seq<int>)
    requires Proper(c) && Keys(c, keys)
    ensures keys != [] && keys[|keys| - 1] == c.End() - 1 && forall b :: 0 <= b < |keys| ==> c.Has(keys[b])
  {
    hide Scanned, Kept;
    var all := Scanned(c, |c.insts|) + [c.End() - 1];
    forall x
      ensures x in keys <==> x in all && x >= c.entry
    {
      KeptIn(c.entry, all, x);
    }
    forall b | 0 <= b < |keys|
      ensures c.Has(keys[b])
    {
      assert keys[b] in keys;
      if keys[b] != c.End() - 1 {
        ScannedInRange(c, |c.insts|, keys[b]);
      }
    }
    assert c.End() - 1 in all;
    var b :| 0 <= b < |keys| && keys[b] == c.End() - 1;
  }

  /** Whatever an instruction pushes is a key, unless it is before the entry. */
  lemma PushedIsKey(c: Code, keys: seq<int>, i: nat, x: int)
    requires Proper(c) && Keys(c, keys) && c.Has(i) && x in Pushes(c, i) && x >= c.entry
    ensures x in keys
  {
    hide Scanned, Pushes, Kept;
    ScannedIn(c, |c.insts|, i, x);
    var all := Scanned(c, |c.insts|) + [c.End() - 1];
    assert x in all;
    KeptIn(c.entry, all, x);
  }

  // ---------- blocks as ranges between keys ----------

  /** Block `b` is the range from its start to its key. */
  function Start(c: Code, keys: seq<int>, b: nat): int
    requires b < |keys|
  {
    if b == 0 then c.entry else keys[b - 1] + 1
  }

  ghost predicate IsBlockOf(keys: seq<int>, i: int, b: int) {
    0 <= b < |keys| && i <= keys[b] && (b > 0 ==> keys[b - 1] < i)
  }

  lemma OneBlock(keys: seq<int>, i: int, a: int, b: int)
    requires forall a, b :: 0 <= a < b < |keys| ==> keys[a] < keys[b]
    requires IsBlockOf(keys, i, a) && IsBlockOf(keys, i, b)
    ensures a == b
  {
  }

  /** An instruction whose predecessor is a key, or the entry, is the first of its block. */
  lemma StartsBlock(c: Code, keys: seq<int>, i: int, b: int)
    requires Proper(c) && Keys(c, keys) && IsBlockOf(keys, i, b) && c.Has(i) && (i == c.entry || i - 1 in keys)
    ensures Start(c, keys, b) == i
  {
    KeyBounds(c, keys);
    if i != c.entry {
      var a :| 0 <= a < |keys| && keys[a] == i - 1;
    }
  }

  /** Every successor of a key instruction starts a block. */
  lemma SuccessorStarts(c: Code, keys: seq<int>, k: nat, s: (Guard, nat), b: int)
    requires Proper(c) && Keys(c, keys) && k in keys && c.Has(k) && s in Follows(c, k) && IsBlockOf(keys, s.1, b)
    ensures c.Has(s.1) && Start(c, keys, b) == s.1
  {
    hide Follows, Keys, Proper, Pushes, IsBlockOf;
    FollowInside(c, k, s);
    if s.1 != k + 1 {
      TargetPushed(c, k, s);
      if s.1 != c.entry {
        PushedIsKey(c, keys, k, s.1 - 1);
      }
    }
    StartsBlock(c, keys, s.1, b);
  }

  lemma FollowInside(c: Code, k: nat, s: (Guard, nat))
    requires Proper(c) && c.Has(k) && s in Follows(c, k)
    ensures c.Has(s.1)
  {
    hide FlagGuard, CaseGuard;
    assert InMethod(c, c.insts[k - c.entry]);
    var j :| 0 <= j < |Follows(c, k)| && Follows(c, k)[j] == s;
  }

  lemma TargetPushed(c: Code, k: nat, s: (Guard, nat))
    requires c.Has(k) && s in Follows(c, k) && s.1 != k + 1
    ensures s.1 - 1 in Pushes(c, k)
  {
    hide FlagGuard, CaseGuard;
    var j :| 0 <= j < |Follows(c, k)| && s == Follows(c, k)[j];
    if c.At(k).Goto? || c.At(k).If? {
      assert Pushes(c, k)[1] == s.1 - 1;
    } else if c.At(k).Switch? {
      assert Pushes(c, k)[j + 1] == s.1 - 1;
    }
  }

  /** Control flow leaves its order only at keys: any other instruction is plain and goes to the next one. */
  lemma InsideBlock(c: Code, keys: seq<int>, i: nat)
    requires Proper(c) && Keys(c, keys) && c.Has(i) && i !in keys
    ensures c.At(i) == Plain && c.Has(i + 1) && Follows(c, i) == [(Always, i + 1)]
  {
    KeyBounds(c, keys);
    if c.At(i) != Plain {
      assert i in Pushes(c, i);
      PushedIsKey(c, keys, i, i);
    }
  }

  /** Invokes and returns are alone in their block. */
  lemma AloneInBlock(c: Code, keys: seq<int>, b: nat)
    requires Proper(c) && Keys(c, keys) && b < |keys| && c.Has(keys[b]) && (c.At(keys[b]) == Invoke || c.At(keys[b]) == Return)
    ensures Start(c, keys, b) == keys[b]
  {
    var k := keys[b];
    assert IsBlockOf(keys, k, b) by {
      if b > 0 {
        assert keys[b - 1] < keys[b];
      }
    }
    if k != c.entry {
      assert k - 1 in Pushes(c, k);
      PushedIsKey(c, keys, k, k - 1);
    }
    StartsBlock(c, keys, k, b);
  }

  // ---------- the block graph ----------

  datatype Branch = Branch(guard: Guard, isReturn: bool, blockId: int, disabled: bool)

  datatype Block = Block(index: nat, begin: int, end: int, branches: seq<Branch>)

  /** The branches of the block that ends in instruction `k`: guard, target and whether it is disabled. */
  function Slots(c: Code, k: nat): seq<(Guard, nat, bool)>
    requires c.Has(k)
  {
    var fall := (Always, k + 1, k + 1 >= c.End());
    match c.At(k)
    case Plain => [fall]
    case Invoke => [fall]
    case Return => []
    case Goto(t) => [(Always, t, false)]
    case If(f, t) => [(FlagGuard(f), t, false), fall]
    case Switch(cs) => seq(|cs|, j requires 0 <= j < |cs| => (CaseGuard(cs[j]), cs[j].target, false))
  }

  ghost predicate BranchFits(keys: seq<int>, x: Branch, slot: (Guard, nat, bool)) {
    x.guard == slot.0 && !x.isReturn && x.disabled == slot.2 && (!x.disabled ==> IsBlockOf(keys, slot.1, x.blockId))
  }

  ghost predicate BranchesFit(c: Code, keys: seq<int>, k: nat, xs: seq<Branch>)
    requires c.Has(k)
  {
    if c.At(k) == Return then |xs| == 1 && xs[0].isReturn && xs[0].guard == Always && !xs[0].disabled
    else |xs| == |Slots(c, k)| && forall j :: 0 <= j < |xs| ==> BranchFits(keys, xs[j], Slots(c, k)[j])
  }

  /** Instructions that only steer the control flow are not part of the block they end. */
  predicate Steers(x: Inst) {
    x.Goto? || x.If? || x.Switch? || x.Return?
  }

  ghost predicate BlockFits(c: Code, keys: seq<int>, b: nat, x: Block)
    requires b < |keys| && c.Has(keys[b])
  {
    && x.index == b && x.begin == Start(c, keys, b)
    && x.end == (if Steers(c.At(keys[b])) then keys[b] else c.Next(keys[b]))
    && BranchesFit(c, keys, keys[b], x.branches)
  }

  ghost predicate IsGraph(c: Code, keys: seq<int>, blocks: seq<Block>) {
    |blocks| == |keys| && forall b :: 0 <= b < |keys| ==> c.Has(keys[b]) && BlockFits(c, keys, b, blocks[b])
  }

  /** A branch of `x` that can be followed, with guard `g` to block `d`. */
  ghost predicate Exit(x: Block, g: Guard, d: int) {
    exists j :: 0 <= j < |x.branches| && x.branches[j] == Branch(g, false, d, false)
  }

  lemma ExitFollows(c: Code, keys: seq<int>, b: nat, x: Block, g: Guard, d: int)
    requires Proper(c) && Keys(c, keys) && b < |keys| && c.Has(keys[b]) && BlockFits(c, keys, b, x) && Exit(x, g, d)
    ensures 0 <= d < |keys| && Start(c, keys, d) >= 0 && (g, Start(c, keys, d)) in Follows(c, keys[b])
  {
    var k := keys[b];
    var j :| 0 <= j < |x.branches| && x.branches[j] == Branch(g, false, d, false);
    assert BranchFits(keys, x.branches[j], Slots(c, k)[j]);
    SlotFollows(c, k, j);
    SuccessorStarts(c, keys, k, (g, Slots(c, k)[j].1), d);
  }

  lemma SlotFollows(c: Code, k: nat, j: nat)
    requires c.Has(k) && j < |Slots(c, k)| && !Slots(c, k)[j].2
    ensures (Slots(c, k)[j].0, Slots(c, k)[j].1) in Follows(c, k)
  {
    if c.At(k).Switch? {
      assert Follows(c, k)[j] == (Slots(c, k)[j].0, Slots(c, k)[j].1);
    } else if c.At(k).If? && j == 1 {
      assert Follows(c, k)[1] == (Always, k + 1);
    }
  }

  lemma FollowSlot(c: Code, k: nat, s: (Guard, nat)) returns (j: nat)
    requires c.Has(k) && s in Follows(c, k)
    ensures j < |Slots(c, k)| && Slots(c, k)[j] == (s.0, s.1, false)
  {
    j :| 0 <= j < |Follows(c, k)| && Follows(c, k)[j] == s;
  }

  lemma FollowExits(c: Code, keys: seq<int>, b: nat, x: Block, s: (Guard, nat)) returns (d: nat)
    requires Proper(c) && Keys(c, keys) && b < |keys| && c.Has(keys[b]) && BlockFits(c, keys, b, x) && s in Follows(c, keys[b])
    ensures d < |keys| && Exit(x, s.0, d) && Start(c, keys, d) == s.1
  {
    var j := FollowSlot(c, keys[b], s);
    assert BranchFits(keys, x.branches[j], Slots(c, keys[b])[j]);
    d := x.branches[j].blockId;
    assert x.branches[j] == Branch(s.0, false, d, false);
    SuccessorStarts(c, keys, keys[b], s, d);
  }

  // ---------- traces and paths ----------

  /** A run of the instructions from the entry: each with the guard under which it was entered. */
  ghost predicate IsTrace(c: Code, tr: seq<(Guard, nat)>) {
    && tr != [] && tr[0] == (Always, c.entry)
    && (forall n :: 0 <= n < |tr| ==> c.Has(tr[n].1))
    && forall n :: 1 <= n < |tr| ==> tr[n] in Follows(c, tr[n - 1].1)
  }

  /** A run of the block graph from block 0. */
  ghost predicate IsPath(blocks: seq<Block>, path: seq<(Guard, nat)>) {
    && path != [] && path[0] == (Always, 0)
    && (forall n :: 0 <= n < |path| ==> path[n].1 < |blocks|)
    && forall n :: 1 <= n < |path| ==> Exit(blocks[path[n - 1].1], path[n].0, path[n].1)
  }

  /** The instructions of a block, entered under `g`. */
  function Segment(c: Code, keys: seq<int>, g: Guard, b: nat): (r: seq<(Guard, nat)>)
    requires b < |keys| && 0 <= Start(c, keys, b) <= keys[b]
    ensures |r| == keys[b] - Start(c, keys, b) + 1
    ensures r[0] == (g, Start(c, keys, b)) && r[|r| - 1].1 == keys[b]
    ensures forall m :: 0 <= m < |r| ==> r[m] == (if m == 0 then g else Always, Start(c, keys, b) + m)
  {
    seq(keys[b] - Start(c, keys, b) + 1, m requires 0 <= m => (if m == 0 then g else Always, Start(c, keys, b) + m))
  }

  lemma StartBefore(c: Code, keys: seq<int>, b: nat)
    requires Proper(c) && Keys(c, keys) && b < |keys|
    ensures c.entry <= Start(c, keys, b) <= keys[b]
  {
    KeyBounds(c, keys);
    if b > 0 {
      assert keys[b - 1] < keys[b];
    }
  }

  /** The instructions of the blocks on a path, one block after the other. */
  ghost function Expand(c: Code, keys: seq<int>, path: seq<(Guard, nat)>): seq<(Guard, nat)>
    requires Proper(c) && Keys(c, keys) && forall n :: 0 <= n < |path| ==> path[n].1 < |keys|
  {
    if path == [] then []
    else
      var n := |path| - 1;
      StartBefore(c, keys, path[n].1);
      Expand(c, keys, path[..n]) + Segment(c, keys, path[n].0, path[n].1)
  }

  lemma NotKeyInside(c: Code, keys: seq<int>, b: nat, i: int)
    requires Keys(c, keys) && b < |keys| && Start(c, keys, b) <= i < keys[b]
    requires c.Has(i) && Proper(c)
    ensures i !in keys
  {
  }

  /** Inside a block the instructions follow one another. */
  lemma SegmentFollows(c: Code, keys: seq<int>, g: Guard, b: nat, m: nat)
    requires Proper(c) && Keys(c, keys) && b < |keys| && 0 <= Start(c, keys, b) <= keys[b]
    requires 0 < m < |Segment(c, keys, g, b)|
    ensures var seg := Segment(c, keys, g, b);
            c.Has(seg[m - 1].1) && c.Has(seg[m].1) && Follows(c, seg[m - 1].1) == [seg[m]] && seg[m - 1].1 !in keys
  {
    hide Keys, Follows, Segment, Proper;
    KeyBounds(c, keys);
    StartBefore(c, keys, b);
    var i := Start(c, keys, b) + m - 1;
    NotKeyInside(c, keys, b, i);
    InsideBlock(c, keys, i);
  }

  lemma SegmentAt(c: Code, keys: seq<int>, g: Guard, b: nat)
    requires Proper(c) && Keys(c, keys) && b < |keys| && 0 <= Start(c, keys, b) <= keys[b]
    ensures var seg := Segment(c, keys, g, b);
            && (forall m :: 0 <= m < |seg| ==> c.Has(seg[m].1))
            && (forall m :: 1 <= m < |seg| ==> seg[m] in Follows(c, seg[m - 1].1))
  {
    hide Keys, Follows, Segment, Proper;
    var seg := Segment(c, keys, g, b);
    KeyBounds(c, keys);
    StartBefore(c, keys, b);
    forall m | 1 <= m < |seg|
      ensures seg[m] in Follows(c, seg[m - 1].1)
    {
      SegmentFollows(c, keys, g, b, m);
    }
  }

  /** Appending a block's instructions to a run that may go on to it. */
  lemma TraceGrows(c: Code, tr: seq<(Guard, nat)>, seg: seq<(Guard, nat)>)
    requires IsTrace(c, tr) && seg != [] && seg[0] in Follows(c, tr[|tr| - 1].1)
    requires (forall m :: 0 <= m < |seg| ==> c.Has(seg[m].1)) && (forall m :: 1 <= m < |seg| ==> seg[m] in Follows(c, seg[m - 1].1))
    ensures IsTrace(c, tr + seg)
  {
    hide Follows;
    var all := tr + seg;
    forall n | 1 <= n < |all|
      ensures all[n] in Follows(c, all[n - 1].1)
    {
      if n < |tr| {
        assert tr[n] in Follows(c, tr[n - 1].1);
      } else if n > |tr| {
        assert seg[n - |tr|] in Follows(c, seg[n - |tr| - 1].1);
      }
    }
  }

  /** Soundness: a path of the block graph, expanded, is a run of the instructions. */
  lemma {:induction false} PathIsTrace(c: Code, keys: seq<int>, blocks: seq<Block>, path: seq<(Guard, nat)>)
    requires Proper(c) && Keys(c, keys) && IsGraph(c, keys, blocks) && IsPath(blocks, path)
    ensures forall n :: 0 <= n < |path| ==> path[n].1 < |keys|
    ensures IsTrace(c, Expand(c, keys, path))
    ensures var tr := Expand(c, keys, path); tr[|tr| - 1].1 == keys[path[|path| - 1].1]
  {
    hide Keys, Follows, Segment, Proper, BlockFits, IsTrace, Exit;
    var n := |path| - 1;
    var (g, b) := path[n];
    StartBefore(c, keys, b);
    SegmentAt(c, keys, g, b);
    var seg := Segment(c, keys, g, b);
    if n > 0 {
      PathFront(blocks, path);
      PathIsTrace(c, keys, blocks, path[..n]);
      ExitFollows(c, keys, path[n - 1].1, blocks[path[n - 1].1], g, b);
      TraceGrows(c, Expand(c, keys, path[..n]), seg);
    } else {
      assert Expand(c, keys, path) == seg by {
        assert path[..0] == [];
      }
      SegmentTrace(c, seg);
    }
  }

  lemma SegmentTrace(c: Code, seg: seq<(Guard, nat)>)
    requires seg != [] && seg[0] == (Always, c.entry)
    requires (forall m :: 0 <= m < |seg| ==> c.Has(seg[m].1)) && (forall m :: 1 <= m < |seg| ==> seg[m] in Follows(c, seg[m - 1].1))
    ensures IsTrace(c, seg)
  {
  }

  lemma PathFront(blocks: seq<Block>, path: seq<(Guard, nat)>)
    requires IsPath(blocks, path) && |path| > 1
    ensures IsPath(blocks, path[..|path| - 1])
    ensures Exit(blocks[path[|path| - 2].1], path[|path| - 1].0, path[|path| - 1].1)
  {
    hide Exit;
  }

  lemma TraceFront(c: Code, tr: seq<(Guard, nat)>)
    requires IsTrace(c, tr) && |tr| > 1
    ensures IsTrace(c, tr[..|tr| - 1]) && tr[|tr| - 1] in Follows(c, tr[|tr| - 2].1)
  {
    hide Follows;
  }

  /** A run that ends inside the last block of its path goes on in that block. */
  lemma StaysInBlock(c: Code, keys: seq<int>, g: Guard, b: nat, front: seq<(Guard, nat)>, tr: seq<(Guard, nat)>)
    requires Proper(c) && Keys(c, keys) && b < |keys| && 0 <= Start(c, keys, b) <= keys[b]
    requires IsTrace(c, tr) && |tr| > 1 && |front| < |tr| - 1 < |front| + |Segment(c, keys, g, b)|
    requires tr[..|tr| - 1] <= front + Segment(c, keys, g, b)
    ensures tr <= front + Segment(c, keys, g, b)
  {
    hide Keys, Follows, Segment, Proper, IsTrace;
    var n, seg := |tr| - 1, Segment(c, keys, g, b);
    TraceFront(c, tr);
    SegmentFollows(c, keys, g, b, n - |front|);
    assert tr[n - 1] == (front + seg)[n - 1] == seg[n - 1 - |front|];
    assert tr == tr[..n] + [tr[n]];
  }

  /** Completeness: every run of the instructions is a run of the block graph, up to the middle of its last block. */
  lemma {:induction false} TraceHasPath(c: Code, keys: seq<int>, blocks: seq<Block>, tr: seq<(Guard, nat)>) returns (path: seq<(Guard, nat)>)
    requires Proper(c) && Keys(c, keys) && IsGraph(c, keys, blocks) && IsTrace(c, tr)
    ensures IsPath(blocks, path) && forall n :: 0 <= n < |path| ==> path[n].1 < |keys|
    ensures tr <= Expand(c, keys, path) && |Expand(c, keys, path[..|path| - 1])| < |tr|
  {
    hide Keys, Follows, Segment, Proper, BlockFits, Exit, IsPath, IsGraph, Expand;
    var n := |tr| - 1;
    if n == 0 {
      path := FirstBlock(c, keys, blocks, tr);
    } else {
      TraceFront(c, tr);
      path := TraceHasPath(c, keys, blocks, tr[..n]);
      PathIsTrace(c, keys, blocks, path);
      PathNonEmpty(blocks, path);
      path := NextStep(c, keys, blocks, tr, path);
    }
  }

  lemma FirstBlock(c: Code, keys: seq<int>, blocks: seq<Block>, tr: seq<(Guard, nat)>) returns (path: seq<(Guard, nat)>)
    requires Proper(c) && Keys(c, keys) && IsGraph(c, keys, blocks) && IsTrace(c, tr) && |tr| == 1
    ensures IsPath(blocks, path) && forall n :: 0 <= n < |path| ==> path[n].1 < |keys|
    ensures tr <= Expand(c, keys, path) && |Expand(c, keys, path[..|path| - 1])| < |tr|
  {
    hide Keys, Follows, Segment, Proper, BlockFits, Exit;
    KeyBounds(c, keys);
    path := [(Always, 0)];
    StartBefore(c, keys, 0);
    assert path[..0] == [];
    assert Expand(c, keys, path) == Segment(c, keys, Always, 0);
  }

  /** One more step of a run: inside the last block, or along a branch to the next one. */
  lemma NextStep(c: Code, keys: seq<int>, blocks: seq<Block>, tr: seq<(Guard, nat)>, path0: seq<(Guard, nat)>) returns (path: seq<(Guard, nat)>)
    requires Proper(c) && Keys(c, keys) && IsGraph(c, keys, blocks) && IsTrace(c, tr) && |tr| > 1
    requires IsPath(blocks, path0) && path0 != [] && forall n :: 0 <= n < |path0| ==> path0[n].1 < |keys|
    requires IsTrace(c, Expand(c, keys, path0))
    requires var all := Expand(c, keys, path0); all[|all| - 1].1 == keys[path0[|path0| - 1].1]
    requires tr[..|tr| - 1] <= Expand(c, keys, path0) && |Expand(c, keys, path0[..|path0| - 1])| < |tr| - 1
    ensures IsPath(blocks, path) && path != [] && forall n :: 0 <= n < |path| ==> path[n].1 < |keys|
    ensures tr <= Expand(c, keys, path) && |Expand(c, keys, path[..|path| - 1])| < |tr|
  {
    hide Keys, Follows, Segment, Proper, BlockFits, IsTrace, Exit, IsPath, Expand;
    var n := |tr| - 1;
    var all := Expand(c, keys, path0);
    TraceFront(c, tr);
    path := path0;
    var last := |path| - 1;
    var (g, b) := path[last];
    ExpandLast(c, keys, path);
    if n < |all| {
      StaysInBlock(c, keys, g, b, Expand(c, keys, path[..last]), tr);
    } else {
      assert tr[..n] == all;
      var d := FollowExits(c, keys, b, blocks[b], tr[n]);
      PathGrows(blocks, path, (tr[n].0, d));
      path := path + [(tr[n].0, d)];
      assert path[..|path| - 1] == path0;
      ExpandLast(c, keys, path);
      assert tr == all + [tr[n]];
    }
  }

  lemma PathNonEmpty(blocks: seq<Block>, path: seq<(Guard, nat)>)
    requires IsPath(blocks, path)
    ensures path != [] && forall n :: 0 <= n < |path| ==> path[n].1 < |blocks|
  {
  }

  lemma ExpandLast(c: Code, keys: seq<int>, path: seq<(Guard, nat)>)
    requires Proper(c) && Keys(c, keys) && path != [] && forall n :: 0 <= n < |path| ==> path[n].1 < |keys|
    ensures var n := |path| - 1;
            && c.entry <= Start(c, keys, path[n].1) <= keys[path[n].1]
            && Expand(c, keys, path) == Expand(c, keys, path[..n]) + Segment(c, keys, path[n].0, path[n].1)
  {
    StartBefore(c, keys, path[|path| - 1].1);
  }

  lemma PathGrows(blocks: seq<Block>, path: seq<(Guard, nat)>, step: (Guard, nat))
    requires IsPath(blocks, path) && step.1 < |blocks| && Exit(blocks[path[|path| - 1].1], step.0, step.1)
    ensures IsPath(blocks, path + [step])
  {
  }

  // ---------- building the graph ----------

  /** `__PUSH`: appends a key to the buffer; values before the entry are ignored, a full buffer is an error. */
  method Push(entry: nat, key: array<int>, kcnt: nat, value: int, ghost pushed: seq<int>) returns (ok: bool, n: nat)
    requires kcnt <= key.Length && key[..kcnt] == Kept(entry, pushed)
    modifies key
    ensures ok <==> |Kept(entry, pushed + [value])| <= key.Length
    ensures ok ==> n <= key.Length && key[..n] == Kept(entry, pushed + [value])
  {
    assert (pushed + [value])[..|pushed|] == pushed;
    if value < entry {
      return true, kcnt;
    }
    if kcnt >= key.Length {
      return false, 0;
    }
    ghost var was := key[..kcnt];
    key[kcnt] := value;
    assert key[..kcnt + 1] == was + [value];
    return true, kcnt + 1;
  }

  lemma KeptGrows(entry: nat, xs: seq<int>, ys: seq<int>)
    ensures |Kept(entry, xs)| <= |Kept(entry, xs + ys)|
  {
    KeptConcat(entry, xs, ys);
  }

  /** Pushes the keys of one instruction. */
  method PushInst(c: Code, i: nat, key: array<int>, kcnt: nat, ghost pushed: seq<int>) returns (ok: bool, n: nat)
    requires c.Has(i) && kcnt <= key.Length && key[..kcnt] == Kept(c.entry, pushed)
    modifies key
    ensures ok <==> |Kept(c.entry, pushed + Pushes(c, i))| <= key.Length
    ensures ok ==> n <= key.Length && key[..n] == Kept(c.entry, pushed + Pushes(c, i))
  {
    hide Kept;
    match c.At(i) {
      case Plain =>
        assert pushed + Pushes(c, i) == pushed;
        ok, n := true, kcnt;
      case Goto(t) =>
        ok, n := PushTwo(c.entry, key, kcnt, i, t - 1, pushed);
        assert Pushes(c, i) == [i, t - 1];
      case If(_, t) =>
        ok, n := PushTwo(c.entry, key, kcnt, i, t - 1, pushed);
        assert Pushes(c, i) == [i, t - 1];
      case Switch(cs) =>
        ok, n := PushCases(c.entry, key, kcnt, i, cs, pushed);
        assert Pushes(c, i) == [i] + CaseKeys(cs);
      case _ =>
        if i != c.entry {
          ok, n := PushTwo(c.entry, key, kcnt, i - 1, i, pushed);
          assert Pushes(c, i) == [i - 1, i];
        } else {
          ok, n := Push(c.entry, key, kcnt, i, pushed);
          assert Pushes(c, i) == [i];
        }
    }
  }

  method PushTwo(entry: nat, key: array<int>, kcnt: nat, x: int, y: int, ghost pushed: seq<int>) returns (ok: bool, n: nat)
    requires kcnt <= key.Length && key[..kcnt] == Kept(entry, pushed)
    modifies key
    ensures ok <==> |Kept(entry, pushed + [x, y])| <= key.Length
    ensures ok ==> n <= key.Length && key[..n] == Kept(entry, pushed + [x, y])
  {
    hide Kept;
    assert pushed + [x] + [y] == pushed + [x, y];
    KeptGrows(entry, pushed + [x], [y]);
    ok, n := Push(entry, key, kcnt, x, pushed);
    if ok {
      ok, n := Push(entry, key, n, y, pushed + [x]);
    }
  }

  function CaseKeys(cs: seq<Case>): (r: seq<int>)
    ensures |r| == |cs| && forall j :: 0 <= j < |cs| ==> r[j] == cs[j].target - 1
  {
    seq(|cs|, j requires 0 <= j < |cs| => cs[j].target - 1)
  }

  method PushCases(entry: nat, key: array<int>, kcnt: nat, i: int, cs: seq<Case>, ghost pushed: seq<int>) returns (ok: bool, n: nat)
    requires kcnt <= key.Length && key[..kcnt] == Kept(entry, pushed)
    modifies key
    ensures ok <==> |Kept(entry, pushed + ([i] + CaseKeys(cs)))| <= key.Length
    ensures ok ==> n <= key.Length && key[..n] == Kept(entry, pushed + ([i] + CaseKeys(cs)))
  {
    hide Kept;
    ghost var all := pushed + ([i] + CaseKeys(cs));
    CasePrefix(entry, pushed, i, cs, 0);
    ok, n := Push(entry, key, kcnt, i, pushed);
    if !ok {
      return;
    }
    for j := 0 to |cs|
      invariant n <= key.Length && key[..n] == Kept(entry, pushed + ([i] + CaseKeys(cs)[..j]))
    {
      CasePrefix(entry, pushed, i, cs, j + 1);
      ok, n := Push(entry, key, n, cs[j].target - 1, pushed + ([i] + CaseKeys(cs)[..j]));
      assert pushed + ([i] + CaseKeys(cs)[..j]) + [cs[j].target - 1] == pushed + ([i] + CaseKeys(cs)[..j + 1]);
      if !ok {
        return;
      }
    }
    assert CaseKeys(cs)[..|cs|] == CaseKeys(cs);
    ok := true;
  }

  lemma CasePrefix(entry: nat, pushed: seq<int>, i: int, cs: seq<Case>, j: nat)
    requires j <= |cs|
    ensures |Kept(entry, pushed + ([i] + CaseKeys(cs)[..j]))| <= |Kept(entry, pushed + ([i] + CaseKeys(cs)))|
    ensures pushed + [i] == pushed + ([i] + CaseKeys(cs)[..0])
  {
    assert pushed + ([i] + CaseKeys(cs)) == pushed + ([i] + CaseKeys(cs)[..j]) + CaseKeys(cs)[j..];
    KeptGrows(entry, pushed + ([i] + CaseKeys(cs)[..j]), CaseKeys(cs)[j..]);
  }

  ghost predicate Ascending(xs: seq<int>) {
    forall a, b :: 0 <= a < b < |xs| ==> xs[a] <= xs[b]
  }

  method Sorted(xs: seq<int>) returns (r: seq<int>)
    ensures |r| == |xs| && Ascending(r) && forall x :: x in r <==> x in xs
  {
    r := [];
    for i := 0 to |xs|
      invariant |r| == i && Ascending(r) && forall x :: x in r <==> x in xs[..i]
    {
      ghost var was := r;
      var k := |r|;
      while k > 0 && r[k - 1] > xs[i]
        invariant 0 <= k <= |r| && forall j :: k <= j < |r| ==> xs[i] < r[j]
      {
        k := k - 1;
      }
      InsertAscending(r, k, xs[i]);
      r := r[..k] + [xs[i]] + r[k..];
      assert xs[..i + 1] == xs[..i] + [xs[i]];
      forall x
        ensures x in r <==> x in was || x == xs[i]
      {
        assert was == was[..k] + was[k..];
      }
    }
    assert xs[..|xs|] == xs;
  }

  lemma InsertAscending(r: seq<int>, k: nat, x: int)
    requires Ascending(r) && k <= |r| && (forall j :: k <= j < |r| ==> x < r[j]) && (k > 0 ==> r[k - 1] <= x)
    ensures Ascending(r[..k] + [x] + r[k..])
  {
  }

  /** `qsort` on the first `n` keys. */
  method SortKeys(key: array<int>, n: nat)
    requires n <= key.Length
    modifies key
    ensures Ascending(key[..n]) && forall x :: x in key[..n] <==> x in old(key[..n])
  {
    var r := Sorted(key[..n]);
    for i := 0 to n
      invariant key[..i] == r[..i]
    {
      key[i] := r[i];
    }
    assert key[..n] == r;
  }

  /** Removes repeated keys from a sorted buffer, in place. */
  method DedupKeys(key: array<int>, n: nat) returns (m: nat)
    requires 0 < n <= key.Length && Ascending(key[..n])
    modifies key
    ensures 0 < m <= n && (forall a, b :: 0 <= a < b < m ==> key[a] < key[b])
    ensures forall x :: x in key[..m] <==> x in old(key[..n])
  {
    ghost var was := key[..n];
    m := 1;
    var cur := 1;
    assert key[..1] == was[..1];
    while cur < n
      invariant 1 <= m <= cur <= n && key[cur..n] == was[cur..] && key[m - 1] == was[cur - 1]
      invariant forall a, b :: 0 <= a < b < m ==> key[a] < key[b]
      invariant forall x :: x in key[..m] <==> x in was[..cur]
    {
      assert key[cur] == key[cur..n][0] == was[cur];
      assert was[..cur + 1] == was[..cur] + [was[cur]];
      assert was[cur - 1] <= was[cur];
      if key[m - 1] != key[cur] {
        ghost var before := key[..m];
        key[m] := key[cur];
        assert key[..m + 1] == before + [was[cur]];
        m := m + 1;
      } else {
        assert was[cur] == key[m - 1] && key[m - 1] in key[..m];
      }
      cur := cur + 1;
    }
    assert was[..n] == was;
  }

  /** The key instructions of a method in a buffer: scanned, sorted and without repetition; 0 if they do not fit. */
  method KeyList(c: Code, key: array<int>) returns (kcnt: nat)
    requires Proper(c)
    modifies key
    ensures |AllPushes(c)| <= key.Length ==> 0 < kcnt <= key.Length && Keys(c, key[..kcnt])
    ensures |AllPushes(c)| > key.Length ==> kcnt == 0
  {
    hide Kept, Scanned, Proper, Pushes, Ascending;
    ghost var all := Scanned(c, |c.insts|) + [c.End() - 1];
    kcnt := 0;
    var ok;
    ScannedNone(c, key);
    for k := 0 to |c.insts|
      invariant kcnt <= key.Length && key[..kcnt] == Kept(c.entry, Scanned(c, k))
    {
      ScannedSome(c, k + 1);
      ok, kcnt := PushInst(c, c.entry + k, key, kcnt, Scanned(c, k));
      if !ok {
        return 0;
      }
    }
    ok, kcnt := Push(c.entry, key, kcnt, c.End() - 1, Scanned(c, |c.insts|));
    if !ok {
      return 0;
    }
    LastIsKept(c);
    SortKeys(key, kcnt);
    kcnt := DedupKeys(key, kcnt);
  }

  lemma ScannedNone(c: Code, key: array<int>)
    ensures key[..0] == Kept(c.entry, Scanned(c, 0))
  {
  }

  lemma ScannedSome(c: Code, k: nat)
    requires 0 < k <= |c.insts|
    ensures Scanned(c, k) == Scanned(c, k - 1) + Pushes(c, c.entry + k - 1)
    ensures |Kept(c.entry, Scanned(c, k))| <= |AllPushes(c)|
  {
    hide Pushes, Kept, AllPushes;
    ScannedPrefix(c, k);
  }

  lemma {:induction false} ScannedPrefix(c: Code, k: nat)
    requires k <= |c.insts|
    ensures |Kept(c.entry, Scanned(c, k))| <= |AllPushes(c)|
    decreases |c.insts| - k
  {
    hide Kept, Pushes;
    if k == |c.insts| {
      KeptGrows(c.entry, Scanned(c, k), [c.End() - 1]);
    } else {
      KeptGrows(c.entry, Scanned(c, k), Pushes(c, c.entry + k));
      ScannedPrefix(c, k + 1);
    }
  }

  lemma LastIsKept(c: Code)
    requires Proper(c)
    ensures |AllPushes(c)| > 0
  {
    hide Scanned, Kept;
    var all := Scanned(c, |c.insts|) + [c.End() - 1];
    assert all[|all| - 1] == c.End() - 1;
    KeptIn(c.entry, all, c.End() - 1);
  }

  /** Binary search for the block of an instruction; -1 after the last key. */
  method FindBlock(i: int, key: seq<int>) returns (b: int)
    requires forall x, y :: 0 <= x < y < |key| ==> key[x] < key[y]
    ensures b == -1 <==> (key == [] || key[|key| - 1] < i)
    ensures b != -1 ==> IsBlockOf(key, i, b)
  {
    if |key| == 0 || key[|key| - 1] < i {
      return -1;
    }
    if i <= key[0] {
      return 0;
    }
    var l, r := 0, |key|;
    while r - l > 1
      invariant 0 <= l < r <= |key| && key[l] < i && (r < |key| ==> i <= key[r])
    {
      var m := (l + r) / 2;
      if key[m] < i {
        l := m;
      } else {
        r := m;
      }
    }
    b := r;
  }

  /** A branch to the block of instruction `i`, which is in the method. */
  method BranchTo(c: Code, keys: seq<int>, g: Guard, i: nat) returns (x: Branch)
    requires Proper(c) && Keys(c, keys) && c.Has(i)
    ensures BranchFits(keys, x, (g, i, false))
  {
    KeyBounds(c, keys);
    var b := FindBlock(i, keys);
    x := Branch(g, false, b, false);
  }

  /** The branch to the next instruction, disabled after the last one. */
  method FallThrough(c: Code, keys: seq<int>, k: nat) returns (x: Branch)
    requires Proper(c) && Keys(c, keys) && c.Has(k)
    ensures BranchFits(keys, x, (Always, k + 1, k + 1 >= c.End()))
  {
    if c.Next(k) == INVALID {
      x := Branch(Always, false, 0, true);
    } else {
      x := BranchTo(c, keys, Always, c.Next(k));
    }
  }

  /** One branch per case, to the block of its target: unconditional for a default, else conditional on its constant. */
  ghost predicate CaseBranches(keys: seq<int>, cs: seq<Case>, xs: seq<Branch>) {
    |xs| == |cs| && forall j :: 0 <= j < |cs| ==>
      && (cs[j].isDefault ==> xs[j].guard == Always)
      && (!cs[j].isDefault ==> xs[j].guard == Equals(cs[j].cond))
      && !xs[j].isReturn && !xs[j].disabled && IsBlockOf(keys, cs[j].target, xs[j].blockId)
  }

  method SwitchBranches(c: Code, keys: seq<int>, cs: seq<Case>) returns (xs: seq<Branch>)
    requires Proper(c) && Keys(c, keys) && forall j :: 0 <= j < |cs| ==> c.Has(cs[j].target)
    ensures |xs| == |cs| && forall j :: 0 <= j < |cs| ==> BranchFits(keys, xs[j], (CaseGuard(cs[j]), cs[j].target, false))
    ensures CaseBranches(keys, cs, xs)
  {
    xs := [];
    for j := 0 to |cs|
      invariant |xs| == j && forall m :: 0 <= m < j ==> BranchFits(keys, xs[m], (CaseGuard(cs[m]), cs[m].target, false))
    {
      var x := BranchTo(c, keys, CaseGuard(cs[j]), cs[j].target);
      xs := xs + [x];
    }
  }

  /** The branches of the block that ends in key instruction `k`. */
  method SetupBranches(c: Code, keys: seq<int>, k: nat) returns (xs: seq<Branch>)
    requires Proper(c) && Keys(c, keys) && c.Has(k)
    ensures BranchesFit(c, keys, k, xs)
    ensures c.At(k).Switch? ==> CaseBranches(keys, c.At(k).cases, xs)
  {
    hide Keys, BranchFits, CaseBranches;
    assert InMethod(c, c.insts[k - c.entry]);
    match c.At(k) {
      case Goto(t) =>
        var x := BranchTo(c, keys, Always, t);
        xs := [x];
      case If(f, t) =>
        var fall := FallThrough(c, keys, k);
        var x := BranchTo(c, keys, FlagGuard(f), t);
        xs := [x, fall];
      case Switch(cs) =>
        xs := SwitchBranches(c, keys, cs);
      case Return =>
        xs := [Branch(Always, true, 0, false)];
      case _ =>
        var x := FallThrough(c, keys, k);
        xs := [x];
    }
  }

  /** Builds one block per key. */
  method BuildBlocks(c: Code, keys: seq<int>) returns (blocks: seq<Block>)
    requires Proper(c) && Keys(c, keys)
    ensures IsGraph(c, keys, blocks)
  {
    hide Proper, Keys, BranchesFit;
    KeyBounds(c, keys);
    blocks := [];
    var begin: int := c.entry;
    for i := 0 to |keys|
      invariant |blocks| == i && (i < |keys| ==> begin == Start(c, keys, i))
      invariant forall b :: 0 <= b < i ==> BlockFits(c, keys, b, blocks[b])
    {
      var k := keys[i];
      var end := if Steers(c.At(k)) then k else c.Next(k);
      var xs := SetupBranches(c, keys, k);
      blocks := blocks + [Block(i, begin, end, xs)];
      NextStarts(c, keys, i);
      begin := c.Next(k);
    }
  }

  lemma NextStarts(c: Code, keys: seq<int>, i: nat)
    requires Proper(c) && Keys(c, keys) && i < |keys|
    ensures i + 1 < |keys| ==> c.Has(keys[i]) && c.Next(keys[i]) == Start(c, keys, i + 1)
  {
    KeyBounds(c, keys);
    if i + 1 < |keys| {
      assert keys[i] < keys[i + 1];
    }
  }

  /** The ranges of all blocks end right after their instructions unless the method can fall off its end. */
  lemma RangesRight(c: Code, keys: seq<int>, blocks: seq<Block>)
    requires Proper(c) && Keys(c, keys) && IsGraph(c, keys, blocks) && c.End() < INVALID
    ensures (forall b :: 0 <= b < |keys| ==> blocks[b].end == keys[b] + if Steers(c.At(keys[b])) then 0 else 1)
            <==> Steers(c.At(c.End() - 1))
  {
    hide Keys, Proper, IsGraph, Steers;
    KeyBounds(c, keys);
    GraphSize(c, keys, blocks);
    var n := |keys| - 1;
    forall b | 0 <= b < |keys|
      ensures blocks[b].end == keys[b] + (if Steers(c.At(keys[b])) then 0 else 1) <==> Steers(c.At(keys[b])) || b < n
    {
      RangeOf(c, keys, blocks, b);
    }
  }

  /** The range of a block holds its instructions except the one that only steers the control flow. */
  lemma RangeCovers(c: Code, keys: seq<int>, blocks: seq<Block>, b: nat, i: nat)
    requires Proper(c) && Keys(c, keys) && IsGraph(c, keys, blocks) && c.End() < INVALID && b < |keys|
    requires !c.At(c.End() - 1).Plain? && !c.At(c.End() - 1).Invoke? && Start(c, keys, b) <= i <= keys[b]
    ensures c.Has(i) && (blocks[b].begin <= i < blocks[b].end <==> c.At(i).Plain? || c.At(i).Invoke?)
  {
    hide Keys, Proper, IsGraph, Follows;
    KeyBounds(c, keys);
    StartBefore(c, keys, b);
    BlockRange(c, keys, blocks, b);
    if i < keys[b] {
      NotKeyInside(c, keys, b, i);
      InsideBlock(c, keys, i);
    } else if b < |keys| - 1 {
      KeysAscend(c, keys, b, |keys| - 1);
    }
  }

  lemma KeysAscend(c: Code, keys: seq<int>, a: nat, b: nat)
    requires Keys(c, keys) && a < b < |keys|
    ensures keys[a] < keys[b]
  {
  }

  lemma BlockRange(c: Code, keys: seq<int>, blocks: seq<Block>, b: nat)
    requires IsGraph(c, keys, blocks) && b < |keys|
    ensures |blocks| == |keys| && c.Has(keys[b]) && blocks[b].begin == Start(c, keys, b)
    ensures blocks[b].end == if Steers(c.At(keys[b])) then keys[b] else c.Next(keys[b])
  {
    hide BranchesFit, Steers;
    assert BlockFits(c, keys, b, blocks[b]);
  }

  lemma RangeOf(c: Code, keys: seq<int>, blocks: seq<Block>, b: nat)
    requires Proper(c) && Keys(c, keys) && IsGraph(c, keys, blocks) && c.End() < INVALID && b < |keys|
    ensures c.Has(keys[b])
    ensures blocks[b].end == keys[b] + (if Steers(c.At(keys[b])) then 0 else 1) <==> Steers(c.At(keys[b])) || b < |keys| - 1
  {
    hide Keys, Proper, IsGraph, Steers;
    KeyBounds(c, keys);
    BlockRange(c, keys, blocks, b);
    if b < |keys| - 1 {
      KeysAscend(c, keys, b, |keys| - 1);
    }
  }

  /** The block of a return is empty. */
  lemma ReturnBlockEmpty(c: Code, keys: seq<int>, blocks: seq<Block>, b: nat)
    requires Proper(c) && Keys(c, keys) && IsGraph(c, keys, blocks) && b < |keys| && c.At(keys[b]) == Return
    ensures blocks[b].begin == blocks[b].end
  {
    assert BlockFits(c, keys, b, blocks[b]);
    AloneInBlock(c, keys, b);
  }

  /** The blocks partition the method: every instruction is in exactly one. */
  lemma BlocksPartition(c: Code, keys: seq<int>, i: nat) returns (b: nat)
    requires Proper(c) && Keys(c, keys) && c.Has(i)
    ensures b < |keys| && Start(c, keys, b) <= i <= keys[b]
    ensures forall a :: 0 <= a < |keys| && Start(c, keys, a) <= i <= keys[a] ==> a == b
  {
    KeyBounds(c, keys);
    b := |keys| - 1;
    while b > 0 && i <= keys[b - 1]
      invariant b < |keys| && i <= keys[b]
    {
      b := b - 1;
    }
    forall a | 0 <= a < |keys| && Start(c, keys, a) <= i <= keys[a]
      ensures a == b
    {
      OneBlock(keys, i, a, b);
    }
  }

  // ---------- linking and pruning ----------

  /** The block each branch leads to; a return branch leads nowhere. */
  method Link(blocks: seq<Block>) returns (links: seq<seq<Option<nat>>>)
    requires forall b, j :: 0 <= b < |blocks| && 0 <= j < |blocks[b].branches| ==> BranchInRange(|blocks|, blocks[b].branches[j])
    ensures |links| == |blocks| && forall b :: 0 <= b < |blocks| ==> LinksOf(blocks[b].branches, links[b])
  {
    links := [];
    for b := 0 to |blocks|
      invariant |links| == b && forall a :: 0 <= a < b ==> LinksOf(blocks[a].branches, links[a])
    {
      var xs, row := blocks[b].branches, [];
      for j := 0 to |xs|
        invariant |row| == j && LinksOf(xs[..j], row)
      {
        assert BranchInRange(|blocks|, xs[j]);
        var link: Option<nat> := if xs[j].disabled || xs[j].isReturn then None else Some(xs[j].blockId);
        row := row + [link];
      }
      assert xs[..|xs|] == xs;
      links := links + [row];
    }
  }

  ghost predicate BranchInRange(n: nat, x: Branch) {
    !x.disabled && !x.isReturn ==> 0 <= x.blockId < n
  }

  ghost predicate LinksOf(xs: seq<Branch>, row: seq<Option<nat>>) {
    |row| == |xs| && forall j :: 0 <= j < |xs| ==>
      row[j] == if xs[j].disabled || xs[j].isReturn || xs[j].blockId < 0 then None else Some(xs[j].blockId)
  }

  lemma GraphInRange(c: Code, keys: seq<int>, blocks: seq<Block>)
    requires IsGraph(c, keys, blocks)
    ensures forall b, j :: 0 <= b < |blocks| && 0 <= j < |blocks[b].branches| ==> BranchInRange(|blocks|, blocks[b].branches[j])
  {
    hide IsGraph, BranchInRange, BranchesFit, Slots;
    GraphSize(c, keys, blocks);
    forall b, j | 0 <= b < |blocks| && 0 <= j < |blocks[b].branches|
      ensures BranchInRange(|blocks|, blocks[b].branches[j])
    {
      BlockBranches(c, keys, blocks, b);
      BranchesInRange(c, keys, keys[b], blocks[b].branches, j);
    }
  }

  lemma BlockBranches(c: Code, keys: seq<int>, blocks: seq<Block>, b: nat)
    requires IsGraph(c, keys, blocks) && b < |keys|
    ensures c.Has(keys[b]) && BranchesFit(c, keys, keys[b], blocks[b].branches)
  {
    hide BranchesFit;
    assert BlockFits(c, keys, b, blocks[b]);
  }

  lemma BranchesInRange(c: Code, keys: seq<int>, k: nat, xs: seq<Branch>, j: nat)
    requires c.Has(k) && BranchesFit(c, keys, k, xs) && j < |xs|
    ensures BranchInRange(|keys|, xs[j])
  {
    hide Slots;
    if c.At(k) != Return {
      assert BranchFits(keys, xs[j], Slots(c, k)[j]);
    }
  }

  ghost predicate EndsAt(blocks: seq<Block>, path: seq<(Guard, nat)>, b: nat) {
    IsPath(blocks, path) && path[|path| - 1].1 == b
  }

  ghost predicate Reachable(blocks: seq<Block>, b: nat) {
    exists path :: EndsAt(blocks, path, b)
  }

  /** Blocks are visited only if they can be reached, and what has just been visited has visited successors. */
  ghost predicate Visited(blocks: seq<Block>, was: seq<bool>, now: seq<bool>) {
    && |was| == |now| == |blocks|
    && (forall b :: 0 <= b < |was| && was[b] ==> now[b])
    && (forall b :: 0 <= b < |was| && now[b] && !was[b] ==> Reachable(blocks, b) && AllFollowed(blocks, b, now))
  }

  ghost predicate AllFollowed(blocks: seq<Block>, b: nat, now: seq<bool>)
    requires b < |blocks|
  {
    forall g, d :: Exit(blocks[b], g, d) ==> 0 <= d < |now| && now[d]
  }

  lemma VisitedThen(blocks: seq<Block>, a: seq<bool>, b: seq<bool>, c: seq<bool>)
    requires Visited(blocks, a, b) && Visited(blocks, b, c)
    ensures Visited(blocks, a, c)
  {
    hide Reachable, Exit;
  }

  function Unvisited(v: seq<bool>): set<int> {
    set b | 0 <= b < |v| && !v[b]
  }

  lemma FewerUnvisited(blocks: seq<Block>, was: seq<bool>, now: seq<bool>)
    requires Visited(blocks, was, now)
    ensures Unvisited(now) <= Unvisited(was)
  {
  }

  lemma ReachNext(blocks: seq<Block>, b: nat, j: nat)
    requires Reachable(blocks, b) && b < |blocks| && j < |blocks[b].branches| && 0 <= blocks[b].branches[j].blockId < |blocks|
    requires !blocks[b].branches[j].disabled && !blocks[b].branches[j].isReturn
    ensures Reachable(blocks, blocks[b].branches[j].blockId)
  {
    hide IsPath;
    var path :| EndsAt(blocks, path, b);
    var x := blocks[b].branches[j];
    assert x == Branch(x.guard, false, x.blockId, false);
    PathNonEmpty(blocks, path);
    PathGrows(blocks, path, (x.guard, x.blockId));
    assert EndsAt(blocks, path + [(x.guard, x.blockId)], x.blockId);
  }

  /** `_dalvik_block_graph_dfs`. */
  method Visit(b: nat, links: seq<seq<Option<nat>>>, visit: array<bool>, ghost blocks: seq<Block>)
    requires |links| == |blocks| == visit.Length && b < |blocks| && Reachable(blocks, b)
    requires forall a :: 0 <= a < |blocks| ==> LinksOf(blocks[a].branches, links[a])
    requires forall a, j :: 0 <= a < |blocks| && 0 <= j < |blocks[a].branches| ==> BranchInRange(|blocks|, blocks[a].branches[j])
    modifies visit
    ensures Visited(blocks, old(visit[..]), visit[..]) && visit[b]
    decreases Unvisited(visit[..])
  {
    hide Visited, Reachable, IsPath, Exit, LinksOf;
    ghost var was := visit[..];
    if visit[b] {
      VisitedSelf(blocks, was);
      return;
    }
    visit[b] := true;
    ghost var begun := visit[..];
    assert begun == was[b := true] && b in Unvisited(was) && Unvisited(begun) < Unvisited(was);
    VisitedSelf(blocks, begun);
    LinkRow(blocks[b].branches, links[b]);
    for j := 0 to |links[b]|
      invariant Visited(blocks, begun, visit[..]) && visit[b]
      invariant forall m :: 0 <= m < j && links[b][m].Some? ==> links[b][m].value < visit.Length && visit[links[b][m].value]
    {
      if links[b][j].Some? {
        ghost var mid := visit[..];
        assert BranchInRange(|blocks|, blocks[b].branches[j]);
        ReachNext(blocks, b, j);
        FewerUnvisited(blocks, begun, mid);
        Visit(links[b][j].value, links, visit, blocks);
        StillVisited(blocks, mid, visit[..]);
        VisitedThen(blocks, begun, mid, visit[..]);
      }
    }
    ghost var now := visit[..];
    RowFollowed(blocks, b, links[b], now);
    VisitedNode(blocks, was, now, b);
  }

  lemma VisitedSelf(blocks: seq<Block>, v: seq<bool>)
    requires |v| == |blocks|
    ensures Visited(blocks, v, v)
  {
  }

  lemma StillVisited(blocks: seq<Block>, was: seq<bool>, now: seq<bool>)
    requires Visited(blocks, was, now)
    ensures |was| == |now| && forall b :: 0 <= b < |was| && was[b] ==> now[b]
  {
  }

  lemma LinkRow(xs: seq<Branch>, row: seq<Option<nat>>)
    requires LinksOf(xs, row)
    ensures |row| == |xs|
    ensures forall j :: 0 <= j < |xs| && row[j].Some? ==> !xs[j].disabled && !xs[j].isReturn && row[j].value == xs[j].blockId
  {
  }

  lemma RowFollowed(blocks: seq<Block>, b: nat, row: seq<Option<nat>>, now: seq<bool>)
    requires b < |blocks| && LinksOf(blocks[b].branches, row)
    requires forall j :: 0 <= j < |blocks[b].branches| ==> BranchInRange(|blocks|, blocks[b].branches[j])
    requires forall m :: 0 <= m < |row| && row[m].Some? ==> row[m].value < |now| && now[row[m].value]
    ensures AllFollowed(blocks, b, now)
  {
    forall g, d | Exit(blocks[b], g, d)
      ensures 0 <= d < |now| && now[d]
    {
      var j :| 0 <= j < |blocks[b].branches| && blocks[b].branches[j] == Branch(g, false, d, false);
      assert BranchInRange(|blocks|, blocks[b].branches[j]);
      assert row[j] == Some(d);
    }
  }

  lemma VisitedNode(blocks: seq<Block>, was: seq<bool>, now: seq<bool>, b: nat)
    requires b < |was| == |blocks| && !was[b] && Visited(blocks, was[b := true], now)
    requires Reachable(blocks, b) && AllFollowed(blocks, b, now)
    ensures Visited(blocks, was, now) && now[b]
  {
    hide Reachable, AllFollowed;
  }

  /** The visit flags are exactly reachability. */
  lemma VisitedIsReachable(blocks: seq<Block>, now: seq<bool>, b: nat)
    requires blocks != [] && Visited(blocks, seq(|blocks|, _ => false), now) && now[0] && b < |blocks|
    ensures now[b] <==> Reachable(blocks, b)
  {
    if Reachable(blocks, b) {
      var path :| EndsAt(blocks, path, b);
      PathVisited(blocks, now, path);
    }
  }

  lemma {:induction false} PathVisited(blocks: seq<Block>, now: seq<bool>, path: seq<(Guard, nat)>)
    requires blocks != [] && Visited(blocks, seq(|blocks|, _ => false), now) && now[0] && IsPath(blocks, path)
    ensures now[path[|path| - 1].1]
  {
    if |path| > 1 {
      PathFront(blocks, path);
      PathVisited(blocks, now, path[..|path| - 1]);
      var p := path[|path| - 2].1;
      assert now[p] && AllFollowed(blocks, p, now);
      assert Exit(blocks[p], path[|path| - 1].0, path[|path| - 1].1);
    }
  }

  /**
   The whole construction. If the keys fit the buffer, the result is the graph of the method, with the
   blocks that cannot be reached marked; otherwise there is none.
   */
  method FromMethod(c: Code, maxKeys: nat) returns (keys: seq<int>, blocks: seq<Block>, kept: seq<bool>)
    requires Proper(c)
    ensures |AllPushes(c)| > maxKeys ==> keys == [] && blocks == []
    ensures |AllPushes(c)| <= maxKeys ==> Keys(c, keys) && IsGraph(c, keys, blocks) && |kept| == |blocks| > 0
    ensures |AllPushes(c)| <= maxKeys ==> forall b :: 0 <= b < |blocks| ==> (kept[b] <==> Reachable(blocks, b))
  {
    hide Proper, AllPushes, Keys, IsGraph, Visited, Reachable, LinksOf;
    var key := new int[maxKeys];
    var kcnt := KeyList(c, key);
    if kcnt == 0 {
      return [], [], [];
    }
    keys := key[..kcnt];
    blocks := BuildBlocks(c, keys);
    GraphSize(c, keys, blocks);
    GraphInRange(c, keys, blocks);
    var links := Link(blocks);
    var visit := new bool[|blocks|](_ => false);
    ghost var none := visit[..];
    assert none == seq(|blocks|, _ => false);
    EntryReachable(blocks);
    Visit(0, links, visit, blocks);
    kept := visit[..];
    forall b | 0 <= b < |blocks|
      ensures kept[b] <==> Reachable(blocks, b)
    {
      VisitedIsReachable(blocks, kept, b);
    }
  }

  lemma GraphSize(c: Code, keys: seq<int>, blocks: seq<Block>)
    requires IsGraph(c, keys, blocks)
    ensures |blocks| == |keys|
  {
  }

  lemma EntryReachable(blocks: seq<Block>)
    requires blocks != []
    ensures Reachable(blocks, 0)
  {
    assert EndsAt(blocks, [(Always, 0)], 0);
  }
}
