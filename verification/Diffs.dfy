/**
 Sectioned diffs and their composition by an N-way merge with one cursor per diff.
 */
module Diffs {
  import opened Values

  const ALLOC := 0
  const REUSE := 1
  const REG := 2
  const STORE := 3
  const DEALLOC := 4
  const NTYPES := 5

  datatype Arg = NoArg | FlagArg(flag: bool) | SetArg(contents: AddrSet) | ValueArg(cell: Value)

  datatype Rec = Rec(addr: nat, arg: Arg)

  // ---------- the simple form: a section is a list of updates of a map ----------

  type Cells = map<nat, Arg>

  /** Performs the updates of `recs` on `cells`, first record first. */
  function Replay(cells: Cells, recs: seq<Rec>): Cells {
    if recs == [] then cells
    else
      var last := recs[|recs| - 1];
      Replay(cells, recs[..|recs| - 1])[last.addr := last.arg]
  }

  /** The updates of a section as a map from address to the value it writes. */
  function Writes(recs: seq<Rec>): Cells {
    Replay(map[], recs)
  }

  /** Performs a sequence of sections on `cells`, first section first. */
  function ReplayAll(cells: Cells, secs: seq<seq<Rec>>): Cells {
    if secs == [] then cells else Replay(ReplayAll(cells, secs[..|secs| - 1]), secs[|secs| - 1])
  }

  ghost predicate WellFormedSection(recs: seq<Rec>) {
    && (forall i, j :: 0 <= i < j < |recs| ==> recs[i].addr < recs[j].addr)
    && (forall i :: 0 <= i < |recs| ==> recs[i].addr < NULL_ADDR)
  }

  lemma {:induction false} ReplayIsOverlay(cells: Cells, recs: seq<Rec>)
    ensures Replay(cells, recs) == cells + Writes(recs)
  {
    if recs != [] {
      ReplayIsOverlay(cells, recs[..|recs| - 1]);
    }
  }

  lemma {:induction false} ReplayCons(cells: Cells, recs: seq<Rec>)
    requires recs != []
    ensures Replay(cells, recs) == Replay(cells[recs[0].addr := recs[0].arg], recs[1..])
  {
    var n := |recs| - 1;
    if n > 0 {
      ReplayCons(cells, recs[..n]);
      assert recs[..n][1..] == recs[1..][..n - 1];
    }
  }

  lemma {:induction false} ReplayAllIsOverlay(cells: Cells, secs: seq<seq<Rec>>)
    ensures ReplayAll(cells, secs) == cells + ReplayAll(map[], secs)
  {
    if secs != [] {
      var front, last := secs[..|secs| - 1], secs[|secs| - 1];
      ReplayAllIsOverlay(cells, front);
      ReplayIsOverlay(ReplayAll(cells, front), last);
      ReplayIsOverlay(ReplayAll(map[], front), last);
    }
  }

  /** The addresses a section touches. */
  function Addrs(recs: seq<Rec>): set<nat> {
    set r | r in recs :: r.addr
  }

  lemma {:induction false} WritesKeys(recs: seq<Rec>)
    ensures Writes(recs).Keys == Addrs(recs)
  {
    if recs != [] {
      var n := |recs| - 1;
      WritesKeys(recs[..n]);
      assert recs == recs[..n] + [recs[n]];
    }
  }

  lemma WritesSnoc(recs: seq<Rec>, r: Rec)
    ensures Writes(recs + [r]) == Writes(recs)[r.addr := r.arg]
  {
    assert (recs + [r])[..|recs|] == recs;
  }

  lemma WritesReplaceLast(recs: seq<Rec>, r: Rec)
    requires recs != [] && recs[|recs| - 1].addr == r.addr
    ensures Writes(recs[|recs| - 1 := r]) == Writes(recs)[r.addr := r.arg]
  {
    var n := |recs| - 1;
    assert recs[n := r] == recs[..n] + [r];
    assert recs == recs[..n] + [recs[n]];
    WritesSnoc(recs[..n], r);
    WritesSnoc(recs[..n], recs[n]);
  }

  /** A sorted section writes at each of its addresses exactly the argument of its record there. */
  lemma {:induction false} WritesAt(recs: seq<Rec>, i: nat)
    requires WellFormedSection(recs) && i < |recs|
    ensures recs[i].addr in Writes(recs) && Writes(recs)[recs[i].addr] == recs[i].arg
  {
    var n := |recs| - 1;
    if i < n {
      assert recs[..n][i] == recs[i];
      WritesAt(recs[..n], i);
    }
  }

  // ---------- the fast form: sorted arrays with a cursor per diff ----------

  /** The packed layout: section `s` is `data[offset[s]..offset[s + 1]]`; `data[..offset[0]]` is unused. */
  datatype Layout = Layout(offset: seq<int>, data: seq<Rec>) {
    ghost predicate Shaped() {
      && |offset| == NTYPES + 1
      && 0 <= offset[0] <= offset[1] <= offset[2] <= offset[3] <= offset[4] <= offset[5] <= |data|
    }

    ghost function Section(s: int): (r: seq<Rec>)
      requires Shaped() && 0 <= s < NTYPES
    {
      data[offset[s]..offset[s + 1]]
    }

    ghost predicate Valid() {
      && Shaped()
      && forall s :: 0 <= s < NTYPES ==> WellFormedSection(Section(s))
    }
  }

  type Package = p: Layout | p.Valid() witness Layout([0, 0, 0, 0, 0, 0], [])

  ghost predicate PackedAt(offs: seq<int>, data: seq<Rec>, outs: seq<seq<Rec>>, t: int) {
    && 0 <= t < |outs| && t + 1 < |offs|
    && 0 <= offs[t] <= offs[t + 1] <= offs[|offs| - 1] <= |data|
    && data[offs[t]..offs[t + 1]] == outs[t]
  }

  /** `data` starts with the sections `outs` one after the other, delimited by `offs`. */
  ghost predicate Packed(offs: seq<int>, data: seq<Rec>, outs: seq<seq<Rec>>) {
    && |offs| == |outs| + 1 && offs[0] == 0
    && forall t :: 0 <= t < |outs| ==> PackedAt(offs, data, outs, t)
  }

  lemma PackedNone(data: seq<Rec>)
    ensures Packed([0], data, [])
  {
  }

  lemma PackNext(offs: seq<int>, was: seq<Rec>, data: seq<Rec>, outs: seq<seq<Rec>>, end: int)
    requires Packed(offs, was, outs)
    requires 0 <= offs[|outs|] <= end <= |data| == |was| && data[..offs[|outs|]] == was[..offs[|outs|]]
    ensures Packed(offs + [end], data, outs + [data[offs[|outs|]..end]])
  {
    var n := offs[|outs|];
    forall t | 0 <= t < |outs|
      ensures PackedAt(offs + [end], data, outs + [data[n..end]], t)
    {
      assert PackedAt(offs, was, outs, t);
      assert data[offs[t]..offs[t + 1]] == data[..n][offs[t]..offs[t + 1]];
      assert was[offs[t]..offs[t + 1]] == was[..n][offs[t]..offs[t + 1]];
    }
  }

  lemma PackedLayout(offs: seq<int>, data: seq<Rec>, outs: seq<seq<Rec>>)
    requires Packed(offs, data, outs) && |outs| == NTYPES
    requires forall t :: 0 <= t < NTYPES ==> WellFormedSection(outs[t])
    ensures Layout(offs, data).Valid()
    ensures forall s :: 0 <= s < NTYPES ==> Layout(offs, data).Section(s) == outs[s]
  {
    assert PackedAt(offs, data, outs, 0) && PackedAt(offs, data, outs, 1) && PackedAt(offs, data, outs, 2);
    assert PackedAt(offs, data, outs, 3) && PackedAt(offs, data, outs, 4);
    forall s | 0 <= s < NTYPES
      ensures Layout(offs, data).Section(s) == outs[s]
    {
      assert PackedAt(offs, data, outs, s);
    }
  }

  /** A diff that has been built: from then on only its merge cursor changes. */
  class Diff {
    /** `_index`: the merge cursor; it belongs to the diff and not to the merge. */
    var index: int
    const pkg: Package

    constructor (pkg: Package)
      ensures this.pkg == pkg
    {
      this.pkg := pkg;
      this.index := 0;
    }

    ghost function Section(s: int): seq<Rec>
      requires 0 <= s < NTYPES
    {
      pkg.Section(s)
    }
  }

  /**
   What merging the arguments of one section writes. A cursor lives in its diff, so a diff that is
   passed twice is consumed at its first position and is empty by the time the second is reached.
   */
  ghost function Merged(args: seq<Diff>, s: int): Cells
    requires 0 <= s < NTYPES
  {
    if args == [] then map[]
    else
      var n := |args| - 1;
      var front := Merged(args[..n], s);
      if args[n] in args[..n] then front else front + Writes(args[n].Section(s))
  }

  /** Position `c` separates the records of `sec` below `lo` from the others. */
  ghost predicate Split(sec: seq<Rec>, c: int, lo: int) {
    && 0 <= c <= |sec|
    && (forall k :: 0 <= k < c ==> sec[k].addr < lo)
    && (forall k :: c <= k < |sec| ==> lo <= sec[k].addr)
  }

  ghost predicate CursorAt(d: Diff, s: int, lo: int)
    requires 0 <= s < NTYPES
    reads d`index
  {
    Split(d.Section(s), d.index - d.pkg.offset[s], lo)
  }

  ghost predicate CursorsAt(args: seq<Diff>, s: int, lo: int)
    requires 0 <= s < NTYPES
    reads args`index
  {
    forall j :: 0 <= j < |args| ==> CursorAt(args[j], s, lo)
  }

  lemma WritesNothingAt(recs: seq<Rec>, a: int)
    requires forall k :: 0 <= k < |recs| ==> recs[k].addr != a
    ensures a !in Writes(recs)
  {
    WritesKeys(recs);
  }

  /** Reads the address under the cursor of `d`, `NULL_ADDR` at the end of the section. */
  method Peek(d: Diff, s: int, ghost lo: int) returns (a: nat)
    requires 0 <= s < NTYPES && CursorAt(d, s, lo) && lo <= NULL_ADDR
    ensures lo <= a <= NULL_ADDR
    ensures forall m :: lo <= m <= a ==> CursorAt(d, s, m)
    ensures a < NULL_ADDR ==> a in Writes(d.Section(s))
  {
    a := NULL_ADDR;
    ghost var sec := d.Section(s);
    if d.index < d.pkg.offset[s + 1] {
      a := d.pkg.data[d.index].addr;
      assert sec[d.index - d.pkg.offset[s]].addr == a;
      WritesAt(sec, d.index - d.pkg.offset[s]);
    }
  }

  /** The minimal address under any cursor, `NULL_ADDR` when every cursor is at the end. */
  method NextAddress(args: seq<Diff>, s: int, ghost lo: int) returns (cur: nat)
    requires 0 <= s < NTYPES && CursorsAt(args, s, lo) && lo <= NULL_ADDR
    ensures lo <= cur <= NULL_ADDR && CursorsAt(args, s, cur)
    ensures cur < NULL_ADDR ==> exists i :: 0 <= i < |args| && cur in Writes(args[i].Section(s))
  {
    hide CursorAt, Writes;
    cur := NULL_ADDR;
    for i := 0 to |args|
      invariant lo <= cur <= NULL_ADDR
      invariant forall j, m :: 0 <= j < i && lo <= m <= cur ==> CursorAt(args[j], s, m)
      invariant cur < NULL_ADDR ==> exists j :: 0 <= j < i && cur in Writes(args[j].Section(s))
    {
      var a := Peek(args[i], s, lo);
      if a < cur {
        cur := a;
      }
    }
  }

  /** Consumes the record of `d` at `cur`, if its cursor stands there. */
  method Take(d: Diff, s: int, cur: nat, ghost lo: int, buf: array<Rec>, pos: int) returns (taken: bool)
    requires 0 <= s < NTYPES && CursorAt(d, s, lo) && cur <= lo <= cur + 1 && 0 <= pos < buf.Length
    modifies d`index, buf
    ensures CursorAt(d, s, cur + 1)
    ensures taken <==> lo == cur && cur in Writes(d.Section(s))
    ensures taken ==> buf[pos].addr == cur && (s != DEALLOC ==> buf[pos].arg == Writes(d.Section(s))[cur])
    ensures !taken ==> buf[pos] == old(buf[pos])
    ensures forall k :: 0 <= k < buf.Length && k != pos ==> buf[k] == old(buf[k])
  {
    ghost var sec := d.Section(s);
    ghost var c := d.index - d.pkg.offset[s];
    SplitRange(sec, c, lo);
    hide Split, Writes;
    taken := false;
    if d.index < d.pkg.offset[s + 1] && d.pkg.data[d.index].addr == cur {
      assert sec[c].addr == cur;
      TakeAt(sec, c, lo, cur);
      if s != DEALLOC {
        buf[pos] := buf[pos].(arg := d.pkg.data[d.index].arg);
      }
      buf[pos] := buf[pos].(addr := cur);
      d.index := d.index + 1;
      taken := true;
    } else {
      assert c < |sec| ==> sec[c].addr != cur;
      PassAt(sec, c, lo, cur);
    }
  }

  lemma SplitRange(sec: seq<Rec>, c: int, lo: int)
    requires Split(sec, c, lo)
    ensures 0 <= c <= |sec|
  {
  }

  lemma TakeAt(sec: seq<Rec>, c: int, lo: int, cur: nat)
    requires WellFormedSection(sec) && Split(sec, c, lo) && 0 <= c < |sec| && sec[c].addr == cur <= lo <= cur + 1
    ensures lo == cur && Split(sec, c + 1, cur + 1) && cur in Writes(sec) && Writes(sec)[cur] == sec[c].arg
  {
    hide Writes;
    WritesAt(sec, c);
  }

  lemma PassAt(sec: seq<Rec>, c: int, lo: int, cur: nat)
    requires Split(sec, c, lo) && cur <= lo <= cur + 1 && (c < |sec| ==> sec[c].addr != cur) && WellFormedSection(sec)
    ensures Split(sec, c, cur + 1) && (lo == cur ==> cur !in Writes(sec))
  {
    if lo == cur {
      WritesNothingAt(sec, cur);
    }
  }

  /**
   Emits the record for address `cur`: of all the diffs that have one, the last wins. Every cursor
   that stood at `cur` moves past it.
   */
  method MergeAddress(args: seq<Diff>, s: int, cur: nat, buf: array<Rec>, pos: int)
    requires 0 <= s < NTYPES && CursorsAt(args, s, cur) && 0 <= pos < buf.Length
    modifies args`index, buf
    ensures CursorsAt(args, s, cur + 1)
    ensures cur in Merged(args, s) ==> buf[pos].addr == cur && (s != DEALLOC ==> buf[pos].arg == Merged(args, s)[cur])
    ensures forall k :: 0 <= k < buf.Length && k != pos ==> buf[k] == old(buf[k])
  {
    hide CursorAt, Writes;
    for i := 0 to |args|
      invariant forall j :: 0 <= j < |args| ==> CursorAt(args[j], s, if args[j] in args[..i] then cur + 1 else cur)
      invariant cur in Merged(args[..i], s) ==>
          buf[pos].addr == cur && (s != DEALLOC ==> buf[pos].arg == Merged(args[..i], s)[cur])
      invariant forall k :: 0 <= k < buf.Length && k != pos ==> buf[k] == old(buf[k])
    {
      assert args[..i + 1][..i] == args[..i];
      var _ := Take(args[i], s, cur, if args[i] in args[..i] then cur + 1 else cur, buf, pos);
    }
    assert args[..|args|] == args;
  }

  lemma {:induction false} MergedKeys(args: seq<Diff>, s: int, a: nat)
    requires 0 <= s < NTYPES
    ensures a in Merged(args, s) <==> exists i :: 0 <= i < |args| && a in Writes(args[i].Section(s))
  {
    if args != [] {
      var n := |args| - 1;
      MergedKeys(args[..n], s, a);
      if args[n] in args[..n] && a in Writes(args[n].Section(s)) {
        var i :| 0 <= i < n && args[i] == args[n];
        assert args[..n][i] == args[n];
      }
      assert forall i :: 0 <= i < n ==> args[..n][i] == args[i];
    }
  }

  /** The addresses of `m` below `lo`. */
  ghost function Below(m: Cells, lo: int): set<nat> {
    set a | a in m && a < lo
  }

  /** `out` holds, in order, one record for each address of `m` below `lo`. */
  ghost predicate Emitted(out: seq<Rec>, m: Cells, lo: int, s: int) {
    && WellFormedSection(out)
    && Addrs(out) == Below(m, lo)
    && |out| == |Below(m, lo)|
    && forall k :: 0 <= k < |out| ==>
        out[k].addr in m && out[k].addr < lo && (s != DEALLOC ==> out[k].arg == m[out[k].addr])
  }

  lemma SplitGap(sec: seq<Rec>, c: int, lo: int, hi: int, a: nat)
    requires Split(sec, c, lo) && Split(sec, c, hi) && lo <= a < hi
    ensures a !in Writes(sec)
  {
    WritesNothingAt(sec, a);
  }

  /** No argument has a record between two bounds that the same cursors satisfy. */
  lemma NoneBetween(args: seq<Diff>, s: int, lo: int, hi: int)
    requires 0 <= s < NTYPES && CursorsAt(args, s, lo) && CursorsAt(args, s, hi)
    ensures forall a :: lo <= a < hi ==> a !in Merged(args, s)
    ensures lo <= hi ==> Below(Merged(args, s), hi) == Below(Merged(args, s), lo)
  {
    forall a: nat | lo <= a < hi
      ensures a !in Merged(args, s)
    {
      MergedKeys(args, s, a);
      forall i | 0 <= i < |args|
        ensures a !in Writes(args[i].Section(s))
      {
        SplitGap(args[i].Section(s), args[i].index - args[i].pkg.offset[s], lo, hi, a);
      }
    }
  }

  lemma EmittedNext(out: seq<Rec>, rec: Rec, m: Cells, s: int)
    requires rec.addr in m && rec.addr < NULL_ADDR && Emitted(out, m, rec.addr, s)
    requires s != DEALLOC ==> rec.arg == m[rec.addr]
    ensures Emitted(out + [rec], m, rec.addr + 1, s)
  {
    var out' := out + [rec];
    assert Below(m, rec.addr + 1) == Below(m, rec.addr) + {rec.addr};
    assert Addrs(out') == Addrs(out) + {rec.addr} by {
      assert rec == out'[|out|];
      assert forall r :: r in out' <==> r in out || r == rec;
    }
  }

  /** Appends the record for the minimal pending address to the section built so far. */
  method EmitAddress(args: seq<Diff>, s: int, cur: nat, buf: array<Rec>, ghost begin: nat, end: nat, ghost out: seq<Rec>)
      returns (ghost out': seq<Rec>)
    requires 0 <= s < NTYPES && CursorsAt(args, s, cur) && cur in Merged(args, s) && cur < NULL_ADDR
    requires begin <= end < buf.Length && buf[begin..end] == out && Emitted(out, Merged(args, s), cur, s)
    modifies args`index, buf
    ensures CursorsAt(args, s, cur + 1)
    ensures buf[begin..end + 1] == out' && Emitted(out', Merged(args, s), cur + 1, s)
    ensures buf[..begin] == old(buf[..begin])
  {
    MergeAddress(args, s, cur, buf, end);
    out' := out + [buf[end]];
    assert buf[begin..end + 1] == buf[begin..end] + [buf[end]];
    EmittedNext(out, buf[end], Merged(args, s), s);
  }

  /** Merges one section of all the arguments into `buf` from `begin` on. */
  method MergeSection(args: seq<Diff>, s: int, buf: array<Rec>, begin: nat) returns (end: nat)
    requires 0 <= s < NTYPES && CursorsAt(args, s, 0)
    requires begin + |Below(Merged(args, s), NULL_ADDR)| <= buf.Length
    modifies args`index, buf
    ensures CursorsAt(args, s, NULL_ADDR)
    ensures begin <= end <= buf.Length && buf[..begin] == old(buf[..begin])
    ensures Emitted(buf[begin..end], Merged(args, s), NULL_ADDR, s)
  {
    hide Emitted, CursorsAt, Merged, Below;
    ghost var lo, out := 0, [];
    EmittedNone(Merged(args, s), s);
    end := begin;
    while true
      invariant 0 <= lo <= NULL_ADDR && CursorsAt(args, s, lo)
      invariant begin <= end <= buf.Length && buf[..begin] == old(buf[..begin])
      invariant buf[begin..end] == out && Emitted(out, Merged(args, s), lo, s)
      decreases NULL_ADDR - lo
    {
      var cur := NextAddress(args, s, lo);
      NoneBetween(args, s, lo, cur);
      Advance(out, Merged(args, s), lo, cur, s);
      if cur == NULL_ADDR {
        return;
      }
      MergedKeys(args, s, cur);
      RoomLeft(Merged(args, s), cur);
      out := EmitAddress(args, s, cur, buf, begin, end, out);
      end := end + 1;
      lo := cur + 1;
    }
  }

  lemma EmittedNone(m: Cells, s: int)
    ensures Emitted([], m, 0, s)
  {
    assert Below(m, 0) == {};
  }

  lemma Advance(out: seq<Rec>, m: Cells, lo: int, hi: int, s: int)
    requires Emitted(out, m, lo, s) && lo <= hi && Below(m, hi) == Below(m, lo)
    ensures Emitted(out, m, hi, s)
  {
  }

  lemma RoomLeft(m: Cells, a: nat)
    requires a in m && a < NULL_ADDR
    ensures |Below(m, a)| < |Below(m, NULL_ADDR)|
  {
    Smaller(Below(m, a) + {a}, Below(m, NULL_ADDR));
  }

  // ---------- the sizing pass ----------

  /** In the sizing pass the cursors that stand at `lo` move past it one at a time. */
  ghost predicate CursorsNear(args: seq<Diff>, s: int, lo: int)
    requires 0 <= s < NTYPES
    reads args`index
  {
    forall j :: 0 <= j < |args| ==> CursorAt(args[j], s, lo) || CursorAt(args[j], s, lo + 1)
  }

  /** The arguments whose cursor has not passed `lo` yet. */
  ghost function Waiting(args: seq<Diff>, s: int, lo: int): set<int>
    requires 0 <= s < NTYPES
    reads args`index
  {
    set j | 0 <= j < |args| && !CursorAt(args[j], s, lo + 1)
  }

  /** Finds the first argument with a minimal address under its cursor. */
  method NextArgument(args: seq<Diff>, s: int, ghost lo: int) returns (cur: nat, idx: int)
    requires 0 <= s < NTYPES && CursorsNear(args, s, lo) && -1 <= lo < NULL_ADDR
    ensures lo <= cur <= NULL_ADDR && 0 <= cur
    ensures lo < cur ==> CursorsAt(args, s, cur) && CursorsAt(args, s, lo + 1)
    ensures cur < NULL_ADDR ==> 0 <= idx < |args| && CursorAt(args[idx], s, cur) && cur in Writes(args[idx].Section(s))
  {
    hide CursorAt, Writes;
    cur, idx := NULL_ADDR, 0;
    for i := 0 to |args|
      invariant lo <= cur <= NULL_ADDR
      invariant forall j, m :: 0 <= j < i && lo < m <= cur ==> CursorAt(args[j], s, m)
      invariant cur < NULL_ADDR ==> 0 <= idx < i && CursorAt(args[idx], s, cur) && cur in Writes(args[idx].Section(s))
    {
      assert CursorAt(args[i], s, lo) || CursorAt(args[i], s, lo + 1);
      var a := Peek(args[i], s, if CursorAt(args[i], s, lo) then lo else lo + 1);
      if a < cur {
        cur, idx := a, i;
      }
    }
  }

  lemma PendingRecord(sec: seq<Rec>, c: int, a: nat)
    requires WellFormedSection(sec) && Split(sec, c, a) && a in Writes(sec)
    ensures !Split(sec, c, a + 1) && c < |sec| && sec[c].addr == a && Split(sec, c + 1, a + 1)
  {
    WritesKeys(sec);
    var k :| 0 <= k < |sec| && sec[k].addr == a;
  }

  /** Moves the cursor of `d` past `cur`. */
  method Step(d: Diff, s: int, ghost cur: nat)
    requires 0 <= s < NTYPES && CursorAt(d, s, cur) && cur in Writes(d.Section(s))
    modifies d`index
    ensures !old(CursorAt(d, s, cur + 1)) && CursorAt(d, s, cur + 1)
  {
    PendingRecord(d.Section(s), d.index - d.pkg.offset[s], cur);
    d.index := d.index + 1;
  }

  lemma CountNext(m: Cells, lo: int, a: nat)
    requires a in m && lo <= a && Below(m, a) == Below(m, lo)
    ensures |Below(m, a + 1)| == |Below(m, lo)| + 1
  {
    assert Below(m, a + 1) == Below(m, a) + {a};
  }

  lemma NoneBelow(m: Cells)
    ensures Below(m, 0) == {}
  {
  }

  /** Counts the distinct addresses of one section over all the arguments. */
  method CountSection(args: seq<Diff>, s: int) returns (count: nat)
    requires 0 <= s < NTYPES && CursorsAt(args, s, 0)
    modifies args`index
    ensures CursorsAt(args, s, NULL_ADDR)
    ensures count == |Below(Merged(args, s), NULL_ADDR)|
  {
    hide Merged, CursorAt, Writes, Below;
    var prev := NULL_ADDR;
    ghost var lo := -1;
    count := 0;
    NoneBelow(Merged(args, s));
    while true
      invariant -1 <= lo < NULL_ADDR && prev == (if lo == -1 then NULL_ADDR else lo)
      invariant CursorsNear(args, s, lo) && count == |Below(Merged(args, s), lo + 1)|
      decreases NULL_ADDR - lo, Waiting(args, s, lo)
    {
      var cur, idx := NextArgument(args, s, lo);
      if lo < cur {
        NoneBetween(args, s, lo + 1, cur);
      }
      if cur == NULL_ADDR {
        return;
      }
      MergedKeys(args, s, cur);
      ghost var waiting := Waiting(args, s, cur);
      label before:
      Step(args[idx], s, cur);
      assert idx in waiting && idx !in Waiting(args, s, cur);
      assert Waiting(args, s, cur) <= waiting by {
        assert forall j :: 0 <= j < |args| && args[j] != args[idx] ==>
            CursorAt(args[j], s, cur + 1) == old@before(CursorAt(args[j], s, cur + 1));
      }
      if prev != cur {
        CountNext(Merged(args, s), lo + 1, cur);
        count := count + 1;
      }
      prev := cur;
      lo := cur;
    }
  }

  // ---------- composition ----------

  /** Puts every cursor at the first record of its diff. */
  method Rewind(args: seq<Diff>)
    modifies args`index
    ensures CursorsAt(args, 0, 0)
  {
    for i := 0 to |args|
      invariant forall j :: 0 <= j < i ==> args[j].index == args[j].pkg.offset[0]
    {
      args[i].index := args[i].pkg.offset[0];
    }
  }

  lemma BelowNull(sec: seq<Rec>, c: int)
    requires WellFormedSection(sec) && 0 <= c < |sec|
    ensures sec[c].addr < NULL_ADDR
  {
  }

  lemma AtSectionEnd(d: Diff, s: int)
    requires 0 <= s < NTYPES - 1 && CursorAt(d, s, NULL_ADDR)
    ensures CursorAt(d, s + 1, 0)
  {
    var sec, c := d.Section(s), d.index - d.pkg.offset[s];
    if c < |sec| {
      BelowNull(sec, c);
    }
  }

  lemma NextSection(args: seq<Diff>, s: int)
    requires 0 <= s < NTYPES - 1 && CursorsAt(args, s, NULL_ADDR)
    ensures CursorsAt(args, s + 1, 0)
  {
    forall j | 0 <= j < |args|
      ensures CursorAt(args[j], s + 1, 0)
    {
      AtSectionEnd(args[j], s);
    }
  }

  /** The number of distinct addresses in the sections before `s`. */
  ghost function TotalBefore(args: seq<Diff>, s: int): nat
    requires 0 <= s <= NTYPES
  {
    if s == 0 then 0 else TotalBefore(args, s - 1) + |Below(Merged(args, s - 1), NULL_ADDR)|
  }

  /** The number of records the composition of `args` needs. */
  method ResultSize(args: seq<Diff>) returns (size: nat)
    modifies args`index
    ensures size == TotalBefore(args, NTYPES)
  {
    hide CursorsAt, Below, Merged;
    Rewind(args);
    size := 0;
    for s := 0 to NTYPES
      invariant s < NTYPES ==> CursorsAt(args, s, 0)
      invariant size == TotalBefore(args, s)
    {
      var count := CountSection(args, s);
      size := size + count;
      if s < NTYPES - 1 {
        NextSection(args, s);
      }
    }
  }

  lemma {:induction false} TotalGrows(args: seq<Diff>, s: int, t: int)
    requires 0 <= s <= t <= NTYPES
    ensures TotalBefore(args, s) <= TotalBefore(args, t)
  {
    if s < t {
      TotalGrows(args, s, t - 1);
    }
  }

  lemma TotalStep(args: seq<Diff>, s: int)
    requires 0 <= s < NTYPES
    ensures TotalBefore(args, s + 1) == TotalBefore(args, s) + |Below(Merged(args, s), NULL_ADDR)|
    ensures TotalBefore(args, s + 1) <= TotalBefore(args, NTYPES)
  {
    TotalGrows(args, s + 1, NTYPES);
  }

  lemma EmittedLength(out: seq<Rec>, m: Cells, lo: int, s: int)
    requires Emitted(out, m, lo, s)
    ensures |out| == |Below(m, lo)| && WellFormedSection(out)
  {
  }

  /** Each of the sections `outs` is the merge of that section of `args`. */
  ghost predicate AllMerged(args: seq<Diff>, outs: seq<seq<Rec>>) {
    |outs| <= NTYPES && forall t :: 0 <= t < |outs| ==> Emitted(outs[t], Merged(args, t), NULL_ADDR, t)
  }

  /** Appends the merge of section `s` to the sections built so far. */
  method AppendSection(args: seq<Diff>, s: int, buf: array<Rec>, offs: seq<int>, ghost outs: seq<seq<Rec>>)
      returns (end: nat, ghost out: seq<Rec>)
    requires 0 <= s < NTYPES && CursorsAt(args, s, 0) && |outs| == s && |offs| == s + 1 && offs[s] == TotalBefore(args, s)
    requires Packed(offs, buf[..], outs) && AllMerged(args, outs) && buf.Length == TotalBefore(args, NTYPES)
    modifies args`index, buf
    ensures CursorsAt(args, s, NULL_ADDR) && end == TotalBefore(args, s + 1)
    ensures Packed(offs + [end], buf[..], outs + [out]) && AllMerged(args, outs + [out])
  {
    hide Emitted, Merged, CursorsAt, Packed, Below, TotalBefore;
    TotalStep(args, s);
    ghost var before := buf[..];
    end := MergeSection(args, s, buf, offs[s]);
    out := buf[offs[s]..end];
    EmittedLength(out, Merged(args, s), NULL_ADDR, s);
    assert buf[..][offs[s]..end] == out;
    assert buf[..][..offs[s]] == before[..offs[s]];
    PackNext(offs, before, buf[..], outs, end);
  }

  /** Merges the sections one after the other. */
  method MergeSections(args: seq<Diff>, buf: array<Rec>) returns (offs: seq<int>, ghost outs: seq<seq<Rec>>)
    requires CursorsAt(args, 0, 0) && buf.Length == TotalBefore(args, NTYPES)
    modifies args`index, buf
    ensures |offs| == NTYPES + 1 && offs[NTYPES] == buf.Length
    ensures |outs| == NTYPES && Packed(offs, buf[..], outs)
    ensures AllMerged(args, outs)
  {
    offs, outs := [0], [];
    PackedNone(buf[..]);
    assert TotalBefore(args, 0) == 0;
    hide *;
    for s := 0 to NTYPES
      invariant s < NTYPES ==> CursorsAt(args, s, 0)
      invariant |offs| == s + 1 && offs[s] == TotalBefore(args, s)
      invariant |outs| == s && Packed(offs, buf[..], outs)
      invariant AllMerged(args, outs)
    {
      var end, out := AppendSection(args, s, buf, offs, outs);
      offs, outs := offs + [end], outs + [out];
      if s < NTYPES - 1 {
        NextSection(args, s);
      }
    }
  }

  lemma MergedLayout(args: seq<Diff>, offs: seq<int>, data: seq<Rec>, outs: seq<seq<Rec>>)
    requires |outs| == NTYPES && Packed(offs, data, outs) && AllMerged(args, outs)
    ensures Layout(offs, data).Valid() && offs[0] == 0
    ensures forall s :: 0 <= s < NTYPES ==> Emitted(Layout(offs, data).Section(s), Merged(args, s), NULL_ADDR, s)
  {
    hide Emitted, Merged;
    forall t | 0 <= t < NTYPES
      ensures WellFormedSection(outs[t])
    {
      EmittedLength(outs[t], Merged(args, t), NULL_ADDR, t);
    }
    PackedLayout(offs, data, outs);
  }

  /**
   The composition of `args`, first diff first: the merge of every section. The buffer it allocates
   is filled exactly.
   */
  method Compose(args: seq<Diff>) returns (ret: Diff)
    modifies args`index
    ensures fresh(ret)
    ensures ret.pkg.offset[0] == 0 && ret.pkg.offset[NTYPES] == |ret.pkg.data|
    ensures forall s :: 0 <= s < NTYPES ==> Emitted(ret.Section(s), Merged(args, s), NULL_ADDR, s)
  {
    if |args| == 0 {
      assert forall s :: 0 <= s < NTYPES ==> Below(Merged(args, s), NULL_ADDR) == {};
      ret := new Diff(Layout([0, 0, 0, 0, 0, 0], []));
      return;
    }
    hide Emitted, Merged;
    var size := ResultSize(args);
    var buf := new Rec[size];
    Rewind(args);
    var offs, outs := MergeSections(args, buf);
    MergedLayout(args, offs, buf[..], outs);
    ret := new Diff(Layout(offs, buf[..]));
  }

  // ---------- composition is an action ----------

  ghost function Sections(args: seq<Diff>, s: int): (r: seq<seq<Rec>>)
    requires 0 <= s < NTYPES
    ensures |r| == |args|
    ensures forall i :: 0 <= i < |args| ==> r[i] == args[i].Section(s)
  {
    if args == [] then [] else Sections(args[..|args| - 1], s) + [args[|args| - 1].Section(s)]
  }

  lemma EmittedWrites(out: seq<Rec>, m: Cells, s: int)
    requires Emitted(out, m, NULL_ADDR, s) && s != DEALLOC && (forall a :: a in m ==> a < NULL_ADDR)
    ensures Writes(out) == m
  {
    WritesKeys(out);
    assert Below(m, NULL_ADDR) == m.Keys;
    forall a | a in m
      ensures Writes(out)[a] == m[a]
    {
      assert a in Addrs(out);
      var k :| 0 <= k < |out| && out[k].addr == a;
      WritesAt(out, k);
    }
  }

  lemma MergedBelowNull(args: seq<Diff>, s: int)
    requires 0 <= s < NTYPES
    ensures forall a :: a in Merged(args, s) ==> a < NULL_ADDR
  {
    forall a | a in Merged(args, s)
      ensures a < NULL_ADDR
    {
      MergedKeys(args, s, a);
      var i :| 0 <= i < |args| && a in Writes(args[i].Section(s));
      WritesKeys(args[i].Section(s));
    }
  }

  /** `args` with every repeat of an earlier object removed. */
  ghost function FirstOccurrences(args: seq<Diff>): seq<Diff> {
    if args == [] then []
    else
      var n := |args| - 1;
      FirstOccurrences(args[..n]) + if args[n] in args[..n] then [] else [args[n]]
  }

  lemma SectionsSnoc(args: seq<Diff>, d: Diff, s: int)
    requires 0 <= s < NTYPES
    ensures ReplayAll(map[], Sections(args + [d], s)) == Replay(ReplayAll(map[], Sections(args, s)), d.Section(s))
  {
    assert (args + [d])[..|args|] == args;
    var secs := Sections(args + [d], s);
    assert secs == Sections(args, s) + [d.Section(s)];
    assert secs[..|args|] == Sections(args, s);
  }

  lemma {:induction false} MergedReplays(args: seq<Diff>, s: int)
    requires 0 <= s < NTYPES
    ensures Merged(args, s) == ReplayAll(map[], Sections(FirstOccurrences(args), s))
  {
    if args == [] {
      return;
    }
    hide Sections, ReplayAll, Replay, Writes;
    var n := |args| - 1;
    MergedReplays(args[..n], s);
    var front := FirstOccurrences(args[..n]);
    if args[n] in args[..n] {
      assert FirstOccurrences(args) == front;
    } else {
      assert FirstOccurrences(args) == front + [args[n]];
      SectionsSnoc(front, args[n], s);
      ReplayIsOverlay(Merged(args[..n], s), args[n].Section(s));
    }
  }

  lemma {:induction false} DistinctKept(args: seq<Diff>)
    requires forall i, j :: 0 <= i < j < |args| ==> args[i] != args[j]
    ensures FirstOccurrences(args) == args
  {
    if args != [] {
      DistinctKept(args[..|args| - 1]);
    }
  }

  /**
   Replaying a composed section is replaying the sections of its arguments in order, each repeated
   diff at its first position only.
   */
  lemma ComposeActs(args: seq<Diff>, s: int, out: seq<Rec>, cells: Cells)
    requires 0 <= s < NTYPES && s != DEALLOC && Emitted(out, Merged(args, s), NULL_ADDR, s)
    ensures Replay(cells, out) == ReplayAll(cells, Sections(FirstOccurrences(args), s))
  {
    MergedBelowNull(args, s);
    EmittedWrites(out, Merged(args, s), s);
    MergedReplays(args, s);
    ReplayIsOverlay(cells, out);
    ReplayAllIsOverlay(cells, Sections(FirstOccurrences(args), s));
  }

  /** Composition is an action: for distinct diffs, replaying the result is replaying them one by one. */
  lemma ComposeIsAction(args: seq<Diff>, s: int, out: seq<Rec>, cells: Cells)
    requires 0 <= s < NTYPES && s != DEALLOC && Emitted(out, Merged(args, s), NULL_ADDR, s)
    requires forall i, j :: 0 <= i < j < |args| ==> args[i] != args[j]
    ensures Replay(cells, out) == ReplayAll(cells, Sections(args, s))
  {
    DistinctKept(args);
    ComposeActs(args, s, out, cells);
  }

  /** The last argument with a record for `a`, -1 if there is none. */
  ghost function LastWriter(args: seq<Diff>, s: int, a: nat): (r: int)
    requires 0 <= s < NTYPES
    ensures -1 <= r < |args|
  {
    if args == [] then -1
    else
      var n := |args| - 1;
      if a in Writes(args[n].Section(s)) then n else LastWriter(args[..n], s, a)
  }

  /** The last argument with a record for `a` that does not repeat an earlier one, -1 if there is none. */
  ghost function LastFreshWriter(args: seq<Diff>, s: int, a: nat): (r: int)
    requires 0 <= s < NTYPES
    ensures -1 <= r < |args|
  {
    if args == [] then -1
    else
      var n := |args| - 1;
      if a in Writes(args[n].Section(s)) && args[n] !in args[..n] then n else LastFreshWriter(args[..n], s, a)
  }

  /** The argument that the `k`-th diff writes at `a`. */
  ghost function ArgFrom(args: seq<Diff>, s: int, a: nat, k: int): Arg
    requires 0 <= s < NTYPES
  {
    if 0 <= k < |args| && a in Writes(args[k].Section(s)) then Writes(args[k].Section(s))[a] else NoArg
  }

  lemma {:induction false} ReplayAllAt(args: seq<Diff>, s: int, a: nat)
    requires 0 <= s < NTYPES
    ensures a in ReplayAll(map[], Sections(args, s)) <==> LastWriter(args, s, a) >= 0
    ensures a in ReplayAll(map[], Sections(args, s)) ==>
        ReplayAll(map[], Sections(args, s))[a] == ArgFrom(args, s, a, LastWriter(args, s, a))
  {
    if args != [] {
      var n := |args| - 1;
      ReplayAllAt(args[..n], s, a);
      assert args == args[..n] + [args[n]];
      SectionsSnoc(args[..n], args[n], s);
      ReplayIsOverlay(ReplayAll(map[], Sections(args[..n], s)), args[n].Section(s));
    }
  }

  lemma {:induction false} MergedAt(args: seq<Diff>, s: int, a: nat)
    requires 0 <= s < NTYPES
    ensures a in Merged(args, s) <==> LastFreshWriter(args, s, a) >= 0
    ensures a in Merged(args, s) ==> Merged(args, s)[a] == ArgFrom(args, s, a, LastFreshWriter(args, s, a))
  {
    if args != [] {
      MergedAt(args[..|args| - 1], s, a);
    }
  }

  lemma {:induction false} WriterExists(args: seq<Diff>, s: int, a: nat)
    requires 0 <= s < NTYPES
    ensures LastWriter(args, s, a) >= 0 <==> exists i :: 0 <= i < |args| && a in Writes(args[i].Section(s))
  {
    if args != [] {
      var n := |args| - 1;
      WriterExists(args[..n], s, a);
      assert forall i :: 0 <= i < n ==> args[..n][i] == args[i];
    }
  }

  /** The last writer of an address never is a repeat whose value an intervening diff has replaced. */
  ghost predicate NoStaleRepeat(args: seq<Diff>, s: int)
    requires 0 <= s < NTYPES
  {
    forall a :: ArgFrom(args, s, a, LastWriter(args, s, a)) == ArgFrom(args, s, a, LastFreshWriter(args, s, a))
  }

  lemma StaleFreeOverlay(args: seq<Diff>, s: int)
    requires 0 <= s < NTYPES
    ensures NoStaleRepeat(args, s) <==> Merged(args, s) == ReplayAll(map[], Sections(args, s))
  {
    hide Merged, LastWriter, LastFreshWriter, ReplayAll, Replay;
    var late, m := ReplayAll(map[], Sections(args, s)), Merged(args, s);
    forall a: nat
      ensures a in late <==> a in m
      ensures a in late ==> late[a] == ArgFrom(args, s, a, LastWriter(args, s, a))
      ensures a in m ==> m[a] == ArgFrom(args, s, a, LastFreshWriter(args, s, a))
      ensures a !in m ==> ArgFrom(args, s, a, LastWriter(args, s, a)) == ArgFrom(args, s, a, LastFreshWriter(args, s, a))
    {
      ReplayAllAt(args, s, a);
      MergedAt(args, s, a);
      MergedKeys(args, s, a);
      WriterExists(args, s, a);
    }
  }

  /** Exactly when composing a list that repeats a diff still equals replaying the list in order. */
  lemma ComposeWithRepeats(args: seq<Diff>, s: int, out: seq<Rec>)
    requires 0 <= s < NTYPES && s != DEALLOC && Emitted(out, Merged(args, s), NULL_ADDR, s)
    ensures (forall cells :: Replay(cells, out) == ReplayAll(cells, Sections(args, s))) <==> NoStaleRepeat(args, s)
  {
    hide Emitted, Merged, ReplayAll, Replay, NoStaleRepeat;
    var late := ReplayAll(map[], Sections(args, s));
    MergedBelowNull(args, s);
    EmittedWrites(out, Merged(args, s), s);
    StaleFreeOverlay(args, s);
    forall cells
      ensures Replay(cells, out) == cells + Writes(out)
      ensures ReplayAll(cells, Sections(args, s)) == cells + late
    {
      ReplayIsOverlay(cells, out);
      ReplayAllIsOverlay(cells, Sections(args, s));
    }
    assert Replay(map[], out) == Writes(out);
  }

  /** A repeat that matters: composing [d, e, d] keeps the value of e where replaying ends with d's. */
  lemma RepeatCounterexample(d: Diff, e: Diff)
    requires d != e
    requires d.Section(REG) == [Rec(0, SetArg(AddrSet({1}, {})))] && e.Section(REG) == [Rec(0, SetArg(AddrSet({2}, {})))]
    ensures !NoStaleRepeat([d, e, d], REG)
  {
    var args := [d, e, d];
    WritesAt(d.Section(REG), 0);
    WritesAt(e.Section(REG), 0);
    assert args[..2] == [d, e];
    assert args[2] in args[..2] by { assert args[..2][0] == d; }
    assert LastFreshWriter(args[..2], REG, 0) == 1;
    assert LastWriter(args, REG, 0) == 2 && LastFreshWriter(args, REG, 0) == 1;
    assert Writes(d.Section(REG))[0] != Writes(e.Section(REG))[0];
  }
}
