/**
 Logging into a forward and a reverse buffer: every write records the new value forward and the old
 value in reverse.
 */
module Logging {
  import opened Values
  import opened Diffs
  import opened DiffBuffers

  /** The records of one type that a buffer holds, in the order they were appended. */
  function Log(nodes: seq<Node>, kind: int): seq<Rec> {
    AsRecs(OfKind(nodes, kind))
  }

  function Backwards(recs: seq<Rec>): (r: seq<Rec>)
    ensures |r| == |recs| && forall i :: 0 <= i < |recs| ==> r[i] == recs[|recs| - 1 - i]
  {
    seq(|recs|, i requires 0 <= i < |recs| => recs[|recs| - 1 - i])
  }

  lemma LogAppend(nodes: seq<Node>, n: Node, kind: int)
    ensures Log(nodes + [n], kind) == Log(nodes, kind) + if n.kind == kind then [Rec(n.addr, n.arg)] else []
  {
    assert (nodes + [n])[..|nodes|] == nodes;
  }

  /** A buffer that has not been converted yet. */
  ghost predicate Recording(b: Buffer)
    reads b
  {
    b.converted == 0 && Stamped(b.nodes, b.reverse) && WellFormed(b.nodes)
  }

  /** Appends a record with a value. */
  method Snapshot(b: Buffer, kind: int, addr: nat, arg: Arg)
    requires Recording(b) && 0 <= kind < NTYPES && addr < NULL_ADDR && arg != NoArg && kind != DEALLOC
    modifies b
    ensures Recording(b)
    ensures forall k :: Log(b.nodes, k) == Log(old(b.nodes), k) + if k == kind then [Rec(addr, arg)] else []
  {
    ghost var before := b.nodes;
    var ok := b.Append(kind, addr, arg);
    forall k
      ensures Log(b.nodes, k) == Log(before, k) + if k == kind then [Rec(addr, arg)] else []
    {
      LogAppend(before, b.nodes[|before|], k);
    }
  }

  // ---------- replay and undo ----------

  /** The forward records lead from `c0` to `c`, and the reverse records, last first, lead back. */
  ghost predicate Tracks(c0: Cells, c: Cells, fwd: seq<Rec>, inv: seq<Rec>) {
    Replay(c0, fwd) == c && Replay(c, Backwards(inv)) == c0
  }

  lemma TracksNothing(c: Cells)
    ensures Tracks(c, c, [], [])
  {
  }

  lemma ReplaySnoc(c: Cells, recs: seq<Rec>, r: Rec)
    ensures Replay(c, recs + [r]) == Replay(c, recs)[r.addr := r.arg]
  {
    assert (recs + [r])[..|recs|] == recs;
  }

  lemma UndoFirst(c: Cells, inv: seq<Rec>, r: Rec)
    ensures Replay(c, Backwards(inv + [r])) == Replay(c[r.addr := r.arg], Backwards(inv))
  {
    assert Backwards(inv + [r]) == [r] + Backwards(inv);
    assert ([r] + Backwards(inv))[1..] == Backwards(inv);
    ReplayCons(c, [r] + Backwards(inv));
  }

  /** A logged write. */
  lemma TracksWrite(c0: Cells, c: Cells, fwd: seq<Rec>, inv: seq<Rec>, r: nat, v: Arg)
    requires Tracks(c0, c, fwd, inv) && r in c
    ensures Tracks(c0, c[r := v], fwd + [Rec(r, v)], inv + [Rec(r, c[r])])
  {
    ReplaySnoc(c0, fwd, Rec(r, v));
    UndoFirst(c[r := v], inv, Rec(r, c[r]));
    assert c[r := v][r := c[r]] == c;
  }

  /** A write that failed after its old value had been recorded. */
  lemma TracksFailure(c0: Cells, c: Cells, fwd: seq<Rec>, inv: seq<Rec>, r: nat)
    requires Tracks(c0, c, fwd, inv) && r in c
    ensures Tracks(c0, c, fwd, inv + [Rec(r, c[r])])
  {
    UndoFirst(c, inv, Rec(r, c[r]));
    assert c[r := c[r]] == c;
  }

  /** What one operation may do to the cells and the two logs. */
  ghost predicate Logged(r: nat, c: Cells, c': Cells, fwd: seq<Rec>, fwd': seq<Rec>, inv: seq<Rec>, inv': seq<Rec>) {
    || (c' == c && fwd' == fwd && inv' == inv)
    || (r in c && c' == c && fwd' == fwd && inv' == inv + [Rec(r, c[r])])
    || (r in c && r in c' && c' == c[r := c'[r]] && fwd' == fwd + [Rec(r, c'[r])] && inv' == inv + [Rec(r, c[r])])
  }

  lemma NothingLogged(r: nat, c: Cells, fwd: seq<Rec>, inv: seq<Rec>)
    ensures Logged(r, c, c, fwd, fwd, inv, inv)
  {
  }

  lemma LoggedTracks(c0: Cells, r: nat, c: Cells, c': Cells, fwd: seq<Rec>, fwd': seq<Rec>, inv: seq<Rec>, inv': seq<Rec>)
    requires Tracks(c0, c, fwd, inv) && Logged(r, c, c', fwd, fwd', inv, inv')
    ensures Tracks(c0, c', fwd', inv')
  {
    if c' == c && fwd' == fwd && inv' == inv {
    } else if r in c && c' == c && fwd' == fwd && inv' == inv + [Rec(r, c[r])] {
      TracksFailure(c0, c, fwd, inv, r);
    } else {
      TracksWrite(c0, c, fwd, inv, r, c'[r]);
    }
  }

  /** A frame's cells and its two logs between operations. */
  datatype Moment = Moment(cells: Cells, fwd: seq<Rec>, inv: seq<Rec>)

  /** `f` and `i` are what the step from `a` to `b` logged. */
  ghost predicate Adds(a: Moment, b: Moment, f: seq<Rec>, i: seq<Rec>) {
    b.fwd == a.fwd + f && b.inv == a.inv + i && Tracks(a.cells, b.cells, f, i)
  }

  ghost predicate OneOp(a: Moment, b: Moment) {
    exists f, i :: Adds(a, b, f, i)
  }

  lemma LoggedStep(r: nat, a: Moment, b: Moment)
    requires Logged(r, a.cells, b.cells, a.fwd, b.fwd, a.inv, b.inv)
    ensures OneOp(a, b)
  {
    var f, i := b.fwd[|a.fwd|..], b.inv[|a.inv|..];
    TracksNothing(a.cells);
    LoggedTracks(a.cells, r, a.cells, b.cells, [], f, [], i);
    assert Adds(a, b, f, i);
  }

  lemma {:induction false} ReplayConcat(c: Cells, xs: seq<Rec>, ys: seq<Rec>)
    ensures Replay(c, xs + ys) == Replay(Replay(c, xs), ys)
  {
    if ys == [] {
      assert xs + ys == xs;
    } else {
      var n := |ys| - 1;
      assert (xs + ys)[..|xs + ys| - 1] == xs + ys[..n];
      ReplayConcat(c, xs, ys[..n]);
    }
  }

  lemma TracksThen(c0: Cells, c: Cells, c': Cells, f: seq<Rec>, i: seq<Rec>, f': seq<Rec>, i': seq<Rec>)
    requires Tracks(c0, c, f, i) && Tracks(c, c', f', i')
    ensures Tracks(c0, c', f + f', i + i')
  {
    ReplayConcat(c0, f, f');
    assert Backwards(i + i') == Backwards(i') + Backwards(i);
    ReplayConcat(c', Backwards(i'), Backwards(i));
  }

  /** A run of operations that starts with empty logs. */
  ghost predicate IsRun(run: seq<Moment>) {
    && run != [] && run[0].fwd == [] && run[0].inv == []
    && forall k :: 1 <= k < |run| ==> OneOp(run[k - 1], run[k])
  }

  lemma {:induction false} RunTracks(run: seq<Moment>)
    requires IsRun(run)
    ensures Tracks(run[0].cells, run[|run| - 1].cells, run[|run| - 1].fwd, run[|run| - 1].inv)
  {
    var n := |run| - 1;
    if n == 0 {
      TracksNothing(run[0].cells);
    } else {
      RunTracks(run[..n]);
      assert OneOp(run[n - 1], run[n]);
      var a, b := run[n - 1], run[n];
      var f, i :| Adds(a, b, f, i);
      TracksThen(run[0].cells, a.cells, b.cells, a.fwd, a.inv, f, i);
    }
  }

  lemma {:induction false} KindReversed(nodes: seq<Node>, kind: int)
    ensures AsRecs(OfKind(Reversed(nodes), kind)) == Backwards(AsRecs(OfKind(nodes, kind)))
  {
    if nodes == [] {
      assert Reversed(nodes) == [];
    } else {
      var n := |nodes| - 1;
      KindReversed(nodes[..n], kind);
      assert Reversed(nodes) == [nodes[n]] + Reversed(nodes[..n]);
      KindCons(nodes[n], Reversed(nodes[..n]), kind);
    }
  }

  lemma {:induction false} KindCons(n: Node, ns: seq<Node>, kind: int)
    ensures OfKind([n] + ns, kind) == (if n.kind == kind then [n] else []) + OfKind(ns, kind)
  {
    if ns == [] {
      assert [n] + ns == [n] && [n][..0] == [];
    } else {
      var k := |ns| - 1;
      assert ([n] + ns)[..|ns|] == [n] + ns[..k];
      KindCons(n, ns[..k], kind);
    }
  }

  /**
   Replay and undo: after any run of logged operations, the collapsed section of the forward buffer
   turns the first state into the last, and that of the reverse buffer turns the last into the first.
   */
  lemma ReplayAndUndo(run: seq<Moment>, kind: int, fwd: seq<Node>, fwdSorted: seq<Node>, inv: seq<Node>, invSorted: seq<Node>)
    requires IsRun(run) && kind != DEALLOC
    requires Stamped(fwd, false) && Sorted(fwdSorted) && multiset(fwdSorted) == multiset(fwd)
    requires Stamped(inv, true) && Sorted(invSorted) && multiset(invSorted) == multiset(inv)
    requires Log(fwd, kind) == run[|run| - 1].fwd && Log(inv, kind) == run[|run| - 1].inv
    ensures Replay(run[0].cells, Collapse(OfKind(fwdSorted, kind), false)) == run[|run| - 1].cells
    ensures Replay(run[|run| - 1].cells, Collapse(OfKind(invSorted, kind), false)) == run[0].cells
  {
    RunTracks(run);
    CollapseIsReplay(fwd, false, fwdSorted, kind, run[0].cells);
    CollapseIsReplay(inv, true, invSorted, kind, run[|run| - 1].cells);
    KindReversed(inv, kind);
  }

  // ---------- the changes a section makes ----------

  predicate Changing(c: Cells, r: Rec) {
    r.addr in c && c[r.addr] != r.arg
  }

  /** The records of a section that change `c`, and the records that restore it. */
  function Changed(c: Cells, recs: seq<Rec>): seq<Rec> {
    if recs == [] then []
    else
      var last := recs[|recs| - 1];
      Changed(c, recs[..|recs| - 1]) + if Changing(c, last) then [last] else []
  }

  function Undo(c: Cells, recs: seq<Rec>): seq<Rec> {
    if recs == [] then []
    else
      var last := recs[|recs| - 1];
      Undo(c, recs[..|recs| - 1]) + if Changing(c, last) then [Rec(last.addr, c[last.addr])] else []
  }

  ghost predicate Distinct(recs: seq<Rec>) {
    forall j, k :: 0 <= j < k < |recs| ==> recs[j].addr != recs[k].addr
  }

  lemma {:induction false} ReplayKeys(c: Cells, recs: seq<Rec>, a: nat)
    ensures a in c ==> a in Replay(c, recs)
    ensures (forall k :: 0 <= k < |recs| ==> recs[k].addr != a) && a in c ==> Replay(c, recs)[a] == c[a]
    ensures (forall k :: 0 <= k < |recs| ==> recs[k].addr in c) && a !in c ==> a !in Replay(c, recs)
  {
    if recs != [] {
      ReplayKeys(c, recs[..|recs| - 1], a);
    }
  }

  /** Logging only the records that change something replays and undoes the whole section. */
  lemma {:induction false} ChangedTracks(c: Cells, recs: seq<Rec>)
    requires Distinct(recs) && forall k :: 0 <= k < |recs| ==> recs[k].addr in c
    ensures Tracks(c, Replay(c, recs), Changed(c, recs), Undo(c, recs))
  {
    if recs == [] {
      TracksNothing(c);
    } else {
      var n := |recs| - 1;
      var front, last := recs[..n], recs[n];
      var c' := Replay(c, front);
      ChangedTracks(c, front);
      ReplayKeys(c, front, last.addr);
      if Changing(c, last) {
        TracksWrite(c, c', Changed(c, front), Undo(c, front), last.addr, last.arg);
      } else {
        assert c'[last.addr := last.arg] == c';
        assert Changed(c, recs) == Changed(c, front) && Undo(c, recs) == Undo(c, front);
      }
    }
  }

  /** The addresses at which two states differ. */
  function Differing(c: Cells, d: Cells): set<nat> {
    set a | a in c && (a !in d || c[a] != d[a])
  }

  /** The number of logged records is the number of cells that change. */
  lemma {:induction false} ChangedCounts(c: Cells, recs: seq<Rec>)
    requires Distinct(recs) && forall k :: 0 <= k < |recs| ==> recs[k].addr in c
    ensures |Changed(c, recs)| == |Undo(c, recs)| == |Differing(c, Replay(c, recs))|
  {
    if recs == [] {
      assert Differing(c, c) == {};
    } else {
      var n := |recs| - 1;
      var front, last := recs[..n], recs[n];
      var c' := Replay(c, front);
      ChangedCounts(c, front);
      ReplayKeys(c, front, last.addr);
      if Changing(c, last) {
        assert Differing(c, c'[last.addr := last.arg]) == Differing(c, c') + {last.addr};
      } else {
        assert Differing(c, c'[last.addr := last.arg]) == Differing(c, c');
      }
    }
  }
}
