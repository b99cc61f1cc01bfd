/**
 Input slots of the blocks of a method: a depth-first search counts the inputs of each block, and a linear
 pass gives every branch its own slot of the block it leads to.
 */
module EdgeSlots {
  import opened Values

  /** For each block, where its branches lead; None for a disabled or a return branch. */
  type Graph = seq<seq<Option<nat>>>

  type Edge = (nat, nat)

  ghost predicate Closed(g: Graph) {
    forall b, j :: 0 <= b < |g| && 0 <= j < |g[b]| && g[b][j].Some? ==> g[b][j].value < |g|
  }

  predicate IsEdge(g: Graph, e: Edge) {
    e.0 < |g| && e.1 < |g[e.0]| && g[e.0][e.1].Some?
  }

  predicate LeadsTo(g: Graph, e: Edge, t: nat) {
    IsEdge(g, e) && g[e.0][e.1].value == t
  }

  function Into(g: Graph, es: set<Edge>, t: nat): set<Edge> {
    set e | e in es && LeadsTo(g, e, t)
  }

  /** The edges of one block, up to branch `n`. */
  function Row(g: Graph, b: nat, n: nat): (r: set<Edge>)
    requires b < |g| && n <= |g[b]|
    ensures forall e :: e in r <==> e.0 == b && e.1 < n && IsEdge(g, e)
  {
    set j | 0 <= j < n && g[b][j].Some? :: (b, j)
  }

  /** The edges of the blocks in `bs`. */
  ghost predicate EdgesOf(g: Graph, bs: set<nat>, es: set<Edge>) {
    forall e :: e in es <==> IsEdge(g, e) && e.0 in bs
  }

  /** Every block's counter is the number of counted edges into it. */
  ghost predicate Counted(g: Graph, es: set<Edge>, ninputs: seq<nat>) {
    |ninputs| == |g| && forall t :: 0 <= t < |g| ==> ninputs[t] == |Into(g, es, t)|
  }

  lemma CountOne(g: Graph, es: set<Edge>, ninputs: seq<nat>, e: Edge)
    requires Counted(g, es, ninputs) && e !in es && IsEdge(g, e) && g[e.0][e.1].value < |g|
    ensures var t := g[e.0][e.1].value; Counted(g, es + {e}, ninputs[t := ninputs[t] + 1])
  {
    var t := g[e.0][e.1].value;
    forall u | 0 <= u < |g|
      ensures ninputs[t := ninputs[t] + 1][u] == |Into(g, es + {e}, u)|
    {
      if u == t {
        assert Into(g, es + {e}, u) == Into(g, es, u) + {e};
      } else {
        assert Into(g, es + {e}, u) == Into(g, es, u);
      }
    }
  }

  // ---------- exploring ----------

  ghost predicate IsWalk(g: Graph, entry: nat, p: seq<nat>) {
    && p != [] && p[0] == entry && (forall k :: 0 <= k < |p| ==> p[k] < |g|)
    && forall k :: 0 <= k < |p| - 1 ==> StepAt(g, p, k)
  }

  ghost predicate StepAt(g: Graph, p: seq<nat>, k: nat)
    requires k + 1 < |p|
  {
    Adjacent(g, p[k], p[k + 1])
  }

  ghost predicate Adjacent(g: Graph, b: nat, t: nat) {
    exists j: nat :: LeadsTo(g, (b, j), t)
  }

  ghost predicate EndsAt(g: Graph, entry: nat, p: seq<nat>, b: nat) {
    IsWalk(g, entry, p) && p[|p| - 1] == b
  }

  ghost predicate Reachable(g: Graph, entry: nat, b: nat) {
    exists p :: EndsAt(g, entry, p, b)
  }

  lemma ReachNext(g: Graph, entry: nat, e: Edge)
    requires IsEdge(g, e) && g[e.0][e.1].value < |g| && Reachable(g, entry, e.0)
    ensures Reachable(g, entry, g[e.0][e.1].value)
  {
    var t := g[e.0][e.1].value;
    var p :| EndsAt(g, entry, p, e.0);
    assert LeadsTo(g, e, t);
    var q := p + [t];
    forall k | 0 <= k < |q| - 1
      ensures StepAt(g, q, k)
    {
      if k < |p| - 1 {
        assert StepAt(g, p, k);
      }
    }
    assert EndsAt(g, entry, q, t);
  }

  function Seen(seen: seq<bool>): set<nat> {
    set b | 0 <= b < |seen| && seen[b]
  }

  function Unseen(seen: seq<bool>): set<nat> {
    set b | 0 <= b < |seen| && !seen[b]
  }

  /** From `was` to `now`: the new blocks can be reached, their edges are the new ones in `es`, and lead to seen blocks. */
  ghost predicate Explored(g: Graph, entry: nat, was: seq<bool>, es: set<Edge>, now: seq<bool>, es': set<Edge>, but: set<Edge>) {
    && |was| == |now| == |g| && Seen(was) <= Seen(now) && es <= es'
    && (forall b :: b in Seen(now) - Seen(was) ==> Reachable(g, entry, b))
    && (forall e :: e in es' <==> e in es || (IsEdge(g, e) && e.0 in Seen(now) - Seen(was) && e !in but))
    && (forall e :: e in es' && e !in es ==> g[e.0][e.1].value in Seen(now))
  }

  class Explorer {
    const g: Graph
    /** `_cesk_method_block_list`, `_cesk_method_block_ninputs` and `_cesk_method_block_max_idx`; -1 for no block. */
    var seen: seq<bool>
    var ninputs: seq<nat>
    var maxIdx: int
    ghost var counted: set<Edge>

    constructor (g: Graph)
      ensures this.g == g && Valid() && Seen(seen) == {} && counted == {} && |seen| == |g|
    {
      this.g := g;
      seen, ninputs, maxIdx, counted := seq(|g|, _ => false), seq(|g|, _ => 0), -1, {};
      new;
      forall t | 0 <= t < |g|
        ensures Into(g, {}, t) == {}
      {
      }
    }

    ghost predicate Valid()
      reads this
    {
      && |seen| == |ninputs| == |g| && Counted(g, counted, ninputs) && maxIdx < |g|
      && forall b :: b in Seen(seen) ==> b <= maxIdx
    }

    /** Visits a block and what it leads to, counting every branch at its target. */
    method Explore(b: nat, ghost entry: nat)
      requires Valid() && Closed(g) && b < |g| && !seen[b] && Reachable(g, entry, b)
      requires forall e :: e in counted ==> IsEdge(g, e) && e.0 in Seen(seen)
      modifies this
      ensures Valid() && seen[b] && Explored(g, entry, old(seen), old(counted), seen, counted, {})
      decreases Unseen(seen)
    {
      hide Explored, Reachable, Counted, Closed;
      ghost var was, es := seen, counted;
      seen := seen[b := true];
      if maxIdx < b {
        maxIdx := b;
      }
      ExploreStarts(g, entry, was, es, b);
      assert Seen(seen) == Seen(was) + {b};
      ghost var begun := seen;
      ghost var but := Row(g, b, |g[b]|);
      UnseenFewer(was, b);
      for j := 0 to |g[b]|
        invariant Valid() && seen[b]
        invariant Explored(g, entry, was, es, seen, counted, Row(g, b, |g[b]|) - Row(g, b, j))
        invariant forall e :: e in counted ==> IsEdge(g, e) && e.0 in Seen(seen)
        invariant Unseen(seen) <= Unseen(begun)
      {
        if g[b][j].Some? {
          var t := g[b][j].value;
          EdgeInRange(g, (b, j));
          NotYet(g, entry, was, es, seen, counted, b, j);
          CountOne(g, counted, ninputs, (b, j));
          ghost var seen1, counted1 := seen, counted;
          ninputs := ninputs[t := ninputs[t] + 1];
          counted := counted + {(b, j)};
          if !seen[t] {
            ReachNext(g, entry, (b, j));
            Explore(t, entry);
            ExploreMore(g, entry, was, es, seen1, counted1, seen, counted, b, j);
          } else {
            ExploreEdge(g, entry, was, es, seen, counted1, b, j);
          }
        } else {
          assert Row(g, b, j + 1) == Row(g, b, j);
        }
      }
      assert Row(g, b, |g[b]|) - Row(g, b, |g[b]|) == {};
    }
  }

  lemma EdgeInRange(g: Graph, e: Edge)
    requires Closed(g) && IsEdge(g, e)
    ensures g[e.0][e.1].value < |g|
  {
  }

  lemma UnseenFewer(was: seq<bool>, b: nat)
    requires b < |was| && !was[b]
    ensures Unseen(was[b := true]) < Unseen(was)
  {
    assert b in Unseen(was);
  }

  lemma ExploreStarts(g: Graph, entry: nat, was: seq<bool>, es: set<Edge>, b: nat)
    requires |was| == |g| && b < |g| && !was[b] && Reachable(g, entry, b)
    requires forall e :: e in es ==> IsEdge(g, e) && e.0 in Seen(was)
    ensures Explored(g, entry, was, es, was[b := true], es, Row(g, b, |g[b]|) - Row(g, b, 0))
  {
    assert Seen(was[b := true]) - Seen(was) == {b};
    assert Row(g, b, 0) == {};
  }

  lemma NotYet(g: Graph, entry: nat, was: seq<bool>, es: set<Edge>, seen: seq<bool>, counted: set<Edge>, b: nat, j: nat)
    requires b < |g| && j < |g[b]| && |was| == |g| && !was[b] && (forall e :: e in es ==> IsEdge(g, e) && e.0 in Seen(was))
    requires Explored(g, entry, was, es, seen, counted, Row(g, b, |g[b]|) - Row(g, b, j))
    ensures (b, j) !in counted
  {
    assert b !in Seen(was);
  }

  /** A branch to a block that has been seen already. */
  lemma ExploreEdge(g: Graph, entry: nat, was: seq<bool>, es: set<Edge>, seen: seq<bool>, counted: set<Edge>, b: nat, j: nat)
    requires b < |g| && j < |g[b]| && g[b][j].Some? && g[b][j].value in Seen(seen) && b in Seen(seen) && |was| == |g| && !was[b]
    requires Explored(g, entry, was, es, seen, counted, Row(g, b, |g[b]|) - Row(g, b, j))
    ensures Explored(g, entry, was, es, seen, counted + {(b, j)}, Row(g, b, |g[b]|) - Row(g, b, j + 1))
  {
    hide Reachable;
    assert Row(g, b, j + 1) == Row(g, b, j) + {(b, j)};
    assert b !in Seen(was);
  }

  /** A branch to a new block, and everything explored from there. */
  lemma ExploreMore(g: Graph, entry: nat, was: seq<bool>, es: set<Edge>, mid: seq<bool>, counted: set<Edge>, now: seq<bool>, counted': set<Edge>, b: nat, j: nat)
    requires b < |g| && j < |g[b]| && g[b][j].Some? && b in Seen(mid) && |was| == |g| && !was[b] && g[b][j].value in Seen(now)
    requires Explored(g, entry, was, es, mid, counted, Row(g, b, |g[b]|) - Row(g, b, j))
    requires Explored(g, entry, mid, counted + {(b, j)}, now, counted', {})
    ensures Explored(g, entry, was, es, now, counted', Row(g, b, |g[b]|) - Row(g, b, j + 1))
    ensures Unseen(now) <= Unseen(mid)
    ensures forall e :: e in counted' ==> e in counted || e == (b, j) || (IsEdge(g, e) && e.0 in Seen(now))
    ensures Seen(mid) <= Seen(now)
  {
    hide Reachable;
    assert Row(g, b, j + 1) == Row(g, b, j) + {(b, j)};
    assert b !in Seen(was);
    assert forall x :: x in Unseen(now) ==> x !in Seen(mid);
  }

  // ---------- assigning slots ----------

  /**
   The slots so far: `used[t]` of them are taken at block `t`; the edges in `placed` and the taken slots name
   each other.
   */
  ghost predicate Placed(g: Graph, placed: set<Edge>, ninputs: seq<nat>, used: seq<nat>, inputs: seq<seq<Edge>>, index: seq<seq<nat>>) {
    && |used| == |inputs| == |index| == |ninputs| == |g| && Counted(g, placed, used)
    && (forall t :: 0 <= t < |g| ==> inputs[t] == [] || |inputs[t]| == ninputs[t])
    && (forall b :: 0 <= b < |g| ==> |index[b]| == |g[b]|)
    && (forall e :: e in placed ==> IsEdge(g, e) && g[e.0][e.1].value < |g| && OwnSlot(g, used, inputs, index, e))
    && (forall t, k :: 0 <= t < |g| && 0 <= k < used[t] ==> SlotTaken(g, placed, inputs, index, t, k))
  }

  /** The slot an edge was given names that edge. */
  ghost predicate OwnSlot(g: Graph, used: seq<nat>, inputs: seq<seq<Edge>>, index: seq<seq<nat>>, e: Edge)
    requires IsEdge(g, e) && g[e.0][e.1].value < |g| && |used| == |inputs| == |index| == |g| && |index[e.0]| == |g[e.0]|
  {
    var t, k := g[e.0][e.1].value, index[e.0][e.1];
    k < used[t] && k < |inputs[t]| && inputs[t][k] == e
  }

  /** A taken slot names an edge into its block that was given this slot. */
  ghost predicate SlotTaken(g: Graph, placed: set<Edge>, inputs: seq<seq<Edge>>, index: seq<seq<nat>>, t: nat, k: nat)
    requires t < |g| == |inputs|
  {
    && k < |inputs[t]|
    && var e := inputs[t][k];
       e in placed && LeadsTo(g, e, t) && e.0 < |index| && e.1 < |index[e.0]| && index[e.0][e.1] == k
  }

  lemma PlaceOne(g: Graph, placed: set<Edge>, ninputs: seq<nat>, used: seq<nat>, inputs: seq<seq<Edge>>, index: seq<seq<nat>>, e: Edge, all: set<Edge>)
    requires Placed(g, placed, ninputs, used, inputs, index) && Counted(g, all, ninputs) && placed <= all
    requires e in all && e !in placed && IsEdge(g, e) && g[e.0][e.1].value < |g|
    requires inputs[g[e.0][e.1].value] != []
    ensures var t := g[e.0][e.1].value;
            && used[t] < |inputs[t]|
            && Placed(g, placed + {e}, ninputs, used[t := used[t] + 1], inputs[t := inputs[t][used[t] := e]], index[e.0 := index[e.0][e.1 := used[t]]])
  {
    hide OwnSlot, SlotTaken;
    var t := g[e.0][e.1].value;
    MoreToCome(g, placed, all, e);
    CountOne(g, placed, used, e);
    hide Counted;
    var used', inputs', index' := used[t := used[t] + 1], inputs[t := inputs[t][used[t] := e]], index[e.0 := index[e.0][e.1 := used[t]]];
    forall d | d in placed + {e}
      ensures IsEdge(g, d) && g[d.0][d.1].value < |g| && OwnSlot(g, used', inputs', index', d)
    {
      OwnKept(g, used, inputs, index, e, d);
    }
    forall u, k | 0 <= u < |g| && 0 <= k < used'[u]
      ensures SlotTaken(g, placed + {e}, inputs', index', u, k)
    {
      TakenKept(g, placed, used, inputs, index, e, u, k);
    }
  }

  lemma OwnKept(g: Graph, used: seq<nat>, inputs: seq<seq<Edge>>, index: seq<seq<nat>>, e: Edge, d: Edge)
    requires |used| == |inputs| == |index| == |g| && (forall b :: 0 <= b < |g| ==> |index[b]| == |g[b]|)
    requires IsEdge(g, e) && g[e.0][e.1].value < |g| && used[g[e.0][e.1].value] < |inputs[g[e.0][e.1].value]|
    requires IsEdge(g, d) && g[d.0][d.1].value < |g| && (d != e ==> OwnSlot(g, used, inputs, index, d))
    ensures var t := g[e.0][e.1].value;
            OwnSlot(g, used[t := used[t] + 1], inputs[t := inputs[t][used[t] := e]], index[e.0 := index[e.0][e.1 := used[t]]], d)
  {
  }

  lemma TakenKept(g: Graph, placed: set<Edge>, used: seq<nat>, inputs: seq<seq<Edge>>, index: seq<seq<nat>>, e: Edge, u: nat, k: nat)
    requires |used| == |inputs| == |index| == |g| && (forall b :: 0 <= b < |g| ==> |index[b]| == |g[b]|) && e !in placed
    requires IsEdge(g, e) && g[e.0][e.1].value < |g| && used[g[e.0][e.1].value] < |inputs[g[e.0][e.1].value]|
    requires u < |g| && k < used[u] + (if u == g[e.0][e.1].value then 1 else 0)
    requires k < used[u] ==> SlotTaken(g, placed, inputs, index, u, k)
    ensures var t := g[e.0][e.1].value;
            SlotTaken(g, placed + {e}, inputs[t := inputs[t][used[t] := e]], index[e.0 := index[e.0][e.1 := used[t]]], u, k)
  {
  }

  lemma MoreToCome(g: Graph, placed: set<Edge>, all: set<Edge>, e: Edge)
    requires placed <= all && e in all && e !in placed && IsEdge(g, e)
    ensures |Into(g, placed, g[e.0][e.1].value)| < |Into(g, all, g[e.0][e.1].value)|
  {
    var t := g[e.0][e.1].value;
    assert Into(g, placed, t) + {e} <= Into(g, all, t);
    Smaller(Into(g, placed, t) + {e}, Into(g, all, t));
  }

  lemma Allocate(g: Graph, placed: set<Edge>, ninputs: seq<nat>, used: seq<nat>, inputs: seq<seq<Edge>>, index: seq<seq<nat>>, t: nat, row: seq<Edge>)
    requires Placed(g, placed, ninputs, used, inputs, index) && t < |g| && inputs[t] == [] && |row| == ninputs[t]
    ensures Placed(g, placed, ninputs, used, inputs[t := row], index)
  {
    var inputs' := inputs[t := row];
    forall d | d in placed
      ensures OwnSlot(g, used, inputs', index, d)
    {
      assert OwnSlot(g, used, inputs, index, d);
    }
    forall u, k | 0 <= u < |g| && 0 <= k < used[u]
      ensures SlotTaken(g, placed, inputs', index, u, k)
    {
      assert SlotTaken(g, placed, inputs, index, u, k);
    }
  }

  /** The edges of the seen blocks before branch `j` of block `b`. */
  ghost predicate Before(g: Graph, seen: seq<bool>, placed: set<Edge>, b: nat, j: nat) {
    |seen| == |g| && forall e: Edge :: e in placed <==> IsEdge(g, e) && seen[e.0] && (e.0 < b || (e.0 == b && e.1 < j))
  }

  /** The linear pass over the seen blocks: each of their branches gets the next free slot of its target. */
  method Assign(g: Graph, seen: seq<bool>, ninputs: seq<nat>, maxIdx: int, ghost all: set<Edge>)
    returns (inputs: seq<seq<Edge>>, index: seq<seq<nat>>, used: seq<nat>)
    requires Closed(g) && |seen| == |g| && Counted(g, all, ninputs) && EdgesOf(g, Seen(seen), all)
    requires -1 <= maxIdx < |g| && forall b :: 0 <= b < |g| && seen[b] ==> b <= maxIdx
    ensures Placed(g, all, ninputs, used, inputs, index) && used == ninputs
  {
    hide Placed, Counted, Closed;
    inputs, index, used := seq(|g|, _ => []), seq(|g|, b requires 0 <= b < |g| => seq(|g[b]|, _ => 0)), seq(|g|, _ => 0);
    ghost var placed: set<Edge> := {};
    NothingPlaced(g, ninputs, used, inputs, index, all);
    for i := 0 to maxIdx + 1
      invariant Placed(g, placed, ninputs, used, inputs, index) && Before(g, seen, placed, i, 0)
    {
      if seen[i] {
        for j := 0 to |g[i]|
          invariant Placed(g, placed, ninputs, used, inputs, index) && Before(g, seen, placed, i, j)
        {
          if g[i][j].Some? {
            var t := g[i][j].value;
            EdgeInRange(g, (i, j));
            PlacedSizes(g, placed, ninputs, used, inputs, index);
            InAll(g, seen, all, placed, (i, j));
            if inputs[t] == [] {
              var row := seq(ninputs[t], _ => (0, 0));
              Allocate(g, placed, ninputs, used, inputs, index, t, row);
              inputs := inputs[t := row];
            }
            Room(g, all, ninputs, (i, j));
            PlacedSizes(g, placed, ninputs, used, inputs, index);
            PlaceOne(g, placed, ninputs, used, inputs, index, (i, j), all);
            inputs := inputs[t := inputs[t][used[t] := (i, j)]];
            index := index[i := index[i][j := used[t]]];
            used := used[t := used[t] + 1];
            placed := placed + {(i, j)};
          }
        }
      }
    }
    assert placed == all;
    AllUsed(g, all, ninputs, used, inputs, index);
  }

  lemma NothingPlaced(g: Graph, ninputs: seq<nat>, used: seq<nat>, inputs: seq<seq<Edge>>, index: seq<seq<nat>>, all: set<Edge>)
    requires Counted(g, all, ninputs) && used == seq(|g|, _ => 0) && inputs == seq(|g|, _ => [])
    requires |index| == |g| && forall b :: 0 <= b < |g| ==> |index[b]| == |g[b]|
    ensures Placed(g, {}, ninputs, used, inputs, index)
  {
    forall t | 0 <= t < |g|
      ensures Into(g, {}, t) == {}
    {
    }
  }

  lemma PlacedSizes(g: Graph, placed: set<Edge>, ninputs: seq<nat>, used: seq<nat>, inputs: seq<seq<Edge>>, index: seq<seq<nat>>)
    requires Placed(g, placed, ninputs, used, inputs, index)
    ensures |used| == |inputs| == |index| == |ninputs| == |g| && forall b :: 0 <= b < |g| ==> |index[b]| == |g[b]|
    ensures forall t :: 0 <= t < |g| ==> inputs[t] == [] || |inputs[t]| == ninputs[t]
  {
  }

  lemma InAll(g: Graph, seen: seq<bool>, all: set<Edge>, placed: set<Edge>, e: Edge)
    requires |seen| == |g| && EdgesOf(g, Seen(seen), all) && IsEdge(g, e) && seen[e.0] && Before(g, seen, placed, e.0, e.1)
    ensures e in all && e !in placed && placed <= all
  {
  }

  lemma Room(g: Graph, all: set<Edge>, ninputs: seq<nat>, e: Edge)
    requires Counted(g, all, ninputs) && e in all && IsEdge(g, e) && g[e.0][e.1].value < |g|
    ensures ninputs[g[e.0][e.1].value] > 0
  {
    assert e in Into(g, all, g[e.0][e.1].value);
  }

  lemma AllUsed(g: Graph, all: set<Edge>, ninputs: seq<nat>, used: seq<nat>, inputs: seq<seq<Edge>>, index: seq<seq<nat>>)
    requires Placed(g, all, ninputs, used, inputs, index) && Counted(g, all, ninputs)
    ensures used == ninputs
  {
  }

  /**
   Edge slots are a bijection: for the blocks that can be reached from the entry, every branch has a slot
   below the number of inputs of its target that names this branch, and every slot names a branch that was
   given it.
   */
  method AssignSlots(g: Graph, entry: nat) returns (ninputs: seq<nat>, inputs: seq<seq<Edge>>, index: seq<seq<nat>>, seen: seq<bool>)
    requires Closed(g) && entry < |g|
    ensures |seen| == |ninputs| == |inputs| == |index| == |g| && forall b :: 0 <= b < |g| ==> (seen[b] <==> Reachable(g, entry, b))
    ensures forall b :: 0 <= b < |g| ==> |index[b]| == |g[b]|
    ensures forall e :: IsEdge(g, e) && Reachable(g, entry, e.0) ==> Slotted(g, ninputs, inputs, index, e)
    ensures forall t, k :: 0 <= t < |g| && 0 <= k < ninputs[t] ==> Named(g, entry, inputs, index, t, k)
  {
    hide Reachable, Explored, Placed, Closed, Counted;
    var x := new Explorer(g);
    EntryReachable(g, entry);
    ghost var none := x.seen;
    assert entry !in Seen(none);
    x.Explore(entry, entry);
    seen, ninputs := x.seen, x.ninputs;
    ghost var all := x.counted;
    ExploredAll(g, entry, none, seen, all);
    assert forall b :: 0 <= b < |g| && seen[b] ==> b in Seen(seen);
    var used;
    inputs, index, used := Assign(g, seen, ninputs, x.maxIdx, all);
    PlacedSizes(g, all, ninputs, used, inputs, index);
    forall e | IsEdge(g, e) && Reachable(g, entry, e.0)
      ensures Slotted(g, ninputs, inputs, index, e)
    {
      EdgeInRange(g, e);
      PlacedAt(g, all, ninputs, inputs, index, e);
    }
    forall t, k | 0 <= t < |g| && 0 <= k < ninputs[t]
      ensures Named(g, entry, inputs, index, t, k)
    {
      TakenAt(g, entry, seen, all, ninputs, inputs, index, t, k);
    }
  }

  /** The slot of a branch is below the input count of its target and names the branch. */
  ghost predicate Slotted(g: Graph, ninputs: seq<nat>, inputs: seq<seq<Edge>>, index: seq<seq<nat>>, e: Edge) {
    && IsEdge(g, e) && g[e.0][e.1].value < |ninputs| == |inputs| && e.0 < |index| && e.1 < |index[e.0]|
    && var t, k := g[e.0][e.1].value, index[e.0][e.1];
       k < ninputs[t] && k < |inputs[t]| && inputs[t][k] == e
  }

  /** A slot names a branch of a reachable block that leads here and was given this slot. */
  ghost predicate Named(g: Graph, entry: nat, inputs: seq<seq<Edge>>, index: seq<seq<nat>>, t: nat, k: nat)
    requires t < |inputs|
  {
    && k < |inputs[t]|
    && var e := inputs[t][k];
       LeadsTo(g, e, t) && Reachable(g, entry, e.0) && e.0 < |index| && e.1 < |index[e.0]| && index[e.0][e.1] == k
  }

  lemma EntryReachable(g: Graph, entry: nat)
    requires entry < |g|
    ensures Reachable(g, entry, entry)
  {
    assert EndsAt(g, entry, [entry], entry);
  }

  /** What has been seen is what can be reached. */
  lemma ExploredAll(g: Graph, entry: nat, none: seq<bool>, seen: seq<bool>, all: set<Edge>)
    requires Seen(none) == {} && Explored(g, entry, none, {}, seen, all, {}) && entry < |g| && seen[entry] && Closed(g)
    ensures |seen| == |g| && EdgesOf(g, Seen(seen), all) && forall b :: 0 <= b < |g| ==> (seen[b] <==> Reachable(g, entry, b))
  {
    forall b | 0 <= b < |g|
      ensures seen[b] <==> Reachable(g, entry, b)
    {
      if seen[b] {
        assert b in Seen(seen);
      } else if Reachable(g, entry, b) {
        var p :| EndsAt(g, entry, p, b);
        WalkSeen(g, entry, none, seen, all, p);
      }
    }
  }

  lemma {:induction false} WalkSeen(g: Graph, entry: nat, none: seq<bool>, seen: seq<bool>, all: set<Edge>, p: seq<nat>)
    requires Seen(none) == {} && Explored(g, entry, none, {}, seen, all, {}) && entry < |g| && seen[entry] && IsWalk(g, entry, p)
    ensures seen[p[|p| - 1]]
  {
    var n := |p| - 1;
    if n > 0 {
      forall k | 0 <= k < n - 1
        ensures StepAt(g, p[..n], k)
      {
        assert StepAt(g, p, k);
      }
      WalkSeen(g, entry, none, seen, all, p[..n]);
      assert StepAt(g, p, n - 1);
      var j: nat :| LeadsTo(g, (p[n - 1], j), p[n]);
      assert p[n - 1] in Seen(seen);
      assert (p[n - 1], j) in all;
    }
  }

  lemma PlacedAt(g: Graph, all: set<Edge>, ninputs: seq<nat>, inputs: seq<seq<Edge>>, index: seq<seq<nat>>, e: Edge)
    requires Placed(g, all, ninputs, ninputs, inputs, index) && e in all
    ensures Slotted(g, ninputs, inputs, index, e)
  {
    assert OwnSlot(g, ninputs, inputs, index, e);
  }

  lemma TakenAt(g: Graph, entry: nat, seen: seq<bool>, all: set<Edge>, ninputs: seq<nat>, inputs: seq<seq<Edge>>, index: seq<seq<nat>>, t: nat, k: nat)
    requires Placed(g, all, ninputs, ninputs, inputs, index) && t < |g| && k < ninputs[t] && EdgesOf(g, Seen(seen), all)
    requires |seen| == |g| && forall b :: 0 <= b < |g| ==> (seen[b] <==> Reachable(g, entry, b))
    ensures Named(g, entry, inputs, index, t, k)
  {
    assert SlotTaken(g, all, inputs, index, t, k);
  }
}
