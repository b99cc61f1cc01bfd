/**
 The worklist that drives the analysis of a method: a circular queue of blocks with positions and
 timestamps.
 */
module Worklists {
  import opened Values
  import opened EdgeSlots

  /** `CESK_METHOD_MAX_NBLOCKS`. */
  const MAX_BLOCKS := 1024

  // ---------- the queue ----------

  /** The blocks whose position is not before the front. */
  function Queued(pos: seq<nat>, front: nat): set<nat> {
    set b | 0 <= b < |pos| && pos[b] >= front
  }

  /** Live entries of the ring and queued blocks name each other; the live entries do not overlap. */
  ghost predicate Ring(q: seq<nat>, front: nat, rear: nat, pos: seq<nat>) {
    && |q| == MAX_BLOCKS && |pos| <= MAX_BLOCKS && front <= rear
    && (forall b :: 0 <= b < |pos| ==> pos[b] < rear)
    && (forall p :: front <= p < rear ==> LiveAt(q, pos, p))
    && (forall b :: 0 <= b < |pos| && pos[b] >= front ==> EntryOf(q, pos, b))
    && |Queued(pos, front)| == rear - front
  }

  ghost predicate LiveAt(q: seq<nat>, pos: seq<nat>, p: nat)
    requires |q| == MAX_BLOCKS
  {
    q[p % MAX_BLOCKS] < |pos| && pos[q[p % MAX_BLOCKS]] == p
  }

  ghost predicate EntryOf(q: seq<nat>, pos: seq<nat>, b: nat)
    requires |q| == MAX_BLOCKS && b < |pos|
  {
    q[pos[b] % MAX_BLOCKS] == b
  }

  lemma QueuedBound(pos: seq<nat>, front: nat)
    ensures |Queued(pos, front)| <= |pos|
    ensures forall t :: 0 <= t < |pos| && pos[t] < front ==> |Queued(pos, front)| < |pos|
  {
    AllQueued(pos);
    Smaller(Queued(pos, front), Queued(pos, 0));
    forall t | 0 <= t < |pos| && pos[t] < front
      ensures |Queued(pos, front)| < |pos|
    {
      Smaller(Queued(pos, front) + {t}, Queued(pos, 0));
    }
  }

  lemma {:induction false} AllQueued(pos: seq<nat>)
    ensures |Queued(pos, 0)| == |pos|
  {
    if pos != [] {
      var n := |pos| - 1;
      AllQueued(pos[..n]);
      assert Queued(pos, 0) == Queued(pos[..n], 0) + {n};
    }
  }

  /** Two positions less than the ring's size apart use different slots of it. */
  lemma SlotsApart(p: nat, q: nat)
    requires p < q < p + MAX_BLOCKS
    ensures p % MAX_BLOCKS != q % MAX_BLOCKS
  {
  }

  lemma Dequeue(q: seq<nat>, front: nat, rear: nat, pos: seq<nat>)
    requires Ring(q, front, rear, pos) && front < rear
    ensures q[front % MAX_BLOCKS] < |pos| && Ring(q, front + 1, rear, pos)
    ensures Queued(pos, front + 1) == Queued(pos, front) - {q[front % MAX_BLOCKS]} && q[front % MAX_BLOCKS] in Queued(pos, front)
  {
    var b := q[front % MAX_BLOCKS];
    assert LiveAt(q, pos, front);
    forall c | c in Queued(pos, front) && c != b
      ensures pos[c] > front
    {
      assert EntryOf(q, pos, c);
    }
    assert Queued(pos, front + 1) == Queued(pos, front) - {b};
  }

  lemma Enqueue(q: seq<nat>, front: nat, rear: nat, pos: seq<nat>, t: nat)
    requires Ring(q, front, rear, pos) && t < |pos| && pos[t] < front
    ensures rear - front < MAX_BLOCKS && Ring(q[rear % MAX_BLOCKS := t], front, rear + 1, pos[t := rear])
    ensures Queued(pos[t := rear], front) == Queued(pos, front) + {t}
  {
    QueuedBound(pos, front);
    var q', pos' := q[rear % MAX_BLOCKS := t], pos[t := rear];
    forall p | front <= p < rear + 1
      ensures LiveAt(q', pos', p)
    {
      if p < rear {
        assert LiveAt(q, pos, p);
        SlotsApart(p, rear);
      }
    }
    forall b | 0 <= b < |pos'| && pos'[b] >= front
      ensures EntryOf(q', pos', b)
    {
      if b != t {
        assert EntryOf(q, pos, b);
        SlotsApart(pos[b], rear);
      }
    }
    assert Queued(pos', front) == Queued(pos, front) + {t};
  }

  // ---------- timestamps ----------

  /** Blocks that ran later have later timestamps. */
  ghost predicate Stamped(now: nat, rear: nat, ran: seq<nat>, stamp: seq<nat>) {
    && |ran| == |stamp| && (forall b :: 0 <= b < |ran| ==> ran[b] <= now && stamp[b] <= rear)
    && forall a, b :: 0 <= a < |ran| && 0 <= b < |ran| && ran[a] <= ran[b] ==> stamp[a] <= stamp[b]
  }

  lemma StampNow(now: nat, rear: nat, ran: seq<nat>, stamp: seq<nat>, b: nat)
    requires Stamped(now, rear, ran, stamp) && b < |ran|
    ensures Stamped(now + 1, rear, ran[b := now + 1], stamp[b := rear])
  {
  }

  // ---------- re-executed branches ----------

  /** The target of a branch that was executed has run since, or is waiting to. */
  ghost predicate Pending(g: Graph, fired: map<Edge, nat>, ran: seq<nat>, pos: seq<nat>, front: nat, now: nat) {
    |ran| == |pos| == |g| && forall e :: e in fired ==>
      IsEdge(g, e) && g[e.0][e.1].value < |g| && fired[e] <= ran[e.0] <= now && (g[e.0][e.1].value in Queued(pos, front) || ran[g[e.0][e.1].value] > fired[e])
  }

  lemma RunsNow(g: Graph, fired: map<Edge, nat>, ran: seq<nat>, pos: seq<nat>, front: nat, now: nat, b: nat)
    requires Pending(g, fired, ran, pos, front, now) && b < |g| && Queued(pos, front + 1) == Queued(pos, front) - {b}
    requires ran[b] <= now
    ensures Pending(g, fired, ran[b := now + 1], pos, front + 1, now + 1)
  {
  }

  lemma Fires(g: Graph, fired: map<Edge, nat>, ran: seq<nat>, pos: seq<nat>, pos': seq<nat>, front: nat, now: nat, e: Edge)
    requires Pending(g, fired, ran, pos, front, now) && IsEdge(g, e) && g[e.0][e.1].value < |g| && |pos'| == |pos|
    requires Queued(pos', front) == Queued(pos, front) + {g[e.0][e.1].value} && ran[e.0] == now
    ensures Pending(g, fired[e := now], ran, pos', front, now)
  {
  }

  class Worklist {
    const g: Graph
    /** The source branch of each input slot of each block. */
    const inputs: seq<seq<Edge>>
    const entry: nat
    const Q: array<nat>
    var front: nat
    var rear: nat
    /** `timestamp` and `queue_position` of each block, `visited` of each branch. */
    var stamp: seq<nat>
    var pos: seq<nat>
    var visited: seq<seq<bool>>

    /** How many blocks have been run, when each was run last, and when each branch was executed last. */
    ghost var now: nat
    ghost var ran: seq<nat>
    ghost var fired: map<Edge, nat>

    constructor (g: Graph, inputs: seq<seq<Edge>>, entry: nat)
      requires Proper(g, inputs, entry)
      ensures Valid() && fresh(Q) && this.g == g && this.inputs == inputs && this.entry == entry && now == 0
    {
      this.g, this.inputs, this.entry := g, inputs, entry;
      Q := new nat[MAX_BLOCKS](_ => 0);
      front, rear := 0, 1;
      stamp, pos, visited := seq(|g|, _ => 0), seq(|g|, _ => 0), seq(|g|, b requires 0 <= b < |g| => seq(|g[b]|, _ => false));
      now, ran, fired := 0, seq(|g|, _ => 0), map[];
      new;
      Q[0] := entry;
    }

    /** Only the entry is queued, and every position is zero. */
    ghost predicate Starting()
      requires Shaped()
      reads this, Q
    {
      && now == 0 && front == 0 && rear == 1 && Q[0] == entry && fired == map[]
      && (forall b :: 0 <= b < |g| ==> pos[b] == 0 && ran[b] == 0)
      && (forall b, j :: 0 <= b < |g| && 0 <= j < |g[b]| ==> !visited[b][j])
    }

    ghost predicate Shaped()
      reads this, Q
    {
      && Proper(g, inputs, entry) && Q.Length == MAX_BLOCKS
      && |stamp| == |pos| == |visited| == |ran| == |g| && forall b :: 0 <= b < |g| ==> |visited[b]| == |g[b]|
    }

    /** Between two runs of blocks, once the first has been taken off the queue. */
    ghost predicate Running()
      reads this, Q
    {
      && now >= 1 && front >= 1 && Ring(Q[..], front, rear, pos)
      && Pending(g, fired, ran, pos, front, now)
    }

    /** Every branch of a block that has run was executed, and the visited flags are set for exactly the executed branches. */
    ghost predicate Complete()
      reads this
      requires |visited| == |ran| == |g|
    {
      AllFired(g, ran, fired, visited)
    }

    ghost predicate Valid()
      reads this, Q
    {
      Shaped() && Stamped(now, rear, ran, stamp) && Complete() && (Starting() || Running()) && (now > 0 ==> EntryKnown())
    }

    /** The entry has been run. */
    ghost predicate EntryKnown()
      reads this
    {
      entry < |ran| && ran[entry] > 0
    }

    /** Which inputs of block `b` have not been recomputed since it ran last; then its timestamp is renewed. */
    method ComputeInput(b: nat) returns (skipped: seq<bool>)
      requires Shaped() && b < |g| && Stamped(now, rear, ran, stamp)
      modifies this`stamp
      ensures stamp == old(stamp)[b := rear]
      ensures |skipped| == |inputs[b]|
      ensures forall k :: 0 <= k < |skipped| ==> (skipped[k] <==> old(stamp)[inputs[b][k].0] < old(stamp)[b])
      ensures forall k :: 0 <= k < |skipped| && skipped[k] ==> ran[inputs[b][k].0] < ran[b]
    {
      skipped := [];
      for k := 0 to |inputs[b]|
        invariant stamp == old(stamp) && |skipped| == k
        invariant forall m :: 0 <= m < k ==> (skipped[m] <==> stamp[inputs[b][m].0] < stamp[b])
        invariant forall m :: 0 <= m < k && skipped[m] ==> ran[inputs[b][m].0] < ran[b]
      {
        skipped := skipped + [stamp[b] > stamp[inputs[b][k].0]];
      }
      stamp := stamp[b := rear];
    }

    /** Takes the next block off the queue. */
    method Take() returns (b: nat)
      requires Valid() && front < rear
      modifies this`front
      ensures front == old(front) + 1 && b == old(Q[front % MAX_BLOCKS]) && b < |g| && Ring(Q[..], front, rear, pos)
      ensures old(now) == 0 ==> b == entry
      ensures Pending(g, fired, ran[b := now + 1], pos, front, now + 1)
    {
      hide Stamped, AllFired, Proper;
      b := Q[front % MAX_BLOCKS];
      if now > 0 {
        Dequeue(Q[..], front, rear, pos);
        RanBefore(now, rear, ran, stamp, b);
        RunsNow(g, fired, ran, pos, front, now, b);
      } else {
        EntryIn(g, inputs, entry);
        assert Queued(pos, 1) == {};
      }
      front := front + 1;
    }

    /** Puts a block on the queue unless it is there. */
    method Put(t: nat)
      requires Q.Length == MAX_BLOCKS && t < |pos| && Ring(Q[..], front, rear, pos)
      modifies this`rear, this`pos, Q
      ensures Ring(Q[..], front, rear, pos) && |pos| == old(|pos|) && old(rear) <= rear <= old(rear) + 1
      ensures Queued(pos, front) == Queued(old(pos), front) + {t}
    {
      hide Ring;
      if pos[t] < front {
        Enqueue(Q[..], front, rear, pos, t);
        ghost var was := Q[..];
        pos := pos[t := rear];
        Q[rear % MAX_BLOCKS] := t;
        assert Q[..] == was[rear % MAX_BLOCKS := t];
        rear := rear + 1;
      } else {
        assert t in Queued(pos, front);
      }
    }

    /** Executes the branches of block `b` whose input has changed or that were never executed, queueing their targets. */
    method RunBranches(b: nat, changed: Edge -> bool)
      requires Shaped() && b < |g| && Ring(Q[..], front, rear, pos) && Stamped(now, rear, ran, stamp)
      requires Pending(g, fired, ran, pos, front, now) && FiredBut(g, ran, fired, visited, b, 0) && ran[b] == now
      modifies this`rear, this`pos, this`visited, this`fired, Q
      ensures Shaped() && Ring(Q[..], front, rear, pos) && Stamped(now, rear, ran, stamp)
      ensures Pending(g, fired, ran, pos, front, now) && AllFired(g, ran, fired, visited)
      ensures Executed(g, old(fired), changed, fired, pos, front, now, b, |g[b]|)
      ensures Queued(old(pos), front) <= Queued(pos, front)
      ensures rear + |Unfired(g, fired)| <= old(rear) + |Unfired(g, old(fired))| + |Changing(g, changed, b, |g[b]|)|
    {
      hide Ring, Stamped, Pending, FiredBut, AllFired, Executed, Queued, Proper, Unfired, Changing;
      ghost var fired0, visited0, pos0, rear0 := fired, visited, pos, rear;
      NothingExecuted(g, fired0, changed, pos, front, now, b);
      NoneChanging(g, changed, b);
      for j := 0 to |g[b]|
        invariant Shaped() && Ring(Q[..], front, rear, pos) && Stamped(now, rear, ran, stamp)
        invariant Pending(g, fired, ran, pos, front, now) && FiredBut(g, ran, fired, visited, b, j)
        invariant Executed(g, fired0, changed, fired, pos, front, now, b, j)
        invariant Queued(pos0, front) <= Queued(pos, front)
        invariant rear + |Unfired(g, fired)| <= rear0 + |Unfired(g, fired0)| + |Changing(g, changed, b, j)|
        invariant forall m :: j <= m < |g[b]| ==> ((b, m) in fired <==> (b, m) in fired0) && ((b, m) in fired ==> fired[(b, m)] == fired0[(b, m)])
      {
        if g[b][j].None? || (!changed((b, j)) && visited[b][j]) {
          if g[b][j].Some? {
            FlagOf(g, ran, fired, visited, b, j);
          }
          BranchSkips(g, ran, fired, visited, b, j);
          MoreChanging(g, changed, b, j);
          ExecutedSame(g, fired0, changed, fired, pos, front, now, b, j);
        } else {
          ProperEdge(g, inputs, entry, (b, j));
          ghost var pos1, rear1 := pos, rear;
          Put(g[b][j].value);
          StampLater(now, rear1, rear, ran, stamp);
          Fires(g, fired, ran, pos1, pos, front, now, (b, j));
          FlagOf(g, ran, fired, visited, b, j);
          BranchFires(g, ran, fired, visited, b, j, now);
          MoreFired(g, fired, changed, b, j, now);
          ExecutedMore(g, fired0, changed, fired, pos1, pos, front, now, b, j);
          visited := visited[b := visited[b][j := true]];
          fired := fired[(b, j) := now];
        }
      }
      BranchesDone(g, ran, fired, visited, b);
    }

    lemma FiredWhenRun()
      requires Valid()
      ensures forall e :: e in fired ==> e.0 < |ran| && fired[e] <= ran[e.0]
    {
    }

    /** One round: a block is taken off the queue, its input computed and its branches executed. */
    method Step(changed: Edge -> bool) returns (b: nat, skipped: seq<bool>)
      requires Valid() && front < rear
      modifies this, Q
      ensures Valid() && now == old(now) + 1 && front == old(front) + 1
      ensures b == old(Q[front % MAX_BLOCKS]) && b < |g| && ran == old(ran)[b := now]
      ensures |skipped| == |inputs[b]| && forall k :: 0 <= k < |skipped| && skipped[k] ==> old(ran)[inputs[b][k].0] < old(ran)[b]
      ensures forall k :: 0 <= k < |skipped| && skipped[k] && inputs[b][k] in old(fired) ==> old(fired)[inputs[b][k]] < old(ran)[b]
      ensures Executed(g, old(fired), changed, fired, pos, front, now, b, |g[b]|)
      ensures Queued(old(pos), front) <= Queued(pos, front)
      ensures rear + |Unfired(g, fired)| <= old(rear) + |Unfired(g, old(fired))| + |Changing(g, changed, b, |g[b]|)|
    {
      hide Ring, Stamped, Pending, FiredBut, AllFired, Executed, Queued, Proper, Unfired, Changing;
      FiredWhenRun();
      b := Take();
      skipped := ComputeInput(b);
      StampNow(now, rear, ran, old(stamp), b);
      BlockRuns(g, ran, fired, visited, b, now + 1);
      now := now + 1;
      ran := ran[b := now];
      RunBranches(b, changed);
    }

    /** When the queue is empty, no update is lost: whatever was executed has been taken up by a later run. */
    lemma NothingLost()
      requires Valid() && front == rear
      ensures forall e :: e in fired ==> IsEdge(g, e) && g[e.0][e.1].value < |ran| && ran[g[e.0][e.1].value] > fired[e]
      ensures forall b :: 0 <= b < |g| && Reachable(g, entry, b) ==> ran[b] > 0
    {
      assert Queued(pos, front) == {};
      forall b | 0 <= b < |g| && Reachable(g, entry, b)
        ensures ran[b] > 0
      {
        var p :| EndsAt(g, entry, p, b);
        WalkRan(p);
      }
    }

    lemma {:induction false} WalkRan(p: seq<nat>)
      requires Valid() && front == rear && Queued(pos, front) == {} && IsWalk(g, entry, p)
      ensures ran[p[|p| - 1]] > 0
    {
      var n := |p| - 1;
      if n > 0 {
        forall k | 0 <= k < n - 1
          ensures StepAt(g, p[..n], k)
        {
          assert StepAt(g, p, k);
        }
        WalkRan(p[..n]);
        assert StepAt(g, p, n - 1);
        var j: nat :| LeadsTo(g, (p[n - 1], j), p[n]);
        assert (p[n - 1], j) in fired;
      }
    }

    /**
     Rounds until the queue is empty or the script ends. There are at most as many rounds as there are branches and
     reported changes, and one more: a script that is longer empties the queue.
     */
    method Run(script: seq<Edge -> bool>) returns (rounds: nat)
      requires Valid() && now == 0
      modifies this, Q
      ensures Valid() && rounds <= |script| && now == rounds && (rounds < |script| ==> front == rear)
      ensures front == rear ==> forall e :: e in fired ==> IsEdge(g, e) && g[e.0][e.1].value < |ran| && ran[g[e.0][e.1].value] > fired[e]
      ensures front == rear ==> forall b :: 0 <= b < |g| && Reachable(g, entry, b) ==> ran[b] > 0
      ensures rounds <= |Edges(g)| + Changes(g, script) + 1
      ensures |script| > |Edges(g)| + Changes(g, script) ==> front == rear
      ensures |script| > |Edges(g)| && Quiet(g, script) ==> front == rear
    {
      hide Unfired, Edges, Changing;
      rounds := 0;
      UnfiredAll(g, fired);
      Changeless(g, script);
      if Quiet(g, script) {
        NoChanges(g, script);
      }
      while rounds < |script| && front < rear
        invariant Valid() && rounds <= |script| && now == rounds == front <= rear
        invariant rear + |Unfired(g, fired)| <= 1 + |Edges(g)| + Changes(g, script[..rounds])
      {
        var b, skipped := Step(script[rounds]);
        RingOrder();
        MoreChanges(g, script, rounds, b);
        rounds := rounds + 1;
      }
      ChangesGrow(g, script, rounds);
      if front == rear {
        NothingLost();
      }
    }

    lemma RingOrder()
      requires Valid()
      ensures front <= rear
    {
    }
  }

  // ---------- how long a run can last ----------

  ghost function Edges(g: Graph): (r: set<Edge>)
    ensures forall e :: e in r <==> IsEdge(g, e)
  {
    set b, j | 0 <= b < |g| && 0 <= j < |g[b]| && g[b][j].Some? :: (b, j)
  }

  /** The branches that have never been executed. */
  ghost function Unfired(g: Graph, fired: map<Edge, nat>): set<Edge> {
    Edges(g) - fired.Keys
  }

  /** The branches of block `b` before `j` whose input is reported as changed. */
  ghost function Changing(g: Graph, changed: Edge -> bool, b: nat, j: nat): set<Edge> {
    set e | e in Edges(g) && e.0 == b && e.1 < j && changed(e)
  }

  /** How many changes a script reports, over all branches. */
  ghost function Changes(g: Graph, script: seq<Edge -> bool>): nat {
    if script == [] then 0
    else
      var n := |script| - 1;
      Changes(g, script[..n]) + |set e | e in Edges(g) && script[n](e)|
  }

  lemma NoneChanging(g: Graph, changed: Edge -> bool, b: nat)
    ensures Changing(g, changed, b, 0) == {}
  {
  }

  lemma MoreChanging(g: Graph, changed: Edge -> bool, b: nat, j: nat)
    ensures |Changing(g, changed, b, j)| <= |Changing(g, changed, b, j + 1)|
  {
    Smaller(Changing(g, changed, b, j), Changing(g, changed, b, j + 1));
  }

  lemma OneChanging(g: Graph, changed: Edge -> bool, b: nat, j: nat)
    requires IsEdge(g, (b, j)) && changed((b, j))
    ensures |Changing(g, changed, b, j + 1)| == |Changing(g, changed, b, j)| + 1
  {
    hide Edges;
    assert Changing(g, changed, b, j + 1) == Changing(g, changed, b, j) + {(b, j)};
  }

  lemma UnfiredLess(g: Graph, fired: map<Edge, nat>, e: Edge, now: nat)
    requires IsEdge(g, e)
    ensures |Unfired(g, fired)| == |Unfired(g, fired[e := now])| + if e in fired then 0 else 1
  {
    hide Edges;
    assert fired[e := now].Keys == fired.Keys + {e};
    OneLess(Edges(g), fired.Keys, e);
  }

  lemma OneLess<T>(all: set<T>, s: set<T>, e: T)
    requires e in all
    ensures |all - s| == |all - (s + {e})| + if e in s then 0 else 1
  {
    assert all - s == (all - (s + {e})) + if e in s then {} else {e};
  }

  /** Executing a branch uses it up if it was new, and was reported as changed otherwise. */
  lemma MoreFired(g: Graph, fired: map<Edge, nat>, changed: Edge -> bool, b: nat, j: nat, now: nat)
    requires IsEdge(g, (b, j)) && (changed((b, j)) || (b, j) !in fired)
    ensures 1 + |Unfired(g, fired[(b, j) := now])| + |Changing(g, changed, b, j)| <= |Unfired(g, fired)| + |Changing(g, changed, b, j + 1)|
  {
    hide Unfired, Changing;
    UnfiredLess(g, fired, (b, j), now);
    MoreChanging(g, changed, b, j);
    if (b, j) in fired {
      OneChanging(g, changed, b, j);
    }
  }

  lemma UnfiredAll(g: Graph, fired: map<Edge, nat>)
    ensures |Unfired(g, fired)| <= |Edges(g)|
  {
    Smaller(Unfired(g, fired), Edges(g));
  }

  lemma Changeless(g: Graph, script: seq<Edge -> bool>)
    ensures Changes(g, script[..0]) == 0
  {
  }

  lemma MoreChanges(g: Graph, script: seq<Edge -> bool>, k: nat, b: nat)
    requires k < |script| && b < |g|
    ensures Changes(g, script[..k]) + |Changing(g, script[k], b, |g[b]|)| <= Changes(g, script[..k + 1])
  {
    assert script[..k + 1][..k] == script[..k];
    Smaller(Changing(g, script[k], b, |g[b]|), set e | e in Edges(g) && script[k](e));
  }

  lemma {:induction false} ChangesGrow(g: Graph, script: seq<Edge -> bool>, k: nat)
    requires k <= |script|
    ensures Changes(g, script[..k]) <= Changes(g, script)
  {
    if k == |script| {
      assert script[..k] == script;
    } else {
      ChangesGrow(g, script[..|script| - 1], k);
      assert script[..|script| - 1][..k] == script[..k];
    }
  }

  /** No input is ever reported as changed. */
  ghost predicate Quiet(g: Graph, script: seq<Edge -> bool>) {
    forall k, e :: 0 <= k < |script| && IsEdge(g, e) ==> !script[k](e)
  }

  lemma {:induction false} NoChanges(g: Graph, script: seq<Edge -> bool>)
    requires Quiet(g, script)
    ensures Changes(g, script) == 0
  {
    if script != [] {
      var n := |script| - 1;
      NoChanges(g, script[..n]);
      assert (set e | e in Edges(g) && script[n](e)) == {};
    }
  }

  lemma FlagOf(g: Graph, ran: seq<nat>, fired: map<Edge, nat>, visited: seq<seq<bool>>, b: nat, j: nat)
    requires FiredBut(g, ran, fired, visited, b, j) && b < |g| && j < |g[b]| == |visited[b]| && g[b][j].Some?
    ensures visited[b][j] <==> (b, j) in fired
  {
    assert IsEdge(g, (b, j));
  }

  /** The branches of block `b` before `j` that were to be executed have been, and their targets are queued. */
  ghost predicate Executed(g: Graph, fired0: map<Edge, nat>, changed: Edge -> bool, fired: map<Edge, nat>, pos: seq<nat>,
                           front: nat, now: nat, b: nat, j: nat) {
    && (forall e :: e in fired0 && e.0 != b ==> e in fired && fired[e] == fired0[e])
    && (forall e :: e in fired && e !in fired0 ==> e.0 == b)
    && forall e: Edge :: IsEdge(g, e) && e.0 == b && e.1 < j ==>
        if changed(e) || e !in fired0 then e in fired && fired[e] == now && g[e.0][e.1].value in Queued(pos, front)
        else e in fired && fired[e] == fired0[e]
  }

  lemma ExecutedMore(g: Graph, fired0: map<Edge, nat>, changed: Edge -> bool, fired: map<Edge, nat>, pos: seq<nat>, pos': seq<nat>,
                     front: nat, now: nat, b: nat, j: nat)
    requires b < |g| && j < |g[b]| && g[b][j].Some? && Executed(g, fired0, changed, fired, pos, front, now, b, j)
    requires changed((b, j)) || (b, j) !in fired0
    requires Queued(pos', front) == Queued(pos, front) + {g[b][j].value}
    ensures Executed(g, fired0, changed, fired[(b, j) := now], pos', front, now, b, j + 1)
  {
  }

  lemma ExecutedSame(g: Graph, fired0: map<Edge, nat>, changed: Edge -> bool, fired: map<Edge, nat>, pos: seq<nat>,
                     front: nat, now: nat, b: nat, j: nat)
    requires b < |g| && j < |g[b]| && Executed(g, fired0, changed, fired, pos, front, now, b, j)
    requires g[b][j].None? || (!changed((b, j)) && (b, j) in fired0)
    requires (b, j) in fired <==> (b, j) in fired0
    requires (b, j) in fired ==> fired[(b, j)] == fired0[(b, j)]
    ensures Executed(g, fired0, changed, fired, pos, front, now, b, j + 1)
  {
  }

  lemma RanBefore(now: nat, rear: nat, ran: seq<nat>, stamp: seq<nat>, b: nat)
    requires Stamped(now, rear, ran, stamp) && b < |ran|
    ensures ran[b] <= now
  {
  }

  lemma ProperEdge(g: Graph, inputs: seq<seq<Edge>>, entry: nat, e: Edge)
    requires Proper(g, inputs, entry) && IsEdge(g, e)
    ensures g[e.0][e.1].value < |g|
  {
    EdgeInRange(g, e);
  }

  lemma StampLater(now: nat, rear: nat, rear': nat, ran: seq<nat>, stamp: seq<nat>)
    requires Stamped(now, rear, ran, stamp) && rear <= rear'
    ensures Stamped(now, rear', ran, stamp)
  {
  }

  lemma NothingExecuted(g: Graph, fired: map<Edge, nat>, changed: Edge -> bool, pos: seq<nat>, front: nat, now: nat, b: nat)
    ensures Executed(g, fired, changed, fired, pos, front, now, b, 0)
  {
  }

  lemma EntryIn(g: Graph, inputs: seq<seq<Edge>>, entry: nat)
    requires Proper(g, inputs, entry)
    ensures entry < |g| <= MAX_BLOCKS
  {
  }

  /** Every branch leads to a block, every input slot names a block, and the blocks fit the ring. */
  ghost predicate Proper(g: Graph, inputs: seq<seq<Edge>>, entry: nat) {
    && Closed(g) && entry < |g| <= MAX_BLOCKS && |inputs| == |g|
    && forall b, k :: 0 <= b < |g| && 0 <= k < |inputs[b]| ==> inputs[b][k].0 < |g|
  }

  ghost predicate AllFired(g: Graph, ran: seq<nat>, fired: map<Edge, nat>, visited: seq<seq<bool>>) {
    FiredBut(g, ran, fired, visited, |g|, 0)
  }

  /**
   Every branch of a block that has run was executed, except those of block `b` from `j` on; the flags say which
   branches have been executed.
   */
  ghost predicate FiredBut(g: Graph, ran: seq<nat>, fired: map<Edge, nat>, visited: seq<seq<bool>>, b: nat, j: nat) {
    && |ran| == |visited| == |g|
    && (forall e: Edge :: IsEdge(g, e) && ran[e.0] > 0 && !(e.0 == b && e.1 >= j) ==> e in fired)
    && (forall e: Edge :: IsEdge(g, e) && e.1 < |visited[e.0]| ==> (visited[e.0][e.1] <==> e in fired))
  }

  lemma BlockRuns(g: Graph, ran: seq<nat>, fired: map<Edge, nat>, visited: seq<seq<bool>>, b: nat, now: nat)
    requires AllFired(g, ran, fired, visited) && b < |g|
    ensures FiredBut(g, ran[b := now], fired, visited, b, 0)
  {
  }

  lemma BranchFires(g: Graph, ran: seq<nat>, fired: map<Edge, nat>, visited: seq<seq<bool>>, b: nat, j: nat, now: nat)
    requires FiredBut(g, ran, fired, visited, b, j) && b < |g| && j < |g[b]| == |visited[b]|
    ensures FiredBut(g, ran, fired[(b, j) := now], visited[b := visited[b][j := true]], b, j + 1)
  {
  }

  lemma BranchSkips(g: Graph, ran: seq<nat>, fired: map<Edge, nat>, visited: seq<seq<bool>>, b: nat, j: nat)
    requires FiredBut(g, ran, fired, visited, b, j) && b < |g| && j < |g[b]| == |visited[b]|
    requires g[b][j].None? || visited[b][j]
    ensures FiredBut(g, ran, fired, visited, b, j + 1)
  {
    forall e: Edge | IsEdge(g, e) && ran[e.0] > 0 && !(e.0 == b && e.1 >= j + 1)
      ensures e in fired
    {
      if e == (b, j) {
        assert visited[e.0][e.1];
      }
    }
  }

  lemma BranchesDone(g: Graph, ran: seq<nat>, fired: map<Edge, nat>, visited: seq<seq<bool>>, b: nat)
    requires b < |g| && FiredBut(g, ran, fired, visited, b, |g[b]|)
    ensures AllFired(g, ran, fired, visited)
  {
  }
}
