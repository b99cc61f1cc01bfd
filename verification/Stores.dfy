/**
 The reference-counted store of a frame: cascading decrements, detaching and compaction.
 */
module Stores {
  import opened Values

  datatype Slot = Slot(value: Option<Value>, refcnt: nat)

  /** What an address means to a store: the number of its slots and its relocated addresses. */
  datatype Env = Env(size: nat, reloc: map<nat, nat>)

  /** The slot an address stands for, -1 for constants and addresses the store does not know. */
  function Resolve(env: Env, a: nat): (i: int)
    ensures -1 <= i < env.size
  {
    if IsConst(a) then -1
    else if IsReloc(a) then (if a in env.reloc && env.reloc[a] < env.size then env.reloc[a] else -1)
    else if IsObj(a) && a < env.size then a else -1
  }

  /** Address `a` names slot `i`: an object address itself, a relocated one through the relocation map. */
  ghost predicate Names(reloc: map<nat, nat>, a: nat, i: int) {
    (IsObj(a) && i == a) || (IsReloc(a) && a in reloc && i == reloc[a])
  }

  /** Addresses are looked up as they are meant: object addresses directly, relocated ones through the map. */
  lemma ResolveNames(env: Env, a: nat, i: int)
    ensures 0 <= i < env.size ==> (Resolve(env, a) == i <==> Names(env.reloc, a, i))
    ensures Resolve(env, a) == -1 <==> !exists j :: 0 <= j < env.size && Names(env.reloc, a, j)
  {
    if Resolve(env, a) >= 0 {
      assert Names(env.reloc, a, Resolve(env, a));
    }
  }

  // ---------- counting references ----------

  ghost function Pointing(env: Env, s: set<nat>, i: int): set<nat> {
    set a | a in s && Resolve(env, a) == i
  }

  function PointingSeq(env: Env, ms: seq<nat>, i: int): nat {
    if ms == [] then 0 else (if Resolve(env, ms[0]) == i then 1 else 0) + PointingSeq(env, ms[1..], i)
  }

  /** How many of the addresses in a value stand for slot `i`. */
  ghost function Count(env: Env, v: Value, i: int): nat {
    match v
    case SetValue(c) => |Pointing(env, c.addrs, i)|
    case ObjectValue(ms, _) => PointingSeq(env, ms, i)
  }

  ghost function Total(env: Env, hs: seq<Value>, i: int): nat {
    if hs == [] then 0 else Total(env, hs[..|hs| - 1], i) + Count(env, hs[|hs| - 1], i)
  }

  const NOTHING := SetValue(EMPTY_SET)

  /** A holder of just one reference. */
  function One(a: nat): Value {
    SetValue(AddrSet({a}, {}))
  }

  function HeldBy(s: Slot): Value {
    if s.value.Some? then s.value.value else NOTHING
  }

  function Held(slots: seq<Slot>): (hs: seq<Value>)
    ensures |hs| == |slots| && forall i :: 0 <= i < |slots| ==> hs[i] == HeldBy(slots[i])
  {
    seq(|slots|, i requires 0 <= i < |slots| => HeldBy(slots[i]))
  }

  /** All references to slot `i`: from the holders outside and from the live cells. */
  ghost function Refs(env: Env, slots: seq<Slot>, hs: seq<Value>, i: int): nat {
    Total(env, hs, i) + Total(env, Held(slots), i)
  }

  predicate Live(slots: seq<Slot>, i: int) {
    0 <= i < |slots| && slots[i].value.Some?
  }

  /** An address that can be referenced: a constant or a live cell. */
  predicate Known(env: Env, slots: seq<Slot>, a: nat) {
    (IsConst(a) && a != NULL_ADDR) || Live(slots, Resolve(env, a))
  }

  /** Every live cell is counted at least as often as it is referenced. */
  ghost predicate Bound(env: Env, slots: seq<Slot>, hs: seq<Value>) {
    forall i :: Live(slots, i) ==> slots[i].refcnt >= Refs(env, slots, hs, i)
  }

  /** Every live cell is counted exactly as often as it is referenced. */
  ghost predicate Exact(env: Env, slots: seq<Slot>, hs: seq<Value>) {
    forall i :: Live(slots, i) ==> slots[i].refcnt == Refs(env, slots, hs, i)
  }

  /** No live cell has a zero counter, except possibly `but`. */
  ghost predicate Positive(slots: seq<Slot>, but: int) {
    forall i :: Live(slots, i) && i != but ==> slots[i].refcnt >= 1
  }

  /** The counter of a cell that has died is zero, except possibly that of `but`. */
  ghost predicate Spent(was: seq<Slot>, now: seq<Slot>, but: int) {
    forall i :: Live(was, i) && !Live(now, i) && i != but && i < |now| ==> now[i].refcnt == 0
  }

  lemma CountNothing(env: Env, i: int)
    ensures Count(env, NOTHING, i) == 0
  {
    assert Pointing(env, {}, i) == {};
  }

  lemma CountOne(env: Env, a: nat, i: int)
    ensures Count(env, One(a), i) == if Resolve(env, a) == i then 1 else 0
  {
    assert Pointing(env, {a}, i) == if Resolve(env, a) == i then {a} else {};
  }

  lemma CountSetRemove(env: Env, s: set<nat>, tags: set<Tag>, a: nat, i: int)
    requires a in s
    ensures Count(env, SetValue(AddrSet(s, tags)), i) == Count(env, SetValue(AddrSet(s - {a}, tags)), i) + Count(env, One(a), i)
  {
    CountOne(env, a, i);
    if Resolve(env, a) == i {
      assert Pointing(env, s, i) == Pointing(env, s - {a}, i) + {a};
    } else {
      assert Pointing(env, s, i) == Pointing(env, s - {a}, i);
    }
  }

  /** References are counted per address that names the slot: once in a set, once per member of an object. */
  lemma CountNames(env: Env, v: Value, i: int)
    requires 0 <= i < env.size
    ensures v.SetValue? ==> Count(env, v, i) == |set a | a in v.contents.addrs && Names(env.reloc, a, i)|
    ensures v.ObjectValue? ==> Count(env, v, i) == |set k | 0 <= k < |v.members| && Names(env.reloc, v.members[k], i)|
  {
    match v
    case SetValue(c) =>
      forall a
        ensures Resolve(env, a) == i <==> Names(env.reloc, a, i)
      {
        ResolveNames(env, a, i);
      }
      assert Pointing(env, c.addrs, i) == set a | a in c.addrs && Names(env.reloc, a, i);
    case ObjectValue(ms, _) => MembersNamed(env, ms, i, |ms|);
  }

  lemma {:induction false} MembersNamed(env: Env, ms: seq<nat>, i: int, n: nat)
    requires 0 <= i < env.size && n <= |ms|
    ensures PointingSeq(env, ms[|ms| - n..], i) == |set k | |ms| - n <= k < |ms| && Names(env.reloc, ms[k], i)|
  {
    if n > 0 {
      var m := |ms| - n;
      MembersNamed(env, ms, i, n - 1);
      ResolveNames(env, ms[m], i);
      assert ms[m..][1..] == ms[m + 1..];
      var all, rest := set k | m <= k < |ms| && Names(env.reloc, ms[k], i), set k | m + 1 <= k < |ms| && Names(env.reloc, ms[k], i);
      assert all == if Names(env.reloc, ms[m], i) then rest + {m} else rest;
    }
  }

  lemma {:induction false} TotalUpdate(env: Env, hs: seq<Value>, k: nat, v: Value, i: int)
    requires k < |hs|
    ensures Total(env, hs[k := v], i) + Count(env, hs[k], i) == Total(env, hs, i) + Count(env, v, i)
  {
    var n := |hs| - 1;
    if k == n {
      assert hs[k := v][..n] == hs[..n];
    } else {
      assert hs[k := v][..n] == hs[..n][k := v];
      TotalUpdate(env, hs[..n], k, v, i);
    }
  }

  lemma TotalSnoc(env: Env, hs: seq<Value>, v: Value, i: int)
    ensures Total(env, hs + [v], i) == Total(env, hs, i) + Count(env, v, i)
  {
    assert (hs + [v])[..|hs|] == hs;
  }

  lemma {:induction false} TotalAtLeast(env: Env, hs: seq<Value>, k: nat, i: int)
    requires k < |hs|
    ensures Total(env, hs, i) >= Count(env, hs[k], i)
  {
    if k < |hs| - 1 {
      TotalAtLeast(env, hs[..|hs| - 1], k, i);
    }
  }

  lemma {:induction false} TotalConcat(env: Env, xs: seq<Value>, ys: seq<Value>, i: int)
    ensures Total(env, xs + ys, i) == Total(env, xs, i) + Total(env, ys, i)
  {
    if ys == [] {
      assert xs + ys == xs;
    } else {
      assert (xs + ys)[..|xs + ys| - 1] == xs + ys[..|ys| - 1];
      TotalConcat(env, xs, ys[..|ys| - 1], i);
    }
  }

  // ---------- what a cascade may do ----------

  /** Cells have only been emptied; the counter of an empty cell does not change. */
  ghost predicate Shrunk(was: seq<Slot>, now: seq<Slot>) {
    && |was| == |now|
    && forall i :: 0 <= i < |was| ==>
        if was[i].value.None? then now[i] == was[i] else now[i].value == was[i].value || now[i].value.None?
  }

  /** Every cell that has died is unreferenced. */
  ghost predicate Kept(env: Env, was: seq<Slot>, now: seq<Slot>, hs: seq<Value>) {
    forall i :: Live(was, i) && !Live(now, i) ==> Refs(env, now, hs, i) == 0
  }

  lemma {:induction false} TotalMonotone(env: Env, xs: seq<Value>, ys: seq<Value>, i: int)
    requires |xs| == |ys| && forall k :: 0 <= k < |xs| ==> Count(env, xs[k], i) <= Count(env, ys[k], i)
    ensures Total(env, xs, i) <= Total(env, ys, i)
  {
    if xs != [] {
      TotalMonotone(env, xs[..|xs| - 1], ys[..|ys| - 1], i);
    }
  }

  lemma ShrunkRefs(env: Env, was: seq<Slot>, now: seq<Slot>, hs: seq<Value>, i: int)
    requires Shrunk(was, now)
    ensures Refs(env, now, hs, i) <= Refs(env, was, hs, i)
  {
    CountNothing(env, i);
    TotalMonotone(env, Held(now), Held(was), i);
  }

  lemma KeptThenKept(env: Env, was: seq<Slot>, mid: seq<Slot>, now: seq<Slot>, hs: seq<Value>, hs': seq<Value>)
    requires Kept(env, was, mid, hs) && Kept(env, mid, now, hs') && Shrunk(was, mid) && Shrunk(mid, now)
    requires forall i :: Total(env, hs', i) <= Total(env, hs, i)
    ensures Kept(env, was, now, hs') && Shrunk(was, now)
  {
    forall i | Live(was, i) && !Live(now, i)
      ensures Refs(env, now, hs', i) == 0
    {
      ShrunkRefs(env, mid, now, hs', i);
    }
  }

  /** Giving up one reference: the counter goes down with it. */
  lemma DropOne(env: Env, slots: seq<Slot>, hs: seq<Value>, a: nat)
    requires env.size == |slots| && Bound(env, slots, hs + [One(a)])
    ensures var i := Resolve(env, a);
            if Live(slots, i) then slots[i].refcnt > 0 && Bound(env, slots[i := slots[i].(refcnt := slots[i].refcnt - 1)], hs)
            else Bound(env, slots, hs)
  {
    var i := Resolve(env, a);
    forall j {:trigger Live(slots, j)} | Live(slots, j)
      ensures slots[j].refcnt >= Refs(env, slots, hs, j) + if i == j then 1 else 0
    {
      TotalSnoc(env, hs, One(a), j);
      CountOne(env, a, j);
    }
    if Live(slots, i) {
      assert Held(slots[i := slots[i].(refcnt := slots[i].refcnt - 1)]) == Held(slots);
    }
  }

  lemma DropOneExact(env: Env, slots: seq<Slot>, hs: seq<Value>, a: nat)
    requires env.size == |slots| && Exact(env, slots, hs + [One(a)])
    ensures var i := Resolve(env, a);
            if Live(slots, i) then slots[i].refcnt > 0 && Exact(env, slots[i := slots[i].(refcnt := slots[i].refcnt - 1)], hs)
            else Exact(env, slots, hs)
  {
    var i := Resolve(env, a);
    forall j {:trigger Live(slots, j)} | Live(slots, j)
      ensures slots[j].refcnt == Refs(env, slots, hs, j) + if i == j then 1 else 0
    {
      TotalSnoc(env, hs, One(a), j);
      CountOne(env, a, j);
    }
    if Live(slots, i) {
      assert Held(slots[i := slots[i].(refcnt := slots[i].refcnt - 1)]) == Held(slots);
    }
  }

  /** Emptying a cell turns the references it held into pending ones. */
  lemma EmptyCell(env: Env, slots: seq<Slot>, hs: seq<Value>, i: nat)
    requires Live(slots, i)
    ensures forall j :: Refs(env, slots[i := slots[i].(value := None)], hs + [slots[i].value.value], j) == Refs(env, slots, hs, j)
    ensures Bound(env, slots, hs) ==> Bound(env, slots[i := slots[i].(value := None)], hs + [slots[i].value.value])
    ensures Exact(env, slots, hs) ==> Exact(env, slots[i := slots[i].(value := None)], hs + [slots[i].value.value])
  {
    var slots' := slots[i := slots[i].(value := None)];
    var v := slots[i].value.value;
    assert Held(slots') == Held(slots)[i := NOTHING];
    forall j
      ensures Refs(env, slots', hs + [v], j) == Refs(env, slots, hs, j)
    {
      TotalUpdate(env, Held(slots), i, NOTHING, j);
      TotalSnoc(env, hs, v, j);
      CountNothing(env, j);
    }
  }

  // ---------- entity counters of the blocks ----------

  function LiveSet(slots: seq<Slot>): set<int> {
    set i | 0 <= i < |slots| && Live(slots, i)
  }

  /** The live slots of block `b` when each block has `n` slots. */
  function LiveIn(slots: seq<Slot>, n: nat, b: int): set<int> {
    set i | 0 <= i < |slots| && Live(slots, i) && b * n <= i < (b + 1) * n
  }

  lemma LiveInCleared(slots: seq<Slot>, n: nat, i: nat, b: int)
    requires Live(slots, i) && n > 0
    ensures var slots' := slots[i := slots[i].(value := None)];
            |LiveIn(slots', n, b)| == |LiveIn(slots, n, b)| - if b == i / n then 1 else 0
  {
    var slots' := slots[i := slots[i].(value := None)];
    InBlock(i, n, b);
    if b == i / n {
      assert LiveIn(slots, n, b) == LiveIn(slots', n, b) + {i};
    } else {
      assert LiveIn(slots, n, b) == LiveIn(slots', n, b);
    }
  }

  lemma InBlock(i: nat, n: nat, b: int)
    requires n > 0
    ensures b == i / n <==> b * n <= i < (b + 1) * n
  {
    assert i == (i / n) * n + i % n;
    if b < i / n {
      assert (b + 1) * n <= (i / n) * n;
    } else if b > i / n {
      assert b * n >= (i / n + 1) * n;
    }
  }

  lemma LiveSetCleared(slots: seq<Slot>, i: nat)
    requires Live(slots, i)
    ensures LiveSet(slots[i := slots[i].(value := None)]) < LiveSet(slots)
  {
    assert i in LiveSet(slots);
  }

  lemma ShrunkLive(was: seq<Slot>, now: seq<Slot>)
    requires Shrunk(was, now)
    ensures LiveSet(now) <= LiveSet(was)
  {
  }

  /** What one cascade promises, given that the counters covered the references in `pre` before it. */
  ghost predicate Cascaded(env: Env, was: seq<Slot>, now: seq<Slot>, pre: seq<Value>, post: seq<Value>) {
    && (Bound(env, was, pre) ==> Bound(env, now, post) && Kept(env, was, now, post))
    && (Exact(env, was, pre) ==> Exact(env, now, post))
  }

  lemma CascadeSteps(env: Env, was: seq<Slot>, mid: seq<Slot>, now: seq<Slot>, h0: seq<Value>, h1: seq<Value>, h2: seq<Value>)
    requires Cascaded(env, was, mid, h0, h1) && Cascaded(env, mid, now, h1, h2) && Shrunk(was, mid) && Shrunk(mid, now)
    requires forall i :: Total(env, h2, i) <= Total(env, h1, i)
    ensures Cascaded(env, was, now, h0, h2) && Shrunk(was, now)
  {
    if Bound(env, was, h0) {
      KeptThenKept(env, was, mid, now, h1, h2);
    }
  }

  /** The same references, held differently. */
  ghost predicate SameRefs(env: Env, xs: seq<Value>, ys: seq<Value>) {
    forall i :: Total(env, xs, i) == Total(env, ys, i)
  }

  lemma SameRefsBound(env: Env, slots: seq<Slot>, xs: seq<Value>, ys: seq<Value>)
    requires SameRefs(env, xs, ys) && Bound(env, slots, xs)
    ensures Bound(env, slots, ys)
  {
  }

  lemma SameRefsExact(env: Env, slots: seq<Slot>, xs: seq<Value>, ys: seq<Value>)
    requires SameRefs(env, xs, ys) && Exact(env, slots, xs)
    ensures Exact(env, slots, ys)
  {
  }

  lemma SplitSet(env: Env, hs: seq<Value>, s: set<nat>, tags: set<Tag>, a: nat)
    requires a in s
    ensures SameRefs(env, hs + [SetValue(AddrSet(s, tags))], hs + [SetValue(AddrSet(s - {a}, tags))] + [One(a)])
  {
    forall i
      ensures Total(env, hs + [SetValue(AddrSet(s, tags))], i) == Total(env, hs + [SetValue(AddrSet(s - {a}, tags))] + [One(a)], i)
    {
      TotalSnoc(env, hs, SetValue(AddrSet(s, tags)), i);
      TotalSnoc(env, hs, SetValue(AddrSet(s - {a}, tags)), i);
      TotalSnoc(env, hs + [SetValue(AddrSet(s - {a}, tags))], One(a), i);
      CountSetRemove(env, s, tags, a, i);
    }
  }

  lemma SplitObject(env: Env, hs: seq<Value>, ms: seq<nat>, tags: set<Tag>)
    requires ms != []
    ensures SameRefs(env, hs + [ObjectValue(ms, tags)], hs + [ObjectValue(ms[1..], tags)] + [One(ms[0])])
  {
    forall i
      ensures Total(env, hs + [ObjectValue(ms, tags)], i) == Total(env, hs + [ObjectValue(ms[1..], tags)] + [One(ms[0])], i)
    {
      TotalSnoc(env, hs, ObjectValue(ms, tags), i);
      TotalSnoc(env, hs, ObjectValue(ms[1..], tags), i);
      TotalSnoc(env, hs + [ObjectValue(ms[1..], tags)], One(ms[0]), i);
      CountOne(env, ms[0], i);
    }
  }

  lemma NothingPending(env: Env, hs: seq<Value>, v: Value)
    requires v == SetValue(AddrSet({}, {})) || (v.ObjectValue? && v.members == []) || (v.SetValue? && v.contents.addrs == {})
    ensures SameRefs(env, hs + [v], hs)
  {
    forall i
      ensures Total(env, hs + [v], i) == Total(env, hs, i)
    {
      TotalSnoc(env, hs, v, i);
      assert v.SetValue? ==> Pointing(env, {}, i) == {};
    }
  }

  /** One reference less to cover is still covered, and nobody has died. */
  lemma PendingGrows(env: Env, hs: seq<Value>, v: Value)
    ensures forall i :: Total(env, hs, i) <= Total(env, hs + [v], i)
  {
    forall i
      ensures Total(env, hs, i) <= Total(env, hs + [v], i)
    {
      TotalSnoc(env, hs, v, i);
    }
  }

  /** The cascade of a detached cell `i` leaves everything else that is referenced. */
  ghost predicate Swiped(env: Env, was: seq<Slot>, now: seq<Slot>, hs: seq<Value>, i: int) {
    && (Exact(env, was, hs) ==> Exact(env, now, hs))
    && (Bound(env, was, hs) ==>
          && Bound(env, now, hs)
          && forall j :: j != i && Live(was, j) && !Live(now, j) ==> Refs(env, now, hs, j) == 0)
  }

  lemma DecrefNothing(env: Env, slots: seq<Slot>, hs: seq<Value>, a: nat)
    requires env.size == |slots| && !Live(slots, Resolve(env, a))
    ensures Cascaded(env, slots, slots, hs + [One(a)], hs) && Shrunk(slots, slots)
  {
    if Bound(env, slots, hs + [One(a)]) {
      DropOne(env, slots, hs, a);
    }
    if Exact(env, slots, hs + [One(a)]) {
      DropOneExact(env, slots, hs, a);
    }
  }

  function Lowered(s: Slot): Slot {
    if s.refcnt > 0 then s.(refcnt := s.refcnt - 1) else s
  }

  lemma DecrefLower(env: Env, slots: seq<Slot>, hs: seq<Value>, a: nat)
    requires env.size == |slots| && Live(slots, Resolve(env, a))
    ensures var i := Resolve(env, a); var slots' := slots[i := Lowered(slots[i])];
            && Cascaded(env, slots, slots', hs + [One(a)], hs) && Shrunk(slots, slots')
            && LiveSet(slots') == LiveSet(slots)
  {
    if Bound(env, slots, hs + [One(a)]) {
      DropOne(env, slots, hs, a);
    }
    if Exact(env, slots, hs + [One(a)]) {
      DropOneExact(env, slots, hs, a);
    }
  }

  lemma SwipeUncounted(env: Env, was: seq<Slot>, now: seq<Slot>, hs: seq<Value>, i: nat)
    requires Swiped(env, was, now, hs, i) && Shrunk(was, now) && Live(was, i) && was[i].refcnt == 0
    ensures Cascaded(env, was, now, hs, hs)
  {
    ShrunkRefs(env, was, now, hs, i);
  }

  lemma SwipeCascade(env: Env, was: seq<Slot>, now: seq<Slot>, hs: seq<Value>, i: nat)
    requires Live(was, i)
    requires var mid := was[i := was[i].(value := None)];
             Shrunk(mid, now) && Cascaded(env, mid, now, hs + [was[i].value.value], hs)
    ensures Swiped(env, was, now, hs, i) && Shrunk(was, now) && now[i] == was[i].(value := None)
  {
    EmptyCell(env, was, hs, i);
  }

  // ---------- gaps between entity counters and live slots ----------

  /** Both states have the same gap in every block, except for `more` in block `at`. */
  ghost predicate GapsMoved(n: nat, was: seq<Slot>, wasEnt: seq<int>, now: seq<Slot>, nowEnt: seq<int>, at: int, more: int) {
    && |wasEnt| == |nowEnt|
    && forall b :: 0 <= b < |wasEnt| ==>
        nowEnt[b] - |LiveIn(now, n, b)| == wasEnt[b] - |LiveIn(was, n, b)| + if b == at then more else 0
  }

  lemma GapsCleared(n: nat, slots: seq<Slot>, ent: seq<int>, i: nat)
    requires Live(slots, i) && n > 0
    ensures GapsMoved(n, slots, ent, slots[i := slots[i].(value := None)], ent, i / n, 1)
  {
    forall b | 0 <= b < |ent| {
      LiveInCleared(slots, n, i, b);
    }
  }

  lemma GapsCounted(n: nat, slots: seq<Slot>, ent: seq<int>, b: int)
    requires 0 <= b < |ent|
    ensures GapsMoved(n, slots, ent, slots, ent[b := ent[b] - 1], b, -1)
  {
  }

  lemma GapsThen(n: nat, s0: seq<Slot>, e0: seq<int>, s1: seq<Slot>, e1: seq<int>, s2: seq<Slot>, e2: seq<int>, at: int, x: int, y: int)
    requires GapsMoved(n, s0, e0, s1, e1, at, x) && GapsMoved(n, s1, e1, s2, e2, at, y)
    ensures GapsMoved(n, s0, e0, s2, e2, at, x + y)
  {
  }

  lemma GapsSame(n: nat, s0: seq<Slot>, e: seq<int>, s1: seq<Slot>, at: int)
    requires |s0| == |s1| && LiveSet(s0) == LiveSet(s1)
    ensures GapsMoved(n, s0, e, s1, e, at, 0)
  {
    forall b | 0 <= b < |e|
      ensures LiveIn(s0, n, b) == LiveIn(s1, n, b)
    {
      forall i
        ensures i in LiveIn(s0, n, b) <==> i in LiveIn(s1, n, b)
      {
        assert i in LiveSet(s0) <==> i in LiveSet(s1);
      }
    }
  }

  lemma GapsAnywhere(n: nat, s0: seq<Slot>, e0: seq<int>, s1: seq<Slot>, e1: seq<int>, at: int, at': int)
    requires GapsMoved(n, s0, e0, s1, e1, at, 0)
    ensures GapsMoved(n, s0, e0, s1, e1, at', 0)
  {
  }

  lemma ScaleUp(x: nat, y: nat, n: nat)
    requires x <= y
    ensures x * n <= y * n
  {
  }

  lemma BlockOf(i: nat, n: nat, blocks: nat)
    requires n > 0 && i < blocks * n
    ensures 0 <= i / n < blocks
  {
    InBlock(i, n, i / n);
    if blocks <= i / n {
      ScaleUp(blocks, i / n, n);
    }
  }

  class Store {
    /** `CESK_STORE_BLOCK_NSLOTS`. */
    const blockSlots: nat
    var slots: seq<Slot>
    /** `num_ent` of each block. */
    var numEnt: seq<int>
    var reloc: map<nat, nat>

    ghost predicate Shaped()
      reads this
    {
      blockSlots > 0 && |slots| == |numEnt| * blockSlots
    }

    function TheEnv(): Env
      reads this
    {
      Env(|slots|, reloc)
    }

    /** The entity counter of every block is the number of its live slots. */
    ghost predicate Accurate()
      reads this
    {
      Shaped() && forall b :: 0 <= b < |numEnt| ==> numEnt[b] == |LiveIn(slots, blockSlots, b)|
    }

    /** Drops one reference; a cell whose counter reaches zero is swiped together with its references. */
    method Decref(a: nat, ghost hs: seq<Value>)
      requires Shaped()
      modifies this`slots, this`numEnt
      ensures Shaped() && Shrunk(old(slots), slots) && (Positive(old(slots), -1) ==> Positive(slots, -1))
      ensures GapsMoved(blockSlots, old(slots), old(numEnt), slots, numEnt, 0, 0)
      ensures Cascaded(TheEnv(), old(slots), slots, hs + [One(a)], hs)
      ensures Spent(old(slots), slots, -1) && Dropped(reloc, old(slots), slots, a)
      decreases LiveSet(slots), 2
    {
      hide GapsMoved, Cascaded, Swiped, Shrunk, Dropped, Spent;
      ghost var env, s0, e0 := TheEnv(), slots, numEnt;
      var i := Resolve(TheEnv(), a);
      if i < 0 || slots[i].value.None? {
        DecrefNothing(env, slots, hs, a);
        DropsNothing(env, slots, a);
        GapsSame(blockSlots, s0, e0, slots, 0);
        return;
      }
      DecrefLower(env, slots, hs, a);
      if slots[i].refcnt > 0 {
        slots := slots[i := slots[i].(refcnt := slots[i].refcnt - 1)];
      }
      ghost var s1 := slots;
      assert s1 == s0[i := Lowered(s0[i])];
      GapsSame(blockSlots, s0, e0, s1, i / blockSlots);
      GapsAnywhere(blockSlots, s0, e0, s1, e0, i / blockSlots, 0);
      if slots[i].refcnt == 0 {
        Swipe(i, hs);
        ShrunkSize(s1, slots);
        SwipeUncounted(env, s1, slots, hs, i);
        CascadeSteps(env, s0, s1, slots, hs + [One(a)], hs, hs);
        ghost var e1 := numEnt;
        BlockOf(i, blockSlots, |numEnt|);
        DropsLast(env, s0, s1, slots, a);
        numEnt := numEnt[i / blockSlots := numEnt[i / blockSlots] - 1];
        GapsCounted(blockSlots, slots, e1, i / blockSlots);
        GapsThen(blockSlots, s0, e0, s1, e0, slots, e1, i / blockSlots, 0, 1);
        GapsThen(blockSlots, s0, e0, slots, e1, slots, numEnt, i / blockSlots, 1, -1);
        GapsAnywhere(blockSlots, s0, e0, slots, numEnt, i / blockSlots, 0);
      } else {
        DropsOne(env, s0, s1, a);
      }
    }

    /** Empties slot `i` and drops the references of its value; the counter of its block is the caller's. */
    method Swipe(i: nat, ghost hs: seq<Value>)
      requires Shaped() && Live(slots, i)
      modifies this`slots, this`numEnt
      ensures Shaped() && Shrunk(old(slots), slots) && |slots| == old(|slots|) && slots[i] == old(slots[i]).(value := None)
      ensures Positive(old(slots), i) ==> Positive(slots, -1)
      ensures GapsMoved(blockSlots, old(slots), old(numEnt), slots, numEnt, i / blockSlots, 1)
      ensures Swiped(TheEnv(), old(slots), slots, hs, i) && Spent(old(slots), slots, i)
      decreases LiveSet(slots), 1
    {
      hide GapsMoved, Cascaded, Swiped, Shrunk, Spent;
      ghost var env, s0, e0 := TheEnv(), slots, numEnt;
      var v := slots[i].value.value;
      LiveSetCleared(slots, i);
      GapsCleared(blockSlots, slots, numEnt, i);
      slots := slots[i := slots[i].(value := None)];
      ghost var s1 := slots;
      match v {
        case ObjectValue(ms, tags) => FreeObject(ms, tags, hs);
        case SetValue(c) => FreeSet(c, hs);
      }
      ShrunkSize(s1, slots);
      GapsAnywhere(blockSlots, s1, e0, slots, numEnt, 0, i / blockSlots);
      GapsThen(blockSlots, s0, e0, s1, e0, slots, numEnt, i / blockSlots, 1, 0);
      SwipeCascade(env, s0, slots, hs, i);
      SwipeSpent(s0, slots, i);
    }

    /** Drops the references of an address set. */
    method FreeSet(c: AddrSet, ghost hs: seq<Value>)
      requires Shaped()
      modifies this`slots, this`numEnt
      ensures Shaped() && Shrunk(old(slots), slots) && (Positive(old(slots), -1) ==> Positive(slots, -1))
      ensures GapsMoved(blockSlots, old(slots), old(numEnt), slots, numEnt, 0, 0)
      ensures Cascaded(TheEnv(), old(slots), slots, hs + [SetValue(c)], hs) && Spent(old(slots), slots, -1)
      decreases LiveSet(slots), 3
    {
      ghost var env, s0, e0 := TheEnv(), slots, numEnt;
      var rest := c.addrs;
      GapsSame(blockSlots, s0, e0, s0, 0);
      ghost var pend := SetValue(c);
      while rest != {}
        invariant Shaped() && TheEnv() == env && Shrunk(s0, slots) && pend == SetValue(AddrSet(rest, c.tags))
        invariant GapsMoved(blockSlots, s0, e0, slots, numEnt, 0, 0)
        invariant Cascaded(env, s0, slots, hs + [SetValue(c)], hs + [pend]) && (Positive(s0, -1) ==> Positive(slots, -1))
        invariant Spent(s0, slots, -1)
        decreases rest
      {
        hide GapsMoved, Cascaded, Shrunk, Positive, Spent, Dropped;
        var a :| a in rest;
        ghost var s1, e1 := slots, numEnt;
        ghost var pend' := SetValue(AddrSet(rest - {a}, c.tags));
        ShrunkLive(s0, s1);
        Decref(a, hs + [pend']);
        ShrunkSize(s1, slots);
        SplitSet(env, hs, rest, c.tags, a);
        CascadeVia(env, s0, s1, slots, hs + [SetValue(c)], hs + [pend], hs + [pend'], One(a));
        GapsThen(blockSlots, s0, e0, s1, e1, slots, numEnt, 0, 0, 0);
        ShrunkSpent(s0, s1, slots);
        rest, pend := rest - {a}, pend';
      }
      NothingPending(env, hs, pend);
      CascadeDone(env, s0, slots, hs + [SetValue(c)], hs + [pend], hs);
    }

    /** Drops the references of an object. */
    method FreeObject(ms: seq<nat>, tags: set<Tag>, ghost hs: seq<Value>)
      requires Shaped()
      modifies this`slots, this`numEnt
      ensures Shaped() && Shrunk(old(slots), slots) && (Positive(old(slots), -1) ==> Positive(slots, -1))
      ensures GapsMoved(blockSlots, old(slots), old(numEnt), slots, numEnt, 0, 0)
      ensures Cascaded(TheEnv(), old(slots), slots, hs + [ObjectValue(ms, tags)], hs) && Spent(old(slots), slots, -1)
      decreases LiveSet(slots), 3
    {
      ghost var env, s0, e0 := TheEnv(), slots, numEnt;
      GapsSame(blockSlots, s0, e0, s0, 0);
      ghost var pend := ObjectValue(ms, tags);
      for j := 0 to |ms|
        invariant Shaped() && TheEnv() == env && Shrunk(s0, slots) && pend == ObjectValue(ms[j..], tags)
        invariant GapsMoved(blockSlots, s0, e0, slots, numEnt, 0, 0)
        invariant Cascaded(env, s0, slots, hs + [ObjectValue(ms, tags)], hs + [pend]) && (Positive(s0, -1) ==> Positive(slots, -1))
        invariant Spent(s0, slots, -1)
      {
        hide GapsMoved, Cascaded, Shrunk, Positive, Spent, Dropped;
        ghost var s1, e1 := slots, numEnt;
        ghost var pend' := ObjectValue(ms[j + 1..], tags);
        assert ms[j..][1..] == ms[j + 1..];
        ShrunkLive(s0, s1);
        Decref(ms[j], hs + [pend']);
        ShrunkSize(s1, slots);
        SplitObject(env, hs, ms[j..], tags);
        CascadeVia(env, s0, s1, slots, hs + [ObjectValue(ms, tags)], hs + [pend], hs + [pend'], One(ms[j]));
        GapsThen(blockSlots, s0, e0, s1, e1, slots, numEnt, 0, 0, 0);
        ShrunkSpent(s0, s1, slots);
        pend := pend';
      }
      NothingPending(env, hs, pend);
      CascadeDone(env, s0, slots, hs + [ObjectValue(ms, tags)], hs + [pend], hs);
    }

    /** Adds one reference to a live cell; a constant needs none. */
    method Incref(a: nat, ghost hs: seq<Value>) returns (ok: bool)
      modifies this`slots
      ensures ok <==> Known(TheEnv(), old(slots), a)
      ensures ok <==> (IsConst(a) && a != NULL_ADDR) || exists i :: Names(reloc, a, i) && Live(old(slots), i)
      ensures !ok || IsConst(a) ==> slots == old(slots)
      ensures IsObj(a) && Live(old(slots), a) ==> slots == CountedOnce(old(slots), a)
      ensures IsReloc(a) && a in reloc && Live(old(slots), reloc[a]) ==> slots == CountedOnce(old(slots), reloc[a])
      ensures |slots| == old(|slots|) && Raised(TheEnv(), old(slots), slots, hs, One(a))
    {
      var i := Resolve(TheEnv(), a);
      ghost var s0 := slots;
      ResolveNames(TheEnv(), a, i);
      ok := IsConst(a) && a != NULL_ADDR;
      if i >= 0 && slots[i].value.Some? {
        slots := slots[i := slots[i].(refcnt := slots[i].refcnt + 1)];
        ok := true;
      }
      RaiseOne(TheEnv(), s0, slots, hs, a);
    }

    /** Adds the references of an address set. */
    method IncrefSet(c: AddrSet, ghost hs: seq<Value>)
      modifies this`slots
      ensures |slots| == old(|slots|) && Raised(TheEnv(), old(slots), slots, hs, SetValue(c))
    {
      ghost var env, s0 := TheEnv(), slots;
      var rest := c.addrs;
      RaiseNothing(env, slots, hs, SetValue(AddrSet({}, c.tags)));
      while rest != {}
        invariant TheEnv() == env && rest <= c.addrs
        invariant Raised(env, s0, slots, hs, SetValue(AddrSet(c.addrs - rest, c.tags)))
        decreases rest
      {
        hide Raised;
        var a :| a in rest;
        ghost var s1 := slots;
        ghost var done := SetValue(AddrSet(c.addrs - rest, c.tags));
        var _ := Incref(a, hs + [done]);
        rest := rest - {a};
        ghost var done' := SetValue(AddrSet(c.addrs - rest, c.tags));
        assert c.addrs - rest - {a} == done.contents.addrs;
        SplitSet(env, hs, c.addrs - rest, c.tags, a);
        RaiseVia(env, s0, s1, slots, hs, done, One(a), done');
      }
      assert AddrSet(c.addrs - {}, c.tags) == c;
    }

    /** Adds the references of an object. */
    method IncrefObject(ms: seq<nat>, tags: set<Tag>, ghost hs: seq<Value>)
      modifies this`slots
      ensures |slots| == old(|slots|) && Raised(TheEnv(), old(slots), slots, hs, ObjectValue(ms, tags))
    {
      ghost var env, s0 := TheEnv(), slots;
      RaiseNothing(env, slots, hs, ObjectValue([], tags));
      for j := 0 to |ms|
        invariant TheEnv() == env && Raised(env, s0, slots, hs, ObjectValue(ms[..j], tags))
      {
        hide Raised;
        ghost var s1 := slots;
        var _ := Incref(ms[j], hs + [ObjectValue(ms[..j], tags)]);
        JoinObject(env, hs, ms[..j], ms[j], tags);
        assert ms[..j + 1] == ms[..j] + [ms[j]];
        RaiseVia(env, s0, s1, slots, hs, ObjectValue(ms[..j], tags), One(ms[j]), ObjectValue(ms[..j + 1], tags));
      }
      assert ms[..|ms|] == ms;
    }

    /**
     Puts a value, or nothing, into slot `i`, dropping the references of the old value. The references of
     the new value are the caller's to count, beforehand.
     */
    method Attach(i: nat, value: Option<Value>, ghost hs: seq<Value>)
      requires Shaped() && i < |slots|
      modifies this`slots, this`numEnt
      ensures Shaped() && |slots| == old(|slots|)
      ensures GapsMoved(blockSlots, old(slots), old(numEnt), slots, numEnt, 0, 0)
      ensures slots[i].value == value && slots[i].refcnt == old(slots[i].refcnt)
      ensures Others(old(slots), slots, i)
      ensures Attached(TheEnv(), old(slots), slots, hs, i) && Spent(old(slots), slots, i)
    {
      hide GapsMoved, Swiped, Shrunk, Attached, Others, Spent;
      ghost var env, s0, e0 := TheEnv(), slots, numEnt;
      var b := i / blockSlots;
      BlockOf(i, blockSlots, |numEnt|);
      if value == slots[i].value {
        AttachSame(env, s0, hs, i);
        SpentSelf(s0, i);
        GapsSame(blockSlots, s0, e0, slots, 0);
        return;
      }
      if slots[i].value.None? && value.Some? {
        numEnt := numEnt[b := numEnt[b] + 1];
      } else if slots[i].value.Some? && value.None? {
        numEnt := numEnt[b := numEnt[b] - 1];
      }
      ghost var e1 := numEnt;
      GapsRecount(blockSlots, s0, e0, b, e1[b] - e0[b]);
      assert e1 == e0[b := e0[b] + (e1[b] - e0[b])];
      if slots[i].value.Some? {
        Swipe(i, hs + if value.Some? then [value.value] else []);
      } else {
        GapsSame(blockSlots, s0, e1, slots, b);
        ShrunkSelf(s0);
        SpentSelf(s0, i);
      }
      ghost var s1, e2 := slots, numEnt;
      GapsThen(blockSlots, s0, e0, s0, e1, s1, e2, b, e1[b] - e0[b], if s0[i].value.Some? then 1 else 0);
      slots := slots[i := slots[i].(value := value)];
      GapsFilled(blockSlots, s1, e2, i, value);
      GapsThen(blockSlots, s0, e0, s1, e2, slots, e2, b, if value.Some? then 1 else 0, if value.Some? then -1 else 0);
      GapsAnywhere(blockSlots, s0, e0, slots, numEnt, b, 0);
      AttachDone(env, s0, s1, hs, i, value);
      SpentBut(s0, s1, slots, i);
    }

    /** Releases the empty blocks at the end of the store. */
    method Compact()
      requires Accurate()
      modifies this`slots, this`numEnt
      ensures Accurate() && slots <= old(slots) && numEnt <= old(numEnt)
      ensures forall i :: |slots| <= i < old(|slots|) ==> !Live(old(slots), i)
      ensures |numEnt| > 0 ==> LiveIn(slots, blockSlots, |numEnt| - 1) != {}
    {
      while |numEnt| > 0 && numEnt[|numEnt| - 1] == 0
        invariant Accurate() && slots <= old(slots) && numEnt <= old(numEnt)
        invariant forall i :: |slots| <= i < old(|slots|) ==> !Live(old(slots), i)
        decreases |numEnt|
      {
        var k := |numEnt| - 1;
        ScaleUp(k, k + 1, blockSlots);
        forall i | k * blockSlots <= i < |slots|
          ensures !Live(old(slots), i)
        {
          EmptyBlock(slots, blockSlots, k, i);
        }
        forall b | 0 <= b < k
          ensures LiveIn(slots[..k * blockSlots], blockSlots, b) == LiveIn(slots, blockSlots, b)
        {
          LiveInPrefix(slots, blockSlots, k, b);
        }
        slots, numEnt := slots[..k * blockSlots], numEnt[..k];
      }
    }
  }

  lemma LiveInPrefix(slots: seq<Slot>, n: nat, k: nat, b: int)
    requires k * n <= |slots| && 0 <= b < k
    ensures LiveIn(slots[..k * n], n, b) == LiveIn(slots, n, b)
  {
    ScaleUp(b + 1, k, n);
  }

  lemma EmptyBlock(slots: seq<Slot>, n: nat, b: nat, i: int)
    requires |LiveIn(slots, n, b)| == 0 && b * n <= i < (b + 1) * n
    ensures !Live(slots, i)
  {
    assert LiveIn(slots, n, b) == {};
    assert i in LiveIn(slots, n, b) <==> Live(slots, i);
  }

  /** `slots` with one more reference counted for slot `i`. */
  function CountedOnce(slots: seq<Slot>, i: nat): seq<Slot>
    requires i < |slots|
  {
    slots[i := slots[i].(refcnt := slots[i].refcnt + 1)]
  }

  /**
   What dropping a reference through `a` does to the slot it names: the counter goes down, and a cell with no
   reference left is emptied. An address that names no live cell changes nothing.
   */
  ghost predicate Dropped(reloc: map<nat, nat>, was: seq<Slot>, now: seq<Slot>, a: nat) {
    && |was| == |now|
    && (forall i :: Names(reloc, a, i) && Live(was, i) ==>
          if was[i].refcnt > 1 then now == was[i := was[i].(refcnt := was[i].refcnt - 1)] else now[i] == Slot(None, 0))
    && ((forall i :: Names(reloc, a, i) ==> !Live(was, i)) ==> now == was)
  }

  lemma DropsNothing(env: Env, slots: seq<Slot>, a: nat)
    requires env.size == |slots| && !Live(slots, Resolve(env, a))
    ensures Dropped(env.reloc, slots, slots, a) && Spent(slots, slots, -1)
  {
    forall i | Names(env.reloc, a, i)
      ensures !Live(slots, i)
    {
      ResolveNames(env, a, i);
    }
  }

  lemma DropsOne(env: Env, s0: seq<Slot>, s1: seq<Slot>, a: nat)
    requires env.size == |s0| && Live(s0, Resolve(env, a)) && s0[Resolve(env, a)].refcnt > 1
    requires s1 == s0[Resolve(env, a) := Lowered(s0[Resolve(env, a)])]
    ensures Dropped(env.reloc, s0, s1, a) && Spent(s0, s1, -1)
  {
    ResolveNames(env, a, Resolve(env, a));
    forall i | Names(env.reloc, a, i) && Live(s0, i)
      ensures i == Resolve(env, a)
    {
      ResolveNames(env, a, i);
    }
  }

  lemma DropsLast(env: Env, s0: seq<Slot>, s1: seq<Slot>, s2: seq<Slot>, a: nat)
    requires env.size == |s0| == |s2| && Live(s0, Resolve(env, a)) && s0[Resolve(env, a)].refcnt <= 1
    requires s1 == s0[Resolve(env, a) := Lowered(s0[Resolve(env, a)])]
    requires s2[Resolve(env, a)] == s1[Resolve(env, a)].(value := None) && Spent(s1, s2, Resolve(env, a))
    ensures Dropped(env.reloc, s0, s2, a) && Spent(s0, s2, -1)
  {
    ResolveNames(env, a, Resolve(env, a));
    forall i | Names(env.reloc, a, i) && Live(s0, i)
      ensures i == Resolve(env, a)
    {
      ResolveNames(env, a, i);
    }
    forall i | Live(s0, i) && !Live(s2, i)
      ensures s2[i].refcnt == 0
    {
      assert i != Resolve(env, a) ==> Live(s1, i);
    }
  }

  lemma SwipeSpent(s0: seq<Slot>, s1: seq<Slot>, i: nat)
    requires Live(s0, i) && |s0| == |s1| && Spent(s0[i := s0[i].(value := None)], s1, -1)
    ensures Spent(s0, s1, i)
  {
    forall j | Live(s0, j) && !Live(s1, j) && j != i
      ensures s1[j].refcnt == 0
    {
      assert Live(s0[i := s0[i].(value := None)], j);
    }
  }

  lemma SpentSelf(slots: seq<Slot>, i: int)
    ensures Spent(slots, slots, i)
  {
  }

  lemma SpentBut(s0: seq<Slot>, s1: seq<Slot>, s2: seq<Slot>, i: nat)
    requires Spent(s0, s1, i) && |s1| == |s2| && forall j :: 0 <= j < |s1| && j != i ==> s1[j] == s2[j]
    ensures Spent(s0, s2, i)
  {
  }

  lemma ShrunkSpent(s0: seq<Slot>, s1: seq<Slot>, s2: seq<Slot>)
    requires Shrunk(s0, s1) && Shrunk(s1, s2) && Spent(s0, s1, -1) && Spent(s1, s2, -1)
    ensures Spent(s0, s2, -1)
  {
  }

  /** `slots` with the references of `v` counted: a live cell's counter covers them too. */
  ghost predicate Raised(env: Env, was: seq<Slot>, now: seq<Slot>, hs: seq<Value>, v: Value) {
    && |was| == |now|
    && (forall i :: 0 <= i < |was| ==> now[i].value == was[i].value && now[i].refcnt >= was[i].refcnt)
    && (forall i :: 0 <= i < |was| && was[i].value.None? ==> now[i] == was[i])
    && (Bound(env, was, hs) ==> Bound(env, now, hs + [v])) && (Exact(env, was, hs) ==> Exact(env, now, hs + [v]))
  }

  lemma RaiseOne(env: Env, was: seq<Slot>, now: seq<Slot>, hs: seq<Value>, a: nat)
    requires env.size == |was|
    requires var i := Resolve(env, a);
             now == if Live(was, i) then was[i := was[i].(refcnt := was[i].refcnt + 1)] else was
    ensures Raised(env, was, now, hs, One(a))
  {
    assert Held(now) == Held(was);
    forall j | Live(now, j)
      ensures Bound(env, was, hs) ==> now[j].refcnt >= Refs(env, now, hs + [One(a)], j)
      ensures Exact(env, was, hs) ==> now[j].refcnt == Refs(env, now, hs + [One(a)], j)
    {
      assert Live(was, j);
      TotalSnoc(env, hs, One(a), j);
      CountOne(env, a, j);
    }
  }

  lemma RaiseNothing(env: Env, slots: seq<Slot>, hs: seq<Value>, v: Value)
    requires (v.ObjectValue? && v.members == []) || (v.SetValue? && v.contents.addrs == {})
    ensures Raised(env, slots, slots, hs, v)
  {
    NothingPending(env, hs, v);
  }

  lemma RaiseVia(env: Env, s0: seq<Slot>, s1: seq<Slot>, s2: seq<Slot>, hs: seq<Value>, v: Value, one: Value, w: Value)
    requires Raised(env, s0, s1, hs, v) && Raised(env, s1, s2, hs + [v], one)
    requires SameRefs(env, hs + [w], hs + [v] + [one])
    ensures Raised(env, s0, s2, hs, w)
  {
  }

  lemma {:induction false} PointingSnoc(env: Env, ms: seq<nat>, a: nat, i: int)
    ensures PointingSeq(env, ms + [a], i) == PointingSeq(env, ms, i) + if Resolve(env, a) == i then 1 else 0
  {
    if ms == [] {
      assert ([a])[1..] == [];
    } else {
      assert (ms + [a])[1..] == ms[1..] + [a];
      PointingSnoc(env, ms[1..], a, i);
    }
  }

  lemma JoinObject(env: Env, hs: seq<Value>, ms: seq<nat>, a: nat, tags: set<Tag>)
    ensures SameRefs(env, hs + [ObjectValue(ms + [a], tags)], hs + [ObjectValue(ms, tags)] + [One(a)])
  {
    forall i
      ensures Total(env, hs + [ObjectValue(ms + [a], tags)], i) == Total(env, hs + [ObjectValue(ms, tags)] + [One(a)], i)
    {
      TotalSnoc(env, hs, ObjectValue(ms + [a], tags), i);
      TotalSnoc(env, hs, ObjectValue(ms, tags), i);
      TotalSnoc(env, hs + [ObjectValue(ms, tags)], One(a), i);
      CountOne(env, a, i);
      PointingSnoc(env, ms, a, i);
    }
  }

  /** Every cell but `i` is as it was or has been emptied. */
  ghost predicate Others(was: seq<Slot>, now: seq<Slot>, i: int) {
    && |was| == |now|
    && forall j :: 0 <= j < |was| && j != i ==>
        if was[j].value.None? then now[j] == was[j] else now[j].value == was[j].value || now[j].value.None?
  }

  /** After putting a value into cell `i`: the bound holds again, and who died is unreferenced. */
  ghost predicate Attached(env: Env, was: seq<Slot>, now: seq<Slot>, hs: seq<Value>, i: int) {
    && 0 <= i < |now|
    && (Bound(env, was, hs + [HeldBy(now[i])]) && Live(was, i) ==>
          && Bound(env, now, hs)
          && forall j :: j != i && Live(was, j) && !Live(now, j) ==> Refs(env, now, hs, j) == 0)
    && (Exact(env, was, hs + [HeldBy(now[i])]) && Live(was, i) && was[i].value != now[i].value ==>
          forall j :: j != i && Live(now, j) ==> now[j].refcnt == Refs(env, now, hs, j))
  }

  lemma ShrunkSelf(slots: seq<Slot>)
    ensures Shrunk(slots, slots)
  {
  }

  lemma ShrunkSize(was: seq<Slot>, now: seq<Slot>)
    requires Shrunk(was, now)
    ensures |was| == |now|
  {
  }

  lemma CascadeVia(env: Env, s0: seq<Slot>, s1: seq<Slot>, s2: seq<Slot>, h0: seq<Value>, h1: seq<Value>, h2: seq<Value>, one: Value)
    requires Cascaded(env, s0, s1, h0, h1) && Cascaded(env, s1, s2, h2 + [one], h2) && Shrunk(s0, s1) && Shrunk(s1, s2)
    requires SameRefs(env, h1, h2 + [one])
    ensures Cascaded(env, s0, s2, h0, h2) && Shrunk(s0, s2)
  {
    PendingGrows(env, h2, one);
    assert Cascaded(env, s1, s2, h1, h2);
    CascadeSteps(env, s0, s1, s2, h0, h1, h2);
  }

  lemma CascadeDone(env: Env, s0: seq<Slot>, s1: seq<Slot>, h0: seq<Value>, h1: seq<Value>, h2: seq<Value>)
    requires Cascaded(env, s0, s1, h0, h1) && SameRefs(env, h1, h2)
    ensures Cascaded(env, s0, s1, h0, h2)
  {
  }

  lemma GapsRecount(n: nat, slots: seq<Slot>, ent: seq<int>, b: int, d: int)
    requires 0 <= b < |ent|
    ensures GapsMoved(n, slots, ent, slots, ent[b := ent[b] + d], b, d)
  {
  }

  lemma GapsFilled(n: nat, slots: seq<Slot>, ent: seq<int>, i: nat, value: Option<Value>)
    requires n > 0 && i < |slots| && slots[i].value.None?
    ensures GapsMoved(n, slots, ent, slots[i := slots[i].(value := value)], ent, i / n, if value.Some? then -1 else 0)
  {
    var slots' := slots[i := slots[i].(value := value)];
    if value.Some? {
      GapsCleared(n, slots', ent, i);
      assert slots'[i := slots'[i].(value := None)] == slots;
    } else {
      assert slots' == slots;
    }
  }

  lemma AttachSame(env: Env, slots: seq<Slot>, hs: seq<Value>, i: nat)
    requires i < |slots|
    ensures Others(slots, slots, i) && Attached(env, slots, slots, hs, i)
  {
    PendingGrows(env, hs, HeldBy(slots[i]));
  }

  /** The other counters stay exact; references that the old value of `i` held to `i` itself stay counted. */
  lemma AttachExact(env: Env, s0: seq<Slot>, s1: seq<Slot>, hs: seq<Value>, i: nat, value: Option<Value>)
    requires i < |s0| && Shrunk(s0, s1) && s1[i] == s0[i].(value := None) && Live(s0, i)
    requires Swiped(env, s0, s1, hs + if value.Some? then [value.value] else [], i)
    requires Exact(env, s0, hs + [HeldBy(s1[i].(value := value))])
    ensures var s2 := s1[i := s1[i].(value := value)];
            forall j :: j != i && Live(s2, j) ==> s2[j].refcnt == Refs(env, s2, hs, j)
  {
    var s2 := s1[i := s1[i].(value := value)];
    var v := HeldBy(s2[i]);
    if value.Some? {
      EmptyCell(env, s2, hs, i);
      assert s2[i := s2[i].(value := None)] == s1;
      assert forall j :: Live(s2, j) && j != i ==> Live(s1, j);
    } else {
      assert s2 == s1 && hs + [] == hs;
      NothingPending(env, hs, v);
      SameRefsExact(env, s0, hs + [v], hs);
    }
  }

  lemma AttachBound(env: Env, s0: seq<Slot>, s1: seq<Slot>, hs: seq<Value>, i: nat, value: Option<Value>)
    requires i < |s0| && Shrunk(s0, s1) && s1[i] == s0[i].(value := None) && Live(s0, i)
    requires Swiped(env, s0, s1, hs + if value.Some? then [value.value] else [], i)
    requires Bound(env, s0, hs + [HeldBy(s1[i].(value := value))])
    ensures var s2 := s1[i := s1[i].(value := value)];
            Bound(env, s2, hs) && forall j :: j != i && Live(s0, j) && !Live(s2, j) ==> Refs(env, s2, hs, j) == 0
  {
    var s2 := s1[i := s1[i].(value := value)];
    var v := HeldBy(s2[i]);
    if value.Some? {
      EmptyCell(env, s2, hs, i);
      assert s2[i := s2[i].(value := None)] == s1;
      ShrunkRefs(env, s0, s1, hs + [v], i);
      assert Refs(env, s2, hs, i) == Refs(env, s1, hs + [v], i);
    } else {
      assert s2 == s1 && hs + [] == hs;
      NothingPending(env, hs, v);
    }
  }

  lemma AttachDone(env: Env, s0: seq<Slot>, s1: seq<Slot>, hs: seq<Value>, i: nat, value: Option<Value>)
    requires i < |s0| && Shrunk(s0, s1) && s1[i] == s0[i].(value := None)
    requires Live(s0, i) ==> Swiped(env, s0, s1, hs + if value.Some? then [value.value] else [], i)
    ensures Others(s0, s1[i := s1[i].(value := value)], i)
    ensures Attached(env, s0, s1[i := s1[i].(value := value)], hs, i)
  {
    hide Bound, Exact, Refs, Swiped;
    var s2 := s1[i := s1[i].(value := value)];
    var v := HeldBy(s2[i]);
    if Live(s0, i) && Bound(env, s0, hs + [v]) {
      AttachBound(env, s0, s1, hs, i, value);
    }
    if Live(s0, i) && Exact(env, s0, hs + [v]) {
      AttachExact(env, s0, s1, hs, i, value);
    }
  }
}
