/**
 Address sets: handles that share set contents copy-on-write; membership lives in one hash table for all sets.
 */
module AddressSets {
  import opened Values
  import opened HashChains
  import opened Words

  const EMPTY_HASH: bv32 := 0x9c7cba63

  // ---------- hash of the contents ----------

  /** `addr * MH_MULTIPLY`, in 32 bits. */
  function AddrHash(a: nat): bv32 {
    Word(a) * MH_MULTIPLY
  }

  /** The addresses of a member list, hashed together. */
  function ListHash(xs: seq<nat>): bv32 {
    if xs == [] then 0 else Xor(AddrHash(xs[0]), ListHash(xs[1..]))
  }

  ghost predicate Distinct(xs: seq<nat>) {
    forall i, j :: 0 <= i < j < |xs| ==> xs[i] != xs[j]
  }

  function Elems(xs: seq<nat>): set<nat> {
    set x | x in xs
  }

  /** Taking one element out of a list takes its hash out. */
  lemma {:induction false} HashWithout(xs: seq<nat>, k: nat)
    requires k < |xs|
    ensures ListHash(xs) == Xor(AddrHash(xs[k]), ListHash(xs[..k] + xs[k + 1..]))
  {
    hide Xor, AddrHash;
    var rest := xs[..k] + xs[k + 1..];
    if k == 0 {
      assert rest == xs[1..];
    } else {
      HashWithout(xs[1..], k - 1);
      var tail := xs[1..][..k - 1] + xs[1..][k..];
      assert rest[0] == xs[0] && rest[1..] == tail;
      XorAssoc(AddrHash(xs[0]), AddrHash(xs[k]), ListHash(tail));
      XorAssoc(AddrHash(xs[k]), AddrHash(xs[0]), ListHash(tail));
      XorComm(AddrHash(xs[0]), AddrHash(xs[k]));
    }
  }

  /** The hash does not depend on the order of the list. */
  lemma {:induction false} HashOfSet(xs: seq<nat>, ys: seq<nat>)
    requires Distinct(xs) && Distinct(ys) && Elems(xs) == Elems(ys)
    ensures ListHash(xs) == ListHash(ys)
    decreases |xs|
  {
    hide Xor, AddrHash;
    if xs == [] {
      NoElems(ys);
    } else {
      assert xs[0] in Elems(ys);
      var k :| 0 <= k < |ys| && ys[k] == xs[0];
      var rest := ys[..k] + ys[k + 1..];
      RestElems(ys, k);
      TailElems(xs);
      HashOfSet(xs[1..], rest);
      HashWithout(ys, k);
    }
  }

  lemma NoElems(ys: seq<nat>)
    requires Elems(ys) == {}
    ensures ys == []
  {
    if ys != [] {
      HeadIn(ys);
    }
  }

  lemma HeadIn(ys: seq<nat>)
    requires ys != []
    ensures ys[0] in Elems(ys)
  {
  }

  lemma RestElems(ys: seq<nat>, k: nat)
    requires Distinct(ys) && k < |ys|
    ensures Distinct(ys[..k] + ys[k + 1..]) && Elems(ys[..k] + ys[k + 1..]) == Elems(ys) - {ys[k]}
  {
    var rest := ys[..k] + ys[k + 1..];
    assert forall j :: 0 <= j < |rest| ==> rest[j] == ys[if j < k then j else j + 1];
    forall x
      ensures x in rest <==> x in ys && x != ys[k]
    {
      if x in ys && x != ys[k] {
        var j :| 0 <= j < |ys| && ys[j] == x;
        assert rest[if j < k then j else j - 1] == x;
      }
    }
  }

  lemma TailElems(xs: seq<nat>)
    requires Distinct(xs) && xs != []
    ensures Distinct(xs[1..]) && Elems(xs[1..]) == Elems(xs) - {xs[0]}
  {
    RestElems(xs, 0);
    assert xs[..0] + xs[1..] == xs[1..];
  }

  lemma {:induction false} DistinctSize(xs: seq<nat>)
    requires Distinct(xs)
    ensures |Elems(xs)| == |xs|
  {
    if xs != [] {
      TailElems(xs);
      HeadIn(xs);
      DistinctSize(xs[1..]);
    }
  }

  function Relocs(xs: seq<nat>): nat {
    if xs == [] then 0 else (if IsReloc(xs[0]) then 1 else 0) + Relocs(xs[1..])
  }

  lemma {:induction false} RelocsOfSet(xs: seq<nat>)
    requires Distinct(xs)
    ensures Relocs(xs) == |set x | x in Elems(xs) && IsReloc(x)|
  {
    var all := set x | x in Elems(xs) && IsReloc(x);
    if xs == [] {
      assert all == {};
    } else {
      TailElems(xs);
      RelocsOfSet(xs[1..]);
      var tail := set x | x in Elems(xs[1..]) && IsReloc(x);
      HeadIn(xs);
      if IsReloc(xs[0]) {
        assert all == tail + {xs[0]};
      } else {
        assert all == tail;
      }
    }
  }

  // ---------- sets and handles ----------

  /** The info entry of a set: its counters, its hash and the list of its members, newest first. */
  datatype Info = Info(size: nat, refcnt: nat, reloc: nat, hash: bv32, tags: set<Tag>, members: seq<nat>)

  type TagHash = set<Tag> -> bv32

  ghost predicate InfoRight(th: TagHash, x: Info) {
    && Distinct(x.members) && NULL_ADDR !in x.members && x.size == |x.members| && x.reloc == Relocs(x.members)
    && x.hash == Xor(Xor(EMPTY_HASH, ListHash(x.members)), th(x.tags))
  }

  /** A member contributes its address, spread. */
  lemma OneMemberHash(th: TagHash, x: Info, a: nat)
    requires InfoRight(th, x) && x.members == [a]
    ensures x.hash == Xor(Xor(0x9c7cba63, Word(a) * MH_MULTIPLY), th(x.tags))
  {
    hide Word, Xor;
    assert ListHash([]) == 0 && [a][1..] == [];
    XorZero(AddrHash(a));
  }

  function ContentsOf(x: Info): AddrSet {
    AddrSet(Elems(x.members), x.tags)
  }

  /** The hash table has an entry for each set and for each member of it. */
  ghost predicate Linked(m: map<(nat, nat), nat>, infos: map<nat, Info>) {
    forall i, a :: (i, a) in m <==> i in infos && (a == NULL_ADDR || a in infos[i].members)
  }

  function Holders(handles: map<nat, nat>, i: nat): set<nat> {
    set h | h in handles && handles[h] == i
  }

  /** The counter of a set is the number of handles that refer to it; the empty set is held by handle 0. */
  ghost predicate Counted(infos: map<nat, Info>, handles: map<nat, nat>, next: nat) {
    && (forall i :: i in infos ==> i < next && infos[i].refcnt == |Holders(handles, i)| && infos[i].refcnt >= 1)
    && (forall h :: h in handles ==> handles[h] in infos)
    && 0 in handles && handles[0] == 0 && infos[0].members == [] && infos[0].tags == {}
  }

  ghost predicate AllRight(th: TagHash, infos: map<nat, Info>) {
    forall i :: i in infos ==> InfoRight(th, infos[i])
  }

  /** What each handle stands for. */
  ghost function Views(infos: map<nat, Info>, handles: map<nat, nat>): map<nat, AddrSet> {
    map h | h in handles && handles[h] in infos :: ContentsOf(infos[handles[h]])
  }

  // ---------- changing the handles ----------

  lemma HandleAdded(infos: map<nat, Info>, handles: map<nat, nat>, next: nat, h: nat, i: nat)
    requires Counted(infos, handles, next) && h !in handles && i in infos
    ensures var infos' := infos[i := infos[i].(refcnt := infos[i].refcnt + 1)];
            && Counted(infos', handles[h := i], next)
            && Views(infos', handles[h := i]) == Views(infos, handles)[h := ContentsOf(infos[i])]
  {
    hide ContentsOf;
    var infos', handles' := infos[i := infos[i].(refcnt := infos[i].refcnt + 1)], handles[h := i];
    SameContents(infos[i], infos'[i]);
    forall j | j in infos'
      ensures infos'[j].refcnt == |Holders(handles', j)|
    {
      if j == i {
        assert Holders(handles', i) == Holders(handles, i) + {h};
      } else {
        assert Holders(handles', j) == Holders(handles, j);
      }
    }
  }

  lemma SameContents(x: Info, y: Info)
    requires x.members == y.members && x.tags == y.tags
    ensures ContentsOf(x) == ContentsOf(y)
  {
  }

  lemma HandleDropped(infos: map<nat, Info>, handles: map<nat, nat>, next: nat, h: nat)
    requires Counted(infos, handles, next) && h in handles && h != 0 && infos[handles[h]].refcnt > 1
    ensures var i := handles[h];
            var infos' := infos[i := infos[i].(refcnt := infos[i].refcnt - 1)];
            Counted(infos', handles - {h}, next) && Views(infos', handles - {h}) == Views(infos, handles) - {h}
  {
    hide ContentsOf, Views;
    var i, handles' := handles[h], handles - {h};
    var infos' := infos[i := infos[i].(refcnt := infos[i].refcnt - 1)];
    HoldersWithout(handles, h);
    ViewsDropped(infos, infos', handles, h);
  }

  lemma HoldersWithout(handles: map<nat, nat>, h: nat)
    requires h in handles
    ensures |Holders(handles, handles[h])| == |Holders(handles - {h}, handles[h])| + 1
    ensures forall j :: j != handles[h] ==> Holders(handles - {h}, j) == Holders(handles, j)
  {
    assert Holders(handles, handles[h]) == Holders(handles - {h}, handles[h]) + {h};
  }

  lemma ViewsDropped(infos: map<nat, Info>, infos': map<nat, Info>, handles: map<nat, nat>, h: nat)
    requires forall g :: g in handles ==> handles[g] in infos
    requires forall g :: g in handles && g != h ==>
        handles[g] in infos' && infos'[handles[g]].members == infos[handles[g]].members && infos'[handles[g]].tags == infos[handles[g]].tags
    ensures Views(infos', handles - {h}) == Views(infos, handles) - {h}
  {
    hide Elems;
    assert Views(infos', handles - {h}).Keys == (Views(infos, handles) - {h}).Keys;
  }

  /** The last handle of a set goes, and the set with it. */
  lemma LastDropped(infos: map<nat, Info>, handles: map<nat, nat>, next: nat, h: nat)
    requires Counted(infos, handles, next) && h in handles && h != 0 && infos[handles[h]].refcnt == 1
    ensures var i := handles[h];
            Counted(infos - {i}, handles - {h}, next) && Views(infos - {i}, handles - {h}) == Views(infos, handles) - {h}
  {
    hide ContentsOf, Views;
    var i, handles' := handles[h], handles - {h};
    HoldersWithout(handles, h);
    OnlyHolder(handles, h);
    ViewsDropped(infos, infos - {i}, handles, h);
  }

  lemma OnlyHolder(handles: map<nat, nat>, h: nat)
    requires h in handles && |Holders(handles, handles[h])| == 1
    ensures forall g :: g in handles && g != h ==> handles[g] != handles[h]
  {
    forall g | g in handles && g != h
      ensures handles[g] != handles[h]
    {
      if handles[g] == handles[h] {
        TwoElements(Holders(handles, handles[h]), g, h);
      }
    }
  }

  /** A handle of a shared set moves to a copy of it. */
  lemma HandleMoved(infos: map<nat, Info>, handles: map<nat, nat>, next: nat, h: nat, copy: Info)
    requires Counted(infos, handles, next) && h in handles && h != 0 && infos[handles[h]].refcnt > 1
    requires copy.refcnt == 1 && ContentsOf(copy) == ContentsOf(infos[handles[h]])
    ensures var i := handles[h];
            var infos' := infos[i := infos[i].(refcnt := infos[i].refcnt - 1)][next := copy];
            Counted(infos', handles[h := next], next + 1) && Views(infos', handles[h := next]) == Views(infos, handles)
  {
    hide ContentsOf, Views;
    var i, handles' := handles[h], handles[h := next];
    var infos' := infos[i := infos[i].(refcnt := infos[i].refcnt - 1)][next := copy];
    HoldersWithout(handles, h);
    HoldersWithout(handles', h);
    assert handles' - {h} == handles - {h};
    assert Holders(handles - {h}, next) == {};
    MovedViews(infos, infos', handles, handles', h);
  }

  lemma MovedViews(infos: map<nat, Info>, infos': map<nat, Info>, handles: map<nat, nat>, handles': map<nat, nat>, h: nat)
    requires handles.Keys == handles'.Keys && (forall g :: g in handles ==> handles[g] in infos && handles'[g] in infos')
    requires forall g :: g in handles && g != h ==>
        handles'[g] == handles[g] && infos'[handles[g]].members == infos[handles[g]].members && infos'[handles[g]].tags == infos[handles[g]].tags
    requires h in handles ==> ContentsOf(infos'[handles'[h]]) == ContentsOf(infos[handles[h]])
    ensures Views(infos', handles') == Views(infos, handles)
  {
    hide Elems;
    assert Views(infos', handles').Keys == Views(infos, handles).Keys;
  }

  /** A set that only one handle refers to is changed. */
  lemma ContentsChanged(infos: map<nat, Info>, handles: map<nat, nat>, next: nat, h: nat, x: Info)
    requires Counted(infos, handles, next) && h in handles && h != 0 && infos[handles[h]].refcnt == 1 && x.refcnt == 1
    ensures var i := handles[h];
            Counted(infos[i := x], handles, next) && Views(infos[i := x], handles) == Views(infos, handles)[h := ContentsOf(x)]
  {
    hide ContentsOf;
    OnlyHolder(handles, h);
  }

  // ---------- members ----------

  /** A set with one more member. */
  function Added(x: Info, a: nat): Info {
    x.(members := [a] + x.members, size := x.size + 1, hash := Xor(x.hash, AddrHash(a)), reloc := x.reloc + if IsReloc(a) then 1 else 0)
  }

  lemma AddedRight(th: TagHash, x: Info, a: nat)
    requires InfoRight(th, x) && a !in x.members && a != NULL_ADDR
    ensures InfoRight(th, Added(x, a)) && ContentsOf(Added(x, a)) == AddrSet(ContentsOf(x).addrs + {a}, x.tags)
  {
    hide Xor, AddrHash;
    var y := Added(x, a);
    assert y.members[1..] == x.members;
    var e, l, t, n := EMPTY_HASH, ListHash(x.members), th(x.tags), AddrHash(a);
    XorSwap(Xor(e, l), t, n);
    XorAssoc(e, l, n);
    XorComm(l, n);
    assert Elems(y.members) == Elems(x.members) + {a};
  }

  /** A set with other tags. */
  function Tagged(th: TagHash, x: Info, tags: set<Tag>): Info {
    x.(tags := tags, hash := Xor(Xor(x.hash, th(x.tags)), th(tags)))
  }

  lemma TaggedRight(th: TagHash, x: Info, tags: set<Tag>)
    requires InfoRight(th, x)
    ensures InfoRight(th, Tagged(th, x, tags)) && ContentsOf(Tagged(th, x, tags)) == AddrSet(ContentsOf(x).addrs, tags)
  {
    hide Xor, ListHash;
    XorSame(Xor(EMPTY_HASH, ListHash(x.members)), th(x.tags));
  }

  lemma LinkedAdd(m: map<(nat, nat), nat>, infos: map<nat, Info>, i: nat, x: Info, a: nat, v: nat)
    requires Linked(m, infos) && i in infos && x.members == [a] + infos[i].members && a != NULL_ADDR
    ensures Linked(m[(i, a) := v], infos[i := x])
  {
  }

  lemma LinkedSame(m: map<(nat, nat), nat>, infos: map<nat, Info>, i: nat, x: Info)
    requires Linked(m, infos) && i in infos && x.members == infos[i].members
    ensures Linked(m, infos[i := x])
  {
  }

  /** Set `i` is being taken apart: `rest` of its members are still in the table. */
  ghost predicate Unlinking(m: map<(nat, nat), nat>, infos: map<nat, Info>, i: nat, rest: seq<nat>) {
    forall j, a :: (j, a) in m <==> (j in infos && j != i && (a == NULL_ADDR || a in infos[j].members)) || (j == i && (a == NULL_ADDR || a in rest))
  }

  lemma UnlinkOne(m: map<(nat, nat), nat>, infos: map<nat, Info>, i: nat, rest: seq<nat>)
    requires Unlinking(m, infos, i, rest) && rest != [] && Distinct(rest) && NULL_ADDR !in rest
    ensures Unlinking(m - {(i, rest[0])}, infos, i, rest[1..])
  {
    assert rest == [rest[0]] + rest[1..];
    assert rest[0] !in rest[1..];
  }

  lemma UnlinkLast(m: map<(nat, nat), nat>, infos: map<nat, Info>, i: nat)
    requires Unlinking(m, infos, i, [])
    ensures Linked(m - {(i, NULL_ADDR)}, infos - {i})
  {
  }

  lemma CopyStarts(m: map<(nat, nat), nat>, infos: map<nat, Info>, i: nat, v: nat)
    requires Linked(m, infos) && i !in infos
    ensures (i, NULL_ADDR) !in m && Unlinking(m[(i, NULL_ADDR) := v], infos, i, [])
  {
  }

  lemma CopyOne(m: map<(nat, nat), nat>, infos: map<nat, Info>, i: nat, done: seq<nat>, a: nat, v: nat)
    requires Unlinking(m, infos, i, done) && a !in done && a != NULL_ADDR
    ensures (i, a) !in m && Unlinking(m[(i, a) := v], infos, i, [a] + done)
  {
  }

  /** A copy of a shared set, as a new set. */
  lemma CopyEnds(m: map<(nat, nat), nat>, infos: map<nat, Info>, i: nat, x: Info, copy: Info, j: nat)
    requires Unlinking(m, infos, j, copy.members) && i in infos && x.members == infos[i].members && j !in infos
    ensures Linked(m, infos[i := x][j := copy])
  {
    assert i != j;
  }

  lemma CopyRight(th: TagHash, x: Info, copy: Info)
    requires InfoRight(th, x) && copy == x.(refcnt := 1, members := copy.members)
    requires Distinct(copy.members) && Elems(copy.members) == Elems(x.members) && |copy.members| == |x.members|
    ensures InfoRight(th, copy) && ContentsOf(copy) == ContentsOf(x)
  {
    HashOfSet(copy.members, x.members);
    RelocsOfSet(copy.members);
    RelocsOfSet(x.members);
    assert NULL_ADDR in Elems(copy.members) <==> NULL_ADDR in Elems(x.members);
  }

  class SetPool {
    const table: Table<(nat, nat), nat>
    const th: TagHash
    var infos: map<nat, Info>
    /** The set index of each handle; handle 0 is the empty set that is never freed. */
    var handles: map<nat, nat>
    var next: nat

    /** `cesk_set_init`: the empty set, held by handle 0. */
    constructor (size: nat, hash: ((nat, nat)) -> nat, th: TagHash)
      requires size > 0
      ensures Valid() && fresh(table) && Contents() == map[0 := EMPTY_SET] && this.th == th
    {
      var t := new Table<(nat, nat), nat>(size, hash);
      this.table, this.th := t, th;
      infos := map[0 := Info(0, 1, 0, Xor(EMPTY_HASH, th({})), {}, [])];
      handles, next := map[0 := 0], 1;
      new;
      hide Linked, AllRight, Counted, Views;
      table.Insert((0, NULL_ADDR), 0);
      JustEmpty(th, table.m, infos, handles);
    }

    ghost predicate Valid()
      reads this, table
    {
      table.Valid() && Linked(table.m, infos) && AllRight(th, infos) && Counted(infos, handles, next)
    }

    ghost function Contents(): map<nat, AddrSet>
      reads this
    {
      Views(infos, handles)
    }

    method NewHandle() returns (h: nat)
      requires Valid()
      ensures h !in handles
    {
      ghost var b := Above(handles.Keys);
      assert b !in handles;
      h :| h !in handles;
    }

    /** `cesk_set_fork`; `cesk_set_empty_set` is a fork of handle 0. */
    method Fork(h: nat) returns (u: nat)
      requires Valid() && h in handles
      modifies this`infos, this`handles
      ensures Valid() && u !in old(handles) && Contents() == old(Contents())[u := old(Contents())[h]]
    {
      hide Linked, AllRight, Counted, Views, ContentsOf;
      u := NewHandle();
      var i := handles[h];
      HandleIn(infos, handles, next, h);
      HandleAdded(infos, handles, next, u, i);
      var x := infos[i].(refcnt := infos[i].refcnt + 1);
      LinkedSame(table.m, infos, i, x);
      RightSame(th, infos, i, x);
      infos, handles := infos[i := x], handles[u := i];
    }

    /** Copies the set of a handle into a new one and makes the handle refer to that. */
    method Duplicate(h: nat)
      requires Valid() && h in handles && h != 0 && infos[handles[h]].refcnt > 1
      modifies this, table
      ensures Valid() && Contents() == old(Contents()) && h in handles && infos[handles[h]].refcnt == 1 && handles.Keys == old(handles.Keys)
    {
      hide Linked, AllRight, Counted, Views, ContentsOf, Unlinking, InfoRight;
      var i := handles[h];
      HandleIn(infos, handles, next, h);
      RightAt(th, infos, i);
      var x, j := infos[i], next;
      MembersRight(th, x);
      CopyStarts(table.m, infos, j, j);
      table.Insert((j, NULL_ADDR), j);
      var done := [];
      for k := 0 to |x.members|
        invariant infos == old(infos) && handles == old(handles) && next == old(next) && table.Valid()
        invariant Unlinking(table.m, infos, j, done) && Distinct(done) && |done| == k && Elems(done) == Elems(x.members[..k])
      {
        var a := x.members[k];
        NextMember(x.members, k, done);
        CopyOne(table.m, infos, j, done, a, j);
        table.Insert((j, a), j);
        done := [a] + done;
      }
      assert x.members[..|x.members|] == x.members;
      var copy := x.(refcnt := 1, members := done);
      var rest := x.(refcnt := x.refcnt - 1);
      CopyRight(th, x, copy);
      CopyEnds(table.m, infos, i, rest, copy, j);
      RightSame(th, infos, i, rest);
      RightWith(th, infos[i := rest], j, copy);
      HandleMoved(infos, handles, next, h, copy);
      infos := infos[i := rest][j := copy];
      handles, next := handles[h := j], j + 1;
    }

    /** Makes the set of a handle its own. */
    method PrepareToWrite(h: nat)
      requires Valid() && h in handles && h != 0
      modifies this, table
      ensures Valid() && Contents() == old(Contents()) && h in handles && handles[h] in infos && infos[handles[h]].refcnt == 1
      ensures handles.Keys == old(handles.Keys)
    {
      HandleIn(infos, handles, next, h);
      if infos[handles[h]].refcnt > 1 {
        Duplicate(h);
      }
    }

    /** Adds a member to a set that only handle `h` refers to, unless it is there. */
    method AddMember(h: nat, a: nat)
      requires Valid() && h in handles && h != 0 && handles[h] in infos && infos[handles[h]].refcnt == 1 && a != NULL_ADDR
      modifies this`infos, table
      ensures Valid() && handles[h] in infos && infos[handles[h]].refcnt == 1 && infos.Keys == old(infos.Keys)
      ensures h in old(Contents()) && Contents() == old(Contents())[h := Include(old(Contents())[h], a)]
      ensures forall i :: i in infos && i != handles[h] ==> infos[i] == old(infos)[i]
      ensures infos[handles[h]].tags == old(infos)[handles[h]].tags
    {
      hide Linked, AllRight, Counted, Views, ContentsOf, InfoRight, Added;
      var i := handles[h];
      HandleIn(infos, handles, next, h);
      var x := infos[i];
      LinkedAt(table.m, infos, i, a);
      RightAt(th, infos, i);
      var found := table.Find((i, a));
      if found.Some? {
        AlreadyIn(x, a);
        assert Contents()[h := Contents()[h]] == Contents();
        return;
      }
      var y := Added(x, a);
      AddedRight(th, x, a);
      AddedFields(x, a);
      TagsOf(x);
      ContentsChanged(infos, handles, next, h, y);
      LinkedAdd(table.m, infos, i, y, a, i);
      RightWith(th, infos, i, y);
      table.Insert((i, a), i);
      infos := infos[i := y];
    }

    /** `cesk_set_push`. */
    method Push(h: nat, a: nat) returns (ok: bool)
      requires Valid() && h in handles && h != 0
      modifies this, table
      ensures Valid() && (ok <==> a != NULL_ADDR) && h in old(Contents())
      ensures Contents() == if ok then old(Contents())[h := Include(old(Contents())[h], a)] else old(Contents())
    {
      hide Linked, AllRight, Counted, Views;
      HandleIn(infos, handles, next, h);
      if a == NULL_ADDR {
        return false;
      }
      PrepareToWrite(h);
      AddMember(h, a);
      ok := true;
    }

    /** `cesk_set_merge_tags`. */
    method MergeTags(h: nat, g: nat)
      requires Valid() && h in handles && h != 0 && g in handles
      modifies this, table
      ensures Valid() && h in old(Contents()) && g in old(Contents())
      ensures Contents() == old(Contents())[h := AddrSet(old(Contents())[h].addrs, old(Contents())[h].tags + old(Contents())[g].tags)]
    {
      hide Linked, AllRight, Counted, Views, ContentsOf, InfoRight, Tagged;
      HandleIn(infos, handles, next, h);
      HandleIn(infos, handles, next, g);
      var more := infos[handles[g]].tags;
      TagsOf(infos[handles[g]]);
      PrepareToWrite(h);
      Retag(h, more);
    }

    method Retag(h: nat, more: set<Tag>)
      requires Valid() && h in handles && h != 0 && handles[h] in infos && infos[handles[h]].refcnt == 1
      modifies this`infos
      ensures Valid() && h in old(Contents())
      ensures Contents() == old(Contents())[h := AddrSet(old(Contents())[h].addrs, old(Contents())[h].tags + more)]
    {
      hide Linked, AllRight, Counted, Views, ContentsOf, InfoRight, Tagged;
      var i := handles[h];
      HandleIn(infos, handles, next, h);
      var x := infos[i];
      TagsOf(x);
      RightAt(th, infos, i);
      var y := Tagged(th, x, x.tags + more);
      TaggedFields(th, x, x.tags + more);
      TaggedRight(th, x, x.tags + more);
      ContentsChanged(infos, handles, next, h, y);
      LinkedSame(table.m, infos, i, y);
      RightWith(th, infos, i, y);
      infos := infos[i := y];
    }

    /** `cesk_set_merge`: the members and the tags of one set are added to another. */
    method Merge(h: nat, g: nat)
      requires Valid() && h in handles && h != 0 && g in handles
      modifies this, table
      ensures Valid() && h in old(Contents()) && g in old(Contents())
      ensures Contents() == old(Contents())[h := Join(old(Contents())[h], old(Contents())[g])]
    {
      hide Linked, AllRight, Counted, Views, ContentsOf, InfoRight;
      HandleIn(infos, handles, next, h);
      HandleIn(infos, handles, next, g);
      var src := infos[handles[g]];
      TagsOf(src);
      RightAt(th, infos, handles[g]);
      MembersRight(th, src);
      ghost var c0 := Contents();
      PrepareToWrite(h);
      IncludeNone(c0, h);
      for k := 0 to |src.members|
        invariant Valid() && h in handles && handles[h] in infos && infos[handles[h]].refcnt == 1
        invariant Contents() == c0[h := IncludeAll(c0[h], src.members[..k])]
      {
        AddMember(h, src.members[k]);
        IncludeNext(c0, h, src.members, k);
      }
      assert src.members[..|src.members|] == src.members;
      Retag(h, src.tags);
      MergedJoin(c0, h, src);
    }

    /** `cesk_set_contain`. */
    method Contains(h: nat, a: nat) returns (yes: bool)
      requires Valid() && h in handles
      ensures h in Contents() && (yes <==> a != NULL_ADDR && a in Contents()[h].addrs)
    {
      hide Linked, AllRight, Counted, Views, ContentsOf;
      HandleIn(infos, handles, next, h);
      LinkedAt(table.m, infos, handles[h], a);
      MemberOf(infos[handles[h]], a);
      if a == NULL_ADDR {
        return false;
      }
      var found := table.Find((handles[h], a));
      yes := found.Some?;
    }

    /** `cesk_set_equal` decides equality of contents. */
    method Equal(h: nat, g: nat) returns (yes: bool)
      requires Valid() && h in handles && g in handles
      ensures h in Contents() && g in Contents() && (yes <==> Contents()[h] == Contents()[g])
    {
      hide Linked, AllRight, Counted, Views, ContentsOf, InfoRight;
      HandleIn(infos, handles, next, h);
      HandleIn(infos, handles, next, g);
      var x, y := infos[handles[h]], infos[handles[g]];
      RightAt(th, infos, handles[h]);
      RightAt(th, infos, handles[g]);
      EqualMeans(th, x, y);
      if x.hash != y.hash || x.size != y.size || x.tags != y.tags {
        return false;
      }
      MembersRight(th, x);
      for k := 0 to |x.members|
        invariant forall j :: 0 <= j < k ==> x.members[j] in y.members
      {
        var in2 := Contains(g, x.members[k]);
        MemberOf(y, x.members[k]);
        if !in2 {
          NotAMember(x, y, k);
          return false;
        }
      }
      yes := true;
    }

    /** `cesk_set_size`: the number of addresses in the set. */
    method Size(h: nat) returns (n: nat)
      requires Valid() && h in handles
      ensures h in Contents() && n == |Contents()[h].addrs|
    {
      hide Linked, AllRight, Counted, Views;
      HandleIn(infos, handles, next, h);
      RightAt(th, infos, handles[h]);
      var x := infos[handles[h]];
      MembersRight(th, x);
      DistinctSize(x.members);
      n := x.size;
    }

    /** `cesk_set_get_reloc`: the number of relocated addresses in the set. */
    method RelocCount(h: nat) returns (n: nat)
      requires Valid() && h in handles
      ensures h in Contents() && n == |set a | a in Contents()[h].addrs && IsReloc(a)|
    {
      hide Linked, AllRight, Counted, Views;
      HandleIn(infos, handles, next, h);
      RightAt(th, infos, handles[h]);
      var x := infos[handles[h]];
      RelocsOfSet(x.members);
      n := x.reloc;
    }

    /** Handles with equal contents have equal hashes. */
    lemma EqualHashes(h: nat, g: nat)
      requires Valid() && h in handles && g in handles && h in Contents() && g in Contents() && Contents()[h] == Contents()[g]
      ensures handles[h] in infos && handles[g] in infos && infos[handles[h]].hash == infos[handles[g]].hash
    {
      hide Linked, AllRight, Counted, Views, Xor, AddrHash;
      HandleIn(infos, handles, next, h);
      HandleIn(infos, handles, next, g);
      RightAt(th, infos, handles[h]);
      RightAt(th, infos, handles[g]);
      HashOfSet(infos[handles[h]].members, infos[handles[g]].members);
    }

    /** `cesk_set_compute_hashcode`: recomputing the hash from the members gives the stored one. */
    method ComputeHash(h: nat) returns (hash: bv32)
      requires Valid() && h in handles
      ensures handles[h] in infos && hash == infos[handles[h]].hash
    {
      hide Linked, AllRight, Counted, Views, ContentsOf, Xor, AddrHash;
      HandleIn(infos, handles, next, h);
      RightAt(th, infos, handles[h]);
      var x := infos[handles[h]];
      hash := EMPTY_HASH;
      XorZero(EMPTY_HASH);
      for k := 0 to |x.members|
        invariant hash == Xor(EMPTY_HASH, ListHash(x.members[..k]))
      {
        HashSnoc(x.members, k);
        XorAssoc(EMPTY_HASH, ListHash(x.members[..k]), AddrHash(x.members[k]));
        hash := Xor(hash, AddrHash(x.members[k]));
      }
      assert x.members[..|x.members|] == x.members;
      hash := Xor(hash, th(x.tags));
    }

    /** `cesk_set_free`: a set that loses its last handle is taken out of the table. */
    method Free(h: nat)
      requires Valid() && h in handles && h != 0
      modifies this`infos, this`handles, table
      ensures Valid() && Contents() == old(Contents()) - {h}
    {
      hide Linked, AllRight, Counted, Views, ContentsOf, InfoRight, Unlinking;
      HandleIn(infos, handles, next, h);
      var i := handles[h];
      var x := infos[i];
      RightAt(th, infos, i);
      if x.refcnt > 1 {
        var y := x.(refcnt := x.refcnt - 1);
        HandleDropped(infos, handles, next, h);
        LinkedSame(table.m, infos, i, y);
        RightSame(th, infos, i, y);
        infos, handles := infos[i := y], handles - {h};
        return;
      }
      LastDropped(infos, handles, next, h);
      MembersRight(th, x);
      Unlink(i, x.members, infos);
      RightLess(th, infos, i);
      infos, handles := infos - {i}, handles - {h};
    }

    /** Takes the entries of set `i` out of the table. */
    method Unlink(i: nat, members: seq<nat>, ghost all: map<nat, Info>)
      requires table.Valid() && Linked(table.m, all) && i in all && all[i].members == members && Distinct(members) && NULL_ADDR !in members
      modifies table
      ensures table.Valid() && Linked(table.m, all - {i})
    {
      hide Linked, Unlinking, Distinct;
      UnlinkStarts(table.m, all, i);
      for k := 0 to |members|
        invariant table.Valid() && Unlinking(table.m, all, i, members[k..])
      {
        RestDistinct(members, k);
        UnlinkOne(table.m, all, i, members[k..]);
        table.Delete((i, members[k]));
      }
      assert members[|members|..] == [];
      UnlinkLast(table.m, all, i);
      table.Delete((i, NULL_ADDR));
    }
  }

  /** A set with an address more. */
  function Include(c: AddrSet, a: nat): AddrSet {
    AddrSet(c.addrs + {a}, c.tags)
  }

  function IncludeAll(c: AddrSet, xs: seq<nat>): AddrSet {
    AddrSet(c.addrs + Elems(xs), c.tags)
  }

  lemma IncludeNone(views: map<nat, AddrSet>, h: nat)
    requires h in views
    ensures views == views[h := IncludeAll(views[h], [])]
  {
    assert IncludeAll(views[h], []) == views[h];
  }

  lemma IncludeNext(views: map<nat, AddrSet>, h: nat, xs: seq<nat>, k: nat)
    requires h in views && k < |xs|
    ensures views[h := IncludeAll(views[h], xs[..k])][h := Include(IncludeAll(views[h], xs[..k]), xs[k])] == views[h := IncludeAll(views[h], xs[..k + 1])]
  {
    assert xs[..k + 1] == xs[..k] + [xs[k]];
    assert Elems(xs[..k + 1]) == Elems(xs[..k]) + {xs[k]};
    assert Include(IncludeAll(views[h], xs[..k]), xs[k]) == IncludeAll(views[h], xs[..k + 1]);
  }

  lemma MergedJoin(views: map<nat, AddrSet>, h: nat, src: Info)
    requires h in views
    ensures var c := IncludeAll(views[h], src.members);
            views[h := c][h := AddrSet(c.addrs, c.tags + src.tags)] == views[h := Join(views[h], ContentsOf(src))]
  {
  }

  lemma LinkedAt(m: map<(nat, nat), nat>, infos: map<nat, Info>, i: nat, a: nat)
    requires Linked(m, infos) && i in infos
    ensures (i, a) in m <==> a == NULL_ADDR || a in infos[i].members
  {
  }

  lemma AlreadyIn(x: Info, a: nat)
    requires a in x.members
    ensures Include(ContentsOf(x), a) == ContentsOf(x)
  {
    assert a in Elems(x.members);
  }

  lemma AddedFields(x: Info, a: nat)
    ensures Added(x, a).refcnt == x.refcnt && Added(x, a).tags == x.tags && Added(x, a).members == [a] + x.members
  {
  }

  lemma TaggedFields(th: TagHash, x: Info, tags: set<Tag>)
    ensures Tagged(th, x, tags).refcnt == x.refcnt && Tagged(th, x, tags).members == x.members
  {
  }

  lemma TagsOf(x: Info)
    ensures ContentsOf(x).tags == x.tags
  {
  }

  lemma MemberOf(x: Info, a: nat)
    ensures a in ContentsOf(x).addrs <==> a in x.members
  {
  }

  lemma NotAMember(x: Info, y: Info, k: nat)
    requires k < |x.members| && x.members[k] !in y.members
    ensures ContentsOf(x) != ContentsOf(y)
  {
    MemberOf(x, x.members[k]);
    MemberOf(y, x.members[k]);
  }

  /** Equal contents have equal hashes and sizes; with equal sizes and tags, inclusion is equality. */
  lemma EqualMeans(th: TagHash, x: Info, y: Info)
    requires InfoRight(th, x) && InfoRight(th, y)
    ensures ContentsOf(x) == ContentsOf(y) ==> x.hash == y.hash && x.size == y.size && x.tags == y.tags
    ensures x.size == y.size && x.tags == y.tags && (forall j :: 0 <= j < |x.members| ==> x.members[j] in y.members) ==> ContentsOf(x) == ContentsOf(y)
  {
    ElemsCount(x.members);
    ElemsCount(y.members);
    if ContentsOf(x) == ContentsOf(y) {
      HashOfSet(x.members, y.members);
    } else if x.size == y.size && x.tags == y.tags && forall j :: 0 <= j < |x.members| ==> x.members[j] in y.members {
      assert Elems(x.members) <= Elems(y.members);
      SameSize(Elems(x.members), Elems(y.members));
    }
  }

  lemma {:induction false} ElemsCount(xs: seq<nat>)
    requires Distinct(xs)
    ensures |Elems(xs)| == |xs|
  {
    if xs != [] {
      TailElems(xs);
      ElemsCount(xs[1..]);
      HeadIn(xs);
    }
  }

  lemma SameSize(a: set<nat>, b: set<nat>)
    requires a <= b && |a| == |b|
    ensures a == b
  {
    assert b == a + (b - a);
  }

  lemma {:induction false} HashSnoc(xs: seq<nat>, k: nat)
    requires k < |xs|
    ensures ListHash(xs[..k + 1]) == Xor(ListHash(xs[..k]), AddrHash(xs[k]))
  {
    hide Xor, AddrHash;
    HashWithout(xs[..k + 1], k);
    assert xs[..k + 1][..k] + xs[..k + 1][k + 1..] == xs[..k];
    XorComm(AddrHash(xs[k]), ListHash(xs[..k]));
  }

  lemma UnlinkStarts(m: map<(nat, nat), nat>, infos: map<nat, Info>, i: nat)
    requires Linked(m, infos) && i in infos
    ensures Unlinking(m, infos, i, infos[i].members[0..])
  {
    assert infos[i].members[0..] == infos[i].members;
  }

  lemma RestDistinct(xs: seq<nat>, k: nat)
    requires Distinct(xs) && k < |xs| && NULL_ADDR !in xs
    ensures Distinct(xs[k..]) && NULL_ADDR !in xs[k..] && xs[k..] != [] && xs[k..][0] == xs[k] && xs[k..][1..] == xs[k + 1..]
  {
  }

  lemma RightLess(th: TagHash, infos: map<nat, Info>, i: nat)
    requires AllRight(th, infos)
    ensures AllRight(th, infos - {i})
  {
  }

  lemma MembersRight(th: TagHash, x: Info)
    requires InfoRight(th, x)
    ensures Distinct(x.members) && NULL_ADDR !in x.members && x.size == |x.members|
  {
  }

  lemma NextMember(xs: seq<nat>, k: nat, done: seq<nat>)
    requires Distinct(xs) && k < |xs| && Distinct(done) && Elems(done) == Elems(xs[..k])
    ensures xs[k] !in done && Distinct([xs[k]] + done) && Elems([xs[k]] + done) == Elems(xs[..k + 1])
  {
    assert xs[k] !in xs[..k];
    assert xs[k] !in Elems(xs[..k]);
    assert forall y :: y in done ==> y in Elems(done);
    assert xs[..k + 1] == xs[..k] + [xs[k]];
    forall y
      ensures y in [xs[k]] + done <==> y in xs[..k + 1]
    {
      assert y in done <==> y in Elems(done);
      assert y in xs[..k] <==> y in Elems(xs[..k]);
    }
  }

  lemma JustEmpty(th: TagHash, m: map<(nat, nat), nat>, infos: map<nat, Info>, handles: map<nat, nat>)
    requires m == map[(0, NULL_ADDR) := 0] && infos == map[0 := Info(0, 1, 0, Xor(EMPTY_HASH, th({})), {}, [])] && handles == map[0 := 0]
    ensures Linked(m, infos) && AllRight(th, infos) && Counted(infos, handles, 1) && Views(infos, handles) == map[0 := EMPTY_SET]
  {
    hide Xor, AddrHash;
    XorZero(EMPTY_HASH);
    assert Holders(handles, 0) == {0};
    assert Elems([]) == {};
  }

  lemma {:induction false} Above(s: set<nat>) returns (b: nat)
    ensures forall x :: x in s ==> x < b
  {
    b := 0;
    if s != {} {
      var x :| x in s;
      var c := Above(s - {x});
      b := if x < c then c else x + 1;
      assert forall y :: y in s ==> y == x || y in s - {x};
    }
  }

  lemma HandleIn(infos: map<nat, Info>, handles: map<nat, nat>, next: nat, h: nat)
    requires Counted(infos, handles, next) && h in handles
    ensures handles[h] in infos && infos[handles[h]].refcnt >= 1 && handles[h] < next && next !in infos
    ensures h in Views(infos, handles) && Views(infos, handles)[h] == ContentsOf(infos[handles[h]])
  {
  }

  lemma RightSame(th: TagHash, infos: map<nat, Info>, i: nat, x: Info)
    requires AllRight(th, infos) && i in infos && x.(refcnt := 0) == infos[i].(refcnt := 0)
    ensures AllRight(th, infos[i := x])
  {
  }

  lemma RightAt(th: TagHash, infos: map<nat, Info>, i: nat)
    requires AllRight(th, infos) && i in infos
    ensures InfoRight(th, infos[i])
  {
  }

  lemma RightWith(th: TagHash, infos: map<nat, Info>, i: nat, x: Info)
    requires AllRight(th, infos) && InfoRight(th, x)
    ensures AllRight(th, infos[i := x])
  {
  }
}
