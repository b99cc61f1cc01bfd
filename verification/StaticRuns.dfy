/**
 Runs of static-field tables. To their users the tables that share one forest are plain arrays that have
 nothing in common, and it does not show which defaults have been materialised.
 */
module StaticRuns {
  import opened Values
  import opened StaticTables

  datatype Request =
    | Create
    | Copy(t: nat)
    | Release(t: nat)
    | Read(t: nat, r: nat)
    | Assign(t: nat, r: nat, v: AddrSet)

  datatype Answer = Created(t: nat) | Value(v: AddrSet) | Done | Refused

  /** Independent tables, every field of which has a value. */
  type Plain = map<nat, seq<AddrSet>>

  /** A reference to a field that can be initialised. */
  predicate Known(h: Hashing, r: nat) {
    IsStatic(r) && r - STATIC_PREFIX < |h.defaults| && h.defaults[r - STATIC_PREFIX] != NULL_ADDR
  }

  function Defaults(h: Hashing): seq<AddrSet> {
    seq(|h.defaults|, i requires 0 <= i < |h.defaults| => Default(h, i))
  }

  /** How independent tables answer a request. Requests for tables that are not there are not passed on. */
  ghost predicate Serves(h: Hashing, q: Request, a: Answer, s: Plain, s': Plain) {
    match q
    case Create => a.Created? && a.t !in s && s' == s[a.t := Defaults(h)]
    case Copy(t) => if t in s then a.Created? && a.t !in s && s' == s[a.t := s[t]] else a == Refused && s' == s
    case Release(t) => a == (if t in s then Done else Refused) && s' == s - {t}
    case Read(t, r) =>
      && s' == s
      && (if t in s && Known(h, r) then r - STATIC_PREFIX < |s[t]| && a == Value(s[t][r - STATIC_PREFIX]) else a == Refused)
    case Assign(t, r, v) =>
      if t in s && Known(h, r) then
        r - STATIC_PREFIX < |s[t]| && a == Done && s' == s[t := s[t][r - STATIC_PREFIX := v]]
      else a == Refused && s' == s
  }

  // ---------- from the trees to plain arrays ----------

  function Filled(h: Hashing, f: map<nat, AddrSet>): seq<AddrSet> {
    seq(|h.defaults|, i requires 0 <= i < |h.defaults| => Seen(h, f, i))
  }

  function PlainOf(h: Hashing, views: map<nat, map<nat, AddrSet>>): Plain {
    map t | t in views :: Filled(h, views[t])
  }

  /** Only fields with a default are ever initialised. */
  ghost predicate Proper(h: Hashing, views: map<nat, map<nat, AddrSet>>) {
    forall t :: t in views ==> ProperFields(h, views[t])
  }

  ghost predicate ProperFields(h: Hashing, f: map<nat, AddrSet>) {
    forall i :: i in f ==> i < |h.defaults| && h.defaults[i] != NULL_ADDR
  }

  lemma FilledEmpty(h: Hashing)
    ensures Filled(h, map[]) == Defaults(h)
  {
  }

  lemma FilledWrite(h: Hashing, f: map<nat, AddrSet>, i: nat, v: AddrSet)
    requires i < |h.defaults|
    ensures Filled(h, f[i := v]) == Filled(h, f)[i := v]
  {
  }

  /** Writing a field of one table writes that element of its array and no other. */
  lemma PlainWrite(h: Hashing, views: map<nat, map<nat, AddrSet>>, t: nat, i: nat, v: AddrSet)
    requires t in views && i < |h.defaults|
    ensures PlainOf(h, With(views, t, i, v)) == PlainOf(h, views)[t := Filled(h, views[t])[i := v]]
    ensures Proper(h, views) && h.defaults[i] != NULL_ADDR ==> Proper(h, With(views, t, i, v))
  {
    hide Filled;
    FilledWrite(h, views[t], i, v);
  }

  /** Materialising what a field reads as anyway does not show. */
  lemma PlainSame(h: Hashing, views: map<nat, map<nat, AddrSet>>, t: nat, i: nat)
    requires t in views && i < |h.defaults|
    ensures PlainOf(h, With(views, t, i, Seen(h, views[t], i))) == PlainOf(h, views)
  {
    hide PlainOf;
    PlainWrite(h, views, t, i, Seen(h, views[t], i));
    var s := Filled(h, views[t]);
    assert s[i := s[i]] == s;
    PlainAt(h, views, t);
  }

  lemma PlainAt(h: Hashing, views: map<nat, map<nat, AddrSet>>, t: nat)
    requires t in views
    ensures t in PlainOf(h, views) && PlainOf(h, views)[t] == Filled(h, views[t])
    ensures PlainOf(h, views)[t := Filled(h, views[t])] == PlainOf(h, views)
  {
  }

  lemma PlainAdd(h: Hashing, views: map<nat, map<nat, AddrSet>>, u: nat, f: map<nat, AddrSet>)
    ensures PlainOf(h, views[u := f]) == PlainOf(h, views)[u := Filled(h, f)]
    ensures Proper(h, views) && ProperFields(h, f) ==> Proper(h, views[u := f])
  {
    hide Filled;
  }

  lemma PlainDrop(h: Hashing, views: map<nat, map<nat, AddrSet>>, t: nat)
    ensures PlainOf(h, views - {t}) == PlainOf(h, views) - {t}
    ensures Proper(h, views) ==> Proper(h, views - {t})
  {
    hide Filled;
  }

  // ---------- runs ----------

  lemma ReadServed(h: Hashing, views: map<nat, map<nat, AddrSet>>, t: nat, r: nat)
    requires Proper(h, views) && t in views && Known(h, r)
    ensures var i := r - STATIC_PREFIX;
            var v := Seen(h, views[t], i);
            && Serves(h, Read(t, r), Value(v), PlainOf(h, views), PlainOf(h, With(views, t, i, v))) && Proper(h, With(views, t, i, v))
  {
    hide PlainOf, Proper;
    PlainAt(h, views, t);
    PlainSame(h, views, t, r - STATIC_PREFIX);
    PlainWrite(h, views, t, r - STATIC_PREFIX, Seen(h, views[t], r - STATIC_PREFIX));
  }

  lemma AssignServed(h: Hashing, views: map<nat, map<nat, AddrSet>>, t: nat, r: nat, v: AddrSet)
    requires Proper(h, views) && t in views && Known(h, r)
    ensures var i := r - STATIC_PREFIX;
            Serves(h, Assign(t, r, v), Done, PlainOf(h, views), PlainOf(h, With(views, t, i, v))) && Proper(h, With(views, t, i, v))
  {
    hide PlainOf, Proper;
    PlainAt(h, views, t);
    PlainWrite(h, views, t, r - STATIC_PREFIX, v);
  }

  method ReadField(tables: Tables, t: nat, r: nat) returns (a: Answer)
    requires tables.Valid() && Proper(tables.hashing, tables.Contents()) && t in tables.Contents()
    modifies tables.forest`nodes, tables.forest`roots, tables.forest`seg
    ensures tables.Valid() && Proper(tables.hashing, tables.Contents())
    ensures Serves(tables.hashing, Read(t, r), a, PlainOf(tables.hashing, old(tables.Contents())), PlainOf(tables.hashing, tables.Contents()))
  {
    ghost var h, views := tables.hashing, tables.Contents();
    KnownRef(tables, r);
    OnlyKnown(h, views, t);
    hide Tables.Contents, Tables.Valid, Proper, PlainOf, Known, With, Tables.FieldRef, Tables.IndexOf, Seen;
    var v := tables.GetRo(t, r, true);
    if v.Some? {
      ReadServed(h, views, t, r);
      a := Value(v.value);
    } else {
      a := Refused;
    }
  }

  method AssignField(tables: Tables, t: nat, r: nat, v: AddrSet) returns (a: Answer)
    requires tables.Valid() && Proper(tables.hashing, tables.Contents()) && t in tables.Contents()
    modifies tables`hashes, tables.forest`nodes, tables.forest`roots, tables.forest`seg
    ensures tables.Valid() && Proper(tables.hashing, tables.Contents())
    ensures Serves(tables.hashing, Assign(t, r, v), a, PlainOf(tables.hashing, old(tables.Contents())), PlainOf(tables.hashing, tables.Contents()))
  {
    ghost var h, views := tables.hashing, tables.Contents();
    KnownRef(tables, r);
    OnlyKnown(h, views, t);
    hide Tables.Contents, Tables.Valid, Proper, PlainOf, Known, With, Tables.FieldRef, Tables.IndexOf;
    var ok := tables.Write(t, r, v);
    if ok {
      AssignServed(h, views, t, r, v);
    }
    a := if ok then Done else Refused;
  }

  lemma KnownRef(tables: Tables, r: nat)
    requires tables.Valid()
    ensures tables.FieldRef(r) ==> tables.IndexOf(r) == r - STATIC_PREFIX < |tables.hashing.defaults|
    ensures Known(tables.hashing, r) <==> tables.FieldRef(r) && tables.hashing.defaults[tables.IndexOf(r)] != NULL_ADDR
  {
  }

  lemma OnlyKnown(h: Hashing, views: map<nat, map<nat, AddrSet>>, t: nat)
    requires Proper(h, views) && t in views
    ensures ProperFields(h, views[t])
  {
  }

  lemma LiveTables(tables: Tables)
    requires tables.Valid()
    ensures forall t :: t in tables.hashes <==> t in tables.Contents()
    ensures forall t :: t in tables.Contents() <==> t in PlainOf(tables.hashing, tables.Contents())
  {
  }

  method Perform(tables: Tables, q: Request) returns (a: Answer)
    requires tables.Valid() && Proper(tables.hashing, tables.Contents())
    modifies tables`hashes, tables.forest`nodes, tables.forest`roots, tables.forest`seg
    ensures tables.Valid() && Proper(tables.hashing, tables.Contents())
    ensures Serves(tables.hashing, q, a, PlainOf(tables.hashing, old(tables.Contents())), PlainOf(tables.hashing, tables.Contents()))
  {
    ghost var h, views := tables.hashing, tables.Contents();
    LiveTables(tables);
    hide Filled, Tables.Valid, Tables.Contents, Proper, PlainOf, Defaults, Known;
    if q.Create? {
      var t := tables.NewTable();
      PlainAdd(h, views, t, map[]);
      FilledEmpty(h);
      a := Created(t);
    } else if q.t !in tables.hashes {
      Absent(PlainOf(h, views), q.t);
      a := Refused;
    } else if q.Copy? {
      OnlyKnown(h, views, q.t);
      PlainAt(h, views, q.t);
      var u := tables.Fork(q.t);
      PlainAdd(h, views, u, views[q.t]);
      a := Created(u);
    } else if q.Release? {
      tables.Free(q.t);
      PlainDrop(h, views, q.t);
      a := Done;
    } else if q.Read? {
      a := ReadField(tables, q.t, q.r);
    } else {
      a := AssignField(tables, q.t, q.r, q.v);
    }
  }

  lemma Absent(s: Plain, t: nat)
    requires t !in s
    ensures s - {t} == s
  {
  }

  /** The hashes of tables that read alike are equal. */
  ghost predicate AlikeHashAlike(s: Plain, hashes: map<nat, bv32>) {
    hashes.Keys == s.Keys && forall t, u :: t in s && u in s && s[t] == s[u] ==> hashes[t] == hashes[u]
  }

  lemma HashesAlike(h: Hashing, n: nat, views: map<nat, map<nat, AddrSet>>, hashes: map<nat, bv32>)
    requires |h.defaults| == n && AllRight(h, n, views, hashes)
    ensures AlikeHashAlike(PlainOf(h, views), hashes)
  {
    var s := PlainOf(h, views);
    forall t, u | t in s && u in s && s[t] == s[u]
      ensures hashes[t] == hashes[u]
    {
      PairAlike(h, n, hashes[t], hashes[u], views[t], views[u]);
    }
  }

  lemma PairAlike(h: Hashing, n: nat, a: bv32, b: bv32, f: map<nat, AddrSet>, g: map<nat, AddrSet>)
    requires |h.defaults| == n && HashRight(h, n, a, f) && HashRight(h, n, b, g) && Filled(h, f) == Filled(h, g)
    ensures a == b
  {
    hide RangeHash;
    forall i | 0 <= i < n
      ensures Seen(h, f, i) == Seen(h, g, i)
    {
      assert Filled(h, f)[i] == Filled(h, g)[i];
    }
    SeenAlikeHashAlike(h, n, f, g);
  }

  /** Every answer of every run is one that independent plain tables give; equal tables end with equal hashes. */
  method Run(h: Hashing, qs: seq<Request>) returns (answers: seq<Answer>, hashes: map<nat, bv32>, ghost states: seq<Plain>)
    requires |h.defaults| <= STATIC_PREFIX
    ensures |answers| == |qs| && |states| == |qs| + 1 && states[0] == map[]
    ensures forall k :: 0 <= k < |qs| ==> Serves(h, qs[k], answers[k], states[k], states[k + 1])
    ensures AlikeHashAlike(states[|qs|], hashes)
  {
    hide Serves, AlikeHashAlike, AllRight;
    var tables := new Tables(h);
    answers, states := [], [map[]];
    for k := 0 to |qs|
      invariant tables.Valid() && tables.hashing == h && Proper(h, tables.Contents()) && fresh(tables) && fresh(tables.forest)
      invariant |answers| == k && |states| == k + 1 && states[0] == map[] && states[k] == PlainOf(h, tables.Contents())
      invariant forall j :: 0 <= j < k ==> Serves(h, qs[j], answers[j], states[j], states[j + 1])
    {
      hide PlainOf, Proper, Tables.Valid, Tables.Contents;
      var a := Perform(tables, qs[k]);
      answers, states := answers + [a], states + [PlainOf(h, tables.Contents())];
    }
    hashes := tables.hashes;
    HashesAlike(h, tables.forest.n, tables.Contents(), hashes);
  }
}
