/**
 Static-field tables: forks that share one forest of segment trees, lazy defaults and an incremental hash.
 */
module StaticTables {
  import opened Values
  import opened SegmentTrees
  import opened Words

  const INIT_HASHCODE: bv32 := 0x3c457fab

  // ---------- hashing ----------

  /** What the hash of a table depends on: the default of each field and the hash of a set. */
  datatype Hashing = Hashing(defaults: seq<nat>, setHash: AddrSet -> bv32) {
    /** A field that holds just its default contributes nothing. */
    function FieldHash(i: nat, v: AddrSet): bv32 {
      if i < |defaults| && |v.addrs| == 1 && defaults[i] in v.addrs then 0 else Mix(i) ^ setHash(v)
    }
  }

  function Mix(i: nat): bv32 {
    Word(i) * Word(i) * MH_MULTIPLY
  }

  /** The hash recomputed from the tree below `p`, a node for segment `s`. */
  function TreeHash(h: Hashing, ns: Nodes, p: Ptr, s: Seg): bv32
    decreases s.Len()
  {
    if p !in ns then 0
    else if ns[p].Leaf? || s.Len() <= 1 then (if ns[p].Leaf? then h.FieldHash(s.l, ns[p].value) else 0)
    else Xor(TreeHash(h, ns, ns[p].left, s.Lower()), TreeHash(h, ns, ns[p].right, s.Upper()))
  }

  /** What field `i` contributes to the hash of a table with these fields. */
  function Share(h: Hashing, f: map<nat, AddrSet>, i: nat): bv32 {
    if i in f then h.FieldHash(i, f[i]) else 0
  }

  /** The fields of a segment, hashed together. */
  function RangeHash(h: Hashing, f: map<nat, AddrSet>, s: Seg): bv32
    decreases s.Len()
  {
    if s.Len() <= 0 then 0
    else if s.Len() == 1 then Share(h, f, s.l)
    else Xor(RangeHash(h, f, s.Lower()), RangeHash(h, f, s.Upper()))
  }

  lemma {:induction false} TreeHashIs(h: Hashing, n: nat, ns: Nodes, seg: Segs, roots: Roots, p: Ptr, s: Seg, f: map<nat, AddrSet>)
    requires Shaped(n, ns, seg, roots) && ChildFits(ns, seg, p, s)
    requires forall j :: s.Has(j) ==> (j in f <==> Find(ns, p, s, j).Some?) && (j in f ==> f[j] == Find(ns, p, s, j).value)
    ensures TreeHash(h, ns, p, s) == RangeHash(h, f, s)
    decreases s.Len()
  {
    if p == NULL {
      NothingHashed(h, f, s);
    } else {
      assert NodeFits(ns, seg, p);
      if ns[p].Leaf? {
        assert s.Has(s.l);
      } else {
        forall j | s.Lower().Has(j)
          ensures Find(ns, p, s, j) == Find(ns, ns[p].left, s.Lower(), j)
        {
        }
        forall j | s.Upper().Has(j)
          ensures Find(ns, p, s, j) == Find(ns, ns[p].right, s.Upper(), j)
        {
        }
        TreeHashIs(h, n, ns, seg, roots, ns[p].left, s.Lower(), f);
        TreeHashIs(h, n, ns, seg, roots, ns[p].right, s.Upper(), f);
      }
    }
  }

  lemma {:induction false} NothingHashed(h: Hashing, f: map<nat, AddrSet>, s: Seg)
    requires forall j :: s.Has(j) ==> j !in f
    ensures RangeHash(h, f, s) == 0
    decreases s.Len()
  {
    if s.Len() > 1 {
      NothingHashed(h, f, s.Lower());
      NothingHashed(h, f, s.Upper());
    } else if s.Len() == 1 {
      assert s.Has(s.l);
    }
  }

  lemma {:induction false} RangeHashSame(h: Hashing, f: map<nat, AddrSet>, g: map<nat, AddrSet>, s: Seg)
    requires forall j :: s.Has(j) ==> Share(h, f, j) == Share(h, g, j)
    ensures RangeHash(h, f, s) == RangeHash(h, g, s)
    decreases s.Len()
  {
    if s.Len() > 1 {
      RangeHashSame(h, f, g, s.Lower());
      RangeHashSame(h, f, g, s.Upper());
    } else if s.Len() == 1 {
      assert s.Has(s.l);
    }
  }

  lemma Regroup(a: bv32, b: bv32, c: bv32, x: bv32, y: bv32)
    requires c == Xor(Xor(a, x), y)
    ensures Xor(c, b) == Xor(Xor(Xor(a, b), x), y) && Xor(b, c) == Xor(Xor(Xor(b, a), x), y)
  {
    hide Xor;
    XorSwap(Xor(a, x), y, b);
    XorSwap(a, x, b);
    XorComm(a, b);
    XorComm(c, b);
  }

  lemma CancelTwice(x: bv32, y: bv32)
    ensures y == Xor(Xor(x, x), y)
  {
  }

  /** Writing a field changes the hash by its old and its new contribution. */
  lemma {:induction false} RangeHashWrite(h: Hashing, f: map<nat, AddrSet>, s: Seg, i: nat, v: AddrSet)
    requires s.Has(i)
    ensures RangeHash(h, f[i := v], s) == Xor(Xor(RangeHash(h, f, s), Share(h, f, i)), h.FieldHash(i, v))
    decreases s.Len()
  {
    hide Share, Xor, Mix;
    var g := f[i := v];
    ShareWrite(h, f, i, v);
    if s.Len() == 1 {
      CancelTwice(Share(h, f, i), h.FieldHash(i, v));
    } else {
      var (lo, hi) := (s.Lower(), s.Upper());
      if i < s.Mid() {
        RangeHashWrite(h, f, lo, i, v);
        RangeHashSame(h, g, f, hi);
        Regroup(RangeHash(h, f, lo), RangeHash(h, f, hi), RangeHash(h, g, lo), Share(h, f, i), h.FieldHash(i, v));
      } else {
        RangeHashWrite(h, f, hi, i, v);
        RangeHashSame(h, g, f, lo);
        Regroup(RangeHash(h, f, hi), RangeHash(h, f, lo), RangeHash(h, g, hi), Share(h, f, i), h.FieldHash(i, v));
      }
    }
  }

  /** A field that does not hold just its default contributes the square of its index, spread, and the hash of its value. */
  lemma OneFieldHash(h: Hashing, n: nat, i: nat, v: AddrSet)
    requires i < n == |h.defaults| && !(|v.addrs| == 1 && h.defaults[i] in v.addrs)
    ensures RangeHash(h, map[i := v], Seg(0, n)) == Xor(Word(i) * Word(i) * MH_MULTIPLY, h.setHash(v))
  {
    hide RangeHash, Xor, Word, Mix, Hashing.FieldHash;
    var f: map<nat, AddrSet> := map[];
    NothingHashed(h, f, Seg(0, n));
    RangeHashWrite(h, f, Seg(0, n), i, v);
    XorZero(0);
    XorZero(h.FieldHash(i, v));
    FieldHashIs(h, i, v);
    assert f[i := v] == map[i := v];
  }

  lemma FieldHashIs(h: Hashing, i: nat, v: AddrSet)
    requires i < |h.defaults| && !(|v.addrs| == 1 && h.defaults[i] in v.addrs)
    ensures h.FieldHash(i, v) == Xor(Word(i) * Word(i) * MH_MULTIPLY, h.setHash(v))
  {
    hide Word;
  }

  lemma ShareWrite(h: Hashing, f: map<nat, AddrSet>, i: nat, v: AddrSet)
    ensures Share(h, f[i := v], i) == h.FieldHash(i, v)
    ensures forall j :: j != i ==> Share(h, f[i := v], j) == Share(h, f, j)
  {
  }

  // ---------- reading with defaults ----------

  function Default(h: Hashing, i: nat): AddrSet
    requires i < |h.defaults|
  {
    AddrSet({h.defaults[i]}, {})
  }

  /** What a reader of field `i` sees: an uninitialised field reads as its default. */
  function Seen(h: Hashing, f: map<nat, AddrSet>, i: nat): AddrSet
    requires i < |h.defaults|
  {
    if i in f then f[i] else Default(h, i)
  }

  /** Materialised defaults do not show in the hash: tables that read alike hash alike. */
  lemma SeenAlikeHashAlike(h: Hashing, n: nat, f: map<nat, AddrSet>, g: map<nat, AddrSet>)
    requires |h.defaults| == n && forall i :: 0 <= i < n ==> Seen(h, f, i) == Seen(h, g, i)
    ensures RangeHash(h, f, Seg(0, n)) == RangeHash(h, g, Seg(0, n))
  {
    forall j | Seg(0, n).Has(j)
      ensures Share(h, f, j) == Share(h, g, j)
    {
      assert Seen(h, f, j) == Seen(h, g, j);
      DefaultHash(h, j);
    }
    RangeHashSame(h, f, g, Seg(0, n));
  }

  lemma DefaultHash(h: Hashing, i: nat)
    requires i < |h.defaults|
    ensures h.FieldHash(i, Default(h, i)) == 0
  {
  }

  // ---------- stored hashes ----------

  /** The stored hash is the recomputed one. */
  ghost predicate HashRight(h: Hashing, n: nat, hash: bv32, f: map<nat, AddrSet>) {
    hash == Xor(RangeHash(h, f, Seg(0, n)), INIT_HASHCODE)
  }

  /** The stored hash leaves out field `i`, which is being written. */
  ghost predicate HashOpen(h: Hashing, n: nat, hash: bv32, f: map<nat, AddrSet>, i: nat) {
    hash == Xor(Xor(RangeHash(h, f, Seg(0, n)), Share(h, f, i)), INIT_HASHCODE)
  }

  lemma HashOpens(h: Hashing, n: nat, hash: bv32, f: map<nat, AddrSet>, i: nat)
    requires HashRight(h, n, hash, f) && i in f
    ensures HashOpen(h, n, Xor(hash, h.FieldHash(i, f[i])), f, i)
  {
    hide Xor, RangeHash, Mix;
    XorSwap(RangeHash(h, f, Seg(0, n)), INIT_HASHCODE, h.FieldHash(i, f[i]));
  }

  /** A field that is created with its default leaves the hash as it is. */
  lemma HashDefault(h: Hashing, n: nat, hash: bv32, f: map<nat, AddrSet>, i: nat)
    requires HashRight(h, n, hash, f) && i < n == |h.defaults| && i !in f
    ensures HashRight(h, n, hash, f[i := Default(h, i)]) && HashOpen(h, n, hash, f[i := Default(h, i)], i)
  {
    hide Xor, RangeHash, Mix;
    var g := f[i := Default(h, i)];
    RangeHashWrite(h, f, Seg(0, n), i, Default(h, i));
    DefaultHash(h, i);
    XorZero(RangeHash(h, f, Seg(0, n)));
  }

  lemma HashWrites(h: Hashing, n: nat, hash: bv32, f: map<nat, AddrSet>, i: nat, v: AddrSet)
    requires HashOpen(h, n, hash, f, i) && i < n
    ensures HashOpen(h, n, hash, f[i := v], i)
  {
    hide Xor, RangeHash, Mix;
    RangeHashWrite(h, f, Seg(0, n), i, v);
    XorSame(Xor(RangeHash(h, f, Seg(0, n)), Share(h, f, i)), h.FieldHash(i, v));
  }

  lemma HashCloses(h: Hashing, n: nat, hash: bv32, f: map<nat, AddrSet>, i: nat)
    requires HashOpen(h, n, hash, f, i) && i in f
    ensures HashRight(h, n, Xor(hash, h.FieldHash(i, f[i])), f)
  {
    hide Xor, RangeHash, Mix;
    XorSwap(Xor(RangeHash(h, f, Seg(0, n)), Share(h, f, i)), INIT_HASHCODE, h.FieldHash(i, f[i]));
    XorSame(RangeHash(h, f, Seg(0, n)), h.FieldHash(i, f[i]));
  }

  // ---------- searching in order ----------

  /** No field of the segment at or after `start` is initialised below `p`. */
  ghost predicate NoneFrom(ns: Nodes, p: Ptr, s: Seg, start: nat) {
    forall j :: s.Has(j) && start <= j ==> Find(ns, p, s, j).None?
  }

  /** One step of a search towards `start`: `q` and `half` are below `p` and `s`. */
  ghost predicate Below(ns: Nodes, p: Ptr, s: Seg, start: nat, q: Ptr, half: Seg) {
    && p in ns && ns[p].Inner? && s.Len() > 1
    && q == Toward(ns[p], s, start) && half == Half(s, start)
  }

  lemma FindBelow(ns: Nodes, p: Ptr, s: Seg, start: nat, q: Ptr, half: Seg, j: nat)
    requires Below(ns, p, s, start, q, half) && half.Has(j)
    ensures s.Has(j) && Find(ns, p, s, j) == Find(ns, q, half, j)
  {
  }

  /** Going back up from a child without the field: nothing on the way if the other half is empty or before `start`. */
  lemma NoneAbove(ns: Nodes, p: Ptr, s: Seg, start: nat, q: Ptr, half: Seg)
    requires Below(ns, p, s, start, q, half) && NoneFrom(ns, q, half, start) && NULL !in ns
    requires start < s.Mid() ==> ns[p].right == NULL
    ensures NoneFrom(ns, p, s, start)
  {
    forall j | s.Has(j) && start <= j
      ensures Find(ns, p, s, j).None?
    {
      if half.Has(j) {
        FindBelow(ns, p, s, start, q, half, j);
      }
    }
  }

  function Pow2(m: nat): nat {
    if m == 0 then 1 else 2 * Pow2(m - 1)
  }

  lemma Pow2Values()
    ensures Pow2(0) == 1 && Pow2(31) == STATIC_PREFIX
  {
    assert Pow2(4) == 16 && Pow2(8) == 256;
    assert Pow2(16) == 65536;
    assert Pow2(24) == 0x100_0000;
  }

  // ---------- tables ----------

  /** The initialised fields of every table. */
  ghost function Views(n: nat, ns: Nodes, roots: Roots): map<nat, map<nat, AddrSet>> {
    map t | t in roots :: Fields(n, ns, roots[t])
  }

  /** The views with one field of one table written. */
  function With(views: map<nat, map<nat, AddrSet>>, t: nat, i: nat, v: AddrSet): map<nat, map<nat, AddrSet>>
    requires t in views
  {
    var f: map<nat, AddrSet> := views[t];
    var g: map<nat, AddrSet> := f[i := v];
    views[t := g]
  }

  lemma WithSame(views: map<nat, map<nat, AddrSet>>, t: nat, i: nat)
    requires t in views && i in views[t]
    ensures With(views, t, i, views[t][i]) == views
  {
    assert views[t][i := views[t][i]] == views[t];
  }

  lemma WithTwice(views: map<nat, map<nat, AddrSet>>, t: nat, i: nat, v: AddrSet, w: AddrSet)
    requires t in views
    ensures With(With(views, t, i, v), t, i, w) == With(views, t, i, w)
  {
    assert views[t][i := v][i := w] == views[t][i := w];
  }

  lemma ViewsSame(n: nat, ns: Nodes, roots: Roots, ns': Nodes, roots': Roots)
    requires SameFields(n, ns, roots, ns', roots')
    ensures Views(n, ns', roots') == Views(n, ns, roots)
  {
  }

  lemma ViewsWrote(n: nat, ns: Nodes, roots: Roots, ns': Nodes, roots': Roots, t: nat, i: nat, v: AddrSet)
    requires Wrote(n, ns, roots, ns', roots', t, i, v)
    ensures Views(n, ns', roots') == With(Views(n, ns, roots), t, i, v)
  {
  }

  lemma ViewsTrimmed(n: nat, ns: Nodes, ns': Nodes, seg: Segs, roots: Roots)
    requires NULL !in ns && Trimmed(ns, ns') && Shaped(n, ns', seg, roots)
    ensures Views(n, ns', roots) == Views(n, ns, roots)
  {
    hide Fields, SameFields, Trimmed, Shaped;
    SameFieldsSelf(n, ns, roots);
    SameFieldsThen(n, ns, roots, ns, roots, ns', seg);
    ViewsSame(n, ns, roots, ns', roots);
  }

  /** Every table has a stored hash, and it is right. */
  ghost predicate AllRight(h: Hashing, n: nat, views: map<nat, map<nat, AddrSet>>, hashes: map<nat, bv32>) {
    hashes.Keys == views.Keys && forall t :: t in views ==> HashRight(h, n, hashes[t], views[t])
  }

  class Tables {
    const forest: Forest
    const hashing: Hashing
    var hashes: map<nat, bv32>

    /** No tables yet. */
    constructor (hashing: Hashing)
      requires |hashing.defaults| <= STATIC_PREFIX
      ensures Valid() && fresh(forest) && Contents() == map[] && this.hashing == hashing
    {
      var f := new Forest(|hashing.defaults|);
      this.forest, this.hashing, this.hashes := f, hashing, map[];
    }

    /** The forest is in order; nothing is said about the hashes. */
    ghost predicate Sound()
      reads this, forest
    {
      && |hashing.defaults| == forest.n <= STATIC_PREFIX
      && Consistent(forest.n, forest.nodes, forest.seg, forest.roots, multiset{}) && Bushy(forest.nodes, NULL)
    }

    ghost function Contents(): map<nat, map<nat, AddrSet>>
      reads this, forest
    {
      Views(forest.n, forest.nodes, forest.roots)
    }

    ghost predicate Valid()
      reads this, forest
    {
      Sound() && AllRight(hashing, forest.n, Contents(), hashes)
    }

    /** `cesk_static_table_fork(NULL)`: a table in which every field has its default. */
    method NewTable() returns (t: nat)
      requires Valid()
      modifies this`hashes, forest`roots
      ensures Valid() && t !in old(Contents()) && Contents() == old(Contents())[t := map[]]
    {
      hide Consistent, Fields, RangeHash, Xor;
      t := forest.Empty();
      hashes := hashes[t := INIT_HASHCODE];
      NothingHashed(hashing, map[], Seg(0, forest.n));
      XorZero(INIT_HASHCODE);
    }

    /** A fork reads what its origin reads. */
    method Fork(t: nat) returns (u: nat)
      requires Valid() && t in Contents()
      modifies this`hashes, forest`nodes, forest`roots
      ensures Valid() && u !in old(Contents()) && Contents() == old(Contents())[u := old(Contents())[t]]
      ensures hashes == old(hashes)[u := old(hashes)[t]]
    {
      hide Consistent, Fields, Shaped, Trimmed, HashRight, Bushy;
      ghost var ns, rs := forest.nodes, forest.roots;
      ConsistentShaped(forest.n, ns, forest.seg, rs, multiset{});
      ShapedNull(forest.n, ns, forest.seg, rs);
      u := forest.Share(t);
      ConsistentShaped(forest.n, forest.nodes, forest.seg, forest.roots, multiset{});
      ViewsTrimmed(forest.n, ns, forest.nodes, forest.seg, forest.roots);
      assert Contents() == Views(forest.n, ns, rs)[u := Views(forest.n, ns, rs)[t]];
      hashes := hashes[u := hashes[t]];
    }

    /** Freeing a table leaves the others as they are; without tables the forest is empty. */
    method Free(t: nat)
      requires Valid() && t in Contents()
      modifies this`hashes, forest`nodes, forest`roots
      ensures Valid() && Contents() == old(Contents()) - {t}
      ensures Contents() == map[] ==> forest.nodes == map[]
    {
      hide Consistent, Fields, Shaped, Trimmed, HashRight, Bushy;
      ghost var ns, rs := forest.nodes, forest.roots;
      ConsistentShaped(forest.n, ns, forest.seg, rs, multiset{});
      ShapedNull(forest.n, ns, forest.seg, rs);
      forest.Release(t);
      ConsistentShaped(forest.n, forest.nodes, forest.seg, forest.roots, multiset{});
      ViewsTrimmed(forest.n, ns, forest.nodes, forest.seg, forest.roots);
      assert Contents() == Views(forest.n, ns, rs) - {t};
      hashes := hashes - {t};
      assert forest.roots.Keys == Contents().Keys;
    }

    /** The leaf of field `i` in table `t`, NULL if the field is not initialised. */
    method FindNode(t: nat, i: nat) returns (p: Ptr)
      requires Sound() && t in forest.roots && i < forest.n
      ensures p != NULL ==> p in forest.nodes && forest.nodes[p].Leaf?
      ensures p != NULL <==> i in Fields(forest.n, forest.nodes, forest.roots[t])
      ensures p != NULL ==> Fields(forest.n, forest.nodes, forest.roots[t])[i] == forest.nodes[p].value
    {
      hide Consistent, Fields, Shaped, Bushy;
      ghost var n, ns, seg, root := forest.n, forest.nodes, forest.seg, forest.roots[t];
      var s := Seg(0, forest.n);
      p := forest.roots[t];
      ConsistentShaped(n, ns, seg, forest.roots, multiset{});
      RootFits(n, ns, seg, forest.roots, t);
      ShapedNull(n, ns, seg, forest.roots);
      FieldAt(n, ns, root, i);
      while s.Len() > 1 && p != NULL
        invariant ChildFits(ns, seg, p, s) && s.l < s.r && s.Has(i)
        invariant Find(ns, root, Seg(0, n), i) == Find(ns, p, s, i)
        decreases s.Len()
      {
        NodeOf(n, ns, seg, forest.roots, p);
        if i < s.Mid() {
          p, s := forest.nodes[p].left, s.Lower();
        } else {
          p, s := forest.nodes[p].right, s.Upper();
        }
      }
      if p != NULL {
        NodeOf(n, ns, seg, forest.roots, p);
      }
    }

    /** Gives an uninitialised field its default; fails if the default has never been looked up. */
    method InitField(t: nat, i: nat) returns (leaf: Ptr, ghost path: seq<Ptr>)
      requires Sound() && t in Contents() && i < forest.n && i !in Contents()[t]
      modifies forest`nodes, forest`roots, forest`seg
      ensures Sound() && (leaf == NULL <==> hashing.defaults[i] == NULL_ADDR)
      ensures leaf == NULL ==> forest.nodes == old(forest.nodes) && forest.roots == old(forest.roots) && forest.seg == old(forest.seg)
      ensures leaf != NULL ==> Contents() == With(old(Contents()), t, i, Default(hashing, i))
      ensures leaf != NULL ==> Owns(forest, t, i, path, leaf) && forest.nodes[leaf].value == Default(hashing, i)
    {
      hide Consistent, Fields, Bushy, Ends, Wrote;
      path := [];
      if hashing.defaults[i] == NULL_ADDR {
        return NULL, [];
      }
      ghost var ns, rs := forest.nodes, forest.roots;
      leaf, path := forest.Insert(t, i, AddrSet({hashing.defaults[i]}, {}));
      ViewsWrote(forest.n, ns, rs, forest.nodes, forest.roots, t, i, Default(hashing, i));
      EndsIn(forest.n, forest.nodes, forest.seg, forest.roots, t, i, path, leaf);
    }

    /** Reads a field; with `init`, an uninitialised field is given its default first. */
    method GetRo(t: nat, r: nat, init: bool) returns (v: Option<AddrSet>)
      requires Valid() && t in Contents()
      modifies forest`nodes, forest`roots, forest`seg
      ensures Valid()
      ensures v.Some? <==> FieldRef(r) && (IndexOf(r) in old(Contents())[t] || (init && hashing.defaults[IndexOf(r)] != NULL_ADDR))
      ensures v.Some? ==> v.value == Seen(hashing, old(Contents())[t], IndexOf(r))
      ensures v.Some? && IndexOf(r) !in old(Contents())[t] ==> v.value == AddrSet({hashing.defaults[IndexOf(r)]}, {})
      ensures Contents() == if v.Some? then With(old(Contents()), t, IndexOf(r), v.value) else old(Contents())
    {
      hide Consistent, Fields, HashRight, Bushy, HashOpen;
      if !IsStatic(r) || r - STATIC_PREFIX >= forest.n {
        return None;
      }
      var i := r - STATIC_PREFIX;
      var p := FindNode(t, i);
      if p != NULL {
        WithSame(Contents(), t, i);
        return Some(forest.nodes[p].value);
      }
      if !init {
        return None;
      }
      ghost var views := Contents();
      ghost var path;
      p, path := InitField(t, i);
      if p == NULL {
        return None;
      }
      HashDefault(hashing, forest.n, hashes[t], views[t], i);
      return Some(forest.nodes[p].value);
    }

    /** A reference to a static field of this program. */
    predicate FieldRef(r: nat) {
      IsStatic(r) && r - STATIC_PREFIX < forest.n
    }

    function IndexOf(r: nat): nat {
      if IsStatic(r) then r - STATIC_PREFIX else 0
    }

    /**
     Makes a field writable and returns its leaf, NULL if it cannot be initialised. Until the field is
     released, the stored hash leaves it out.
     */
    method GetRw(t: nat, r: nat) returns (target: Ptr, ghost path: seq<Ptr>)
      requires Valid() && t in Contents()
      modifies this`hashes, forest`nodes, forest`roots, forest`seg
      ensures target != NULL <==> FieldRef(r) && (IndexOf(r) in old(Contents())[t] || hashing.defaults[IndexOf(r)] != NULL_ADDR)
      ensures target == NULL ==> Valid() && Contents() == old(Contents())
      ensures target != NULL ==> Lent(t, IndexOf(r), path, target)
      ensures target != NULL ==> forest.nodes[target].value == Seen(hashing, old(Contents())[t], IndexOf(r))
      ensures target != NULL ==>
          Contents() == With(old(Contents()), t, IndexOf(r), Seen(hashing, old(Contents())[t], IndexOf(r)))
    {
      hide Consistent, Fields, HashRight, Bushy, HashOpen, Ends, SameFields;
      path := [];
      if !IsStatic(r) || r - STATIC_PREFIX >= forest.n {
        return NULL, [];
      }
      var i := r - STATIC_PREFIX;
      ghost var ns, rs, views := forest.nodes, forest.roots, Contents();
      target, path := forest.PrepareToWrite(t, i);
      ViewsSame(forest.n, ns, rs, forest.nodes, forest.roots);
      TargetField(forest, t, i, path, target);
      if target == NULL {
        target, path := InitField(t, i);
        if target != NULL {
          HashDefault(hashing, forest.n, hashes[t], views[t], i);
        }
      } else {
        HashOpens(hashing, forest.n, hashes[t], views[t], i);
        WithSame(views, t, i);
        EndsIn(forest.n, forest.nodes, forest.seg, forest.roots, t, i, path, target);
        hashes := hashes[t := Xor(hashes[t], hashing.FieldHash(i, forest.nodes[target].value))];
      }
    }

    /** Field `i` of table `t` has been handed out for writing. */
    ghost predicate Lent(t: nat, i: nat, path: seq<Ptr>, target: Ptr)
      reads this, forest
    {
      && Sound() && t in Contents() && i in Contents()[t] && Owns(forest, t, i, path, target)
      && hashes.Keys == Contents().Keys && HashOpen(hashing, forest.n, hashes[t], Contents()[t], i)
      && forall u :: u in Contents() && u != t ==> HashRight(hashing, forest.n, hashes[u], Contents()[u])
    }

    /** Writes through a pointer that has been handed out. */
    method SetSlot(t: nat, i: nat, target: Ptr, v: AddrSet, ghost path: seq<Ptr>)
      requires Lent(t, i, path, target) && i < forest.n
      modifies forest`nodes
      ensures Lent(t, i, path, target) && Contents() == With(old(Contents()), t, i, v)
    {
      hide Consistent, Fields, HashRight, Bushy, HashOpen, Chain, Tip, Shaped, TipSeg, Wrote;
      ghost var n, ns, rs := forest.n, forest.nodes, forest.roots;
      EndsIn(n, ns, forest.seg, rs, t, i, path, target);
      LeafEffect(n, ns, forest.seg, rs, t, i, path, target, v, TipSeg(n, forest.seg, i, path));
      LeafConsistent(n, ns, forest.seg, rs, target, v);
      LeafEnds(n, ns, forest.seg, rs, t, i, path, target, v);
      ViewsWrote(n, ns, rs, ns[target := Leaf(ns[target].refcnt, v)], rs, t, i, v);
      HashWrites(hashing, n, hashes[t], Contents()[t], i, v);
      forest.nodes := forest.nodes[target := Leaf(forest.nodes[target].refcnt, v)];
    }

    /** Takes the field's new value into the stored hash. */
    method ReleaseRw(t: nat, r: nat, v: AddrSet, ghost path: seq<Ptr>, ghost target: Ptr)
      requires FieldRef(r) && Lent(t, IndexOf(r), path, target) && Contents()[t][IndexOf(r)] == v
      modifies this`hashes
      ensures Valid() && Contents() == old(Contents())
    {
      hide Consistent, Fields, HashRight, Bushy, HashOpen, Owns;
      HashCloses(hashing, forest.n, hashes[t], Contents()[t], IndexOf(r));
      hashes := hashes[t := Xor(hashes[t], hashing.FieldHash(r - STATIC_PREFIX, v))];
    }

    /** A paired get, assignment and release: only table `t` sees the write, and only in that field. */
    method Write(t: nat, r: nat, v: AddrSet) returns (ok: bool)
      requires Valid() && t in Contents()
      modifies this`hashes, forest`nodes, forest`roots, forest`seg
      ensures Valid()
      ensures ok <==> FieldRef(r) && (IndexOf(r) in old(Contents())[t] || hashing.defaults[IndexOf(r)] != NULL_ADDR)
      ensures Contents() == if ok then With(old(Contents()), t, IndexOf(r), v) else old(Contents())
    {
      hide Consistent, Fields, HashRight, Bushy, HashOpen, Owns;
      var target;
      ghost var path;
      target, path := GetRw(t, r);
      if target == NULL {
        return false;
      }
      ghost var views := Contents();
      SetSlot(t, r - STATIC_PREFIX, target, v, path);
      WithTwice(old(Contents()), t, IndexOf(r), views[t][IndexOf(r)], v);
      ReleaseRw(t, r, v, path, target);
      ok := true;
    }

    /** `cesk_static_table_compute_hashcode`: recomputing the hash gives the stored one. */
    method ComputeHash(t: nat) returns (hash: bv32)
      requires Valid() && t in Contents()
      ensures hash == hashes[t]
    {
      hide Consistent, Fields, Xor, TreeHash, RangeHash, Shaped;
      ghost var n, ns, seg, root := forest.n, forest.nodes, forest.seg, forest.roots[t];
      hash := Xor(TreeHash(hashing, forest.nodes, forest.roots[t], Seg(0, forest.n)), INIT_HASHCODE);
      ConsistentShaped(n, ns, seg, forest.roots, multiset{});
      RootFits(n, ns, seg, forest.roots, t);
      forall j | Seg(0, n).Has(j)
        ensures j in Fields(n, ns, root) <==> Find(ns, root, Seg(0, n), j).Some?
        ensures j in Fields(n, ns, root) ==> Fields(n, ns, root)[j] == Find(ns, root, Seg(0, n), j).value
      {
        FieldAt(n, ns, root, j);
      }
      TreeHashIs(hashing, n, ns, seg, forest.roots, root, Seg(0, n), Fields(n, ns, root));
    }

    /** The first leaf below a node. */
    method Leftmost(p0: Ptr, s0: Seg) returns (i: nat, leaf: Ptr)
      requires Sound() && p0 in forest.nodes && p0 in forest.seg && forest.seg[p0] == s0
      ensures leaf in forest.nodes && forest.nodes[leaf].Leaf? && s0.Has(i)
      ensures Find(forest.nodes, p0, s0, i) == Some(forest.nodes[leaf].value)
      ensures forall j :: s0.Has(j) && Find(forest.nodes, p0, s0, j).Some? ==> i <= j
    {
      hide Consistent, Shaped;
      ghost var n, ns, seg := forest.n, forest.nodes, forest.seg;
      ConsistentShaped(n, ns, seg, forest.roots, multiset{});
      ShapedNull(n, ns, seg, forest.roots);
      NodeOf(n, ns, seg, forest.roots, p0);
      var p, s := p0, s0;
      while forest.nodes[p].Inner?
        invariant p in ns && p in seg && seg[p] == s && NodeFits(ns, seg, p) && s0.l <= s.l && s.r <= s0.r
        invariant forall j :: s.Has(j) ==> Find(ns, p0, s0, j) == Find(ns, p, s, j)
        invariant forall j :: s0.Has(j) && Find(ns, p0, s0, j).Some? ==> s.l <= j
        decreases s.Len()
      {
        if forest.nodes[p].left != NULL {
          p, s := forest.nodes[p].left, s.Lower();
        } else {
          p, s := forest.nodes[p].right, s.Upper();
        }
        NodeOf(n, ns, seg, forest.roots, p);
      }
      i, leaf := s.l, p;
    }

    /** Adds an entry to the path of a search. */
    method Enter(path: array<Ptr>, segs: array<Seg>, k: nat, p: Ptr, s: Seg)
      requires k < path.Length == segs.Length
      modifies path, segs
      ensures path[k] == p && segs[k] == s
      ensures path[..k + 1] == old(path[..k]) + [p] && segs[..k + 1] == old(segs[..k]) + [s]
    {
      path[k], segs[k] := p, s;
    }

    /** Searches for `start`, recording the way down; the way fits into 32 entries. */
    method Descend(t: nat, start: nat, path: array<Ptr>, segs: array<Seg>) returns (level: nat)
      requires Sound() && t in forest.roots && path.Length == 32 && segs.Length == 32
      modifies path, segs
      ensures level < 32 && Trail(forest.nodes, forest.n, forest.roots[t], start, path[..level + 1], segs[..level + 1])
      ensures ChildFits(forest.nodes, forest.seg, path[level], segs[level]) && (segs[level].Len() <= 1 || path[level] == NULL)
      ensures segs[level].l <= start
    {
      hide Consistent, Shaped, Bushy, Find, Trail, Pow2, ChildFits, Below;
      ghost var n, ns, seg, root := forest.n, forest.nodes, forest.seg, forest.roots[t];
      ConsistentShaped(n, ns, seg, forest.roots, multiset{});
      RootFits(n, ns, seg, forest.roots, t);
      Pow2Values();
      path[0], segs[0] := forest.roots[t], Seg(0, forest.n);
      level := 0;
      TrailStarts(ns, n, root, start);
      assert path[..1] == [root] && segs[..1] == [Seg(0, n)];
      while segs[level].Len() > 1 && path[level] != NULL
        invariant level <= 31 && segs[level].Len() <= Pow2(31 - level) && ChildFits(ns, seg, path[level], segs[level])
        invariant segs[level].l <= start
        invariant Trail(ns, n, root, start, path[..level + 1], segs[..level + 1])
        decreases segs[level].Len()
      {
        var p, s := path[level], segs[level];
        StepDown(n, ns, seg, forest.roots, p, s, start, 31 - level);
        ghost var was, wasSegs := path[..level + 1], segs[..level + 1];
        if start < s.Mid() {
          Enter(path, segs, level + 1, forest.nodes[p].left, s.Lower());
        } else {
          Enter(path, segs, level + 1, forest.nodes[p].right, s.Upper());
        }
        TrailGrows(ns, n, root, start, was, wasSegs, path[level + 1], segs[level + 1]);
        level := level + 1;
      }
    }

    /** Goes back up to the first node with another right child, and down to the first leaf there. */
    method Ascend(t: nat, start: nat, path: seq<Ptr>, segs: seq<Seg>) returns (i: nat, leaf: Ptr)
      requires Sound() && t in forest.roots && Trail(forest.nodes, forest.n, forest.roots[t], start, path, segs)
      requires NoneFrom(forest.nodes, path[|path| - 1], segs[|path| - 1], start)
      ensures i != NULL_ADDR ==> start <= i < forest.n && leaf in forest.nodes && forest.nodes[leaf].Leaf?
      ensures i != NULL_ADDR ==> Find(forest.nodes, forest.roots[t], Seg(0, forest.n), i) == Some(forest.nodes[leaf].value)
      ensures forall j :: start <= j < forest.n && Find(forest.nodes, forest.roots[t], Seg(0, forest.n), j).Some? ==> i != NULL_ADDR && i <= j
    {
      hide Consistent, Shaped, Bushy, Find, NoneFrom, Trail;
      ghost var n, ns, seg, root := forest.n, forest.nodes, forest.seg, forest.roots[t];
      ConsistentShaped(n, ns, seg, forest.roots, multiset{});
      ShapedNull(n, ns, seg, forest.roots);
      RootFits(n, ns, seg, forest.roots, t);
      TrailHead(ns, n, root, start, path, segs);
      var k := |path| - 1;
      while k > 0
        invariant 0 <= k < |path| == |segs| && NoneFrom(ns, path[k], segs[k], start)
      {
        k := k - 1;
        StepAt(n, ns, seg, forest.roots, t, start, path, segs, k);
        var right := forest.nodes[path[k]].right;
        if right != NULL && right != path[k + 1] {
          i, leaf := Leftmost(right, segs[k].Upper());
          FirstAfter(ns, n, root, start, path, segs, k, i);
          return;
        }
        NoneAbove(ns, path[k], segs[k], start, path[k + 1], segs[k + 1]);
      }
      i, leaf := NULL_ADDR, NULL;
      NoneAtAll(ns, root, n, start);
    }

    /** The least initialised field of table `t` that is not before `start`, and its leaf; NULL_ADDR if there is none. */
    method Next(t: nat, start: nat) returns (i: nat, leaf: Ptr)
      requires Sound() && t in Contents()
      ensures i != NULL_ADDR ==> start <= i && i in Contents()[t] && leaf in forest.nodes && forest.nodes[leaf].Leaf?
      ensures i != NULL_ADDR ==> Contents()[t][i] == forest.nodes[leaf].value
      ensures LeastFrom(Contents()[t], start, i)
    {
      hide Consistent, Shaped, Bushy, Find, Fields, Trail, ChildFits;
      ghost var n, ns, seg, root := forest.n, forest.nodes, forest.seg, forest.roots[t];
      var path, segs := new Ptr[32], new Seg[32];
      var level := Descend(t, start, path, segs);
      var p, s := path[level], segs[level];
      ghost var gp, gs := path[..level + 1], segs[..level + 1];
      ConsistentShaped(n, ns, seg, forest.roots, multiset{});
      TipLeaf(n, ns, seg, forest.roots, p, s, start);
      FieldsAre(n, ns, root);
      if p != NULL && forest.nodes[p].Leaf? && s.l == start {
        TrailReads(ns, n, root, start, gp, gs, level, start);
        return start, p;
      }
      i, leaf := Ascend(t, start, path[..level + 1], segs[..level + 1]);
    }

    /** The iterator, run to its end: all initialised fields, in order, each once, with their values. */
    method Traverse(t: nat) returns (items: seq<(nat, AddrSet)>)
      requires Sound() && t in Contents()
      ensures forall k, m :: 0 <= k < m < |items| ==> items[k].0 < items[m].0
      ensures forall k :: 0 <= k < |items| ==> items[k].0 in Contents()[t] && Contents()[t][items[k].0] == items[k].1
      ensures forall i :: i in Contents()[t] ==> exists k :: 0 <= k < |items| && items[k].0 == i
    {
      hide Consistent, Shaped, Bushy, Find, Fields, Listing, LeastFrom;
      items := [];
      ghost var f := Contents()[t];
      FieldsAre(forest.n, forest.nodes, forest.roots[t]);
      ListingNone(f);
      var begin := 0;
      var i, leaf := Next(t, begin);
      while i != NULL_ADDR
        invariant i != NULL_ADDR ==> begin <= i && i in f && leaf in forest.nodes && forest.nodes[leaf].Leaf? && f[i] == forest.nodes[leaf].value
        invariant t in Contents() && Contents()[t] == f && LeastFrom(f, begin, i) && Listing(f, items, begin)
        decreases if i == NULL_ADDR then 0 else forest.n - begin + 1
      {
        ListingMore(f, items, begin, i);
        items := items + [(i, forest.nodes[leaf].value)];
        begin := i + 1;
        i, leaf := Next(t, begin);
      }
      ListingAll(f, items, begin);
    }
  }

  /** The fields before `begin` in order, each with its value. */
  ghost predicate Listing(f: map<nat, AddrSet>, items: seq<(nat, AddrSet)>, begin: nat) {
    && (forall k, m :: 0 <= k < m < |items| ==> items[k].0 < items[m].0)
    && (forall k :: 0 <= k < |items| ==> items[k].0 < begin && items[k].0 in f && f[items[k].0] == items[k].1)
    && (forall j :: j in f && j < begin ==> Listed(items, j))
  }

  lemma ListingNone(f: map<nat, AddrSet>)
    ensures Listing(f, [], 0)
  {
  }

  lemma ListingMore(f: map<nat, AddrSet>, items: seq<(nat, AddrSet)>, begin: nat, i: nat)
    requires Listing(f, items, begin) && LeastFrom(f, begin, i) && begin <= i && i in f
    ensures Listing(f, items + [(i, f[i])], i + 1)
  {
    forall j | j in f && j < i + 1
      ensures Listed(items + [(i, f[i])], j)
    {
      ListedMore(items, (i, f[i]), j);
    }
  }

  lemma ListingAll(f: map<nat, AddrSet>, items: seq<(nat, AddrSet)>, begin: nat)
    requires Listing(f, items, begin) && LeastFrom(f, begin, NULL_ADDR)
    ensures forall k, m :: 0 <= k < m < |items| ==> items[k].0 < items[m].0
    ensures forall k :: 0 <= k < |items| ==> items[k].0 in f && f[items[k].0] == items[k].1
    ensures forall i :: i in f ==> exists k :: 0 <= k < |items| && items[k].0 == i
  {
  }

  ghost predicate LeastFrom(f: map<nat, AddrSet>, start: nat, i: nat) {
    forall j :: j in f && start <= j ==> i != NULL_ADDR && i <= j
  }

  ghost predicate Listed(items: seq<(nat, AddrSet)>, j: nat) {
    exists k :: 0 <= k < |items| && items[k].0 == j
  }

  lemma ListedMore(items: seq<(nat, AddrSet)>, x: (nat, AddrSet), j: nat)
    requires Listed(items, j) || x.0 == j
    ensures Listed(items + [x], j)
  {
    if x.0 == j {
      assert (items + [x])[|items|].0 == j;
    } else {
      var k :| 0 <= k < |items| && items[k].0 == j;
      assert (items + [x])[k].0 == j;
    }
  }

  lemma FieldsAre(n: nat, ns: Nodes, root: Ptr)
    ensures forall j :: j in Fields(n, ns, root) <==> 0 <= j < n && Find(ns, root, Seg(0, n), j).Some?
    ensures forall j :: j in Fields(n, ns, root) ==> Fields(n, ns, root)[j] == Find(ns, root, Seg(0, n), j).value
  {
    hide Find;
  }

  /** Where a search stops: on `start` itself, or where nothing at or after it is. */
  lemma TipLeaf(n: nat, ns: Nodes, seg: Segs, roots: Roots, p: Ptr, s: Seg, start: nat)
    requires Shaped(n, ns, seg, roots) && ChildFits(ns, seg, p, s) && (s.Len() <= 1 || p == NULL) && s.l <= start
    ensures p != NULL ==> p in ns && ns[p].Leaf? && Find(ns, p, s, start) == Some(ns[p].value) && s.Has(s.l)
    ensures p == NULL || s.l != start ==> NoneFrom(ns, p, s, start)
  {
    if p != NULL {
      assert NodeFits(ns, seg, p);
    }
  }

  lemma TrailHead(ns: Nodes, n: nat, root: Ptr, start: nat, path: seq<Ptr>, segs: seq<Seg>)
    requires Trail(ns, n, root, start, path, segs)
    ensures |path| == |segs| > 0 && path[0] == root && segs[0] == Seg(0, n)
  {
  }

  lemma NoneAtAll(ns: Nodes, root: Ptr, n: nat, start: nat)
    requires NoneFrom(ns, root, Seg(0, n), start)
    ensures forall j :: start <= j < n ==> Find(ns, root, Seg(0, n), j).None?
  {
    forall j | start <= j < n
      ensures Find(ns, root, Seg(0, n), j).None?
    {
      assert Seg(0, n).Has(j);
    }
  }

  lemma {:induction false} StepAt(n: nat, ns: Nodes, seg: Segs, roots: Roots, t: nat, start: nat, path: seq<Ptr>, segs: seq<Seg>, k: nat)
    requires Shaped(n, ns, seg, roots) && t in roots && Trail(ns, n, roots[t], start, path, segs) && k + 1 < |path|
    ensures Below(ns, path[k], segs[k], start, path[k + 1], segs[k + 1])
    ensures path[k] in seg && seg[path[k]] == segs[k] && segs[k].l <= start
    ensures ns[path[k]].right != NULL ==> ns[path[k]].right in ns && ns[path[k]].right in seg && seg[ns[path[k]].right] == segs[k].Upper()
    ensures start < segs[k].Mid() && ns[path[k]].right != NULL ==> ns[path[k]].right != path[k + 1]
    ensures start >= segs[k].Mid() ==> ns[path[k]].right == path[k + 1]
  {
    assert TrailStep(ns, start, path, segs, k);
    if k == 0 {
      assert ChildFits(ns, seg, roots[t], Seg(0, n));
    } else {
      StepAt(n, ns, seg, roots, t, start, path, segs, k - 1);
      assert NodeFits(ns, seg, path[k - 1]);
    }
    assert NodeFits(ns, seg, path[k]);
  }

  /** The first leaf of the right child is the first field after all those that are not there. */
  lemma FirstAfter(ns: Nodes, n: nat, root: Ptr, start: nat, path: seq<Ptr>, segs: seq<Seg>, k: nat, i: nat)
    requires Trail(ns, n, root, start, path, segs) && k + 1 < |path| && NULL !in ns
    requires Below(ns, path[k], segs[k], start, path[k + 1], segs[k + 1]) && segs[k].l <= start < segs[k].Mid()
    requires NoneFrom(ns, path[k + 1], segs[k + 1], start) && segs[k].Upper().Has(i)
    requires forall j :: segs[k].Upper().Has(j) && Find(ns, ns[path[k]].right, segs[k].Upper(), j).Some? ==> i <= j
    ensures start <= i < n && Find(ns, root, Seg(0, n), i) == Find(ns, ns[path[k]].right, segs[k].Upper(), i)
    ensures forall j :: start <= j < n && Find(ns, root, Seg(0, n), j).Some? ==> i <= j
  {
    hide Trail;
    TrailReads(ns, n, root, start, path, segs, k, i);
    forall j | start <= j < n && Find(ns, root, Seg(0, n), j).Some?
      ensures i <= j
    {
      if j < i {
        TrailReads(ns, n, root, start, path, segs, k, j);
      }
    }
  }

  lemma Pow2Half(m: nat)
    ensures m > 0 ==> Pow2(m) == 2 * Pow2(m - 1)
    ensures m == 0 ==> Pow2(m) == 1
  {
  }

  /** One step of a search towards `start` halves the segment. */
  lemma StepDown(n: nat, ns: Nodes, seg: Segs, roots: Roots, p: Ptr, s: Seg, start: nat, m: nat)
    requires Shaped(n, ns, seg, roots) && ChildFits(ns, seg, p, s) && p != NULL && 1 < s.Len() <= Pow2(m) && s.l <= start
    ensures m > 0 && p in ns && ns[p].Inner?
    ensures var q, half := Toward(ns[p], s, start), Half(s, start);
            && Below(ns, p, s, start, q, half) && ChildFits(ns, seg, q, half)
            && half.Len() < s.Len() && half.Len() <= Pow2(m - 1) && half.l <= start
  {
    hide Shaped, Pow2;
    NodeOf(n, ns, seg, roots, p);
    Pow2Half(m);
  }

  lemma TrailStarts(ns: Nodes, n: nat, root: Ptr, start: nat)
    ensures Trail(ns, n, root, start, [root], [Seg(0, n)])
  {
  }


  /** The path of a search, from the root of the tree to where it stops. */
  ghost predicate Trail(ns: Nodes, n: nat, root: Ptr, start: nat, path: seq<Ptr>, segs: seq<Seg>) {
    && |path| == |segs| > 0 && path[0] == root && segs[0] == Seg(0, n)
    && forall k :: 0 <= k < |path| - 1 ==> TrailStep(ns, start, path, segs, k)
  }

  ghost predicate TrailStep(ns: Nodes, start: nat, path: seq<Ptr>, segs: seq<Seg>, k: nat)
    requires k + 1 < |path| == |segs|
  {
    Below(ns, path[k], segs[k], start, path[k + 1], segs[k + 1])
  }

  lemma TrailGrows(ns: Nodes, n: nat, root: Ptr, start: nat, path: seq<Ptr>, segs: seq<Seg>, q: Ptr, half: Seg)
    requires Trail(ns, n, root, start, path, segs) && Below(ns, path[|path| - 1], segs[|path| - 1], start, q, half)
    ensures Trail(ns, n, root, start, path + [q], segs + [half])
  {
    forall k | 0 <= k < |path|
      ensures TrailStep(ns, start, path + [q], segs + [half], k)
    {
      if k < |path| - 1 {
        assert TrailStep(ns, start, path, segs, k);
      }
    }
  }

  /** What the whole tree says about a field of a segment on the trail. */
  lemma {:induction false} TrailReads(ns: Nodes, n: nat, root: Ptr, start: nat, path: seq<Ptr>, segs: seq<Seg>, k: nat, j: nat)
    requires Trail(ns, n, root, start, path, segs) && k < |path| && segs[k].Has(j)
    ensures Find(ns, root, Seg(0, n), j) == Find(ns, path[k], segs[k], j) && j < n
  {
    if k > 0 {
      assert TrailStep(ns, start, path, segs, k - 1);
      FindBelow(ns, path[k - 1], segs[k - 1], start, path[k], segs[k], j);
      TrailReads(ns, n, root, start, path, segs, k - 1, j);
    }
  }

  lemma EndsIn(n: nat, ns: Nodes, seg: Segs, roots: Roots, t: nat, i: nat, path: seq<Ptr>, a: Ptr)
    requires Ends(n, ns, seg, roots, t, i, path, a)
    ensures (a != NULL ==> a in ns) && (path != [] ==> path[|path| - 1] in seg)
  {
  }

  lemma NodeOf(n: nat, ns: Nodes, seg: Segs, roots: Roots, p: Ptr)
    requires Shaped(n, ns, seg, roots) && p in ns
    ensures p in seg && NodeFits(ns, seg, p)
  {
  }

  /** `target` is the leaf of field `i` of table `t`, and only that table can reach it. */
  ghost predicate Owns(forest: Forest, t: nat, i: nat, path: seq<Ptr>, target: Ptr)
    reads forest
  {
    && Ends(forest.n, forest.nodes, forest.seg, forest.roots, t, i, path, target) && target != NULL && target in forest.nodes
    && forest.nodes[target].Leaf? && TipSeg(forest.n, forest.seg, i, path).Has(i)
  }

  lemma TargetField(forest: Forest, t: nat, i: nat, path: seq<Ptr>, target: Ptr)
    requires Consistent(forest.n, forest.nodes, forest.seg, forest.roots, multiset{})
    requires Ends(forest.n, forest.nodes, forest.seg, forest.roots, t, i, path, target) && TipSeg(forest.n, forest.seg, i, path).Has(i)
    requires target != NULL ==> forest.nodes[target].Leaf?
    ensures t in forest.roots && (target != NULL <==> i in Fields(forest.n, forest.nodes, forest.roots[t]))
    ensures target != NULL ==> Fields(forest.n, forest.nodes, forest.roots[t])[i] == forest.nodes[target].value
  {
    hide Consistent, Fields;
    var n, ns, seg, roots := forest.n, forest.nodes, forest.seg, forest.roots;
    ConsistentShaped(n, ns, seg, roots, multiset{});
    ShapedNull(n, ns, seg, roots);
    if target != NULL {
      LeafEffect(n, ns, seg, roots, t, i, path, target, ns[target].value, TipSeg(n, seg, i, path));
    } else {
      TipReads(n, ns, seg, roots, t, i, path, TipSeg(n, seg, i, path));
      FieldAt(n, ns, roots[t], i);
    }
  }

  lemma LeafEnds(n: nat, ns: Nodes, seg: Segs, roots: Roots, t: nat, i: nat, path: seq<Ptr>, a: Ptr, v: AddrSet)
    requires Ends(n, ns, seg, roots, t, i, path, a) && a in ns && ns[a].Leaf?
    ensures Ends(n, ns[a := Leaf(ns[a].refcnt, v)], seg, roots, t, i, path, a)
  {
    var ns' := ns[a := Leaf(ns[a].refcnt, v)];
    forall k | 0 <= k < |path| - 1
      ensures Next(ns', seg, i, path, k)
    {
      assert Next(ns, seg, i, path, k);
    }
  }

}
