/**
 The reference-counted segment trees behind the static-field tables: tables share nodes, and a table
 copies the path to a field before it writes the field.
 */
module SegmentTrees {
  import opened Values

  type Ptr = nat
  const NULL: Ptr := 0

  /** A leaf stands for one field, an inner node for a segment with its two halves. */
  datatype Node = Leaf(refcnt: nat, value: AddrSet) | Inner(refcnt: nat, left: Ptr, right: Ptr)

  type Nodes = map<Ptr, Node>
  type Roots = map<nat, Ptr>

  /** The segment [l, r) of a node. */
  datatype Seg = Seg(l: nat, r: nat) {
    function Len(): int { r - l }
    function Mid(): nat { (l + r) / 2 }
    function Lower(): Seg { Seg(l, Mid()) }
    function Upper(): Seg { Seg(Mid(), r) }
    predicate Has(i: nat) { l <= i < r }
  }

  type Segs = map<Ptr, Seg>

  // ---------- reading ----------

  /** The value of field `i` in the tree below `p`, a node for segment `s`. */
  function Find(ns: Nodes, p: Ptr, s: Seg, i: nat): Option<AddrSet>
    decreases s.Len()
  {
    if p !in ns then None
    else if s.Len() <= 1 then (if ns[p].Leaf? then Some(ns[p].value) else None)
    else if ns[p].Leaf? then None
    else if i < s.Mid() then Find(ns, ns[p].left, s.Lower(), i)
    else Find(ns, ns[p].right, s.Upper(), i)
  }

  /** The initialised fields of a table with root `p`. */
  ghost function Fields(n: nat, ns: Nodes, p: Ptr): map<nat, AddrSet> {
    map i | 0 <= i < n && Find(ns, p, Seg(0, n), i).Some? :: Find(ns, p, Seg(0, n), i).value
  }

  // ---------- shape ----------

  ghost predicate ChildFits(ns: Nodes, seg: Segs, c: Ptr, s: Seg) {
    c != NULL ==> c in ns && c in seg && seg[c] == s
  }

  ghost predicate NodeFits(ns: Nodes, seg: Segs, p: Ptr)
    requires p in ns && p in seg
  {
    && seg[p].l < seg[p].r
    && (ns[p].Leaf? <==> seg[p].Len() <= 1)
    && (ns[p].Inner? ==> ChildFits(ns, seg, ns[p].left, seg[p].Lower()) && ChildFits(ns, seg, ns[p].right, seg[p].Upper()))
  }

  /** Every node stands for one segment, and its children for the halves of it. */
  ghost predicate Shaped(n: nat, ns: Nodes, seg: Segs, roots: Roots) {
    && NULL !in ns && ns.Keys <= seg.Keys
    && (forall p :: p in ns ==> NodeFits(ns, seg, p))
    && (forall t :: t in roots ==> ChildFits(ns, seg, roots[t], Seg(0, n)))
  }

  // ---------- counting references ----------

  datatype Edge = FromTable(t: nat) | FromLeft(p: Ptr) | FromRight(p: Ptr)

  predicate PointsTo(ns: Nodes, roots: Roots, e: Edge, p: Ptr) {
    match e
    case FromTable(t) => t in roots && roots[t] == p
    case FromLeft(q) => q in ns && ns[q].Inner? && ns[q].left == p
    case FromRight(q) => q in ns && ns[q].Inner? && ns[q].right == p
  }

  function EdgesTo(ns: Nodes, roots: Roots, p: Ptr): (es: set<Edge>)
    ensures forall e :: e in es <==> PointsTo(ns, roots, e, p)
  {
    (set t | t in roots && roots[t] == p :: FromTable(t))
    + (set q | q in ns && ns[q].Inner? && ns[q].left == p :: FromLeft(q))
    + (set q | q in ns && ns[q].Inner? && ns[q].right == p :: FromRight(q))
  }

  /** Every counter is the number of pointers to its node, plus the references in `extra` still to be dropped. */
  ghost predicate Counted(ns: Nodes, roots: Roots, extra: multiset<Ptr>) {
    forall p :: p in ns ==> ns[p].refcnt == |EdgesTo(ns, roots, p)| + extra[p] && ns[p].refcnt >= 1
  }

  predicate SameBody(a: Node, b: Node) {
    match a
    case Leaf(_, v) => b.Leaf? && b.value == v
    case Inner(_, l, r) => b.Inner? && b.left == l && b.right == r
  }

  lemma EdgesSame(ns: Nodes, ns': Nodes, roots: Roots, roots': Roots, p: Ptr)
    requires forall e :: PointsTo(ns, roots, e, p) <==> PointsTo(ns', roots', e, p)
    ensures EdgesTo(ns, roots, p) == EdgesTo(ns', roots', p)
  {
  }

  lemma EdgesLess(ns: Nodes, ns': Nodes, roots: Roots, roots': Roots, p: Ptr, e: Edge)
    requires PointsTo(ns, roots, e, p) && !PointsTo(ns', roots', e, p)
    requires forall f :: f != e ==> (PointsTo(ns, roots, f, p) <==> PointsTo(ns', roots', f, p))
    ensures |EdgesTo(ns, roots, p)| == |EdgesTo(ns', roots', p)| + 1
  {
    hide EdgesTo, PointsTo;
    assert EdgesTo(ns, roots, p) == EdgesTo(ns', roots', p) + {e};
  }

  /** A node with one reference has no other pointer to it. */
  lemma OnlyEdge(ns: Nodes, roots: Roots, p: Ptr, e: Edge, f: Edge)
    requires p in ns && Counted(ns, roots, multiset{}) && ns[p].refcnt == 1
    requires PointsTo(ns, roots, e, p) && PointsTo(ns, roots, f, p)
    ensures e == f
  {
    if e != f {
      TwoElements(EdgesTo(ns, roots, p), e, f);
    }
  }

  // ---------- heaps that read alike ----------

  /** The pointer `x` of the new heap stands for this one of the old heap: `dup` is a copy of `p`. */
  function Origin(x: Ptr, dup: Ptr, p: Ptr): Ptr {
    if x == dup then p else x
  }

  ghost predicate Copies(ns': Nodes, ns: Nodes, dup: Ptr, p: Ptr) {
    forall x :: x in ns' ==> Origin(x, dup, p) in ns && CopiedBody(ns', ns[Origin(x, dup, p)], ns'[x], dup, p)
  }

  /** `b` is a copy of `a`, with children in the new heap. */
  ghost predicate CopiedBody(ns': Nodes, a: Node, b: Node, dup: Ptr, p: Ptr) {
    match a
    case Leaf(_, v) => b.Leaf? && b.value == v
    case Inner(_, l, r) =>
      && b.Inner? && Origin(b.left, dup, p) == l && Origin(b.right, dup, p) == r
      && (b.left != NULL ==> b.left in ns') && (b.right != NULL ==> b.right in ns')
  }

  lemma {:induction false} FindCopied(ns': Nodes, ns: Nodes, dup: Ptr, p: Ptr, x: Ptr, s: Seg, i: nat)
    requires Copies(ns', ns, dup, p) && NULL !in ns && NULL !in ns' && dup != NULL && (x in ns' || x == NULL)
    ensures Find(ns', x, s, i) == Find(ns, Origin(x, dup, p), s, i)
    decreases s.Len()
  {
    if x != NULL && s.Len() > 1 && ns'[x].Inner? {
      assert CopiedBody(ns', ns[Origin(x, dup, p)], ns'[x], dup, p);
      if i < s.Mid() {
        FindCopied(ns', ns, dup, p, ns'[x].left, s.Lower(), i);
      } else {
        FindCopied(ns', ns, dup, p, ns'[x].right, s.Upper(), i);
      }
    }
  }

  /** Nodes have only been freed or recounted. */
  ghost predicate Trimmed(ns: Nodes, ns': Nodes) {
    ns'.Keys <= ns.Keys && forall p :: p in ns' ==> SameBody(ns[p], ns'[p])
  }

  lemma FindTrimmed(n: nat, ns: Nodes, ns': Nodes, seg: Segs, roots: Roots, x: Ptr, s: Seg, i: nat)
    requires Trimmed(ns, ns') && NULL !in ns && Shaped(n, ns', seg, roots) && (x in ns' || x == NULL)
    ensures Find(ns', x, s, i) == Find(ns, x, s, i)
  {
    if x != NULL {
      forall y | y in ns'
        ensures CopiedBody(ns', ns[Origin(y, x, x)], ns'[y], x, x)
      {
        assert SameBody(ns[y], ns'[y]) && NodeFits(ns', seg, y);
      }
      FindCopied(ns', ns, x, x, x, s, i);
    }
  }

  // ---------- freeing ----------

  /** One pending reference is dropped and the counter stays positive. */
  lemma DecrefShared(ns: Nodes, roots: Roots, extra: multiset<Ptr>, p: Ptr)
    requires p in ns && Counted(ns, roots, extra + multiset{p}) && ns[p].refcnt > 1
    ensures Counted(ns[p := Recount(ns[p], -1)], roots, extra)
  {
    hide EdgesTo;
    var ns' := ns[p := Recount(ns[p], -1)];
    forall q | q in ns'
      ensures ns'[q].refcnt == |EdgesTo(ns', roots, q)| + extra[q] && ns'[q].refcnt >= 1
    {
      EdgesSame(ns, ns', roots, roots, q);
    }
  }

  function Recount(x: Node, d: int): Node
    requires x.refcnt + d >= 0
  {
    match x
    case Leaf(c, v) => Leaf(c + d, v)
    case Inner(c, l, r) => Inner(c + d, l, r)
  }

  function Children(x: Node): multiset<Ptr> {
    match x
    case Leaf(_, _) => multiset{}
    case Inner(_, l, r) => Ref(l) + Ref(r)
  }

  /** A reference through `p`, none through a null pointer. */
  function Ref(p: Ptr): multiset<Ptr> {
    if p == NULL then multiset{} else multiset{p}
  }

  /** The pointers from node `p`, with contents `x`, to `q`. */
  function Own(x: Node, p: Ptr, q: Ptr): set<Edge> {
    if x.Leaf? then {}
    else (if x.left == q then {FromLeft(p)} else {}) + (if x.right == q then {FromRight(p)} else {})
  }

  lemma OwnCount(x: Node, p: Ptr, q: Ptr)
    requires q != NULL
    ensures |Own(x, p, q)| == Children(x)[q]
  {
    if x.Inner? && x.left == q && x.right == q {
      assert Own(x, p, q) == {FromLeft(p), FromRight(p)};
    }
  }

  /** What the rest of the heap points to without node `p`. */
  lemma EdgesWithout(ns: Nodes, roots: Roots, p: Ptr, q: Ptr)
    requires p in ns && q != NULL
    ensures |EdgesTo(ns, roots, q)| == |EdgesTo(ns - {p}, roots, q)| + Children(ns[p])[q]
  {
    hide EdgesTo, Children;
    var es, es', own := EdgesTo(ns, roots, q), EdgesTo(ns - {p}, roots, q), Own(ns[p], p, q);
    forall e
      ensures e in es <==> e in es' || e in own
      ensures !(e in es' && e in own)
    {
      assert e in es <==> PointsTo(ns, roots, e, q);
      assert e in es' <==> PointsTo(ns - {p}, roots, e, q);
    }
    assert es == es' + own && es' !! own;
    OwnCount(ns[p], p, q);
  }

  /** Freeing an unreferenced node turns its pointers into references to be dropped. */
  lemma FreeNode(ns: Nodes, roots: Roots, extra: multiset<Ptr>, p: Ptr)
    requires p in ns && NULL !in ns && Counted(ns, roots, extra + multiset{p}) && ns[p].refcnt == 1
    ensures Counted(ns - {p}, roots, extra + Children(ns[p])) && EdgesTo(ns, roots, p) == {} && p !in extra
  {
    hide EdgesTo, PointsTo, Children;
    forall q | q in ns - {p}
      ensures (ns - {p})[q].refcnt == |EdgesTo(ns - {p}, roots, q)| + (extra + Children(ns[p]))[q]
    {
      EdgesWithout(ns, roots, p, q);
    }
  }

  lemma ShapedWithout(n: nat, ns: Nodes, seg: Segs, roots: Roots, p: Ptr)
    requires Shaped(n, ns, seg, roots) && p in ns && EdgesTo(ns, roots, p) == {}
    ensures Shaped(n, ns - {p}, seg, roots)
    ensures ns[p].Inner? ==> (ns[p].left != NULL ==> ns[p].left in ns - {p}) && (ns[p].right != NULL ==> ns[p].right in ns - {p})
  {
    hide EdgesTo;
    var ns' := ns - {p};
    assert forall e :: !PointsTo(ns, roots, e, p);
    forall q | q in ns'
      ensures NodeFits(ns', seg, q)
    {
      assert NodeFits(ns, seg, q) && !PointsTo(ns, roots, FromLeft(q), p) && !PointsTo(ns, roots, FromRight(q), p);
    }
    forall t | t in roots
      ensures ChildFits(ns', seg, roots[t], Seg(0, n))
    {
      assert !PointsTo(ns, roots, FromTable(t), p);
    }
    assert !PointsTo(ns, roots, FromLeft(p), p) && !PointsTo(ns, roots, FromRight(p), p);
    assert NodeFits(ns, seg, p);
  }

  ghost predicate Present(ns: Nodes, extra: multiset<Ptr>) {
    forall q :: q in extra ==> q in ns
  }

  ghost predicate Consistent(n: nat, ns: Nodes, seg: Segs, roots: Roots, extra: multiset<Ptr>) {
    Shaped(n, ns, seg, roots) && Counted(ns, roots, extra) && Present(ns, extra)
  }

  lemma DropShared(n: nat, ns: Nodes, seg: Segs, roots: Roots, extra: multiset<Ptr>, p: Ptr)
    requires p in ns && Consistent(n, ns, seg, roots, extra + multiset{p}) && ns[p].refcnt > 1
    ensures Consistent(n, ns[p := Recount(ns[p], -1)], seg, roots, extra) && Trimmed(ns, ns[p := Recount(ns[p], -1)])
  {
    hide Counted;
    var ns' := ns[p := Recount(ns[p], -1)];
    DecrefShared(ns, roots, extra, p);
    forall q | q in ns'
      ensures NodeFits(ns', seg, q)
    {
      assert NodeFits(ns, seg, q);
    }
  }

  lemma DropLast(n: nat, ns: Nodes, seg: Segs, roots: Roots, extra: multiset<Ptr>, p: Ptr)
    requires p in ns && Consistent(n, ns, seg, roots, extra + multiset{p}) && ns[p].refcnt == 1
    ensures Consistent(n, ns - {p}, seg, roots, extra + Children(ns[p])) && Trimmed(ns, ns - {p})
  {
    hide Counted, EdgesTo;
    FreeNode(ns, roots, extra, p);
    ShapedWithout(n, ns, seg, roots, p);
    forall q | q in extra
      ensures q in ns - {p}
    {
      assert q in extra + multiset{p};
    }
  }

  lemma TrimmedThen(a: Nodes, b: Nodes, c: Nodes)
    requires Trimmed(a, b) && Trimmed(b, c)
    ensures Trimmed(a, c)
  {
  }

  lemma SplitChildren(extra: multiset<Ptr>, x: Node)
    ensures x.Inner? ==> extra + Children(x) == extra + Ref(x.right) + Ref(x.left)
    ensures x.Leaf? ==> extra + Children(x) == extra
  {
  }

  // ---------- copying a node ----------

  /** The heap after the children of `x` have been counted once more. */
  function Bump(ns: Nodes, x: Node): Nodes {
    map z | z in ns :: Recount(ns[z], Children(x)[z])
  }

  /** The heap in which the pointer at `e` is `q`. */
  function Aim(ns: Nodes, e: Edge, q: Ptr): Nodes {
    match e
    case FromTable(_) => ns
    case FromLeft(x) => if x in ns && ns[x].Inner? then ns[x := Inner(ns[x].refcnt, q, ns[x].right)] else ns
    case FromRight(x) => if x in ns && ns[x].Inner? then ns[x := Inner(ns[x].refcnt, ns[x].left, q)] else ns
  }

  function AimRoots(roots: Roots, e: Edge, q: Ptr): Roots {
    if e.FromTable? then roots[e.t := q] else roots
  }

  lemma AimPoints(ns: Nodes, roots: Roots, e: Edge, p: Ptr, q: Ptr)
    requires PointsTo(ns, roots, e, p)
    ensures forall f, z :: f != e ==> (PointsTo(Aim(ns, e, q), AimRoots(roots, e, q), f, z) <==> PointsTo(ns, roots, f, z))
    ensures forall z :: PointsTo(Aim(ns, e, q), AimRoots(roots, e, q), e, z) <==> z == q
  {
  }

  /** The heap with a copy `q` of node `p`, held by nobody yet. */
  function WithCopy(ns: Nodes, p: Ptr, q: Ptr): Nodes
    requires p in ns
  {
    Bump(ns, ns[p])[q := Recount(ns[p], 1 - ns[p].refcnt)]
  }

  lemma CopyCounted(n: nat, ns: Nodes, seg: Segs, roots: Roots, p: Ptr, q: Ptr)
    requires Consistent(n, ns, seg, roots, multiset{}) && p in ns && q !in ns && q != NULL
    ensures Counted(WithCopy(ns, p, q), roots, multiset{q})
  {
    hide EdgesTo, Children, Recount;
    var ns' := WithCopy(ns, p, q);
    forall z | z in ns'
      ensures ns'[z].refcnt == |EdgesTo(ns', roots, z)| + multiset{q}[z] && ns'[z].refcnt >= 1
    {
      RecountBody(ns[p], 1 - ns[p].refcnt);
      EdgesWithout(ns', roots, q, z);
      if z == q {
        Unreferenced(n, ns, seg, roots, q);
        assert Children(ns[p])[q] == 0 by {
          ChildNotFresh(n, ns, seg, roots, p, q);
        }
        BumpEdges(ns, ns[p], roots, q);
        assert ns' - {q} == Bump(ns, ns[p]);
      } else {
        BumpEdges(ns, ns[p], roots, z);
        assert ns' - {q} == Bump(ns, ns[p]);
        RecountBody(ns[z], Children(ns[p])[z]);
      }
    }
  }

  lemma RecountBody(x: Node, d: int)
    requires x.refcnt + d >= 0
    ensures Recount(x, d).refcnt == x.refcnt + d && SameBody(x, Recount(x, d)) && Children(Recount(x, d)) == Children(x)
  {
  }

  lemma BumpEdges(ns: Nodes, x: Node, roots: Roots, z: Ptr)
    ensures EdgesTo(Bump(ns, x), roots, z) == EdgesTo(ns, roots, z)
  {
    hide EdgesTo, Children;
    EdgesSame(ns, Bump(ns, x), roots, roots, z);
  }

  lemma Unreferenced(n: nat, ns: Nodes, seg: Segs, roots: Roots, q: Ptr)
    requires Shaped(n, ns, seg, roots) && q !in ns && q != NULL
    ensures EdgesTo(ns, roots, q) == {}
  {
    hide EdgesTo;
    forall e
      ensures !PointsTo(ns, roots, e, q)
    {
      if !e.FromTable? && e.p in ns {
        assert NodeFits(ns, seg, e.p);
      }
    }
  }

  lemma ChildNotFresh(n: nat, ns: Nodes, seg: Segs, roots: Roots, p: Ptr, q: Ptr)
    requires Shaped(n, ns, seg, roots) && p in ns && q !in ns && q != NULL
    ensures Children(ns[p])[q] == 0
  {
    assert NodeFits(ns, seg, p);
  }

  /** Redirecting the pointer at `e` from `p` to `q` trades a held reference to `q` for one to `p`. */
  lemma AimCounted(ns: Nodes, roots: Roots, e: Edge, p: Ptr, q: Ptr)
    requires Counted(ns, roots, multiset{q}) && PointsTo(ns, roots, e, p) && p != q
    ensures Counted(Aim(ns, e, q), AimRoots(roots, e, q), multiset{p})
  {
    hide EdgesTo, PointsTo, Aim, AimRoots;
    var ns', roots' := Aim(ns, e, q), AimRoots(roots, e, q);
    AimPoints(ns, roots, e, p, q);
    AimCounters(ns, e, q);
    forall z | z in ns'
      ensures ns'[z].refcnt == |EdgesTo(ns', roots', z)| + multiset{p}[z]
    {
      if z == p {
        PointsOnly(ns, roots, e, p);
        EdgesLess(ns, ns', roots, roots', p, e);
      } else if z == q {
        PointsOnly(ns, roots, e, p);
        EdgesLess(ns', ns, roots', roots, q, e);
      } else {
        PointsOnly(ns, roots, e, p);
        EdgesSame(ns, ns', roots, roots', z);
      }
    }
  }

  lemma PointsOnly(ns: Nodes, roots: Roots, e: Edge, p: Ptr)
    requires PointsTo(ns, roots, e, p)
    ensures forall z :: PointsTo(ns, roots, e, z) ==> z == p
  {
  }

  lemma AimCounters(ns: Nodes, e: Edge, q: Ptr)
    ensures Aim(ns, e, q).Keys == ns.Keys && forall z :: z in ns ==> Aim(ns, e, q)[z].refcnt == ns[z].refcnt
  {
  }

  lemma BodyIn(ns: Nodes, p: Ptr, q: Ptr, z: Ptr)
    requires p in ns && q !in ns && z in WithCopy(ns, p, q)
    ensures Origin(z, q, p) in ns && SameBody(ns[Origin(z, q, p)], WithCopy(ns, p, q)[z])
  {
  }

  /** `b` is a node of the new heap that stands for `a` at segment `s`. */
  lemma CopiedNode(ns: Nodes, seg: Segs, e: Edge, p: Ptr, q: Ptr, ns1: Nodes, z: Ptr)
    requires NULL !in ns && ns.Keys <= seg.Keys && p in ns && q !in ns && q != NULL && ns1.Keys == ns.Keys + {q} && z in ns1
    requires NodeFits(ns, seg, Origin(z, q, p)) && SameBody(ns[Origin(z, q, p)], ns1[z])
    requires !e.FromTable? ==> e.p in ns && PointsTo(ns, map[], e, p)
    ensures NodeFits(Aim(ns1, e, q), seg[q := seg[p]], z)
    ensures CopiedBody(Aim(ns1, e, q), ns[Origin(z, q, p)], Aim(ns1, e, q)[z], q, p)
  {
    AimCounters(ns1, e, q);
  }

  /** After node `p` has been copied to `q` for the pointer at `e`. */
  lemma CopyShaped(n: nat, ns: Nodes, seg: Segs, roots: Roots, e: Edge, p: Ptr, q: Ptr)
    requires Shaped(n, ns, seg, roots) && p in ns && q !in ns && q != NULL && PointsTo(ns, roots, e, p)
    ensures Shaped(n, Aim(WithCopy(ns, p, q), e, q), seg[q := seg[p]], AimRoots(roots, e, q))
    ensures Copies(Aim(WithCopy(ns, p, q), e, q), ns, q, p)
  {
    hide WithCopy, Aim, NodeFits, CopiedBody, PointsTo, ChildFits, AimRoots, SameBody;
    EdgeOwner(ns, roots, e, p);
    var ns1 := WithCopy(ns, p, q);
    var ns', seg', roots' := Aim(ns1, e, q), seg[q := seg[p]], AimRoots(roots, e, q);
    CopyKeys(ns, p, q);
    AimCounters(ns1, e, q);
    forall z | z in ns'
      ensures NodeFits(ns', seg', z) && Origin(z, q, p) in ns && CopiedBody(ns', ns[Origin(z, q, p)], ns'[z], q, p)
    {
      BodyIn(ns, p, q, z);
      CopiedNode(ns, seg, e, p, q, ns1, z);
    }
    forall t | t in roots'
      ensures ChildFits(ns', seg', roots'[t], Seg(0, n))
    {
      CopiedRoot(n, ns, seg, roots, e, p, q, ns', t);
    }
  }

  lemma CopiedRoot(n: nat, ns: Nodes, seg: Segs, roots: Roots, e: Edge, p: Ptr, q: Ptr, ns': Nodes, t: nat)
    requires Shaped(n, ns, seg, roots) && p in ns && q !in ns && q != NULL && PointsTo(ns, roots, e, p)
    requires ns'.Keys == ns.Keys + {q} && t in roots
    ensures t in AimRoots(roots, e, q) && Origin(AimRoots(roots, e, q)[t], q, p) == roots[t]
    ensures ChildFits(ns', seg[q := seg[p]], AimRoots(roots, e, q)[t], Seg(0, n))
  {
    assert ChildFits(ns, seg, roots[t], Seg(0, n));
  }

  lemma EdgeOwner(ns: Nodes, roots: Roots, e: Edge, p: Ptr)
    requires PointsTo(ns, roots, e, p)
    ensures !e.FromTable? ==> e.p in ns && PointsTo(ns, map[], e, p)
    ensures forall q :: AimRoots(roots, e, q).Keys == roots.Keys
  {
  }

  lemma CopyKeys(ns: Nodes, p: Ptr, q: Ptr)
    requires p in ns
    ensures WithCopy(ns, p, q).Keys == ns.Keys + {q}
  {
  }

  /** Every table reads what it read before. */
  ghost predicate SameFields(n: nat, ns: Nodes, roots: Roots, ns': Nodes, roots': Roots) {
    roots.Keys == roots'.Keys && forall t :: t in roots ==> Fields(n, ns', roots'[t]) == Fields(n, ns, roots[t])
  }

  lemma FieldsSame(n: nat, ns: Nodes, p: Ptr, ns': Nodes, p': Ptr)
    requires forall i :: Find(ns', p', Seg(0, n), i) == Find(ns, p, Seg(0, n), i)
    ensures Fields(n, ns', p') == Fields(n, ns, p)
  {
  }

  lemma CopyReads(n: nat, ns: Nodes, seg: Segs, roots: Roots, e: Edge, p: Ptr, q: Ptr, ns': Nodes)
    requires Shaped(n, ns, seg, roots) && p in ns && q !in ns && q != NULL && PointsTo(ns, roots, e, p)
    requires Copies(ns', ns, q, p) && NULL !in ns' && ns'.Keys == ns.Keys + {q}
    ensures SameFields(n, ns, roots, ns', AimRoots(roots, e, q))
  {
    hide Fields, Copies, Find;
    var roots' := AimRoots(roots, e, q);
    forall t | t in roots
      ensures Fields(n, ns', roots'[t]) == Fields(n, ns, roots[t])
    {
      CopiedRoot(n, ns, seg, roots, e, p, q, ns', t);
      forall i
        ensures Find(ns', roots'[t], Seg(0, n), i) == Find(ns, roots[t], Seg(0, n), i)
      {
        FindCopied(ns', ns, q, p, roots'[t], Seg(0, n), i);
      }
      FieldsSame(n, ns, roots[t], ns', roots'[t]);
    }
  }

  // ---------- the path to a field ----------

  function Toward(x: Node, s: Seg, i: nat): Ptr
    requires x.Inner?
  {
    if i < s.Mid() then x.left else x.right
  }

  function Away(x: Node, s: Seg, i: nat): Ptr
    requires x.Inner?
  {
    if i < s.Mid() then x.right else x.left
  }

  function Half(s: Seg, i: nat): Seg {
    if i < s.Mid() then s.Lower() else s.Upper()
  }

  /** `path` leads from the root of table `t` towards field `i` through nodes that nobody else refers to. */
  ghost predicate Chain(n: nat, ns: Nodes, seg: Segs, roots: Roots, t: nat, i: nat, path: seq<Ptr>) {
    && t in roots && i < n
    && Links(ns, seg, i, path)
    && (forall k :: 0 <= k < |path| - 1 ==> Next(ns, seg, i, path, k))
    && (path != [] ==> roots[t] == path[0] && seg[path[0]] == Seg(0, n))
  }

  ghost predicate Link(ns: Nodes, seg: Segs, i: nat, p: Ptr) {
    p in ns && p in seg && ns[p].Inner? && ns[p].refcnt == 1 && seg[p].Has(i)
  }

  ghost predicate Links(ns: Nodes, seg: Segs, i: nat, path: seq<Ptr>) {
    forall k :: 0 <= k < |path| ==>
      path[k] in ns && path[k] in seg && ns[path[k]].Inner? && ns[path[k]].refcnt == 1 && seg[path[k]].Has(i)
  }

  ghost predicate Next(ns: Nodes, seg: Segs, i: nat, path: seq<Ptr>, k: nat)
    requires k + 1 < |path| && Link(ns, seg, i, path[k])
  {
    Toward(ns[path[k]], seg[path[k]], i) == path[k + 1] && path[k + 1] in seg && seg[path[k + 1]] == Half(seg[path[k]], i)
  }

  /** Where the path ends: the pointer to go on with, its place and its segment. */
  ghost function Tip(n: nat, ns: Nodes, seg: Segs, roots: Roots, t: nat, i: nat, path: seq<Ptr>): Ptr
    requires Chain(n, ns, seg, roots, t, i, path)
  {
    if path == [] then roots[t] else Toward(ns[path[|path| - 1]], seg[path[|path| - 1]], i)
  }

  ghost function TipSeg(n: nat, seg: Segs, i: nat, path: seq<Ptr>): Seg
    requires path != [] ==> path[|path| - 1] in seg
  {
    if path == [] then Seg(0, n) else Half(seg[path[|path| - 1]], i)
  }

  ghost function TipEdge(seg: Segs, t: nat, i: nat, path: seq<Ptr>): Edge
    requires path != [] ==> path[|path| - 1] in seg
  {
    if path == [] then FromTable(t)
    else
      var p := path[|path| - 1];
      if i < seg[p].Mid() then FromLeft(p) else FromRight(p)
  }

  /** The nodes of the path are strictly longer than `len`. */
  ghost predicate Longer(seg: Segs, path: seq<Ptr>, len: int) {
    forall k :: 0 <= k < |path| ==> path[k] in seg && seg[path[k]].Len() > len
  }

  lemma HalfShorter(s: Seg, i: nat)
    requires s.Len() > 1 && s.Has(i)
    ensures 0 < Half(s, i).Len() < s.Len() && Half(s, i).Has(i)
  {
  }

  /** Nobody but table `t` and the path itself points into the path. */
  lemma ChainPrivate(n: nat, ns: Nodes, seg: Segs, roots: Roots, t: nat, i: nat, path: seq<Ptr>, k: nat, e: Edge)
    requires Consistent(n, ns, seg, roots, multiset{}) && Chain(n, ns, seg, roots, t, i, path)
    requires k < |path| && PointsTo(ns, roots, e, path[k])
    ensures e == if k == 0 then FromTable(t) else if i < seg[path[k - 1]].Mid() then FromLeft(path[k - 1]) else FromRight(path[k - 1])
  {
    hide Counted, EdgesTo;
    assert Link(ns, seg, i, path[k]);
    if k == 0 {
      OnlyEdge(ns, roots, path[k], e, FromTable(t));
    } else {
      assert Link(ns, seg, i, path[k - 1]) && Next(ns, seg, i, path, k - 1);
      OnlyEdge(ns, roots, path[k], e, if i < seg[path[k - 1]].Mid() then FromLeft(path[k - 1]) else FromRight(path[k - 1]));
    }
  }

  // ---------- reading after a change at the end of a path ----------

  /** The new heap differs from the old one only inside `own`, and nobody outside points into it. */
  ghost predicate Outside(ns: Nodes, ns': Nodes, own: set<Ptr>) {
    forall y :: y in ns && y !in own ==>
      && y in ns' && SameBody(ns[y], ns'[y])
      && (ns[y].Inner? ==> StaysOut(ns, ns[y].left, own) && StaysOut(ns, ns[y].right, own))
  }

  ghost predicate StaysOut(ns: Nodes, c: Ptr, own: set<Ptr>) {
    c != NULL ==> c in ns && c !in own
  }

  lemma {:induction false} FindElsewhere(ns: Nodes, ns': Nodes, own: set<Ptr>, y: Ptr, s: Seg, j: nat)
    requires NULL !in ns && NULL !in ns' && Outside(ns, ns', own) && StaysOut(ns, y, own)
    ensures Find(ns', y, s, j) == Find(ns, y, s, j)
    decreases s.Len()
  {
    if y != NULL && s.Len() > 1 && ns[y].Inner? {
      if j < s.Mid() {
        FindElsewhere(ns, ns', own, ns[y].left, s.Lower(), j);
      } else {
        FindElsewhere(ns, ns', own, ns[y].right, s.Upper(), j);
      }
    }
  }

  /** The path in the new heap; its last node points to `a'` where it pointed to `a`. */
  ghost predicate Rewired(ns: Nodes, ns': Nodes, seg: Segs, i: nat, path: seq<Ptr>, a: Ptr, a': Ptr) {
    forall k :: 0 <= k < |path| ==> RewiredAt(ns, ns', seg, i, path, a, a', k)
  }

  ghost predicate RewiredAt(ns: Nodes, ns': Nodes, seg: Segs, i: nat, path: seq<Ptr>, a: Ptr, a': Ptr, k: nat)
    requires k < |path|
  {
    && Link(ns, seg, i, path[k]) && path[k] in ns' && ns'[path[k]].Inner? && seg[path[k]].Len() > 1
    && Away(ns'[path[k]], seg[path[k]], i) == Away(ns[path[k]], seg[path[k]], i)
    && Toward(ns[path[k]], seg[path[k]], i) == (if k + 1 < |path| then path[k + 1] else a)
    && Toward(ns'[path[k]], seg[path[k]], i) == (if k + 1 < |path| then path[k + 1] else a')
    && (k + 1 < |path| ==> path[k + 1] in seg && seg[path[k + 1]] == Half(seg[path[k]], i))
  }

  /** What changes at the end of the path changes for field `i` alone. */
  lemma {:induction false} ChainReads(ns: Nodes, ns': Nodes, seg: Segs, i: nat, path: seq<Ptr>, a: Ptr, a': Ptr, own: set<Ptr>, w: Option<AddrSet>, k: nat, j: nat)
    requires NULL !in ns && NULL !in ns' && Rewired(ns, ns', seg, i, path, a, a') && Outside(ns, ns', own)
    requires Links(ns, seg, i, path)
    requires forall m :: 0 <= m < |path| ==> StaysOut(ns, Away(ns[path[m]], seg[path[m]], i), own)
    requires k < |path| && seg[path[k]].Has(j)
    requires var s := Half(seg[path[|path| - 1]], i);
             s.Has(j) ==> Find(ns', a', s, j) == if j == i then w else Find(ns, a, s, j)
    ensures Find(ns', path[k], seg[path[k]], j) == if j == i then w else Find(ns, path[k], seg[path[k]], j)
    decreases |path| - k
  {
    assert RewiredAt(ns, ns', seg, i, path, a, a', k);
    var x, s := path[k], seg[path[k]];
    if (j < s.Mid()) == (i < s.Mid()) {
      if k + 1 < |path| {
        assert RewiredAt(ns, ns', seg, i, path, a, a', k + 1);
        ChainReads(ns, ns', seg, i, path, a, a', own, w, k + 1, j);
      }
    } else {
      FindElsewhere(ns, ns', own, Away(ns[x], s, i), Half(s, j), j);
    }
  }

  /** The nodes of a path and its end. */
  function Owned(path: seq<Ptr>, a: Ptr): set<Ptr> {
    (set k | 0 <= k < |path| :: path[k]) + {a}
  }

  /** The end of the path is nobody else's either. */
  ghost predicate Ends(n: nat, ns: Nodes, seg: Segs, roots: Roots, t: nat, i: nat, path: seq<Ptr>, a: Ptr) {
    && Chain(n, ns, seg, roots, t, i, path) && a == Tip(n, ns, seg, roots, t, i, path)
    && (a != NULL ==> a in ns && a in seg && ns[a].refcnt == 1 && seg[a] == TipSeg(n, seg, i, path))
  }

  lemma TipPoints(n: nat, ns: Nodes, seg: Segs, roots: Roots, t: nat, i: nat, path: seq<Ptr>)
    requires Chain(n, ns, seg, roots, t, i, path)
    ensures PointsTo(ns, roots, TipEdge(seg, t, i, path), Tip(n, ns, seg, roots, t, i, path))
  {
    if path != [] {
      assert Link(ns, seg, i, path[|path| - 1]);
    }
  }

  /** A pointer into the path comes from the path. */
  lemma IntoOwned(n: nat, ns: Nodes, seg: Segs, roots: Roots, t: nat, i: nat, path: seq<Ptr>, a: Ptr, c: Ptr, e: Edge)
    requires Consistent(n, ns, seg, roots, multiset{}) && Ends(n, ns, seg, roots, t, i, path, a)
    requires c in Owned(path, a) && c != NULL && PointsTo(ns, roots, e, c)
    ensures e == FromTable(t) || (!e.FromTable? && e.p in Owned(path, a))
  {
    hide Consistent;
    if c == a {
      TipPoints(n, ns, seg, roots, t, i, path);
      ConsistentOnly(n, ns, seg, roots, a, e, TipEdge(seg, t, i, path));
    } else {
      var k :| 0 <= k < |path| && path[k] == c;
      ChainPrivate(n, ns, seg, roots, t, i, path, k, e);
    }
  }

  lemma ConsistentOnly(n: nat, ns: Nodes, seg: Segs, roots: Roots, p: Ptr, e: Edge, f: Edge)
    requires Consistent(n, ns, seg, roots, multiset{}) && p in ns && ns[p].refcnt == 1
    requires PointsTo(ns, roots, e, p) && PointsTo(ns, roots, f, p)
    ensures e == f
  {
    hide Counted;
    OnlyEdge(ns, roots, p, e, f);
  }

  lemma OutsideChain(n: nat, ns: Nodes, ns': Nodes, seg: Segs, roots: Roots, t: nat, i: nat, path: seq<Ptr>, a: Ptr)
    requires Consistent(n, ns, seg, roots, multiset{}) && Ends(n, ns, seg, roots, t, i, path, a)
    requires forall y :: y in ns && y !in Owned(path, a) ==> y in ns' && SameBody(ns[y], ns'[y])
    ensures Outside(ns, ns', Owned(path, a))
    ensures forall u :: u in roots && u != t ==> StaysOut(ns, roots[u], Owned(path, a))
  {
    hide Counted, Chain, Ends;
    forall y | y in ns && y !in Owned(path, a) && ns[y].Inner?
      ensures StaysOut(ns, ns[y].left, Owned(path, a)) && StaysOut(ns, ns[y].right, Owned(path, a))
    {
      assert NodeFits(ns, seg, y);
      if ns[y].left != NULL && ns[y].left in Owned(path, a) {
        IntoOwned(n, ns, seg, roots, t, i, path, a, ns[y].left, FromLeft(y));
      }
      if ns[y].right != NULL && ns[y].right in Owned(path, a) {
        IntoOwned(n, ns, seg, roots, t, i, path, a, ns[y].right, FromRight(y));
      }
    }
    forall u | u in roots && u != t
      ensures StaysOut(ns, roots[u], Owned(path, a))
    {
      assert ChildFits(ns, seg, roots[u], Seg(0, n));
      if roots[u] != NULL && roots[u] in Owned(path, a) {
        IntoOwned(n, ns, seg, roots, t, i, path, a, roots[u], FromTable(u));
      }
    }
  }

  /** The other child of a path node stands for fields other than `i`, so it is not on the path. */
  lemma AwayOut(n: nat, ns: Nodes, seg: Segs, roots: Roots, t: nat, i: nat, path: seq<Ptr>, a: Ptr, m: nat)
    requires Shaped(n, ns, seg, roots) && Ends(n, ns, seg, roots, t, i, path, a) && m < |path|
    ensures StaysOut(ns, Away(ns[path[m]], seg[path[m]], i), Owned(path, a))
  {
    assert Link(ns, seg, i, path[m]) && NodeFits(ns, seg, path[m]);
    var y := Away(ns[path[m]], seg[path[m]], i);
    if y != NULL {
      assert !seg[y].Has(i);
      if y in Owned(path, a) {
        OwnedHas(n, ns, seg, roots, t, i, path, a, y);
      }
    }
  }

  lemma OwnedHas(n: nat, ns: Nodes, seg: Segs, roots: Roots, t: nat, i: nat, path: seq<Ptr>, a: Ptr, y: Ptr)
    requires Shaped(n, ns, seg, roots) && Ends(n, ns, seg, roots, t, i, path, a) && y in Owned(path, a) && y in ns
    ensures seg[y].Has(i)
  {
    if y == a {
      if path != [] {
        assert Link(ns, seg, i, path[|path| - 1]);
      }
    } else {
      var k :| 0 <= k < |path| && path[k] == y;
      assert Link(ns, seg, i, path[k]);
    }
  }

  /** What a change at the end of a path does to the tables: nothing to the others, and to `t` only field `i`. */
  lemma PathChange(n: nat, ns: Nodes, ns': Nodes, seg: Segs, roots: Roots, roots': Roots, t: nat, i: nat, path: seq<Ptr>, a: Ptr, a': Ptr, s: Seg, w: Option<AddrSet>)
    requires Consistent(n, ns, seg, roots, multiset{}) && Ends(n, ns, seg, roots, t, i, path, a) && NULL !in ns'
    requires forall y :: y in ns && y !in Owned(path, a) ==> y in ns' && SameBody(ns[y], ns'[y])
    requires Rewired(ns, ns', seg, i, path, a, a') && roots' == if path == [] then roots[t := a'] else roots
    requires s == TipSeg(n, seg, i, path)
    requires forall j :: s.Has(j) ==> Find(ns', a', s, j) == if j == i then w else Find(ns, a, s, j)
    ensures forall u :: u in roots && u != t ==> Fields(n, ns', roots'[u]) == Fields(n, ns, roots[u])
    ensures forall j :: 0 <= j < n ==> Find(ns', roots'[t], Seg(0, n), j) == if j == i then w else Find(ns, roots[t], Seg(0, n), j)
  {
    hide Counted, Find, Rewired, Fields, Outside, Chain;
    var own := Owned(path, a);
    OutsideChain(n, ns, ns', seg, roots, t, i, path, a);
    forall u | u in roots && u != t
      ensures Fields(n, ns', roots'[u]) == Fields(n, ns, roots[u])
    {
      forall j
        ensures Find(ns', roots[u], Seg(0, n), j) == Find(ns, roots[u], Seg(0, n), j)
      {
        FindElsewhere(ns, ns', own, roots[u], Seg(0, n), j);
      }
      FieldsSame(n, ns, roots[u], ns', roots[u]);
    }
    ChainLinks(n, ns, seg, roots, t, i, path);
    if path != [] {
      forall m | 0 <= m < |path|
        ensures StaysOut(ns, Away(ns[path[m]], seg[path[m]], i), own)
      {
        AwayOut(n, ns, seg, roots, t, i, path, a, m);
      }
      forall j | 0 <= j < n
        ensures Find(ns', roots'[t], Seg(0, n), j) == if j == i then w else Find(ns, roots[t], Seg(0, n), j)
      {
        ChainReads(ns, ns', seg, i, path, a, a', own, w, 0, j);
      }
    }
  }

  lemma ChainLinks(n: nat, ns: Nodes, seg: Segs, roots: Roots, t: nat, i: nat, path: seq<Ptr>)
    requires Chain(n, ns, seg, roots, t, i, path)
    ensures Links(ns, seg, i, path) && t in roots
    ensures path != [] ==> roots[t] == path[0] && seg[path[0]] == Seg(0, n)
  {
  }

  // ---------- making a node writable ----------

  lemma {:induction false} FreshExists(ns: set<Ptr>) returns (q: Ptr)
    ensures q != NULL && q !in ns && forall p :: p in ns ==> p < q
  {
    q := 1;
    if ns != {} {
      var p :| p in ns;
      var b := FreshExists(ns - {p});
      q := if p < b then b else p + 1;
      assert forall x :: x in ns ==> x == p || x in ns - {p};
    }
  }

  /** The heap after node `p` has been copied to `q` for the pointer at `e` and has lost that reference. */
  function Split(ns: Nodes, e: Edge, p: Ptr, q: Ptr): Nodes
    requires p in ns && ns[p].refcnt > 1
  {
    AimKeeps(WithCopy(ns, p, q), e, q, p);
    var m := Aim(WithCopy(ns, p, q), e, q);
    if p != q && m[p].refcnt > 0 then m[p := Recount(m[p], -1)] else m
  }

  lemma AimKeeps(ns: Nodes, e: Edge, q: Ptr, p: Ptr)
    requires p in ns
    ensures p in Aim(ns, e, q)
  {
  }

  lemma SplitConsistent(n: nat, ns: Nodes, seg: Segs, roots: Roots, e: Edge, p: Ptr, q: Ptr)
    requires Consistent(n, ns, seg, roots, multiset{}) && p in ns && q !in ns && q != NULL && PointsTo(ns, roots, e, p)
    ensures Consistent(n, Aim(WithCopy(ns, p, q), e, q), seg[q := seg[p]], AimRoots(roots, e, q), multiset{p})
    ensures p in Aim(WithCopy(ns, p, q), e, q) && (Bushy(ns, NULL) ==> Bushy(Aim(WithCopy(ns, p, q), e, q), NULL))
    ensures SameFields(n, ns, roots, Aim(WithCopy(ns, p, q), e, q), AimRoots(roots, e, q))
  {
    hide Counted, Shaped, WithCopy, Aim, AimRoots, PointsTo, Copies, SameFields, Bushy;
    var ns1 := WithCopy(ns, p, q);
    var ns2 := Aim(ns1, e, q);
    ChildrenIn(n, ns, seg, roots, multiset{}, p);
    CopyKeys(ns, p, q);
    AimCounters(ns1, e, q);
    CopyCounted(n, ns, seg, roots, p, q);
    CopyPoints(ns, roots, e, p, q);
    AimCounted(ns1, roots, e, p, q);
    CopyShaped(n, ns, seg, roots, e, p, q);
    ShapedNull(n, ns2, seg[q := seg[p]], AimRoots(roots, e, q));
    CopyReads(n, ns, seg, roots, e, p, q, ns2);
    if Bushy(ns, NULL) {
      BushyCopied(ns, ns2, q, p);
    }
  }

  lemma ShapedNull(n: nat, ns: Nodes, seg: Segs, roots: Roots)
    requires Shaped(n, ns, seg, roots)
    ensures NULL !in ns
  {
  }

  lemma CopyPoints(ns: Nodes, roots: Roots, e: Edge, p: Ptr, q: Ptr)
    requires PointsTo(ns, roots, e, p) && p in ns && q !in ns
    ensures PointsTo(WithCopy(ns, p, q), roots, e, p)
  {
    if !e.FromTable? {
      BodyIn(ns, p, q, e.p);
    }
  }

  lemma BumpTwice(ns: Nodes, x: Node)
    requires x.Inner? && (x.left != NULL ==> x.left in ns) && (x.right != NULL ==> x.right in ns)
    ensures var ns1 := if x.left == NULL then ns else ns[x.left := Recount(ns[x.left], 1)];
            var ns2 := if x.right == NULL then ns1 else ns1[x.right := Recount(ns1[x.right], 1)];
            NULL !in ns ==> ns2 == Bump(ns, x)
  {
  }

  lemma BumpLeaf(ns: Nodes, x: Node)
    requires x.Leaf?
    ensures Bump(ns, x) == ns
  {
  }

  lemma TipFits(n: nat, ns: Nodes, seg: Segs, roots: Roots, t: nat, i: nat, path: seq<Ptr>)
    requires Shaped(n, ns, seg, roots) && Chain(n, ns, seg, roots, t, i, path)
    ensures ChildFits(ns, seg, Tip(n, ns, seg, roots, t, i, path), TipSeg(n, seg, i, path))
  {
    if path != [] {
      assert NodeFits(ns, seg, path[|path| - 1]);
    } else {
      assert ChildFits(ns, seg, roots[t], Seg(0, n));
    }
  }

  /** What a split does to a node that is neither split nor a child of the split one. */
  lemma SplitOther(ns: Nodes, e: Edge, p: Ptr, q: Ptr, z: Ptr)
    requires p in ns && ns[p].refcnt > 1 && q !in ns && z in ns && z != p && Children(ns[p])[z] == 0
    ensures z in Split(ns, e, p, q) && Split(ns, e, p, q)[z] == (if e.FromTable? || e.p != z then ns[z] else Aim(ns, e, q)[z])
  {
  }

  lemma SplitCopy(ns: Nodes, e: Edge, p: Ptr, q: Ptr)
    requires p in ns && ns[p].refcnt > 1 && q !in ns && q != NULL && (!e.FromTable? ==> e.p in ns)
    ensures q in Split(ns, e, p, q) && SameBody(ns[p], Split(ns, e, p, q)[q]) && Split(ns, e, p, q)[q].refcnt == 1
  {
  }

  /** A path that is nobody else's stays so when the node at its end is split off. */
  lemma ChainSplit(n: nat, ns: Nodes, seg: Segs, roots: Roots, t: nat, i: nat, path: seq<Ptr>, p: Ptr, q: Ptr, e: Edge)
    requires Consistent(n, ns, seg, roots, multiset{}) && Chain(n, ns, seg, roots, t, i, path)
    requires p == Tip(n, ns, seg, roots, t, i, path) && e == TipEdge(seg, t, i, path)
    requires p in ns && p in seg && Longer(seg, path, seg[p].Len()) && ns[p].refcnt > 1 && q !in ns && q != NULL
    ensures var ns', seg', roots' := Split(ns, e, p, q), seg[q := seg[p]], AimRoots(roots, e, q);
            && Chain(n, ns', seg', roots', t, i, path) && Tip(n, ns', seg', roots', t, i, path) == q
            && Longer(seg', path, seg[p].Len())
  {
    hide Counted, Split, Children;
    var ns', seg', roots' := Split(ns, e, p, q), seg[q := seg[p]], AimRoots(roots, e, q);
    forall k | 0 <= k < |path|
      ensures path[k] in ns' && ns'[path[k]] == if !e.FromTable? && k == |path| - 1 then Aim(ns, e, q)[path[k]] else ns[path[k]]
    {
      LongNotChild(n, ns, seg, roots, p, path[k]);
      SplitOther(ns, e, p, q, path[k]);
      if !e.FromTable? && k < |path| - 1 {
        ChainDistinct(n, ns, seg, roots, t, i, path, k, |path| - 1);
      }
    }
    forall k | 0 <= k < |path| - 1
      ensures Next(ns', seg', i, path, k)
    {
      assert Next(ns, seg, i, path, k);
    }
  }

  lemma LongNotChild(n: nat, ns: Nodes, seg: Segs, roots: Roots, p: Ptr, z: Ptr)
    requires Shaped(n, ns, seg, roots) && p in ns && z in ns && seg[z].Len() > seg[p].Len()
    ensures z != p && Children(ns[p])[z] == 0
  {
    assert NodeFits(ns, seg, p);
  }

  lemma {:induction false} ChainDistinct(n: nat, ns: Nodes, seg: Segs, roots: Roots, t: nat, i: nat, path: seq<Ptr>, j: nat, k: nat)
    requires Shaped(n, ns, seg, roots) && Chain(n, ns, seg, roots, t, i, path) && j < k < |path|
    ensures seg[path[j]].Len() > seg[path[k]].Len() && path[j] != path[k]
    decreases k - j
  {
    assert Next(ns, seg, i, path, k - 1) && NodeFits(ns, seg, path[k - 1]);
    if j < k - 1 {
      ChainDistinct(n, ns, seg, roots, t, i, path, j, k - 1);
    }
  }

  /** Going one node further down a path. */
  lemma ChainGrows(n: nat, ns: Nodes, seg: Segs, roots: Roots, t: nat, i: nat, path: seq<Ptr>, q: Ptr)
    requires Shaped(n, ns, seg, roots) && Chain(n, ns, seg, roots, t, i, path) && q == Tip(n, ns, seg, roots, t, i, path)
    requires q in ns && ns[q].Inner? && ns[q].refcnt == 1 && TipSeg(n, seg, i, path).Has(i) && Longer(seg, path, TipSeg(n, seg, i, path).Len())
    ensures Chain(n, ns, seg, roots, t, i, path + [q]) && TipSeg(n, seg, i, path + [q]).Has(i)
    ensures Longer(seg, path + [q], TipSeg(n, seg, i, path + [q]).Len())
  {
    TipFits(n, ns, seg, roots, t, i, path);
    assert NodeFits(ns, seg, q);
    HalfShorter(seg[q], i);
    forall k | 0 <= k < |path + [q]| - 1
      ensures Next(ns, seg, i, path + [q], k)
    {
      if k < |path| - 1 {
        assert Next(ns, seg, i, path, k);
      }
    }
  }

  // ---------- inner nodes are never empty ----------

  /** Every inner node has a child, except possibly `but`. */
  ghost predicate Bushy(ns: Nodes, but: Ptr) {
    forall p :: p in ns && p != but && ns[p].Inner? ==> ns[p].left != NULL || ns[p].right != NULL
  }

  lemma BushyTrimmed(ns: Nodes, ns': Nodes)
    requires Bushy(ns, NULL) && Trimmed(ns, ns')
    ensures Bushy(ns', NULL)
  {
    forall p | p in ns' && p != NULL && ns'[p].Inner?
      ensures ns'[p].left != NULL || ns'[p].right != NULL
    {
      assert SameBody(ns[p], ns'[p]);
    }
  }

  lemma BushyCopied(ns: Nodes, ns': Nodes, q: Ptr, p: Ptr)
    requires Bushy(ns, NULL) && Copies(ns', ns, q, p) && NULL !in ns && p != NULL && q != NULL
    ensures Bushy(ns', NULL)
  {
    forall z | z in ns' && z != NULL && ns'[z].Inner?
      ensures ns'[z].left != NULL || ns'[z].right != NULL
    {
      assert CopiedBody(ns', ns[Origin(z, q, p)], ns'[z], q, p);
    }
  }

  // ---------- adding a node ----------

  /** A new node for segment `s`, held once: a leaf with the value, or an empty inner node. */
  function NewNode(s: Seg, v: AddrSet): Node {
    if s.Len() <= 1 then Leaf(1, v) else Inner(1, NULL, NULL)
  }

  predicate Childless(x: Node) {
    x.Inner? ==> x.left == NULL && x.right == NULL
  }

  function Grafted(ns: Nodes, e: Edge, q: Ptr, x: Node): Nodes {
    Aim(ns, e, q)[q := x]
  }

  lemma GraftPoints(ns: Nodes, roots: Roots, e: Edge, q: Ptr, x: Node, f: Edge, z: Ptr)
    requires PointsTo(ns, roots, e, NULL) && q !in ns && z != NULL && Childless(x)
    ensures PointsTo(Grafted(ns, e, q, x), AimRoots(roots, e, q), f, z) <==> (if f == e then z == q else PointsTo(ns, roots, f, z))
  {
    AimPoints(ns, roots, e, NULL, q);
  }

  lemma GraftCounted(n: nat, ns: Nodes, seg: Segs, roots: Roots, e: Edge, q: Ptr, x: Node)
    requires Consistent(n, ns, seg, roots, multiset{}) && PointsTo(ns, roots, e, NULL) && q !in ns && q != NULL
    requires Childless(x) && x.refcnt == 1
    ensures Counted(Grafted(ns, e, q, x), AimRoots(roots, e, q), multiset{})
  {
    hide EdgesTo, PointsTo, Aim, AimRoots, Childless, Shaped, Grafted;
    var ns', roots' := Grafted(ns, e, q, x), AimRoots(roots, e, q);
    GraftKeys(ns, e, q, x);
    forall z | z in ns'
      ensures ns'[z].refcnt == |EdgesTo(ns', roots', z)| && ns'[z].refcnt >= 1
    {
      ChildrenNull(n, ns, seg, roots);
      forall f
        ensures PointsTo(ns', roots', f, z) <==> (if f == e then z == q else PointsTo(ns, roots, f, z))
      {
        GraftPoints(ns, roots, e, q, x, f, z);
      }
      PointsOnly(ns, roots, e, NULL);
      if z == q {
        Unreferenced(n, ns, seg, roots, q);
        assert EdgesTo(ns', roots', q) == {e};
      } else {
        EdgesSame(ns, ns', roots, roots', z);
      }
    }
  }

  lemma ChildrenNull(n: nat, ns: Nodes, seg: Segs, roots: Roots)
    requires Consistent(n, ns, seg, roots, multiset{})
    ensures NULL !in ns && Shaped(n, ns, seg, roots)
  {
  }

  lemma GraftKeys(ns: Nodes, e: Edge, q: Ptr, x: Node)
    ensures Grafted(ns, e, q, x).Keys == ns.Keys + {q} && Grafted(ns, e, q, x)[q] == x
    ensures forall z :: z in ns && z != q ==> Grafted(ns, e, q, x)[z].refcnt == ns[z].refcnt
    ensures forall z :: z in ns && z != q && (e.FromTable? || e.p != z) ==> Grafted(ns, e, q, x)[z] == ns[z]
  {
    AimCounters(ns, e, q);
  }

  lemma GraftNode(ns: Nodes, seg: Segs, e: Edge, s: Seg, q: Ptr, x: Node, z: Ptr)
    requires z in ns && z in seg && NodeFits(ns, seg, z) && q !in ns && q != NULL && e.FromTable? == false
    requires e.p in ns && e.p in seg && PointsTo(ns, map[], e, NULL) && s == if e.FromLeft? then seg[e.p].Lower() else seg[e.p].Upper()
    ensures NodeFits(Grafted(ns, e, q, x), seg[q := s], z)
  {
    GraftKeys(ns, e, q, x);
  }

  lemma NodeKept(ns: Nodes, seg: Segs, s: Seg, q: Ptr, x: Node, z: Ptr)
    requires z in ns && z in seg && NodeFits(ns, seg, z) && q !in ns && q != NULL
    ensures NodeFits(ns[q := x], seg[q := s], z)
  {
  }

  lemma GraftShaped(n: nat, ns: Nodes, seg: Segs, roots: Roots, t: nat, i: nat, path: seq<Ptr>, q: Ptr, x: Node)
    requires Shaped(n, ns, seg, roots) && Ends(n, ns, seg, roots, t, i, path, NULL) && q !in ns && q != NULL
    requires var s := TipSeg(n, seg, i, path); s.Has(i) && Childless(x) && (x.Leaf? <==> s.Len() <= 1)
    ensures var e := TipEdge(seg, t, i, path);
            Shaped(n, Grafted(ns, e, q, x), seg[q := TipSeg(n, seg, i, path)], AimRoots(roots, e, q))
  {
    var s, e := TipSeg(n, seg, i, path), TipEdge(seg, t, i, path);
    TipPoints(n, ns, seg, roots, t, i, path);
    EdgeOwner(ns, roots, e, NULL);
    ChainLinks(n, ns, seg, roots, t, i, path);
    hide NodeFits, Chain, Grafted, Tip, Links, PointsTo;
    var ns', seg', roots' := Grafted(ns, e, q, x), seg[q := s], AimRoots(roots, e, q);
    GraftKeys(ns, e, q, x);
    forall z | z in ns'
      ensures NodeFits(ns', seg', z)
    {
      if z == q {
        NewFits(ns', seg', q, s);
      } else if e.FromTable? {
        NodeKept(ns, seg, s, q, x, z);
        GraftRoot(ns, e, q, x);
      } else {
        GraftNode(ns, seg, e, s, q, x, z);
      }
    }
    forall u | u in roots'
      ensures ChildFits(ns', seg', roots'[u], Seg(0, n))
    {
      if u in roots {
        assert ChildFits(ns, seg, roots[u], Seg(0, n));
      }
    }
  }

  lemma NewFits(ns: Nodes, seg: Segs, q: Ptr, s: Seg)
    requires q in ns && q in seg && seg[q] == s && s.l < s.r && Childless(ns[q]) && (ns[q].Leaf? <==> s.Len() <= 1)
    ensures NodeFits(ns, seg, q)
  {
  }

  lemma GraftRoot(ns: Nodes, e: Edge, q: Ptr, x: Node)
    requires e.FromTable?
    ensures Grafted(ns, e, q, x) == ns[q := x]
  {
  }

  lemma GraftedAt(n: nat, ns: Nodes, seg: Segs, roots: Roots, t: nat, i: nat, path: seq<Ptr>, q: Ptr, x: Node, k: nat)
    requires Shaped(n, ns, seg, roots) && Ends(n, ns, seg, roots, t, i, path, NULL) && q !in ns && k < |path|
    ensures var ns' := Grafted(ns, TipEdge(seg, t, i, path), q, x);
            && path[k] in ns' && ns'[path[k]].Inner? && ns'[path[k]].refcnt == 1
            && (k < |path| - 1 ==> ns'[path[k]] == ns[path[k]])
            && (k == |path| - 1 ==> Toward(ns'[path[k]], seg[path[k]], i) == q)
            && RewiredAt(ns, ns', seg, i, path, NULL, q, k)
  {
    var e := TipEdge(seg, t, i, path);
    assert NodeFits(ns, seg, path[k]);
    GraftKeys(ns, e, q, x);
    if k < |path| - 1 {
      ChainDistinct(n, ns, seg, roots, t, i, path, k, |path| - 1);
      assert Next(ns, seg, i, path, k);
    }
  }

  /** The path to a new node. */
  lemma GraftPath(n: nat, ns: Nodes, seg: Segs, roots: Roots, t: nat, i: nat, path: seq<Ptr>, q: Ptr, x: Node, s: Seg)
    requires Shaped(n, ns, seg, roots) && Ends(n, ns, seg, roots, t, i, path, NULL) && q !in ns && q != NULL
    requires s == TipSeg(n, seg, i, path) && Longer(seg, path, s.Len())
    ensures var e := TipEdge(seg, t, i, path);
            var ns', seg', roots' := Grafted(ns, e, q, x), seg[q := s], AimRoots(roots, e, q);
            && Chain(n, ns', seg', roots', t, i, path) && Tip(n, ns', seg', roots', t, i, path) == q
            && TipSeg(n, seg', i, path) == s && Longer(seg', path, s.Len())
            && Rewired(ns, ns', seg, i, path, NULL, q)
  {
    hide Grafted, NodeFits, TipEdge, Shaped, RewiredAt, Ends, Half;
    EndsChain(n, ns, seg, roots, t, i, path, NULL);
    var e := TipEdge(seg, t, i, path);
    var ns', seg', roots' := Grafted(ns, e, q, x), seg[q := s], AimRoots(roots, e, q);
    RootEdge(seg, t, i, path);
    forall k | 0 <= k < |path|
      ensures path[k] in ns' && ns'[path[k]].Inner? && ns'[path[k]].refcnt == 1 && RewiredAt(ns, ns', seg, i, path, NULL, q, k)
      ensures k < |path| - 1 ==> ns'[path[k]] == ns[path[k]]
      ensures k == |path| - 1 ==> Toward(ns'[path[k]], seg[path[k]], i) == q
    {
      GraftedAt(n, ns, seg, roots, t, i, path, q, x, k);
    }
    forall k | 0 <= k < |path| - 1
      ensures Next(ns', seg', i, path, k)
    {
      assert Next(ns, seg, i, path, k);
    }
  }

  lemma RootEdge(seg: Segs, t: nat, i: nat, path: seq<Ptr>)
    requires path != [] ==> path[|path| - 1] in seg
    ensures TipEdge(seg, t, i, path).FromTable? <==> path == []
    ensures path == [] ==> TipEdge(seg, t, i, path) == FromTable(t)
    ensures path != [] ==> TipEdge(seg, t, i, path).p == path[|path| - 1]
  {
  }

  /** The effect on the tables of a new node at the end of a path: a leaf gives `t` the field, an inner node nothing. */
  lemma GraftReads(n: nat, ns: Nodes, seg: Segs, roots: Roots, t: nat, i: nat, path: seq<Ptr>, q: Ptr, x: Node, s: Seg)
    requires Consistent(n, ns, seg, roots, multiset{}) && Ends(n, ns, seg, roots, t, i, path, NULL) && q !in ns && q != NULL
    requires s == TipSeg(n, seg, i, path) && s.Has(i) && Longer(seg, path, s.Len()) && Childless(x) && (x.Leaf? <==> s.Len() <= 1)
    ensures var e := TipEdge(seg, t, i, path);
            var ns', roots' := Grafted(ns, e, q, x), AimRoots(roots, e, q);
            && t in roots && Fields(n, ns', roots'[t]) == (if x.Leaf? then Fields(n, ns, roots[t])[i := x.value] else Fields(n, ns, roots[t]))
            && (forall u :: u in roots && u != t ==> Fields(n, ns', roots'[u]) == Fields(n, ns, roots[u]))
            && i !in Fields(n, ns, roots[t])
  {
    hide Grafted, Shaped, Counted, Fields, Chain, Longer, Rewired, TipEdge;
    ChainLinks(n, ns, seg, roots, t, i, path);
    var e := TipEdge(seg, t, i, path);
    var ns', roots' := Grafted(ns, e, q, x), AimRoots(roots, e, q);
    var w := if x.Leaf? then Some(x.value) else None;
    RootEdge(seg, t, i, path);
    ConsistentShaped(n, ns, seg, roots, multiset{});
    ShapedNull(n, ns, seg, roots);
    GraftKeys(ns, e, q, x);
    GraftPath(n, ns, seg, roots, t, i, path, q, x, s);
    GraftElsewhere(ns, seg, t, i, path, q, x);
    forall j | s.Has(j)
      ensures Find(ns', q, s, j) == if j == i then w else Find(ns, NULL, s, j)
    {
      NewReads(ns', q, s, j);
    }
    PathChange(n, ns, ns', seg, roots, roots', t, i, path, NULL, q, s, w);
    TipReads(n, ns, seg, roots, t, i, path, s);
    FieldsChange(n, ns, roots[t], ns', roots'[t], i, w);
  }

  lemma GraftElsewhere(ns: Nodes, seg: Segs, t: nat, i: nat, path: seq<Ptr>, q: Ptr, x: Node)
    requires (path != [] ==> path[|path| - 1] in seg) && q !in ns
    ensures var ns' := Grafted(ns, TipEdge(seg, t, i, path), q, x);
            forall y :: y in ns && y !in Owned(path, NULL) ==> y in ns' && SameBody(ns[y], ns'[y])
  {
    var e := TipEdge(seg, t, i, path);
    GraftKeys(ns, e, q, x);
    RootEdge(seg, t, i, path);
  }

  lemma NewReads(ns: Nodes, q: Ptr, s: Seg, j: nat)
    requires q in ns && NULL !in ns && Childless(ns[q]) && (ns[q].Leaf? <==> s.Len() <= 1)
    ensures Find(ns, q, s, j) == if ns[q].Leaf? then Some(ns[q].value) else None
  {
  }

  /** One step of the search. */
  lemma FindStep(n: nat, ns: Nodes, seg: Segs, roots: Roots, p: Ptr, i: nat)
    requires Shaped(n, ns, seg, roots) && p in ns && p in seg && ns[p].Inner?
    ensures Find(ns, p, seg[p], i) == Find(ns, Toward(ns[p], seg[p], i), Half(seg[p], i), i)
  {
    assert NodeFits(ns, seg, p);
  }

  /** Searching from any node of a path is searching from where the path ends. */
  lemma {:induction false} PathReads(n: nat, ns: Nodes, seg: Segs, roots: Roots, t: nat, i: nat, path: seq<Ptr>, k: nat)
    requires Shaped(n, ns, seg, roots) && Chain(n, ns, seg, roots, t, i, path) && k < |path|
    ensures Find(ns, path[k], seg[path[k]], i) == Find(ns, Tip(n, ns, seg, roots, t, i, path), TipSeg(n, seg, i, path), i)
    decreases |path| - k
  {
    hide Find, Shaped, Half, Toward;
    FindStep(n, ns, seg, roots, path[k], i);
    if k + 1 < |path| {
      assert Next(ns, seg, i, path, k);
      PathReads(n, ns, seg, roots, t, i, path, k + 1);
    }
  }

  lemma TipReads(n: nat, ns: Nodes, seg: Segs, roots: Roots, t: nat, i: nat, path: seq<Ptr>, s: Seg)
    requires Shaped(n, ns, seg, roots) && Chain(n, ns, seg, roots, t, i, path) && s == TipSeg(n, seg, i, path)
    ensures t in roots && Find(ns, roots[t], Seg(0, n), i) == Find(ns, Tip(n, ns, seg, roots, t, i, path), s, i)
  {
    if path != [] {
      PathReads(n, ns, seg, roots, t, i, path, 0);
    }
  }

  lemma FieldsChange(n: nat, ns: Nodes, p: Ptr, ns': Nodes, p': Ptr, i: nat, w: Option<AddrSet>)
    requires i < n && forall j :: 0 <= j < n ==> Find(ns', p', Seg(0, n), j) == if j == i then w else Find(ns, p, Seg(0, n), j)
    ensures w.Some? ==> Fields(n, ns', p') == Fields(n, ns, p)[i := w.value]
    ensures w.None? && Find(ns, p, Seg(0, n), i).None? ==> Fields(n, ns', p') == Fields(n, ns, p)
    ensures i in Fields(n, ns, p) <==> Find(ns, p, Seg(0, n), i).Some?
  {
    hide Find, Fields;
    FieldAt(n, ns, p, i);
    var f, g := Fields(n, ns, p), Fields(n, ns', p');
    forall j: nat
      ensures j != i ==> (j in g <==> j in f) && (j in g ==> g[j] == f[j])
      ensures i in g <==> w.Some?
      ensures i in g ==> g[i] == w.value
    {
      FieldAt(n, ns, p, j);
      FieldAt(n, ns', p', j);
      FieldAt(n, ns', p', i);
    }
  }

  ghost function Last(path: seq<Ptr>): Ptr {
    if path == [] then NULL else path[|path| - 1]
  }

  lemma BushyGraft(ns: Nodes, seg: Segs, t: nat, i: nat, path: seq<Ptr>, q: Ptr, x: Node)
    requires (path != [] ==> path[|path| - 1] in seg) && NULL !in ns && q !in ns && q != NULL && Bushy(ns, Last(path))
    ensures Bushy(Grafted(ns, TipEdge(seg, t, i, path), q, x), q)
  {
    var e := TipEdge(seg, t, i, path);
    GraftKeys(ns, e, q, x);
    RootEdge(seg, t, i, path);
  }

  lemma BushyLeaf(ns: Nodes, q: Ptr)
    requires Bushy(ns, q) && q in ns && ns[q].Leaf?
    ensures forall p :: Bushy(ns, p)
  {
  }

  /** Everything about one new node at the end of a path. */
  lemma GraftDone(n: nat, ns: Nodes, seg: Segs, roots: Roots, t: nat, i: nat, path: seq<Ptr>, q: Ptr, x: Node, s: Seg)
    requires Consistent(n, ns, seg, roots, multiset{}) && Ends(n, ns, seg, roots, t, i, path, NULL) && q !in ns && q != NULL
    requires s == TipSeg(n, seg, i, path) && s.Has(i) && Longer(seg, path, s.Len()) && Childless(x) && (x.Leaf? <==> s.Len() <= 1) && x.refcnt == 1
    ensures var e := TipEdge(seg, t, i, path);
            var ns', seg', roots' := Grafted(ns, e, q, x), seg[q := s], AimRoots(roots, e, q);
            && Consistent(n, ns', seg', roots', multiset{}) && Ends(n, ns', seg', roots', t, i, path, q)
            && TipSeg(n, seg', i, path) == s && Longer(seg', path, s.Len()) && roots'.Keys == roots.Keys
  {
    hide Grafted, Shaped, Counted, Chain, Longer, Rewired, TipEdge, AimRoots;
    ChainLinks(n, ns, seg, roots, t, i, path);
    var e := TipEdge(seg, t, i, path);
    ConsistentShaped(n, ns, seg, roots, multiset{});
    TipPoints(n, ns, seg, roots, t, i, path);
    EdgeOwner(ns, roots, e, NULL);
    GraftKeys(ns, e, q, x);
    GraftCounted(n, ns, seg, roots, e, q, x);
    GraftShaped(n, ns, seg, roots, t, i, path, q, x);
    GraftPath(n, ns, seg, roots, t, i, path, q, x, s);
  }

  /** Table `t` has gained field `i`, and the others have kept theirs. */
  ghost predicate Wrote(n: nat, ns: Nodes, roots: Roots, ns': Nodes, roots': Roots, t: nat, i: nat, v: AddrSet) {
    && t in roots && roots.Keys == roots'.Keys
    && Fields(n, ns', roots'[t]) == Fields(n, ns, roots[t])[i := v]
    && forall u :: u in roots && u != t ==> Fields(n, ns', roots'[u]) == Fields(n, ns, roots[u])
  }

  lemma SameThenWrote(n: nat, ns: Nodes, roots: Roots, ns1: Nodes, roots1: Roots, ns2: Nodes, roots2: Roots, t: nat, i: nat, v: AddrSet)
    requires SameFields(n, ns, roots, ns1, roots1) && Wrote(n, ns1, roots1, ns2, roots2, t, i, v)
    ensures Wrote(n, ns, roots, ns2, roots2, t, i, v)
  {
  }

  lemma GraftEffect(n: nat, ns: Nodes, seg: Segs, roots: Roots, t: nat, i: nat, path: seq<Ptr>, q: Ptr, x: Node, s: Seg)
    requires Consistent(n, ns, seg, roots, multiset{}) && Ends(n, ns, seg, roots, t, i, path, NULL) && q !in ns && q != NULL
    requires s == TipSeg(n, seg, i, path) && s.Has(i) && Longer(seg, path, s.Len()) && Childless(x) && (x.Leaf? <==> s.Len() <= 1)
    ensures var e := TipEdge(seg, t, i, path);
            if x.Leaf? then Wrote(n, ns, roots, Grafted(ns, e, q, x), AimRoots(roots, e, q), t, i, x.value)
            else SameFields(n, ns, roots, Grafted(ns, e, q, x), AimRoots(roots, e, q))
  {
    hide Grafted, Shaped, Counted, Chain, Longer, TipEdge, AimRoots, Fields;
    ChainLinks(n, ns, seg, roots, t, i, path);
    var e := TipEdge(seg, t, i, path);
    TipPoints(n, ns, seg, roots, t, i, path);
    EdgeOwner(ns, roots, e, NULL);
    GraftReads(n, ns, seg, roots, t, i, path, q, x, s);
  }

  // ---------- overwriting a leaf ----------

  lemma LeafCounted(ns: Nodes, roots: Roots, a: Ptr, v: AddrSet)
    requires Counted(ns, roots, multiset{}) && a in ns && ns[a].Leaf?
    ensures Counted(ns[a := Leaf(ns[a].refcnt, v)], roots, multiset{})
  {
    hide EdgesTo;
    var ns' := ns[a := Leaf(ns[a].refcnt, v)];
    forall z | z in ns'
      ensures ns'[z].refcnt == |EdgesTo(ns', roots, z)|
    {
      EdgesSame(ns, ns', roots, roots, z);
    }
  }

  lemma LeafConsistent(n: nat, ns: Nodes, seg: Segs, roots: Roots, a: Ptr, v: AddrSet)
    requires Consistent(n, ns, seg, roots, multiset{}) && a in ns && ns[a].Leaf?
    ensures Consistent(n, ns[a := Leaf(ns[a].refcnt, v)], seg, roots, multiset{})
    ensures Bushy(ns, NULL) ==> Bushy(ns[a := Leaf(ns[a].refcnt, v)], NULL)
  {
    hide Counted;
    LeafCounted(ns, roots, a, v);
    var ns' := ns[a := Leaf(ns[a].refcnt, v)];
    forall z | z in ns'
      ensures NodeFits(ns', seg, z)
    {
      assert NodeFits(ns, seg, z);
    }
  }

  lemma LeafPath(n: nat, ns: Nodes, seg: Segs, roots: Roots, t: nat, i: nat, path: seq<Ptr>, a: Ptr, v: AddrSet)
    requires Shaped(n, ns, seg, roots) && Ends(n, ns, seg, roots, t, i, path, a) && a in ns && ns[a].Leaf?
    ensures Rewired(ns, ns[a := Leaf(ns[a].refcnt, v)], seg, i, path, a, a)
  {
    var ns' := ns[a := Leaf(ns[a].refcnt, v)];
    forall k | 0 <= k < |path|
      ensures RewiredAt(ns, ns', seg, i, path, a, a, k)
    {
      assert NodeFits(ns, seg, path[k]);
      if k + 1 < |path| {
        assert Next(ns, seg, i, path, k);
      }
    }
  }

  /** Overwriting a leaf at the end of a path that is nobody else's. */
  lemma LeafEffect(n: nat, ns: Nodes, seg: Segs, roots: Roots, t: nat, i: nat, path: seq<Ptr>, a: Ptr, v: AddrSet, s: Seg)
    requires Consistent(n, ns, seg, roots, multiset{}) && Ends(n, ns, seg, roots, t, i, path, a) && a in ns && ns[a].Leaf?
    requires s == TipSeg(n, seg, i, path) && s.Has(i)
    ensures Wrote(n, ns, roots, ns[a := Leaf(ns[a].refcnt, v)], roots, t, i, v)
    ensures t in roots && i in Fields(n, ns, roots[t]) && Fields(n, ns, roots[t])[i] == ns[a].value
  {
    hide Counted, Fields, Chain, Rewired, Shaped;
    var ns' := ns[a := Leaf(ns[a].refcnt, v)];
    ConsistentShaped(n, ns, seg, roots, multiset{});
    ShapedNull(n, ns, seg, roots);
    ShapedInner(n, ns, seg, roots, a);
    ChainLinks(n, ns, seg, roots, t, i, path);
    LeafPath(n, ns, seg, roots, t, i, path, a, v);
    RootKept(n, ns, seg, roots, t, i, path, a);
    PathChange(n, ns, ns', seg, roots, roots, t, i, path, a, a, s, Some(v));
    FieldsChange(n, ns, roots[t], ns', roots[t], i, Some(v));
    TipReads(n, ns, seg, roots, t, i, path, s);
    FieldAt(n, ns, roots[t], i);
  }

  lemma FieldAt(n: nat, ns: Nodes, p: Ptr, i: nat)
    ensures i in Fields(n, ns, p) <==> i < n && Find(ns, p, Seg(0, n), i).Some?
    ensures i in Fields(n, ns, p) ==> Fields(n, ns, p)[i] == Find(ns, p, Seg(0, n), i).value
  {
    hide Find;
  }

  lemma RootKept(n: nat, ns: Nodes, seg: Segs, roots: Roots, t: nat, i: nat, path: seq<Ptr>, a: Ptr)
    requires Ends(n, ns, seg, roots, t, i, path, a)
    ensures t in roots && i < n && roots == (if path == [] then roots[t := a] else roots)
  {
    if path == [] {
      assert roots[t := a] == roots;
    }
  }

  // ---------- tables ----------

  lemma AdoptPoints(ns: Nodes, roots: Roots, u: nat, p: Ptr, ns': Nodes, roots': Roots)
    requires u !in roots && (p != NULL ==> p in ns) && NULL !in ns && roots' == roots[u := p]
    requires ns' == if p == NULL then ns else ns[p := Recount(ns[p], 1)]
    ensures forall f, z :: f != FromTable(u) ==> (PointsTo(ns', roots', f, z) <==> PointsTo(ns, roots, f, z))
    ensures forall z :: !PointsTo(ns, roots, FromTable(u), z)
    ensures forall z :: PointsTo(ns', roots', FromTable(u), z) <==> z == p
  {
  }

  lemma AdoptCounted(ns: Nodes, roots: Roots, u: nat, p: Ptr, ns': Nodes)
    requires Counted(ns, roots, multiset{}) && u !in roots && (p != NULL ==> p in ns) && NULL !in ns
    requires ns' == if p == NULL then ns else ns[p := Recount(ns[p], 1)]
    ensures Counted(ns', roots[u := p], multiset{})
  {
    hide EdgesTo, PointsTo;
    var roots' := roots[u := p];
    AdoptPoints(ns, roots, u, p, ns', roots');
    forall z | z in ns'
      ensures ns'[z].refcnt == |EdgesTo(ns', roots', z)| && ns'[z].refcnt >= 1
    {
      if z == p {
        EdgesLess(ns', ns, roots', roots, z, FromTable(u));
      } else {
        EdgesSame(ns, ns', roots, roots', z);
      }
    }
  }

  /** A table more that points to `p`, with `p` counted once more. */
  lemma AdoptConsistent(n: nat, ns: Nodes, seg: Segs, roots: Roots, u: nat, p: Ptr)
    requires Consistent(n, ns, seg, roots, multiset{}) && u !in roots && ChildFits(ns, seg, p, Seg(0, n))
    ensures Consistent(n, if p == NULL then ns else ns[p := Recount(ns[p], 1)], seg, roots[u := p], multiset{})
  {
    hide Counted;
    var ns', roots' := if p == NULL then ns else ns[p := Recount(ns[p], 1)], roots[u := p];
    AdoptCounted(ns, roots, u, p, ns');
    forall z | z in ns'
      ensures NodeFits(ns', seg, z)
    {
      assert NodeFits(ns, seg, z);
    }
    forall t | t in roots'
      ensures ChildFits(ns', seg, roots'[t], Seg(0, n))
    {
      if t in roots {
        assert ChildFits(ns, seg, roots[t], Seg(0, n));
      }
    }
  }

  /** A table less: its reference is still to be dropped. */
  lemma DropConsistent(n: nat, ns: Nodes, seg: Segs, roots: Roots, t: nat)
    requires Consistent(n, ns, seg, roots, multiset{}) && t in roots
    ensures Consistent(n, ns, seg, roots - {t}, multiset{} + Ref(roots[t])) && (roots[t] != NULL ==> roots[t] in ns)
  {
    hide EdgesTo;
    var roots' := roots - {t};
    assert ChildFits(ns, seg, roots[t], Seg(0, n));
    forall z | z in ns
      ensures ns[z].refcnt == |EdgesTo(ns, roots', z)| + (multiset{} + Ref(roots[t]))[z]
    {
      if z == roots[t] {
        EdgesLess(ns, ns, roots, roots', z, FromTable(t));
      } else {
        EdgesSame(ns, ns, roots, roots', z);
      }
    }
    forall u | u in roots'
      ensures ChildFits(ns, seg, roots'[u], Seg(0, n))
    {
      assert ChildFits(ns, seg, roots[u], Seg(0, n));
    }
  }

  lemma ReferencedBy(n: nat, ns: Nodes, seg: Segs, p: Ptr) returns (q: Ptr)
    requires Consistent(n, ns, seg, map[], multiset{}) && p in ns
    ensures q in ns && seg[q].Len() > seg[p].Len()
  {
    hide EdgesTo;
    var e :| e in EdgesTo(ns, map[], p);
    q := e.p;
    assert NodeFits(ns, seg, q);
  }

  /** Without tables there are no nodes: nothing leaks. */
  lemma NoLeak(n: nat, ns: Nodes, seg: Segs)
    requires Consistent(n, ns, seg, map[], multiset{})
    ensures ns == map[]
  {
    if ns.Keys != {} {
      var p := Longest(ns, seg, ns.Keys);
      var q := ReferencedBy(n, ns, seg, p);
    }
    assert ns.Keys == {};
  }

  lemma {:induction false} Longest(ns: Nodes, seg: Segs, ps: set<Ptr>) returns (p: Ptr)
    requires ps != {} && ps <= seg.Keys
    ensures p in ps && forall q :: q in ps ==> seg[q].Len() <= seg[p].Len()
  {
    p :| p in ps;
    if ps != {p} {
      var q := Longest(ns, seg, ps - {p});
      assert forall x :: x in ps ==> x == p || x in ps - {p};
      if seg[q].Len() > seg[p].Len() {
        p := q;
      }
    }
  }

  class Forest {
    /** `dalvik_static_field_count`. */
    const n: nat
    var nodes: Nodes
    /** The root pointer of each table. */
    var roots: Roots
    ghost var seg: Segs

    constructor (n: nat)
      ensures this.n == n && nodes == map[] && roots == map[]
    {
      this.n, nodes, roots, seg := n, map[], map[], map[];
    }

    /** Drops a reference; a node nobody refers to is freed together with its references. */
    method Decref(p: Ptr, ghost extra: multiset<Ptr>)
      requires p in nodes || p == NULL
      requires Consistent(n, nodes, seg, roots, extra + Ref(p))
      modifies this`nodes
      ensures Consistent(n, nodes, seg, roots, extra) && Trimmed(old(nodes), nodes)
      ensures p != NULL && old(nodes)[p].refcnt > 1 ==> nodes == old(nodes)[p := Recount(old(nodes)[p], -1)]
      decreases nodes.Keys
    {
      hide Consistent, Trimmed;
      if p == NULL {
        TrimmedSelf(nodes);
        assert extra + Ref(p) == extra;
        return;
      }
      var x := nodes[p];
      CountPositive(n, nodes, seg, roots, extra, p);
      if x.refcnt > 1 {
        DropShared(n, nodes, seg, roots, extra, p);
        nodes := nodes[p := Recount(x, -1)];
        return;
      }
      DropLast(n, nodes, seg, roots, extra, p);
      ghost var was := nodes;
      nodes := nodes - {p};
      ghost var mid := nodes;
      SplitChildren(extra, x);
      if x.Inner? {
        PendingIn(n, nodes, seg, roots, extra + Ref(x.right) + Ref(x.left), x.left);
        Decref(x.left, extra + Ref(x.right));
        TrimmedKeys(mid, nodes);
        TrimmedThen(was, mid, nodes);
        mid := nodes;
        PendingIn(n, nodes, seg, roots, extra + Ref(x.right), x.right);
        Decref(x.right, extra);
        TrimmedThen(was, mid, nodes);
      }
    }

    method Incref(p: Ptr)
      requires p in nodes || p == NULL
      modifies this`nodes
      ensures nodes == if p == NULL then old(nodes) else old(nodes)[p := Recount(old(nodes)[p], 1)]
    {
      if p != NULL {
        nodes := nodes[p := Recount(nodes[p], 1)];
      }
    }

    /** Makes a copy of a node that the caller holds. */
    method Duplicate(p: Ptr) returns (q: Ptr)
      requires Consistent(n, nodes, seg, roots, multiset{}) && p in nodes
      modifies this`nodes, this`seg
      ensures q !in old(nodes) && q != NULL && nodes == WithCopy(old(nodes), p, q)
      ensures seg == old(seg)[q := old(seg)[p]]
    {
      hide Consistent;
      var x := nodes[p];
      ChildrenIn(n, nodes, seg, roots, multiset{}, p);
      ghost var b := FreshExists(nodes.Keys);
      assert b != NULL && b !in nodes;
      q :| q != NULL && q !in nodes;
      if x.Inner? {
        BumpTwice(nodes, x);
        Incref(x.left);
        Incref(x.right);
      } else {
        BumpLeaf(nodes, x);
      }
      nodes := nodes[q := Recount(x, 1 - x.refcnt)];
      seg := seg[q := seg[p]];
    }

    /** Makes the node that the pointer at `e` leads to writable: a shared node is replaced there by a copy. */
    method PrepareNode(e: Edge, p: Ptr) returns (q: Ptr)
      requires Consistent(n, nodes, seg, roots, multiset{}) && p in nodes && PointsTo(nodes, roots, e, p)
      modifies this`nodes, this`roots, this`seg
      ensures Consistent(n, nodes, seg, roots, multiset{}) && SameFields(n, old(nodes), old(roots), nodes, roots)
      ensures Bushy(old(nodes), NULL) ==> Bushy(nodes, NULL)
      ensures old(nodes)[p].refcnt <= 1 ==> q == p && nodes == old(nodes) && roots == old(roots) && seg == old(seg)
      ensures old(nodes)[p].refcnt > 1 ==> q !in old(nodes) && q != NULL && nodes == Split(old(nodes), e, p, q)
      ensures old(nodes)[p].refcnt > 1 ==> p in old(seg) && roots == AimRoots(old(roots), e, q) && seg == old(seg)[q := old(seg)[p]]
    {
      hide Consistent, PointsTo, SameFields, WithCopy, Aim, AimRoots, Trimmed, Shaped, Bushy;
      if nodes[p].refcnt <= 1 {
        SameFieldsSelf(n, nodes, roots);
        return p;
      }
      ghost var ns, sg, rs := nodes, seg, roots;
      ChildrenIn(n, ns, sg, rs, multiset{}, p);
      q := Duplicate(p);
      SplitConsistent(n, ns, sg, rs, e, p, q);
      nodes, roots := Aim(nodes, e, q), AimRoots(roots, e, q);
      ghost var ns1 := nodes;
      assert multiset{} + Ref(p) == multiset{p};
      SplitCount(ns, e, p, q);
      Decref(p, multiset{});
      ConsistentShaped(n, nodes, seg, roots, multiset{});
      ChildrenIn(n, ns1, seg, roots, multiset{p}, p);
      SameFieldsThen(n, ns, rs, ns1, roots, nodes, seg);
      if Bushy(ns, NULL) {
        BushyTrimmed(ns1, nodes);
      }
    }

    /** Makes the node at the end of a path writable. */
    method PrepareTip(t: nat, i: nat, e: Edge, p: Ptr, ghost path: seq<Ptr>) returns (q: Ptr)
      requires Consistent(n, nodes, seg, roots, multiset{}) && Chain(n, nodes, seg, roots, t, i, path) && p != NULL
      requires p == Tip(n, nodes, seg, roots, t, i, path) && e == TipEdge(seg, t, i, path)
      requires Longer(seg, path, TipSeg(n, seg, i, path).Len())
      modifies this`nodes, this`roots, this`seg
      ensures Consistent(n, nodes, seg, roots, multiset{}) && SameFields(n, old(nodes), old(roots), nodes, roots)
      ensures Bushy(old(nodes), NULL) ==> Bushy(nodes, NULL)
      ensures Ends(n, nodes, seg, roots, t, i, path, q) && q != NULL
      ensures TipSeg(n, seg, i, path) == old(TipSeg(n, seg, i, path)) && Longer(seg, path, TipSeg(n, seg, i, path).Len())
    {
      hide Consistent, SameFields, Split, AimRoots, Chain, Longer, Tip, Shaped, Bushy;
      ghost var ns, sg, rs := nodes, seg, roots;
      ConsistentShaped(n, ns, sg, rs, multiset{});
      TipFits(n, ns, sg, rs, t, i, path);
      TipPoints(n, ns, sg, rs, t, i, path);
      CountOne(n, ns, sg, rs, p);
      q := PrepareNode(e, p);
      if ns[p].refcnt > 1 {
        ChainSplit(n, ns, sg, rs, t, i, path, p, q, e);
        TipSegKept(n, sg, i, path, q, sg[p], ns, rs, t);
        EdgeOwner(ns, rs, e, p);
        SplitCopy(ns, e, p, q);
      }
    }

    /**
     Makes the path to field `i` of table `t` writable: every node on it is copied that is shared. The
     leaf of the field, if it has one, is returned.
     */
    method PrepareToWrite(t: nat, i: nat) returns (target: Ptr, ghost path: seq<Ptr>)
      requires Consistent(n, nodes, seg, roots, multiset{}) && t in roots && i < n
      modifies this`nodes, this`roots, this`seg
      ensures Consistent(n, nodes, seg, roots, multiset{}) && SameFields(n, old(nodes), old(roots), nodes, roots)
      ensures Bushy(old(nodes), NULL) ==> Bushy(nodes, NULL)
      ensures Ends(n, nodes, seg, roots, t, i, path, target)
      ensures TipSeg(n, seg, i, path).Has(i) && Longer(seg, path, TipSeg(n, seg, i, path).Len())
      ensures target != NULL ==> nodes[target].Leaf?
    {
      hide Consistent, SameFields, Chain, Longer, Tip, Shaped, Links, Bushy;
      path := [];
      var e, p, s := FromTable(t), roots[t], Seg(0, n);
      ChainStarts(n, nodes, seg, roots, t, i);
      SameFieldsSelf(n, nodes, roots);
      while s.Len() > 1 && p != NULL
        invariant Consistent(n, nodes, seg, roots, multiset{}) && SameFields(n, old(nodes), old(roots), nodes, roots)
        invariant Bushy(old(nodes), NULL) ==> Bushy(nodes, NULL)
        invariant Chain(n, nodes, seg, roots, t, i, path) && p == Tip(n, nodes, seg, roots, t, i, path)
        invariant path != [] ==> path[|path| - 1] in seg
        invariant e == TipEdge(seg, t, i, path) && s == TipSeg(n, seg, i, path) && s.Has(i) && Longer(seg, path, s.Len())
        decreases s.Len()
      {
        ghost var ns, rs := nodes, roots;
        p := PrepareTip(t, i, e, p, path);
        SameFieldsTrans(n, old(nodes), old(roots), ns, rs, nodes, roots);
        ConsistentShaped(n, nodes, seg, roots, multiset{});
        ShapedInner(n, nodes, seg, roots, p);
        ChainGrows(n, nodes, seg, roots, t, i, path, p);
        path := path + [p];
        TipOf(n, nodes, seg, roots, t, i, path);
        if i < s.Mid() {
          e, p, s := FromLeft(p), nodes[p].left, s.Lower();
        } else {
          e, p, s := FromRight(p), nodes[p].right, s.Upper();
        }
      }
      if p != NULL {
        ghost var ns, rs := nodes, roots;
        p := PrepareTip(t, i, e, p, path);
        SameFieldsTrans(n, old(nodes), old(roots), ns, rs, nodes, roots);
        ConsistentShaped(n, nodes, seg, roots, multiset{});
        ShapedInner(n, nodes, seg, roots, p);
      }
      target := p;
    }

    /** Adds a node for segment `s` where the path to field `i` ends in a null pointer. */
    method Graft(t: nat, i: nat, e: Edge, s: Seg, v: AddrSet, ghost path: seq<Ptr>) returns (q: Ptr)
      requires Consistent(n, nodes, seg, roots, multiset{}) && Ends(n, nodes, seg, roots, t, i, path, NULL)
      requires e == TipEdge(seg, t, i, path) && s == TipSeg(n, seg, i, path) && s.Has(i) && Longer(seg, path, s.Len())
      requires Bushy(nodes, Last(path))
      modifies this`nodes, this`roots, this`seg
      ensures Consistent(n, nodes, seg, roots, multiset{}) && Ends(n, nodes, seg, roots, t, i, path, q) && Bushy(nodes, q)
      ensures q != NULL && nodes[q] == NewNode(s, v)
      ensures TipSeg(n, seg, i, path) == s && Longer(seg, path, s.Len())
      ensures if s.Len() <= 1 then Wrote(n, old(nodes), old(roots), nodes, roots, t, i, v)
              else SameFields(n, old(nodes), old(roots), nodes, roots)
    {
      hide Consistent, SameFields, Wrote, Longer, Bushy, Ends, AimRoots, Aim;
      ghost var b := FreshExists(nodes.Keys);
      assert b != NULL && b !in nodes;
      q :| q != NULL && q !in nodes;
      var x := NewNode(s, v);
      EndsLinks(n, nodes, seg, roots, t, i, path, NULL);
      ConsistentShaped(n, nodes, seg, roots, multiset{});
      ShapedNull(n, nodes, seg, roots);
      GraftDone(n, nodes, seg, roots, t, i, path, q, x, s);
      GraftEffect(n, nodes, seg, roots, t, i, path, q, x, s);
      BushyGraft(nodes, seg, t, i, path, q, x);
      nodes, roots, seg := Aim(nodes, e, q)[q := x], AimRoots(roots, e, q), seg[q := s];
    }

    /** Adds the nodes from the end of a path down to the leaf of field `i`. */
    method Grow(t: nat, i: nat, e0: Edge, s0: Seg, v: AddrSet, ghost path0: seq<Ptr>) returns (leaf: Ptr, ghost path: seq<Ptr>)
      requires Consistent(n, nodes, seg, roots, multiset{}) && Ends(n, nodes, seg, roots, t, i, path0, NULL)
      requires e0 == TipEdge(seg, t, i, path0) && s0 == TipSeg(n, seg, i, path0) && s0.Has(i) && Longer(seg, path0, s0.Len())
      requires Bushy(nodes, Last(path0))
      modifies this`nodes, this`roots, this`seg
      ensures Consistent(n, nodes, seg, roots, multiset{}) && Bushy(nodes, NULL)
      ensures Wrote(n, old(nodes), old(roots), nodes, roots, t, i, v)
      ensures Ends(n, nodes, seg, roots, t, i, path, leaf) && TipSeg(n, seg, i, path).Has(i)
      ensures leaf != NULL && nodes[leaf] == Leaf(1, v)
    {
      hide Consistent, SameFields, Wrote, Longer, Bushy, Chain, Shaped, Tip, Links;
      var e, s := e0, s0;
      path := path0;
      SameFieldsSelf(n, nodes, roots);
      EndsLinks(n, nodes, seg, roots, t, i, path, NULL);
      while s.Len() > 1
        invariant Consistent(n, nodes, seg, roots, multiset{}) && Ends(n, nodes, seg, roots, t, i, path, NULL)
        invariant path != [] ==> path[|path| - 1] in seg
        invariant e == TipEdge(seg, t, i, path) && s == TipSeg(n, seg, i, path) && s.Has(i) && Longer(seg, path, s.Len())
        invariant Bushy(nodes, Last(path)) && SameFields(n, old(nodes), old(roots), nodes, roots)
        decreases s.Len()
      {
        ghost var ns, rs := nodes, roots;
        var q := Graft(t, i, e, s, v, path);
        SameFieldsTrans(n, old(nodes), old(roots), ns, rs, nodes, roots);
        ConsistentShaped(n, nodes, seg, roots, multiset{});
        ChainGrows(n, nodes, seg, roots, t, i, path, q);
        path := path + [q];
        TipOf(n, nodes, seg, roots, t, i, path);
        if i < s.Mid() {
          e, s := FromLeft(q), s.Lower();
        } else {
          e, s := FromRight(q), s.Upper();
        }
      }
      ghost var ns, rs := nodes, roots;
      leaf := Graft(t, i, e, s, v, path);
      BushyLeaf(nodes, leaf);
      SameThenWrote(n, old(nodes), old(roots), ns, rs, nodes, roots, t, i, v);
    }

    /** Gives table `t` a field it does not have, copying or creating the nodes on the way. */
    method Insert(t: nat, i: nat, v: AddrSet) returns (leaf: Ptr, ghost path: seq<Ptr>)
      requires Consistent(n, nodes, seg, roots, multiset{}) && Bushy(nodes, NULL) && t in roots && i < n
      requires i !in Fields(n, nodes, roots[t])
      modifies this`nodes, this`roots, this`seg
      ensures Consistent(n, nodes, seg, roots, multiset{}) && Bushy(nodes, NULL)
      ensures Wrote(n, old(nodes), old(roots), nodes, roots, t, i, v)
      ensures Ends(n, nodes, seg, roots, t, i, path, leaf) && TipSeg(n, seg, i, path).Has(i)
      ensures leaf != NULL && nodes[leaf] == Leaf(1, v)
    {
      hide Consistent, SameFields, Wrote, Longer, Bushy, Chain, Shaped, Tip, Fields, Links;
      var target;
      target, path := PrepareToWrite(t, i);
      AbsentField(n, old(nodes), old(roots), nodes, roots, t, i);
      AbsentTip(n, nodes, seg, roots, t, i, path, target);
      ConsistentShaped(n, nodes, seg, roots, multiset{});
      ShapedNull(n, nodes, seg, roots);
      BushyAny(nodes, Last(path));
      ghost var ns, rs, sg := nodes, roots, seg;
      var e, node, s := FromTable(t), roots[t], Seg(0, n);
      ghost var k := 0;
      WalkAt(n, nodes, seg, roots, t, i, path, 0);
      ChainStarts(n, nodes, seg, roots, t, i);
      assert path[..0] == [];
      while s.Len() > 1 && node != NULL
        invariant nodes == ns && roots == rs && seg == sg
        invariant k <= |path| && node == (if k < |path| then path[k] else NULL)
        invariant Chain(n, nodes, seg, roots, t, i, path[..k])
        invariant k > 0 ==> path[k - 1] in seg && path[..k][k - 1] == path[k - 1]
        invariant e == TipEdge(seg, t, i, path[..k]) && s == TipSeg(n, seg, i, path[..k])
        decreases |path| - k
      {
        WalkAt(n, nodes, seg, roots, t, i, path, k);
        WalkAt(n, nodes, seg, roots, t, i, path, k + 1);
        TipOf(n, nodes, seg, roots, t, i, path[..k + 1]);
        if i < s.Mid() {
          e, node, s := FromLeft(node), nodes[node].left, s.Lower();
        } else {
          e, node, s := FromRight(node), nodes[node].right, s.Upper();
        }
        k := k + 1;
      }
      if k < |path| {
        WalkAt(n, nodes, seg, roots, t, i, path, k);
      }
      assert path[..k] == path;
      leaf, path := Grow(t, i, e, s, v, path);
      SameThenWrote(n, old(nodes), old(roots), ns, rs, nodes, roots, t, i, v);
    }

    /** A new table without initialised fields. */
    method Empty() returns (u: nat)
      requires Consistent(n, nodes, seg, roots, multiset{})
      modifies this`roots
      ensures u !in old(roots) && roots == old(roots)[u := NULL] && Consistent(n, nodes, seg, roots, multiset{})
      ensures Fields(n, nodes, NULL) == map[]
    {
      hide Consistent;
      ghost var b := FreshExists(roots.Keys);
      assert b !in roots;
      u :| u !in roots;
      AdoptConsistent(n, nodes, seg, roots, u, NULL);
      ConsistentShaped(n, nodes, seg, roots, multiset{});
      roots := roots[u := NULL];
    }

    /** A new table that shares the tree of table `t`. */
    method Share(t: nat) returns (u: nat)
      requires Consistent(n, nodes, seg, roots, multiset{}) && Bushy(nodes, NULL) && t in roots
      modifies this`nodes, this`roots
      ensures Consistent(n, nodes, seg, roots, multiset{}) && Bushy(nodes, NULL)
      ensures u !in old(roots) && roots == old(roots)[u := old(roots)[t]] && Trimmed(old(nodes), nodes)
    {
      hide Consistent, Shaped, Bushy;
      ghost var b := FreshExists(roots.Keys);
      assert b !in roots;
      u :| u !in roots;
      var p := roots[t];
      ConsistentShaped(n, nodes, seg, roots, multiset{});
      RootFits(n, nodes, seg, roots, t);
      AdoptConsistent(n, nodes, seg, roots, u, p);
      Incref(p);
      BushyTrimmed(old(nodes), nodes);
      roots := roots[u := p];
    }

    /** Removes a table and frees the nodes that nobody else refers to. */
    method Release(t: nat)
      requires Consistent(n, nodes, seg, roots, multiset{}) && Bushy(nodes, NULL) && t in roots
      modifies this`nodes, this`roots
      ensures Consistent(n, nodes, seg, roots, multiset{}) && Bushy(nodes, NULL)
      ensures roots == old(roots) - {t} && Trimmed(old(nodes), nodes)
      ensures roots == map[] ==> nodes == map[]
    {
      hide Consistent, Shaped, Bushy, Trimmed;
      var p := roots[t];
      DropConsistent(n, nodes, seg, roots, t);
      roots := roots - {t};
      Decref(p, multiset{});
      BushyTrimmed(old(nodes), nodes);
      if roots == map[] {
        NoLeak(n, nodes, seg);
      }
    }
  }

  lemma ChildrenIn(n: nat, ns: Nodes, seg: Segs, roots: Roots, extra: multiset<Ptr>, p: Ptr)
    requires Consistent(n, ns, seg, roots, extra) && p in ns
    ensures NULL !in ns && p in seg
    ensures ns[p].Inner? ==> (ns[p].left != NULL ==> ns[p].left in ns) && (ns[p].right != NULL ==> ns[p].right in ns)
  {
    assert NodeFits(ns, seg, p);
  }

  lemma SameFieldsThen(n: nat, ns: Nodes, roots: Roots, ns1: Nodes, roots1: Roots, ns2: Nodes, seg: Segs)
    requires SameFields(n, ns, roots, ns1, roots1) && Trimmed(ns1, ns2) && NULL !in ns1 && Shaped(n, ns2, seg, roots1)
    ensures SameFields(n, ns, roots, ns2, roots1)
  {
    hide Fields, Find;
    forall t | t in roots1
      ensures Fields(n, ns2, roots1[t]) == Fields(n, ns1, roots1[t])
    {
      assert ChildFits(ns2, seg, roots1[t], Seg(0, n));
      forall i
        ensures Find(ns2, roots1[t], Seg(0, n), i) == Find(ns1, roots1[t], Seg(0, n), i)
      {
        FindTrimmed(n, ns1, ns2, seg, roots1, roots1[t], Seg(0, n), i);
      }
      FieldsSame(n, ns1, roots1[t], ns2, roots1[t]);
    }
  }

  lemma SplitCount(ns: Nodes, e: Edge, p: Ptr, q: Ptr)
    requires p in ns && ns[p].refcnt > 1 && q !in ns
    ensures p in Aim(WithCopy(ns, p, q), e, q) && Aim(WithCopy(ns, p, q), e, q)[p].refcnt > 1
  {
  }

  lemma SameFieldsSelf(n: nat, ns: Nodes, roots: Roots)
    ensures SameFields(n, ns, roots, ns, roots)
  {
  }

  lemma ConsistentShaped(n: nat, ns: Nodes, seg: Segs, roots: Roots, extra: multiset<Ptr>)
    requires Consistent(n, ns, seg, roots, extra)
    ensures Shaped(n, ns, seg, roots)
  {
  }

  lemma AbsentTip(n: nat, ns: Nodes, seg: Segs, roots: Roots, t: nat, i: nat, path: seq<Ptr>, a: Ptr)
    requires Consistent(n, ns, seg, roots, multiset{}) && Ends(n, ns, seg, roots, t, i, path, a) && (a != NULL ==> ns[a].Leaf?)
    requires TipSeg(n, seg, i, path).Has(i) && t in roots && i !in Fields(n, ns, roots[t])
    ensures a == NULL
  {
    if a != NULL {
      LeafEffect(n, ns, seg, roots, t, i, path, a, ns[a].value, TipSeg(n, seg, i, path));
    }
  }

  /** Where a walk towards field `i` is after `k` steps. */
  lemma WalkAt(n: nat, ns: Nodes, seg: Segs, roots: Roots, t: nat, i: nat, path: seq<Ptr>, k: nat)
    requires Shaped(n, ns, seg, roots) && Chain(n, ns, seg, roots, t, i, path) && k <= |path|
    ensures Chain(n, ns, seg, roots, t, i, path[..k])
    ensures Tip(n, ns, seg, roots, t, i, path[..k]) == if k < |path| then path[k] else Tip(n, ns, seg, roots, t, i, path)
    ensures k < |path| ==> path[k] in ns && ns[path[k]].Inner? && path[k] in seg && TipSeg(n, seg, i, path[..k]) == seg[path[k]] && seg[path[k]].Len() > 1
  {
    hide Shaped, NodeFits;
    ChainFront(n, ns, seg, roots, t, i, path, k);
    if k < |path| {
      LongNode(n, ns, seg, roots, path[k]);
      if k > 0 {
        assert Next(ns, seg, i, path, k - 1);
      }
    } else {
      assert path[..k] == path;
    }
  }

  lemma ChainFront(n: nat, ns: Nodes, seg: Segs, roots: Roots, t: nat, i: nat, path: seq<Ptr>, k: nat)
    requires Chain(n, ns, seg, roots, t, i, path) && k <= |path|
    ensures Chain(n, ns, seg, roots, t, i, path[..k])
  {
    hide Half, Toward;
    forall j | 0 <= j < k - 1
      ensures Next(ns, seg, i, path[..k], j)
    {
      assert Next(ns, seg, i, path, j);
    }
  }

  lemma LongNode(n: nat, ns: Nodes, seg: Segs, roots: Roots, p: Ptr)
    requires Shaped(n, ns, seg, roots) && p in ns && ns[p].Inner?
    ensures p in seg && seg[p].Len() > 1
  {
    assert NodeFits(ns, seg, p);
  }

  lemma RootFits(n: nat, ns: Nodes, seg: Segs, roots: Roots, t: nat)
    requires Shaped(n, ns, seg, roots) && t in roots
    ensures ChildFits(ns, seg, roots[t], Seg(0, n))
  {
  }

  lemma EndsChain(n: nat, ns: Nodes, seg: Segs, roots: Roots, t: nat, i: nat, path: seq<Ptr>, a: Ptr)
    requires Ends(n, ns, seg, roots, t, i, path, a)
    ensures Chain(n, ns, seg, roots, t, i, path) && a == Tip(n, ns, seg, roots, t, i, path)
  {
  }

  lemma EndsLinks(n: nat, ns: Nodes, seg: Segs, roots: Roots, t: nat, i: nat, path: seq<Ptr>, a: Ptr)
    requires Ends(n, ns, seg, roots, t, i, path, a)
    ensures Links(ns, seg, i, path) && (path != [] ==> path[|path| - 1] in seg)
  {
  }

  lemma AbsentField(n: nat, ns: Nodes, roots: Roots, ns': Nodes, roots': Roots, t: nat, i: nat)
    requires SameFields(n, ns, roots, ns', roots') && t in roots && i !in Fields(n, ns, roots[t])
    ensures t in roots' && i !in Fields(n, ns', roots'[t])
  {
  }

  lemma BushyAny(ns: Nodes, p: Ptr)
    requires Bushy(ns, NULL) && NULL !in ns
    ensures Bushy(ns, p)
  {
  }

  lemma CountOne(n: nat, ns: Nodes, seg: Segs, roots: Roots, p: Ptr)
    requires Consistent(n, ns, seg, roots, multiset{})
    ensures p in ns ==> ns[p].refcnt >= 1
  {
  }

  lemma TipSegKept(n: nat, seg: Segs, i: nat, path: seq<Ptr>, q: Ptr, s: Seg, ns: Nodes, roots: Roots, t: nat)
    requires Chain(n, ns, seg, roots, t, i, path) && q !in ns
    ensures TipSeg(n, seg[q := s], i, path) == TipSeg(n, seg, i, path)
  {
  }

  lemma ChainStarts(n: nat, ns: Nodes, seg: Segs, roots: Roots, t: nat, i: nat)
    requires t in roots && i < n
    ensures Chain(n, ns, seg, roots, t, i, []) && Tip(n, ns, seg, roots, t, i, []) == roots[t]
    ensures Longer(seg, [], n)
  {
  }

  lemma TipOf(n: nat, ns: Nodes, seg: Segs, roots: Roots, t: nat, i: nat, path: seq<Ptr>)
    requires Chain(n, ns, seg, roots, t, i, path) && path != []
    ensures var p := path[|path| - 1];
            p in ns && p in seg && ns[p].Inner? && Tip(n, ns, seg, roots, t, i, path) == Toward(ns[p], seg[p], i)
  {
  }

  lemma ShapedInner(n: nat, ns: Nodes, seg: Segs, roots: Roots, p: Ptr)
    requires Shaped(n, ns, seg, roots) && p in ns
    ensures p in seg && (ns[p].Inner? <==> seg[p].Len() > 1)
  {
    assert NodeFits(ns, seg, p);
  }

  lemma SameFieldsTrans(n: nat, ns: Nodes, roots: Roots, ns1: Nodes, roots1: Roots, ns2: Nodes, roots2: Roots)
    requires SameFields(n, ns, roots, ns1, roots1) && SameFields(n, ns1, roots1, ns2, roots2)
    ensures SameFields(n, ns, roots, ns2, roots2)
  {
  }

  lemma TrimmedSelf(ns: Nodes)
    ensures Trimmed(ns, ns)
  {
  }

  lemma TrimmedKeys(a: Nodes, b: Nodes)
    requires Trimmed(a, b)
    ensures b.Keys <= a.Keys
  {
  }

  lemma CountPositive(n: nat, ns: Nodes, seg: Segs, roots: Roots, extra: multiset<Ptr>, p: Ptr)
    requires p in ns && Consistent(n, ns, seg, roots, extra + multiset{p})
    ensures ns[p].refcnt >= 1
  {
  }

  lemma PendingIn(n: nat, ns: Nodes, seg: Segs, roots: Roots, extra: multiset<Ptr>, p: Ptr)
    requires Consistent(n, ns, seg, roots, extra)
    ensures p in extra ==> p in ns
  {
  }
}
