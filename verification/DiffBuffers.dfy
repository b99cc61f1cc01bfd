/**
 Diff buffers: records appended with a (possibly negated) time stamp, sorted by (type, address, time)
 and collapsed to one record per address.
 */
module DiffBuffers {
  import opened Values
  import opened Diffs

  datatype Node = Node(kind: int, addr: nat, time: int, arg: Arg)

  /** The order `_cesk_diff_buffer_cmp` sorts by. */
  predicate Precedes(a: Node, b: Node) {
    || a.kind < b.kind
    || (a.kind == b.kind && (a.addr < b.addr || (a.addr == b.addr && a.time <= b.time)))
  }

  ghost predicate Sorted(ns: seq<Node>) {
    forall i, j :: 0 <= i < j < |ns| ==> Precedes(ns[i], ns[j])
  }

  ghost predicate WellFormed(ns: seq<Node>) {
    forall i :: 0 <= i < |ns| ==> 0 <= ns[i].kind < NTYPES && ns[i].addr < NULL_ADDR
  }

  /** The library sort, as an insertion sort: the comparison is total, so the result is the same. */
  method Sort(ns: seq<Node>) returns (r: seq<Node>)
    ensures Sorted(r) && multiset(r) == multiset(ns)
  {
    r := [];
    for i := 0 to |ns|
      invariant Sorted(r) && multiset(r) == multiset(ns[..i])
    {
      var k := |r|;
      while k > 0 && !Precedes(r[k - 1], ns[i])
        invariant 0 <= k <= |r|
        invariant forall j :: k <= j < |r| ==> !Precedes(r[j], ns[i])
      {
        k := k - 1;
      }
      assert ns[..i + 1] == ns[..i] + [ns[i]];
      InsertedSorted(r, k, ns[i]);
      assert r == r[..k] + r[k..];
      r := r[..k] + [ns[i]] + r[k..];
    }
    assert ns[..|ns|] == ns;
  }

  lemma InsertedSorted(r: seq<Node>, k: int, n: Node)
    requires Sorted(r) && 0 <= k <= |r|
    requires k > 0 ==> Precedes(r[k - 1], n)
    requires forall j :: k <= j < |r| ==> !Precedes(r[j], n)
    ensures Sorted(r[..k] + [n] + r[k..])
  {
    forall j | 0 <= j < k
      ensures Precedes(r[j], n)
    {
      assert j < k - 1 ==> Precedes(r[j], r[k - 1]);
    }
  }

  // ---------- collapsing ----------

  /** A REUSE argument as a truth value: a missing one is false. */
  predicate Flag(arg: Arg) {
    match arg
    case NoArg => false
    case FlagArg(f) => f
    case _ => true
  }

  /** What a further record of the same address does to the record being built. */
  function Combine(kind: int, merge: bool, acc: Arg, arg: Arg): Arg {
    if kind == DEALLOC then acc
    else if !merge || kind == ALLOC then arg
    else if kind == REUSE then FlagArg(Flag(acc) || Flag(arg))
    else
      match (acc, arg)
      case (SetArg(a), SetArg(b)) => SetArg(Join(a, b))
      case (ValueArg(SetValue(a)), ValueArg(SetValue(b))) => ValueArg(SetValue(Join(a, b)))
      case (ValueArg(ObjectValue(ms, t)), ValueArg(ObjectValue(_, u))) => ValueArg(ObjectValue(ms, t + u))
      case _ => acc
  }

  /** One record per run of equal addresses. */
  function Collapse(ns: seq<Node>, merge: bool): seq<Rec> {
    if ns == [] then []
    else
      var front, n := Collapse(ns[..|ns| - 1], merge), ns[|ns| - 1];
      if front != [] && front[|front| - 1].addr == n.addr then
        front[|front| - 1 := Rec(n.addr, Combine(n.kind, merge, front[|front| - 1].arg, n.arg))]
      else
        front + [Rec(n.addr, n.arg)]
  }

  /** The number of runs of equal (type, address) pairs. */
  function Groups(ns: seq<Node>): nat {
    if ns == [] then 0
    else
      var n := |ns| - 1;
      Groups(ns[..n]) + if n > 0 && ns[n - 1].kind == ns[n].kind && ns[n - 1].addr == ns[n].addr then 0 else 1
  }

  lemma {:induction false} CollapseEnds(ns: seq<Node>, merge: bool)
    requires ns != []
    ensures Collapse(ns, merge) != [] && Collapse(ns, merge)[|Collapse(ns, merge)| - 1].addr == ns[|ns| - 1].addr
  {
  }

  lemma {:induction false} GroupsGrow(ns: seq<Node>, i: nat)
    requires i <= |ns|
    ensures Groups(ns[..i]) <= Groups(ns)
  {
    if i == |ns| {
      assert ns[..i] == ns;
    } else {
      GroupsGrow(ns[..|ns| - 1], i);
      assert ns[..|ns| - 1][..i] == ns[..i];
    }
  }

  /** The sizing scan of the sorted buffer. */
  method CountGroups(ns: seq<Node>) returns (size: nat)
    requires WellFormed(ns)
    ensures size == Groups(ns)
  {
    size := 0;
    var prevKind, prevAddr := 0, NULL_ADDR;
    for i := 0 to |ns|
      invariant size == Groups(ns[..i])
      invariant if i == 0 then prevAddr == NULL_ADDR else prevKind == ns[i - 1].kind && prevAddr == ns[i - 1].addr
    {
      assert ns[..i + 1][..i] == ns[..i];
      if prevKind != ns[i].kind || prevAddr != ns[i].addr {
        size := size + 1;
      }
      prevKind, prevAddr := ns[i].kind, ns[i].addr;
    }
    assert ns[..|ns|] == ns;
  }

  lemma CollapseStep(ns: seq<Node>, from: nat, to: nat, merge: bool)
    requires from <= to < |ns|
    ensures from == to ==> Collapse(ns[from..to + 1], merge) == [Rec(ns[to].addr, ns[to].arg)]
    ensures from < to ==>
        var out := Collapse(ns[from..to], merge);
        && out != [] && out[|out| - 1].addr == ns[to - 1].addr
        && Collapse(ns[from..to + 1], merge) ==
           if ns[to - 1].addr == ns[to].addr
           then out[|out| - 1 := Rec(ns[to].addr, Combine(ns[to].kind, merge, out[|out| - 1].arg, ns[to].arg))]
           else out + [Rec(ns[to].addr, ns[to].arg)]
  {
    assert ns[from..to + 1][..to - from] == ns[from..to];
    if from < to {
      CollapseEnds(ns[from..to], merge);
    }
  }

  lemma GroupsStep(ns: seq<Node>, i: nat)
    requires i < |ns|
    ensures Groups(ns[..i + 1]) ==
        Groups(ns[..i]) + if i > 0 && ns[i - 1].kind == ns[i].kind && ns[i - 1].addr == ns[i].addr then 0 else 1
    ensures Groups(ns[..i + 1]) <= Groups(ns)
  {
    GroupsGrow(ns, i + 1);
    assert ns[..i + 1][..i] == ns[..i];
  }

  /** Starts a new record behind those of the current section. */
  method Add(buf: array<Rec>, begin: nat, end: nat, ghost out: seq<Rec>, n: Node, merge: bool)
    requires begin + |out| == end < buf.Length && buf[begin..end] == out && (out != [] ==> out[|out| - 1].addr != n.addr)
    modifies buf
    ensures buf[begin..end + 1] == Extended(out, n, merge) && buf[..begin] == old(buf[..begin])
  {
    buf[end] := Rec(n.addr, n.arg);
  }

  /** Combines a further record of the same address with the last one. */
  method Replace(buf: array<Rec>, begin: nat, end: nat, ghost out: seq<Rec>, n: Node, merge: bool)
    requires out != [] && begin + |out| - 1 == end < buf.Length && buf[begin..end + 1] == out && out[|out| - 1].addr == n.addr
    modifies buf
    ensures buf[begin..end + 1] == Extended(out, n, merge) && buf[..begin] == old(buf[..begin])
  {
    hide Combine;
    assert buf[end] == out[|out| - 1];
    buf[end] := Rec(n.addr, Combine(n.kind, merge, buf[end].arg, n.arg));
    assert buf[begin..end] == out[..|out| - 1];
  }

  /** Collapses the records of type `s` that start at `from` into `buf`, from `begin` on. */
  method CollapseSection(ns: seq<Node>, s: int, from: nat, merge: bool, buf: array<Rec>, begin: nat) returns (to: nat, end: nat)
    requires from <= |ns| && Groups(ns) <= buf.Length && begin == Groups(ns[..from])
    requires from > 0 ==> ns[from - 1].kind != s
    modifies buf
    ensures from <= to <= |ns| && (forall j :: from <= j < to ==> ns[j].kind == s) && (to < |ns| ==> ns[to].kind != s)
    ensures begin <= end == Groups(ns[..to]) <= buf.Length
    ensures buf[begin..end] == Collapse(ns[from..to], merge) && buf[..begin] == old(buf[..begin])
  {
    hide Progress, Groups, Collapse, Combine, Extended;
    to := from;
    end := begin;
    var first, prevAddr := true, NULL_ADDR;
    ghost var out := [];
    ProgressNone(ns, s, from, merge, begin);
    while to < |ns| && ns[to].kind == s
      invariant from <= to <= |ns| && Progress(ns, s, from, to, merge, begin, out)
      invariant first <==> out == []
      invariant !first ==> prevAddr == out[|out| - 1].addr
      invariant end == begin + (if first then 0 else |out| - 1) && begin + |out| <= buf.Length
      invariant buf[begin..begin + |out|] == out && buf[..begin] == old(buf[..begin])
    {
      var n := ns[to];
      Progresses(ns, s, from, to, merge, begin, out);
      if !first && prevAddr == n.addr {
        Replace(buf, begin, end, out, n, merge);
      } else {
        end := if first then end else end + 1;
        Add(buf, begin, end, out, n, merge);
      }
      out := Extended(out, n, merge);
      prevAddr := n.addr;
      first := false;
      to := to + 1;
    }
    if !first {
      end := end + 1;
    }
    ProgressDone(ns, s, from, to, merge, begin, out);
  }

  /** The collapse of a run, extended by one more node. */
  function Extended(out: seq<Rec>, n: Node, merge: bool): seq<Rec> {
    if out != [] && out[|out| - 1].addr == n.addr
    then out[|out| - 1 := Rec(n.addr, Combine(n.kind, merge, out[|out| - 1].arg, n.arg))]
    else out + [Rec(n.addr, n.arg)]
  }

  /** `out` is the collapse of the nodes from `from` to `to`, which all have type `s`, and the groups so far are counted. */
  ghost predicate Progress(ns: seq<Node>, s: int, from: nat, to: nat, merge: bool, begin: nat, out: seq<Rec>) {
    && from <= to <= |ns| && (forall j :: from <= j < to ==> ns[j].kind == s) && out == Collapse(ns[from..to], merge)
    && (from < to ==> out != [] && out[|out| - 1].addr == ns[to - 1].addr) && (from > 0 ==> ns[from - 1].kind != s)
    && begin + |out| == Groups(ns[..to]) <= Groups(ns)
  }

  lemma ProgressNone(ns: seq<Node>, s: int, from: nat, merge: bool, begin: nat)
    requires from <= |ns| && begin == Groups(ns[..from]) && (from > 0 ==> ns[from - 1].kind != s)
    ensures Progress(ns, s, from, from, merge, begin, []) && begin <= Groups(ns)
  {
    hide Groups;
    GroupsGrow(ns, from);
    assert ns[from..from] == [];
  }

  lemma Progresses(ns: seq<Node>, s: int, from: nat, to: nat, merge: bool, begin: nat, out: seq<Rec>)
    requires Progress(ns, s, from, to, merge, begin, out) && to < |ns| && ns[to].kind == s
    ensures Progress(ns, s, from, to + 1, merge, begin, Extended(out, ns[to], merge))
    ensures var next := Extended(out, ns[to], merge);
            && begin + |next| <= Groups(ns) && next != [] && next[|next| - 1].addr == ns[to].addr
            && |next| == if out != [] && out[|out| - 1].addr == ns[to].addr then |out| else |out| + 1
  {
    hide Groups, Collapse, Combine;
    GroupsStep(ns, to);
    CollapseStep(ns, from, to, merge);
    if from == to {
      assert ns[from..to] == [];
      CollapseNone(merge);
    }
  }

  lemma ProgressDone(ns: seq<Node>, s: int, from: nat, to: nat, merge: bool, begin: nat, out: seq<Rec>)
    requires Progress(ns, s, from, to, merge, begin, out)
    ensures (forall j :: from <= j < to ==> ns[j].kind == s) && out == Collapse(ns[from..to], merge) && begin + |out| == Groups(ns[..to])
  {
  }

  lemma CollapseNone(merge: bool)
    ensures Collapse([], merge) == []
  {
  }

  // ---------- building the diff ----------

  /** The nodes of type `s`, in order. */
  function OfKind(ns: seq<Node>, s: int): seq<Node> {
    if ns == [] then []
    else OfKind(ns[..|ns| - 1], s) + if ns[|ns| - 1].kind == s then [ns[|ns| - 1]] else []
  }

  lemma {:induction false} OfKindSlice(ns: seq<Node>, s: int, from: nat, to: nat)
    requires from <= to <= |ns| && (forall j :: 0 <= j < |ns| ==> (ns[j].kind == s <==> from <= j < to))
    ensures OfKind(ns, s) == ns[from..to]
  {
    if ns != [] {
      var n := |ns| - 1;
      if to <= n {
        OfKindSlice(ns[..n], s, from, to);
        assert ns[..n][from..to] == ns[from..to];
      } else if from <= n {
        OfKindSlice(ns[..n], s, from, n);
        assert ns[..n][from..n] + [ns[n]] == ns[from..to];
      } else {
        OfKindSlice(ns[..n], s, n, n);
      }
    }
  }

  lemma {:induction false} CollapseWellFormed(ns: seq<Node>, s: int, merge: bool)
    requires Sorted(ns) && WellFormed(ns) && forall i :: 0 <= i < |ns| ==> ns[i].kind == s
    ensures WellFormedSection(Collapse(ns, merge))
  {
    if ns != [] {
      var n := |ns| - 1;
      CollapseWellFormed(ns[..n], s, merge);
      if n > 0 {
        CollapseEnds(ns[..n], merge);
        assert Precedes(ns[n - 1], ns[n]);
      }
    }
  }

  lemma CollapsedWellFormed(ns: seq<Node>, merge: bool, s: int)
    requires Sorted(ns) && WellFormed(ns)
    ensures WellFormedSection(Collapse(OfKind(ns, s), merge))
  {
    KindIsSorted(ns, s);
    CollapseWellFormed(OfKind(ns, s), s, merge);
  }

  lemma {:induction false} KindIsSorted(ns: seq<Node>, s: int)
    requires Sorted(ns) && WellFormed(ns)
    ensures Sorted(OfKind(ns, s)) && WellFormed(OfKind(ns, s))
    ensures forall i :: 0 <= i < |OfKind(ns, s)| ==> OfKind(ns, s)[i].kind == s && OfKind(ns, s)[i] in ns
  {
    if ns != [] {
      var n := |ns| - 1;
      KindIsSorted(ns[..n], s);
      var front := OfKind(ns[..n], s);
      forall i | 0 <= i < |front|
        ensures Precedes(front[i], ns[n])
      {
        var j :| 0 <= j < n && ns[..n][j] == front[i];
        assert Precedes(ns[j], ns[n]);
      }
    }
  }

  /** Collapses section `s` and appends it to the sections built so far. */
  method AppendSection(ns: seq<Node>, s: int, from: nat, merge: bool, buf: array<Rec>, offs: seq<int>, ghost outs: seq<seq<Rec>>)
      returns (to: nat, end: nat, ghost out: seq<Rec>)
    requires Sorted(ns) && from <= |ns| && Groups(ns) <= buf.Length
    requires (forall j :: 0 <= j < from ==> ns[j].kind < s) && (forall j :: from <= j < |ns| ==> ns[j].kind >= s)
    requires 0 <= s == |outs| && |offs| == s + 1 && offs[s] == Groups(ns[..from]) && Packed(offs, buf[..], outs)
    modifies buf
    ensures from <= to <= |ns| && end == Groups(ns[..to])
    ensures (forall j :: 0 <= j < to ==> ns[j].kind < s + 1) && (forall j :: to <= j < |ns| ==> ns[j].kind >= s + 1)
    ensures Packed(offs + [end], buf[..], outs + [out]) && out == Collapse(OfKind(ns, s), merge)
  {
    hide Groups, Collapse, OfKind, Packed;
    ghost var before := buf[..];
    to, end := CollapseSection(ns, s, from, merge, buf, offs[s]);
    out := buf[offs[s]..end];
    if to < |ns| {
      forall j | to < j < |ns|
        ensures ns[j].kind >= s + 1
      {
        assert Precedes(ns[to], ns[j]);
      }
    }
    OfKindSlice(ns, s, from, to);
    assert buf[..][offs[s]..end] == out;
    assert buf[..][..offs[s]] == before[..offs[s]];
    PackNext(offs, before, buf[..], outs, end);
  }

  lemma NoGroups(ns: seq<Node>)
    ensures Groups(ns[..0]) == 0
  {
  }

  /** Collapses the sections one after the other. */
  method CollapseSections(ns: seq<Node>, merge: bool, buf: array<Rec>) returns (offs: seq<int>, ghost outs: seq<seq<Rec>>)
    requires Sorted(ns) && WellFormed(ns) && Groups(ns) == buf.Length
    modifies buf
    ensures |offs| == NTYPES + 1 && offs[NTYPES] == buf.Length
    ensures |outs| == NTYPES && Packed(offs, buf[..], outs)
    ensures forall t :: 0 <= t < NTYPES ==> outs[t] == Collapse(OfKind(ns, t), merge)
  {
    hide Groups, Collapse, OfKind, Packed, Sorted;
    offs, outs := [0], [];
    var from := 0;
    PackedNone(buf[..]);
    NoGroups(ns);
    for s := 0 to NTYPES
      invariant 0 <= from <= |ns| && (from < |ns| ==> ns[from].kind >= s)
      invariant (forall j :: 0 <= j < from ==> ns[j].kind < s) && (forall j :: from <= j < |ns| ==> ns[j].kind >= s)
      invariant |offs| == s + 1 && offs[s] == Groups(ns[..from])
      invariant |outs| == s && Packed(offs, buf[..], outs)
      invariant forall t :: 0 <= t < s ==> outs[t] == Collapse(OfKind(ns, t), merge)
    {
      var to, end, out := AppendSection(ns, s, from, merge, buf, offs, outs);
      offs, outs, from := offs + [end], outs + [out], to;
    }
    assert ns[..from] == ns;
  }

  lemma CollapsedLayout(ns: seq<Node>, merge: bool, offs: seq<int>, data: seq<Rec>, outs: seq<seq<Rec>>)
    requires Sorted(ns) && WellFormed(ns) && |outs| == NTYPES && Packed(offs, data, outs)
    requires forall t :: 0 <= t < NTYPES ==> outs[t] == Collapse(OfKind(ns, t), merge)
    ensures Layout(offs, data).Valid() && offs[0] == 0
    ensures forall s :: 0 <= s < NTYPES ==> Layout(offs, data).Section(s) == Collapse(OfKind(ns, s), merge)
  {
    hide Collapse, OfKind, Sorted;
    forall t | 0 <= t < NTYPES
      ensures WellFormedSection(outs[t])
    {
      CollapsedWellFormed(ns, merge, t);
    }
    PackedLayout(offs, data, outs);
  }

  class Buffer {
    var nodes: seq<Node>
    var converted: nat
    const reverse: bool
    const merge: bool

    constructor (reverse: bool, merge: bool)
      ensures nodes == [] && converted == 0 && this.reverse == reverse && this.merge == merge
    {
      nodes, converted := [], 0;
      this.reverse, this.merge := reverse, merge;
    }

    /** Appends a record; only REUSE and DEALLOC records may come without a value. */
    method Append(kind: int, addr: nat, arg: Arg) returns (ok: bool)
      modifies this
      ensures ok <==> kind == DEALLOC || kind == REUSE || arg != NoArg
      ensures converted == old(converted)
      ensures nodes == if !ok then old(nodes) else
          old(nodes) + [Node(kind, addr, Stamp(reverse, |old(nodes)|), if kind == DEALLOC then NoArg else arg)]
    {
      var value := arg;
      if kind == DEALLOC {
        value := NoArg;
      } else if kind != REUSE && arg == NoArg {
        return false;
      }
      var time: int := |nodes|;
      if reverse {
        time := -time;
      }
      nodes := nodes + [Node(kind, addr, time, value)];
      return true;
    }

    /**
     Sorts and collapses the buffer, once. Section `s` of the result is the collapse of the type `s`
     records in sorted order, and the sizing scan counted exactly the records written.
     */
    method ToDiff() returns (ret: Diff?)
      requires WellFormed(nodes)
      modifies this
      ensures old(converted) != 0 ==> ret == null && nodes == old(nodes) && converted == old(converted)
      ensures old(converted) == 0 ==> ret != null && fresh(ret) && converted == |nodes|
      ensures old(converted) == 0 ==> Sorted(nodes) && multiset(nodes) == multiset(old(nodes))
      ensures old(converted) == 0 ==>
          forall s :: 0 <= s < NTYPES ==> ret.Section(s) == Collapse(OfKind(nodes, s), merge)
      ensures old(converted) == 0 ==> ret.pkg.offset[0] == 0 && ret.pkg.offset[NTYPES] == |ret.pkg.data|
    {
      if converted != 0 {
        return null;
      }
      var ns := Sort(nodes);
      SameElements(nodes, ns);
      nodes := ns;
      var size := CountGroups(ns);
      var buf := new Rec[size];
      var offs, outs := CollapseSections(ns, merge, buf);
      CollapsedLayout(ns, merge, offs, buf[..], outs);
      converted := |ns|;
      ret := new Diff(Layout(offs, buf[..]));
    }
  }

  function Stamp(reverse: bool, i: nat): int {
    if reverse then 0 - i else i
  }

  lemma SameElements(xs: seq<Node>, ys: seq<Node>)
    requires multiset(xs) == multiset(ys)
    ensures forall n :: n in xs <==> n in ys
    ensures WellFormed(xs) ==> WellFormed(ys)
  {
    forall n
      ensures n in xs <==> n in ys
    {
      assert n in xs <==> n in multiset(xs);
      assert n in ys <==> n in multiset(ys);
    }
    if WellFormed(xs) {
      forall i | 0 <= i < |ys|
        ensures 0 <= ys[i].kind < NTYPES && ys[i].addr < NULL_ADDR
      {
        assert ys[i] in xs;
      }
    }
  }

  // ---------- sorting and collapsing is replaying in time order ----------

  function AsRecs(ns: seq<Node>): (r: seq<Rec>)
    ensures |r| == |ns| && forall i :: 0 <= i < |ns| ==> r[i] == Rec(ns[i].addr, ns[i].arg)
  {
    seq(|ns|, i requires 0 <= i < |ns| => Rec(ns[i].addr, ns[i].arg))
  }

  function Reversed(ns: seq<Node>): (r: seq<Node>)
    ensures |r| == |ns| && forall i :: 0 <= i < |ns| ==> r[i] == ns[|ns| - 1 - i]
  {
    seq(|ns|, i requires 0 <= i < |ns| => ns[|ns| - 1 - i])
  }

  /** The order in which a buffer's records take effect: a reverse buffer undoes its log backwards. */
  function InTimeOrder(log: seq<Node>, reverse: bool): seq<Node> {
    if reverse then Reversed(log) else log
  }

  /** What appending leaves in a buffer: the record at position i carries the stamp of i. */
  ghost predicate Stamped(log: seq<Node>, reverse: bool) {
    forall i :: 0 <= i < |log| ==> log[i].time == Stamp(reverse, i)
  }

  lemma RecsSnoc(ns: seq<Node>)
    requires ns != []
    ensures Writes(AsRecs(ns)) == Writes(AsRecs(ns[..|ns| - 1]))[ns[|ns| - 1].addr := ns[|ns| - 1].arg]
  {
    assert AsRecs(ns)[..|ns| - 1] == AsRecs(ns[..|ns| - 1]);
  }

  lemma {:induction false} CollapseLastWins(ns: seq<Node>, s: int)
    requires s != DEALLOC && forall i :: 0 <= i < |ns| ==> ns[i].kind == s
    ensures Writes(Collapse(ns, false)) == Writes(AsRecs(ns))
  {
    if ns != [] {
      var k := |ns| - 1;
      CollapseLastWins(ns[..k], s);
      RecsSnoc(ns);
      CollapseWrites(ns, false);
    }
  }

  /** Along `ns`, records of the same address appear in time order. */
  ghost predicate Chronological(ns: seq<Node>) {
    forall i, j :: 0 <= i < j < |ns| && ns[i].addr == ns[j].addr ==> ns[i].time <= ns[j].time
  }

  ghost predicate TimesIdentify(ns: seq<Node>) {
    forall m, n :: m in ns && n in ns && m.time == n.time ==> m == n
  }

  lemma {:induction false} FindLatest(ns: seq<Node>, a: nat) returns (n: Node)
    requires Chronological(ns) && a in Writes(AsRecs(ns))
    ensures n in ns && n.addr == a && Writes(AsRecs(ns))[a] == n.arg
    ensures forall m :: m in ns && m.addr == a ==> m.time <= n.time
  {
    var k := |ns| - 1;
    if ns != [] {
      RecsSnoc(ns);
      if ns[k].addr == a {
        n := ns[k];
      } else {
        n := FindLatest(ns[..k], a);
        assert forall m :: m in ns && m.addr == a ==> m in ns[..k];
      }
    }
  }

  lemma RecsKeys(ns: seq<Node>, a: nat)
    ensures a in Writes(AsRecs(ns)) <==> exists n :: n in ns && n.addr == a
  {
    WritesKeys(AsRecs(ns));
    if a in Addrs(AsRecs(ns)) {
      var i :| 0 <= i < |ns| && AsRecs(ns)[i].addr == a;
      assert ns[i] in ns;
    }
    if exists n :: n in ns && n.addr == a {
      var i :| 0 <= i < |ns| && ns[i].addr == a;
      assert AsRecs(ns)[i] in AsRecs(ns);
    }
  }

  /** Two chronological orders of the same records have the same effect. */
  lemma SameEffect(xs: seq<Node>, ys: seq<Node>)
    requires Chronological(xs) && Chronological(ys) && TimesIdentify(xs)
    requires forall n :: n in xs <==> n in ys
    ensures Writes(AsRecs(xs)) == Writes(AsRecs(ys))
  {
    forall a: nat
      ensures a in Writes(AsRecs(xs)) <==> a in Writes(AsRecs(ys))
      ensures a in Writes(AsRecs(xs)) ==> Writes(AsRecs(xs))[a] == Writes(AsRecs(ys))[a]
    {
      RecsKeys(xs, a);
      RecsKeys(ys, a);
      if a in Writes(AsRecs(xs)) {
        var m := FindLatest(xs, a);
        var n := FindLatest(ys, a);
        assert m.time == n.time;
      }
    }
  }

  lemma {:induction false} InKind(ns: seq<Node>, s: int, n: Node)
    ensures n in OfKind(ns, s) <==> n in ns && n.kind == s
  {
    if ns != [] {
      InKind(ns[..|ns| - 1], s, n);
      assert ns == ns[..|ns| - 1] + [ns[|ns| - 1]];
    }
  }

  lemma {:induction false} KindChronological(ns: seq<Node>, s: int)
    requires forall i, j :: 0 <= i < j < |ns| && ns[i].kind == ns[j].kind == s && ns[i].addr == ns[j].addr ==>
        ns[i].time <= ns[j].time
    ensures Chronological(OfKind(ns, s))
  {
    if ns != [] {
      var k := |ns| - 1;
      KindChronological(ns[..k], s);
      var front := OfKind(ns[..k], s);
      forall i | 0 <= i < |front| && ns[k].kind == s && front[i].addr == ns[k].addr
        ensures front[i].time <= ns[k].time
      {
        InKind(ns[..k], s, front[i]);
        var j :| 0 <= j < k && ns[..k][j] == front[i];
        assert ns[j].kind == s;
      }
    }
  }

  lemma LogOrder(log: seq<Node>, reverse: bool, s: int)
    requires Stamped(log, reverse)
    ensures Chronological(OfKind(InTimeOrder(log, reverse), s)) && TimesIdentify(log)
    ensures forall n :: n in InTimeOrder(log, reverse) <==> n in log
  {
    var order := InTimeOrder(log, reverse);
    KindChronological(order, s);
    if reverse {
      forall n | n in log
        ensures n in order
      {
        var i :| 0 <= i < |log| && log[i] == n;
        assert order[|log| - 1 - i] == n;
      }
    }
  }

  /**
   Sorting by (type, address, signed time) and keeping the last record of each address has the effect
   of performing the buffer's records one by one: in append order for a forward buffer, backwards for
   a reverse one.
   */
  lemma CollapseIsReplay(log: seq<Node>, reverse: bool, ns: seq<Node>, s: int, cells: Cells)
    requires Stamped(log, reverse) && Sorted(ns) && multiset(ns) == multiset(log) && s != DEALLOC
    ensures Replay(cells, Collapse(OfKind(ns, s), false)) == Replay(cells, AsRecs(OfKind(InTimeOrder(log, reverse), s)))
  {
    var xs, ys := OfKind(ns, s), OfKind(InTimeOrder(log, reverse), s);
    LogOrder(log, reverse, s);
    SameElements(ns, log);
    forall n
      ensures n in xs <==> n in ns && n.kind == s
      ensures n in ys <==> n in InTimeOrder(log, reverse) && n.kind == s
    {
      InKind(ns, s, n);
      InKind(InTimeOrder(log, reverse), s, n);
    }
    assert Chronological(xs) by {
      assert forall i, j :: 0 <= i < j < |ns| ==> Precedes(ns[i], ns[j]);
      KindChronological(ns, s);
    }
    hide Sorted, OfKind, Chronological;
    assert TimesIdentify(xs);
    SameEffect(xs, ys);
    CollapseLastWins(xs, s);
    ReplayIsOverlay(cells, Collapse(xs, false));
    ReplayIsOverlay(cells, AsRecs(ys));
  }

  // ---------- a merging buffer joins ----------

  /** A register record, or a store record for a set cell. */
  predicate SetLike(n: Node) {
    || (n.kind == REG && n.arg.SetArg?)
    || (n.kind == STORE && n.arg.ValueArg? && n.arg.cell.SetValue?)
  }

  function ContentsOf(arg: Arg): AddrSet {
    match arg
    case SetArg(c) => c
    case ValueArg(SetValue(c)) => c
    case _ => EMPTY_SET
  }

  /** The join of everything the records say about address `a`. */
  function JoinAt(ns: seq<Node>, a: nat): AddrSet {
    if ns == [] then EMPTY_SET
    else
      var front, n := JoinAt(ns[..|ns| - 1], a), ns[|ns| - 1];
      if n.addr == a then Join(front, ContentsOf(n.arg)) else front
  }

  lemma {:induction false} JoinAtMembers(ns: seq<Node>, a: nat)
    ensures forall x :: x in JoinAt(ns, a).addrs <==> exists n :: n in ns && n.addr == a && x in ContentsOf(n.arg).addrs
    ensures forall t :: t in JoinAt(ns, a).tags <==> exists n :: n in ns && n.addr == a && t in ContentsOf(n.arg).tags
  {
    if ns != [] {
      var k := |ns| - 1;
      JoinAtMembers(ns[..k], a);
      assert ns[k] in ns && forall n :: n in ns <==> n in ns[..k] || n == ns[k];
    }
  }

  lemma JoinAtOrderFree(xs: seq<Node>, ys: seq<Node>, a: nat)
    requires forall n :: n in xs <==> n in ys
    ensures JoinAt(xs, a) == JoinAt(ys, a)
  {
    JoinAtMembers(xs, a);
    JoinAtMembers(ys, a);
    assert JoinAt(xs, a).addrs == JoinAt(ys, a).addrs;
    assert JoinAt(xs, a).tags == JoinAt(ys, a).tags;
  }

  lemma JoinAtSnoc(ns: seq<Node>, a: nat)
    requires ns != []
    ensures JoinAt(ns, a) ==
        var front, n := JoinAt(ns[..|ns| - 1], a), ns[|ns| - 1];
        if n.addr == a then Join(front, ContentsOf(n.arg)) else front
  {
  }

  lemma WritesLast(recs: seq<Rec>)
    requires recs != []
    ensures recs[|recs| - 1].addr in Writes(recs) && Writes(recs)[recs[|recs| - 1].addr] == recs[|recs| - 1].arg
  {
  }

  lemma {:induction false} JoinAtNone(ns: seq<Node>, a: nat)
    requires forall n :: n in ns ==> n.addr != a
    ensures JoinAt(ns, a) == EMPTY_SET
  {
    if ns != [] {
      assert ns[|ns| - 1] in ns;
      JoinAtNone(ns[..|ns| - 1], a);
    }
  }

  /** What the last node does to the writes of the collapse. */
  lemma CollapseWrites(ns: seq<Node>, merge: bool)
    requires ns != []
    ensures var n, front := ns[|ns| - 1], Collapse(ns[..|ns| - 1], merge);
            Writes(Collapse(ns, merge)) == Writes(front)[n.addr :=
              if front != [] && front[|front| - 1].addr == n.addr
              then Combine(n.kind, merge, front[|front| - 1].arg, n.arg) else n.arg]
  {
    hide Combine, Writes;
    var n, front := ns[|ns| - 1], Collapse(ns[..|ns| - 1], merge);
    if front != [] && front[|front| - 1].addr == n.addr {
      WritesReplaceLast(front, Rec(n.addr, Combine(n.kind, merge, front[|front| - 1].arg, n.arg)));
    } else {
      WritesSnoc(front, Rec(n.addr, n.arg));
    }
  }

  lemma {:induction false} CollapseKeys(ns: seq<Node>, merge: bool, a: nat)
    ensures a in Writes(Collapse(ns, merge)) <==> exists n :: n in ns && n.addr == a
  {
    if ns != [] {
      var k := |ns| - 1;
      CollapseWrites(ns, merge);
      CollapseKeys(ns[..k], merge, a);
      hide Collapse;
      assert ns[k] in ns && forall m :: m in ns <==> m in ns[..k] || m == ns[k];
    }
  }

  lemma LastBefore(ns: seq<Node>, k: int, m: Node)
    requires Sorted(ns) && 0 < k < |ns| && m in ns[..k] && ns[k - 1].kind == ns[k].kind == m.kind
    ensures m.addr == ns[k].addr ==> ns[k - 1].addr == ns[k].addr
  {
    var j :| 0 <= j < k && ns[..k][j] == m;
    assert Precedes(ns[k - 1], ns[k]);
    assert j < k - 1 ==> Precedes(ns[j], ns[k - 1]);
  }

  /** The records of address `a`, combined one after the other. */
  function FoldAt(ns: seq<Node>, merge: bool, a: nat): Option<Arg> {
    if ns == [] then None
    else
      var front, n := FoldAt(ns[..|ns| - 1], merge, a), ns[|ns| - 1];
      if n.addr != a then front
      else if front.None? then Some(n.arg)
      else Some(Combine(n.kind, merge, front.value, n.arg))
  }

  lemma FoldSnoc(ns: seq<Node>, merge: bool, a: nat)
    requires ns != []
    ensures FoldAt(ns, merge, a) ==
        var front, n := FoldAt(ns[..|ns| - 1], merge, a), ns[|ns| - 1];
        if n.addr != a then front else if front.None? then Some(n.arg) else Some(Combine(n.kind, merge, front.value, n.arg))
  {
  }

  lemma {:induction false} FoldSome(ns: seq<Node>, merge: bool, a: nat)
    ensures FoldAt(ns, merge, a).Some? <==> exists n :: n in ns && n.addr == a
  {
    if ns != [] {
      var k := |ns| - 1;
      FoldSome(ns[..k], merge, a);
      assert ns[k] in ns && forall n :: n in ns <==> n in ns[..k] || n == ns[k];
    }
  }

  /** Collapsing a sorted run of one type combines the records of each address. */
  lemma {:induction false} CollapseFolds(ns: seq<Node>, s: int, merge: bool, a: nat)
    requires Sorted(ns) && forall i :: 0 <= i < |ns| ==> ns[i].kind == s
    ensures FoldAt(ns, merge, a) == if a in Writes(Collapse(ns, merge)) then Some(Writes(Collapse(ns, merge))[a]) else None
  {
    if ns == [] {
      return;
    }
    hide Collapse, Writes, FoldAt, Combine;
    var k := |ns| - 1;
    var front, n := Collapse(ns[..k], merge), ns[k];
    CollapseWrites(ns, merge);
    FoldSnoc(ns, merge, a);
    CollapseFolds(ns[..k], s, merge, a);
    if n.addr == a {
      if front != [] && front[|front| - 1].addr == a {
        WritesLast(front);
      } else {
        FoldSome(ns[..k], merge, a);
        forall m | m in ns[..k]
          ensures m.addr != a
        {
          CollapseEnds(ns[..k], merge);
          LastBefore(ns, k, m);
        }
      }
    }
  }

  lemma LastIn(ns: seq<Node>)
    requires ns != []
    ensures ns[|ns| - 1] in ns && forall n :: n in ns <==> n in ns[..|ns| - 1] || n == ns[|ns| - 1]
  {
    assert ns == ns[..|ns| - 1] + [ns[|ns| - 1]];
  }

  lemma {:induction false} FoldJoins(ns: seq<Node>, a: nat)
    requires forall n :: n in ns && n.addr == a ==> SetLike(n)
    requires forall m, n :: m in ns && n in ns ==> m.kind == n.kind
    ensures FoldAt(ns, true, a).Some? ==> ContentsOf(FoldAt(ns, true, a).value) == JoinAt(ns, a)
    ensures FoldAt(ns, true, a).Some? ==> forall n :: n in ns ==> SetLike(Node(n.kind, a, 0, FoldAt(ns, true, a).value))
    ensures FoldAt(ns, true, a).None? ==> JoinAt(ns, a) == EMPTY_SET
  {
    if ns != [] {
      LastIn(ns);
      FoldJoins(ns[..|ns| - 1], a);
      hide SetLike;
      var k := |ns| - 1;
      if ns[k].addr == a && FoldAt(ns[..k], true, a).Some? {
        FoldSome(ns[..k], true, a);
        var m :| m in ns[..k] && m.addr == a;
        JoinSetLike(ns[k].kind, FoldAt(ns[..k], true, a).value, ns[k]);
      } else if ns[k].addr == a {
        JoinNothing(ContentsOf(ns[k].arg));
        SetLikeAt(ns[k]);
      }
    }
  }

  lemma SetLikeAt(n: Node)
    requires SetLike(n)
    ensures SetLike(Node(n.kind, n.addr, 0, n.arg))
  {
  }

  lemma JoinNothing(c: AddrSet)
    ensures Join(EMPTY_SET, c) == c
  {
  }

  lemma JoinSetLike(s: int, acc: Arg, n: Node)
    requires SetLike(Node(s, n.addr, 0, acc)) && SetLike(n) && n.kind == s
    ensures SetLike(Node(s, n.addr, 0, Combine(s, true, acc, n.arg)))
    ensures ContentsOf(Combine(s, true, acc, n.arg)) == Join(ContentsOf(acc), ContentsOf(n.arg))
  {
  }

  lemma {:induction false} FoldFlags(ns: seq<Node>, a: nat)
    requires forall n :: n in ns ==> n.kind == REUSE
    ensures FoldAt(ns, true, a).Some? ==> (Flag(FoldAt(ns, true, a).value) <==> exists n :: n in ns && n.addr == a && Flag(n.arg))
    ensures FoldAt(ns, true, a).None? ==> forall n :: n in ns ==> n.addr != a
  {
    if ns != [] {
      LastIn(ns);
      FoldFlags(ns[..|ns| - 1], a);
    }
  }

  /** A store record for an object. */
  predicate ObjectLike(n: Node) {
    n.kind == STORE && n.arg.ValueArg? && n.arg.cell.ObjectValue?
  }

  /** The record of this type and address with the least time. */
  ghost predicate Earliest(ns: seq<Node>, s: int, a: nat, n: Node) {
    n in ns && n.kind == s && n.addr == a && forall m :: m in ns && m.kind == s && m.addr == a ==> n.time <= m.time
  }

  ghost predicate Latest(ns: seq<Node>, s: int, a: nat, n: Node) {
    n in ns && n.kind == s && n.addr == a && forall m :: m in ns && m.kind == s && m.addr == a ==> m.time <= n.time
  }

  function MembersOf(arg: Arg): seq<nat> {
    match arg
    case ValueArg(ObjectValue(ms, _)) => ms
    case _ => []
  }

  function TagsOf(arg: Arg): set<Tag> {
    match arg
    case ValueArg(ObjectValue(_, ts)) => ts
    case _ => {}
  }

  lemma CombineObjects(acc: Arg, n: Node)
    requires ObjectLike(Node(STORE, n.addr, 0, acc)) && ObjectLike(n)
    ensures ObjectLike(Node(STORE, n.addr, 0, Combine(STORE, true, acc, n.arg)))
    ensures MembersOf(Combine(STORE, true, acc, n.arg)) == MembersOf(acc)
    ensures TagsOf(Combine(STORE, true, acc, n.arg)) == TagsOf(acc) + TagsOf(n.arg)
  {
  }

  lemma {:induction false} FoldObjects(ns: seq<Node>, a: nat)
    requires (forall n :: n in ns ==> n.kind == STORE) && (forall n :: n in ns && n.addr == a ==> ObjectLike(n))
    requires FoldAt(ns, true, a).Some?
    ensures ObjectLike(Node(STORE, a, 0, FoldAt(ns, true, a).value))
    ensures forall t :: t in TagsOf(FoldAt(ns, true, a).value) <==> exists n :: n in ns && n.addr == a && t in TagsOf(n.arg)
  {
    hide ObjectLike, Combine, TagsOf;
    if ns != [] {
      var k := |ns| - 1;
      LastIn(ns);
      if FoldAt(ns[..k], true, a).Some? {
        FoldObjects(ns[..k], a);
        if ns[k].addr == a {
          CombineObjects(FoldAt(ns[..k], true, a).value, ns[k]);
        }
      } else {
        FoldSome(ns[..k], true, a);
        ObjectLikeAt(ns[k]);
      }
    }
  }

  lemma ObjectLikeAt(n: Node)
    requires ObjectLike(n)
    ensures ObjectLike(Node(n.kind, n.addr, 0, n.arg))
  {
  }

  lemma {:induction false} FoldFirst(ns: seq<Node>, a: nat) returns (first: Node)
    requires Chronological(ns) && (forall n :: n in ns ==> n.kind == STORE) && (forall n :: n in ns && n.addr == a ==> ObjectLike(n))
    requires FoldAt(ns, true, a).Some?
    ensures Earliest(ns, STORE, a, first) && MembersOf(FoldAt(ns, true, a).value) == MembersOf(first.arg)
  {
    hide ObjectLike, Combine, MembersOf, TagsOf;
    var k := |ns| - 1;
    if ns != [] {
      LastIn(ns);
      FoldSome(ns[..k], true, a);
      if FoldAt(ns[..k], true, a).Some? {
        first := FoldFirst(ns[..k], a);
        if ns[k].addr == a {
          BeforeLast(ns, first);
          FoldObjects(ns[..k], a);
          CombineObjects(FoldAt(ns[..k], true, a).value, ns[k]);
        }
      } else {
        first := ns[k];
      }
    }
  }

  lemma BeforeLast(ns: seq<Node>, n: Node)
    requires ns != [] && Chronological(ns) && n in ns[..|ns| - 1] && n.addr == ns[|ns| - 1].addr
    ensures n.time <= ns[|ns| - 1].time
  {
    var i :| 0 <= i < |ns| - 1 && ns[..|ns| - 1][i] == n;
    assert ns[i] == n;
  }

  lemma {:induction false} FoldLast(ns: seq<Node>, merge: bool, s: int, a: nat) returns (last: Node)
    requires Chronological(ns) && (forall n :: n in ns ==> n.kind == s) && s != DEALLOC && (merge ==> s == ALLOC)
    requires exists n :: n in ns && n.addr == a
    ensures Latest(ns, s, a, last) && FoldAt(ns, merge, a) == Some(last.arg)
  {
    var k := |ns| - 1;
    if ns != [] {
      LastIn(ns);
      if ns[k].addr == a {
        last := ns[k];
        forall m | m in ns && m.addr == a
          ensures m.time <= last.time
        {
          if m in ns[..k] {
            BeforeLast(ns, m);
          }
        }
      } else {
        last := FoldLast(ns[..k], merge, s, a);
      }
    }
  }

  // ---------- what a merging buffer collapses to ----------

  /** The records of one type, sorted, are those logged; the collapse has a record for each of their addresses. */
  lemma SortedKind(log: seq<Node>, ns: seq<Node>, s: int)
    requires Sorted(ns) && WellFormed(ns) && multiset(ns) == multiset(log)
    ensures Sorted(OfKind(ns, s)) && Chronological(OfKind(ns, s))
    ensures forall n :: n in OfKind(ns, s) <==> n in log && n.kind == s
    ensures forall i :: 0 <= i < |OfKind(ns, s)| ==> OfKind(ns, s)[i].kind == s
  {
    SameElements(ns, log);
    KindIsSorted(ns, s);
    forall n
      ensures n in OfKind(ns, s) <==> n in log && n.kind == s
    {
      InKind(ns, s, n);
    }
    assert forall i, j :: 0 <= i < j < |ns| ==> Precedes(ns[i], ns[j]);
    KindChronological(ns, s);
  }

  /** The record of type `s` that a sorted buffer collapses to at address `a`. */
  function Collapsed(ns: seq<Node>, merge: bool, s: int, a: nat): Option<Arg> {
    var w := Writes(Collapse(OfKind(ns, s), merge));
    if a in w then Some(w[a]) else None
  }

  /** There is a record for exactly the addresses that were logged. */
  lemma CollapsedSome(log: seq<Node>, ns: seq<Node>, merge: bool, s: int, a: nat)
    requires Sorted(ns) && WellFormed(ns) && multiset(ns) == multiset(log)
    ensures Collapsed(ns, merge, s, a).Some? <==> exists n :: n in log && n.kind == s && n.addr == a
    ensures Collapsed(ns, merge, s, a) == FoldAt(OfKind(ns, s), merge, a)
  {
    hide Collapse, Sorted, FoldAt, OfKind, Writes;
    SortedKind(log, ns, s);
    CollapseKeys(OfKind(ns, s), merge, a);
    CollapseFolds(OfKind(ns, s), s, merge, a);
  }

  /** In a merging buffer the record for a set is the join of all records for its address, in any order. */
  lemma CollapseIsJoin(log: seq<Node>, ns: seq<Node>, s: int, a: nat)
    requires Sorted(ns) && WellFormed(ns) && multiset(ns) == multiset(log)
    requires forall n :: n in log && n.kind == s && n.addr == a ==> SetLike(n)
    requires exists n :: n in log && n.kind == s && n.addr == a
    ensures Collapsed(ns, true, s, a).Some? && SetLike(Node(s, a, 0, Collapsed(ns, true, s, a).value))
    ensures ContentsOf(Collapsed(ns, true, s, a).value) == JoinAt(OfKind(log, s), a)
  {
    hide Collapsed, OfKind, Sorted, JoinAt, SetLike, FoldAt;
    CollapsedSome(log, ns, true, s, a);
    SortedKind(log, ns, s);
    forall n
      ensures n in OfKind(log, s) <==> n in log && n.kind == s
    {
      InKind(log, s, n);
    }
    FoldJoins(OfKind(ns, s), a);
    JoinAtOrderFree(OfKind(ns, s), OfKind(log, s), a);
  }

  /** In a merging buffer an address is reused exactly if some record says so. */
  lemma CollapseIsAny(log: seq<Node>, ns: seq<Node>, a: nat)
    requires Sorted(ns) && WellFormed(ns) && multiset(ns) == multiset(log)
    requires exists n :: n in log && n.kind == REUSE && n.addr == a
    ensures Collapsed(ns, true, REUSE, a).Some?
    ensures Flag(Collapsed(ns, true, REUSE, a).value) <==> exists n :: n in log && n.kind == REUSE && n.addr == a && Flag(n.arg)
  {
    hide Collapsed, OfKind, Sorted, Flag, FoldAt;
    CollapsedSome(log, ns, true, REUSE, a);
    SortedKind(log, ns, REUSE);
    FoldFlags(OfKind(ns, REUSE), a);
  }

  /** In a merging buffer an object keeps the members of its earliest record and gets the tags of all. */
  lemma CollapseMergesTags(log: seq<Node>, ns: seq<Node>, a: nat) returns (first: Node)
    requires Sorted(ns) && WellFormed(ns) && multiset(ns) == multiset(log)
    requires forall n :: n in log && n.kind == STORE && n.addr == a ==> ObjectLike(n)
    requires exists n :: n in log && n.kind == STORE && n.addr == a
    ensures Earliest(log, STORE, a, first)
    ensures Collapsed(ns, true, STORE, a).Some? && ObjectLike(Node(STORE, a, 0, Collapsed(ns, true, STORE, a).value))
    ensures MembersOf(Collapsed(ns, true, STORE, a).value) == MembersOf(first.arg)
    ensures forall t :: t in TagsOf(Collapsed(ns, true, STORE, a).value) <==>
        exists n :: n in log && n.kind == STORE && n.addr == a && t in TagsOf(n.arg)
  {
    hide Collapsed, OfKind, Sorted, FoldAt, Chronological, ObjectLike, MembersOf, TagsOf;
    CollapsedSome(log, ns, true, STORE, a);
    SortedKind(log, ns, STORE);
    FoldObjects(OfKind(ns, STORE), a);
    first := FoldFirst(OfKind(ns, STORE), a);
  }

  /** An allocation record is the latest one, in a merging buffer too; so is any other in a buffer that does not merge. */
  lemma CollapseIsLatest(log: seq<Node>, ns: seq<Node>, merge: bool, s: int, a: nat) returns (last: Node)
    requires Sorted(ns) && WellFormed(ns) && multiset(ns) == multiset(log)
    requires s != DEALLOC && (merge ==> s == ALLOC) && exists n :: n in log && n.kind == s && n.addr == a
    ensures Latest(log, s, a, last) && Collapsed(ns, merge, s, a) == Some(last.arg)
  {
    hide Collapsed, OfKind, Sorted, FoldAt, Chronological;
    CollapsedSome(log, ns, merge, s, a);
    SortedKind(log, ns, s);
    last := FoldLast(OfKind(ns, s), merge, s, a);
  }
}
