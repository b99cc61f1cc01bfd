/** Relocated addresses in a store: its relocation map is the part of the allocation table its token owns. */
module Relocation {
  import opened Values
  import opened Allocation
  import Stores

  /** Where the relocated addresses of a token lead. */
  ghost function RelocOf(m: Pairs, token: nat): map<nat, nat> {
    map x | x in m && x.0 == token && IsReloc(x.1) :: x.1 := m[x]
  }

  lemma RelocAt(m: Pairs, token: nat, rel: nat)
    ensures rel in RelocOf(m, token) <==> IsReloc(rel) && (token, rel) in m
    ensures rel in RelocOf(m, token) ==> RelocOf(m, token)[rel] == m[(token, rel)]
  {
    if IsReloc(rel) && (token, rel) in m {
      assert (token, rel).1 in RelocOf(m, token);
    }
  }

  /**
   A relocated address and the object address it is paired with name one and the same slot: the one the
   allocator gave to the parameter of the relocated address.
   */
  lemma PairNamesOneSlot(m: Pairs, token: nat, items: seq<Param>, n: nat, bs: Blocks, places: map<Param, Place>, rel: nat)
    requires Paired(m, token) && Grounded(m, token, items, n, places) && Placed(n, bs, places)
    requires IsReloc(rel) && (token, rel) in m
    ensures var obj := m[(token, rel)];
            && m[(token, obj)] == rel && obj < |bs| * n
            && rel - RELOC_PREFIX < |items| && items[rel - RELOC_PREFIX] in places && obj == Address(n, places[items[rel - RELOC_PREFIX]])
            && (forall i :: Stores.Names(RelocOf(m, token), rel, i) <==> i == obj)
            && (forall i :: Stores.Names(RelocOf(m, token), obj, i) <==> i == obj)
            && Stores.Resolve(Stores.Env(|bs| * n, RelocOf(m, token)), rel) == obj
            && Stores.Resolve(Stores.Env(|bs| * n, RelocOf(m, token)), obj) == obj
  {
    hide RelocOf;
    var obj, p := m[(token, rel)], items[rel - RELOC_PREFIX];
    RelocAt(m, token, rel);
    assert Uses(bs, places[p], p);
    AddressBound(n, |bs|, places[p]);
  }

  /** Different relocated addresses name different slots. */
  lemma RelocInjective(m: Pairs, token: nat, rel: nat, rel': nat, i: int)
    requires Paired(m, token) && IsReloc(rel) && IsReloc(rel')
    requires Stores.Names(RelocOf(m, token), rel, i) && Stores.Names(RelocOf(m, token), rel', i)
    ensures rel == rel'
  {
    RelocAt(m, token, rel);
    RelocAt(m, token, rel');
  }
}
