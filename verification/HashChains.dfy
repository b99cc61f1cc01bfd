/** Chained hash tables: new entries go to the front of their chain, and no key is inserted twice. */
module HashChains {
  import opened Values

  /** The entries of one chain are entries of the map with this hash, each once. */
  ghost predicate GoodChain<K, V>(size: nat, hash: K -> nat, h: nat, chain: seq<(K, V)>, m: map<K, V>)
    requires size > 0
  {
    && (forall j :: 0 <= j < |chain| ==> hash(chain[j].0) % size == h && chain[j].0 in m && m[chain[j].0] == chain[j].1)
    && (forall i, j :: 0 <= i < j < |chain| ==> chain[i].0 != chain[j].0)
  }

  /** The chains hold exactly the entries of the map. */
  ghost predicate Holds<K, V>(size: nat, hash: K -> nat, slots: seq<seq<(K, V)>>, m: map<K, V>) {
    && size > 0 && |slots| == size
    && (forall h :: 0 <= h < size ==> GoodChain(size, hash, h, slots[h], m))
    && (forall k :: k in m ==> (k, m[k]) in slots[hash(k) % size])
  }

  lemma ChainGrows<K, V>(size: nat, hash: K -> nat, h: nat, chain: seq<(K, V)>, m: map<K, V>, k: K, v: V)
    requires size > 0 && GoodChain(size, hash, h, chain, m) && k !in m
    ensures GoodChain(size, hash, h, chain, m[k := v])
    ensures hash(k) % size == h ==> GoodChain(size, hash, h, [(k, v)] + chain, m[k := v])
  {
  }

  lemma Inserted<K, V>(size: nat, hash: K -> nat, slots: seq<seq<(K, V)>>, m: map<K, V>, k: K, v: V)
    requires Holds(size, hash, slots, m) && k !in m
    ensures var h := hash(k) % size; Holds(size, hash, slots[h := [(k, v)] + slots[h]], m[k := v])
  {
    hide GoodChain;
    var h := hash(k) % size;
    var slots', m' := slots[h := [(k, v)] + slots[h]], m[k := v];
    forall g | 0 <= g < size
      ensures GoodChain(size, hash, g, slots'[g], m')
    {
      ChainGrows(size, hash, g, slots[g], m, k, v);
    }
  }

  lemma ChainShrinks<K, V>(size: nat, hash: K -> nat, h: nat, chain: seq<(K, V)>, m: map<K, V>, k: K, p: nat)
    requires size > 0 && GoodChain(size, hash, h, chain, m) && p < |chain| && chain[p].0 == k
    ensures GoodChain(size, hash, h, chain[..p] + chain[p + 1..], m - {k})
    ensures forall e :: e in chain[..p] + chain[p + 1..] <==> e in chain && e.0 != k
  {
    var rest := chain[..p] + chain[p + 1..];
    assert forall j :: 0 <= j < |rest| ==> rest[j] == chain[if j < p then j else j + 1];
    forall e
      ensures e in rest <==> e in chain && e.0 != k
    {
      if e in chain && e.0 != k {
        var j :| 0 <= j < |chain| && chain[j] == e;
        assert rest[if j < p then j else j - 1] == e;
      }
    }
  }

  lemma Deleted<K, V>(size: nat, hash: K -> nat, slots: seq<seq<(K, V)>>, m: map<K, V>, k: K, p: nat)
    requires Holds(size, hash, slots, m) && p < |slots[hash(k) % size]| && slots[hash(k) % size][p].0 == k
    ensures var h := hash(k) % size; Holds(size, hash, slots[h := slots[h][..p] + slots[h][p + 1..]], m - {k})
  {
    var h := hash(k) % size;
    ChainShrinks(size, hash, h, slots[h], m, k, p);
    forall g | 0 <= g < size && g != h
      ensures GoodChain(size, hash, g, slots[g], m - {k})
    {
      assert GoodChain(size, hash, g, slots[g], m);
    }
  }

  lemma Absent<K, V>(size: nat, hash: K -> nat, slots: seq<seq<(K, V)>>, m: map<K, V>, k: K)
    requires Holds(size, hash, slots, m) && forall j :: 0 <= j < |slots[hash(k) % size]| ==> slots[hash(k) % size][j].0 != k
    ensures k !in m
  {
  }

  class Table<K(==), V> {
    const size: nat
    const hash: K -> nat
    var slots: seq<seq<(K, V)>>
    /** What the table holds. */
    ghost var m: map<K, V>

    constructor (size: nat, hash: K -> nat)
      requires size > 0
      ensures Valid() && m == map[] && this.size == size && this.hash == hash
    {
      this.size, this.hash := size, hash;
      slots, m := seq(size, _ => []), map[];
    }

    ghost predicate Valid()
      reads this
    {
      Holds(size, hash, slots, m)
    }

    /** Walks the chain of a key; the length of the chain if the key is not there. */
    method Locate(k: K) returns (p: nat)
      requires Valid()
      ensures p <= |slots[hash(k) % size]|
      ensures p < |slots[hash(k) % size]| <==> k in m
      ensures p < |slots[hash(k) % size]| ==> slots[hash(k) % size][p] == (k, m[k])
    {
      var h := hash(k) % size;
      p := 0;
      while p < |slots[h]| && slots[h][p].0 != k
        invariant p <= |slots[h]| && forall i :: 0 <= i < p ==> slots[h][i].0 != k
      {
        p := p + 1;
      }
      if p == |slots[h]| {
        Absent(size, hash, slots, m, k);
      } else {
        assert GoodChain(size, hash, h, slots[h], m);
      }
    }

    method Find(k: K) returns (v: Option<V>)
      requires Valid()
      ensures v.Some? <==> k in m
      ensures v.Some? ==> v.value == m[k]
    {
      var p := Locate(k);
      var chain := slots[hash(k) % size];
      v := if p < |chain| then Some(chain[p].1) else None;
    }

    method Insert(k: K, v: V)
      requires Valid() && k !in m
      modifies this
      ensures Valid() && m == old(m)[k := v]
    {
      var h := hash(k) % size;
      Inserted(size, hash, slots, m, k, v);
      slots := slots[h := [(k, v)] + slots[h]];
      m := m[k := v];
    }

    /** Unlinks the entry of a key, if there is one. */
    method Delete(k: K)
      requires Valid()
      modifies this
      ensures Valid() && m == old(m) - {k}
    {
      var h := hash(k) % size;
      var p := Locate(k);
      if p == |slots[h]| {
        assert m - {k} == m;
        return;
      }
      Deleted(size, hash, slots, m, k, p);
      slots := slots[h := slots[h][..p] + slots[h][p + 1..]];
      m := m - {k};
    }
  }
}
