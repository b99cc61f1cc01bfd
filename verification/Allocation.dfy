/**
 Allocating store cells and relocated addresses: the probing allocator of a store, the allocation table and
 the relocation table, and the bijection they keep.
 */
module Allocation {
  import opened Values
  import opened HashChains

  /** `CESK_STORE_ALLOC_ATTEMPT`. */
  const ATTEMPTS := 5
  const MH_MULTIPLY := 2654435761

  /** An allocation parameter: the instruction that allocates and the field it allocates for. */
  datatype Param = Param(inst: nat, offset: nat)

  function ParamHash(p: Param): nat {
    (p.inst * p.inst * MH_MULTIPLY + p.offset * MH_MULTIPLY * MH_MULTIPLY) % 0x1_0000_0000
  }

  // ---------- probing ----------

  /** The offsets the allocator tries for a parameter, in blocks of `n` slots. */
  function Probe(n: nat, p: Param, attempt: nat): (o: nat)
    requires n > 0
    ensures o < n
  {
    if attempt == 0 then ParamHash(p) % n
    else
      var slot := Probe(n, p, attempt - 1);
      NextSlot(n, slot)
  }

  function NextSlot(n: nat, slot: nat): (o: nat)
    requires n > 0
    ensures o < n
  {
    (slot * slot * MH_MULTIPLY + 100007 * slot + 634567) % n
  }

  type Blocks = seq<seq<Option<Param>>>

  ghost predicate Shaped(n: nat, bs: Blocks) {
    n > 0 && forall b :: 0 <= b < |bs| ==> |bs[b]| == n
  }

  /** A slot: its block and its offset there. */
  type Place = (nat, nat)

  predicate Uses(bs: Blocks, x: Place, p: Param) {
    x.0 < |bs| && x.1 < |bs[x.0]| && bs[x.0][x.1] == Some(p)
  }

  ghost predicate OnProbe(n: nat, p: Param, o: nat)
    requires n > 0
  {
    exists k :: 0 <= k < ATTEMPTS && Probe(n, p, k) == o
  }

  /**
   `places` gives each allocated parameter its slot, which lies on its probe sequence; no other slot is in
   use, so no two slots hold the same parameter.
   */
  ghost predicate Placed(n: nat, bs: Blocks, places: map<Param, Place>) {
    && Shaped(n, bs)
    && (forall p :: p in places ==> Uses(bs, places[p], p) && OnProbe(n, p, places[p].1))
    && (forall b, o :: 0 <= b < |bs| && 0 <= o < n && bs[b][o].Some? ==> bs[b][o].value in places && places[bs[b][o].value] == (b, o))
  }

  /** No two slots are in use for one parameter. */
  lemma OneSlot(n: nat, bs: Blocks, places: map<Param, Place>, x: Place, y: Place, p: Param)
    requires Placed(n, bs, places) && Uses(bs, x, p) && Uses(bs, y, p)
    ensures x == y
  {
  }

  /** The address of a slot in blocks of `n` slots. */
  function Address(n: nat, x: Place): nat {
    x.0 * n + x.1
  }

  lemma SameAddress(n: nat, x: Place, y: Place)
    requires x.1 < n && y.1 < n && Address(n, x) == Address(n, y)
    ensures x == y
  {
    if x.0 < y.0 {
      Scaled(x.0 + 1, y.0, n);
    } else if y.0 < x.0 {
      Scaled(y.0 + 1, x.0, n);
    }
  }

  lemma Scaled(a: nat, b: nat, n: nat)
    requires a <= b
    ensures a * n <= b * n
  {
  }

  /** Different parameters have different addresses. */
  lemma AddressesApart(n: nat, bs: Blocks, places: map<Param, Place>, p: Param, q: Param)
    requires Placed(n, bs, places) && p in places && q in places && Address(n, places[p]) == Address(n, places[q])
    ensures p == q
  {
    assert Uses(bs, places[p], p) && Uses(bs, places[q], q);
    SameAddress(n, places[p], places[q]);
  }

  /** A free slot on the probe sequence can be taken for a parameter that has none. */
  lemma TakeSlot(n: nat, bs: Blocks, places: map<Param, Place>, b: nat, o: nat, p: Param)
    requires Placed(n, bs, places) && b < |bs| && o < n && bs[b][o].None? && OnProbe(n, p, o) && p !in places
    ensures Placed(n, bs[b := bs[b][o := Some(p)]], places[p := (b, o)])
  {
    hide OnProbe;
    var bs', places' := bs[b := bs[b][o := Some(p)]], places[p := (b, o)];
    forall q | q in places'
      ensures Uses(bs', places'[q], q) && OnProbe(n, q, places'[q].1)
    {
      if q != p {
        assert Uses(bs, places[q], q);
      }
    }
  }

  /** Every slot the allocator looks at before attempt `k` in block `b` is in use. */
  ghost predicate Full(n: nat, p: Param, bs: Blocks, k: nat, b: nat)
    requires Shaped(n, bs) && b <= |bs|
  {
    && (forall j, c :: 0 <= j < k && 0 <= c < |bs| ==> bs[c][Probe(n, p, j)].Some?)
    && (forall c :: 0 <= c < b ==> bs[c][Probe(n, p, k)].Some?)
  }

  lemma OnProbeFirst(n: nat, p: Param)
    requires n > 0
    ensures OnProbe(n, p, ParamHash(p) % n)
  {
    assert Probe(n, p, 0) == ParamHash(p) % n;
  }

  lemma FullNone(n: nat, p: Param, bs: Blocks)
    requires Shaped(n, bs)
    ensures Full(n, p, bs, 0, 0)
  {
  }

  /** After one more attempt: the first free slot of this offset has been found, or there is none. */
  lemma FullMore(n: nat, p: Param, bs: Blocks, k: nat, empty: Option<Place>)
    requires Shaped(n, bs) && Full(n, p, bs, k, 0)
    requires empty.Some? ==> empty.value.0 < |bs| && forall b :: 0 <= b < empty.value.0 ==> bs[b][Probe(n, p, k)].Some?
    requires empty.None? ==> forall b :: 0 <= b < |bs| ==> bs[b][Probe(n, p, k)].Some?
    ensures empty.Some? ==> Full(n, p, bs, k, empty.value.0)
    ensures empty.None? ==> Full(n, p, bs, k + 1, 0)
  {
  }

  lemma NotFull(n: nat, p: Param, bs: Blocks, k: nat, x: Place)
    requires Shaped(n, bs) && k < ATTEMPTS && x.0 < |bs| && x.1 == Probe(n, p, k) && bs[x.0][x.1].None?
    ensures !Full(n, p, bs, ATTEMPTS, 0) && OnProbe(n, p, x.1)
  {
  }

  /** An empty block more changes nothing. */
  lemma NewBlock(n: nat, bs: Blocks, places: map<Param, Place>, row: seq<Option<Param>>)
    requires Placed(n, bs, places) && |row| == n && forall o :: 0 <= o < n ==> row[o].None?
    ensures Placed(n, bs + [row], places)
  {
    hide OnProbe;
    var bs' := bs + [row];
    forall q | q in places
      ensures Uses(bs', places[q], q) && OnProbe(n, q, places[q].1)
    {
      assert Uses(bs, places[q], q);
    }
  }

  /** A parameter that is in no slot of its probe sequence has no slot. */
  lemma NotProbed(n: nat, bs: Blocks, places: map<Param, Place>, p: Param)
    requires Placed(n, bs, places) && forall k, b :: 0 <= k < ATTEMPTS && 0 <= b < |bs| ==> bs[b][Probe(n, p, k)] != Some(p)
    ensures p !in places
  {
  }

  class Arena {
    /** `CESK_STORE_BLOCK_NSLOTS`. */
    const n: nat
    var blocks: Blocks
    ghost var places: map<Param, Place>

    constructor (n: nat)
      requires n > 0
      ensures Valid() && this.n == n && places == map[]
    {
      this.n := n;
      blocks, places := [], map[];
    }

    ghost predicate Valid()
      reads this
    {
      Placed(n, blocks, places)
    }

    /** Looks at one offset in all blocks: the slot of the parameter, or else the first free slot. */
    method Scan(slot: nat, p: Param, found: Option<Place>) returns (equal: Option<Place>, empty: Option<Place>)
      requires Valid() && slot < n && (found.Some? ==> Free(found.value))
      ensures equal.Some? ==> Uses(blocks, equal.value, p) && equal.value.1 == slot
      ensures equal.None? ==> forall b :: 0 <= b < |blocks| ==> blocks[b][slot] != Some(p)
      ensures empty.Some? ==> Free(empty.value) && (empty == found || empty.value.1 == slot)
      ensures found.Some? ==> empty == found
      ensures equal.None? && empty.None? ==> forall b :: 0 <= b < |blocks| ==> blocks[b][slot].Some?
      ensures found.None? && empty.Some? ==> forall b :: 0 <= b < empty.value.0 ==> blocks[b][slot].Some?
    {
      equal, empty := None, found;
      var block := 0;
      while block < |blocks|
        invariant block <= |blocks| && forall b :: 0 <= b < block ==> blocks[b][slot] != Some(p)
        invariant empty.Some? ==> Free(empty.value) && (empty == found || empty.value.1 == slot)
        invariant found.Some? ==> empty == found
        invariant found.None? ==> forall b :: 0 <= b < (if empty.Some? then empty.value.0 else block) ==> blocks[b][slot].Some?
      {
        if blocks[block][slot].None? && empty.None? {
          empty := Some((block, slot));
        }
        if blocks[block][slot] == Some(p) {
          equal := Some((block, slot));
          return;
        }
        block := block + 1;
      }
    }

    predicate Free(x: Place)
      reads this
    {
      x.0 < |blocks| && x.1 < |blocks[x.0]| && blocks[x.0][x.1].None?
    }

    /**
     `cesk_store_allocate`: the address of a parameter. A parameter that has a slot keeps it; a new one gets a
     slot that was free, in a new block if need be.
     */
    method Allocate(p: Param) returns (a: nat)
      requires Valid()
      modifies this
      ensures Valid() && p in places && a == Address(n, places[p])
      ensures |old(blocks)| <= |blocks| <= |old(blocks)| + 1 && a < |blocks| * n
      ensures p in old(places) ==> places == old(places) && blocks == old(blocks)
      ensures p !in old(places) ==> places == old(places)[p := places[p]] && forall q :: q in old(places) ==> old(places)[q] != places[p]
      ensures |blocks| > |old(blocks)| <==> p !in old(places) && Full(n, p, old(blocks), ATTEMPTS, 0)
      ensures p !in old(places) && |blocks| == |old(blocks)| ==>
          exists k :: 0 <= k < ATTEMPTS && places[p].1 == Probe(n, p, k) && places[p].0 < |old(blocks)| && Full(n, p, old(blocks), k, places[p].0)
    {
      hide Placed, Full, OnProbe;
      ValidShape(n, blocks, places);
      FullNone(n, p, blocks);
      var slot := ParamHash(p) % n;
      var equal: Option<Place>, empty: Option<Place> := None, None;
      var attempt := 0;
      ghost var at := 0;
      while attempt < ATTEMPTS
        invariant blocks == old(blocks) && places == old(places) && 0 <= attempt <= ATTEMPTS && slot == Probe(n, p, attempt) && equal.None?
        invariant forall k, b :: 0 <= k < attempt && 0 <= b < |blocks| ==> blocks[b][Probe(n, p, k)] != Some(p)
        invariant empty.Some? ==> Free(empty.value)
        invariant empty.None? ==> Full(n, p, blocks, attempt, 0)
        invariant empty.Some? ==> at < ATTEMPTS && empty.value.1 == Probe(n, p, at) && Full(n, p, blocks, at, empty.value.0)
      {
        ghost var before := empty;
        equal, empty := Scan(slot, p, empty);
        if before.None? {
          at := attempt;
          if equal.None? {
            FullMore(n, p, blocks, attempt, empty);
          }
        }
        if equal.Some? {
          SlotKnown(n, blocks, places, equal.value, p);
          AddressBound(n, |blocks|, equal.value);
          return Address(n, equal.value);
        }
        slot := NextSlot(n, slot);
        attempt := attempt + 1;
      }
      NotProbed(n, blocks, places, p);
      if empty.Some? {
        NotFull(n, p, blocks, at, empty.value);
      } else {
        var row := seq(n, _ => None);
        NewBlock(n, blocks, places, row);
        empty := Some((|blocks|, ParamHash(p) % n));
        blocks := blocks + [row];
        OnProbeFirst(n, p);
      }
      var x := empty.value;
      ValidShape(n, blocks, places);
      TakeSlot(n, blocks, places, x.0, x.1, p);
      SlotFree(n, blocks, places, x);
      blocks := blocks[x.0 := blocks[x.0][x.1 := Some(p)]];
      places := places[p := x];
      AddressBound(n, |blocks|, x);
      a := Address(n, x);
    }
  }

  lemma AddressBound(n: nat, blocks: nat, x: Place)
    requires x.0 < blocks && x.1 < n
    ensures Address(n, x) < blocks * n
  {
    Scaled(x.0 + 1, blocks, n);
  }

  lemma ValidShape(n: nat, bs: Blocks, places: map<Param, Place>)
    requires Placed(n, bs, places)
    ensures n > 0 && forall b :: 0 <= b < |bs| ==> |bs[b]| == n
  {
  }

  lemma SlotKnown(n: nat, bs: Blocks, places: map<Param, Place>, x: Place, p: Param)
    requires Placed(n, bs, places) && Uses(bs, x, p)
    ensures p in places && places[p] == x
  {
  }

  lemma SlotFree(n: nat, bs: Blocks, places: map<Param, Place>, x: Place)
    requires Placed(n, bs, places) && x.0 < |bs| && x.1 < |bs[x.0]| && bs[x.0][x.1].None?
    ensures forall q :: q in places ==> places[q] != x
  {
    forall q | q in places
      ensures places[q] != x
    {
      assert Uses(bs, places[q], q);
    }
  }

  // ---------- relocated addresses ----------

  /** The number of relocated addresses below the constant ones. */
  const LIMIT := CONST_PREFIX - RELOC_PREFIX

  type Pairs = map<(nat, nat), nat>

  /** The entries of a token pair relocated with object addresses; querying twice gives the start address. */
  ghost predicate Paired(m: Pairs, token: nat) {
    forall k :: (token, k) in m ==>
      && (token, m[(token, k)]) in m && m[(token, m[(token, k)])] == k
      && ((IsReloc(k) && IsObj(m[(token, k)])) || (IsObj(k) && IsReloc(m[(token, k)])))
  }

  /** A relocated address that is mapped is mapped to the address of its parameter. */
  ghost predicate Grounded(m: Pairs, token: nat, items: seq<Param>, n: nat, places: map<Param, Place>) {
    forall k :: (token, k) in m && IsReloc(k) ==>
      && k - RELOC_PREFIX < |items| && items[k - RELOC_PREFIX] in places
      && m[(token, k)] == Address(n, places[items[k - RELOC_PREFIX]])
  }

  /** The reverse table finds the relocated address of every parameter in the relocation table. */
  ghost predicate Reversed(rev: map<(nat, Param), nat>, table: nat, items: seq<Param>) {
    && (forall i :: 0 <= i < |items| && i < LIMIT ==> (table, items[i]) in rev && rev[(table, items[i])] == RELOC_PREFIX + i)
    && (forall p :: (table, p) in rev ==> Known(items, p, rev[(table, p)]))
  }

  ghost predicate Known(items: seq<Param>, p: Param, a: nat) {
    IsReloc(a) && a - RELOC_PREFIX < |items| && items[a - RELOC_PREFIX] == p
  }

  lemma PairsGrow(m: Pairs, token: nat, items: seq<Param>, n: nat, places: map<Param, Place>, rel: nat, obj: nat)
    requires Paired(m, token) && Grounded(m, token, items, n, places) && (token, rel) !in m && (token, obj) !in m
    requires IsReloc(rel) && IsObj(obj) && rel - RELOC_PREFIX < |items|
    requires items[rel - RELOC_PREFIX] in places && obj == Address(n, places[items[rel - RELOC_PREFIX]])
    ensures var m' := m[(token, rel) := obj][(token, obj) := rel]; Paired(m', token) && Grounded(m', token, items, n, places)
  {
  }

  /** An object address that is free for a mapping leaves its relocated address free. */
  lemma RelocFree(m: Pairs, token: nat, items: seq<Param>, n: nat, places: map<Param, Place>, rel: nat, p: Param)
    requires Paired(m, token) && Grounded(m, token, items, n, places) && Known(items, p, rel) && p in places
    requires (token, Address(n, places[p])) !in m
    ensures (token, rel) !in m
  {
  }

  /** A parameter without a relocated address has an object address that is not mapped. */
  lemma ObjectFree(m: Pairs, token: nat, items: seq<Param>, n: nat, bs: Blocks, places: map<Param, Place>, rev: map<(nat, Param), nat>, table: nat, p: Param)
    requires Paired(m, token) && Grounded(m, token, items, n, places) && Placed(n, bs, places) && Reversed(rev, table, items)
    requires p in places && (table, p) !in rev && IsObj(Address(n, places[p]))
    ensures (token, Address(n, places[p])) !in m
  {
    var obj := Address(n, places[p]);
    if (token, obj) in m {
      var rel := m[(token, obj)];
      var q := items[rel - RELOC_PREFIX];
      AddressesApart(n, bs, places, p, q);
    }
  }

  lemma PlacesGrow(m: Pairs, token: nat, items: seq<Param>, n: nat, places: map<Param, Place>, places': map<Param, Place>)
    requires Grounded(m, token, items, n, places) && forall p :: p in places ==> p in places' && places'[p] == places[p]
    ensures Grounded(m, token, items, n, places')
  {
  }

  lemma ItemsGrow(m: Pairs, token: nat, items: seq<Param>, n: nat, places: map<Param, Place>, p: Param)
    requires Grounded(m, token, items, n, places)
    ensures Grounded(m, token, items + [p], n, places)
    ensures IsReloc(RELOC_PREFIX + |items|) ==> (token, RELOC_PREFIX + |items|) !in m
  {
  }

  lemma ReverseGrows(rev: map<(nat, Param), nat>, table: nat, items: seq<Param>, p: Param)
    requires Reversed(rev, table, items) && (table, p) !in rev
    ensures |items| < LIMIT ==> Reversed(rev[(table, p) := RELOC_PREFIX + |items|], table, items + [p])
    ensures |items| >= LIMIT ==> Reversed(rev, table, items + [p])
  {
  }

  /** What decides the address of a parameter: relocation table, cells with a value, reverse table and slots. */
  datatype Books = Books(items: seq<Param>, live: set<nat>, rev: map<(nat, Param), nat>, places: map<Param, Place>)

  /** An allocation of `p` returns `a`: its relocated address, or the address of its cell if that had a value before. */
  ghost predicate Settled(s: Books, table: nat, n: nat, p: Param, a: nat) {
    || (IsReloc(a) && Known(s.items, p, a))
    || (IsObj(a) && a in s.live && (table, p) !in s.rev && p in s.places && a == Address(n, s.places[p]))
  }

  /** Nothing is forgotten, and only parameters without a value in their cell are given a relocated address. */
  ghost predicate Advanced(s: Books, s': Books, table: nat, n: nat) {
    && s.items <= s'.items && s.live <= s'.live
    && (forall p :: p in s.places ==> p in s'.places && s'.places[p] == s.places[p])
    && (forall p :: (table, p) in s'.rev ==> (table, p) in s.rev || (p in s'.places && Address(n, s'.places[p]) !in s.live))
  }

  lemma AdvancedThen(s0: Books, s1: Books, s2: Books, table: nat, n: nat)
    requires Advanced(s0, s1, table, n) && Advanced(s1, s2, table, n)
    ensures Advanced(s0, s2, table, n)
  {
    hide Address;
  }

  lemma AdvancedLive(s: Books, s': Books, table: nat, n: nat)
    requires s' == s.(live := s'.live) && s.live <= s'.live
    ensures Advanced(s, s', table, n)
  {
    hide Address;
  }

  lemma AdvancedPlaces(s: Books, s': Books, table: nat, n: nat)
    requires s' == s.(places := s'.places) && forall p :: p in s.places ==> p in s'.places && s'.places[p] == s.places[p]
    ensures Advanced(s, s', table, n)
  {
    hide Address;
  }

  lemma AdvancedTable(s: Books, s': Books, table: nat, n: nat, p: Param)
    requires s' == s.(items := s'.items, rev := s'.rev) && s.items <= s'.items && (forall k :: k in s'.rev && k != (table, p) ==> k in s.rev)
    requires p in s.places && Address(n, s.places[p]) !in s.live
    ensures Advanced(s, s', table, n)
  {
    hide Address;
  }

  /** An address that has been given out stays. */
  lemma SettledStays(s: Books, s': Books, table: nat, n: nat, p: Param, a: nat)
    requires Advanced(s, s', table, n) && Settled(s, table, n, p, a)
    ensures Settled(s', table, n, p, a)
  {
  }

  lemma SettledReloc(s: Books, table: nat, n: nat, p: Param, a: nat)
    requires Known(s.items, p, a)
    ensures Settled(s, table, n, p, a)
  {
  }

  lemma SettledCell(s: Books, table: nat, n: nat, p: Param)
    requires p in s.places && IsObj(Address(n, s.places[p])) && Address(n, s.places[p]) in s.live && (table, p) !in s.rev
    ensures Settled(s, table, n, p, Address(n, s.places[p]))
  {
  }

  lemma Unsettled(s: Books, s': Books, table: nat, n: nat, p: Param)
    requires Reversed(s.rev, table, s.items) && (table, p) !in s.rev && p in s'.places && Address(n, s'.places[p]) !in s.live
    requires p in s.places ==> s.places[p] == s'.places[p]
    ensures forall a :: !Settled(s, table, n, p, a)
  {
    forall a
      ensures !Settled(s, table, n, p, a)
    {
      if Known(s.items, p, a) {
        OneReloc(s.rev, table, s.items, p, a);
      }
    }
  }

  /** A store with its allocation token, and the relocation table it is used with. */
  class Relocator {
    const arena: Arena
    /** The allocation table: from token and address to address. */
    const alloc: Table<(nat, nat), nat>
    /** The reverse hash: from relocation table and parameter to relocated address. */
    const rev: Table<(nat, Param), nat>
    const token: nat
    const table: nat
    /** The relocation table: the parameter of each relocated address. */
    var items: seq<Param>
    /** The addresses that hold a value. */
    var live: set<nat>

    constructor (arena: Arena, alloc: Table<(nat, nat), nat>, rev: Table<(nat, Param), nat>, token: nat, table: nat)
      requires arena.Valid() && alloc.Valid() && rev.Valid()
      requires forall k :: (token, k) !in alloc.m
      requires forall p :: (table, p) !in rev.m
      ensures Valid() && this.arena == arena && this.alloc == alloc && this.rev == rev && this.token == token && this.table == table && items == []
    {
      this.arena, this.alloc, this.rev, this.token, this.table := arena, alloc, rev, token, table;
      items, live := [], {};
    }

    ghost predicate Valid()
      reads this, arena, alloc, rev
    {
      && arena.Valid() && alloc.Valid() && rev.Valid()
      && Paired(alloc.m, token) && Grounded(alloc.m, token, items, arena.n, arena.places) && Reversed(rev.m, table, items)
    }

    /** Maps a relocated address and an object address to each other; neither is mapped yet. */
    method MapAddr(rel: nat, obj: nat) returns (ok: bool)
      requires Valid() && (token, rel) !in alloc.m && (token, obj) !in alloc.m
      requires IsReloc(rel) && rel - RELOC_PREFIX < |items| ==>
          items[rel - RELOC_PREFIX] in arena.places && obj == Address(arena.n, arena.places[items[rel - RELOC_PREFIX]])
      requires IsReloc(rel) ==> rel - RELOC_PREFIX < |items|
      modifies alloc
      ensures Valid() && (ok <==> IsReloc(rel) && IsObj(obj))
      ensures alloc.m == if ok then old(alloc.m)[(token, rel) := obj][(token, obj) := rel] else old(alloc.m)
    {
      hide Paired, Grounded, Reversed, Placed;
      if !IsReloc(rel) || !IsObj(obj) {
        return false;
      }
      PairsGrow(alloc.m, token, items, arena.n, arena.places, rel, obj);
      alloc.Insert((token, rel), obj);
      alloc.Insert((token, obj), rel);
      ok := true;
    }

    /** `cesk_reloc_table_append`; a table that is too long is extended all the same before the address is refused. */
    method Append(p: Param) returns (rel: nat)
      modifies this`items
      ensures rel != NULL_ADDR <==> |old(items)| < LIMIT
      ensures rel != NULL_ADDR ==> rel == RELOC_PREFIX + |old(items)|
      ensures items == if |old(items)| < 0x100_0000 then old(items) + [p] else old(items)
    {
      if |items| >= 0x100_0000 {
        return NULL_ADDR;
      }
      rel := RELOC_PREFIX + |items|;
      items := items + [p];
      if !IsReloc(rel) {
        rel := NULL_ADDR;
      }
    }

    /** A store that is smaller than the range of object addresses. */
    predicate Small()
      reads arena
    {
      (|arena.blocks| + 1) * arena.n <= RELOC_PREFIX
    }

    lemma ObjectAddress(blocks0: nat, obj: nat)
      requires (blocks0 + 1) * arena.n <= RELOC_PREFIX && |arena.blocks| <= blocks0 + 1 && obj < |arena.blocks| * arena.n
      ensures IsObj(obj)
    {
      Scaled(|arena.blocks|, blocks0 + 1, arena.n);
    }

    /** The object address of a parameter. */
    method Place(p: Param) returns (obj: nat)
      requires Valid() && Small()
      modifies arena
      ensures Valid() && p in arena.places && obj == Address(arena.n, arena.places[p]) && IsObj(obj)
      ensures Advanced(old(Now()), Now(), table, arena.n) && Now() == old(Now()).(places := arena.places)
      ensures p in old(arena.places) ==> arena.places[p] == old(arena.places)[p]
    {
      hide Paired, Grounded, Reversed, Placed, Address, Advanced;
      ghost var places0, blocks0, s0 := arena.places, |arena.blocks|, Now();
      obj := arena.Allocate(p);
      ObjectAddress(blocks0, obj);
      PlacesGrow(alloc.m, token, items, arena.n, places0, arena.places);
      AdvancedPlaces(s0, Now(), table, arena.n);
    }

    /** Gives a parameter that has none a relocated address. */
    method Register(p: Param, ghost obj: nat) returns (rel: nat)
      requires Valid() && p in arena.places && obj == Address(arena.n, arena.places[p]) && IsObj(obj) && obj !in live && (table, p) !in rev.m
      modifies this`items, rev
      ensures Valid() && old(items) <= items && (rel == NULL_ADDR <==> |old(items)| >= LIMIT)
      ensures rel != NULL_ADDR ==> Known(items, p, rel) && (token, rel) !in alloc.m && (token, obj) !in alloc.m
      ensures rel == NULL_ADDR ==> (table, p) !in rev.m
      ensures Advanced(old(Now()), Now(), table, arena.n)
    {
      hide Paired, Grounded, Reversed, Placed, Advanced, Address;
      ghost var s0 := Now();
      ItemsGrow(alloc.m, token, items, arena.n, arena.places, p);
      ReverseGrows(rev.m, table, items, p);
      ObjectFree(alloc.m, token, items, arena.n, arena.blocks, arena.places, rev.m, table, p);
      rel := Append(p);
      if rel != NULL_ADDR {
        rev.Insert((table, p), rel);
      }
      AdvancedTable(s0, Now(), table, arena.n, p);
    }

    /** Allocates an address for a parameter: its relocated address, or the address of a cell that has a value already. */
    method Allocate(p: Param, dryRun: bool) returns (a: nat)
      requires Valid() && Small()
      modifies this`items, arena, alloc, rev
      ensures Valid() && p in arena.places && old(items) <= items
      ensures a == NULL_ADDR ==> |old(items)| >= LIMIT && (table, p) !in rev.m
      ensures IsReloc(a) ==> Known(items, p, a)
      ensures IsReloc(a) && !dryRun ==> (token, a) in alloc.m && alloc.m[(token, a)] == Address(arena.n, arena.places[p])
      ensures a != NULL_ADDR && !IsReloc(a) ==> a == Address(arena.n, arena.places[p]) && a in live
      ensures dryRun || !IsReloc(a) ==> alloc.m == old(alloc.m)
      ensures forall k :: k in alloc.m && k !in old(alloc.m) ==> k == (token, a) || k == (token, Address(arena.n, arena.places[p]))
      ensures forall i :: 0 <= i < |old(items)| && i < LIMIT && old(items)[i] == p ==> a == RELOC_PREFIX + i
      ensures Advanced(old(Now()), Now(), table, arena.n)
      ensures a != NULL_ADDR ==> Settled(Now(), table, arena.n, p, a)
      ensures a == NULL_ADDR ==> forall b :: !Settled(old(Now()), table, arena.n, p, b)
    {
      hide Paired, Grounded, Reversed, Placed, Address, Known, Settled, Advanced, Holds;
      ghost var s0 := Now();
      var obj := Place(p);
      ghost var s1 := Now();
      FirstReloc(rev.m, table, items, p);
      var node := rev.Find((table, p));
      var rel;
      if node.Some? {
        var mapped;
        rel, mapped := Reuse(p, obj, node.value);
        KnownAt(items, p, rel);
        if mapped {
          return rel;
        }
      } else if obj in live {
        SettledCell(s1, table, arena.n, p);
        return obj;
      } else {
        Unsettled(s0, s1, table, arena.n, p);
        rel := Register(p, obj);
        AdvancedThen(s0, s1, Now(), table, arena.n);
        if rel == NULL_ADDR {
          return NULL_ADDR;
        }
      }
      KnownAt(items, p, rel);
      SettledReloc(Now(), table, arena.n, p, rel);
      if !dryRun {
        var ok := MapAddr(rel, obj);
      }
      a := rel;
    }

    /** The address of a parameter that has a relocated one: what its object address is mapped to, or else `known`. */
    method Reuse(p: Param, obj: nat, known: nat) returns (rel: nat, mapped: bool)
      requires Valid() && p in arena.places && obj == Address(arena.n, arena.places[p]) && IsObj(obj)
      requires (table, p) in rev.m && rev.m[(table, p)] == known
      ensures rel == known && Known(items, p, rel) && Settled(Now(), table, arena.n, p, rel)
      ensures mapped ==> (token, rel) in alloc.m && alloc.m[(token, rel)] == obj
      ensures !mapped ==> (token, rel) !in alloc.m && (token, obj) !in alloc.m
    {
      hide Paired, Grounded, Reversed, Placed, Address, Known, Settled, Holds;
      ReverseKnown(rev.m, table, items, p);
      var query := alloc.Find((token, obj));
      mapped := query.Some?;
      if mapped {
        MappedBack(alloc.m, token, items, arena.n, arena.blocks, arena.places, p);
        OneReloc(rev.m, table, items, p, query.value);
        rel := query.value;
      } else {
        rel := known;
        RelocFree(alloc.m, token, items, arena.n, arena.places, rel, p);
      }
      SettledReloc(Now(), table, arena.n, p, rel);
    }

    /** What decides the address of a parameter. */
    ghost function Now(): Books
      reads this, arena, rev
    {
      Books(items, live, rev.m, arena.places)
    }

    /** A parameter has one address, and different parameters have different ones. */
    lemma SettledOnce(p: Param, a: nat, q: Param, b: nat)
      requires Valid() && Settled(Now(), table, arena.n, p, a) && Settled(Now(), table, arena.n, q, b)
      ensures a == b <==> p == q
    {
      hide Paired, Grounded, Address;
      if IsReloc(a) && IsReloc(b) {
        OneReloc(rev.m, table, items, p, a);
        OneReloc(rev.m, table, items, q, b);
      } else if IsObj(a) && IsObj(b) && a == b {
        AddressesApart(arena.n, arena.blocks, arena.places, p, q);
      } else if IsReloc(a) {
        OneReloc(rev.m, table, items, p, a);
      } else if IsReloc(b) {
        OneReloc(rev.m, table, items, q, b);
      }
    }

    /** The object address of a parameter is mapped. */
    ghost predicate Taken(p: Param)
      reads arena, alloc
    {
      p in arena.places && (token, Address(arena.n, arena.places[p])) in alloc.m
    }

    /** Puts a value at a relocated address: its parameter is allocated in this store and mapped. */
    method AddrInit(addr: nat) returns (obj: nat)
      requires Valid() && Small()
      modifies this`live, arena, alloc
      ensures Valid()
      ensures obj != NULL_ADDR ==> IsReloc(addr) && addr - RELOC_PREFIX < |items| && obj in live && (token, addr) !in old(alloc.m)
      ensures obj != NULL_ADDR ==> alloc.m == old(alloc.m)[(token, addr) := obj][(token, obj) := addr]
      ensures obj == NULL_ADDR ==> alloc.m == old(alloc.m) && live == old(live)
      ensures obj == NULL_ADDR && IsReloc(addr) && addr - RELOC_PREFIX < |items| ==> Taken(items[addr - RELOC_PREFIX])
      ensures Advanced(old(Now()), Now(), table, arena.n)
    {
      hide Paired, Grounded, Reversed, Placed, Advanced, Address, Holds;
      ghost var s0 := Now();
      AdvancedLive(s0, s0, table, arena.n);
      if !IsReloc(addr) || addr - RELOC_PREFIX >= |items| {
        return NULL_ADDR;
      }
      var p := items[addr - RELOC_PREFIX];
      ghost var m := alloc.m;
      obj := Place(p);
      var query := alloc.Find((token, obj));
      if query.Some? {
        return NULL_ADDR;
      }
      RelocFree(m, token, items, arena.n, arena.places, addr, p);
      var ok := MapAddr(addr, obj);
      ghost var s1 := Now();
      live := live + {obj};
      AdvancedLive(s1, Now(), table, arena.n);
      AdvancedThen(s0, s1, Now(), table, arena.n);
    }

    /** Querying the table with what a query gave returns to the start. */
    method QueryTwice(a: nat) returns (b: Option<nat>)
      requires Valid()
      ensures b.Some? <==> (token, a) in alloc.m
      ensures b.Some? ==> b.value == a
    {
      hide Grounded, Reversed, Placed;
      var first := alloc.Find((token, a));
      if first.None? {
        return None;
      }
      b := alloc.Find((token, first.value));
    }
  }

  datatype Request = Alloc(p: Param, dryRun: bool) | Init(addr: nat)

  /** An allocation that succeeded has settled the address of its parameter. */
  ghost predicate Answered(s: Books, table: nat, n: nat, q: Request, a: nat) {
    q.Alloc? && a != NULL_ADDR ==> Settled(s, table, n, q.p, a)
  }

  ghost predicate AllAnswered(s: Books, table: nat, n: nat, qs: seq<Request>, ans: seq<nat>) {
    |ans| <= |qs| && forall i :: 0 <= i < |ans| ==> Answered(s, table, n, qs[i], ans[i])
  }

  method Serve(r: Relocator, q: Request) returns (a: nat)
    requires r.Valid() && r.Small()
    modifies r`items, r`live, r.arena, r.alloc, r.rev
    ensures r.Valid() && Advanced(old(r.Now()), r.Now(), r.table, r.arena.n) && Answered(r.Now(), r.table, r.arena.n, q, a)
    ensures q.Alloc? && a == NULL_ADDR ==> forall b :: !Settled(old(r.Now()), r.table, r.arena.n, q.p, b)
  {
    hide Settled, Relocator.Valid, Advanced, Relocator.Small;
    if q.Alloc? {
      a := r.Allocate(q.p, q.dryRun);
    } else {
      a := r.AddrInit(q.addr);
    }
  }

  /** From its first success on an allocation of a parameter returns the same address; others return other addresses. */
  ghost predicate OneAddressEach(qs: seq<Request>, ans: seq<nat>) {
    |ans| <= |qs| && forall i, j :: 0 <= i < j < |ans| && qs[i].Alloc? && qs[j].Alloc? && ans[i] != NULL_ADDR ==>
      (ans[j] == ans[i] <==> qs[j].p == qs[i].p)
  }

  lemma StillAnswered(s: Books, s': Books, table: nat, n: nat, qs: seq<Request>, ans: seq<nat>, a: nat)
    requires AllAnswered(s, table, n, qs, ans) && Advanced(s, s', table, n) && |ans| < |qs| && Answered(s', table, n, qs[|ans|], a)
    ensures AllAnswered(s', table, n, qs, ans + [a])
  {
    hide Settled, Advanced;
    forall i | 0 <= i < |ans|
      ensures Answered(s', table, n, qs[i], ans[i])
    {
      if qs[i].Alloc? && ans[i] != NULL_ADDR {
        assert Answered(s, table, n, qs[i], ans[i]);
        SettledStays(s, s', table, n, qs[i].p, ans[i]);
      }
    }
  }

  lemma NextAnswer(r: Relocator, s: Books, qs: seq<Request>, ans: seq<nat>, a: nat)
    requires r.Valid() && |ans| < |qs| && OneAddressEach(qs, ans) && AllAnswered(s, r.table, r.arena.n, qs, ans)
    requires AllAnswered(r.Now(), r.table, r.arena.n, qs, ans + [a])
    requires qs[|ans|].Alloc? && a == NULL_ADDR ==> forall b :: !Settled(s, r.table, r.arena.n, qs[|ans|].p, b)
    ensures OneAddressEach(qs, ans + [a])
  {
    hide Settled, Relocator.Valid;
    var q, all := qs[|ans|], ans + [a];
    forall i | 0 <= i < |ans| && q.Alloc? && qs[i].Alloc? && ans[i] != NULL_ADDR
      ensures a == ans[i] <==> q.p == qs[i].p
    {
      assert Answered(s, r.table, r.arena.n, qs[i], ans[i]);
      assert Answered(r.Now(), r.table, r.arena.n, qs[i], all[i]) && Answered(r.Now(), r.table, r.arena.n, q, all[|ans|]);
      if a != NULL_ADDR {
        r.SettledOnce(qs[i].p, ans[i], q.p, a);
      }
    }
  }

  /**
   Any run of allocations and initialisations, as long as the store is small: all allocations of a parameter
   from the first that succeeds on return the same address, and different parameters get different addresses.
   */
  method Run(r: Relocator, qs: seq<Request>) returns (ans: seq<nat>)
    requires r.Valid()
    modifies r`items, r`live, r.arena, r.alloc, r.rev
    ensures r.Valid() && |ans| <= |qs| && (|ans| < |qs| ==> !r.Small()) && OneAddressEach(qs, ans)
  {
    ans := [];
    while |ans| < |qs| && r.Small()
      invariant r.Valid() && |ans| <= |qs| && OneAddressEach(qs, ans) && AllAnswered(r.Now(), r.table, r.arena.n, qs, ans)
    {
      hide Settled, Relocator.Valid, Advanced, Relocator.Small, OneAddressEach, AllAnswered;
      ghost var s := r.Now();
      var a := Serve(r, qs[|ans|]);
      StillAnswered(s, r.Now(), r.table, r.arena.n, qs, ans, a);
      NextAnswer(r, s, qs, ans, a);
      ans := ans + [a];
    }
  }

  lemma KnownAt(items: seq<Param>, p: Param, a: nat)
    requires Known(items, p, a)
    ensures IsReloc(a) && a - RELOC_PREFIX < |items| && items[a - RELOC_PREFIX] == p
  {
  }

  lemma FirstReloc(rev: map<(nat, Param), nat>, table: nat, items: seq<Param>, p: Param)
    requires Reversed(rev, table, items)
    ensures forall i :: 0 <= i < |items| && i < LIMIT && items[i] == p ==> (table, p) in rev && rev[(table, p)] == RELOC_PREFIX + i
  {
  }

  /** A parameter has one relocated address. */
  lemma OneReloc(rev: map<(nat, Param), nat>, table: nat, items: seq<Param>, p: Param, a: nat)
    requires Reversed(rev, table, items) && Known(items, p, a)
    ensures (table, p) in rev && rev[(table, p)] == a
  {
    assert items[a - RELOC_PREFIX] == p;
  }

  lemma ReverseKnown(rev: map<(nat, Param), nat>, table: nat, items: seq<Param>, p: Param)
    requires Reversed(rev, table, items) && (table, p) in rev
    ensures Known(items, p, rev[(table, p)])
  {
  }

  /** What the object address of a parameter is mapped to is the parameter's relocated address. */
  lemma MappedBack(m: Pairs, token: nat, items: seq<Param>, n: nat, bs: Blocks, places: map<Param, Place>, p: Param)
    requires Paired(m, token) && Grounded(m, token, items, n, places) && Placed(n, bs, places) && p in places
    requires IsObj(Address(n, places[p])) && (token, Address(n, places[p])) in m
    ensures var rel := m[(token, Address(n, places[p]))];
            IsReloc(rel) && Known(items, p, rel) && (token, rel) in m && m[(token, rel)] == Address(n, places[p])
  {
    var rel := m[(token, Address(n, places[p]))];
    AddressesApart(n, bs, places, p, items[rel - RELOC_PREFIX]);
  }
}
