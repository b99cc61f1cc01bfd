/** Addresses and abstract values of the CESK store, as every other module sees them. */
module Values {

  datatype Option<T> = None | Some(value: T)

  /** `CESK_STORE_ADDR_NULL`: the reserved 32-bit address that is never a real one. */
  const NULL_ADDR: nat := 0xffffffff
  const CONST_PREFIX: nat := 0xffffff00
  const RELOC_PREFIX: nat := 0xff000000
  const STATIC_PREFIX: nat := 0x80000000

  /** Constant addresses carry the value themselves and have no store cell. */
  predicate IsConst(a: nat) {
    CONST_PREFIX <= a <= NULL_ADDR
  }

  predicate IsReloc(a: nat) {
    RELOC_PREFIX <= a < CONST_PREFIX
  }

  predicate IsObj(a: nat) {
    a < RELOC_PREFIX
  }

  /** A register reference with the top bit set names a static field. */
  predicate IsStatic(r: nat) {
    STATIC_PREFIX <= r <= NULL_ADDR
  }

  /** One resolution bit of one tag; a tag set is a set of these and merging ORs resolutions. */
  type Tag = (nat, nat)

  /** The contents of an address set: what a register, a static field or a set cell holds. */
  datatype AddrSet = AddrSet(addrs: set<nat>, tags: set<Tag>)

  const EMPTY_SET := AddrSet({}, {})

  function Join(a: AddrSet, b: AddrSet): AddrSet {
    AddrSet(a.addrs + b.addrs, a.tags + b.tags)
  }

  /** The join of a sequence of address sets, merged from left to right into the empty set. */
  function JoinAll(vs: seq<AddrSet>): AddrSet {
    if vs == [] then EMPTY_SET else Join(JoinAll(vs[..|vs| - 1]), vs[|vs| - 1])
  }

  /** A store cell holds an address set or an object; an object is the list of its member addresses. */
  datatype Value = SetValue(contents: AddrSet) | ObjectValue(members: seq<nat>, tags: set<Tag>)

  // ---------- counting ----------

  lemma Smaller<T>(a: set<T>, b: set<T>)
    requires a <= b
    ensures |a| <= |b|
  {
    assert b == a + (b - a);
  }

  lemma TwoElements<T>(s: set<T>, x: T, y: T)
    requires x in s && y in s && x != y
    ensures |s| >= 2
  {
    assert s == {x, y} + (s - {x, y});
  }
}
