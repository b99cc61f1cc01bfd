/**
 The string pool: a batch and a streaming form of one hash, and interning on top of them.
 */
module StringPools {
  import opened Values
  import opened HashChains

  /** A C string without its terminating zero. */
  type Bytes = seq<bv8>

  /** The four hash words: Murmur3, sum, product and ELF. */
  datatype Hashes = Hashes(murmur: bv32, sum: bv32, mult: bv32, elf: bv32)

  const INITIAL := Hashes(0xf3f53423, 0, 0x23f4537, 0)

  // ---------- mixing ----------

  function Scramble(k: bv32): bv32 {
    var a := k * 0xcc9e2d51;
    var b := (a << 15) | (a >> 17);
    b * 0x1b873593
  }

  /** Takes four bytes, as a little-endian word, into the Murmur hash. */
  function MixWord(h: bv32, k: bv32): bv32 {
    var a := h ^ Scramble(k);
    var b := a * ((a << 13) | (a >> 19));
    b ^ (b * 5 + 0xe6546b64)
  }

  /** Takes one byte into the other three hashes. */
  function MixByte(h: Hashes, d: bv8): Hashes {
    var x := d as bv32;
    var e := (h.elf << 4) + x;
    var g := e & 0xf0000000;
    Hashes(h.murmur,
           (h.sum + x + (x << 17) + (x >> 15)) % 0xfffe7985,
           h.mult + x * x,
           (if g != 0 then e ^ (g >> 24) else e) & !g)
  }

  function Finish(h: bv32, rest: Option<bv32>, count: nat): bv32 {
    var a := if rest.Some? then h ^ Scramble(rest.value) else h;
    Avalanche(a ^ Count32(count))
  }

  function Count32(count: nat): bv32 {
    (count % 0x1_0000_0000) as bv32
  }

  function Avalanche(b: bv32): bv32 {
    var c := (b ^ (b >> 16)) * 0x85ebca6b;
    var d := (c ^ (c >> 13)) * 0xc2b2ae35;
    d ^ (d >> 16)
  }

  // ---------- the hash as a function of the string ----------

  /** A byte at position `k` of a word, lowest first. */
  function Placed(x: bv8, k: nat): bv32
    requires k < 4
  {
    if k == 0 then x as bv32 else if k == 1 then (x as bv32) << 8 else if k == 2 then (x as bv32) << 16 else (x as bv32) << 24
  }

  function Or(a: bv32, b: bv32): bv32 {
    a | b
  }

  function Word(a: bv8, b: bv8, c: bv8, d: bv8): bv32 {
    Or(Placed(d, 3), Or(Placed(c, 2), Or(Placed(b, 1), Placed(a, 0))))
  }

  /** The word that ends at position `i`, read little-endian. */
  function WordAt(s: Bytes, i: nat): bv32
    requires 4 <= i <= |s|
  {
    Word(s[i - 4], s[i - 3], s[i - 2], s[i - 1])
  }

  /** The hashes after the whole of `s` has been read; the last bytes are still to be mixed in. */
  function Scan(s: Bytes): Hashes {
    if s == [] then INITIAL
    else
      var n := |s| - 1;
      Absorb(Scan(s[..n]), if n >= 4 && n % 4 == 0 then Some(WordAt(s, n)) else None, s[n])
  }

  function Absorb(h: Hashes, word: Option<bv32>, d: bv8): Hashes {
    MixByte(if word.Some? then h.(murmur := MixWord(h.murmur, word.value)) else h, d)
  }

  /** The one to four bytes that no word has taken in yet, the last one lowest. */
  function Tail(s: Bytes): Option<bv32> {
    var n := |s|;
    if n == 0 then None
    else if n % 4 == 1 then Some(Word(s[n - 1], 0, 0, 0))
    else if n % 4 == 2 then Some(Word(s[n - 1], s[n - 2], 0, 0))
    else if n % 4 == 3 then Some(Word(s[n - 1], s[n - 2], s[n - 3], 0))
    else Some(Word(s[n - 1], s[n - 2], s[n - 3], s[n - 4]))
  }

  function Digest(s: Bytes): Hashes {
    var h := Scan(s);
    h.(murmur := Finish(h.murmur, Tail(s), |s|))
  }

  lemma ScanNext(s: Bytes, n: nat)
    requires n < |s|
    ensures Scan(s[..n + 1]) == Absorb(Scan(s[..n]), if n >= 4 && n % 4 == 0 then Some(WordAt(s, n)) else None, s[n])
  {
    hide Absorb;
    assert s[..n + 1][..n] == s[..n];
  }

  // ---------- the batch form ----------

  /** `_stringpool_hash_func`; returns the hashes and the length. */
  method BatchHash(s: Bytes) returns (h: Hashes, len: nat)
    ensures h == Digest(s) && len == |s|
  {
    hide MixWord, MixByte, Finish, Word, Scramble;
    h := INITIAL;
    var i := 0;
    while i < |s|
      invariant i <= |s| && h == Scan(s[..i])
    {
      ScanNext(s, i);
      if i % 4 == 0 && i != 0 {
        h := h.(murmur := MixWord(h.murmur, Word(s[i - 4], s[i - 3], s[i - 2], s[i - 1])));
      }
      h := MixByte(h, s[i]);
      i := i + 1;
    }
    assert s[..i] == s;
    var remaining: Option<bv32> := None;
    if i > 0 {
      if i % 4 == 0 {
        remaining := Some(Word(s[i - 1], s[i - 2], s[i - 3], s[i - 4]));
      } else if i % 4 == 3 {
        remaining := Some(Word(s[i - 1], s[i - 2], s[i - 3], 0));
      } else if i % 4 == 2 {
        remaining := Some(Word(s[i - 1], s[i - 2], 0, 0));
      } else {
        remaining := Some(Word(s[i - 1], 0, 0, 0));
      }
    }
    h := h.(murmur := Finish(h.murmur, remaining, i));
    len := i;
  }

  // ---------- the streaming form ----------

  /** Byte `k` of a word, lowest first. */
  function Byte(w: bv32, k: nat): bv8
    requires k < 4
  {
    if k == 0 then (w & 0xff) as bv8
    else if k == 1 then ((w >> 8) & 0xff) as bv8
    else if k == 2 then ((w >> 16) & 0xff) as bv8
    else ((w >> 24) & 0xff) as bv8
  }

  function Shifted(last: bv32, d: bv8): bv32 {
    (last >> 8) | ((d as bv32) << 24)
  }

  lemma ShiftBytes(last: bv32, d: bv8)
    ensures Byte(Shifted(last, d), 3) == d && Byte(Shifted(last, d), 2) == Byte(last, 3)
    ensures Byte(Shifted(last, d), 1) == Byte(last, 2) && Byte(Shifted(last, d), 0) == Byte(last, 1)
  {
  }

  lemma WordOfBytes(last: bv32)
    ensures last == Word(Byte(last, 0), Byte(last, 1), Byte(last, 2), Byte(last, 3))
  {
  }

  /** `last` ends with the last bytes of `s`, at most four of them; the others can be anything. */
  ghost predicate Trails(last: bv32, s: Bytes) {
    var n := |s|;
    && (n >= 1 ==> Byte(last, 3) == s[n - 1])
    && (n >= 2 ==> Byte(last, 2) == s[n - 2])
    && (n >= 3 ==> Byte(last, 1) == s[n - 3])
    && (n >= 4 ==> Byte(last, 0) == s[n - 4])
  }

  lemma TrailsNext(last: bv32, s: Bytes, d: bv8)
    requires Trails(last, s)
    ensures Trails(Shifted(last, d), s + [d])
  {
    hide Byte, Shifted;
    ShiftBytes(last, d);
  }

  /** The last one to four bytes, masked out of `last` and brought into the order of a tail. */
  function Mask1(last: bv32): bv32 { (last & 0xff000000) >> 24 }

  function Mask2(last: bv32): bv32 { Or((last & 0x00ff0000) >> 8, Mask1(last)) }

  function Mask3(last: bv32): bv32 { Or((last & 0x0000ff00) << 8, Mask2(last)) }

  function Mask4(last: bv32): bv32 { Or((last & 0x000000ff) << 24, Mask3(last)) }

  /** What the accumulator still holds of the string. */
  function Held(last: bv32, count: nat): Option<bv32> {
    if count == 0 then None
    else if count % 4 == 1 then Some(Mask1(last))
    else if count % 4 == 2 then Some(Mask2(last))
    else if count % 4 == 3 then Some(Mask3(last))
    else Some(Mask4(last))
  }

  lemma MaskedBytes(last: bv32)
    ensures (last & 0xff000000) >> 24 == Placed(Byte(last, 3), 0) && (last & 0x00ff0000) >> 8 == Placed(Byte(last, 2), 1)
    ensures (last & 0x0000ff00) << 8 == Placed(Byte(last, 1), 2) && (last & 0x000000ff) << 24 == Placed(Byte(last, 0), 3)
  {
  }

  lemma NoByte(x: bv32)
    ensures Placed(0, 1) == 0 && Placed(0, 2) == 0 && Placed(0, 3) == 0 && Or(0, x) == x
  {
  }

  /** The masks leave words of the bytes of `last`. */
  lemma MasksAreWords(last: bv32)
    ensures Mask1(last) == Word(Byte(last, 3), 0, 0, 0) && Mask2(last) == Word(Byte(last, 3), Byte(last, 2), 0, 0)
    ensures Mask3(last) == Word(Byte(last, 3), Byte(last, 2), Byte(last, 1), 0)
    ensures Mask4(last) == Word(Byte(last, 3), Byte(last, 2), Byte(last, 1), Byte(last, 0))
  {
    hide Byte, Placed, Or;
    MaskedBytes(last);
    NoByte(Mask1(last));
    NoByte(Mask2(last));
    NoByte(Mask3(last));
  }

  /** The bytes held back are the tail of the string, whatever `last` was at the start. */
  lemma HeldIsTail(last: bv32, s: Bytes)
    requires Trails(last, s)
    ensures Held(last, |s|) == Tail(s)
  {
    hide Byte, Word, Mask1, Mask2, Mask3, Mask4;
    MasksAreWords(last);
  }

  class Accumulator {
    /** The text that is being scanned. */
    const begin: Bytes
    var count: nat
    var h: Hashes
    var last: bv32
    /** The characters received so far. */
    ghost var s: Bytes

    /** `last` starts with whatever the memory holds. */
    constructor (begin: Bytes, garbage: bv32)
      ensures Valid() && s == [] && this.begin == begin
    {
      this.begin := begin;
      count, h, last, s := 0, INITIAL, garbage, [];
    }

    ghost predicate Valid()
      reads this
    {
      count == |s| && h == Scan(s) && Trails(last, s)
    }

    /** `stringpool_accumulator_next`. */
    method Next(d: bv8)
      requires Valid()
      modifies this
      ensures Valid() && s == old(s) + [d]
    {
      hide MixWord, MixByte, Word, Byte, Shifted;
      TrailsNext(last, s, d);
      ghost var s' := s + [d];
      assert s'[..|s|] == s;
      if count % 4 == 0 && count != 0 {
        WordOfBytes(last);
        assert last == WordAt(s', |s|);
        h := h.(murmur := MixWord(h.murmur, last));
      }
      h := MixByte(h, d);
      last := Shifted(last, d);
      count := count + 1;
      s := s';
    }

    /** `_stringpool_accu_hash`: the streaming hash is the batch hash. The accumulator is used up by it. */
    method Close()
      requires Valid()
      modifies this`h
      ensures h == Digest(s)
    {
      hide MixWord, MixByte, Word, Finish, Held, Scan;
      HeldIsTail(last, s);
      h := h.(murmur := Finish(h.murmur, Held(last, count), count));
    }
  }

  // ---------- interning ----------

  /** The pooled string of each content: stored under its own hashes, and no two contents share one. */
  ghost predicate Interned(m: map<(Hashes, Bytes), nat>, next: nat) {
    && (forall k :: k in m ==> k.0 == Digest(k.1) && m[k] < next)
    && (forall j, k :: j in m && k in m && m[j] == m[k] ==> j == k)
  }

  lemma InternedNext(m: map<(Hashes, Bytes), nat>, next: nat, s: Bytes)
    requires Interned(m, next) && (Digest(s), s) !in m
    ensures Interned(m[(Digest(s), s) := next], next + 1)
  {
    hide Digest;
  }

  lemma InternedOnce(m: map<(Hashes, Bytes), nat>, next: nat, s: Bytes)
    requires Interned(m, next) && (Digest(s), s) in m
    ensures forall k :: k in m && m[k] == m[(Digest(s), s)] ==> k.1 == s
  {
    hide Digest;
  }

  class Pool {
    const table: Table<(Hashes, Bytes), nat>
    /** The next fresh pooled string. */
    var next: nat

    constructor (size: nat)
      requires size > 0
      ensures Valid() && fresh(table) && table.m == map[]
    {
      table := new Table<(Hashes, Bytes), nat>(size, (k: (Hashes, Bytes)) => k.0.murmur as nat);
      next := 0;
    }

    ghost predicate Valid()
      reads this, table
    {
      table.Valid() && Interned(table.m, next)
    }

    /** `_stringpool_query_imp`: the pooled string with these hashes and contents, added if it is missing. */
    method QueryWith(h: Hashes, s: Bytes) returns (str: nat)
      requires Valid() && h == Digest(s)
      modifies this, table
      ensures Valid() && Same(s, str) && (forall k :: k in old(table.m) ==> k in table.m && table.m[k] == old(table.m)[k])
    {
      hide Digest, Interned;
      var found := table.Find((h, s));
      if found.Some? {
        InternedOnce(table.m, next, s);
        return found.value;
      }
      InternedNext(table.m, next, s);
      table.Insert((h, s), next);
      str := next;
      next := next + 1;
      InternedOnce(table.m, next, s);
    }

    /** `str` is the pooled string of `s` and of no other contents. */
    ghost predicate Same(s: Bytes, str: nat)
      reads table
    {
      && (Digest(s), s) in table.m && table.m[(Digest(s), s)] == str
      && forall k :: k in table.m && table.m[k] == str ==> k.1 == s
    }

    lemma SameStored(s: Bytes, str: nat)
      requires Same(s, str)
      ensures Stored(table.m, s, str)
    {
    }

    /** `stringpool_query`. */
    method Query(s: Bytes) returns (str: nat)
      requires Valid()
      modifies this, table
      ensures Valid() && Same(s, str) && (forall k :: k in old(table.m) ==> k in table.m && table.m[k] == old(table.m)[k])
    {
      hide Digest, Interned;
      var h, len := BatchHash(s);
      str := QueryWith(h, s);
    }

    /** `stringpool_accumulator_query`, after the start of the text has been fed to the accumulator. */
    method QueryAccumulator(acc: Accumulator) returns (str: nat)
      requires Valid() && acc.Valid() && acc.s <= acc.begin
      modifies this, table, acc`h
      ensures Valid() && Same(acc.s, str) && (forall k :: k in old(table.m) ==> k in table.m && table.m[k] == old(table.m)[k])
    {
      hide Digest, Interned, Trails, Scan;
      acc.Close();
      assert acc.begin[..acc.count] == acc.s;
      str := QueryWith(acc.h, acc.begin[..acc.count]);
    }

    /** Feeds a text to a fresh accumulator and queries it. */
    method QueryStream(s: Bytes, garbage: bv32) returns (str: nat)
      requires Valid()
      modifies this, table
      ensures Valid() && Same(s, str) && (forall k :: k in old(table.m) ==> k in table.m && table.m[k] == old(table.m)[k])
    {
      hide Digest, Interned, Trails, Scan;
      var acc := new Accumulator(s, garbage);
      for i := 0 to |s|
        invariant acc.Valid() && acc.s == s[..i] && acc.begin == s && fresh(acc)
        invariant Valid() && table.m == old(table.m)
      {
        acc.Next(s[i]);
      }
      assert s[..|s|] == s;
      str := QueryAccumulator(acc);
    }

    /** Over any mix of both forms, two queries give the same pooled string exactly if their contents are equal. */
    method QueryAll(qs: seq<Query>) returns (strs: seq<nat>)
      requires Valid()
      modifies this, table
      ensures Valid() && |strs| == |qs|
      ensures forall i, j :: 0 <= i < |qs| && 0 <= j < |qs| ==> (strs[i] == strs[j] <==> qs[i].s == qs[j].s)
    {
      hide Digest, Interned, Stored, Same;
      strs := [];
      for i := 0 to |qs|
        invariant Valid() && |strs| == i
        invariant forall k :: 0 <= k < i ==> Stored(table.m, qs[k].s, strs[k])
      {
        ghost var m := table.m;
        var str;
        match qs[i] {
          case Batch(s) => str := Query(s);
          case Stream(s, garbage) => str := QueryStream(s, garbage);
        }
        StoredKept(m, table.m, qs[..i], strs);
        SameStored(qs[i].s, str);
        strs := strs + [str];
      }
      forall i, j | 0 <= i < |qs| && 0 <= j < |qs|
        ensures strs[i] == strs[j] <==> qs[i].s == qs[j].s
      {
        StoredApart(table.m, next, qs[i].s, strs[i], qs[j].s, strs[j]);
      }
    }
  }

  datatype Query = Batch(s: Bytes) | Stream(s: Bytes, garbage: bv32)

  ghost predicate Stored(m: map<(Hashes, Bytes), nat>, s: Bytes, str: nat) {
    (Digest(s), s) in m && m[(Digest(s), s)] == str
  }

  lemma StoredKept(m: map<(Hashes, Bytes), nat>, m': map<(Hashes, Bytes), nat>, qs: seq<Query>, strs: seq<nat>)
    requires |qs| == |strs| && (forall k :: 0 <= k < |qs| ==> Stored(m, qs[k].s, strs[k])) && forall k :: k in m ==> k in m' && m'[k] == m[k]
    ensures forall k :: 0 <= k < |qs| ==> Stored(m', qs[k].s, strs[k])
  {
    hide Digest;
  }

  lemma StoredApart(m: map<(Hashes, Bytes), nat>, next: nat, s: Bytes, a: nat, t: Bytes, b: nat)
    requires Interned(m, next) && Stored(m, s, a) && Stored(m, t, b)
    ensures a == b <==> s == t
  {
    hide Digest;
  }

  // ---------- values ----------

  lemma MixedBytes()
    ensures MixByte(Hashes(0xf3f53423, 0x0, 0x23f4537, 0x0), 97) == Hashes(0xf3f53423, 0xc20061, 0x23f69f8, 0x61)
    ensures MixByte(Hashes(0xf3f53423, 0xc20061, 0x23f69f8, 0x61), 98) == Hashes(0xf3f53423, 0x18600c3, 0x23f8f7c, 0x672)
    ensures MixByte(Hashes(0xf3f53423, 0x18600c3, 0x23f8f7c, 0x672), 99) == Hashes(0xf3f53423, 0x24c0126, 0x23fb5c5, 0x6783)
    ensures MixByte(Hashes(0xf3f53423, 0x24c0126, 0x23fb5c5, 0x6783), 100) == Hashes(0xf3f53423, 0x314018a, 0x23fdcd5, 0x67894)
    ensures MixByte(Hashes(0xa7a98e4, 0x314018a, 0x23fdcd5, 0x67894), 101) == Hashes(0xa7a98e4, 0x3de01ef, 0x24004ae, 0x6789a5)
    ensures MixByte(Hashes(0xa7a98e4, 0x3de01ef, 0x24004ae, 0x6789a5), 102) == Hashes(0xa7a98e4, 0x4aa0255, 0x2402d52, 0x6789ab6)
    ensures MixByte(Hashes(0xa7a98e4, 0x4aa0255, 0x2402d52, 0x6789ab6), 103) == Hashes(0xa7a98e4, 0x57802bc, 0x24056c3, 0x789aba7)
    ensures MixByte(Hashes(0xa7a98e4, 0x57802bc, 0x24056c3, 0x789aba7), 104) == Hashes(0xa7a98e4, 0x6480324, 0x2408103, 0x89abaa8)
    ensures MixByte(Hashes(0x3fff2e44, 0x6480324, 0x2408103, 0x89abaa8), 105) == Hashes(0x3fff2e44, 0x71a038d, 0x240ac14, 0x9abaa69)
  {
  }

  lemma Scrambled()
    ensures Scramble(0x64636261) == 0x5b9433b7 && Scramble(0x68676665) == 0x66de3772 && Scramble(105) == 0xe5b6b250
  {
  }

  lemma MixedWords()
    ensures MixWord(0xf3f53423, 0x64636261) == 0xa7a98e4 && MixWord(0xa7a98e4, 0x68676665) == 0x3fff2e44
  {
    hide Scramble;
    Scrambled();
  }

  lemma Finished()
    ensures Finish(0xf3f53423, None, 0) == 0xa749c3b4 && Finish(0x3fff2e44, Some(105), 9) == 0xe67c5de1
  {
    hide Scramble, Count32;
    Scrambled();
    CountNone();
    CountNine();
  }

  lemma CountNone()
    ensures Count32(0) == 0
  {
  }

  lemma CountNine()
    ensures Count32(9) == 9
  {
  }

  lemma WordsOfBytes()
    ensures Word(97, 98, 99, 100) == 0x64636261 && Word(101, 102, 103, 104) == 0x68676665 && Word(105, 0, 0, 0) == 105
  {
  }

  /** The hashes of the empty string and of "abcdefghi", which takes in two words, a tail and the ELF carry. */
  lemma KnownDigests()
    ensures Digest([]) == Hashes(0xa749c3b4, 0x0, 0x23f4537, 0x0)
    ensures Digest([97, 98, 99, 100, 101, 102, 103, 104, 105]) == Hashes(0xe67c5de1, 0x71a038d, 0x240ac14, 0x9abaa69)
  {
    hide MixByte, MixWord, Finish, Word, Scan;
    var s: Bytes := [97, 98, 99, 100, 101, 102, 103, 104, 105];
    assert s[..0] == [] && s[..9] == s;
    ScanEmpty();
    Finished();
    WordsOfBytes();
    ScanFirst(s);
    ScanSecond(s);
  }

  lemma ScanEmpty()
    ensures Scan([]) == INITIAL
  {
  }

  lemma ScanFirst(s: Bytes)
    requires s == [97, 98, 99, 100, 101, 102, 103, 104, 105] && Scan(s[..0]) == INITIAL
    ensures Scan(s[..5]) == Hashes(0xa7a98e4, 0x3de01ef, 0x24004ae, 0x6789a5)
  {
    hide MixByte, MixWord, Word, Scan;
    MixedBytes();
    MixedWords();
    WordsOfBytes();
    ScanNext(s, 0);
    assert Scan(s[..1]) == Hashes(0xf3f53423, 0xc20061, 0x23f69f8, 0x61);
    ScanNext(s, 1);
    assert Scan(s[..2]) == Hashes(0xf3f53423, 0x18600c3, 0x23f8f7c, 0x672);
    ScanNext(s, 2);
    assert Scan(s[..3]) == Hashes(0xf3f53423, 0x24c0126, 0x23fb5c5, 0x6783);
    ScanNext(s, 3);
    assert Scan(s[..4]) == Hashes(0xf3f53423, 0x314018a, 0x23fdcd5, 0x67894);
    ScanNext(s, 4);
  }

  lemma ScanSecond(s: Bytes)
    requires s == [97, 98, 99, 100, 101, 102, 103, 104, 105] && Scan(s[..5]) == Hashes(0xa7a98e4, 0x3de01ef, 0x24004ae, 0x6789a5)
    ensures Scan(s[..9]) == Hashes(0x3fff2e44, 0x71a038d, 0x240ac14, 0x9abaa69)
  {
    hide MixByte, MixWord, Word, Scan;
    MixedBytes();
    MixedWords();
    WordsOfBytes();
    ScanNext(s, 5);
    assert Scan(s[..6]) == Hashes(0xa7a98e4, 0x4aa0255, 0x2402d52, 0x6789ab6);
    ScanNext(s, 6);
    assert Scan(s[..7]) == Hashes(0xa7a98e4, 0x57802bc, 0x24056c3, 0x789aba7);
    ScanNext(s, 7);
    assert Scan(s[..8]) == Hashes(0xa7a98e4, 0x6480324, 0x2408103, 0x89abaa8);
    ScanNext(s, 8);
  }
}
