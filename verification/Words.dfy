/** 32-bit hash words. */
module Words {
  /** `MH_MULTIPLY`, in 32 bits. */
  const MH_MULTIPLY: bv32 := 2654435761

  function Xor(a: bv32, b: bv32): bv32 {
    a ^ b
  }

  function Word(x: nat): bv32 {
    (x % 0x1_0000_0000) as bv32
  }

  lemma XorComm(a: bv32, b: bv32)
    ensures Xor(a, b) == Xor(b, a)
  {
  }

  lemma XorAssoc(a: bv32, b: bv32, c: bv32)
    ensures Xor(Xor(a, b), c) == Xor(a, Xor(b, c))
  {
  }

  lemma XorSwap(a: bv32, b: bv32, c: bv32)
    ensures Xor(Xor(a, b), c) == Xor(Xor(a, c), b)
  {
    hide Xor;
    XorAssoc(a, b, c);
    XorAssoc(a, c, b);
    XorComm(b, c);
  }

  lemma XorSame(a: bv32, b: bv32)
    ensures Xor(Xor(a, b), b) == a
  {
  }

  lemma XorZero(a: bv32)
    ensures Xor(a, 0) == a == Xor(0, a)
  {
  }
}
