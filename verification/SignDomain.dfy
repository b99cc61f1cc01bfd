/**
 Arithmetic on constant addresses: an address stands for a set of signs, and each operation gives exactly
 the signs that its results can have.
 */
module SignDomain {

  const PREFIX: bv32 := 0xffffff00

  datatype Sign = Neg | Zero | Pos

  function Bit(s: Sign): bv32 {
    match s
    case Neg => 0x01
    case Zero => 0x02
    case Pos => 0x04
  }

  /** `CESK_STORE_ADDR_CONST_CONTAIN`. */
  predicate Contains(a: bv32, s: Sign) {
    (a & PREFIX) == PREFIX && (a & Bit(s)) != 0
  }

  /** `CESK_STORE_ADDR_CONST_SET`. */
  function With(a: bv32, s: Sign): bv32 {
    a | Bit(s)
  }

  /** Sets a sign if the condition holds. */
  function WithIf(a: bv32, c: bool, s: Sign): bv32 {
    if c then With(a, s) else a
  }

  function SignOf(x: int): Sign {
    if x < 0 then Neg else if x == 0 then Zero else Pos
  }

  /** The integers an address stands for. */
  predicate Has(a: bv32, x: int) {
    Contains(a, SignOf(x))
  }

  // ---------- the operations ----------

  function Negate(a: bv32): bv32 {
    var r1 := WithIf(PREFIX, Contains(a, Neg), Pos);
    var r2 := WithIf(r1, Contains(a, Pos), Neg);
    WithIf(r2, Contains(a, Zero), Zero)
  }

  function Add(a: bv32, b: bv32): bv32 {
    var r1 := WithIf(PREFIX, Contains(a, Neg) && Contains(b, Neg), Neg);
    var r2 := WithIf(r1, Contains(a, Neg) && Contains(b, Zero), Neg);
    var r3 := WithIf(r2, Contains(a, Neg) && Contains(b, Pos), Neg);
    var r4 := WithIf(r3, Contains(a, Neg) && Contains(b, Pos), Pos);
    var r5 := WithIf(r4, Contains(a, Neg) && Contains(b, Pos), Zero);
    var r6 := WithIf(r5, Contains(a, Zero) && Contains(b, Neg), Neg);
    var r7 := WithIf(r6, Contains(a, Zero) && Contains(b, Zero), Zero);
    var r8 := WithIf(r7, Contains(a, Zero) && Contains(b, Pos), Pos);
    var r9 := WithIf(r8, Contains(a, Pos) && Contains(b, Neg), Neg);
    var r10 := WithIf(r9, Contains(a, Pos) && Contains(b, Neg), Pos);
    var r11 := WithIf(r10, Contains(a, Pos) && Contains(b, Neg), Zero);
    var r12 := WithIf(r11, Contains(a, Pos) && Contains(b, Zero), Pos);
    WithIf(r12, Contains(a, Pos) && Contains(b, Pos), Pos)
  }

  function Subtract(a: bv32, b: bv32): bv32 {
    Add(a, Negate(b))
  }

  function Multiply(a: bv32, b: bv32): bv32 {
    var r1 := WithIf(PREFIX, Contains(a, Neg) && Contains(b, Neg), Pos);
    var r2 := WithIf(r1, Contains(a, Neg) && Contains(b, Zero), Zero);
    var r3 := WithIf(r2, Contains(a, Neg) && Contains(b, Pos), Neg);
    var r4 := WithIf(r3, Contains(a, Zero) && Contains(b, Neg), Zero);
    var r5 := WithIf(r4, Contains(a, Zero) && Contains(b, Zero), Zero);
    var r6 := WithIf(r5, Contains(a, Zero) && Contains(b, Pos), Zero);
    var r7 := WithIf(r6, Contains(a, Pos) && Contains(b, Neg), Neg);
    var r8 := WithIf(r7, Contains(a, Pos) && Contains(b, Zero), Zero);
    WithIf(r8, Contains(a, Pos) && Contains(b, Pos), Pos)
  }

  // ---------- what they contain ----------

  /** A constant address. */
  predicate Const(a: bv32) {
    (a & PREFIX) == PREFIX
  }

  lemma PrefixEmpty(s: Sign)
    ensures Const(PREFIX) && !Contains(PREFIX, s)
  {
  }

  lemma WithContains(a: bv32, s: Sign, t: Sign)
    requires Const(a)
    ensures Const(With(a, s)) && (Contains(With(a, s), t) <==> Contains(a, t) || s == t)
  {
  }

  lemma WithIfContains(a: bv32, c: bool, s: Sign)
    requires Const(a)
    ensures Const(WithIf(a, c, s)) && forall t :: Contains(WithIf(a, c, s), t) <==> Contains(a, t) || (c && s == t)
  {
    hide Const, Contains, With;
    if c {
      forall t
        ensures Contains(With(a, s), t) <==> Contains(a, t) || s == t
      {
        WithContains(a, s, t);
      }
      WithContains(a, s, s);
    }
  }

  lemma Empty()
    ensures Const(PREFIX) && forall s :: !Contains(PREFIX, s)
  {
    PrefixEmpty(Neg);
    PrefixEmpty(Zero);
    PrefixEmpty(Pos);
  }

  // ---------- sign by sign ----------

  lemma NegateSigns(a: bv32)
    ensures Contains(Negate(a), Neg) <==> Contains(a, Pos)
    ensures Contains(Negate(a), Zero) <==> Contains(a, Zero)
    ensures Contains(Negate(a), Pos) <==> Contains(a, Neg)
  {
    hide Const, Contains, With, WithIf;
    Empty();
    WithIfContains(PREFIX, Contains(a, Neg), Pos);
    var r1 := WithIf(PREFIX, Contains(a, Neg), Pos);
    WithIfContains(r1, Contains(a, Pos), Neg);
    var r2 := WithIf(r1, Contains(a, Pos), Neg);
    WithIfContains(r2, Contains(a, Zero), Zero);
  }

  lemma AddSigns(a: bv32, b: bv32)
    ensures Contains(Add(a, b), Neg) <==>
            (Contains(a, Neg) && (Contains(b, Neg) || Contains(b, Zero) || Contains(b, Pos))) || ((Contains(a, Zero) || Contains(a, Pos)) && Contains(b, Neg))
    ensures Contains(Add(a, b), Zero) <==>
            (Contains(a, Neg) && Contains(b, Pos)) || (Contains(a, Zero) && Contains(b, Zero)) || (Contains(a, Pos) && Contains(b, Neg))
    ensures Contains(Add(a, b), Pos) <==>
            (Contains(a, Pos) && (Contains(b, Neg) || Contains(b, Zero) || Contains(b, Pos))) || ((Contains(a, Zero) || Contains(a, Neg)) && Contains(b, Pos))
  {
    hide Const, Contains, With, WithIf;
    Empty();
    WithIfContains(PREFIX, Contains(a, Neg) && Contains(b, Neg), Neg);
    var r1 := WithIf(PREFIX, Contains(a, Neg) && Contains(b, Neg), Neg);
    WithIfContains(r1, Contains(a, Neg) && Contains(b, Zero), Neg);
    var r2 := WithIf(r1, Contains(a, Neg) && Contains(b, Zero), Neg);
    WithIfContains(r2, Contains(a, Neg) && Contains(b, Pos), Neg);
    var r3 := WithIf(r2, Contains(a, Neg) && Contains(b, Pos), Neg);
    WithIfContains(r3, Contains(a, Neg) && Contains(b, Pos), Pos);
    var r4 := WithIf(r3, Contains(a, Neg) && Contains(b, Pos), Pos);
    WithIfContains(r4, Contains(a, Neg) && Contains(b, Pos), Zero);
    var r5 := WithIf(r4, Contains(a, Neg) && Contains(b, Pos), Zero);
    WithIfContains(r5, Contains(a, Zero) && Contains(b, Neg), Neg);
    var r6 := WithIf(r5, Contains(a, Zero) && Contains(b, Neg), Neg);
    WithIfContains(r6, Contains(a, Zero) && Contains(b, Zero), Zero);
    var r7 := WithIf(r6, Contains(a, Zero) && Contains(b, Zero), Zero);
    WithIfContains(r7, Contains(a, Zero) && Contains(b, Pos), Pos);
    var r8 := WithIf(r7, Contains(a, Zero) && Contains(b, Pos), Pos);
    WithIfContains(r8, Contains(a, Pos) && Contains(b, Neg), Neg);
    var r9 := WithIf(r8, Contains(a, Pos) && Contains(b, Neg), Neg);
    WithIfContains(r9, Contains(a, Pos) && Contains(b, Neg), Pos);
    var r10 := WithIf(r9, Contains(a, Pos) && Contains(b, Neg), Pos);
    WithIfContains(r10, Contains(a, Pos) && Contains(b, Neg), Zero);
    var r11 := WithIf(r10, Contains(a, Pos) && Contains(b, Neg), Zero);
    WithIfContains(r11, Contains(a, Pos) && Contains(b, Zero), Pos);
    var r12 := WithIf(r11, Contains(a, Pos) && Contains(b, Zero), Pos);
    WithIfContains(r12, Contains(a, Pos) && Contains(b, Pos), Pos);
  }

  lemma MultiplySigns(a: bv32, b: bv32)
    ensures Contains(Multiply(a, b), Neg) <==> (Contains(a, Neg) && Contains(b, Pos)) || (Contains(a, Pos) && Contains(b, Neg))
    ensures Contains(Multiply(a, b), Zero) <==>
            (Contains(a, Zero) && (Contains(b, Neg) || Contains(b, Zero) || Contains(b, Pos))) || ((Contains(a, Neg) || Contains(a, Pos)) && Contains(b, Zero))
    ensures Contains(Multiply(a, b), Pos) <==> (Contains(a, Neg) && Contains(b, Neg)) || (Contains(a, Pos) && Contains(b, Pos))
  {
    hide Const, Contains, With, WithIf;
    Empty();
    WithIfContains(PREFIX, Contains(a, Neg) && Contains(b, Neg), Pos);
    var r1 := WithIf(PREFIX, Contains(a, Neg) && Contains(b, Neg), Pos);
    WithIfContains(r1, Contains(a, Neg) && Contains(b, Zero), Zero);
    var r2 := WithIf(r1, Contains(a, Neg) && Contains(b, Zero), Zero);
    WithIfContains(r2, Contains(a, Neg) && Contains(b, Pos), Neg);
    var r3 := WithIf(r2, Contains(a, Neg) && Contains(b, Pos), Neg);
    WithIfContains(r3, Contains(a, Zero) && Contains(b, Neg), Zero);
    var r4 := WithIf(r3, Contains(a, Zero) && Contains(b, Neg), Zero);
    WithIfContains(r4, Contains(a, Zero) && Contains(b, Zero), Zero);
    var r5 := WithIf(r4, Contains(a, Zero) && Contains(b, Zero), Zero);
    WithIfContains(r5, Contains(a, Zero) && Contains(b, Pos), Zero);
    var r6 := WithIf(r5, Contains(a, Zero) && Contains(b, Pos), Zero);
    WithIfContains(r6, Contains(a, Pos) && Contains(b, Neg), Neg);
    var r7 := WithIf(r6, Contains(a, Pos) && Contains(b, Neg), Neg);
    WithIfContains(r7, Contains(a, Pos) && Contains(b, Zero), Zero);
    var r8 := WithIf(r7, Contains(a, Pos) && Contains(b, Zero), Zero);
    WithIfContains(r8, Contains(a, Pos) && Contains(b, Pos), Pos);
  }

  // ---------- sound and best ----------

  /** `-x` for every `x` that `a` stands for, and no other sign. */
  lemma NegateExact(a: bv32, t: Sign)
    ensures Contains(Negate(a), t) <==> exists x :: Has(a, x) && SignOf(-x) == t
  {
    hide Contains, Negate;
    NegateSigns(a);
    if Contains(Negate(a), t) {
      var x := match t case Neg => 1 case Zero => 0 case Pos => -1;
      assert Has(a, x) && SignOf(-x) == t;
    }
  }

  /** The pair of integers `x` and `y` that `a` and `b` stand for has a sum with sign `t`. */
  ghost predicate SumHas(a: bv32, b: bv32, x: int, y: int, t: Sign) {
    Has(a, x) && Has(b, y) && SignOf(x + y) == t
  }

  /** A sum of integers with the given signs can have sign `t`. */
  lemma SumWitness(s: Sign, r: Sign, t: Sign) returns (x: int, y: int)
    requires match t
             case Neg => s == Neg || r == Neg
             case Zero => (s == Zero && r == Zero) || (s == Neg && r == Pos) || (s == Pos && r == Neg)
             case Pos => s == Pos || r == Pos
    ensures SignOf(x) == s && SignOf(y) == r && SignOf(x + y) == t
  {
    x := match s case Neg => if t == Neg then -2 else -1 case Zero => 0 case Pos => if t == Pos then 2 else 1;
    y := match r case Neg => if t == Neg then -2 else -1 case Zero => 0 case Pos => if t == Pos then 2 else 1;
  }

  /** Addition: the sign of every sum, and no sign that no sum has. */
  lemma AddExact(a: bv32, b: bv32, t: Sign)
    ensures Contains(Add(a, b), t) <==> exists x, y :: SumHas(a, b, x, y, t)
  {
    hide Contains, Add;
    AddSigns(a, b);
    if Contains(Add(a, b), t) {
      var s, r := SumSigns(a, b, t);
      var x, y := SumWitness(s, r, t);
      assert SumHas(a, b, x, y, t);
    }
  }

  lemma SumSigns(a: bv32, b: bv32, t: Sign) returns (s: Sign, r: Sign)
    requires Contains(Add(a, b), t)
    ensures Contains(a, s) && Contains(b, r)
    ensures match t
            case Neg => s == Neg || r == Neg
            case Zero => (s == Zero && r == Zero) || (s == Neg && r == Pos) || (s == Pos && r == Neg)
            case Pos => s == Pos || r == Pos
  {
    hide Contains, Add;
    AddSigns(a, b);
    s := if t == Zero then (if Contains(a, Neg) && Contains(b, Pos) then Neg else if Contains(a, Zero) && Contains(b, Zero) then Zero else Pos)
         else if Contains(a, t) then t else if Contains(a, Zero) then Zero else if t == Neg then Pos else Neg;
    r := if t == Zero then (match s case Neg => Pos case Zero => Zero case Pos => Neg)
         else if Contains(b, t) then t else if Contains(b, Zero) then Zero else if t == Neg then Pos else Neg;
  }

  /** Subtraction, by way of negation. */
  lemma SubtractExact(a: bv32, b: bv32, t: Sign)
    ensures Contains(Subtract(a, b), t) <==> exists x, y :: Has(a, x) && Has(b, y) && SignOf(x - y) == t
  {
    hide Contains, Add, Negate;
    AddExact(a, Negate(b), t);
    NegateSigns(b);
    if Contains(Subtract(a, b), t) {
      var x, z :| SumHas(a, Negate(b), x, z, t);
      assert Has(b, -z) && x - (-z) == x + z;
    }
    if x, y :| Has(a, x) && Has(b, y) && SignOf(x - y) == t {
      assert SumHas(a, Negate(b), x, -y, t);
    }
  }

  lemma ProductSign(x: int, y: int)
    ensures SignOf(x * y) == if x == 0 || y == 0 then Zero else if (x < 0) == (y < 0) then Pos else Neg
  {
  }

  /** The pair of integers `x` and `y` that `a` and `b` stand for has a product with sign `t`. */
  ghost predicate ProductHas(a: bv32, b: bv32, x: int, y: int, t: Sign) {
    Has(a, x) && Has(b, y) && SignOf(x * y) == t
  }

  /** Multiplication: the sign of every product, and no sign that no product has. */
  lemma MultiplyExact(a: bv32, b: bv32, t: Sign)
    ensures Contains(Multiply(a, b), t) <==> exists x, y :: ProductHas(a, b, x, y, t)
  {
    hide Contains, Multiply;
    MultiplySigns(a, b);
    if x, y :| ProductHas(a, b, x, y, t) {
      ProductSign(x, y);
    }
    if Contains(Multiply(a, b), t) {
      var x := if t == Zero then (if Contains(a, Zero) then 0 else if Contains(a, Neg) then -1 else 1)
               else if Contains(a, Neg) && Contains(b, if t == Neg then Pos else Neg) then -1 else 1;
      var y := if t == Zero then (if Contains(b, Zero) then 0 else if Contains(b, Neg) then -1 else 1)
               else if (t == Pos) == (x > 0) then 1 else -1;
      ProductSign(x, y);
      assert ProductHas(a, b, x, y, t);
    }
  }

  /** The signs as addresses: 0xffffff01 is negative, 0xffffff02 zero and 0xffffff04 positive. */
  lemma KnownConstants()
    ensures Negate(0xffffff01) == 0xffffff04 && Negate(0xffffff02) == 0xffffff02 && Negate(0xffffff04) == 0xffffff01
    ensures Add(0xffffff01, 0xffffff04) == 0xffffff07 && Subtract(0xffffff02, 0xffffff04) == 0xffffff01
    ensures Multiply(0xffffff01, 0xffffff05) == 0xffffff05 && Multiply(0xffffff02, 0xffffff07) == 0xffffff02
  {
  }
}
