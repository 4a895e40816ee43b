// GF(2^128) as in section 6.3 of NIST SP 800-38D: bit 127 of a block is the
// coefficient of x^0 and bit 0 that of x^127.
//
// Proofs about these operations hide their bodies: a bitwise fact is proved
// once, on bit vectors, and the algebra above it sees only named operations.
module Gf128 {

  const ONE: bv128 := 0x8000_0000_0000_0000_0000_0000_0000_0000
  const REDUCTION: bv128 := 0xe100_0000_0000_0000_0000_0000_0000_0000

  // x^i
  function PowX(i: bv8): bv128
    requires i < 128
  {
    ONE >> i
  }

  function Add(a: bv128, b: bv128): bv128 { a ^ b }

  // Multiplication by x: one step to the right, reducing a carried-out x^128.
  function TimesX(v: bv128): bv128 {
    if v & 1 == 0 then v >> 1 else (v >> 1) ^ REDUCTION
  }

  predicate Has(a: bv128, m: bv128) { a & m != 0 }

  // The sum of v * x^i over the bits of a from mask m downwards, i counting
  // from 0 at m.
  function MulFrom(a: bv128, m: bv128, v: bv128): bv128
    decreases m
  {
    if m == 0 then 0
    else Add(if Has(a, m) then v else 0, MulFrom(a, m >> 1, TimesX(v)))
  }

  // Algorithm 1 of NIST SP 800-38D.
  function Mul(a: bv128, b: bv128): bv128 { MulFrom(a, ONE, b) }

  // ----- Addition is exclusive or -----

  lemma AddIsXor(a: bv128, b: bv128)
    ensures Add(a, b) == a ^ b
  {
  }

  lemma AddRegroup(a: bv128, b: bv128, c: bv128)
    ensures Add(a ^ b, c) == Add(a, b ^ c)
  {
  }

  lemma AddLaws(a: bv128, b: bv128, c: bv128)
    ensures Add(a, b) == Add(b, a)
    ensures Add(Add(a, b), c) == Add(a, Add(b, c))
    ensures Add(a, 0) == a == Add(0, a)
    ensures Add(a, a) == 0
  {
    assert Add(a, b) == Add(b, a) && Add(a, 0) == a == Add(0, a) && Add(a, a) == 0;
    hide Add;
    AddRegroup(a, b, c); AddIsXor(a, b); AddIsXor(b, c);
  }

  lemma AddCross(a: bv128, b: bv128, c: bv128, d: bv128)
    ensures Add(Add(a, b), Add(c, d)) == Add(Add(a, c), Add(b, d))
  {
    hide Add;
    AddLaws(a, b, Add(c, d));
    AddLaws(b, c, d);
    AddLaws(c, b, d);
    AddLaws(a, c, Add(b, d));
  }

  // Adding two sums whose first terms are each t or nothing.
  lemma AddChoice(b: bool, c: bool, t: bv128, r: bv128, s: bv128)
    ensures Add(if b != c then t else 0, Add(r, s)) == Add(Add(if b then t else 0, r), Add(if c then t else 0, s))
  {
    hide Add;
    AddLaws(t, t, t); AddLaws(t, 0, 0); AddLaws(0, 0, 0);
    AddCross(if b then t else 0, r, if c then t else 0, s);
  }

  lemma AddIsZeroIffEqual(a: bv128, b: bv128)
    ensures Add(a, b) == 0 <==> a == b
  {
    hide Add;
    AddLaws(a, b, b);
    AddLaws(b, 0, 0);
  }

  // ----- Multiplication by x is additive -----

  // TimesX without a branch: the carried-out bit is moved to the places of
  // the reduction polynomial.
  function TimesXFlat(v: bv128): bv128 {
    (v >> 1) ^ (v << 127) ^ ((v << 127) >> 1) ^ ((v << 127) >> 2) ^ ((v << 127) >> 7)
  }

  lemma CarryOut(v: bv128)
    ensures v & 1 == 0 ==> v << 127 == 0
    ensures v & 1 != 0 ==> v << 127 == ONE
  {
  }

  lemma TimesXIsFlat(v: bv128)
    ensures TimesX(v) == TimesXFlat(v)
  {
    CarryOut(v);
    if v & 1 == 0 {
      assert v << 127 == 0;
    }
  }

  lemma FlatAdd(v: bv128, w: bv128)
    ensures Add((v >> 1) ^ (v << 127) ^ ((v << 127) >> 1) ^ ((v << 127) >> 2) ^ ((v << 127) >> 7),
                (w >> 1) ^ (w << 127) ^ ((w << 127) >> 1) ^ ((w << 127) >> 2) ^ ((w << 127) >> 7))
         == TimesXFlat(v ^ w)
    ensures TimesXFlat(v) == (v >> 1) ^ (v << 127) ^ ((v << 127) >> 1) ^ ((v << 127) >> 2) ^ ((v << 127) >> 7)
  {
  }

  lemma TimesXAdd(v: bv128, w: bv128)
    ensures TimesX(Add(v, w)) == Add(TimesX(v), TimesX(w)) && TimesX(0) == 0
  {
    assert TimesX(0) == 0;
    hide Add, TimesX, TimesXFlat;
    TimesXIsFlat(v); TimesXIsFlat(w); TimesXIsFlat(Add(v, w));
    FlatAdd(v, w); FlatAdd(w, v);
    AddIsXor(v, w);
  }

  // ----- The product is linear in both factors -----

  lemma {:induction false} MulFromAddRight(a: bv128, m: bv128, v: bv128, w: bv128)
    ensures MulFrom(a, m, Add(v, w)) == Add(MulFrom(a, m, v), MulFrom(a, m, w))
    decreases m
  {
    hide Add, TimesX, Has;
    AddLaws(0, 0, 0);
    if m != 0 {
      TimesXAdd(v, w);
      MulFromAddRight(a, m >> 1, TimesX(v), TimesX(w));
      var b := Has(a, m);
      AddCross(if b then v else 0, if b then w else 0, MulFrom(a, m >> 1, TimesX(v)), MulFrom(a, m >> 1, TimesX(w)));
    }
  }

  // A mask with at most one bit.
  predicate Single(m: bv128) { m & (m - 1) == 0 }

  lemma SingleHalf(m: bv128)
    requires Single(m)
    ensures Single(m >> 1)
  {
  }

  lemma HasXorOne(a: bv128, b: bv128, m: bv128)
    requires Single(m) && Has(a, m) != Has(b, m)
    ensures Has(a ^ b, m)
  {
  }

  lemma HasXorBoth(a: bv128, b: bv128, m: bv128)
    requires Single(m) && Has(a, m) == Has(b, m)
    ensures !Has(a ^ b, m)
  {
  }

  lemma HasAdd(a: bv128, b: bv128, m: bv128)
    requires Single(m)
    ensures Has(Add(a, b), m) <==> Has(a, m) != Has(b, m)
  {
    hide Single, Has, Add;
    AddIsXor(a, b);
    if Has(a, m) != Has(b, m) { HasXorOne(a, b, m); } else { HasXorBoth(a, b, m); }
  }

  lemma {:induction false} MulFromTimesX(a: bv128, m: bv128, v: bv128)
    ensures MulFrom(a, m, TimesX(v)) == TimesX(MulFrom(a, m, v))
    decreases m
  {
    hide Add, TimesX, Has;
    TimesXAdd(0, 0);
    if m != 0 {
      MulFromTimesX(a, m >> 1, TimesX(v));
      TimesXAdd(if Has(a, m) then v else 0, MulFrom(a, m >> 1, TimesX(v)));
    }
  }

  lemma {:induction false} MulFromZero(a: bv128, m: bv128)
    ensures MulFrom(a, m, 0) == 0
    decreases m
  {
    hide Add, TimesX, Has;
    TimesXAdd(0, 0);
    AddLaws(0, 0, 0);
    if m != 0 {
      MulFromZero(a, m >> 1);
    }
  }

  // Multiplying by a and multiplying by b commute.
  lemma {:induction false} MulFromCommute(a: bv128, m: bv128, b: bv128, k: bv128, v: bv128)
    ensures MulFrom(a, m, MulFrom(b, k, v)) == MulFrom(b, k, MulFrom(a, m, v))
    decreases m
  {
    hide Add, TimesX, Has;
    MulFromZero(b, k);
    if m != 0 {
      MulFromTimesX(b, k, v);
      MulFromCommute(a, m >> 1, b, k, TimesX(v));
      MulFromAddRight(b, k, if Has(a, m) then v else 0, MulFrom(a, m >> 1, TimesX(v)));
    }
  }

  // ----- One -----

  function Bits(a: bv128, m: bv128): bv128 { a & m }
  function Below(m: bv128): bv128 { m - 1 }
  function Upto(m: bv128): bv128 { m | (m - 1) }

  predicate Disjoint(a: bv128, b: bv128) { a & b == 0 }
  function Union(a: bv128, b: bv128): bv128 { a | b }

  lemma BitsIsAnd(a: bv128, m: bv128)
    ensures Bits(a, m) == a & m
  {
  }

  lemma UnionIsOr(a: bv128, b: bv128)
    ensures Union(a, b) == a | b
  {
  }

  lemma DisjointIsAnd(a: bv128, b: bv128)
    ensures Disjoint(a, b) <==> a & b == 0
  {
  }

  lemma DisjointXor(a: bv128, b: bv128)
    requires a & b == 0
    ensures a ^ b == a | b
  {
  }

  lemma DisjointAdd(a: bv128, b: bv128)
    requires Disjoint(a, b)
    ensures Add(a, b) == Union(a, b)
  {
    hide *;
    DisjointIsAnd(a, b);
    DisjointXor(a, b);
    AddIsXor(a, b);
    UnionIsOr(a, b);
  }

  lemma BitsDisjoint(a: bv128, m: bv128, k: bv128)
    requires Disjoint(m, k)
    ensures Disjoint(Bits(a, m), Bits(a, k))
  {
  }

  lemma AndUnion(a: bv128, m: bv128, k: bv128)
    ensures Union(a & m, a & k) == a & Union(m, k)
  {
  }

  lemma BitsUnion(a: bv128, m: bv128, k: bv128)
    ensures Union(Bits(a, m), Bits(a, k)) == Bits(a, Union(m, k))
  {
    hide *;
    AndUnion(a, m, k);
    BitsIsAnd(a, m);
    BitsIsAnd(a, k);
    BitsIsAnd(a, Union(m, k));
  }

  lemma MaskNames(m: bv128)
    ensures Single(m) ==> Disjoint(m, Below(m))
    ensures Upto(m) == Union(m, Below(m))
  {
  }

  lemma SplitMask(a: bv128, m: bv128)
    requires Single(m)
    ensures Add(Bits(a, m), Bits(a, Below(m))) == Bits(a, Upto(m))
  {
    hide *;
    MaskNames(m);
    BitsDisjoint(a, m, Below(m));
    DisjointAdd(Bits(a, m), Bits(a, Below(m)));
    BitsUnion(a, m, Below(m));
  }

  lemma BitOfSingle(a: bv128, m: bv128)
    requires Single(m)
    ensures (if Has(a, m) then m else 0) == Bits(a, m)
  {
  }

  lemma MaskStep(m: bv128)
    requires Single(m) && m >> 1 != 0
    ensures Upto(m >> 1) == Below(m) && TimesX(m) == m >> 1
  {
  }

  lemma MaskEnds(a: bv128)
    ensures Bits(a, Upto(ONE)) == a
    ensures (if Has(a, 1) then 1 else 0) == Bits(a, Upto(1))
  {
  }

  lemma NonZeroHalf(m: bv128)
    requires m != 0 && m != 1
    ensures m >> 1 != 0 && m >> 1 < m
  {
  }

  lemma MulFromMaskStep(a: bv128, m: bv128)
    requires Single(m) && m != 0 && m >> 1 != 0
    requires MulFrom(a, m >> 1, m >> 1) == Bits(a, Upto(m >> 1))
    ensures MulFrom(a, m, m) == Bits(a, Upto(m))
  {
    hide Add, TimesX, Has, Single, Bits, Below, Upto;
    assert MulFrom(a, m, m) == Add(if Has(a, m) then m else 0, MulFrom(a, m >> 1, TimesX(m)));
    MaskStep(m);
    BitOfSingle(a, m);
    SplitMask(a, m);
  }

  lemma MulFromLastMask(a: bv128)
    ensures MulFrom(a, 1, 1) == Bits(a, Upto(1))
  {
    hide Add, TimesX, Has, Bits, Upto;
    var b := if Has(a, 1) then 1 else 0;
    assert MulFrom(a, 1, 1) == Add(b, MulFrom(a, 0, TimesX(1)));
    MaskEnds(a);
    AddLaws(b, 0, 0);
  }

  // Summing x^i over the bits of a from m downwards gives those bits back.
  lemma {:induction false} MulFromMask(a: bv128, m: bv128)
    requires Single(m) && m != 0
    ensures MulFrom(a, m, m) == Bits(a, Upto(m))
    decreases m
  {
    hide *;
    if m == 1 {
      MulFromLastMask(a);
    } else {
      NonZeroHalf(m);
      SingleHalf(m);
      MulFromMask(a, m >> 1);
      MulFromMaskStep(a, m);
    }
  }

  lemma MulOne(a: bv128)
    ensures Mul(a, ONE) == a
  {
    hide MulFrom, Bits, Upto;
    MulFromMask(a, ONE);
    MaskEnds(a);
  }

  // ----- Additive maps are determined by the powers of x -----

  ghost predicate Adds(f: bv128 -> bv128, a: bv128, b: bv128) { f(Add(a, b)) == Add(f(a), f(b)) }

  ghost predicate Additive(f: bv128 -> bv128) {
    forall a, b :: Adds(f, a, b)
  }

  lemma AddsIf(f: bv128 -> bv128, a: bv128, b: bv128)
    requires f(Add(a, b)) == Add(f(a), f(b))
    ensures Adds(f, a, b)
  {
    hide Add;
  }

  lemma AdditiveIf(f: bv128 -> bv128)
    requires forall a, b :: Adds(f, a, b)
    ensures Additive(f)
  {
    hide Add, Adds;
  }

  // Agreement on x^i carries over to x^(i+1).
  ghost predicate HalvesAgree(f: bv128 -> bv128, g: bv128 -> bv128, m: bv128) {
    m >> 1 != 0 ==> f(m >> 1) == g(m >> 1)
  }

  lemma HalvesAgreeIf(f: bv128 -> bv128, g: bv128 -> bv128, m: bv128)
    requires m >> 1 != 0 ==> f(m >> 1) == g(m >> 1)
    ensures HalvesAgree(f, g, m)
  {
  }

  lemma AgreeOnBits(f: bv128 -> bv128, g: bv128 -> bv128, a: bv128, m: bv128)
    requires Additive(f) && Additive(g) && Single(m) && f(m) == g(m)
    requires f(Bits(a, Below(m))) == g(Bits(a, Below(m)))
    ensures f(Bits(a, Upto(m))) == g(Bits(a, Upto(m)))
  {
    hide *;
    BitOfSingle(a, m);
    SplitMask(a, m);
    AdditiveZero(f); AdditiveZero(g);
    AdditiveAt(f, Bits(a, m), Bits(a, Below(m)));
    AdditiveAt(g, Bits(a, m), Bits(a, Below(m)));
  }

  lemma AdditiveAt(f: bv128 -> bv128, a: bv128, b: bv128)
    requires Additive(f)
    ensures f(Add(a, b)) == Add(f(a), f(b))
  {
    hide Add;
    assert Adds(f, a, b);
  }

  lemma AdditiveZero(f: bv128 -> bv128)
    requires Additive(f)
    ensures f(0) == 0
  {
    hide *;
    AddLaws(0, 0, 0);
    AdditiveAt(f, 0, 0);
    AddLaws(f(0), 0, 0);
  }

  lemma {:induction false} AdditiveMapsAgreeFrom(f: bv128 -> bv128, g: bv128 -> bv128, a: bv128, m: bv128)
    requires Additive(f) && Additive(g) && Single(m) && m != 0 && f(m) == g(m)
    requires forall k :: Single(k) && f(k) == g(k) ==> HalvesAgree(f, g, k)
    ensures f(Bits(a, Upto(m))) == g(Bits(a, Upto(m)))
    decreases m
  {
    hide Single, Bits, Below, Upto, Additive, Has;
    if m == 1 {
      MaskEnds(a);
      AdditiveZero(f); AdditiveZero(g);
    } else {
      NonZeroHalf(m); SingleHalf(m);
      assert HalvesAgree(f, g, m);
      AdditiveMapsAgreeFrom(f, g, a, m >> 1);
      MaskStep(m);
      AgreeOnBits(f, g, a, m);
    }
  }

  lemma AdditiveMapsAgree(f: bv128 -> bv128, g: bv128 -> bv128, a: bv128)
    requires Additive(f) && Additive(g) && f(ONE) == g(ONE)
    requires forall k :: Single(k) && f(k) == g(k) ==> HalvesAgree(f, g, k)
    ensures f(a) == g(a)
  {
    hide Bits, Upto, Additive;
    AdditiveMapsAgreeFrom(f, g, a, ONE);
    MaskEnds(a);
  }

  // ----- The ring laws -----

  lemma MulComm(a: bv128, b: bv128)
    ensures Mul(a, b) == Mul(b, a)
  {
    hide MulFrom;
    MulFromCommute(a, ONE, b, ONE, ONE);
    MulOne(a); MulOne(b);
  }

  lemma MulAssoc(a: bv128, b: bv128, c: bv128)
    ensures Mul(Mul(a, b), c) == Mul(a, Mul(b, c))
  {
    hide MulFrom;
    MulComm(Mul(a, b), c);
    MulFromCommute(c, ONE, a, ONE, b);
    MulComm(c, b);
  }

  lemma MulAdd(a: bv128, b: bv128, c: bv128)
    ensures Mul(a, Add(b, c)) == Add(Mul(a, b), Mul(a, c))
  {
    hide MulFrom, Add;
    MulFromAddRight(a, ONE, b, c);
  }

  lemma MulTimesX(a: bv128, b: bv128)
    ensures Mul(a, TimesX(b)) == TimesX(Mul(a, b)) == Mul(TimesX(a), b)
  {
    hide MulFrom, TimesX;
    MulFromTimesX(a, ONE, b);
    MulComm(TimesX(a), b);
    MulFromTimesX(b, ONE, a);
    MulComm(a, b);
  }
}
