// GF(2^128) is a field: its modulus is irreducible, and raising a non-zero
// element to 2^128 - 2 inverts it.
module GcmField {
  import Fields
  import opened Sse
  import opened Gf128
  import opened GcmSquare
  import opened GcmCertificate

  // ----- Repeated squaring -----

  ghost function Frobenius(v: bv128, n: nat): bv128
    decreases n
  {
    if n == 0 then v else Frobenius(Mul(v, v), n - 1)
  }

  lemma {:induction false} FrobeniusSum(v: bv128, m: nat, n: nat)
    ensures Frobenius(v, m + n) == Frobenius(Frobenius(v, m), n)
    decreases m
  {
    hide Mul;
    if m > 0 {
      FrobeniusSum(Mul(v, v), m - 1, n);
    }
  }

  lemma {:induction false} FrobeniusAdd(v: bv128, w: bv128, n: nat)
    ensures Frobenius(Add(v, w), n) == Add(Frobenius(v, n), Frobenius(w, n))
    decreases n
  {
    hide Mul, Add;
    if n > 0 {
      MulSquareAdd(v, w);
      FrobeniusAdd(Mul(v, v), Mul(w, w), n - 1);
    }
  }

  lemma MulCross(a: bv128, b: bv128, c: bv128, d: bv128)
    ensures Mul(Mul(a, b), Mul(c, d)) == Mul(Mul(a, c), Mul(b, d))
  {
    hide Mul;
    MulAssoc(a, b, Mul(c, d));
    MulAssoc(b, c, d); MulComm(b, c); MulAssoc(c, b, d);
    MulAssoc(a, c, Mul(b, d));
  }

  lemma {:induction false} FrobeniusMul(v: bv128, w: bv128, n: nat)
    ensures Frobenius(Mul(v, w), n) == Mul(Frobenius(v, n), Frobenius(w, n))
    decreases n
  {
    hide Mul;
    if n > 0 {
      MulCross(v, w, v, w);
      FrobeniusMul(Mul(v, v), Mul(w, w), n - 1);
    }
  }

  // ----- Squaring 128 times is the identity -----

  lemma FrobeniusNext(v: bv128, n: nat)
    requires n > 0
    ensures Frobenius(v, n) == Frobenius(Square(v), n - 1)
  {
    hide Mul, Square;
    SquareIsMul(v);
  }

  lemma Frobenius8(v: bv128)
    ensures Frobenius(v, 8) == Square(Square(Square(Square(Square(Square(Square(Square(v))))))))
  {
    hide Mul, Square, Frobenius;
    var v1 := Square(v);
    var v2 := Square(v1);
    var v3 := Square(v2);
    var v4 := Square(v3);
    var v5 := Square(v4);
    var v6 := Square(v5);
    var v7 := Square(v6);
    FrobeniusNext(v, 8); FrobeniusNext(v1, 7); FrobeniusNext(v2, 6); FrobeniusNext(v3, 5);
    FrobeniusNext(v4, 4); FrobeniusNext(v5, 3); FrobeniusNext(v6, 2); FrobeniusNext(v7, 1);
    FrobeniusZero(Square(v7));
  }

  const X: bv128 := 0x40000000_00000000_00000000_00000000

  lemma OrbitFirstHalf()
    ensures Frobenius(X, 128) == Frobenius(0x6f9945a9_e519a722_9d4c1ad6_57f8a686, 64)
  {
    hide Square, Mul, Frobenius;
    Orbit0(); Frobenius8(0x40000000_00000000_00000000_00000000);
    FrobeniusSum(0x40000000_00000000_00000000_00000000, 8, 120);
    Orbit8(); Frobenius8(0xa8020000_00000000_00000000_00000000);
    FrobeniusSum(0xa8020000_00000000_00000000_00000000, 8, 112);
    Orbit16(); Frobenius8(0x0ef71e96_9867f188_86908888_88008008);
    FrobeniusSum(0x0ef71e96_9867f188_86908888_88008008, 8, 104);
    Orbit24(); Frobenius8(0xb812f046_d6c9e958_b286b56a_e8251fe3);
    FrobeniusSum(0xb812f046_d6c9e958_b286b56a_e8251fe3, 8, 96);
    Orbit32(); Frobenius8(0x54a0a960_1f5eee84_180dcbba_9950b41e);
    FrobeniusSum(0x54a0a960_1f5eee84_180dcbba_9950b41e, 8, 88);
    Orbit40(); Frobenius8(0x4853d688_639329e8_717b2f6d_d12a2a18);
    FrobeniusSum(0x4853d688_639329e8_717b2f6d_d12a2a18, 8, 80);
    Orbit48(); Frobenius8(0xbf81d79b_681eb87f_1840494e_e86d68c7);
    FrobeniusSum(0xbf81d79b_681eb87f_1840494e_e86d68c7, 8, 72);
    Orbit56(); Frobenius8(0xce981e35_ae0dc847_c9bd2c2a_c24a402e);
    FrobeniusSum(0xce981e35_ae0dc847_c9bd2c2a_c24a402e, 8, 64);
  }

  lemma OrbitSecondHalf()
    ensures Frobenius(0x6f9945a9_e519a722_9d4c1ad6_57f8a686, 64) == X
  {
    hide Square, Mul, Frobenius;
    Orbit64(); Frobenius8(0x6f9945a9_e519a722_9d4c1ad6_57f8a686);
    FrobeniusSum(0x6f9945a9_e519a722_9d4c1ad6_57f8a686, 8, 56);
    Orbit72(); Frobenius8(0x9823eb3e_3b72089f_2fc8d277_b8f0bf53);
    FrobeniusSum(0x9823eb3e_3b72089f_2fc8d277_b8f0bf53, 8, 48);
    Orbit80(); Frobenius8(0x5e277881_43e15420_ee953b2d_4cabc59e);
    FrobeniusSum(0x5e277881_43e15420_ee953b2d_4cabc59e, 8, 40);
    Orbit88(); Frobenius8(0x60c42fb6_d5fbf292_b5c6075c_2cf30349);
    FrobeniusSum(0x60c42fb6_d5fbf292_b5c6075c_2cf30349, 8, 32);
    Orbit96(); Frobenius8(0xdebb046b_71ae153b_531960a2_83fb4702);
    FrobeniusSum(0xdebb046b_71ae153b_531960a2_83fb4702, 8, 24);
    Orbit104(); Frobenius8(0x6464014e_790495d5_9cea8d69_13dcdf18);
    FrobeniusSum(0x6464014e_790495d5_9cea8d69_13dcdf18, 8, 16);
    Orbit112(); Frobenius8(0xab26eafa_da1fbd62_43b422e8_d8c25ee3);
    FrobeniusSum(0xab26eafa_da1fbd62_43b422e8_d8c25ee3, 8, 8);
    Orbit120(); Frobenius8(0x9de8f5fe_47d52451_9fb0d52c_96a68410);
    FrobeniusSum(0x9de8f5fe_47d52451_9fb0d52c_96a68410, 8, 0);
    FrobeniusZero(0x40000000_00000000_00000000_00000000);
  }

  lemma OrbitReturns()
    ensures Frobenius(X, 128) == X
  {
    hide Frobenius;
    OrbitFirstHalf(); OrbitSecondHalf();
  }

  lemma FrobeniusZero(v: bv128)
    ensures Frobenius(v, 0) == v
  {
  }

  lemma TimesXIsMul(v: bv128)
    ensures TimesX(v) == Mul(X, v)
  {
    assert TimesX(ONE) == X;
    hide Mul, TimesX, X;
    MulTimesX(v, ONE); MulOne(v);
    MulComm(X, v);
  }

  lemma FrobeniusIsIdentity(a: bv128)
    ensures Frobenius(a, 128) == a
  {
    hide *;
    var f, g := (v: bv128) => Frobenius(v, 128), (v: bv128) => v;
    forall v, w ensures Adds(f, v, w) && Adds(g, v, w) {
      FrobeniusAdd(v, w, 128);
      AddsIf(f, v, w); AddsIf(g, v, w);
    }
    AdditiveIf(f); AdditiveIf(g);
    FrobeniusOne(128);
    forall m | Single(m) && f(m) == g(m) ensures HalvesAgree(f, g, m) {
      if m >> 1 != 0 {
        MaskStep(m);
        TimesXIsMul(m);
        OrbitReturns();
        FrobeniusMul(X, m, 128);
      }
      HalvesAgreeIf(f, g, m);
    }
    AdditiveMapsAgree(f, g, a);
  }

  lemma {:induction false} FrobeniusOne(n: nat)
    ensures Frobenius(ONE, n) == ONE
  {
    hide Mul;
    MulOne(ONE);
    if n > 0 {
      FrobeniusOne(n - 1);
    }
  }

  // ----- Zero and one are the only idempotents -----

  // The linear map with the images InverseOf(i), summed from x^i upwards.
  ghost function Untwist(v: bv128, i: bv8): bv128
    requires i <= 128
    decreases 128 - i
  {
    if i == 128 then 0 else Add(if Has(v, PowX(i)) then InverseOf(i) else 0, Untwist(v, i + 1))
  }

  lemma PowXBits(i: bv8)
    requires i < 128
    ensures Single(PowX(i)) && PowX(i) != 0
  {
  }

  lemma PowXHas(i: bv8, j: bv8)
    requires i < 128 && j < 128
    ensures Has(PowX(j), PowX(i)) <==> i == j
  {
  }

  lemma PowXStep(i: bv8)
    requires i < 127
    ensures PowX(i + 1) == PowX(i) >> 1 == TimesX(PowX(i)) && PowX(i) >> 1 != 0
  {
  }

  lemma PowXFromLast(i: bv8)
    requires 0 < i < 128
    ensures PowX(i) == TimesX(PowX(i - 1))
  {
    hide *;
    PowXStep(i - 1);
  }

  lemma {:induction false} UntwistAdd(v: bv128, w: bv128, i: bv8)
    requires i <= 128
    ensures Untwist(Add(v, w), i) == Add(Untwist(v, i), Untwist(w, i))
    decreases 128 - i
  {
    hide Add, Has, PowX, InverseOf, Single;
    AddLaws(0, 0, 0);
    if i != 128 {
      UntwistAdd(v, w, i + 1);
      PowXBits(i);
      HasAdd(v, w, PowX(i));
      AddChoice(Has(v, PowX(i)), Has(w, PowX(i)), InverseOf(i), Untwist(v, i + 1), Untwist(w, i + 1));
    }
  }

  lemma {:induction false} UntwistPow(j: bv8, i: bv8)
    requires i <= 128 && j < 128
    ensures Untwist(PowX(j), i) == if i <= j then InverseOf(j) else 0
    decreases 128 - i
  {
    hide Add, Has, PowX, InverseOf;
    if i != 128 {
      UntwistPow(j, i + 1);
      PowXHas(i, j);
      AddLaws(InverseOf(j), 0, 0); AddLaws(0, 0, 0);
    }
  }

  lemma InvertsLowBelow33(i: bv8)
    requires 0 < i < 33
    ensures InvertsLow(i)
  {
    hide InvertsLow;
    if i < 9 {
      InvertsLowFrom1();
    } else if i < 17 {
      InvertsLowFrom9();
    } else if i < 25 {
      InvertsLowFrom17();
    } else {
      InvertsLowFrom25();
    }
  }

  lemma InvertsLowAll(i: bv8)
    requires 0 < i < 64
    ensures InvertsLow(i)
  {
    hide InvertsLow;
    if i < 33 {
      InvertsLowBelow33(i);
    } else if i < 41 {
      InvertsLowFrom33();
    } else if i < 49 {
      InvertsLowFrom41();
    } else if i < 57 {
      InvertsLowFrom49();
    } else {
      InvertsLowFrom57();
    }
  }

  lemma InvertsHighBelow32(j: bv8)
    requires j < 32
    ensures 2 * j <= 120 && InvertsHigh(2 * j, 64 + j)
  {
    hide InvertsHigh;
    if j < 8 {
      InvertsHighFrom0();
    } else if j < 16 {
      InvertsHighFrom8();
    } else if j < 24 {
      InvertsHighFrom16();
    } else {
      InvertsHighFrom24();
    }
  }

  lemma InvertsHighAll(j: bv8)
    requires j <= 60
    ensures 2 * j <= 120 && InvertsHigh(2 * j, 64 + j)
  {
    hide InvertsHigh;
    if j < 32 {
      InvertsHighBelow32(j);
    } else if j < 40 {
      InvertsHighFrom32();
    } else if j < 48 {
      InvertsHighFrom40();
    } else if j < 56 {
      InvertsHighFrom48();
    } else {
      InvertsHighFrom56();
    }
  }

  lemma PowXZero()
    ensures PowX(0) == ONE
  {
  }

  lemma MulPowXNext(i: bv8, j: bv8, k: bv8)
    requires i < 128 && 0 < j < 128 && 0 < k < 128
    requires Mul(PowX(i), PowX(j - 1)) == PowX(k - 1)
    ensures Mul(PowX(i), PowX(j)) == PowX(k)
  {
    hide *;
    PowXFromLast(j);
    PowXFromLast(k);
    MulTimesX(PowX(i), PowX(j - 1));
  }

  lemma {:induction false} MulPowXTo(i: bv8, j: bv8, k: bv8)
    requires i < 128 && j < 128 && i + j == k < 128 && j <= k
    ensures Mul(PowX(i), PowX(j)) == PowX(k)
    decreases j
  {
    hide *;
    if j == 0 {
      PowXZero();
      MulOne(PowX(i));
    } else {
      MulPowXTo(i, j - 1, k - 1);
      MulPowXNext(i, j, k);
    }
  }

  lemma MulPowX(i: bv8, j: bv8)
    requires i < 128 && j < 128 && i + j < 128
    ensures Mul(PowX(i), PowX(j)) == PowX(i + j)
  {
    hide *;
    MulPowXTo(i, j, i + j);
  }

  // Squaring followed by adding back, undone up to the constant term.
  ghost function Undone(v: bv128): bv128 { Untwist(Add(Mul(v, v), v), 0) }
  ghost function Tail(v: bv128): bv128 { v & 0x7fffffff_ffffffff_ffffffff_ffffffff }

  lemma TailAdd(v: bv128, w: bv128)
    ensures Tail(Add(v, w)) == Add(Tail(v), Tail(w))
  {
    hide Add, Tail;
    TailXor(v, w); TailXor(w, v);
    AddIsXor(v, w);
  }

  lemma TailXor(v: bv128, w: bv128)
    ensures Add(v & 0x7fffffff_ffffffff_ffffffff_ffffffff, w & 0x7fffffff_ffffffff_ffffffff_ffffffff) == Tail(v ^ w)
    ensures Tail(v) == v & 0x7fffffff_ffffffff_ffffffff_ffffffff
  {
  }

  lemma UndoneAdd(v: bv128, w: bv128)
    ensures Undone(Add(v, w)) == Add(Undone(v), Undone(w))
  {
    hide Mul, Add, Untwist;
    MulSquareAdd(v, w);
    AddCross(Mul(v, v), Mul(w, w), v, w);
    UntwistAdd(Add(Mul(v, v), v), Add(Mul(w, w), w), 0);
  }

  lemma TailPowX(i: bv8)
    requires 0 < i < 128
    ensures Tail(PowX(i)) == PowX(i)
  {
  }

  lemma UndoneOne()
    ensures Undone(PowX(0)) == Tail(PowX(0))
  {
    assert PowX(0) == ONE && Tail(ONE) == 0;
    hide Mul, Add, Untwist, PowX, ONE, Tail;
    MulOne(ONE);
    AddLaws(ONE, 0, 0);
    UntwistZero();
  }

  lemma UntwistZero()
    ensures Untwist(0, 0) == 0
  {
    hide Add, Untwist;
    UntwistAdd(0, 0, 0);
    AddLaws(0, 0, 0); AddLaws(Untwist(0, 0), 0, 0);
  }

  lemma UndoneLow(i: bv8)
    requires 0 < i < 64
    ensures Undone(PowX(i)) == Tail(PowX(i))
  {
    assert 2 * i == i + i && i + i < 128;
    InvertsLowAll(i);
    hide Mul, Add, Untwist, PowX, InverseOf, Tail;
    MulPowX(i, i);
    UntwistAdd(PowX(i + i), PowX(i), 0);
    UntwistPow(i + i, 0); UntwistPow(i, 0);
    TailPowX(i);
  }

  ghost function Four(a: bv8, b: bv8, c: bv8, d: bv8): bv128
    requires a < 128 && b < 128 && c < 128 && d < 128
  {
    Add(Add(PowX(a), PowX(b)), Add(PowX(c), PowX(d)))
  }

  // x^128 as a sum of lower powers.
  lemma SquareOfX64()
    ensures Mul(PowX(64), PowX(64)) == Four(0, 1, 2, 7)
  {
    assert Square(0x00000000_00000000_80000000_00000000) == 0xe1000000_00000000_00000000_00000000;
    assert PowX(64) == 0x00000000_00000000_80000000_00000000;
    assert Add(Add(PowX(0), PowX(1)), Add(PowX(2), PowX(7))) == 0xe1000000_00000000_00000000_00000000;
    hide Mul, Square, PowX, Add;
    SquareIsMul(PowX(64));
  }

  lemma SquareOfHighPower(j: bv8)
    requires j <= 60
    ensures 2 * j <= 120 && Mul(PowX(64 + j), PowX(64 + j)) == Four(2 * j, 2 * j + 1, 2 * j + 2, 2 * j + 7)
  {
    assert 2 * j == j + j <= 120;
    hide Mul, Add, PowX;
    var k := 2 * j;
    MulPowX(64, j); MulPowX(j, j);
    MulCross(PowX(64), PowX(j), PowX(64), PowX(j));
    SquareOfX64();
    MulComm(Add(Add(PowX(0), PowX(1)), Add(PowX(2), PowX(7))), PowX(k));
    MulAdd(PowX(k), Add(PowX(0), PowX(1)), Add(PowX(2), PowX(7)));
    MulAdd(PowX(k), PowX(0), PowX(1)); MulAdd(PowX(k), PowX(2), PowX(7));
    MulPowX(k, 0); MulPowX(k, 1); MulPowX(k, 2); MulPowX(k, 7);
  }

  ghost function FourInverses(a: bv8, b: bv8, c: bv8, d: bv8): bv128 {
    Add(Add(InverseOf(a), InverseOf(b)), Add(InverseOf(c), InverseOf(d)))
  }

  lemma UntwistFour(a: bv8, b: bv8, c: bv8, d: bv8)
    requires a < 128 && b < 128 && c < 128 && d < 128
    ensures Untwist(Four(a, b, c, d), 0) == FourInverses(a, b, c, d)
  {
    hide Untwist, Add, PowX, InverseOf;
    UntwistAdd(Add(PowX(a), PowX(b)), Add(PowX(c), PowX(d)), 0);
    UntwistAdd(PowX(a), PowX(b), 0); UntwistAdd(PowX(c), PowX(d), 0);
    UntwistPow(a, 0); UntwistPow(b, 0); UntwistPow(c, 0); UntwistPow(d, 0);
  }

  // The square of x^i and its image, whatever they are.
  lemma UndoneFrom(i: bv8, square: bv128, image: bv128)
    requires 0 < i < 128 && Mul(PowX(i), PowX(i)) == square && Untwist(square, 0) == image
    requires Add(image, InverseOf(i)) == PowX(i)
    ensures Undone(PowX(i)) == Tail(PowX(i))
  {
    hide Mul, Add, Untwist, PowX, InverseOf, Tail;
    UntwistAdd(square, PowX(i), 0);
    UntwistPow(i, 0);
    TailPowX(i);
  }

  lemma InvertsHighIs(k: bv8, i: bv8)
    requires k <= 120 && i < 128 && InvertsHigh(k, i)
    ensures Add(FourInverses(k, k + 1, k + 2, k + 7), InverseOf(i)) == PowX(i)
  {
    hide Add, InverseOf, PowX;
  }

  lemma UndoneHigh(j: bv8)
    requires j <= 60
    ensures Undone(PowX(64 + j)) == Tail(PowX(64 + j))
  {
    hide *;
    InvertsHighAll(j);
    var k := 2 * j;
    SquareOfHighPower(j);
    UntwistFour(k, k + 1, k + 2, k + 7);
    InvertsHighIs(k, 64 + j);
    UndoneFrom(64 + j, Four(k, k + 1, k + 2, k + 7), FourInverses(k, k + 1, k + 2, k + 7));
  }

  // The last three powers wrap around twice.
  lemma UndoneTop(i: bv8, a: bv8, b: bv8, c: bv8, d: bv8, e: bv8, f: bv8, g: bv8)
    requires 0 < i < 128 && a < 128 && b < 128 && c < 128 && d < 128 && e < 128 && f < 128 && g < 128
    requires Square(PowX(i)) == Add(Four(a, b, c, d), Add(Add(PowX(e), PowX(f)), PowX(g)))
    requires Add(Add(FourInverses(a, b, c, d), Add(Add(InverseOf(e), InverseOf(f)), InverseOf(g))),
        InverseOf(i)) == PowX(i)
    ensures Undone(PowX(i)) == Tail(PowX(i))
  {
    hide *;
    SquareIsMul(PowX(i));
    UntwistFour(a, b, c, d);
    UntwistAdd(PowX(e), PowX(f), 0); UntwistAdd(Add(PowX(e), PowX(f)), PowX(g), 0);
    UntwistPow(e, 0); UntwistPow(f, 0); UntwistPow(g, 0);
    UntwistAdd(Four(a, b, c, d), Add(Add(PowX(e), PowX(f)), PowX(g)), 0);
    var rest := Add(Add(InverseOf(e), InverseOf(f)), InverseOf(g));
    UndoneFrom(i, Square(PowX(i)), Add(FourInverses(a, b, c, d), rest));
  }

  lemma Square125()
    ensures Square(PowX(125)) == Add(Four(122, 123, 124, 1), Add(Add(PowX(2), PowX(3)), PowX(8)))
  {
  }

  lemma Inverts125()
    ensures Add(Add(FourInverses(122, 123, 124, 1), Add(Add(InverseOf(2), InverseOf(3)), InverseOf(8))),
        InverseOf(125)) == PowX(125)
  {
  }

  lemma Square126()
    ensures Square(PowX(126)) == Add(Four(124, 125, 126, 3), Add(Add(PowX(4), PowX(5)), PowX(10)))
  {
  }

  lemma Inverts126()
    ensures Add(Add(FourInverses(124, 125, 126, 3), Add(Add(InverseOf(4), InverseOf(5)), InverseOf(10))),
        InverseOf(126)) == PowX(126)
  {
  }

  lemma Square127()
    ensures Square(PowX(127)) == Add(Four(126, 127, 0, 1), Four(2, 5, 6, 12))
  {
  }

  lemma Inverses127()
    ensures FourInverses(126, 127, 0, 1) == 0x345db6af_26b27af7_9cfcb29c_f04f2ef2
    ensures FourInverses(2, 5, 6, 12) == 0x345db6af_26b27af7_9cfcb29c_f04f2ef3
    ensures InverseOf(127) == 0
  {
  }

  lemma Inverts127()
    ensures Add(Add(FourInverses(126, 127, 0, 1), FourInverses(2, 5, 6, 12)), InverseOf(127)) == PowX(127)
  {
    Inverses127();
    hide FourInverses, InverseOf;
  }

  lemma Undone127()
    ensures Undone(PowX(127)) == Tail(PowX(127))
  {
    hide *;
    Square127(); Inverts127();
    SquareIsMul(PowX(127));
    UntwistFour(126, 127, 0, 1); UntwistFour(2, 5, 6, 12);
    UntwistAdd(Four(126, 127, 0, 1), Four(2, 5, 6, 12), 0);
    UndoneFrom(127, Square(PowX(127)), Add(FourInverses(126, 127, 0, 1), FourInverses(2, 5, 6, 12)));
  }

  lemma UndonePowX(i: bv8)
    requires i < 128
    ensures Undone(PowX(i)) == Tail(PowX(i))
  {
    hide *;
    if i == 0 {
      UndoneOne();
    } else if i < 64 {
      UndoneLow(i);
    } else if i <= 124 {
      UndoneHigh(i - 64);
    } else if i == 125 {
      Square125(); Inverts125();
      UndoneTop(125, 122, 123, 124, 1, 2, 3, 8);
    } else if i == 126 {
      Square126(); Inverts126();
      UndoneTop(126, 124, 125, 126, 3, 4, 5, 10);
    } else {
      Undone127();
    }
  }

  // Squaring and adding back loses the constant term and nothing else.
  lemma UndoneIsTail(v: bv128)
    ensures Undone(v) == Tail(v)
  {
    hide *;
    var f, g := (a: bv128) => Undone(a), (a: bv128) => Tail(a);
    forall a, b ensures Adds(f, a, b) && Adds(g, a, b) {
      UndoneAdd(a, b); TailAdd(a, b);
      AddsIf(f, a, b); AddsIf(g, a, b);
    }
    forall i: bv8 | i < 128 ensures f(PowX(i)) == g(PowX(i)) { UndonePowX(i); }
    AdditiveIf(f); AdditiveIf(g);
    AgreeFrom(f, g, v, 0);
    PowXZero();
    MaskEnds(v);
  }

  // Additive maps that agree on x^i, x^(i+1), ... agree on what these span.
  lemma {:induction false} AgreeFrom(f: bv128 -> bv128, g: bv128 -> bv128, a: bv128, i: bv8)
    requires Additive(f) && Additive(g) && i < 128
    requires forall j: bv8 :: j < 128 ==> f(PowX(j)) == g(PowX(j))
    ensures f(Bits(a, Upto(PowX(i)))) == g(Bits(a, Upto(PowX(i))))
    decreases 128 - i
  {
    hide Single, Bits, Below, Upto, Additive, Has, PowX;
    PowXBits(i);
    if i == 127 {
      LastPowX();
      MaskEnds(a);
      AdditiveZero(f); AdditiveZero(g);
    } else {
      AgreeFrom(f, g, a, i + 1);
      PowXStep(i);
      MaskStep(PowX(i));
      AgreeOnBits(f, g, a, PowX(i));
    }
  }

  lemma LastPowX()
    ensures PowX(127) == 1
  {
  }

  lemma IdempotentIsZeroOrOne(e: bv128)
    requires Mul(e, e) == e
    ensures e == 0 || e == ONE
  {
    assert Tail(e) == 0 ==> e == 0 || e == ONE;
    hide Mul, Add, Untwist, Tail;
    AddLaws(e, 0, 0);
    UntwistZero();
    UndoneIsTail(e);
  }

  // ----- Square and multiply -----

  // The value of the program's square-and-multiply loop.
  function PowBits(a: bv128, e: bv128): bv128
    decreases e
  {
    if e == 0 then ONE else Mul(if e & 1 == 1 then a else ONE, PowBits(Mul(a, a), e >> 1))
  }

  ghost function Power(a: bv128, n: nat): bv128
    decreases n
  {
    if n == 0 then ONE else Mul(a, Power(a, n - 1))
  }

  lemma {:induction false} PowerOfSquare(a: bv128, n: nat)
    ensures Power(Mul(a, a), n) == Power(a, 2 * n)
    decreases n
  {
    hide Mul;
    if n > 0 {
      PowerOfSquare(a, n - 1);
      MulAssoc(a, a, Power(a, 2 * n - 2));
      assert Power(a, 2 * n - 1) == Mul(a, Power(a, 2 * n - 2));
    }
  }

  lemma {:induction false} PowBitsIsPower(a: bv128, e: bv128)
    ensures PowBits(a, e) == Power(a, Val(e))
    decreases e
  {
    hide Mul;
    if e != 0 {
      PowBitsIsPower(Mul(a, a), e >> 1);
      PowerOfSquare(a, Val(e >> 1));
      MulOneLeft(Power(a, 2 * Val(e >> 1)));
    }
  }

  lemma MulOneLeft(a: bv128)
    ensures Mul(ONE, a) == a == Mul(a, ONE)
  {
    hide Mul;
    MulComm(ONE, a);
    MulOne(a);
  }

  // ----- Inverses -----

  const INVERSE_EXPONENT: bv128 := 0xffffffff_ffffffff_ffffffff_fffffffe

  function Inv(a: bv128): bv128 { PowBits(a, INVERSE_EXPONENT) }

  // a * a^2 * a^4 * ..., n factors.
  ghost function Conjugates(a: bv128, n: nat): bv128
    decreases n
  {
    if n == 0 then ONE else Mul(a, Conjugates(Mul(a, a), n - 1))
  }

  // An exponent of n ones is the product of n conjugates.
  lemma {:induction false} PowAllOnes(a: bv128, k: bv8, n: nat)
    requires k <= 128 && n == 128 - k as nat
    ensures PowBits(a, 0xffffffff_ffffffff_ffffffff_ffffffff >> k) == Conjugates(a, n)
    decreases n
  {
    hide Mul;
    if k < 128 {
      OnesShift(k);
      PowAllOnes(Mul(a, a), k + 1, n - 1);
    }
  }

  lemma OnesShift(k: bv8)
    requires k < 128
    ensures var e: bv128 := 0xffffffff_ffffffff_ffffffff_ffffffff >> k;
            e != 0 && e & 1 == 1 && e >> 1 == (0xffffffff_ffffffff_ffffffff_ffffffff as bv128) >> (k + 1)
  {
  }

  lemma PowBitsEven(a: bv128, e: bv128)
    requires e != 0 && e & 1 == 0
    ensures PowBits(a, e) == PowBits(Mul(a, a), e >> 1)
  {
    hide Mul;
    MulOneLeft(PowBits(Mul(a, a), e >> 1));
  }

  lemma InverseExponent()
    ensures INVERSE_EXPONENT != 0 && INVERSE_EXPONENT & 1 == 0
    ensures INVERSE_EXPONENT >> 1 == (0xffffffff_ffffffff_ffffffff_ffffffff as bv128) >> 1
  {
  }

  lemma InvIsConjugates(a: bv128)
    ensures Mul(a, Inv(a)) == Conjugates(a, 128)
  {
    hide Mul, Conjugates, PowBits, INVERSE_EXPONENT;
    InverseExponent();
    PowBitsEven(a, INVERSE_EXPONENT);
    PowAllOnes(Mul(a, a), 1, 127);
    ConjugatesStep(a, 128);
  }

  lemma ConjugatesStep(a: bv128, n: nat)
    requires n > 0
    ensures Conjugates(a, n) == Mul(a, Conjugates(Mul(a, a), n - 1))
  {
  }

  lemma {:induction false} ConjugatesLast(a: bv128, n: nat)
    ensures Conjugates(a, n + 1) == Mul(Conjugates(a, n), Frobenius(a, n))
    decreases n
  {
    hide Mul;
    if n == 0 {
      MulOneLeft(a);
    } else {
      ConjugatesLast(Mul(a, a), n - 1);
      MulAssoc(a, Conjugates(Mul(a, a), n - 1), Frobenius(a, n));
    }
  }

  lemma {:induction false} ConjugatesTelescope(a: bv128, n: nat)
    ensures Mul(a, Conjugates(a, n)) == Frobenius(a, n)
    decreases n
  {
    hide Mul;
    if n == 0 {
      MulOne(a);
    } else {
      ConjugatesTelescope(Mul(a, a), n - 1);
      MulAssoc(a, a, Conjugates(Mul(a, a), n - 1));
    }
  }

  lemma {:induction false} ConjugatesSquare(a: bv128, n: nat)
    ensures Mul(Conjugates(a, n), Conjugates(a, n)) == Conjugates(Mul(a, a), n)
    decreases n
  {
    hide Mul;
    if n == 0 {
      MulOne(ONE);
    } else {
      ConjugatesSquare(Mul(a, a), n - 1);
      MulCross(a, Conjugates(Mul(a, a), n - 1), a, Conjugates(Mul(a, a), n - 1));
    }
  }

  // The product of all 128 conjugates is fixed by squaring, so it is one.
  lemma InverseLaw(a: bv128)
    requires a != 0
    ensures Mul(a, Inv(a)) == ONE
  {
    hide Mul, Conjugates, Frobenius, Inv;
    var norm := Conjugates(a, 128);
    InvIsConjugates(a);
    ConjugatesTelescope(a, 128);
    FrobeniusIsIdentity(a);
    MulZeroRight(a);
    ConjugatesSquare(a, 128);
    var a2 := Mul(a, a);
    ConjugatesLast(a2, 127);
    FrobeniusShift(a, 127);
    ConjugatesStep(a, 128);
    MulComm(Conjugates(a2, 127), a);
    IdempotentIsZeroOrOne(norm);
  }

  lemma FrobeniusShift(a: bv128, n: nat)
    ensures Frobenius(Mul(a, a), n) == Frobenius(a, n + 1)
  {
  }

  lemma MulZeroRight(a: bv128)
    ensures Mul(a, 0) == 0
  {
    hide MulFrom;
    MulFromZero(a, ONE);
  }

  lemma InverseOfZero()
    ensures Inv(0) == 0
  {
    hide Mul;
    InverseExponent();
    PowBitsEven(0, INVERSE_EXPONENT);
    var e := INVERSE_EXPONENT >> 1;
    MulZeroRight(0);
    MulZeroRight(PowBits(0, e >> 1));
    assert e != 0 && e & 1 == 1;
    MulComm(0, PowBits(Mul(0, 0), e >> 1));
  }

  const GCM: Fields.Field<bv128> := Fields.Field(0, ONE, (a, b) => Add(a, b), (a, b) => Mul(a, b), a => Inv(a))

  lemma GcmOperations(a: bv128, b: bv128)
    ensures GCM.zero == 0 && GCM.one == ONE
    ensures GCM.add(a, b) == Add(a, b) && GCM.mul(a, b) == Mul(a, b) && GCM.inv(a) == Inv(a)
  {
    hide Add, Mul, Inv, ONE;
  }

  lemma GcmLaws(a: bv128, b: bv128, c: bv128)
    ensures Fields.LawsAt(GCM, a, b, c)
  {
    hide GCM, Add, Mul, Inv, ONE;
    AddLaws(a, b, c);
    MulComm(a, b); MulAssoc(a, b, c); MulOne(a); MulAdd(a, b, c);
    if a != 0 { InverseLaw(a); }
    GcmOperations(a, b); GcmOperations(b, a); GcmOperations(a, a); GcmOperations(a, 0); GcmOperations(a, ONE);
    GcmOperations(b, c); GcmOperations(Add(a, b), c); GcmOperations(a, Add(b, c));
    GcmOperations(Mul(a, b), c); GcmOperations(a, Mul(b, c)); GcmOperations(a, c);
    GcmOperations(Mul(a, b), Mul(a, c)); GcmOperations(a, Inv(a));
  }

  lemma GcmIsField()
    ensures Fields.IsField(GCM)
  {
    assert ONE != 0;
    GcmOperations(0, 0);
    InverseOfZero();
    hide GCM, ONE, Fields.LawsAt;
    forall a, b, c ensures Fields.LawsAt(GCM, a, b, c) { GcmLaws(a, b, c); }
  }
}
