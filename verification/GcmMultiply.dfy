// The carry-less multiply-and-reduce of GCM::Polynomial::operator*=, and the
// proof that it is the product of section 6.3 of NIST SP 800-38D.
//
// A lemma here that unfolds a bit-vector function does so at one level only,
// on both sides of one equation; longer chains hide the functions and join
// such equations.
module GcmMultiply {
  import opened Gf128
  import opened Sse

  // ----- Carry-less multiplication of 64-bit lanes -----

  function Odd(x: bv128): bool { x & 1 == 1 }
  function Half(x: bv128): bv128 { x >> 1 }
  function Double(p: bv128): bv128 { p << 1 }

  function ClMul(x: bv128, y: bv128): bv128
    decreases x
  {
    if x == 0 then 0 else Add(if Odd(x) then y else 0, Double(ClMul(Half(x), y)))
  }

  lemma DoubleXor(p: bv128, q: bv128)
    ensures Double(p ^ q) == Add(Double(p), Double(q)) && Double(0) == 0
  {
  }

  lemma DoubleAdd(p: bv128, q: bv128)
    ensures Double(Add(p, q)) == Add(Double(p), Double(q)) && Double(0) == 0
  {
    hide *;
    DoubleXor(p, q);
    AddIsXor(p, q);
  }

  lemma HalfXor(x: bv128, y: bv128)
    ensures Add(x >> 1, y >> 1) == Half(x ^ y) && Half(x) == x >> 1 && Half(y) == y >> 1
  {
  }

  lemma OddXor(x: bv128, y: bv128)
    ensures Odd(x ^ y) <==> Odd(x) != Odd(y)
  {
  }

  lemma HalfAdd(x: bv128, y: bv128)
    ensures Half(Add(x, y)) == Add(Half(x), Half(y))
    ensures Odd(Add(x, y)) <==> Odd(x) != Odd(y)
  {
    hide *;
    HalfXor(x, y);
    OddXor(x, y);
    AddIsXor(x, y);
  }

  lemma ClUnfold(x: bv128, y: bv128)
    ensures ClMul(x, y) == Add(if Odd(x) then y else 0, Double(ClMul(Half(x), y)))
  {
    if x == 0 {
    }
  }

  lemma OrDecreases(x: bv128, y: bv128)
    requires x != 0
    ensures Half(x) | Half(y) < x | y
  {
  }

  lemma ClZero(y: bv128)
    ensures ClMul(0, y) == 0
  {
  }

  lemma ClAddStep(x: bv128, x': bv128, y: bv128)
    requires ClMul(Add(Half(x), Half(x')), y) == Add(ClMul(Half(x), y), ClMul(Half(x'), y))
    ensures ClMul(Add(x, x'), y) == Add(ClMul(x, y), ClMul(x', y))
  {
    hide *;
    var p, p' := ClMul(Half(x), y), ClMul(Half(x'), y);
    HalfAdd(x, x');
    ClUnfold(x, y); ClUnfold(x', y); ClUnfold(Add(x, x'), y);
    DoubleAdd(p, p');
    AddCross(if Odd(x) then y else 0, if Odd(x') then y else 0, Double(p), Double(p'));
    AddLaws(y, y, y); AddLaws(0, 0, 0); AddLaws(y, 0, 0);
  }

  lemma {:induction false} ClAdd(x: bv128, x': bv128, y: bv128)
    ensures ClMul(Add(x, x'), y) == Add(ClMul(x, y), ClMul(x', y))
    decreases x | x'
  {
    hide *;
    if x == 0 || x' == 0 {
      ClZero(y);
      AddLaws(x', 0, 0); AddLaws(x, 0, 0); AddLaws(ClMul(x', y), 0, 0); AddLaws(ClMul(x, y), 0, 0);
    } else {
      OrDecreases(x, x');
      ClAdd(Half(x), Half(x'), y);
      ClAddStep(x, x', y);
    }
  }

  function Shl(y: bv128, k: bv8): bv128
    requires k <= 128
  {
    y << k
  }

  lemma Shl3(y: bv128)
    ensures Double(Double(Double(y))) == Shl(y, 3)
  {
  }

  lemma Shl3Shl3(y: bv128)
    ensures Shl(Shl(y, 3), 3) == Shl(y, 6)
  {
  }

  lemma Shl6Shl3(y: bv128)
    ensures Shl(Shl(y, 6), 3) == Shl(y, 9)
  {
  }

  lemma Shl9Shl9(y: bv128)
    ensures Shl(Shl(y, 9), 9) == Shl(y, 18)
  {
  }

  lemma Shl18Shl3(y: bv128)
    ensures Shl(Shl(y, 18), 3) == Shl(y, 21)
  {
  }

  lemma Shl21Shl21(y: bv128)
    ensures Shl(Shl(y, 21), 21) == Shl(y, 42)
  {
  }

  lemma Shl42Shl21(y: bv128)
    ensures Shl(Shl(y, 42), 21) == Shl(y, 63)
  {
  }

  lemma ClDouble(x: bv128, y: bv128)
    requires x >> 127 == 0
    ensures ClMul(Double(x), y) == Double(ClMul(x, y))
  {
    HalfDouble(x);
    hide *;
    ClUnfold(Double(x), y);
    AddLaws(Double(ClMul(x, y)), 0, 0);
  }

  lemma HalfDouble(x: bv128)
    requires x >> 127 == 0
    ensures Half(Double(x)) == x && !Odd(Double(x))
  {
  }

  lemma ClShl3(x: bv128, y: bv128)
    requires x >> 120 == 0
    ensures ClMul(Shl(x, 3), y) == Shl(ClMul(x, y), 3)
  {
    assert x >> 127 == 0 && Double(x) >> 127 == 0 && Double(Double(x)) >> 127 == 0;
    hide *;
    ClDouble(x, y); ClDouble(Double(x), y); ClDouble(Double(Double(x)), y);
    Shl3(x); Shl3(ClMul(x, y));
  }

  lemma ClShl9(x: bv128, y: bv128)
    requires x >> 100 == 0
    ensures ClMul(Shl(x, 9), y) == Shl(ClMul(x, y), 9)
  {
    assert x >> 120 == 0 && Shl(x, 3) >> 120 == 0 && Shl(x, 6) >> 120 == 0;
    hide *;
    var p := ClMul(x, y);
    ClShl3(x, y); ClShl3(Shl(x, 3), y); ClShl3(Shl(x, 6), y);
    Shl3Shl3(x); Shl6Shl3(x); Shl3Shl3(p); Shl6Shl3(p);
  }

  lemma ClShl21(x: bv128, y: bv128)
    requires x >> 80 == 0
    ensures ClMul(Shl(x, 21), y) == Shl(ClMul(x, y), 21)
  {
    assert x >> 100 == 0 && Shl(x, 9) >> 100 == 0 && Shl(x, 18) >> 120 == 0;
    hide *;
    var p := ClMul(x, y);
    ClShl9(x, y); ClShl9(Shl(x, 9), y); ClShl3(Shl(x, 18), y);
    Shl9Shl9(x); Shl18Shl3(x); Shl9Shl9(p); Shl18Shl3(p);
  }

  lemma ClOne(y: bv128)
    ensures ClMul(1, y) == y
  {
    assert Half(1) == 0 && Odd(1) && Double(0) == 0;
    hide *;
    ClUnfold(1, y); ClZero(y); AddLaws(y, 0, 0);
  }

  lemma ShiftedOnes()
    ensures (1 as bv128) >> 80 == 0 && Shl(1, 21) >> 80 == 0 && Shl(1, 42) >> 80 == 0
    ensures Shl(1, 63) == 0x8000_0000_0000_0000
  {
  }

  lemma ClTop(y: bv128)
    ensures ClMul(0x8000_0000_0000_0000, y) == Shl(y, 63)
  {
    hide *;
    ShiftedOnes();
    ClOne(y);
    ClShl21(1, y); ClShl21(Shl(1, 21), y); ClShl21(Shl(1, 42), y);
    Shl21Shl21(1); Shl42Shl21(1); Shl21Shl21(y); Shl42Shl21(y);
  }

  // ----- The instruction and the reduction -----

  function Lo(a: bv128): bv128 { a & 0xffff_ffff_ffff_ffff }
  function Hi(a: bv128): bv128 { a >> 64 }

  // _mm_clmulepi64_si128: bits 0 and 4 of the immediate select the lanes.
  function ClMulEpi64(a: bv128, b: bv128, imm: bv8): bv128 {
    ClMul(if imm & 0x01 == 0 then Lo(a) else Hi(a), if imm & 0x10 == 0 then Lo(b) else Hi(b))
  }

  // Shifting the 256-bit product left by one accounts for the reflected bit
  // order; this is the high half, the low half is lo << 1.
  function ShiftedHi(lo: bv128, hi: bv128): bv128 {
    Or(Or(SlliEpi32(hi, 1), SlliSi128(SrliEpi32(hi, 31), 4)), SrliSi128(SrliEpi32(lo, 31), 12))
  }

  function ShiftedLo(lo: bv128): bv128 {
    Or(SlliEpi32(lo, 1), SlliSi128(SrliEpi32(lo, 31), 4))
  }

  lemma ShiftedLoIs(lo: bv128)
    ensures ShiftedLo(lo) == Double(lo)
  {
  }

  function Or3(a: bv128, b: bv128, c: bv128): bv128 { a | b | c }

  lemma OrOr(a: bv128, b: bv128, c: bv128)
    ensures Or(a | b, c) == Or3(a, b, c) && Or(a, b) == a | b
  {
  }

  lemma ShiftedHiParts(lo: bv128, hi: bv128)
    ensures Or3(SlliEpi32(hi, 1), SlliSi128(SrliEpi32(hi, 31), 4), SrliSi128(SrliEpi32(lo, 31), 12)) == ShiftIn(lo, hi)
  {
  }

  lemma ShiftedHiIs(lo: bv128, hi: bv128)
    ensures ShiftedHi(lo, hi) == ShiftIn(lo, hi)
  {
    hide Or, Or3, SlliEpi32, SrliEpi32, SlliSi128, SrliSi128, ShiftIn;
    OrOr(SlliEpi32(hi, 1), SlliSi128(SrliEpi32(hi, 31), 4), SrliSi128(SrliEpi32(lo, 31), 12));
    ShiftedHiParts(lo, hi);
  }

  // The low half t folded into the high half.
  function FoldLow(t: bv128): bv128 {
    var tmp7 := Add(Add(SlliEpi32(t, 31), SlliEpi32(t, 30)), SlliEpi32(t, 25));
    var tmp3 := Add(t, SlliSi128(tmp7, 12));
    var tmp2 := Add(Add(SrliEpi32(tmp3, 1), SrliEpi32(tmp3, 2)), SrliEpi32(tmp3, 7));
    Add(tmp3, Add(tmp2, SrliSi128(tmp7, 4)))
  }

  // The same without lanes: multiply by 1 + x + x^2 + x^7 twice.
  function Folded(t: bv128): bv128 {
    var l := t ^ (t << 127) ^ (t << 126) ^ (t << 121);
    l ^ ((l >> 1) ^ (l >> 2) ^ (l >> 7))
  }

  // ----- FoldLow computes Folded -----

  lemma Slli31(t: bv128)
    ensures SlliEpi32(t, 31) == ((t & 0x00000001_00000001_00000001_00000001) << 31)
  {
  }

  lemma Slli30(t: bv128)
    ensures SlliEpi32(t, 30) == ((t & 0x00000003_00000003_00000003_00000003) << 30)
  {
  }

  lemma Slli25(t: bv128)
    ensures SlliEpi32(t, 25) == ((t & 0x0000007f_0000007f_0000007f_0000007f) << 25)
  {
  }

  lemma Srli1(t: bv128)
    ensures SrliEpi32(t, 1) == ((t & 0xfffffffe_fffffffe_fffffffe_fffffffe) >> 1)
  {
  }

  lemma Srli2(t: bv128)
    ensures SrliEpi32(t, 2) == ((t & 0xfffffffc_fffffffc_fffffffc_fffffffc) >> 2)
  {
  }

  lemma Srli7(t: bv128)
    ensures SrliEpi32(t, 7) == ((t & 0xffffff80_ffffff80_ffffff80_ffffff80) >> 7)
  {
  }

  // The bits that cross a lane boundary, and where the two byte shifts put them.
  function Crossing2(t: bv128): bv128 {
    ((t & 0x00000001_00000001_00000001_00000001) << 31)
      ^ ((t & 0x00000003_00000003_00000003_00000003) << 30)
  }

  function Crossing(t: bv128): bv128 {
    ((t & 0x00000001_00000001_00000001_00000001) << 31)
      ^ ((t & 0x00000003_00000003_00000003_00000003) << 30) ^ ((t & 0x0000007f_0000007f_0000007f_0000007f) << 25)
  }

  function CrossingDown(t: bv128): bv128 {
    (((t & 0x00000001_00000001_00000001_00000001) << 31)
      ^ ((t & 0x00000003_00000003_00000003_00000003) << 30)
      ^ ((t & 0x0000007f_0000007f_0000007f_0000007f) << 25)) >> 32
  }

  // The low half after the first fold.
  function FirstFold(t: bv128): bv128 { t ^ (t << 127) ^ (t << 126) ^ (t << 121) }

  // The bits that stay inside their lane in the second fold.
  function Staying2(l: bv128): bv128 {
    ((l & 0xfffffffe_fffffffe_fffffffe_fffffffe) >> 1)
      ^ ((l & 0xfffffffc_fffffffc_fffffffc_fffffffc) >> 2)
  }

  function Staying(l: bv128): bv128 {
    ((l & 0xfffffffe_fffffffe_fffffffe_fffffffe) >> 1)
      ^ ((l & 0xfffffffc_fffffffc_fffffffc_fffffffc) >> 2) ^ ((l & 0xffffff80_ffffff80_ffffff80_ffffff80) >> 7)
  }

  // The second fold by lanes, and by whole registers.
  function SecondFoldByLane(t: bv128): bv128 {
    var l := t ^ (t << 127) ^ (t << 126) ^ (t << 121);
    ((l & 0xfffffffe_fffffffe_fffffffe_fffffffe) >> 1) ^ ((l & 0xfffffffc_fffffffc_fffffffc_fffffffc) >> 2)
        ^ ((l & 0xffffff80_ffffff80_ffffff80_ffffff80) >> 7)
        ^ ((((t & 0x00000001_00000001_00000001_00000001) << 31)
        ^ ((t & 0x00000003_00000003_00000003_00000003) << 30)
        ^ ((t & 0x0000007f_0000007f_0000007f_0000007f) << 25)) >> 32)
  }

  function SecondFold(t: bv128): bv128 {
    var l := t ^ (t << 127) ^ (t << 126) ^ (t << 121);
    (l >> 1) ^ (l >> 2) ^ (l >> 7)
  }

  lemma Crossing2Flat(t: bv128)
    ensures Add(((t & 0x00000001_00000001_00000001_00000001) << 31),
        ((t & 0x00000003_00000003_00000003_00000003) << 30)) == Crossing2(t)
    ensures Crossing2(t) == ((t & 0x00000001_00000001_00000001_00000001) << 31)
        ^ ((t & 0x00000003_00000003_00000003_00000003) << 30)
  {
  }

  lemma CrossingFlat(t: bv128)
    ensures Add(((t & 0x00000001_00000001_00000001_00000001) << 31)
        ^ ((t & 0x00000003_00000003_00000003_00000003) << 30),
        ((t & 0x0000007f_0000007f_0000007f_0000007f) << 25)) == Crossing(t)
    ensures Crossing(t) == ((t & 0x00000001_00000001_00000001_00000001) << 31)
        ^ ((t & 0x00000003_00000003_00000003_00000003) << 30) ^ ((t & 0x0000007f_0000007f_0000007f_0000007f) << 25)
  {
  }

  lemma CrossingDownFlat(t: bv128)
    ensures SrliSi128(((t & 0x00000001_00000001_00000001_00000001) << 31)
        ^ ((t & 0x00000003_00000003_00000003_00000003) << 30)
        ^ ((t & 0x0000007f_0000007f_0000007f_0000007f) << 25), 4) == CrossingDown(t)
    ensures CrossingDown(t) == (((t & 0x00000001_00000001_00000001_00000001) << 31)
        ^ ((t & 0x00000003_00000003_00000003_00000003) << 30)
        ^ ((t & 0x0000007f_0000007f_0000007f_0000007f) << 25)) >> 32
  {
  }

  function CrossingUp(t: bv128): bv128 {
    (((t & 0x00000001_00000001_00000001_00000001) << 31)
      ^ ((t & 0x00000003_00000003_00000003_00000003) << 30)
      ^ ((t & 0x0000007f_0000007f_0000007f_0000007f) << 25)) << 96
  }

  lemma CrossingUpFlat(t: bv128)
    ensures SlliSi128(((t & 0x00000001_00000001_00000001_00000001) << 31)
        ^ ((t & 0x00000003_00000003_00000003_00000003) << 30)
        ^ ((t & 0x0000007f_0000007f_0000007f_0000007f) << 25), 12) == CrossingUp(t)
    ensures CrossingUp(t) == (((t & 0x00000001_00000001_00000001_00000001) << 31)
        ^ ((t & 0x00000003_00000003_00000003_00000003) << 30)
        ^ ((t & 0x0000007f_0000007f_0000007f_0000007f) << 25)) << 96
  {
  }

  lemma FirstFoldFlat(t: bv128)
    ensures Add(t, (((t & 0x00000001_00000001_00000001_00000001) << 31)
        ^ ((t & 0x00000003_00000003_00000003_00000003) << 30)
        ^ ((t & 0x0000007f_0000007f_0000007f_0000007f) << 25)) << 96) == FirstFold(t)
    ensures FirstFold(t) == t ^ (t << 127) ^ (t << 126) ^ (t << 121)
  {
  }

  lemma Staying2Flat(l: bv128)
    ensures Add(((l & 0xfffffffe_fffffffe_fffffffe_fffffffe) >> 1),
        ((l & 0xfffffffc_fffffffc_fffffffc_fffffffc) >> 2)) == Staying2(l)
    ensures Staying2(l) == ((l & 0xfffffffe_fffffffe_fffffffe_fffffffe) >> 1)
        ^ ((l & 0xfffffffc_fffffffc_fffffffc_fffffffc) >> 2)
  {
  }

  lemma StayingFlat(l: bv128)
    ensures Add(((l & 0xfffffffe_fffffffe_fffffffe_fffffffe) >> 1)
        ^ ((l & 0xfffffffc_fffffffc_fffffffc_fffffffc) >> 2),
        ((l & 0xffffff80_ffffff80_ffffff80_ffffff80) >> 7)) == Staying(l)
  {
  }

  lemma StayingOfFold(t: bv128)
    ensures Staying(t ^ (t << 127) ^ (t << 126) ^ (t << 121)) ==
            (var l := t ^ (t << 127) ^ (t << 126) ^ (t << 121);
             ((l & 0xfffffffe_fffffffe_fffffffe_fffffffe) >> 1)
             ^ ((l & 0xfffffffc_fffffffc_fffffffc_fffffffc) >> 2) ^ ((l & 0xffffff80_ffffff80_ffffff80_ffffff80) >> 7))
  {
  }

  lemma SecondFoldSum(t: bv128)
    ensures var l := t ^ (t << 127) ^ (t << 126) ^ (t << 121);
        Add(((l & 0xfffffffe_fffffffe_fffffffe_fffffffe) >> 1)
        ^ ((l & 0xfffffffc_fffffffc_fffffffc_fffffffc) >> 2)
        ^ ((l & 0xffffff80_ffffff80_ffffff80_ffffff80) >> 7),
        (((t & 0x00000001_00000001_00000001_00000001) << 31)
        ^ ((t & 0x00000003_00000003_00000003_00000003) << 30)
        ^ ((t & 0x0000007f_0000007f_0000007f_0000007f) << 25)) >> 32) == SecondFoldByLane(t)
  {
  }

  // Across lane boundaries the crossing bits complete the register shifts.
  lemma SecondFoldIgnoresLanes(t: bv128)
    ensures SecondFoldByLane(t) == SecondFold(t)
  {
  }

  lemma FoldedFlat(t: bv128)
    ensures var l := t ^ (t << 127) ^ (t << 126) ^ (t << 121); Add(l, (l >> 1) ^ (l >> 2) ^ (l >> 7)) == Folded(t)
    ensures var l := t ^ (t << 127) ^ (t << 126) ^ (t << 121); SecondFold(t) == (l >> 1) ^ (l >> 2) ^ (l >> 7)
  {
  }

  lemma CrossingIs(t: bv128)
    ensures Add(Add(SlliEpi32(t, 31), SlliEpi32(t, 30)), SlliEpi32(t, 25)) == Crossing(t)
  {
    hide *;
    Slli31(t); Slli30(t); Crossing2Flat(t);
    Slli25(t); CrossingFlat(t);
  }

  lemma FirstFoldIs(t: bv128)
    ensures Add(t, SlliSi128(Crossing(t), 12)) == FirstFold(t)
  {
    hide *;
    CrossingFlat(t); CrossingUpFlat(t); FirstFoldFlat(t);
  }

  lemma StayingIs(l: bv128)
    ensures Add(Add(SrliEpi32(l, 1), SrliEpi32(l, 2)), SrliEpi32(l, 7)) == Staying(l)
  {
    hide *;
    Srli1(l); Srli2(l); Staying2Flat(l);
    Srli7(l); StayingFlat(l);
  }

  lemma SecondFoldIs(t: bv128)
    ensures Add(Staying(FirstFold(t)), SrliSi128(Crossing(t), 4)) == SecondFold(t)
  {
    hide *;
    CrossingFlat(t); CrossingDownFlat(t); FirstFoldFlat(t); StayingOfFold(t);
    SecondFoldSum(t); SecondFoldIgnoresLanes(t);
  }

  lemma FoldedIs(t: bv128)
    ensures Add(FirstFold(t), SecondFold(t)) == Folded(t)
  {
    hide *;
    FirstFoldFlat(t); FoldedFlat(t);
  }

  lemma FoldLowIsFolded(t: bv128)
    ensures FoldLow(t) == Folded(t)
  {
    hide Add, SlliEpi32, SrliEpi32, SlliSi128, SrliSi128, Crossing, FirstFold, Staying, SecondFold, Folded;
    CrossingIs(t); FirstFoldIs(t); StayingIs(FirstFold(t)); SecondFoldIs(t); FoldedIs(t);
  }

  // ----- The product from its three lane products -----

  // What a lane product contributes to the reduced product when it lies at
  // bit 0, 64 or 128 of the 256-bit product.
  function Low(p: bv128): bv128 {
    var t := p << 1;
    var l := t ^ (t << 127) ^ (t << 126) ^ (t << 121);
    (p >> 127) ^ (l ^ ((l >> 1) ^ (l >> 2) ^ (l >> 7)))
  }

  function Middle(p: bv128): bv128 {
    var t := (p << 64) << 1;
    var l := t ^ (t << 127) ^ (t << 126) ^ (t << 121);
    (p >> 63) ^ (l ^ ((l >> 1) ^ (l >> 2) ^ (l >> 7)))
  }

  function High(p: bv128): bv128 {
    p << 1
  }

  lemma LowXor(p: bv128, q: bv128)
    ensures Low(p ^ q) == Add(Low(p), Low(q)) && Low(0) == 0
  {
  }

  lemma LowAdd(p: bv128, q: bv128)
    ensures Low(Add(p, q)) == Add(Low(p), Low(q)) && Low(0) == 0
  {
    hide *;
    LowXor(p, q);
    AddIsXor(p, q);
  }

  lemma MiddleXor(p: bv128, q: bv128)
    ensures Middle(p ^ q) == Add(Middle(p), Middle(q)) && Middle(0) == 0
  {
  }

  lemma MiddleAdd(p: bv128, q: bv128)
    ensures Middle(Add(p, q)) == Add(Middle(p), Middle(q)) && Middle(0) == 0
  {
    hide *;
    MiddleXor(p, q);
    AddIsXor(p, q);
  }

  lemma HighXor(p: bv128, q: bv128)
    ensures High(p ^ q) == Add(High(p), High(q)) && High(0) == 0
  {
  }

  lemma HighAdd(p: bv128, q: bv128)
    ensures High(Add(p, q)) == Add(High(p), High(q)) && High(0) == 0
  {
    hide *;
    HighXor(p, q);
    AddIsXor(p, q);
  }

  // The reduced 256-bit product with parts p, q and r at bits 0, 64 and 128.
  function Product(p: bv128, q: bv128, r: bv128): bv128 {
    var lo := p ^ (q << 64);
    var hi := r ^ (q >> 64);
    var t := lo << 1;
    var l := t ^ (t << 127) ^ (t << 126) ^ (t << 121);
    ((hi << 1) | (lo >> 127)) ^ (l ^ ((l >> 1) ^ (l >> 2) ^ (l >> 7)))
  }

  function LowAndMiddle(p: bv128, q: bv128): bv128 {
    var lo := p ^ (q << 64);
    var hi := q >> 64;
    var t := lo << 1;
    var l := t ^ (t << 127) ^ (t << 126) ^ (t << 121);
    ((hi << 1) | (lo >> 127)) ^ (l ^ ((l >> 1) ^ (l >> 2) ^ (l >> 7)))
  }

  lemma PartsFlat(p: bv128, q: bv128, r: bv128)
    ensures Low(p) ==
      var t := p << 1;
      var l := t ^ (t << 127) ^ (t << 126) ^ (t << 121);
      (p >> 127) ^ (l ^ ((l >> 1) ^ (l >> 2) ^ (l >> 7)))
    ensures Middle(q) ==
      var t := (q << 64) << 1;
      var l := t ^ (t << 127) ^ (t << 126) ^ (t << 121);
      (q >> 63) ^ (l ^ ((l >> 1) ^ (l >> 2) ^ (l >> 7)))
    ensures High(r) == r << 1
  {
  }

  lemma LowAndMiddleFlat(p: bv128, q: bv128)
    ensures Add(
        var t := p << 1;
        var l := t ^ (t << 127) ^ (t << 126) ^ (t << 121);
        (p >> 127) ^ (l ^ ((l >> 1) ^ (l >> 2) ^ (l >> 7))),
        var t := (q << 64) << 1;
        var l := t ^ (t << 127) ^ (t << 126) ^ (t << 121);
        (q >> 63) ^ (l ^ ((l >> 1) ^ (l >> 2) ^ (l >> 7))))
      == LowAndMiddle(p, q)
  {
  }

  lemma ProductFlat(p: bv128, q: bv128, r: bv128)
    ensures Add(
        var lo := p ^ (q << 64);
        var hi := q >> 64;
        var t := lo << 1;
        var l := t ^ (t << 127) ^ (t << 126) ^ (t << 121);
        ((hi << 1) | (lo >> 127)) ^ (l ^ ((l >> 1) ^ (l >> 2) ^ (l >> 7))), r << 1) == Product(p, q, r)
    ensures LowAndMiddle(p, q) ==
      var lo := p ^ (q << 64);
      var hi := q >> 64;
      var t := lo << 1;
      var l := t ^ (t << 127) ^ (t << 126) ^ (t << 121);
      ((hi << 1) | (lo >> 127)) ^ (l ^ ((l >> 1) ^ (l >> 2) ^ (l >> 7)))
  {
  }

  lemma ProductIsSum(p: bv128, q: bv128, r: bv128)
    ensures Product(p, q, r) == Add(Add(Low(p), Middle(q)), High(r))
  {
    hide *;
    PartsFlat(p, q, r);
    LowAndMiddleFlat(p, q); ProductFlat(p, q, r);
  }

  lemma ProductAdd(p: bv128, q: bv128, r: bv128, p': bv128, q': bv128, r': bv128)
    ensures Product(Add(p, p'), Add(q, q'), Add(r, r')) == Add(Product(p, q, r), Product(p', q', r'))
  {
    hide *;
    ProductIsSum(p, q, r); ProductIsSum(p', q', r'); ProductIsSum(Add(p, p'), Add(q, q'), Add(r, r'));
    LowAdd(p, p'); MiddleAdd(q, q'); HighAdd(r, r');
    AddCross(Low(p), Low(p'), Middle(q), Middle(q'));
    AddCross(Add(Low(p), Middle(q)), Add(Low(p'), Middle(q')), High(r), High(r'));
  }

  // Halving all three parts divides the 256-bit product by two, that is,
  // multiplies the element by x.
  function QuarterProduct(p: bv128, q: bv128, r: bv128): bv128 {
    var lo := (p >> 2) ^ ((q >> 2) << 64);
    var hi := (r >> 2) ^ ((q >> 2) >> 64);
    var t := lo << 1;
    var l := t ^ (t << 127) ^ (t << 126) ^ (t << 121);
    ((hi << 1) | (lo >> 127)) ^ (l ^ ((l >> 1) ^ (l >> 2) ^ (l >> 7)))
  }

  lemma QuarterProductFlat(p: bv128, q: bv128, r: bv128)
    ensures Product(p >> 2, q >> 2, r >> 2) == QuarterProduct(p, q, r)
  {
  }

  lemma EvenProductFlat(p: bv128, q: bv128, r: bv128)
    ensures Product((p >> 2) << 1, (q >> 2) << 1, (r >> 2) << 1) ==
      var lo := ((p >> 2) << 1) ^ (((q >> 2) << 1) << 64);
      var hi := ((r >> 2) << 1) ^ (((q >> 2) << 1) >> 64);
      var t := lo << 1;
      var l := t ^ (t << 127) ^ (t << 126) ^ (t << 121);
      ((hi << 1) | (lo >> 127)) ^ (l ^ ((l >> 1) ^ (l >> 2) ^ (l >> 7)))
  {
  }

  lemma EvenProductTimesX(p: bv128, q: bv128, r: bv128)
    ensures TimesXFlat(
        var lo := ((p >> 2) << 1) ^ (((q >> 2) << 1) << 64);
        var hi := ((r >> 2) << 1) ^ (((q >> 2) << 1) >> 64);
        var t := lo << 1;
        var l := t ^ (t << 127) ^ (t << 126) ^ (t << 121);
        ((hi << 1) | (lo >> 127)) ^ (l ^ ((l >> 1) ^ (l >> 2) ^ (l >> 7)))) == QuarterProduct(p, q, r)
  {
  }

  function Quarter(z: bv128): bv128 { z >> 2 }
  function EvenHalf(z: bv128): bv128 { (z >> 2) << 1 }

  lemma QuarterFlat(z: bv128)
    ensures Quarter(z) == z >> 2 && EvenHalf(z) == (z >> 2) << 1
  {
  }

  lemma EvenProductHalf(p: bv128, q: bv128, r: bv128)
    ensures Product(Quarter(p), Quarter(q), Quarter(r)) == TimesX(Product(EvenHalf(p), EvenHalf(q), EvenHalf(r)))
  {
    hide *;
    QuarterFlat(p); QuarterFlat(q); QuarterFlat(r);
    QuarterProductFlat(p, q, r);
    EvenProductFlat(p, q, r);
    EvenProductTimesX(p, q, r);
    TimesXIsFlat(Product(EvenHalf(p), EvenHalf(q), EvenHalf(r)));
  }

  lemma ShiftBack(u: bv128)
    requires u >> 126 == 0
    ensures Quarter(Shl(u, 2)) == u && EvenHalf(Shl(u, 2)) == Double(u)
  {
  }

  lemma ProductHalf(p: bv128, q: bv128, r: bv128)
    requires p >> 126 == 0 && q >> 126 == 0 && r >> 126 == 0
    ensures Product(p, q, r) == TimesX(Product(Double(p), Double(q), Double(r)))
  {
    hide *;
    ShiftBack(p); ShiftBack(q); ShiftBack(r);
    EvenProductHalf(Shl(p, 2), Shl(q, 2), Shl(r, 2));
  }

  // The carry-less product of two registers, reduced, from its lane products.
  function Reduced(a: bv128, b: bv128): bv128 {
    Product(ClMul(Lo(a), Lo(b)), Add(ClMul(Lo(a), Hi(b)), ClMul(Hi(a), Lo(b))), ClMul(Hi(a), Hi(b)))
  }

  lemma LoXor(a: bv128, b: bv128)
    ensures Add(a & 0xffff_ffff_ffff_ffff, b & 0xffff_ffff_ffff_ffff) == Lo(a ^ b) && Lo(a) == a & 0xffff_ffff_ffff_ffff
  {
  }

  lemma HiXor(a: bv128, b: bv128)
    ensures Add(a >> 64, b >> 64) == Hi(a ^ b) && Hi(a) == a >> 64
  {
  }

  lemma LanesAdd(a: bv128, b: bv128)
    ensures Lo(Add(a, b)) == Add(Lo(a), Lo(b)) && Hi(Add(a, b)) == Add(Hi(a), Hi(b))
  {
    hide *;
    LoXor(a, b); LoXor(b, a);
    HiXor(a, b); HiXor(b, a);
    AddIsXor(a, b);
  }

  lemma ReducedAdd(a: bv128, a': bv128, b: bv128)
    ensures Reduced(Add(a, a'), b) == Add(Reduced(a, b), Reduced(a', b))
  {
    hide ClMul, Product, Add, Lo, Hi;
    LanesAdd(a, a');
    ClAdd(Lo(a), Lo(a'), Lo(b)); ClAdd(Lo(a), Lo(a'), Hi(b));
    ClAdd(Hi(a), Hi(a'), Lo(b)); ClAdd(Hi(a), Hi(a'), Hi(b));
    AddCross(ClMul(Lo(a), Hi(b)), ClMul(Lo(a'), Hi(b)), ClMul(Hi(a), Lo(b)), ClMul(Hi(a'), Lo(b)));
    ProductAdd(ClMul(Lo(a), Lo(b)), Add(ClMul(Lo(a), Hi(b)), ClMul(Hi(a), Lo(b))), ClMul(Hi(a), Hi(b)),
               ClMul(Lo(a'), Lo(b)), Add(ClMul(Lo(a'), Hi(b)), ClMul(Hi(a'), Lo(b))), ClMul(Hi(a'), Hi(b)));
  }

  // ----- Powers of x -----

  // A lane product with a power of two stays below that power times 2^64.
  predicate Bounded(p: bv128, m: bv128) { p & !((m << 64) - 1) == 0 }

  lemma BoundedDouble(p: bv128, k: bv128)
    requires Single(k) && k >> 63 == 0 && Bounded(p, k)
    ensures Bounded(Double(p), Double(k))
  {
  }

  lemma BoundedTop(p: bv128, m: bv128)
    requires Single(m) && m >> 1 != 0 && m >> 64 == 0 && Bounded(p, m >> 1)
    ensures p >> 126 == 0
  {
  }

  lemma EvenSingle(m: bv128)
    requires Single(m) && m != 0
    ensures m == 1 || (!Odd(m) && Half(m) == m >> 1 && Double(m >> 1) == m && m >> 1 != 0 && m >> 1 < m)
  {
  }

  lemma LaneBounded(y: bv128)
    requires y >> 64 == 0
    ensures Bounded(y, 1)
  {
  }

  lemma ClEven(m: bv128, y: bv128)
    requires Single(m) && m >> 1 != 0
    ensures ClMul(m, y) == Double(ClMul(m >> 1, y))
  {
    hide *;
    SmallestMask(m); EvenSingle(m);
    ClUnfold(m, y);
    AddLaws(Double(ClMul(m >> 1, y)), 0, 0);
  }

  lemma SmallestMask(m: bv128)
    requires m >> 1 != 0
    ensures m != 0 && m != 1
  {
  }

  lemma HalfSingle(m: bv128)
    requires Single(m) && m >> 64 == 0
    ensures Single(m >> 1) && (m >> 1) >> 64 == 0 && (m >> 1) >> 63 == 0
  {
  }

  lemma {:induction false} ClBounded(m: bv128, y: bv128)
    requires Single(m) && m != 0 && m >> 64 == 0 && y >> 64 == 0
    ensures Bounded(ClMul(m, y), m)
    decreases m
  {
    hide *;
    EvenSingle(m);
    if m == 1 {
      ClOne(y);
      LaneBounded(y);
    } else {
      HalfSingle(m);
      ClBounded(m >> 1, y);
      ClEven(m, y);
      BoundedDouble(ClMul(m >> 1, y), m >> 1);
    }
  }

  // The lane product with half a power of two, and its bound.
  lemma ClHalf(m: bv128, y: bv128)
    requires Single(m) && m >> 1 != 0 && m >> 64 == 0 && y >> 64 == 0
    ensures ClMul(m, y) == Double(ClMul(m >> 1, y)) && ClMul(m >> 1, y) >> 126 == 0
  {
    hide *;
    ClEven(m, y);
    HalfSingle(m);
    ClBounded(m >> 1, y);
    BoundedTop(ClMul(m >> 1, y), m);
  }

  lemma LaneSizes(b: bv128)
    ensures Lo(b) >> 64 == 0 && Hi(b) >> 64 == 0
  {
  }

  lemma ZeroParts(y: bv128)
    ensures ClMul(0, y) == 0 && Double(0) == 0 && (0 as bv128) >> 126 == 0
  {
  }

  lemma LowLane(m: bv128)
    requires m >> 64 == 0
    ensures Lo(m) == m && Hi(m) == 0 && Lo(m >> 1) == m >> 1 && Hi(m >> 1) == 0
  {
  }

  lemma HighLane(m: bv128)
    requires Single(m) && Hi(m) >> 1 != 0
    ensures Lo(m) == 0 && Lo(m >> 1) == 0 && Hi(m >> 1) == Hi(m) >> 1
    ensures Single(Hi(m)) && Hi(m) >> 64 == 0
  {
  }

  const MIDDLE: bv128 := 0x1_0000_0000_0000_0000

  lemma WhichLane(m: bv128)
    requires Single(m)
    ensures m >> 64 == 0 || m == MIDDLE || Hi(m) >> 1 != 0
  {
  }

  lemma ReducedHalfLow(m: bv128, b: bv128)
    requires Single(m) && m >> 1 != 0 && m >> 64 == 0
    ensures Reduced(m >> 1, b) == TimesX(Reduced(m, b))
  {
    hide ClMul, Product, Add, TimesX, Lo, Hi, Single, Double;
    LaneSizes(b); LowLane(m);
    ClHalf(m, Lo(b)); ClHalf(m, Hi(b));
    ZeroParts(Lo(b)); ZeroParts(Hi(b));
    AddLaws(ClMul(m, Hi(b)), 0, 0); AddLaws(ClMul(m >> 1, Hi(b)), 0, 0);
    ProductHalf(ClMul(m >> 1, Lo(b)), ClMul(m >> 1, Hi(b)), 0);
  }

  lemma ReducedHigh(m: bv128, b: bv128)
    requires Lo(m) == 0
    ensures Reduced(m, b) == Product(0, ClMul(Hi(m), Lo(b)), ClMul(Hi(m), Hi(b)))
  {
    hide ClMul, Product, Add, Lo, Hi, Double;
    ZeroParts(Lo(b)); ZeroParts(Hi(b));
    AddLaws(ClMul(Hi(m), Lo(b)), 0, 0);
  }

  lemma ReducedHalfHigh(m: bv128, b: bv128)
    requires Single(m) && Hi(m) >> 1 != 0
    ensures Reduced(m >> 1, b) == TimesX(Reduced(m, b))
  {
    hide *;
    LaneSizes(b); HighLane(m);
    ReducedHigh(m, b); ReducedHigh(m >> 1, b);
    var h := Hi(m);
    ClHalf(h, Lo(b)); ClHalf(h, Hi(b));
    ZeroParts(0);
    ProductHalf(0, ClMul(h >> 1, Lo(b)), ClMul(h >> 1, Hi(b)));
  }

  // Where the factor moves from the high lane to the low one.
  function LowCross(y: bv128): bv128 {
    var t := ((y & 0xffff_ffff_ffff_ffff) << 63) << 1;
    var l := t ^ (t << 127) ^ (t << 126) ^ (t << 121);
    (((y & 0xffff_ffff_ffff_ffff) << 63) >> 127) ^ (l ^ ((l >> 1) ^ (l >> 2) ^ (l >> 7)))
  }

  lemma LowCrossFlat(y: bv128)
    ensures Low((y & 0xffff_ffff_ffff_ffff) << 63) == LowCross(y)
    ensures Middle(y & 0xffff_ffff_ffff_ffff) ==
      var t := ((y & 0xffff_ffff_ffff_ffff) << 64) << 1;
      var l := t ^ (t << 127) ^ (t << 126) ^ (t << 121);
      ((y & 0xffff_ffff_ffff_ffff) >> 63) ^ (l ^ ((l >> 1) ^ (l >> 2) ^ (l >> 7)))
  {
  }

  lemma LowCrossTimesX(y: bv128)
    ensures TimesXFlat(
        var t := ((y & 0xffff_ffff_ffff_ffff) << 64) << 1;
        var l := t ^ (t << 127) ^ (t << 126) ^ (t << 121);
        ((y & 0xffff_ffff_ffff_ffff) >> 63) ^ (l ^ ((l >> 1) ^ (l >> 2) ^ (l >> 7)))) == LowCross(y)
  {
  }

  function MiddleCross(y: bv128): bv128 {
    var t := (((y & 0xffff_ffff_ffff_ffff) << 63) << 64) << 1;
    var l := t ^ (t << 127) ^ (t << 126) ^ (t << 121);
    (((y & 0xffff_ffff_ffff_ffff) << 63) >> 63) ^ (l ^ ((l >> 1) ^ (l >> 2) ^ (l >> 7)))
  }

  lemma MiddleCrossFlat(y: bv128)
    ensures Middle((y & 0xffff_ffff_ffff_ffff) << 63) == MiddleCross(y)
    ensures High(y & 0xffff_ffff_ffff_ffff) == (y & 0xffff_ffff_ffff_ffff) << 1
  {
  }

  lemma MiddleCrossTimesX(y: bv128)
    ensures TimesXFlat((y & 0xffff_ffff_ffff_ffff) << 1) == MiddleCross(y)
  {
  }

  lemma LaneShl(y: bv128)
    requires y >> 64 == 0
    ensures y & 0xffff_ffff_ffff_ffff == y && Shl(y, 63) == (y & 0xffff_ffff_ffff_ffff) << 63
  {
  }

  lemma LaneCross(y: bv128)
    requires y >> 64 == 0
    ensures Low(Shl(y, 63)) == TimesX(Middle(y)) && Middle(Shl(y, 63)) == TimesX(High(y))
  {
    hide *;
    LaneShl(y);
    LowCrossFlat(y); LowCrossTimesX(y);
    MiddleCrossFlat(y); MiddleCrossTimesX(y);
    TimesXIsFlat(Middle(y)); TimesXIsFlat(High(y));
  }

  lemma MiddleLanes()
    ensures Lo(MIDDLE) == 0 && Hi(MIDDLE) == 1 && Lo(MIDDLE >> 1) == 0x8000_0000_0000_0000 && Hi(MIDDLE >> 1) == 0
    ensures Lo(ONE) == 0 && Hi(ONE) == 0x8000_0000_0000_0000 && Lo(0) == 0 && Hi(0) == 0
  {
  }

  // A product whose other parts vanish.
  lemma ProductOfTwo(p: bv128, q: bv128, r: bv128)
    ensures p == 0 ==> Product(p, q, r) == Add(Middle(q), High(r))
    ensures r == 0 ==> Product(p, q, r) == Add(Low(p), Middle(q))
  {
    hide *;
    ProductIsSum(p, q, r);
    LowAdd(0, 0); HighAdd(0, 0);
    AddLaws(Middle(q), 0, 0); AddLaws(Add(Low(p), Middle(q)), 0, 0);
  }

  lemma ReducedHalfMiddle(b: bv128)
    ensures Reduced(MIDDLE >> 1, b) == TimesX(Reduced(MIDDLE, b))
  {
    MiddleLanes();
    hide ClMul, Product, Low, Middle, High, Add, TimesX, Lo, Hi, Shl, Double, MIDDLE;
    var l, h := Lo(b), Hi(b);
    LaneSizes(b);
    ClTop(l); ClTop(h); ClOne(l); ClOne(h); ZeroParts(l); ZeroParts(h);
    LaneCross(l); LaneCross(h);
    AddLaws(Shl(h, 63), 0, 0); AddLaws(l, 0, 0);
    ProductOfTwo(Shl(l, 63), Shl(h, 63), 0);
    ProductOfTwo(0, l, h);
    TimesXAdd(Middle(l), High(h));
  }

  // Dividing a power of two by two multiplies the element by x.
  lemma ReducedHalf(m: bv128, b: bv128)
    requires Single(m) && m >> 1 != 0
    ensures Reduced(m >> 1, b) == TimesX(Reduced(m, b))
  {
    hide *;
    WhichLane(m);
    if Hi(m) >> 1 != 0 {
      ReducedHalfHigh(m, b);
    } else if m == MIDDLE {
      ReducedHalfMiddle(b);
    } else {
      ReducedHalfLow(m, b);
    }
  }

  lemma TopProduct(b: bv128)
    ensures Add(Middle(Shl(Lo(b), 63)), High(Shl(Hi(b), 63))) == b
  {
  }

  lemma ReducedOne(b: bv128)
    ensures Reduced(ONE, b) == b && Reduced(0, b) == 0
  {
    MiddleLanes();
    hide ClMul, Product, Low, Middle, High, Add, Lo, Hi, Shl, ONE, Double;
    MiddleAdd(0, 0); HighAdd(0, 0);
    ClTop(Lo(b)); ClTop(Hi(b)); ZeroParts(Lo(b)); ZeroParts(Hi(b));
    AddLaws(Shl(Lo(b), 63), 0, 0); AddLaws(0, 0, 0);
    ProductOfTwo(0, Shl(Lo(b), 63), Shl(Hi(b), 63));
    ProductOfTwo(0, 0, 0);
    TopProduct(b);
  }

  // ----- Equality with the NIST product -----

  lemma ReducedIsMul(a: bv128, b: bv128)
    ensures Reduced(a, b) == Mul(a, b)
  {
    hide *;
    var f, g := (v: bv128) => Reduced(v, b), (v: bv128) => Mul(v, b);
    forall v, w ensures Adds(f, v, w) && Adds(g, v, w) {
      ReducedAdd(v, w, b);
      MulComm(Add(v, w), b); MulComm(v, b); MulComm(w, b);
      MulAdd(b, v, w);
      AddsIf(f, v, w); AddsIf(g, v, w);
    }
    AdditiveIf(f); AdditiveIf(g);
    ReducedOne(b); MulComm(ONE, b); MulOne(b);
    forall m | Single(m) && f(m) == g(m) ensures HalvesAgree(f, g, m) {
      if m >> 1 != 0 {
        ReducedHalf(m, b);
        MaskStep(m);
        MulTimesX(m, b);
      }
      HalvesAgreeIf(f, g, m);
    }
    AdditiveMapsAgree(f, g, a);
  }

  // ----- The code's arrangement of the reduction -----

  function JoinLo(p: bv128, q: bv128): bv128 { p ^ (q << 64) }
  function JoinHi(q: bv128, r: bv128): bv128 { r ^ (q >> 64) }
  function JoinedLo(p: bv128, q: bv128): bv128 { (p ^ (q << 64)) << 1 }
  function ShiftIn(lo: bv128, hi: bv128): bv128 { (hi << 1) | (lo >> 127) }
  function JoinedHi(p: bv128, q: bv128, r: bv128): bv128 { ((r ^ (q >> 64)) << 1) | ((p ^ (q << 64)) >> 127) }
  function JoinedFold(p: bv128, q: bv128): bv128 {
    var t := (p ^ (q << 64)) << 1;
    var l := t ^ (t << 127) ^ (t << 126) ^ (t << 121);
    l ^ ((l >> 1) ^ (l >> 2) ^ (l >> 7))
  }

  lemma MiddleShifts(p: bv128, q: bv128, r: bv128)
    ensures SlliSi128(q, 8) == q << 64 && Add(p, q << 64) == JoinLo(p, q)
    ensures SrliSi128(q, 8) == q >> 64 && Add(r, q >> 64) == JoinHi(q, r)
  {
  }

  lemma JoinedFlat(p: bv128, q: bv128, r: bv128)
    ensures JoinLo(p, q) == p ^ (q << 64) && JoinHi(q, r) == r ^ (q >> 64)
    ensures Double(p ^ (q << 64)) == JoinedLo(p, q)
  {
  }

  lemma JoinedHiFlat(p: bv128, q: bv128, r: bv128)
    ensures ShiftIn(p ^ (q << 64), r ^ (q >> 64)) == JoinedHi(p, q, r)
  {
  }

  lemma JoinedFoldFlat(p: bv128, q: bv128)
    ensures JoinedLo(p, q) == (p ^ (q << 64)) << 1
    ensures Folded((p ^ (q << 64)) << 1) == JoinedFold(p, q)
  {
  }

  lemma JoinedSum(p: bv128, q: bv128, r: bv128)
    ensures Add(((r ^ (q >> 64)) << 1) | ((p ^ (q << 64)) >> 127),
        var t := (p ^ (q << 64)) << 1;
        var l := t ^ (t << 127) ^ (t << 126) ^ (t << 121);
        l ^ ((l >> 1) ^ (l >> 2) ^ (l >> 7))) == Product(p, q, r)
  {
  }

  lemma JoinedSumFlat(p: bv128, q: bv128, r: bv128)
    ensures JoinedHi(p, q, r) == ((r ^ (q >> 64)) << 1) | ((p ^ (q << 64)) >> 127)
    ensures JoinedFold(p, q) ==
      var t := (p ^ (q << 64)) << 1;
      var l := t ^ (t << 127) ^ (t << 126) ^ (t << 121);
      l ^ ((l >> 1) ^ (l >> 2) ^ (l >> 7))
  {
  }

  lemma JoinedIsProduct(p: bv128, q: bv128, r: bv128)
    ensures Add(JoinedHi(p, q, r), JoinedFold(p, q)) == Product(p, q, r)
  {
    hide *;
    JoinedSum(p, q, r); JoinedSumFlat(p, q, r);
  }

  lemma JoinedNames(p: bv128, q: bv128, r: bv128)
    ensures Double(JoinLo(p, q)) == JoinedLo(p, q)
    ensures ShiftIn(JoinLo(p, q), JoinHi(q, r)) == JoinedHi(p, q, r)
    ensures Folded(JoinedLo(p, q)) == JoinedFold(p, q)
  {
    hide *;
    JoinedFlat(p, q, r); JoinedHiFlat(p, q, r); JoinedFoldFlat(p, q);
  }

  // From the four lane products to the element, as the instructions do it.
  lemma ReductionIsProduct(p: bv128, q: bv128, r: bv128)
    ensures var lo := Add(p, SlliSi128(q, 8));
            var hi := Add(r, SrliSi128(q, 8));
            Add(ShiftedHi(lo, hi), FoldLow(ShiftedLo(lo))) == Product(p, q, r)
  {
    hide *;
    MiddleShifts(p, q, r);
    var lo, hi := JoinLo(p, q), JoinHi(q, r);
    ShiftedLoIs(lo); ShiftedHiIs(lo, hi);
    FoldLowIsFolded(JoinedLo(p, q));
    JoinedNames(p, q, r);
    JoinedIsProduct(p, q, r);
  }
}
