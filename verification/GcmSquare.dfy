// Squaring in GF(2^128): in characteristic two it is additive, so it can be
// computed by spreading the bits and reducing once.
module GcmSquare {
  import opened Gf128
  import opened GcmMultiply

  // x^(2i) for x^i, for the 64 coefficients of one lane.
  function Spread(y: bv128): bv128 {
    var y0 := y & 0xffff_ffff_ffff_ffff;
    var y1 := (y0 ^ (y0 << 32)) & 0x00000000_ffffffff_00000000_ffffffff;
    var y2 := (y1 ^ (y1 << 16)) & 0x0000ffff_0000ffff_0000ffff_0000ffff;
    var y3 := (y2 ^ (y2 << 8)) & 0x00ff00ff_00ff00ff_00ff00ff_00ff00ff;
    var y4 := (y3 ^ (y3 << 4)) & 0x0f0f0f0f_0f0f0f0f_0f0f0f0f_0f0f0f0f;
    var y5 := (y4 ^ (y4 << 2)) & 0x33333333_33333333_33333333_33333333;
    var y6 := (y5 ^ (y5 << 1)) & 0x55555555_55555555_55555555_55555555;
    y6 << 1
  }

  // Folding multiplies by x^128 = 1 + x + x^2 + x^7.
  function Square(v: bv128): bv128 {
    Add(Spread(Hi(v)), Folded(Spread(Lo(v))))
  }

  lemma SpreadXor(a: bv128, b: bv128)
    ensures Spread(a ^ b) == Add(Spread(a), Spread(b)) && Spread(0) == 0
  {
  }

  lemma SpreadAdd(a: bv128, b: bv128)
    ensures Spread(Add(a, b)) == Add(Spread(a), Spread(b)) && Spread(0) == 0
  {
    hide *;
    SpreadXor(a, b);
    AddIsXor(a, b);
  }

  lemma FoldedXor(t: bv128, u: bv128)
    ensures Folded(t ^ u) == Add(Folded(t), Folded(u)) && Folded(0) == 0
  {
  }

  lemma FoldedAdd(t: bv128, u: bv128)
    ensures Folded(Add(t, u)) == Add(Folded(t), Folded(u)) && Folded(0) == 0
  {
    hide *;
    FoldedXor(t, u);
    AddIsXor(t, u);
  }

  function FoldedHalf(t: bv128): bv128 {
    var l := (t >> 1) ^ ((t >> 1) << 127) ^ ((t >> 1) << 126) ^ ((t >> 1) << 121);
    l ^ ((l >> 1) ^ (l >> 2) ^ (l >> 7))
  }

  lemma FoldedHalfFlat(t: bv128)
    ensures Folded(t >> 1) == FoldedHalf(t)
    ensures Folded((t >> 1) << 1) ==
      var l := ((t >> 1) << 1) ^ (((t >> 1) << 1) << 127) ^ (((t >> 1) << 1) << 126) ^ (((t >> 1) << 1) << 121);
      l ^ ((l >> 1) ^ (l >> 2) ^ (l >> 7))
  {
  }

  lemma FoldedHalfTimesX(t: bv128)
    ensures TimesXFlat(
        var l := ((t >> 1) << 1) ^ (((t >> 1) << 1) << 127) ^ (((t >> 1) << 1) << 126) ^ (((t >> 1) << 1) << 121);
        l ^ ((l >> 1) ^ (l >> 2) ^ (l >> 7))) == FoldedHalf(t)
  {
  }

  lemma FoldedTimesX(t: bv128)
    requires t & 1 == 0
    ensures Folded(t >> 1) == TimesX(Folded(t))
  {
    assert (t >> 1) << 1 == t;
    hide *;
    FoldedHalfFlat(t); FoldedHalfTimesX(t);
    TimesXIsFlat(Folded(t));
  }

  lemma SquareAdd(a: bv128, b: bv128)
    ensures Square(Add(a, b)) == Add(Square(a), Square(b))
  {
    hide Add, Spread, Folded, Lo, Hi;
    LanesAdd(a, b);
    SpreadAdd(Hi(a), Hi(b)); SpreadAdd(Lo(a), Lo(b));
    FoldedAdd(Spread(Lo(a)), Spread(Lo(b)));
    AddCross(Spread(Hi(a)), Spread(Hi(b)), Folded(Spread(Lo(a))), Folded(Spread(Lo(b))));
  }

  // An even lane, and half of it.
  function EvenLane(y: bv128): bv128 { ((y >> 1) & 0x7fff_ffff_ffff_ffff) << 1 }
  function HalfLane(y: bv128): bv128 { (y >> 1) & 0x7fff_ffff_ffff_ffff }

  lemma LaneNames(y: bv128)
    ensures EvenLane(y) == ((y >> 1) & 0x7fff_ffff_ffff_ffff) << 1 && HalfLane(y) == (y >> 1) & 0x7fff_ffff_ffff_ffff
  {
  }

  lemma EvenLaneIs(y: bv128)
    requires y & 1 == 0 && y >> 64 == 0
    ensures EvenLane(y) == y
  {
  }

  lemma HalfLaneIs(y: bv128)
    requires y & 1 == 0 && y >> 64 == 0
    ensures HalfLane(y) == y >> 1
  {
  }

  lemma SpreadShift(y: bv128)
    ensures Spread((y >> 1) & 0x7fff_ffff_ffff_ffff) == Quarter(Spread(((y >> 1) & 0x7fff_ffff_ffff_ffff) << 1))
  {
    assert Spread((y >> 1) & 0x7fff_ffff_ffff_ffff) == Spread(((y >> 1) & 0x7fff_ffff_ffff_ffff) << 1) >> 2;
    hide Spread;
  }

  predicate FourfoldEven(s: bv128) { s & 3 == 0 }

  lemma SpreadLowBits(y: bv128)
    ensures FourfoldEven(Spread(((y >> 1) & 0x7fff_ffff_ffff_ffff) << 1))
  {
    assert Spread(((y >> 1) & 0x7fff_ffff_ffff_ffff) << 1) & 3 == 0;
    hide Spread;
  }

  lemma TimesXTwice(s: bv128)
    requires FourfoldEven(s)
    ensures TimesX(TimesX(s)) == Quarter(s)
  {
    assert s & 1 == 0 && (s >> 1) & 1 == 0;
  }

  lemma FoldedQuarter(s: bv128)
    requires FourfoldEven(s)
    ensures Folded(Quarter(s)) == TimesX(TimesX(Folded(s)))
  {
    assert s & 1 == 0 && (s >> 1) & 1 == 0 && (s >> 1) >> 1 == Quarter(s);
    hide *;
    FoldedTimesX(s); FoldedTimesX(s >> 1);
  }

  lemma SpreadHalf(y: bv128)
    requires y & 1 == 0 && y >> 64 == 0
    ensures Spread(y >> 1) == Quarter(Spread(y)) == TimesX(TimesX(Spread(y))) && FourfoldEven(Spread(y))
  {
    hide *;
    LaneNames(y); EvenLaneIs(y); HalfLaneIs(y);
    SpreadShift(y); SpreadLowBits(y);
    TimesXTwice(Spread(y));
  }

  lemma EvenBit(m: bv128)
    requires Single(m) && m >> 1 != 0
    ensures m & 1 == 0
  {
  }

  lemma SquareMiddle()
    ensures Square(MIDDLE >> 1) == TimesX(TimesX(Square(MIDDLE))) && Square(ONE) == ONE
  {
  }

  lemma SquareOfLanes(m: bv128)
    ensures Lo(m) == 0 ==> Square(m) == Spread(Hi(m))
    ensures Hi(m) == 0 ==> Square(m) == Folded(Spread(Lo(m)))
  {
    hide Add, Spread, Folded, Lo, Hi;
    SpreadAdd(0, 0); FoldedAdd(0, 0);
    AddLaws(Spread(Hi(m)), 0, 0); AddLaws(Folded(Spread(Lo(m))), 0, 0);
  }

  lemma SquareHalfHigh(m: bv128)
    requires Single(m) && Hi(m) >> 1 != 0
    ensures Square(m >> 1) == TimesX(TimesX(Square(m)))
  {
    hide *;
    HighLane(m); EvenBit(Hi(m)); SpreadHalf(Hi(m));
    SquareOfLanes(m); SquareOfLanes(m >> 1);
  }

  lemma SquareHalfLow(m: bv128)
    requires Single(m) && m >> 1 != 0 && m >> 64 == 0
    ensures Square(m >> 1) == TimesX(TimesX(Square(m)))
  {
    hide *;
    LowLane(m); EvenBit(m); SpreadHalf(m);
    SquareOfLanes(m); SquareOfLanes(m >> 1);
    FoldedQuarter(Spread(m));
  }

  lemma SquareHalf(m: bv128)
    requires Single(m) && m >> 1 != 0
    ensures Square(m >> 1) == TimesX(TimesX(Square(m)))
  {
    hide *;
    WhichLane(m);
    if Hi(m) >> 1 != 0 {
      SquareHalfHigh(m);
    } else if m == MIDDLE {
      SquareMiddle();
    } else {
      SquareHalfLow(m);
    }
  }

  lemma MulSquareAdd(a: bv128, b: bv128)
    ensures Mul(Add(a, b), Add(a, b)) == Add(Mul(a, a), Mul(b, b))
  {
    hide Mul, Add;
    var s := Add(a, b);
    MulAdd(s, a, b);
    MulComm(s, a); MulComm(s, b);
    MulAdd(a, a, b); MulAdd(b, a, b);
    MulComm(b, a);
    var ab := Mul(a, b);
    AddLaws(Mul(b, b), ab, ab);
    AddLaws(ab, Mul(b, b), ab);
    AddCross(Mul(a, a), ab, Mul(b, b), ab);
    AddLaws(ab, ab, ab); AddLaws(Add(Mul(a, a), Mul(b, b)), 0, 0);
  }

  lemma SquareIsMul(a: bv128)
    ensures Square(a) == Mul(a, a)
  {
    hide *;
    var f, g := (v: bv128) => Square(v), (v: bv128) => Mul(v, v);
    forall v, w ensures Adds(f, v, w) && Adds(g, v, w) {
      SquareAdd(v, w); MulSquareAdd(v, w);
      AddsIf(f, v, w); AddsIf(g, v, w);
    }
    AdditiveIf(f); AdditiveIf(g);
    SquareMiddle(); MulOne(ONE);
    forall m | Single(m) && f(m) == g(m) ensures HalvesAgree(f, g, m) {
      if m >> 1 != 0 {
        SquareHalf(m);
        MaskStep(m);
        MulTimesX(m, m); MulTimesX(TimesX(m), m);
      }
      HalvesAgreeIf(f, g, m);
    }
    AdditiveMapsAgree(f, g, a);
  }
}
