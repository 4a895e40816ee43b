// The exponent of the splitting attempt is a third of the order of the
// multiplicative group of GF(2^128): raising to it tells cubes from the rest.
module GcmCubes {
  import opened Sse
  import opened Gf128
  import opened GcmMultiply
  import opened GcmField
  import Factorize

  const ALL: bv128 := 0xffffffff_ffffffff_ffffffff_ffffffff

  // (2 * THIRD + 1) / 3
  const CUBE_ROOT: bv128 := 0x38e38e38_e38e38e3_8e38e38e_38e38e39

  // ----- The exponents as numbers -----

  function Both(a: bv128, b: bv128): bv128 { a & b }

  lemma ValStep(x: bv128)
    ensures Val(x) == 2 * Val(Half(x)) + if Odd(x) then 1 else 0
  {
  }

  lemma HalfBoth(a: bv128, b: bv128)
    ensures Half(Both(a, b)) == Both(Half(a), Half(b))
  {
  }

  lemma OddBoth(a: bv128, b: bv128)
    ensures Odd(Both(a, b)) <==> Odd(a) && Odd(b)
  {
  }

  lemma NothingToAdd()
    ensures Val(0) == 0 && Add(0, 0) == 0 && Both(0, 0) == 0
  {
  }

  lemma HalvesSmaller(a: bv128, b: bv128)
    requires a != 0 || b != 0
    ensures Width(Half(a)) + Width(Half(b)) < Width(a) + Width(b)
  {
  }

  lemma ValSumStep(a: bv128, b: bv128)
    requires Val(Half(a)) + Val(Half(b)) == Val(Add(Half(a), Half(b))) + 2 * Val(Both(Half(a), Half(b)))
    ensures Val(a) + Val(b) == Val(Add(a, b)) + 2 * Val(Both(a, b))
  {
    hide *;
    HalfAdd(a, b);
    HalfBoth(a, b);
    OddBoth(a, b);
    ValStep(a); ValStep(b); ValStep(Add(a, b)); ValStep(Both(a, b));
  }

  // A sum is the sum without carries plus twice the carries.
  lemma {:induction false} ValSum(a: bv128, b: bv128)
    ensures Val(a) + Val(b) == Val(Add(a, b)) + 2 * Val(Both(a, b))
    decreases Width(a) + Width(b)
  {
    hide *;
    if a == 0 && b == 0 {
      NothingToAdd();
    } else {
      HalvesSmaller(a, b);
      ValSum(Half(a), Half(b));
      ValSumStep(a, b);
    }
  }

  lemma ValDouble(x: bv128)
    requires x >> 127 == 0
    ensures Val(Double(x)) == 2 * Val(x)
  {
    hide *;
    HalfDouble(x);
    ValStep(Double(x));
  }

  // One step of adding by carries.
  lemma ValCarry(a: bv128, b: bv128, sum: bv128, carries: bv128)
    requires Add(a, b) == sum && Both(a, b) >> 127 == 0 && Double(Both(a, b)) == carries
    ensures Val(a) + Val(b) == Val(sum) + Val(carries)
  {
    hide *;
    ValSum(a, b);
    ValDouble(Both(a, b));
  }

  lemma ThirdSteps()
    ensures Factorize.THIRD >> 127 == 0 && Double(Factorize.THIRD) == 0xaaaaaaaa_aaaaaaaa_aaaaaaaa_aaaaaaaa
    ensures Add(Factorize.THIRD, 0xaaaaaaaa_aaaaaaaa_aaaaaaaa_aaaaaaaa) == ALL
    ensures Both(Factorize.THIRD, 0xaaaaaaaa_aaaaaaaa_aaaaaaaa_aaaaaaaa) == 0
  {
  }

  lemma ThreeThirds()
    ensures 3 * Val(Factorize.THIRD) == Val(ALL)
  {
    hide *;
    ThirdSteps();
    ValDouble(Factorize.THIRD);
    ValSum(Factorize.THIRD, 0xaaaaaaaa_aaaaaaaa_aaaaaaaa_aaaaaaaa);
    NothingToAdd();
  }

  lemma CubeRootSteps()
    ensures CUBE_ROOT >> 127 == 0 && Double(CUBE_ROOT) == 0x71c71c71_c71c71c7_1c71c71c_71c71c72
    ensures Add(CUBE_ROOT, 0x71c71c71_c71c71c7_1c71c71c_71c71c72) == 0x49249249_24924924_92492492_4924924b
    ensures var carries := Both(CUBE_ROOT, 0x71c71c71_c71c71c7_1c71c71c_71c71c72);
            carries >> 127 == 0 && Double(carries) == 0x61861861_86186186_18618618_61861860
  {
  }

  lemma CarrySteps()
    ensures Add(0x49249249_24924924_92492492_4924924b, 0x61861861_86186186_18618618_61861860)
            == 0x28a28a28_a28a28a2_8a28a28a_28a28a2b
    ensures var carries := Both(0x49249249_24924924_92492492_4924924b, 0x61861861_86186186_18618618_61861860);
            carries >> 127 == 0 && Double(carries) == 0x82082082_08208208_20820820_82082080
    ensures Add(0x28a28a28_a28a28a2_8a28a28a_28a28a2b, 0x82082082_08208208_20820820_82082080)
            == 0xaaaaaaaa_aaaaaaaa_aaaaaaaa_aaaaaaab
    ensures Both(0x28a28a28_a28a28a2_8a28a28a_28a28a2b, 0x82082082_08208208_20820820_82082080) == 0
  {
  }

  lemma TwiceThirdPlusOne()
    ensures Half(0xaaaaaaaa_aaaaaaaa_aaaaaaaa_aaaaaaab) == Factorize.THIRD
    ensures Odd(0xaaaaaaaa_aaaaaaaa_aaaaaaaa_aaaaaaab)
  {
  }

  lemma ThreeCubeRoots()
    ensures 3 * Val(CUBE_ROOT) == 2 * Val(Factorize.THIRD) + 1
  {
    hide *;
    CubeRootSteps();
    CarrySteps();
    TwiceThirdPlusOne();
    NothingToAdd();
    ValDouble(CUBE_ROOT);
    ValCarry(CUBE_ROOT, 0x71c71c71_c71c71c7_1c71c71c_71c71c72,
             0x49249249_24924924_92492492_4924924b, 0x61861861_86186186_18618618_61861860);
    ValCarry(0x49249249_24924924_92492492_4924924b, 0x61861861_86186186_18618618_61861860,
             0x28a28a28_a28a28a2_8a28a28a_28a28a2b, 0x82082082_08208208_20820820_82082080);
    ValSum(0x28a28a28_a28a28a2_8a28a28a_28a28a2b, 0x82082082_08208208_20820820_82082080);
    ValStep(0xaaaaaaaa_aaaaaaaa_aaaaaaaa_aaaaaaab);
  }

  // ----- Powers in the group -----

  lemma {:induction false} PowerSum(a: bv128, m: nat, n: nat)
    ensures Power(a, m + n) == Mul(Power(a, m), Power(a, n))
    decreases m
  {
    hide Mul;
    if m == 0 {
      MulOneLeft(Power(a, n));
    } else {
      PowerSum(a, m - 1, n);
      MulAssoc(a, Power(a, m - 1), Power(a, n));
    }
  }

  function Cube(y: bv128): bv128 { Mul(y, Mul(y, y)) }

  ghost predicate IsCube(v: bv128) { exists y :: Cube(y) == v }

  lemma PowerThrice(a: bv128, n: nat)
    ensures Power(a, 3 * n) == Cube(Power(a, n))
  {
    hide Mul, Power;
    PowerSum(a, n, 2 * n);
    PowerSum(a, n, n);
  }

  lemma CubeOfProduct(a: bv128, b: bv128)
    ensures Cube(Mul(a, b)) == Mul(Cube(a), Cube(b))
  {
    hide Mul;
    MulCross(a, b, a, b);
    MulCross(a, b, Mul(a, a), Mul(b, b));
  }

  lemma {:induction false} PowerOfCube(y: bv128, n: nat)
    ensures Power(Cube(y), n) == Cube(Power(y, n))
  {
    hide Mul, Cube;
    if n == 0 {
      CubeOfOne();
    } else {
      PowerOfCube(y, n - 1);
      CubeOfProduct(y, Power(y, n - 1));
    }
  }

  lemma CubeOfOne()
    ensures Cube(ONE) == ONE
  {
    hide Mul;
    MulOne(ONE);
  }

  lemma AllIsNext()
    ensures Half(ALL) == Half(INVERSE_EXPONENT) && Odd(ALL) && !Odd(INVERSE_EXPONENT)
  {
  }

  // The order of every element divides 2^128 - 1.
  lemma PowerOfOrder(a: bv128)
    requires a != 0
    ensures Power(a, Val(ALL)) == ONE
  {
    hide Mul, Val, INVERSE_EXPONENT, ALL, PowBits;
    AllIsNext();
    ValStep(ALL);
    ValStep(INVERSE_EXPONENT);
    PowBitsIsPower(a, INVERSE_EXPONENT);
    InverseLaw(a);
  }

  lemma PowerOfZero(n: nat)
    ensures n > 0 ==> Power(0, n) == 0
  {
    hide Mul;
    if n > 0 {
      MulComm(0, Power(0, n - 1));
      MulZeroRight(Power(0, n - 1));
    }
  }

  lemma IntroduceCube(y: bv128, v: bv128)
    requires Cube(y) == v
    ensures IsCube(v)
  {
    hide Cube;
  }

  lemma SomeRoot(v: bv128) returns (y: bv128)
    requires IsCube(v)
    ensures Cube(y) == v
  {
    hide Cube;
    y :| Cube(y) == v;
  }

  lemma CubeOfZero()
    ensures Cube(0) == 0
  {
    hide Mul;
    MulZeroRight(0);
  }

  // The exponent of the attempt sends exactly the non-zero cubes to one.
  lemma CubeLaw(v: bv128)
    ensures Power(v, Val(Factorize.THIRD)) == ONE <==> v != 0 && IsCube(v)
  {
    hide *;
    var third := Val(Factorize.THIRD);
    ThreeThirds();
    ThreeCubeRoots();
    if v == 0 {
      PowerOfZero(third);
      OneIsNotZero();
    } else if Power(v, third) == ONE {
      // v == v^(2 * third + 1), the cube of a power of v
      PowerSum(v, third, third + 1);
      PowerSum(v, third, 1);
      MulOneLeft(v);
      PowerOne(v);
      PowerThrice(v, Val(CUBE_ROOT));
      IntroduceCube(Power(v, Val(CUBE_ROOT)), v);
    }
    if v != 0 && IsCube(v) {
      var y := SomeRoot(v);
      CubeOfZero();
      PowerOfCube(y, third);
      PowerThrice(y, third);
      PowerOfOrder(y);
    }
  }

  lemma OneIsNotZero()
    ensures ONE != 0
  {
  }

  lemma PowerOne(v: bv128)
    ensures Power(v, 1) == v
  {
    hide Mul;
    MulOne(v);
    assert Power(v, 1) == Mul(v, Power(v, 0));
  }
}
