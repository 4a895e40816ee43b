// GCM::Polynomial: one element of GF(2^128), updated in place.
module GcmPolynomial {
  import opened Gf128
  import opened GcmMultiply
  import opened GcmField
  import opened GcmBytes
  import opened Sse

  // ----- Exponents -----

  lemma TopIndex()
    ensures FromIndex(127) == ONE
  {
  }

  lemma ShiftAbove(index: bv8)
    requires index < 127
    ensures (1 as bv128) << index == TimesX((1 as bv128) << (index + 1))
  {
  }

  lemma FromIndexAbove(index: bv8)
    requires index < 127
    ensures FromIndex(index) == TimesX(FromIndex(index + 1))
  {
    hide *;
    FromIndexIsShift(index);
    FromIndexIsShift(index + 1);
    ShiftAbove(index);
  }

  // Both steps from one exponent to the next, the index going down.
  lemma IndexDown(i: bv8, index: bv8)
    requires 0 < i < 128 && index == 127 - i
    requires FromIndex(index + 1) == PowX(i - 1)
    ensures FromIndex(index) == PowX(i)
  {
    hide *;
    FromIndexAbove(index);
    PowXFromLast(i);
  }

  lemma {:induction false} IndexIsPowX(i: bv8, index: bv8)
    requires i < 128 && index == 127 - i
    ensures FromIndex(index) == PowX(i)
    decreases i
  {
    hide *;
    if i == 0 {
      TopIndex();
      PowXZero();
    } else {
      IndexIsPowX(i - 1, index + 1);
      IndexDown(i, index);
    }
  }

  lemma TestIsHas(x: bv128, index: bv8)
    requires index < 128
    ensures Test(x, index) <==> Has(x, FromIndex(index))
  {
  }

  lemma TestIsCoefficient(x: bv128, i: bv8)
    requires i < 128
    ensures Test(x, 127 - i) <==> Coefficient(x, i)
  {
    hide FromIndex, PowX, Has, Test;
    TestIsHas(x, 127 - i);
    IndexIsPowX(i, 127 - i);
  }

  lemma OrOther(x: bv128, m: bv128, k: bv128)
    requires m & k == 0
    ensures Or(x, m) & k == x & k
  {
  }

  lemma OrSame(x: bv128, m: bv128)
    ensures Or(x, m) & m == m
  {
  }

  lemma SetMask(x: bv128, m: bv128, k: bv128)
    requires m != 0 && (m == k || !Has(m, k))
    ensures Has(Or(x, m), k) <==> m == k || Has(x, k)
  {
    hide Or;
    if m == k { OrSame(x, m); } else { OrOther(x, m, k); }
  }

  lemma SetCoefficient(x: bv128, e: bv8, i: bv8)
    requires e < 128 && i < 128
    ensures Coefficient(Or(x, PowX(e)), i) <==> Coefficient(x, i) || i == e
  {
    hide PowX, Has, Or, Gf128.Single;
    PowXHas(i, e); PowXHas(e, e);
    PowXBits(e);
    SetMask(x, PowX(e), PowX(i));
  }

  lemma NoCoefficients()
    ensures forall i: bv8 :: i < 128 ==> !Coefficient(0, i)
  {
  }

  predicate Increasing(s: seq<bv8>) {
    forall i, j :: 0 <= i < j < |s| ==> s[i] < s[j]
  }

  lemma IncreasingLast(s: seq<bv8>)
    requires Increasing(s) && s != []
    ensures var last := s[|s| - 1];
            && last in s && (forall e :: e in s ==> e <= last)
            && Increasing(s[..|s| - 1]) && (forall e :: e in s[..|s| - 1] <==> e in s && e != last)
  {
  }

  lemma IncreasingSnoc(s: seq<bv8>, e: bv8)
    requires Increasing(s) && forall i :: i in s ==> i < e
    ensures Increasing(s + [e])
  {
    forall i, j | 0 <= i < j < |s| + 1 ensures (s + [e])[i] < (s + [e])[j] {
      assert s[i] in s;
    }
  }

  ghost predicate SameElements(s: seq<bv8>, t: seq<bv8>) {
    forall e :: e in s <==> e in t
  }

  lemma SameNonEmpty(s: seq<bv8>, t: seq<bv8>)
    requires (SameElements(s, t) || SameElements(t, s)) && s != []
    ensures t != []
  {
    var e := s[0];
    assert e in s;
  }

  // The exponents of x below e, in increasing order.
  ghost predicate ListsBelow(s: seq<bv8>, x: bv128, e: bv8) {
    Increasing(s) && forall i: bv8 :: i in s <==> i < e && i < 128 && Coefficient(x, i)
  }

  lemma ListsNone(x: bv128)
    ensures ListsBelow([], x, 0)
  {
  }

  lemma ListsAll(s: seq<bv8>, x: bv128)
    requires ListsBelow(s, x, 128)
    ensures Increasing(s) && Lists(s, x)
  {
  }

  lemma ListsNext(s: seq<bv8>, x: bv128, e: bv8)
    requires ListsBelow(s, x, e) && e < 128
    ensures Coefficient(x, e) ==> ListsBelow(s + [e], x, e + 1)
    ensures !Coefficient(x, e) ==> ListsBelow(s, x, e + 1)
  {
    hide Coefficient, Increasing;
    IncreasingSnoc(s, e);
  }

  // A strictly increasing sequence is determined by its elements.
  lemma {:induction false} IncreasingUnique(s: seq<bv8>, t: seq<bv8>)
    requires Increasing(s) && Increasing(t) && SameElements(s, t)
    ensures s == t
  {
    hide Increasing, SameElements;
    if s != [] && t != [] {
      DropLast(s, t);
      var m, n := |s| - 1, |t| - 1;
      IncreasingUnique(s[..m], t[..n]);
      assert s == s[..m] + [s[m]] && t == t[..n] + [t[n]];
    } else if s != [] {
      SameNonEmpty(s, t);
    } else if t != [] {
      SameNonEmpty(t, s);
    }
  }

  lemma DropLast(s: seq<bv8>, t: seq<bv8>)
    requires Increasing(s) && Increasing(t) && SameElements(s, t) && s != [] && t != []
    ensures s[|s| - 1] == t[|t| - 1]
    ensures var s', t' := s[..|s| - 1], t[..|t| - 1]; Increasing(s') && Increasing(t') && SameElements(s', t')
  {
    hide Increasing;
    IncreasingLast(s);
    IncreasingLast(t);
    assert s[|s| - 1] == t[|t| - 1];
    var s', t' := s[..|s| - 1], t[..|t| - 1];
    forall e ensures e in s' <==> e in t' {
      assert e in s <==> e in t;
    }
  }

  // Without the coefficients of x^i, x^(i+1), ... nothing is left from x^i on.
  lemma {:induction false} NoCoefficientsFrom(v: bv128, i: bv8)
    requires i < 128 && forall j: bv8 :: i <= j < 128 ==> !Coefficient(v, j)
    ensures Bits(v, Upto(PowX(i))) == 0
    decreases 128 - i
  {
    hide Has, PowX, Bits, Upto, Below, Single, TimesX, Gf128.Add;
    assert !Coefficient(v, i);
    if i == 127 {
      LastPowX();
      MaskEnds(v);
    } else {
      NoCoefficientsFrom(v, i + 1);
      NoCoefficientBelow(v, i);
    }
  }

  lemma NoCoefficientBelow(v: bv128, i: bv8)
    requires i < 127 && !Has(v, PowX(i)) && Bits(v, Upto(PowX(i + 1))) == 0
    ensures Bits(v, Upto(PowX(i))) == 0
  {
    hide *;
    PowXBits(i);
    PowXStep(i);
    MaskStep(PowX(i));
    BitOfSingle(v, PowX(i));
    SplitMask(v, PowX(i));
    AddLaws(0, 0, 0);
  }

  lemma CoefficientAdd(x: bv128, y: bv128, i: bv8)
    requires i < 128
    ensures Coefficient(Gf128.Add(x, y), i) <==> Coefficient(x, i) != Coefficient(y, i)
  {
    hide PowX, Has, Gf128.Add, Gf128.Single;
    PowXBits(i);
    HasAdd(x, y, PowX(i));
  }

  // An element is determined by its exponents.
  lemma SameCoefficients(x: bv128, y: bv128)
    requires forall i: bv8 :: i < 128 ==> (Coefficient(x, i) <==> Coefficient(y, i))
    ensures x == y
  {
    hide *;
    forall i: bv8 | i < 128 ensures !Coefficient(Gf128.Add(x, y), i) { CoefficientAdd(x, y, i); }
    NoCoefficientsFrom(Gf128.Add(x, y), 0);
    PowXZero();
    MaskEnds(Gf128.Add(x, y));
    Gf128.AddIsZeroIffEqual(x, y);
  }

  // ----- Square and multiply -----

  lemma PowNone(base: bv128)
    ensures PowBits(base, 0) == ONE
  {
  }

  // One round of the loop: the owed product out * base^e stays the same.
  lemma PowRound(out: bv128, base: bv128, e: bv128)
    requires e != 0
    ensures Mul(out, PowBits(base, e))
            == Mul(if e & 1 != 0 then Mul(out, base) else out, PowBits(Mul(base, base), e >> 1))
  {
    hide Mul;
    var rest := PowBits(Mul(base, base), e >> 1);
    MulAssoc(out, base, rest);
    MulOneLeft(rest);
  }

  class Polynomial {
    var bits: bv128

    constructor (bits: bv128)
      ensures this.bits == bits
    {
      this.bits := bits;
    }

    method AddAssign(rhs: bv128)
      modifies this
      ensures bits == Add(old(bits), rhs)
    {
      bits := bits ^ rhs;
    }

    // Four carry-less multiplications of 64-bit lanes, then the reduction by
    // shifts. The temporaries are those of the Intel white paper.
    method MulAssign(rhs: bv128)
      modifies this
      ensures bits == Mul(old(bits), rhs)
    {
      hide Add, Mul, ClMul, Product, Lo, Hi, Or, SlliEpi32, SrliEpi32, SlliSi128, SrliSi128;
      var a, b := bits, rhs;
      var tmp3 := ClMulEpi64(a, b, 0x00);
      var tmp4 := ClMulEpi64(a, b, 0x10);
      var tmp5 := ClMulEpi64(a, b, 0x01);
      var tmp6 := ClMulEpi64(a, b, 0x11);
      ghost var p, q, r := tmp3, Add(tmp4, tmp5), tmp6;
      tmp4 := Add(tmp4, tmp5);
      tmp5 := SlliSi128(tmp4, 8);
      tmp4 := SrliSi128(tmp4, 8);
      tmp3 := Add(tmp3, tmp5);
      tmp6 := Add(tmp6, tmp4);
      ghost var lo, hi := tmp3, tmp6;
      var tmp7 := SrliEpi32(tmp3, 31);
      var tmp8 := SrliEpi32(tmp6, 31);
      tmp3 := SlliEpi32(tmp3, 1);
      tmp6 := SlliEpi32(tmp6, 1);
      var tmp9 := SrliSi128(tmp7, 12);
      tmp8 := SlliSi128(tmp8, 4);
      tmp7 := SlliSi128(tmp7, 4);
      tmp3 := Or(tmp3, tmp7);
      tmp6 := Or(tmp6, tmp8);
      tmp6 := Or(tmp6, tmp9);
      ghost var t := tmp3;
      assert tmp3 == ShiftedLo(lo) && tmp6 == ShiftedHi(lo, hi);
      tmp7 := SlliEpi32(tmp3, 31);
      tmp8 := SlliEpi32(tmp3, 30);
      tmp9 := SlliEpi32(tmp3, 25);
      tmp7 := Add(tmp7, tmp8);
      tmp7 := Add(tmp7, tmp9);
      tmp8 := SrliSi128(tmp7, 4);
      tmp7 := SlliSi128(tmp7, 12);
      tmp3 := Add(tmp3, tmp7);
      var tmp2 := SrliEpi32(tmp3, 1);
      tmp4 := SrliEpi32(tmp3, 2);
      tmp5 := SrliEpi32(tmp3, 7);
      tmp2 := Add(tmp2, tmp4);
      tmp2 := Add(tmp2, tmp5);
      tmp2 := Add(tmp2, tmp8);
      tmp3 := Add(tmp3, tmp2);
      tmp6 := Add(tmp6, tmp3);
      assert tmp3 == FoldLow(t);
      ReductionIsProduct(p, q, r);
      ReducedIsMul(a, b);
      bits := tmp6;
    }

    method Pow(exponent: bv128) returns (out: Polynomial)
      ensures fresh(out) && out.bits == PowBits(bits, exponent) == Power(bits, Val(exponent))
    {
      hide *;
      out := new Polynomial(ONE);
      var base := new Polynomial(bits);
      MulOneLeft(PowBits(bits, exponent));
      WidthBound(exponent);
      var e := exponent;
      ghost var rounds := 0;
      while e != 0
        invariant fresh(out) && fresh(base) && out != base
        invariant rounds + Width(e) == Width(exponent)
        invariant Mul(out.bits, PowBits(base.bits, e)) == PowBits(bits, exponent)
        decreases 128 - rounds
      {
        PowRound(out.bits, base.bits, e);
        if e & 1 != 0 {
          out.MulAssign(base.bits);
        }
        NextExponentIsShift(e);
        WidthStep(e);
        e := NextExponent(e);
        base.MulAssign(base.bits);
        rounds := rounds + 1;
      }
      PowNone(base.bits);
      MulOneLeft(out.bits);
      PowBitsIsPower(bits, exponent);
    }

    // For zero the result is zero, not an error.
    method ModularInverse() returns (out: Polynomial)
      ensures fresh(out) && out.bits == Inv(bits)
      ensures bits != 0 ==> Mul(out.bits, bits) == ONE
      ensures bits == 0 ==> out.bits == 0
    {
      hide Mul, Power;
      out := Pow(0xffffffff_ffffffff_ffffffff_fffffffe);
      if bits != 0 {
        InverseLaw(bits);
        MulComm(bits, out.bits);
      } else {
        InverseOfZero();
      }
    }

    method DivAssign(rhs: bv128)
      modifies this
      ensures bits == Mul(old(bits), Inv(rhs))
      ensures rhs != 0 ==> Mul(bits, rhs) == old(bits)
    {
      hide *;
      var divisor := new Polynomial(rhs);
      var inverse := divisor.ModularInverse();
      MulAssoc(bits, Inv(rhs), rhs);
      MulOneLeft(bits);
      MulAssign(inverse.bits);
    }

    // Repeated exponents count once: the bits are combined with or.
    static method FromExponents(exponents: seq<bv8>) returns (p: Polynomial)
      requires forall e :: e in exponents ==> e < 128
      ensures fresh(p)
      ensures forall i: bv8 :: i < 128 ==> (Coefficient(p.bits, i) <==> i in exponents)
    {
      hide FromIndex, PowX, Has, Or;
      var x: bv128 := 0;
      NoCoefficients();
      var k := 0;
      while k < |exponents|
        invariant 0 <= k <= |exponents|
        invariant forall i: bv8 :: i < 128 ==> (Coefficient(x, i) <==> i in exponents[..k])
      {
        var e := exponents[k];
        assert e in exponents;
        IndexIsPowX(e, 127 - e);
        forall i: bv8 | i < 128
          ensures Coefficient(Or(x, PowX(e)), i) <==> Coefficient(x, i) || i == e
        {
          SetCoefficient(x, e, i);
        }
        assert exponents[..k + 1] == exponents[..k] + [e];
        hide Coefficient;
        x := Or(x, FromIndex(127 - e));
        k := k + 1;
      }
      assert exponents[..k] == exponents;
      p := new Polynomial(x);
    }

    method ToExponents() returns (exponents: seq<bv8>)
      ensures Lists(exponents, bits) && Increasing(exponents)
    {
      hide *;
      ListsNone(bits);
      exponents := [];
      var e: bv8 := 0;
      while e < 128
        invariant e <= 128 && ListsBelow(exponents, bits, e)
        decreases 128 - e
      {
        TestIsCoefficient(bits, e);
        ListsNext(exponents, bits, e);
        if Test(bits, 127 - e) {
          exponents := exponents + [e];
        }
        e := e + 1;
      }
      ListsAll(exponents, bits);
    }
  }

  // The result contract of ToExponents, and that of FromExponents.
  ghost predicate Lists(exponents: seq<bv8>, x: bv128) {
    forall i: bv8 :: i in exponents <==> i < 128 && Coefficient(x, i)
  }

  // Listing the exponents of x and reading the list back gives x.
  lemma ExponentsThenElement(x: bv128, y: bv128, exponents: seq<bv8>)
    requires Lists(exponents, x)
    requires forall i: bv8 :: i < 128 ==> (Coefficient(y, i) <==> i in exponents)
    ensures x == y
  {
    hide Coefficient;
    SameCoefficients(x, y);
  }

  // Reading a list and listing the exponents sorts it and drops repetitions:
  // a strictly increasing list comes back unchanged.
  lemma ElementThenExponents(exponents: seq<bv8>, x: bv128, again: seq<bv8>)
    requires forall e :: e in exponents ==> e < 128
    requires forall i: bv8 :: i < 128 ==> (Coefficient(x, i) <==> i in exponents)
    requires Lists(again, x) && Increasing(again)
    ensures SameElements(exponents, again)
    ensures Increasing(exponents) ==> again == exponents
  {
    hide Coefficient, Increasing;
    assert SameElements(exponents, again);
    if Increasing(exponents) {
      IncreasingUnique(exponents, again);
    }
  }
}
