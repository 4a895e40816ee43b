// GCM::CantorZassenhaus::Polynomial: a vector of coefficients over a field,
// lowest degree first, updated in place. Arguments the program passes by
// value or by const reference are coefficient sequences here.
module CzPolynomial {
  import opened Fields
  import opened PolynomialRing
  import opened PolynomialDivision
  import opened PolynomialPowers
  import opened CoefficientVectors
  import Sse

  // ----- The loops' single steps -----

  // The product row i gains a[i] * b[j] at position i + j.
  lemma TimesInner<E(!new)>(K: Field<E>, done: seq<E>, out: seq<E>, x: E, i: nat, b: seq<E>, j: nat)
    requires IsField(K) && Normal(K, done) && j < |b| && i + j < |out|
    requires Norm(K, out) == Add(K, done, Mul(K, Monomial(K, x, i), Norm(K, b[..j])))
    ensures Norm(K, out[i + j := K.add(out[i + j], K.mul(x, b[j]))])
            == Add(K, done, Mul(K, Monomial(K, x, i), Norm(K, b[..j + 1])))
  {
    hide Mul, Add, Monomial, Norm;
    var t := Monomial(K, x, i);
    assert b[..j + 1] == b[..j] + [b[j]];
    NormSnoc(K, b[..j], b[j]);
    assert |b[..j]| == j;
    NormBump(K, out, i + j, K.mul(x, b[j]));
    MonomialMul(K, x, i, b[j], j);
    MulAddRight(K, t, Norm(K, b[..j]), Monomial(K, b[j], j));
    AddAssoc(K, done, Mul(K, t, Norm(K, b[..j])), Mul(K, t, Monomial(K, b[j], j)));
  }

  lemma TimesRow<E(!new)>(K: Field<E>, a: seq<E>, i: nat, b: seq<E>)
    requires IsField(K) && i < |a| && Normal(K, b)
    ensures Add(K, Mul(K, Norm(K, a[..i]), b), Mul(K, Monomial(K, a[i], i), b)) == Mul(K, Norm(K, a[..i + 1]), b)
  {
    hide Mul, Add, Monomial, Norm;
    assert a[..i + 1] == a[..i] + [a[i]];
    NormSnoc(K, a[..i], a[i]);
    assert |a[..i]| == i;
    MulAddLeft(K, Norm(K, a[..i]), Monomial(K, a[i], i), b);
  }

  // ----- One round of long division -----

  // Cancelling r's top coefficient shortens it, also when that coefficient is
  // a leading zero and nothing is subtracted.
  lemma DivisionShortens<E(!new)>(K: Field<E>, r: seq<E>, b: seq<E>)
    requires IsField(K) && Normal(K, b) && b != [] && |r| >= |b|
    ensures |Add(K, Norm(K, r), Mul(K, LeadQuotient(K, r, b), b))| < |r|
  {
    if Lead(r) == K.zero {
      MulZero(K, K.inv(Lead(b)));
      MonomialZero(K, |r| - |b|);
      AddComm(K, Norm(K, r), []);
      NormDropsZero(K, r);
    } else {
      NormNormal(K, r);
      LeadQuotientCancels(K, r, b);
    }
  }

  lemma {:induction false} MonomialZero<E(!new)>(K: Field<E>, k: nat)
    ensures Monomial(K, K.zero, k) == []
  {
    if k > 0 {
      MonomialZero(K, k - 1);
    }
  }

  lemma QuotientDigit<E(!new)>(K: Field<E>, q: seq<E>, k: nat, c: E)
    requires IsField(K) && k < |q| && q[k] == K.zero
    ensures Norm(K, q[k := c]) == Add(K, Norm(K, q), Monomial(K, c, k))
  {
    Laws(K, K.zero, c, c);
    Laws(K, c, K.zero, c);
    NormBump(K, q, k, c);
  }

  // Moving t * b from the remainder to the quotient changes nothing.
  lemma DivisionBalance<E(!new)>(K: Field<E>, q: seq<E>, t: seq<E>, b: seq<E>, r: seq<E>)
    requires IsField(K) && Normal(K, q) && Normal(K, t) && Normal(K, b) && Normal(K, r)
    ensures Add(K, Mul(K, Add(K, q, t), b), Add(K, r, Mul(K, t, b))) == Add(K, Mul(K, q, b), r)
  {
    hide Mul, Add, Normal;
    var m, n := Mul(K, q, b), Mul(K, t, b);
    MulAddLeft(K, q, t, b);
    AddCrossPoly(K, m, n, r, n);
    AddSelf(K, n);
    AddComm(K, Add(K, m, r), []);
    AddEmpty(K, Add(K, m, r));
  }

  lemma AddEmpty<E(!new)>(K: Field<E>, p: seq<E>)
    ensures Add(K, [], p) == p == Add(K, p, [])
  {
  }

  lemma MulEmptyLeft<E(!new)>(K: Field<E>, p: seq<E>)
    ensures Mul(K, [], p) == []
  {
  }

  ghost predicate Balanced<E(!new)>(K: Field<E>, a: seq<E>, b: seq<E>, q: seq<E>, r: seq<E>) {
    Add(K, Mul(K, Norm(K, q), b), Norm(K, r)) == a
  }

  // The quotient digits still to be found are zero.
  ghost predicate Undecided<E(!new)>(K: Field<E>, q: seq<E>, digits: int) {
    forall i :: 0 <= i < |q| && i < digits ==> q[i] == K.zero
  }

  lemma DivisionStart<E(!new)>(K: Field<E>, a: seq<E>, b: seq<E>, n: nat)
    requires IsField(K) && Normal(K, b) && b != []
    ensures |ZeroVector(K, n)| == n && Balanced(K, Norm(K, a), b, ZeroVector(K, n), a)
    ensures Undecided(K, ZeroVector(K, n), |a| - |b| + 1)
  {
    NormZeros(K, n);
    MulEmptyLeft(K, b);
  }

  lemma DivisionRound<E(!new)>(K: Field<E>, a: seq<E>, b: seq<E>, q: seq<E>, r: seq<E>, c: E)
    requires IsField(K) && Normal(K, b) && b != [] && |b| <= |r| && |r| - |b| < |q|
    requires Balanced(K, a, b, q, r) && Undecided(K, q, |r| - |b| + 1) && c == K.mul(r[|r| - 1], K.inv(b[|b| - 1]))
    ensures var k := |r| - |b|;
            var r' := Add(K, Norm(K, r), Norm(K, Mul(K, Norm(K, ZeroVector(K, k) + [c]), Norm(K, b))));
            |r'| < |r| && Balanced(K, a, b, q[k := c], r') && Undecided(K, q[k := c], |r'| - |b| + 1)
  {
    hide Mul, Add, Monomial, Norm, Normal;
    var k := |r| - |b|;
    var t := LeadQuotient(K, r, b);
    assert t == Monomial(K, c, k);
    NormShifted(K, c, k);
    NormNormal(K, b);
    NormNormal(K, Mul(K, t, b));
    NormNormal(K, Add(K, Norm(K, r), Mul(K, t, b)));
    QuotientDigit(K, q, k, c);
    DivisionShortens(K, r, b);
    DivisionBalance(K, Norm(K, q), t, b, Norm(K, r));
  }

  lemma DivisionEnd<E(!new)>(K: Field<E>, a: seq<E>, b: seq<E>, q: seq<E>, r: seq<E>)
    requires IsField(K) && Normal(K, a) && Normal(K, b) && b != [] && Balanced(K, a, b, q, r) && |r| < |b|
    ensures DivMod(K, a, b) == (Norm(K, q), Norm(K, r))
    ensures Add(K, Norm(K, Mul(K, Norm(K, q), Norm(K, b))), Norm(K, r)) == a
  {
    hide Mul, Add, Norm, DivMod;
    NormNormal(K, b);
    NormNormal(K, Mul(K, Norm(K, q), b));
    DivModUnique(K, a, b, Norm(K, q), Norm(K, r));
  }

  // ----- Every divisor -----

  // What becomes of a division: it returns, its assertion fails, it reads
  // behind the end of an empty divisor, or it goes on for ever.
  datatype Division = Divided | AssertionFails | Throws | Loops

  ghost function DivisionOutcome<E(!new)>(K: Field<E>, a: seq<E>, b: seq<E>): Division {
    if b == [] then
      if a == [] then Divided else Throws
    else if |a| < |b| || (Normal(K, a) && Normal(K, b)) then Divided
    else if Lead(b) == K.zero && |Norm(K, a)| >= |b| then Loops
    else AssertionFails
  }

  // One input for each way of not returning, over every field.
  lemma DivisionExamples<E(!new)>(K: Field<E>)
    requires IsField(K)
    ensures DivisionOutcome(K, [K.zero], [K.one]) == AssertionFails
    ensures DivisionOutcome(K, [K.one], [K.zero]) == Loops
    ensures DivisionOutcome(K, [K.one], []) == Throws
  {
    NormNormal(K, [K.one]);
  }

  lemma RemIs<E(!new)>(K: Field<E>, a: seq<E>, b: seq<E>)
    requires IsField(K) && Normal(K, a) && Normal(K, b) && b != []
    ensures DivMod(K, a, b).1 == Rem(K, a, b)
  {
  }

  // For a divisor in normal form only leading zeros of the dividend matter.
  lemma NormalDivisor<E(!new)>(K: Field<E>, a: seq<E>, b: seq<E>)
    requires Normal(K, b) && b != []
    ensures DivisionOutcome(K, a, b) == if Normal(K, a) || |a| < |b| then Divided else AssertionFails
  {
  }

  // The state of the division of a by b. For a divisor with a leading zero
  // the quotient stays zero and the remainder only loses its leading zeros.
  ghost predicate Dividing<E(!new)>(K: Field<E>, a: seq<E>, b: seq<E>, q: seq<E>, r: seq<E>) {
    && |r| <= |a|
    && (a != [] && b != [] ==> |q| == |a| - |b| + 1)
    && if b == [] then r == a && Norm(K, q) == []
       else if Lead(b) == K.zero then (r == a || r == Norm(K, a)) && q == ZeroVector(K, |q|)
       else Balanced(K, Norm(K, a), b, q, r) && Undecided(K, q, |r| - |b| + 1)
  }

  lemma Unfinished<E(!new)>(K: Field<E>, a: seq<E>, b: seq<E>, q: seq<E>, r: seq<E>)
    requires Dividing(K, a, b, q, r) && r != []
    ensures b == [] ==> a != [] && DivisionOutcome(K, a, b) == Throws
    ensures DivisionOutcome(K, a, b) == Loops ==> a != [] && b != [] && |b| <= |a| && !Normal(K, b)
  {
  }

  lemma DividingStart<E(!new)>(K: Field<E>, a: seq<E>, b: seq<E>, n: nat)
    requires IsField(K) && (a != [] && b != [] ==> n == |a| - |b| + 1)
    ensures Dividing(K, a, b, ZeroVector(K, n), a)
  {
    hide Mul, Add, Norm, Balanced, Undecided;
    NormZeros(K, n);
    if b != [] && Lead(b) != K.zero {
      DivisionStart(K, a, b, n);
    }
  }

  lemma {:induction false} NormLength<E(!new)>(K: Field<E>, p: seq<E>)
    ensures |Norm(K, p)| == |p| ==> Norm(K, p) == p
  {
    if p != [] {
      NormLength(K, p[1..]);
    }
  }

  lemma ShortDivision<E(!new)>(K: Field<E>, a: seq<E>, b: seq<E>)
    requires IsField(K) && |a| < |b|
    ensures DivisionOutcome(K, a, b) == Divided
    ensures Normal(K, a) && Normal(K, b) ==> DivMod(K, Norm(K, a), b) == ([], a)
  {
    if Normal(K, a) {
      NormNormal(K, a);
    }
  }

  lemma ZeroRound<E(!new)>(K: Field<E>, b: seq<E>, r: seq<E>, c: E)
    requires IsField(K) && b != [] && |b| <= |r| && Lead(b) == K.zero && c == K.mul(Lead(r), K.inv(Lead(b)))
    ensures c == K.zero
    ensures var factor := ZeroVector(K, |r| - |b|) + [c];
            Add(K, Norm(K, r), Norm(K, Mul(K, Norm(K, factor), Norm(K, b)))) == Norm(K, r)
  {
    hide Mul, Add, Norm;
    MulZero(K, Lead(r));
    NormShifted(K, c, |r| - |b|);
    MonomialZero(K, |r| - |b|);
    MulEmptyLeft(K, Norm(K, b));
    NormZeros(K, 0);
    AddEmpty(K, Norm(K, r));
  }

  // A round shortens the remainder, or leaves everything as it is.
  lemma DividingRound<E(!new)>(K: Field<E>, a: seq<E>, b: seq<E>, q: seq<E>, r: seq<E>, c: E)
    requires IsField(K) && b != [] && Dividing(K, a, b, q, r) && |b| <= |r|
    requires c == K.mul(r[|r| - 1], K.inv(b[|b| - 1]))
    ensures var k := |r| - |b|;
            && k < |q|
            && var r' := Add(K, Norm(K, r), Norm(K, Mul(K, Norm(K, ZeroVector(K, k) + [c]), Norm(K, b))));
            && Dividing(K, a, b, q[k := c], r')
            && (r' == r ==> DivisionOutcome(K, a, b) == Loops)
            && (r' != r ==> |r'| < |r|)
  {
    hide Mul, Add, Norm, Balanced, Undecided, ZeroVector;
    if Lead(b) == K.zero {
      ZeroRound(K, b, r, c);
      NormNormal(K, Norm(K, a));
      NormLength(K, r);
      ZeroVectorSame(K, |q|, |r| - |b|);
    } else {
      DivisionRound(K, Norm(K, a), b, q, r, c);
    }
  }

  lemma ZeroVectorSame<E(!new)>(K: Field<E>, n: nat, k: nat)
    requires k < n
    ensures |ZeroVector(K, n)| == n && ZeroVector(K, n)[k := K.zero] == ZeroVector(K, n)
  {
  }

  // The program compares vectors in the end: they agree exactly for a
  // dividend without leading zeros.
  lemma DividingEnd<E(!new)>(K: Field<E>, a: seq<E>, b: seq<E>, q: seq<E>, r: seq<E>)
    requires IsField(K) && Dividing(K, a, b, q, r) && (r == [] || |r| < |b|) && (a == [] || |b| <= |a|)
    ensures var check := Add(K, Norm(K, Mul(K, Norm(K, q), Norm(K, b))), Norm(K, r));
            DivisionOutcome(K, a, b) == if check == a then Divided else AssertionFails
    ensures Normal(K, b) && b != [] ==> DivMod(K, Norm(K, a), b) == (Norm(K, q), Norm(K, r))
    ensures a == [] ==> Norm(K, q) == [] && Norm(K, r) == []
  {
    hide Mul, Add, Balanced, Undecided, ZeroVector;
    NormNormal(K, Norm(K, a));
    if Normal(K, a) {
      NormNormal(K, a);
    }
    if b != [] && Lead(b) != K.zero {
      DivisionEnd(K, Norm(K, a), b, q, r);
    } else {
      NormZeros(K, |q|);
      MulEmptyLeft(K, Norm(K, b));
      AddEmpty(K, Norm(K, r));
    }
  }

  // ----- One round of square and multiply -----

  // What is still owed: out * base^e is the target modulo mod.
  ghost predicate Pending<E(!new)>(K: Field<E>, out: seq<E>, base: seq<E>, e: bv128, target: seq<E>, mod: seq<E>) {
    Normal(K, out) && Congruent(K, Mul(K, out, Power(K, Norm(K, base), Sse.Val(e))), target, mod)
  }

  lemma PowStart<E(!new)>(K: Field<E>, base: seq<E>, e: bv128, mod: seq<E>)
    requires IsField(K) && Normal(K, mod)
    ensures [K.one] == One(K) && Pending(K, [K.one], base, e, Power(K, Norm(K, base), Sse.Val(e)), mod)
  {
    hide Mul, Norm, Power, Congruent;
    var target := Power(K, Norm(K, base), Sse.Val(e));
    MulOne(K, target);
    CongruentBasics(K, target, mod);
  }

  lemma PowRound<E(!new)>(K: Field<E>, out: seq<E>, base: seq<E>, e: bv128, target: seq<E>, mod: seq<E>)
    requires IsField(K) && Normal(K, mod) && mod != [] && Normal(K, target) && Pending(K, out, base, e, target, mod)
    ensures Normal(K, out) && Norm(K, out) == out
    ensures var out' := if e & 1 != 0 then Mul(K, out, Norm(K, base)) else out;
            var base' := Mul(K, Norm(K, base), Norm(K, base));
            && Normal(K, out') && Normal(K, base')
            && Pending(K, Rem(K, out', mod), Rem(K, base', mod), e >> 1, target, mod)
  {
    hide Mul, Norm, Power, Congruent, Rem, Sse.Val, Normal;
    NormNormal(K, out);
    var b := Norm(K, base);
    var out' := if e & 1 != 0 then Mul(K, out, b) else out;
    var base' := Rem(K, Mul(K, b, b), mod);
    NormNormal(K, base');
    Sse.ValParts(e);
    SquareStep(K, out, b, e & 1 != 0, Sse.Val(e >> 1), mod);
    var next := Mul(K, Rem(K, out', mod), Power(K, base', Sse.Val(e >> 1)));
    CongruentTransitive(K, next, Mul(K, out, Power(K, b, Sse.Val(e))), target, mod);
  }

  lemma PowEnd<E(!new)>(K: Field<E>, out: seq<E>, base: seq<E>, target: seq<E>, mod: seq<E>)
    requires IsField(K) && Normal(K, mod) && mod != [] && Normal(K, target) && Pending(K, out, base, 0, target, mod)
    ensures |out| < |mod| ==> out == Rem(K, target, mod)
  {
    hide Mul, Norm, Congruent, Rem;
    MulOne(K, out);
    if |out| < |mod| {
      ReducedIsRem(K, out, target, mod);
    }
  }

  class Polynomial<E(==,!new)> {
    const K: Field<E>
    var coeffs: seq<E>

    constructor (K: Field<E>, coeffs: seq<E>)
      ensures this.K == K && this.coeffs == coeffs
    {
      this.K := K;
      this.coeffs := coeffs;
    }

    // Both constants and the zero polynomial have degree 0.
    function Degree(): (d: nat)
      reads this
      ensures coeffs == [] ==> d == 0
      ensures coeffs != [] ==> d + 1 == |coeffs|
    {
      if |coeffs| == 0 then 0 else |coeffs| - 1
    }

    method EnsureNormalized()
      modifies this
      ensures coeffs == Norm(K, old(coeffs))
    {
      while |coeffs| > 0 && coeffs[|coeffs| - 1] == K.zero
        invariant Norm(K, coeffs) == Norm(K, old(coeffs))
      {
        NormDropsZero(K, coeffs);
        coeffs := coeffs[..|coeffs| - 1];
      }
      NormNormal(K, coeffs);
    }

    method AddAssign(summand: seq<E>)
      requires IsField(K)
      modifies this
      ensures coeffs == Add(K, Norm(K, old(coeffs)), Norm(K, summand))
    {
      hide Add, Norm, IsField, Normal;
      var rhs := summand;
      NormPadded(K, coeffs, |rhs|);
      if |coeffs| < |rhs| {
        NormPadded(K, coeffs, |rhs| - |coeffs|);
        coeffs := coeffs + ZeroVector(K, |rhs| - |coeffs|);
      } else if |rhs| < |coeffs| {
        NormPadded(K, rhs, |coeffs| - |rhs|);
        rhs := rhs + ZeroVector(K, |coeffs| - |rhs|);
      }
      assert |rhs| == |coeffs|;
      ghost var before := coeffs;
      var i := 0;
      while i < |rhs|
        invariant 0 <= i <= |rhs| == |coeffs|
        invariant forall k :: 0 <= k < i ==> coeffs[k] == K.add(before[k], rhs[k])
        invariant forall k :: i <= k < |rhs| ==> coeffs[k] == before[k]
      {
        coeffs := coeffs[i := K.add(coeffs[i], rhs[i])];
        i := i + 1;
      }
      NormOfSums(K, before, rhs, coeffs);
      EnsureNormalized();
    }

    method SubAssign(rhs: seq<E>)
      requires IsField(K)
      modifies this
      ensures coeffs == Add(K, Norm(K, old(coeffs)), Norm(K, rhs))
    {
      AddAssign(rhs);
    }

    method Times(rhs: seq<E>) returns (out: Polynomial<E>)
      requires IsField(K)
      ensures fresh(out) && out.K == K
      ensures out.coeffs == Mul(K, Norm(K, coeffs), Norm(K, rhs))
    {
      var rhsDegree := if |rhs| == 0 then 0 else |rhs| - 1;
      out := new Polynomial(K, ZeroVector(K, Degree() + rhsDegree + 1));
      NormZeros(K, |out.coeffs|);
      var i := 0;
      while i < |coeffs|
        invariant 0 <= i <= |coeffs|
        invariant fresh(out) && out.K == K && |out.coeffs| == Degree() + rhsDegree + 1
        invariant Norm(K, out.coeffs) == Mul(K, Norm(K, coeffs[..i]), Norm(K, rhs))
      {
        ghost var done := Mul(K, Norm(K, coeffs[..i]), Norm(K, rhs));
        MulEmpty(K, Monomial(K, coeffs[i], i));
        AddComm(K, done, []);
        var j := 0;
        while j < |rhs|
          invariant 0 <= j <= |rhs|
          invariant fresh(out) && out.K == K && |out.coeffs| == Degree() + rhsDegree + 1
          invariant Norm(K, out.coeffs) == Add(K, done, Mul(K, Monomial(K, coeffs[i], i), Norm(K, rhs[..j])))
        {
          TimesInner(K, done, out.coeffs, coeffs[i], i, rhs, j);
          out.coeffs := out.coeffs[i + j := K.add(out.coeffs[i + j], K.mul(coeffs[i], rhs[j]))];
          j := j + 1;
        }
        assert rhs[..j] == rhs;
        TimesRow(K, coeffs, i, Norm(K, rhs));
        i := i + 1;
      }
      assert coeffs[..i] == coeffs;
      out.EnsureNormalized();
      NormNormal(K, Mul(K, Norm(K, coeffs), Norm(K, rhs)));
    }

    method TimesAssign(rhs: seq<E>)
      requires IsField(K)
      modifies this
      ensures coeffs == Mul(K, Norm(K, old(coeffs)), Norm(K, rhs))
    {
      var product := Times(rhs);
      coeffs := product.coeffs;
    }

    method Equals(rhs: seq<E>) returns (equal: bool)
      ensures equal <==> coeffs == rhs
    {
      if |coeffs| != |rhs| {
        return false;
      }
      var i := 0;
      while i < |coeffs|
        invariant 0 <= i <= |coeffs| == |rhs|
        invariant forall k :: 0 <= k < i ==> coeffs[k] == rhs[k]
      {
        if coeffs[i] != rhs[i] {
          return false;
        }
        i := i + 1;
      }
      return true;
    }

    method ShiftLeft(amount: nat)
      modifies this
      ensures coeffs == ZeroVector(K, amount) + old(coeffs)
    {
      var i := 0;
      while i < amount
        invariant 0 <= i <= amount
        invariant coeffs == ZeroVector(K, i) + old(coeffs)
      {
        coeffs := [K.zero] + coeffs;
        i := i + 1;
      }
    }

    // Every coefficient, the last one included, is divided by what is then
    // the last coefficient; the last one is overwritten last.
    method EnsureMonic()
      requires IsField(K)
      modifies this
      ensures coeffs == Monic(K, Norm(K, old(coeffs)))
    {
      EnsureNormalized();
      ghost var p := coeffs;
      var i := 0;
      while i < |coeffs|
        invariant 0 <= i <= |coeffs| == |p|
        invariant forall k :: 0 <= k < i ==> coeffs[k] == K.mul(p[k], K.inv(Lead(p)))
        invariant forall k :: i <= k < |p| ==> coeffs[k] == p[k]
      {
        coeffs := coeffs[i := K.mul(coeffs[i], K.inv(coeffs[|coeffs| - 1]))];
        i := i + 1;
      }
      if p != [] {
        var c := K.inv(Lead(p));
        InverseNonZero(K, Lead(p));
        forall k | 0 <= k < |p| ensures coeffs[k] == K.mul(c, p[k]) { Laws(K, p[k], c, c); }
        ScaleAt(K, c, p, coeffs);
      }
    }

    // Every divisor, also the empty one and those with a leading zero. The
    // assertion that quotient and remainder give the dividend back compares
    // coefficient vectors. Where a round changes nothing the program repeats
    // it for ever; the model returns instead.
    method DivMod(divisor: seq<E>) returns (outcome: Division, q: Polynomial<E>, r: Polynomial<E>)
      requires IsField(K)
      ensures fresh(q) && fresh(r) && q != r && q.K == r.K == K
      ensures outcome == DivisionOutcome(K, coeffs, divisor)
      ensures Normal(K, divisor) && divisor != [] && (Normal(K, coeffs) || |coeffs| >= |divisor|) ==>
        (q.coeffs, r.coeffs) == PolynomialDivision.DivMod(K, Norm(K, coeffs), divisor)
      ensures |coeffs| < |divisor| || coeffs == [] ==> q.coeffs == [] && r.coeffs == coeffs
    {
      hide *;
      var divisorDegree := if |divisor| == 0 then 0 else |divisor| - 1;
      if Degree() < divisorDegree {
        ShortDivision(K, coeffs, divisor);
        q := new Polynomial(K, []);
        r := new Polynomial(K, coeffs);
        return Divided, q, r;
      }
      var width := Degree() - divisorDegree + 1;
      DividingStart(K, coeffs, divisor, width);
      q := new Polynomial(K, ZeroVector(K, width));
      r := new Polynomial(K, coeffs);
      while r.Degree() >= divisorDegree && r.coeffs != []
        invariant fresh(q) && fresh(r) && q != r && q.K == r.K == K
        invariant Dividing(K, coeffs, divisor, q.coeffs, r.coeffs)
        decreases |r.coeffs|
      {
        var degree := r.Degree() - divisorDegree;
        Unfinished(K, coeffs, divisor, q.coeffs, r.coeffs);
        if |divisor| == 0 {
          return Throws, q, r;
        }
        var before := r.coeffs;
        var c := K.mul(r.coeffs[r.Degree()], K.inv(divisor[|divisor| - 1]));
        DividingRound(K, coeffs, divisor, q.coeffs, r.coeffs, c);
        q.coeffs := q.coeffs[degree := c];
        var factor := new Polynomial(K, [c]);
        factor.ShiftLeft(degree);
        var product := factor.Times(divisor);
        r.SubAssign(product.coeffs);
        if r.coeffs == before {
          return Loops, q, r;
        }
      }
      DividingEnd(K, coeffs, divisor, q.coeffs, r.coeffs);
      var check := q.Times(divisor);
      check.AddAssign(r.coeffs);
      var same := check.Equals(coeffs);
      q.EnsureNormalized();
      r.EnsureNormalized();
      outcome := if same then Divided else AssertionFails;
    }

    method RemAssign(mod: seq<E>) returns (outcome: Division)
      requires IsField(K)
      modifies this
      ensures outcome == DivisionOutcome(K, old(coeffs), mod)
      ensures Normal(K, old(coeffs)) && Normal(K, mod) && mod != [] ==>
        outcome == Divided && coeffs == Rem(K, old(coeffs), mod)
      ensures outcome != Divided || |old(coeffs)| < |mod| || old(coeffs) == [] ==> coeffs == old(coeffs)
    {
      hide *;
      if Normal(K, coeffs) && Normal(K, mod) && mod != [] {
        NormNormal(K, coeffs);
        NormalDivisor(K, coeffs, mod);
        RemIs(K, coeffs, mod);
      }
      var q, r;
      outcome, q, r := DivMod(mod);
      if outcome == Divided {
        coeffs := r.coeffs;
      }
    }

    // Square and multiply over the 128-bit exponent, reducing as it goes. At
    // most 128 rounds; no division fails its assertion, even when the base has
    // leading zeros.
    method Pow(exponent: bv128, mod: seq<E>) returns (out: Polynomial<E>)
      requires IsField(K) && Normal(K, mod) && mod != []
      ensures fresh(out) && out.K == K
      ensures exponent == 0 ==> out.coeffs == One(K)
      ensures exponent != 0 ==> out.coeffs == Rem(K, Power(K, Norm(K, coeffs), Sse.Val(exponent)), mod)
    {
      hide *;
      ghost var target := Power(K, Norm(K, coeffs), Sse.Val(exponent));
      PowStart(K, coeffs, exponent, mod);
      out := new Polynomial(K, [K.one]);
      var base := new Polynomial(K, coeffs);
      var e := exponent;
      ghost var rounds := 0;
      Sse.WidthBound(exponent);
      while e != 0
        invariant fresh(out) && fresh(base) && out != base && out.K == base.K == K
        invariant rounds + Sse.Width(e) == Sse.Width(exponent)
        invariant rounds == 0 ==> e == exponent && out.coeffs == One(K)
        invariant rounds > 0 ==> exponent != 0 && |out.coeffs| < |mod|
        invariant Pending(K, out.coeffs, base.coeffs, e, target, mod)
        decreases 128 - rounds
      {
        PowRound(K, out.coeffs, base.coeffs, e, target, mod);
        if e & 1 != 0 {
          out.TimesAssign(base.coeffs);
        }
        Sse.NextExponentIsShift(e);
        Sse.WidthStep(e);
        e := Sse.NextExponent(e);
        base.TimesAssign(base.coeffs);
        var outcome := base.RemAssign(mod);
        assert outcome == Divided;
        outcome := out.RemAssign(mod);
        assert outcome == Divided;
        rounds := rounds + 1;
      }
      PowEnd(K, out.coeffs, base.coeffs, target, mod);
    }
  }
}
