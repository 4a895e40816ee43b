// Root finding by Cantor and Zassenhaus: Euclid's algorithm, one randomised
// splitting attempt and the worklist of factors. Random draws are arguments,
// so whatever is proved holds for every one of them.
module Factorize {
  import opened Fields
  import opened Options
  import opened PolynomialRing
  import opened PolynomialDivision
  import opened PolynomialPowers
  import opened CoefficientVectors
  import opened CzPolynomial
  import Sse

  // (2^128 - 1) / 3
  const THIRD: bv128 := 0x55555555_55555555_55555555_55555555

  // Only the first division of the longer vector by the shorter one can fail
  // to return.
  ghost function GcdOutcome<E(!new)>(K: Field<E>, a: seq<E>, b: seq<E>): Division {
    if a == [] || b == [] then Divided
    else if |a| < |b| then DivisionOutcome(K, b, a)
    else DivisionOutcome(K, a, b)
  }

  // The value of the loop for any two vectors: an empty one leaves the other
  // as it is.
  ghost predicate IsGcd<E(!new)>(K: Field<E>, a: seq<E>, b: seq<E>, g: seq<E>)
    requires IsField(K)
  {
    if a == [] || b == [] then g == a + b
    else Normal(K, a) && Normal(K, b) && g == Gcd(K, a, b)
  }

  lemma GcdSwap<E(!new)>(K: Field<E>, a: seq<E>, b: seq<E>)
    requires IsField(K) && Normal(K, a) && Normal(K, b) && |a| < |b|
    ensures Gcd(K, a, b) == Gcd(K, b, a)
  {
    assert Rem(K, a, b) == a;
  }

  lemma GcdRound<E(!new)>(K: Field<E>, a: seq<E>, b: seq<E>, q: seq<E>, r: seq<E>)
    requires IsField(K) && b != [] && DivisionOutcome(K, a, b) == Divided
    requires Normal(K, b) && |a| >= |b| ==> (q, r) == DivMod(K, Norm(K, a), b)
    requires |a| < |b| ==> r == a
    ensures |r| < |b| && GcdOutcome(K, b, r) == GcdOutcome(K, a, b)
    ensures forall g | IsGcd(K, b, r, g) :: IsGcd(K, a, b, g)
  {
    hide DivMod, Norm;
    if |a| < |b| {
      if Normal(K, a) && Normal(K, b) && a != [] {
        GcdSwap(K, a, b);
      }
    } else {
      NormNormal(K, a);
      assert r == Rem(K, a, b);
    }
  }

  lemma GcdEnds<E(!new)>(K: Field<E>, a: seq<E>)
    requires IsField(K)
    ensures GcdOutcome(K, a, []) == Divided && IsGcd(K, a, [], a)
  {
  }

  lemma GcdStops<E(!new)>(K: Field<E>, a: seq<E>, b: seq<E>)
    requires DivisionOutcome(K, a, b) != Divided && b != []
    ensures GcdOutcome(K, a, b) == DivisionOutcome(K, a, b)
  {
  }

  lemma GcdOfNormal<E(!new)>(K: Field<E>, a: seq<E>, b: seq<E>)
    requires IsField(K) && Normal(K, a) && Normal(K, b)
    ensures GcdOutcome(K, a, b) == Divided
    ensures forall g | IsGcd(K, a, b, g) :: g == Gcd(K, a, b)
  {
    if b != [] && a == [] {
      assert Rem(K, a, b) == [];
    }
  }

  // Any two vectors, also with leading zeros.
  method GreatestCommonDivisor<E(==,!new)>(K: Field<E>, a0: seq<E>, b0: seq<E>) returns (outcome: Division, g: seq<E>)
    requires IsField(K)
    ensures outcome == GcdOutcome(K, a0, b0)
    ensures outcome == Divided ==> IsGcd(K, a0, b0, g)
    ensures Normal(K, a0) && Normal(K, b0) ==> outcome == Divided && g == Gcd(K, a0, b0)
  {
    hide *;
    var a, b := a0, b0;
    while b != []
      invariant GcdOutcome(K, a, b) == GcdOutcome(K, a0, b0)
      invariant forall g | IsGcd(K, a, b, g) :: IsGcd(K, a0, b0, g)
      decreases |b|
    {
      var dividend := new Polynomial(K, a);
      var q, r;
      outcome, q, r := dividend.DivMod(b);
      if outcome != Divided {
        GcdStops(K, a, b);
        if Normal(K, a0) && Normal(K, b0) {
          GcdOfNormal(K, a0, b0);
        }
        return outcome, a;
      }
      GcdRound(K, a, b, q.coeffs, r.coeffs);
      a := b;
      b := r.coeffs;
    }
    GcdEnds(K, a);
    if Normal(K, a0) && Normal(K, b0) {
      GcdOfNormal(K, a0, b0);
    }
    return Divided, a;
  }

  // ----- One splitting attempt -----

  // h^THIRD - 1 modulo f.
  ghost function Residue<E(!new)>(K: Field<E>, f: seq<E>, h: seq<E>): (g: seq<E>)
    requires IsField(K) && Normal(K, f) && f != []
    ensures Normal(K, g)
  {
    Add(K, Rem(K, Power(K, Norm(K, h), Sse.Val(THIRD)), f), One(K))
  }

  // The monic common divisor of p and the residue.
  ghost function CommonPart<E(!new)>(K: Field<E>, f: seq<E>, p: seq<E>, h: seq<E>): (q: seq<E>)
    requires IsField(K) && Normal(K, f) && f != [] && Normal(K, p)
    ensures Normal(K, q)
    ensures q == [] ==> Monic(K, p) == []
  {
    var d := Gcd(K, p, Residue(K, f, h));
    if d != [] then MonicIsMonic(K, d); Monic(K, d) else []
  }

  ghost function Split<E(!new)>(K: Field<E>, f: seq<E>, p: seq<E>, h: seq<E>): Option<(seq<E>, seq<E>)>
    requires IsField(K) && Normal(K, f) && f != [] && Normal(K, p)
  {
    var q := CommonPart(K, f, p, h);
    if q == One(K) || q == Monic(K, p) then None
    else Some((q, DivMod(K, Monic(K, p), q).0))
  }

  lemma CommonPartDivides<E(!new)>(K: Field<E>, f: seq<E>, p: seq<E>, h: seq<E>)
    requires IsField(K) && Normal(K, f) && f != [] && Normal(K, p)
    ensures Divides(K, CommonPart(K, f, p, h), Monic(K, p))
    ensures p != [] ==> IsMonic(K, CommonPart(K, f, p, h))
  {
    hide Divides, Residue, Gcd, Monic;
    var g := Residue(K, f, h);
    var d := Gcd(K, p, g);
    GcdDividesBoth(K, p, g);
    MonicAssociates(K, d); MonicAssociates(K, p);
    DividesTransitive(K, Monic(K, d), d, p);
    DividesTransitive(K, Monic(K, d), p, Monic(K, p));
    if d != [] { MonicIsMonic(K, d); }
  }

  // Whatever was drawn, two factors multiply to monic p, and when p is not
  // zero both are monic and of degree at least 1 and below that of p.
  lemma SplitIsFactorisation<E(!new)>(K: Field<E>, f: seq<E>, p: seq<E>, h: seq<E>)
    requires IsField(K) && Normal(K, f) && f != [] && Normal(K, p) && Split(K, f, p, h).Some?
    ensures var (k1, k2) := Split(K, f, p, h).value;
            && Normal(K, k1) && Normal(K, k2) && Mul(K, k1, k2) == Monic(K, p)
            && DivMod(K, Monic(K, p), k1) == (k2, [])
            && (p != [] ==> IsMonic(K, k1) && IsMonic(K, k2) && 2 <= |k1| < |p| && 2 <= |k2| < |p|)
  {
    hide Mul, Divides, CommonPart, DivMod, Monic;
    var q := CommonPart(K, f, p, h);
    var m := Monic(K, p);
    CommonPartDivides(K, f, p, h);
    RemIsEmptyIffDivides(K, m, q);
    var (k, r) := DivMod(K, m, q);
    assert r == Rem(K, m, q);
    AddEmpty(K, Mul(K, k, q));
    MulComm(K, k, q);
    if p != [] {
      MonicIsMonic(K, p);
      if |q| == |p| { MonicAntisymmetric(K, q, m); }
      MulIsEmptyIff(K, k, q);
      MulLead(K, k, q);
      Laws(K, Lead(k), K.one, K.one);
    }
  }

  // h stands for the random polynomial, one coefficient for each degree below
  // that of f; it may have leading zeros. The two assertions cannot fail.
  method CantorZassenhaus<E(==,!new)>(K: Field<E>, f: seq<E>, p0: seq<E>, h: seq<E>) returns (factors: seq<seq<E>>)
    requires IsField(K) && Normal(K, f) && |f| >= 2 && Normal(K, p0) && |h| == |f| - 1
    ensures factors == match Split(K, f, p0, h) case None => [] case Some(ks) => [ks.0, ks.1]
  {
    hide *;
    SplitUnfolds(K, f, p0, h);
    var random := new Polynomial(K, h);
    var g := random.Pow(THIRD, f);
    g.SubAssign([K.one]);
    var outcome, d := GreatestCommonDivisor(K, p0, g.coeffs);
    assert outcome == Divided;
    var q := new Polynomial(K, d);
    q.EnsureMonic();
    var p := new Polynomial(K, p0);
    p.EnsureMonic();
    var one := q.Equals([K.one]);
    var all := q.Equals(p.coeffs);
    if !one && !all {
      SplitIsFactorisation(K, f, p0, h);
      var k1 := q;
      var k2, remainder;
      outcome, k2, remainder := p.DivMod(q.coeffs);
      assert outcome == Divided;
      k2.EnsureMonic();
      var exact := remainder.Equals([]);
      assert exact;
      var product := k1.Times(k2.coeffs);
      exact := product.Equals(p.coeffs);
      assert exact;
      return [k1.coeffs, k2.coeffs];
    }
    return [];
  }

  // The steps of one attempt, on normal forms.
  lemma SplitUnfolds<E(!new)>(K: Field<E>, f: seq<E>, p: seq<E>, h: seq<E>)
    requires IsField(K) && Normal(K, f) && f != [] && Normal(K, p)
    ensures THIRD != 0 && One(K) == [K.one]
    ensures var r := Rem(K, Power(K, Norm(K, h), Sse.Val(THIRD)), f);
            var g := Add(K, Norm(K, r), Norm(K, [K.one]));
            && Normal(K, g) && Norm(K, p) == p
            && CommonPart(K, f, p, h) == Monic(K, Norm(K, Gcd(K, p, g)))
    ensures var q, m := CommonPart(K, f, p, h), Monic(K, p);
            && Normal(K, q) && Normal(K, m) && Norm(K, q) == q && Norm(K, m) == m
            && (q == [] ==> m == []) && (q != [] ==> DivisionOutcome(K, m, q) == Divided)
            && (Split(K, f, p, h).None? <==> q == One(K) || q == m)
            && (Split(K, f, p, h).Some? ==> Split(K, f, p, h).value.0 == q)
    ensures match Split(K, f, p, h)
            case None => true
            case Some(ks) => Norm(K, ks.1) == ks.1 && Monic(K, ks.1) == ks.1
  {
    hide Divides, Rem, Gcd, Power, Mul, Add;
    var r := Rem(K, Power(K, Norm(K, h), Sse.Val(THIRD)), f);
    NormNormal(K, r); NormNormal(K, One(K)); NormNormal(K, p); NormNormal(K, Monic(K, p));
    var g := Add(K, r, One(K));
    NormNormal(K, Gcd(K, p, g));
    NormNormal(K, CommonPart(K, f, p, h));
    if Split(K, f, p, h).Some? {
      SplitIsFactorisation(K, f, p, h);
      var k2 := Split(K, f, p, h).value.1;
      NormNormal(K, k2);
      if k2 != [] { MonicIsMonic(K, k2); }
    }
  }
}
