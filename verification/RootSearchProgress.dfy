// Completeness of the root search: a run that returns exists exactly when the
// polynomial splits into linear factors, because every factor of degree two
// or more that a run can meet is split by some draw.
module RootSearchProgress {
  import opened Fields
  import opened PolynomialRing
  import opened PolynomialDivision
  import opened PolynomialPowers
  import opened CoefficientVectors
  import opened Factorize
  import opened Roots
  import opened RootSearch
  import Sse

  // A draw splits p when its residue shares a divisor l with p but not all
  // of p.
  lemma SplitSucceeds<E(!new)>(K: Field<E>, f: seq<E>, p: seq<E>, h: seq<E>, l: seq<E>, d: seq<E>)
    requires IsField(K) && Normal(K, f) && f != [] && Normal(K, p) && p != [] && Normal(K, l) && Normal(K, d)
    requires |l| >= 2
    requires Divides(K, l, p) && Divides(K, l, Residue(K, f, h))
    requires Divides(K, d, p) && !Divides(K, d, Residue(K, f, h))
    ensures Split(K, f, p, h).Some?
  {
    hide Divides, Residue, Gcd, Monic, DivMod, Mul;
    var g := Residue(K, f, h);
    var c := Gcd(K, p, g);
    var q, m := CommonPart(K, f, p, h), Monic(K, p);
    GcdIsGreatest(K, p, g, l);
    GcdDividesBoth(K, p, g);
    MonicAssociates(K, c); MonicAssociates(K, p);
    assert q == Monic(K, c);
    DividesTransitive(K, l, c, q);
    if q == One(K) {
      DividesLength(K, l, q);
    }
    if q == m {
      DividesTransitive(K, d, p, q);
      DividesTransitive(K, d, q, c);
      DividesTransitive(K, d, c, g);
    }
  }

  // ----- Two distinct roots -----

  lemma EvalRem<E(!new)>(K: Field<E>, a: seq<E>, f: seq<E>, z: E)
    requires IsField(K) && Normal(K, a) && Normal(K, f) && f != [] && Eval(K, f, z) == K.zero
    ensures Eval(K, Rem(K, a, f), z) == Eval(K, a, z)
  {
    hide Mul, Add, DivMod;
    var (q, r) := DivMod(K, a, f);
    assert r == Rem(K, a, f);
    EvalAdd(K, Mul(K, q, f), r, z);
    EvalMul(K, q, f, z);
    MulZero(K, Eval(K, q, z));
    Laws(K, K.zero, Eval(K, r, z), K.zero);
    Laws(K, Eval(K, r, z), K.zero, K.zero);
  }

  lemma ExponentIsOdd()
    ensures Sse.Val(THIRD) == 2 * Sse.Val(THIRD >> 1) + 1
  {
  }

  // At a root of f the residue is h^THIRD - 1.
  lemma ResidueEval<E(!new)>(K: Field<E>, f: seq<E>, h: seq<E>, z: E)
    requires IsField(K) && Normal(K, f) && f != [] && Eval(K, f, z) == K.zero
    ensures Eval(K, Residue(K, f, h), z) == K.add(ElementPower(K, Eval(K, h, z), Sse.Val(THIRD)), K.one)
  {
    hide Mul, Add, Rem, Norm, Power, Eval, ElementPower, Sse.Val;
    var p := Power(K, Norm(K, h), Sse.Val(THIRD));
    EvalNorm(K, h, z);
    EvalPower(K, Norm(K, h), Sse.Val(THIRD), z);
    EvalRem(K, p, f, z);
    EvalAdd(K, Rem(K, p, f), One(K), z);
    EvalConstant(K, K.one, z);
  }

  // A draw whose residue vanishes at one root of p and not at another splits p.
  lemma SeparatedRootsSplit<E(!new)>(K: Field<E>, f: seq<E>, p: seq<E>, h: seq<E>, a: E, b: E)
    requires IsField(K) && Normal(K, f) && f != [] && Normal(K, p) && p != []
    requires Eval(K, p, a) == K.zero == Eval(K, p, b)
    requires Eval(K, Residue(K, f, h), a) == K.zero != Eval(K, Residue(K, f, h), b)
    ensures Split(K, f, p, h).Some?
  {
    hide Split, Residue, Divides, Eval, Linear;
    RootIffFactor(K, p, a); RootIffFactor(K, p, b);
    RootIffFactor(K, Residue(K, f, h), a); RootIffFactor(K, Residue(K, f, h), b);
    LinearBasics(K, a); LinearBasics(K, b);
    LinearParts(K, a);
    SplitSucceeds(K, f, p, h, Linear(K, a), Linear(K, b));
  }

  // (X + b) / (a + b), as a vector of n coefficients: 1 at a and 0 at b.
  ghost function Interpolator<E(!new)>(K: Field<E>, a: E, b: E, n: nat): seq<E>
    requires n >= 2
  {
    var c := K.inv(K.add(a, b));
    [K.mul(c, b), c] + ZeroVector(K, n - 2)
  }

  lemma EvalPadded<E(!new)>(K: Field<E>, c: E, d: E, n: nat, z: E)
    requires IsField(K)
    ensures Eval(K, [c, d] + ZeroVector(K, n), z) == K.add(c, K.mul(z, d))
  {
    hide Norm, ZeroVector;
    NormPadded(K, [c, d], n);
    EvalNorm(K, [c, d], z);
    EvalNorm(K, [c, d] + ZeroVector(K, n), z);
    assert [c, d][1..] == [d];
    EvalConstant(K, d, z);
  }

  lemma InterpolatorEval<E(!new)>(K: Field<E>, a: E, b: E, n: nat)
    requires IsField(K) && a != b && n >= 2
    ensures Eval(K, Interpolator(K, a, b, n), a) == K.one && Eval(K, Interpolator(K, a, b, n), b) == K.zero
  {
    hide Eval;
    var c := K.inv(K.add(a, b));
    AddIsZeroIffEqual(K, a, b);
    InverseNonZero(K, K.add(a, b));
    EvalPadded(K, K.mul(c, b), c, n - 2, a);
    EvalPadded(K, K.mul(c, b), c, n - 2, b);
    Laws(K, a, c, b); Laws(K, b, c, a); Laws(K, c, b, a); Laws(K, b, a, c);
    Laws(K, K.mul(c, b), c, c);
  }

  lemma DistinctRootsSplit<E(!new)>(K: Field<E>, x: seq<E>, p: seq<E>, a: E, b: E)
    requires IsField(K) && Normal(K, x) && Normal(K, p) && |x| >= 3 && p != [] && a != b
    requires Eval(K, x, a) == K.zero == Eval(K, x, b) && Eval(K, p, a) == K.zero == Eval(K, p, b)
    ensures Split(K, x, p, Interpolator(K, a, b, |x| - 1)).Some?
  {
    hide Split, Residue, Eval, Interpolator, ElementPower, Sse.Val;
    var h := Interpolator(K, a, b, |x| - 1);
    InterpolatorEval(K, a, b, |x| - 1);
    ResidueEval(K, x, h, a);
    ResidueEval(K, x, h, b);
    ExponentIsOdd();
    ElementPowerUnits(K, Sse.Val(THIRD));
    Laws(K, K.one, K.one, K.one); Laws(K, K.zero, K.one, K.one); Laws(K, K.one, K.zero, K.one);
    SeparatedRootsSplit(K, x, p, h, a, b);
  }

  // ----- A repeated root -----

  lemma CongruentAdd<E(!new)>(K: Field<E>, a: seq<E>, b: seq<E>, c: seq<E>, m: seq<E>)
    requires IsField(K) && Normal(K, a) && Normal(K, b) && Normal(K, c) && Normal(K, m) && Congruent(K, a, b, m)
    ensures Congruent(K, Add(K, a, c), Add(K, b, c), m)
  {
    hide Add, Divides;
    AddCrossPoly(K, a, c, b, c);
    AddSelf(K, c);
    AddEmptyRight(K, Add(K, a, b));
  }

  lemma AddEmptyRight<E(!new)>(K: Field<E>, p: seq<E>)
    ensures Add(K, p, []) == p
  {
  }

  lemma CongruentWeaken<E(!new)>(K: Field<E>, a: seq<E>, b: seq<E>, m: seq<E>, d: seq<E>)
    requires IsField(K) && Normal(K, a) && Normal(K, b) && Normal(K, m) && Normal(K, d)
    requires Congruent(K, a, b, m) && Divides(K, d, m)
    ensures Congruent(K, a, b, d)
  {
    DividesTransitive(K, d, m, Add(K, a, b));
  }

  lemma OneIsNormal<E(!new)>(K: Field<E>)
    requires IsField(K)
    ensures Normal(K, One(K))
  {
  }

  // (1 + y)^2 == 1 modulo y^2
  lemma SquareOfOnePlus<E(!new)>(K: Field<E>, y: seq<E>)
    requires IsField(K) && Normal(K, y)
    ensures var u := Add(K, One(K), y); Congruent(K, Mul(K, u, u), One(K), Mul(K, y, y))
  {
    hide Mul, Add, Divides, One, Normal;
    OneIsNormal(K);
    var u, yy := Add(K, One(K), y), Mul(K, y, y);
    MulOne(K, u); MulOne(K, y);
    MulAddLeft(K, One(K), y, u);
    MulAddRight(K, y, One(K), y);
    // (1 + y) + (y + y^2) == 1 + y^2
    AddAssoc(K, One(K), y, Add(K, y, yy));
    AddCancel(K, y, yy);
    AddComm(K, One(K), yy);
    AddCancel(K, One(K), yy);
    DividesBasics(K, yy);
  }

  // u u^n is congruent to u v if u^n is to v.
  lemma PowerCongruence<E(!new)>(K: Field<E>, u: seq<E>, n: nat, v: seq<E>, m: seq<E>)
    requires IsField(K) && Normal(K, u) && Normal(K, v) && Normal(K, m) && Congruent(K, Power(K, u, n), v, m)
    ensures Congruent(K, Power(K, u, n + 1), Mul(K, u, v), m)
  {
    hide Mul, Congruent, Normal, Power;
    PowerStep(K, u, n);
    CongruentBasics(K, u, m);
    CongruentMul(K, u, u, Power(K, u, n), v, m);
  }

  lemma {:induction false} PowerOfOnePlus<E(!new)>(K: Field<E>, y: seq<E>, n: nat)
    requires IsField(K) && Normal(K, y)
    ensures Congruent(K, Power(K, Add(K, One(K), y), 2 * n), One(K), Mul(K, y, y))
    ensures Congruent(K, Power(K, Add(K, One(K), y), 2 * n + 1), Add(K, One(K), y), Mul(K, y, y))
  {
    hide *;
    OneIsNormal(K);
    var u, yy := Add(K, One(K), y), Mul(K, y, y);
    MulOne(K, u);
    PowerZero(K, u);
    if n == 0 {
      CongruentBasics(K, One(K), yy);
    } else {
      PowerOfOnePlus(K, y, n - 1);
      PowerCongruence(K, u, 2 * n - 1, u, yy);
      SquareOfOnePlus(K, y);
      CongruentTransitive(K, Power(K, u, 2 * n), Mul(K, u, u), One(K), yy);
    }
    PowerCongruence(K, u, 2 * n, One(K), yy);
  }

  // X + a + 1, as a vector of n coefficients.
  ghost function Shifted<E(!new)>(K: Field<E>, a: E, n: nat): seq<E>
    requires n >= 2
  {
    [K.add(K.one, a), K.one] + ZeroVector(K, n - 2)
  }

  lemma ShiftedNorm<E(!new)>(K: Field<E>, a: E, n: nat)
    requires IsField(K) && n >= 2
    ensures Norm(K, Shifted(K, a, n)) == Add(K, One(K), Linear(K, a))
  {
    var p := [K.add(K.one, a), K.one];
    NormPadded(K, p, n - 2);
    NormNormal(K, p);
    assert Linear(K, a)[1..] == [K.one] && One(K)[1..] == [];
    assert Add(K, One(K)[1..], Linear(K, a)[1..]) == [K.one];
  }

  // Modulo (X + a)^2 the residue of X + a + 1 is X + a.
  lemma ShiftedResidue<E(!new)>(K: Field<E>, x: seq<E>, a: E)
    requires IsField(K) && Normal(K, x) && |x| >= 3
    requires Divides(K, Mul(K, Linear(K, a), Linear(K, a)), x)
    ensures Congruent(K, Residue(K, x, Shifted(K, a, |x| - 1)), Linear(K, a), Mul(K, Linear(K, a), Linear(K, a)))
  {
    hide Mul, Add, Divides, Congruent, Linear, Shifted, Norm, Power, Rem, One, Sse.Val;
    var y := Linear(K, a);
    var yy := Mul(K, y, y);
    var u := Add(K, One(K), y);
    LinearBasics(K, a);
    MulOne(K, y);
    ShiftedNorm(K, a, |x| - 1);
    ExponentIsOdd();
    var p := Power(K, u, Sse.Val(THIRD));
    PowerOfOnePlus(K, y, Sse.Val(THIRD >> 1));
    CongruentBasics(K, p, x);
    CongruentWeaken(K, Rem(K, p, x), p, x, yy);
    CongruentTransitive(K, Rem(K, p, x), p, u, yy);
    CongruentAdd(K, Rem(K, p, x), u, One(K), yy);
    AddComm(K, One(K), y);
    AddCancel(K, One(K), y);
  }

  lemma RepeatedRootSplits<E(!new)>(K: Field<E>, x: seq<E>, p: seq<E>, a: E)
    requires IsField(K) && Normal(K, x) && Normal(K, p) && |x| >= 3 && p != []
    requires var y := Linear(K, a); Divides(K, Mul(K, y, y), p) && Divides(K, Mul(K, y, y), x)
    ensures Split(K, x, p, Shifted(K, a, |x| - 1)).Some?
  {
    hide Mul, Add, Divides, Split, Residue, Shifted;
    var y := Linear(K, a);
    var yy := Mul(K, y, y);
    var g := Residue(K, x, Shifted(K, a, |x| - 1));
    LinearBasics(K, a);
    ShiftedResidue(K, x, a);
    DividesBasics(K, y);
    DividesProduct(K, y, y, y);
    DividesTransitive(K, y, yy, p);
    // g == y + (g + y)
    AddComm(K, g, y);
    AddCancel(K, y, g);
    DividesTransitive(K, y, yy, Add(K, g, y));
    DividesSum(K, y, y, Add(K, y, g));
    if Divides(K, yy, g) {
      AddCancel(K, g, y);
      DividesSum(K, yy, g, Add(K, g, y));
      MulLead(K, y, y);
      DividesLength(K, yy, y);
      assert false;
    }
    SplitSucceeds(K, x, p, Shifted(K, a, |x| - 1), y, yy);
  }

  // ----- Every pending factor is split by some draw -----

  lemma SplittingDraw<E(!new)>(K: Field<E>, zs: seq<E>, x: seq<E>, p: seq<E>) returns (h: seq<E>)
    requires IsField(K) && x == FromRoots(K, zs) && x != [] && Normal(K, p) && |p| >= 3 && Divides(K, p, x)
    ensures |h| == |x| - 1 && Split(K, x, p, h).Some?
  {
    hide Mul, Divides, Split, FromRoots, Eval, Linear;
    FromRootsDegree(K, zs);
    DividesLength(K, p, x);
    var a := DivisorHasRoot(K, p, zs);
    RootIffFactor(K, p, a);
    var y := Linear(K, a);
    LinearBasics(K, a);
    var p1 := Cofactor(K, y, p);
    LinearParts(K, a);
    assert p1 != [] by { MulEmptyCases(K, p1, y); }
    MulLead(K, p1, y);
    CofactorDivides(K, p1, y, p);
    DividesTransitive(K, p1, p, x);
    var b := DivisorHasRoot(K, p1, zs);
    RootIffFactor(K, p1, b);
    LinearBasics(K, b);
    if a != b {
      DividesTransitive(K, Linear(K, b), p1, p);
      RootIffFactor(K, p, b);
      RootIffFactor(K, x, a); RootIffFactor(K, x, b);
      DividesTransitive(K, y, p, x); DividesTransitive(K, Linear(K, b), p, x);
      DistinctRootsSplit(K, x, p, a, b);
      h := Interpolator(K, a, b, |x| - 1);
    } else {
      DividesCancel(K, y, p1, y);
      MulComm(K, p1, y);
      DividesTransitive(K, Mul(K, y, y), p, x);
      RepeatedRootSplits(K, x, p, a);
      h := Shifted(K, a, |x| - 1);
    }
  }

  lemma Cofactor<E(!new)>(K: Field<E>, d: seq<E>, p: seq<E>) returns (k: seq<E>)
    requires Divides(K, d, p)
    ensures Normal(K, k) && Mul(K, k, d) == p
  {
    k :| IsMultiple(K, k, d, p);
  }

  lemma CofactorDivides<E(!new)>(K: Field<E>, k: seq<E>, d: seq<E>, p: seq<E>)
    requires IsField(K) && Normal(K, k) && Normal(K, d) && Mul(K, k, d) == p
    ensures Divides(K, k, p) && Divides(K, d, p)
  {
    MulComm(K, k, d);
    assert IsMultiple(K, d, k, p);
    assert IsMultiple(K, k, d, p);
  }

  lemma MulEmptyCases<E(!new)>(K: Field<E>, p: seq<E>, q: seq<E>)
    requires IsField(K) && Normal(K, p) && Normal(K, q) && Mul(K, p, q) != []
    ensures p != [] && q != []
  {
  }

  // ----- Some run returns -----

  ghost function Weight<E(!new)>(ps: seq<seq<E>>): nat {
    if ps == [] then 0 else (if |ps[0]| < 2 then 0 else 2 * |ps[0]| - 3) + Weight(ps[1..])
  }

  lemma {:induction false} WeightSum<E(!new)>(ps: seq<seq<E>>, qs: seq<seq<E>>)
    ensures Weight(ps + qs) == Weight(ps) + Weight(qs)
  {
    if ps == [] {
      assert ps + qs == qs;
    } else {
      assert (ps + qs)[1..] == ps[1..] + qs;
      WeightSum(ps[1..], qs);
    }
  }

  ghost predicate AllDivide<E(!new)>(K: Field<E>, ps: seq<seq<E>>, x: seq<E>) {
    forall p :: p in ps ==> Divides(K, p, x)
  }

  ghost predicate DrawsFor<E(!new)>(x: seq<E>, draws: seq<seq<E>>) {
    forall h :: h in draws ==> |h| == |x| - 1
  }

  lemma {:induction false} SomeRunReturns<E(!new)>(K: Field<E>, zs: seq<E>, x: seq<E>, factors: seq<seq<E>>,
                                                   next: seq<seq<E>>, roots: seq<E>) returns (draws: seq<seq<E>>)
    requires IsField(K) && x == FromRoots(K, zs) && x != [] && Pending(K, factors) && Pending(K, next)
    requires AllDivide(K, factors, x) && AllDivide(K, next, x)
    ensures DrawsFor(x, draws) && RunFrom(K, x, factors, next, roots, draws).Some?
    decreases Weight(factors) + Weight(next), |next|
  {
    hide Mul, Divides, Split, FromRoots, Pending;
    if factors == [] {
      if next == [] {
        draws := [];
      } else {
        draws := SomeRunReturns(K, zs, x, next, [], roots);
      }
    } else {
      var p := factors[0];
      PendingFirst(K, factors);
      if |p| == 2 {
        draws := SomeRunReturns(K, zs, x, factors[1..], next, roots + [p[0]]);
      } else {
        var h := SplittingDraw(K, zs, x, p);
        var ks := Split(K, x, p, h).value;
        PendingSplit(K, x, factors, next, h);
        ChildrenDivide(K, ks.0, ks.1, p, x);
        WeightSum(next, [ks.0, ks.1]);
        WeightOfChildren(K, ks.0, ks.1, p);
        draws := SomeRunReturns(K, zs, x, factors[1..], next + [ks.0, ks.1], roots);
        assert ([h] + draws)[1..] == draws;
        draws := [h] + draws;
      }
    }
  }

  lemma ChildrenDivide<E(!new)>(K: Field<E>, k1: seq<E>, k2: seq<E>, p: seq<E>, x: seq<E>)
    requires IsField(K) && Normal(K, k1) && Normal(K, k2) && Normal(K, p) && Normal(K, x)
    requires Mul(K, k1, k2) == p && Divides(K, p, x)
    ensures Divides(K, k1, x) && Divides(K, k2, x)
  {
    hide Mul, Divides;
    CofactorDivides(K, k1, k2, p);
    DividesTransitive(K, k1, p, x);
    DividesTransitive(K, k2, p, x);
  }

  lemma WeightOfChildren<E(!new)>(K: Field<E>, k1: seq<E>, k2: seq<E>, p: seq<E>)
    requires IsField(K) && Normal(K, k1) && Normal(K, k2) && Mul(K, k1, k2) == p && |p| >= 3
    requires |k1| < |p| && |k2| < |p|
    ensures Weight([k1, k2]) < 2 * |p| - 3
  {
    hide Mul;
    MulEmptyCases(K, k1, k2);
    MulLead(K, k1, k2);
    assert [k1, k2][1..] == [k2] && [k2][1..] == [];
    assert Weight([k2]) == if |k2| < 2 then 0 else 2 * |k2| - 3;
  }

  // Some tape of draws makes the search return if and only if x splits into
  // linear factors.
  lemma ReturnsIffSplits<E(!new)>(K: Field<E>, x: seq<E>)
    requires IsField(K) && |Norm(K, x)| >= 2
    ensures (exists draws :: DrawsFor(Norm(K, x), draws) && Run(K, x, draws).Some?)
            <==> (exists zs :: FromRoots(K, zs) == Monic(K, Norm(K, x)))
  {
    hide Mul, Divides, Split, FromRoots, RunFrom, Monic;
    var m := Monic(K, Norm(K, x));
    MonicIsMonic(K, Norm(K, x));
    if draws :| DrawsFor(Norm(K, x), draws) && Run(K, x, draws).Some? {
      RunFactors(K, x, draws);
    }
    if zs :| FromRoots(K, zs) == m {
      DividesBasics(K, m);
      var draws := SomeRunReturns(K, zs, m, [m], [], []);
      assert DrawsFor(Norm(K, x), draws) && Run(K, x, draws).Some?;
    }
  }
}
