// The worklist of zeros(): split factors until all are linear, then read the
// roots off the constant terms.
//
// The random polynomials are a tape of draws. The retry loop of the program
// ends only when a draw splits the factor at hand, so a run on a given tape
// either returns or is still waiting for a draw when the tape ends.
module RootSearch {
  import opened Fields
  import opened Options
  import opened PolynomialRing
  import opened PolynomialDivision
  import opened CzPolynomial
  import opened Factorize
  import opened Roots

  // The factors of one round still to be treated, those of the next round,
  // the roots found, and the draws not yet consumed.
  ghost function RunFrom<E(!new)>(K: Field<E>, x: seq<E>, factors: seq<seq<E>>, next: seq<seq<E>>, roots: seq<E>,
                                  draws: seq<seq<E>>): Option<seq<E>>
    requires IsField(K) && Normal(K, x) && x != [] && Pending(K, factors) && Pending(K, next)
    decreases |draws|, |factors| + |next|, |next|
  {
    if factors == [] then
      if next == [] then Some(roots) else RunFrom(K, x, next, [], roots, draws)
    else
      var p := factors[0];
      PendingFirst(K, factors);
      if |p| == 2 then RunFrom(K, x, factors[1..], next, roots + [p[0]], draws)
      else if draws == [] then None
      else
        match Split(K, x, p, draws[0])
        case None => RunFrom(K, x, factors, next, roots, draws[1..])
        case Some(ks) =>
          PendingSplit(K, x, factors, next, draws[0]);
          RunFrom(K, x, factors[1..], next + [ks.0, ks.1], roots, draws[1..])
  }

  // Monic polynomials of degree at least 1.
  ghost predicate Pending<E(!new)>(K: Field<E>, ps: seq<seq<E>>) {
    forall p :: p in ps ==> Normal(K, p) && IsMonic(K, p) && |p| >= 2
  }

  lemma PendingFirst<E(!new)>(K: Field<E>, factors: seq<seq<E>>)
    requires Pending(K, factors) && factors != []
    ensures Pending(K, factors[1..]) && Normal(K, factors[0]) && IsMonic(K, factors[0]) && |factors[0]| >= 2
  {
  }

  lemma PendingSplit<E(!new)>(K: Field<E>, x: seq<E>, factors: seq<seq<E>>, next: seq<seq<E>>, h: seq<E>)
    requires IsField(K) && Normal(K, x) && x != [] && Pending(K, factors) && Pending(K, next) && factors != []
    requires Normal(K, factors[0]) && Split(K, x, factors[0], h).Some?
    ensures var ks := Split(K, x, factors[0], h).value;
            && Pending(K, next + [ks.0, ks.1]) && |ks.0| < |factors[0]| && |ks.1| < |factors[0]|
            && Normal(K, ks.0) && Normal(K, ks.1) && Mul(K, ks.0, ks.1) == factors[0]
  {
    hide Mul, Split, Normal, IsMonic;
    PendingFirst(K, factors);
    SplitIsFactorisation(K, x, factors[0], h);
    MonicIsMonic(K, factors[0]);
  }

  ghost function Run<E(!new)>(K: Field<E>, x: seq<E>, draws: seq<seq<E>>): Option<seq<E>>
    requires IsField(K) && |Norm(K, x)| >= 2
  {
    MonicIsMonic(K, Norm(K, x));
    var m := Monic(K, Norm(K, x));
    RunFrom(K, m, [m], [], [], draws)
  }

  // ----- Soundness: factors are never lost -----

  ghost function Product<E(!new)>(K: Field<E>, ps: seq<seq<E>>): (r: seq<E>)
    ensures IsField(K) ==> Normal(K, r)
  {
    if ps == [] then One(K) else Mul(K, ps[0], Product(K, ps[1..]))
  }

  lemma {:induction false} ProductSum<E(!new)>(K: Field<E>, ps: seq<seq<E>>, qs: seq<seq<E>>)
    requires IsField(K) && Pending(K, ps)
    ensures Product(K, ps + qs) == Mul(K, Product(K, ps), Product(K, qs))
  {
    hide Mul, Normal;
    if ps == [] {
      assert ps + qs == qs;
      MulOne(K, Product(K, qs));
    } else {
      assert (ps + qs)[1..] == ps[1..] + qs;
      ProductSum(K, ps[1..], qs);
      MulAssoc(K, ps[0], Product(K, ps[1..]), Product(K, qs));
    }
  }

  lemma {:induction false} FromRootsSum<E(!new)>(K: Field<E>, zs: seq<E>, ws: seq<E>)
    requires IsField(K)
    ensures FromRoots(K, zs + ws) == Mul(K, FromRoots(K, zs), FromRoots(K, ws))
  {
    hide Mul, Normal;
    if zs == [] {
      assert zs + ws == ws;
      MulOne(K, FromRoots(K, ws));
    } else {
      assert (zs + ws)[1..] == zs[1..] + ws;
      FromRootsSum(K, zs[1..], ws);
      LinearBasics(K, zs[0]);
      MulAssoc(K, Linear(K, zs[0]), FromRoots(K, zs[1..]), FromRoots(K, ws));
    }
  }

  // The product of everything a state holds.
  ghost function Total<E(!new)>(K: Field<E>, factors: seq<seq<E>>, next: seq<seq<E>>, roots: seq<E>): (r: seq<E>)
    ensures IsField(K) ==> Normal(K, r)
  {
    Mul(K, FromRoots(K, roots), Mul(K, Product(K, next), Product(K, factors)))
  }

  lemma TotalNextRound<E(!new)>(K: Field<E>, next: seq<seq<E>>, roots: seq<E>)
    requires IsField(K)
    ensures Total(K, next, [], roots) == Total(K, [], next, roots)
  {
    hide Mul;
    MulOne(K, Product(K, next));
  }

  lemma TotalRoot<E(!new)>(K: Field<E>, factors: seq<seq<E>>, next: seq<seq<E>>, roots: seq<E>)
    requires IsField(K) && Pending(K, factors) && factors != [] && |factors[0]| == 2
    ensures Total(K, factors[1..], next, roots + [factors[0][0]]) == Total(K, factors, next, roots)
  {
    hide Mul;
    var p := factors[0];
    assert p in factors;
    assert p == Linear(K, p[0]);
    assert [p[0]][1..] == [];
    FromRootsSum(K, roots, [p[0]]);
    assert FromRoots(K, []) == One(K);
    MulOne(K, p);
    var f, n, r := FromRoots(K, roots), Product(K, next), Product(K, factors[1..]);
    // (f p) (n r) == f (n (p r))
    MulAssoc(K, f, p, Mul(K, n, r));
    MulAssoc(K, p, n, r); MulComm(K, p, n); MulAssoc(K, n, p, r);
  }

  lemma TotalSplit<E(!new)>(K: Field<E>, factors: seq<seq<E>>, next: seq<seq<E>>, roots: seq<E>, k1: seq<E>, k2: seq<E>)
    requires IsField(K) && Pending(K, factors) && Pending(K, next) && factors != []
    requires Normal(K, k1) && Normal(K, k2) && Mul(K, k1, k2) == factors[0]
    ensures Total(K, factors[1..], next + [k1, k2], roots) == Total(K, factors, next, roots)
  {
    hide Mul;
    var p := factors[0];
    ProductSum(K, next, [k1, k2]);
    assert [k1, k2][1..] == [k2] && [k2][1..] == [];
    assert Product(K, []) == One(K) && Product(K, [k2]) == Mul(K, k2, Product(K, []));
    assert Product(K, [k1, k2]) == Mul(K, k1, Product(K, [k2]));
    MulOne(K, k2);
    MulAssoc(K, Product(K, next), p, Product(K, factors[1..]));
  }

  lemma {:induction false} RunKeepsTotal<E(!new)>(K: Field<E>, x: seq<E>, factors: seq<seq<E>>, next: seq<seq<E>>,
                                                  roots: seq<E>, draws: seq<seq<E>>)
    requires IsField(K) && Normal(K, x) && x != [] && Pending(K, factors) && Pending(K, next)
    requires RunFrom(K, x, factors, next, roots, draws).Some?
    ensures FromRoots(K, RunFrom(K, x, factors, next, roots, draws).value) == Total(K, factors, next, roots)
    decreases |draws|, |factors| + |next|, |next|
  {
    hide Mul, Total, Split, Pending;
    if factors == [] {
      if next == [] {
        TotalEmpty(K, roots);
      } else {
        assert Pending(K, factors);
        RunKeepsTotal(K, x, next, [], roots, draws);
        TotalNextRound(K, next, roots);
      }
    } else {
      var p := factors[0];
      PendingFirst(K, factors);
      if |p| == 2 {
        RunKeepsTotal(K, x, factors[1..], next, roots + [p[0]], draws);
        TotalRoot(K, factors, next, roots);
      } else {
        match Split(K, x, p, draws[0])
        case None => RunKeepsTotal(K, x, factors, next, roots, draws[1..]);
        case Some(ks) =>
          PendingSplit(K, x, factors, next, draws[0]);
          RunKeepsTotal(K, x, factors[1..], next + [ks.0, ks.1], roots, draws[1..]);
          TotalSplit(K, factors, next, roots, ks.0, ks.1);
      }
    }
  }

  lemma TotalEmpty<E(!new)>(K: Field<E>, roots: seq<E>)
    requires IsField(K)
    ensures Total(K, [], [], roots) == FromRoots(K, roots)
  {
    hide Mul;
    MulOne(K, One(K));
    MulOne(K, FromRoots(K, roots));
  }

  // A run that returns has factored x: for every tape of draws.
  lemma RunFactors<E(!new)>(K: Field<E>, x: seq<E>, draws: seq<seq<E>>)
    requires IsField(K) && |Norm(K, x)| >= 2 && Run(K, x, draws).Some?
    ensures FromRoots(K, Run(K, x, draws).value) == Monic(K, Norm(K, x))
  {
    hide Mul, RunFrom, FromRoots;
    var m := Monic(K, Norm(K, x));
    MonicIsMonic(K, Norm(K, x));
    RunKeepsTotal(K, m, [m], [], [], draws);
    TotalStart(K, m);
  }

  lemma TotalStart<E(!new)>(K: Field<E>, m: seq<E>)
    requires IsField(K) && Normal(K, m)
    ensures Total(K, [m], [], []) == m
  {
    hide Mul;
    assert [m][1..] == [];
    assert Product(K, []) == One(K);
    MulOne(K, m);
  }

  // A non-zero multiple has the same roots with the same multiplicities.
  lemma MonicSameDivisors<E(!new)>(K: Field<E>, d: seq<E>, p: seq<E>)
    requires IsField(K) && Normal(K, d) && Normal(K, p)
    ensures Divides(K, d, Monic(K, p)) <==> Divides(K, d, p)
  {
    hide Mul, Monic, Divides;
    MonicAssociates(K, p);
    if Divides(K, d, p) { DividesTransitive(K, d, p, Monic(K, p)); }
    if Divides(K, d, Monic(K, p)) { DividesTransitive(K, d, Monic(K, p), p); }
  }

  // Whatever list multiplies to monic x is the multiset of roots of x: it
  // contains every z as often as X + z divides x, hence exactly the roots, and
  // as many values as x has degrees.
  lemma FactorisationGivesRoots<E(!new)>(K: Field<E>, x: seq<E>, zs: seq<E>)
    requires IsField(K) && Norm(K, x) != [] && FromRoots(K, zs) == Monic(K, Norm(K, x))
    ensures |zs| == |Norm(K, x)| - 1
    ensures forall z :: z in zs <==> Eval(K, x, z) == K.zero
    ensures forall z, k: nat ::
      Divides(K, PolynomialPowers.Power(K, Linear(K, z), k), Norm(K, x)) <==> k <= multiset(zs)[z]
  {
    hide Mul, Divides, Eval, FromRoots, Linear, PolynomialPowers.Power, Monic;
    var p := Norm(K, x);
    MonicIsMonic(K, p);
    FromRootsDegree(K, zs);
    forall z ensures z in zs <==> Eval(K, x, z) == K.zero {
      FromRootsEval(K, zs, z);
      EvalNorm(K, x, z);
      RootIffFactor(K, p, z);
      RootIffFactor(K, Monic(K, p), z);
      LinearBasics(K, z);
      MonicSameDivisors(K, Linear(K, z), p);
    }
    forall z, k: nat ensures Divides(K, PolynomialPowers.Power(K, Linear(K, z), k), p) <==> k <= multiset(zs)[z] {
      Multiplicity(K, zs, z, k);
      MonicSameDivisors(K, PolynomialPowers.Power(K, Linear(K, z), k), p);
    }
  }

  // If a run returns, its output is the multiset of roots of x.
  lemma RunFindsRoots<E(!new)>(K: Field<E>, x: seq<E>, draws: seq<seq<E>>)
    requires IsField(K) && |Norm(K, x)| >= 2 && Run(K, x, draws).Some?
    ensures var zs := Run(K, x, draws).value;
            && |zs| == |Norm(K, x)| - 1
            && (forall z :: z in zs <==> Eval(K, x, z) == K.zero)
            && (forall z, k: nat ::
                  Divides(K, PolynomialPowers.Power(K, Linear(K, z), k), Norm(K, x)) <==> k <= multiset(zs)[z])
  {
    hide *;
    RunFactors(K, x, draws);
    FactorisationGivesRoots(K, x, Run(K, x, draws).value);
  }

  // ----- The search itself -----

  // All factors of a round have at most the given length.
  ghost predicate AtMost<E(!new)>(ps: seq<seq<E>>, length: int) {
    forall p :: p in ps ==> |p| <= length
  }

  // The linear factors found are X + root.
  ghost predicate AreLinear<E(!new)>(K: Field<E>, finals: seq<seq<E>>, roots: seq<E>) {
    |finals| == |roots| && forall i :: 0 <= i < |roots| ==> |finals[i]| == 2 && finals[i][0] == roots[i]
  }

  lemma SearchStart<E(!new)>(K: Field<E>, x0: seq<E>, draws: seq<seq<E>>)
    requires IsField(K) && |Norm(K, x0)| >= 2
    ensures var x := Monic(K, Norm(K, x0));
            && Normal(K, x) && |x| == |Norm(K, x0)| && Pending(K, [x]) && Pending(K, []) && AtMost([x], |x|)
            && AreLinear(K, [], []) && Run(K, x0, draws) == RunFrom(K, x, [], [x], [], draws)
  {
    MonicIsMonic(K, Norm(K, x0));
  }

  lemma SearchRound<E(!new)>(K: Field<E>, x: seq<E>, factors: seq<seq<E>>, roots: seq<E>,
                             draws: seq<seq<E>>, rounds: int)
    requires IsField(K) && Normal(K, x) && x != [] && Pending(K, factors) && factors != [] && AtMost(factors, rounds)
    ensures rounds >= 2 && Pending(K, []) && AtMost<E>([], rounds - 1)
    ensures RunFrom(K, x, [], factors, roots, draws) == RunFrom(K, x, factors, [], roots, draws)
  {
    assert factors[0] in factors;
  }

  lemma SearchFactor<E(!new)>(K: Field<E>, x: seq<E>, factors: seq<seq<E>>, next: seq<seq<E>>, roots: seq<E>,
                              draws: seq<seq<E>>, rounds: int)
    requires IsField(K) && Normal(K, x) && x != [] && Pending(K, factors) && Pending(K, next) && factors != []
    requires AtMost(factors, rounds)
    ensures var p := factors[0];
            && Normal(K, p) && |p| >= 2 && Pending(K, factors[1..]) && AtMost(factors[1..], rounds)
            && (|p| == 2 ==> RunFrom(K, x, factors, next, roots, draws)
                             == RunFrom(K, x, factors[1..], next, roots + [p[0]], draws))
            && (|p| != 2 && draws == [] ==> RunFrom(K, x, factors, next, roots, draws) == None)
  {
  }

  lemma SearchDraw<E(!new)>(K: Field<E>, x: seq<E>, factors: seq<seq<E>>, next: seq<seq<E>>, roots: seq<E>,
                            draws: seq<seq<E>>, rounds: int)
    requires IsField(K) && Normal(K, x) && x != [] && Pending(K, factors) && Pending(K, next) && factors != []
    requires AtMost(factors, rounds) && AtMost(next, rounds - 1)
    requires Normal(K, factors[0]) && |factors[0]| > 2 && draws != [] && Pending(K, factors[1..])
    ensures match Split(K, x, factors[0], draws[0])
            case None => RunFrom(K, x, factors, next, roots, draws) == RunFrom(K, x, factors, next, roots, draws[1..])
            case Some(ks) =>
              && Pending(K, next + [ks.0, ks.1]) && AtMost(next + [ks.0, ks.1], rounds - 1)
              && RunFrom(K, x, factors, next, roots, draws)
                 == RunFrom(K, x, factors[1..], next + [ks.0, ks.1], roots, draws[1..])
  {
    hide Split, Mul;
    assert factors[0] in factors;
    if Split(K, x, factors[0], draws[0]).Some? {
      PendingSplit(K, x, factors, next, draws[0]);
    }
  }

  lemma SearchEnd<E(!new)>(K: Field<E>, x: seq<E>, roots: seq<E>, draws: seq<seq<E>>)
    requires IsField(K) && Normal(K, x) && x != [] && Pending(K, [])
    ensures RunFrom(K, x, [], [], roots, draws) == Some(roots)
  {
  }

  lemma ExtendLinear<E(!new)>(K: Field<E>, finals: seq<seq<E>>, roots: seq<E>, p: seq<E>)
    requires AreLinear(K, finals, roots) && |p| == 2
    ensures AreLinear(K, finals + [p], roots + [p[0]])
  {
  }

  lemma LinearAt<E(!new)>(K: Field<E>, finals: seq<seq<E>>, roots: seq<E>)
    requires AreLinear(K, finals, roots)
    ensures |finals| == |roots| && forall i :: 0 <= i < |roots| ==> |finals[i]| == 2 && finals[i][0] == roots[i]
  {
  }

  // None: the tape ended in the retry loop. Every round lowers the largest
  // pending degree, so there are at most as many rounds as the degree of x.
  // Each final factor is linear where the program asserts it.
  method Zeros<E(==,!new)>(K: Field<E>, x0: seq<E>, draws: seq<seq<E>>)
    returns (result: Option<seq<E>>, ghost rounds: nat)
    requires IsField(K) && |Norm(K, x0)| >= 2
    requires forall h :: h in draws ==> |h| == |Norm(K, x0)| - 1
    ensures result == Run(K, x0, draws)
    ensures result.Some? ==> FromRoots(K, result.value) == Monic(K, Norm(K, x0))
    ensures rounds <= |Norm(K, x0)| - 1
  {
    hide *;
    var poly := new Polynomial(K, x0);
    poly.EnsureMonic();
    var x := poly.coeffs;
    SearchStart(K, x0, draws);
    assert draws[0..] == draws;
    var factors: seq<seq<E>> := [];
    var newFactors := [x];
    var finalFactors: seq<seq<E>> := [];
    ghost var roots: seq<E> := [];
    var drawn := 0;
    ghost var longest := |x|;
    rounds := 0;
    while |newFactors| != 0
      invariant 0 <= drawn <= |draws| && Pending(K, newFactors) && Pending(K, [])
      invariant AtMost(newFactors, longest) && 1 <= longest && rounds + longest == |x|
      invariant AreLinear(K, finalFactors, roots)
      invariant Run(K, x0, draws) == RunFrom(K, x, [], newFactors, roots, draws[drawn..])
      decreases longest
    {
      factors := newFactors;
      newFactors := [];
      rounds := rounds + 1;
      SearchRound(K, x, factors, roots, draws[drawn..], longest);
      assert factors[0..] == factors;
      var i := 0;
      while i < |factors|
        invariant 0 <= i <= |factors|
        invariant 0 <= drawn <= |draws| && Pending(K, factors[i..]) && Pending(K, newFactors)
        invariant AtMost(factors[i..], longest) && AtMost(newFactors, longest - 1)
        invariant AreLinear(K, finalFactors, roots)
        invariant Run(K, x0, draws) == RunFrom(K, x, factors[i..], newFactors, roots, draws[drawn..])
      {
        var p := factors[i];
        assert factors[i..][0] == p && factors[i..][1..] == factors[i + 1..];
        SearchFactor(K, x, factors[i..], newFactors, roots, draws[drawn..], longest);
        if |p| - 1 == 1 {
          ExtendLinear(K, finalFactors, roots, p);
          finalFactors := finalFactors + [p];
          roots := roots + [p[0]];
          i := i + 1;
          continue;
        }
        var subfactors: seq<seq<E>> := [];
        while |subfactors| != 2
          invariant 0 <= drawn <= |draws| && |subfactors| in {0, 2}
          invariant subfactors == [] ==>
            Run(K, x0, draws) == RunFrom(K, x, factors[i..], newFactors, roots, draws[drawn..])
          invariant subfactors != [] ==>
            && Pending(K, newFactors + subfactors) && AtMost(newFactors + subfactors, longest - 1)
            && Run(K, x0, draws) == RunFrom(K, x, factors[i + 1..], newFactors + subfactors, roots, draws[drawn..])
          decreases |draws| - drawn
        {
          SearchFactor(K, x, factors[i..], newFactors, roots, draws[drawn..], longest);
          if drawn == |draws| {
            return None, rounds;
          }
          SearchDraw(K, x, factors[i..], newFactors, roots, draws[drawn..], longest);
          assert draws[drawn..][0] == draws[drawn] && draws[drawn..][1..] == draws[drawn + 1..];
          assert draws[drawn] in draws;
          subfactors := CantorZassenhaus(K, x, p, draws[drawn]);
          drawn := drawn + 1;
        }
        assert newFactors + subfactors == newFactors + [subfactors[0]] + [subfactors[1]];
        newFactors := newFactors + [subfactors[0]];
        newFactors := newFactors + [subfactors[1]];
        i := i + 1;
      }
      assert factors[i..] == [];
      longest := longest - 1;
    }
    SearchEnd(K, x, roots, draws[drawn..]);
    LinearAt(K, finalFactors, roots);
    var zeros: seq<E> := [];
    var i := 0;
    while i < |finalFactors|
      invariant 0 <= i <= |finalFactors|
      invariant zeros == roots[..i]
    {
      assert |finalFactors[i]| - 1 == 1;
      zeros := zeros + [finalFactors[i][0]];
      i := i + 1;
    }
    assert roots[..i] == roots;
    RunFactors(K, x0, draws);
    return Some(zeros), rounds;
  }
}
