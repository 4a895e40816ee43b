// Roots of polynomials in K[X], and polynomials that split into linear factors.
module Roots {
  import opened Fields
  import opened PolynomialRing
  import opened PolynomialDivision
  import opened PolynomialPowers

  // X + z, whose only root is z: in characteristic two, X - z.
  ghost function Linear<E(!new)>(K: Field<E>, z: E): seq<E> { [z, K.one] }

  lemma LinearBasics<E(!new)>(K: Field<E>, z: E)
    requires IsField(K)
    ensures Normal(K, Linear(K, z)) && IsMonic(K, Linear(K, z))
  {
  }

  lemma EvalConstant<E(!new)>(K: Field<E>, c: E, x: E)
    requires IsField(K)
    ensures Eval(K, [c], x) == c
  {
    assert [c][1..] == [];
    MulZero(K, x);
    Laws(K, c, K.zero, K.zero);
  }

  lemma EvalLinear<E(!new)>(K: Field<E>, z: E, x: E)
    requires IsField(K)
    ensures Eval(K, Linear(K, z), x) == K.add(z, x)
  {
    assert Linear(K, z)[1..] == [K.one];
    EvalConstant(K, K.one, x);
    Laws(K, x, K.one, K.one);
  }

  // The factor theorem.
  lemma RootIffFactor<E(!new)>(K: Field<E>, p: seq<E>, z: E)
    requires IsField(K) && Normal(K, p)
    ensures Eval(K, p, z) == K.zero <==> Divides(K, Linear(K, z), p)
  {
    hide Mul, Add, DivMod, Linear, Divides;
    LinearBasics(K, z);
    var l := Linear(K, z);
    assert |l| == 2 by { LinearParts(K, z); }
    var (q, r) := DivMod(K, p, l);
    EvalAdd(K, Mul(K, q, l), r, z);
    EvalMul(K, q, l, z);
    EvalLinear(K, z, z);
    Laws(K, z, z, z);
    MulZero(K, Eval(K, q, z));
    Laws(K, Eval(K, r, z), K.zero, K.zero);
    Laws(K, K.zero, Eval(K, r, z), K.zero);
    RemIsEmptyIffDivides(K, p, l);
    assert r == Rem(K, p, l);
    if r != [] {
      assert r == [r[0]];
      EvalConstant(K, r[0], z);
    }
  }

  lemma LinearParts<E(!new)>(K: Field<E>, z: E)
    ensures |Linear(K, z)| == 2 && Linear(K, z)[0] == z && Linear(K, z)[1] == K.one
  {
  }

  // (X + zs[0]) (X + zs[1]) ...
  ghost function FromRoots<E(!new)>(K: Field<E>, zs: seq<E>): (r: seq<E>)
    ensures IsField(K) ==> Normal(K, r)
  {
    if zs == [] then One(K) else Mul(K, Linear(K, zs[0]), FromRoots(K, zs[1..]))
  }

  lemma {:induction false} FromRootsDegree<E(!new)>(K: Field<E>, zs: seq<E>)
    requires IsField(K)
    ensures |FromRoots(K, zs)| == |zs| + 1 && IsMonic(K, FromRoots(K, zs))
  {
    hide Mul;
    if zs != [] {
      FromRootsDegree(K, zs[1..]);
      LinearBasics(K, zs[0]);
      MulLead(K, Linear(K, zs[0]), FromRoots(K, zs[1..]));
      Laws(K, K.one, K.one, K.one);
    }
  }

  lemma {:induction false} FromRootsEval<E(!new)>(K: Field<E>, zs: seq<E>, x: E)
    requires IsField(K)
    ensures Eval(K, FromRoots(K, zs), x) == K.zero <==> x in zs
  {
    hide Mul, Eval, Linear;
    if zs == [] {
      EvalConstant(K, K.one, x);
    } else {
      FromRootsEval(K, zs[1..], x);
      EvalLinear(K, zs[0], x);
      EvalMul(K, Linear(K, zs[0]), FromRoots(K, zs[1..]), x);
      AddIsZeroIffEqual(K, zs[0], x);
      NoZeroDivisors(K, K.add(zs[0], x), Eval(K, FromRoots(K, zs[1..]), x));
      MulZero(K, K.add(zs[0], x));
      MulZero(K, Eval(K, FromRoots(K, zs[1..]), x));
    }
  }

  ghost function Without<E(!new)>(zs: seq<E>, i: nat): seq<E>
    requires i < |zs|
  {
    zs[..i] + zs[i + 1..]
  }

  lemma WithoutMultiset<E(!new)>(zs: seq<E>, i: nat)
    requires i < |zs|
    ensures multiset(zs) == multiset(Without(zs, i)) + multiset{zs[i]}
  {
    assert zs == zs[..i] + [zs[i]] + zs[i + 1..];
  }

  lemma {:induction false} FromRootsExtract<E(!new)>(K: Field<E>, zs: seq<E>, i: nat)
    requires IsField(K) && i < |zs|
    ensures FromRoots(K, zs) == Mul(K, Linear(K, zs[i]), FromRoots(K, Without(zs, i)))
  {
    hide Mul;
    if i == 0 {
      assert Without(zs, 0) == zs[1..];
    } else {
      var rest := Without(zs, i);
      assert rest[1..] == Without(zs[1..], i - 1) && rest[0] == zs[0];
      FromRootsExtract(K, zs[1..], i - 1);
      var a, b, f := Linear(K, zs[0]), Linear(K, zs[i]), FromRoots(K, rest[1..]);
      LinearBasics(K, zs[0]); LinearBasics(K, zs[i]);
      MulAssoc(K, a, b, f);
      MulComm(K, a, b);
      MulAssoc(K, b, a, f);
    }
  }

  // Cancelling a common factor from both sides of a divisibility.
  lemma DividesCancel<E(!new)>(K: Field<E>, d: seq<E>, p: seq<E>, l: seq<E>)
    requires IsField(K) && Normal(K, d) && Normal(K, p) && Normal(K, l) && l != []
    ensures Divides(K, Mul(K, l, d), Mul(K, l, p)) <==> Divides(K, d, p)
  {
    hide Mul;
    if Divides(K, d, p) {
      var k :| IsMultiple(K, k, d, p);
      MulAssoc(K, k, l, d); MulComm(K, k, l); MulAssoc(K, l, k, d);
      assert IsMultiple(K, k, Mul(K, l, d), Mul(K, l, p));
    }
    if Divides(K, Mul(K, l, d), Mul(K, l, p)) {
      var k :| IsMultiple(K, k, Mul(K, l, d), Mul(K, l, p));
      MulAssoc(K, k, l, d); MulComm(K, k, l); MulAssoc(K, l, k, d);
      MulComm(K, l, Mul(K, k, d)); MulComm(K, l, p);
      MulCancel(K, Mul(K, k, d), p, l);
      assert IsMultiple(K, k, d, p);
    }
  }

  // z occurs in zs exactly as often as X + z divides the product.
  lemma {:induction false} Multiplicity<E(!new)>(K: Field<E>, zs: seq<E>, z: E, k: nat)
    requires IsField(K)
    ensures Divides(K, Power(K, Linear(K, z), k), FromRoots(K, zs)) <==> k <= multiset(zs)[z]
    decreases k
  {
    hide Mul, Divides, Linear, FromRoots;
    var l, f := Linear(K, z), FromRoots(K, zs);
    LinearBasics(K, z);
    if k == 0 {
      OneDivides(K, f);
    } else if z in zs {
      var i :| 0 <= i < |zs| && zs[i] == z;
      FromRootsExtract(K, zs, i);
      WithoutMultiset(zs, i);
      Multiplicity(K, Without(zs, i), z, k - 1);
      DividesCancel(K, Power(K, l, k - 1), FromRoots(K, Without(zs, i)), l);
    } else {
      DividesBasics(K, l);
      DividesProduct(K, l, l, Power(K, l, k - 1));
      if Divides(K, Power(K, l, k), f) {
        DividesTransitive(K, l, Power(K, l, k), f);
        RootIffFactor(K, f, z);
        FromRootsEval(K, zs, z);
      }
    }
  }

  lemma OneDivides<E(!new)>(K: Field<E>, p: seq<E>)
    requires IsField(K) && Normal(K, p)
    ensures Divides(K, One(K), p)
  {
    hide Mul;
    MulOne(K, p);
    assert IsMultiple(K, p, One(K), p);
  }

  // A polynomial determines the multiset of its roots.
  lemma RootMultisetUnique<E(!new)>(K: Field<E>, zs: seq<E>, ws: seq<E>)
    requires IsField(K) && FromRoots(K, zs) == FromRoots(K, ws)
    ensures multiset(zs) == multiset(ws)
  {
    hide FromRoots, Divides, Power;
    forall z ensures multiset(zs)[z] == multiset(ws)[z] {
      Multiplicity(K, zs, z, multiset(zs)[z]);
      Multiplicity(K, ws, z, multiset(zs)[z]);
      Multiplicity(K, zs, z, multiset(ws)[z]);
      Multiplicity(K, ws, z, multiset(ws)[z]);
    }
  }

  // ----- Divisors of a split polynomial -----

  // A non-constant divisor of a split polynomial has a root.
  lemma {:induction false} DivisorHasRoot<E(!new)>(K: Field<E>, p: seq<E>, zs: seq<E>) returns (z: E)
    requires IsField(K) && Normal(K, p) && |p| >= 2 && Divides(K, p, FromRoots(K, zs))
    ensures Eval(K, p, z) == K.zero
  {
    hide Mul, Eval, Linear;
    FromRootsDegree(K, zs);
    DividesLength(K, p, FromRoots(K, zs));
    z := zs[0];
    if Eval(K, p, z) != K.zero {
      var k :| IsMultiple(K, k, p, FromRoots(K, zs));
      FromRootsEval(K, zs, z);
      EvalMul(K, k, p, z);
      NoZeroDivisors(K, Eval(K, k, z), Eval(K, p, z));
      RootIffFactor(K, k, z);
      var l := Linear(K, z);
      LinearBasics(K, z);
      var k' :| IsMultiple(K, k', l, k);
      MulComm(K, k', l);
      MulAssoc(K, l, k', p);
      MulComm(K, l, Mul(K, k', p)); MulComm(K, l, FromRoots(K, zs[1..]));
      assert l != [] by { LinearParts(K, z); }
      MulCancel(K, Mul(K, k', p), FromRoots(K, zs[1..]), l);
      assert IsMultiple(K, k', p, FromRoots(K, zs[1..]));
      z := DivisorHasRoot(K, p, zs[1..]);
    }
  }
}
