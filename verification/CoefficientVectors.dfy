// Coefficient vectors, possibly with leading zeros, and the polynomials of
// K[X] they stand for.
module CoefficientVectors {
  import opened Fields
  import opened PolynomialRing
  import opened PolynomialDivision

  function ZeroVector<E(!new)>(K: Field<E>, n: nat): seq<E> { seq(n, _ => K.zero) }

  lemma {:induction false} NormZeros<E(!new)>(K: Field<E>, n: nat)
    ensures Norm(K, ZeroVector(K, n)) == []
  {
    if n > 0 {
      assert ZeroVector(K, n)[1..] == ZeroVector(K, n - 1);
      NormZeros(K, n - 1);
    }
  }

  lemma {:induction false} NormDropsZero<E(!new)>(K: Field<E>, p: seq<E>)
    requires p != [] && Lead(p) == K.zero
    ensures Norm(K, p) == Norm(K, p[..|p| - 1])
  {
    if |p| > 1 {
      NormDropsZero(K, p[1..]);
      assert p[1..][..|p| - 2] == p[..|p| - 1][1..];
    }
  }

  lemma {:induction false} NormPadded<E(!new)>(K: Field<E>, p: seq<E>, n: nat)
    ensures Norm(K, p + ZeroVector(K, n)) == Norm(K, p)
  {
    if p == [] {
      NormZeros(K, n);
      assert p + ZeroVector(K, n) == ZeroVector(K, n);
    } else {
      NormPadded(K, p[1..], n);
      assert (p + ZeroVector(K, n))[1..] == p[1..] + ZeroVector(K, n);
    }
  }

  lemma {:induction false} NormOfSums<E(!new)>(K: Field<E>, p: seq<E>, q: seq<E>, s: seq<E>)
    requires IsField(K) && |p| == |q| == |s|
    requires forall i :: 0 <= i < |s| ==> s[i] == K.add(p[i], q[i])
    ensures Norm(K, s) == Add(K, Norm(K, p), Norm(K, q))
  {
    if s != [] {
      NormOfSums(K, p[1..], q[1..], s[1..]);
      AddCons(K, p[0], Norm(K, p[1..]), q[0], Norm(K, q[1..]));
    }
  }

  // Adding c at position k adds the monomial c X^k.
  lemma {:induction false} NormBump<E(!new)>(K: Field<E>, p: seq<E>, k: nat, c: E)
    requires IsField(K) && k < |p|
    ensures Norm(K, p[k := K.add(p[k], c)]) == Add(K, Norm(K, p), Monomial(K, c, k))
  {
    hide Cons;
    var s := p[k := K.add(p[k], c)];
    if k == 0 {
      assert s[1..] == p[1..];
      AddCons(K, p[0], Norm(K, p[1..]), c, []);
    } else {
      NormBump(K, p[1..], k - 1, c);
      assert s[1..] == p[1..][k - 1 := K.add(p[k], c)];
      Laws(K, p[0], K.zero, K.zero);
      AddCons(K, p[0], Norm(K, p[1..]), K.zero, Monomial(K, c, k - 1));
    }
  }

  lemma {:induction false} NormSnoc<E(!new)>(K: Field<E>, p: seq<E>, c: E)
    requires IsField(K)
    ensures Norm(K, p + [c]) == Add(K, Norm(K, p), Monomial(K, c, |p|))
  {
    if p == [] {
      assert (p + [c])[1..] == [];
    } else {
      NormSnoc(K, p[1..], c);
      assert (p + [c])[1..] == p[1..] + [c];
      Laws(K, p[0], K.zero, K.zero);
      AddCons(K, p[0], Norm(K, p[1..]), K.zero, Monomial(K, c, |p| - 1));
    }
  }

  // Multiplying by a constant is scaling.
  lemma MulConstant<E(!new)>(K: Field<E>, a: E, p: seq<E>)
    requires IsField(K)
    ensures Mul(K, Cons(K, a, []), p) == Scale(K, a, p)
  {
    MulCons(K, a, [], p);
  }

  // Multiplying by X is putting a zero in front.
  lemma MulShift<E(!new)>(K: Field<E>, p: seq<E>, q: seq<E>)
    requires IsField(K)
    ensures Mul(K, Cons(K, K.zero, p), q) == Cons(K, K.zero, Mul(K, p, q))
  {
    MulCons(K, K.zero, p, q);
    ScaleUnits(K, q);
  }

  lemma {:induction false} MonomialMul<E(!new)>(K: Field<E>, a: E, i: nat, b: E, j: nat)
    requires IsField(K)
    ensures Mul(K, Monomial(K, a, i), Monomial(K, b, j)) == Monomial(K, K.mul(a, b), i + j)
  {
    hide Mul, Scale, Cons;
    if i > 0 {
      MonomialMul(K, a, i - 1, b, j);
      MulShift(K, Monomial(K, a, i - 1), Monomial(K, b, j));
    } else {
      MulConstant(K, a, Monomial(K, b, j));
      ScaleMonomial(K, a, b, j);
    }
  }

  lemma {:induction false} ScaleMonomial<E(!new)>(K: Field<E>, a: E, b: E, j: nat)
    requires IsField(K)
    ensures Scale(K, a, Monomial(K, b, j)) == Monomial(K, K.mul(a, b), j)
  {
    if j == 0 {
      ScaleCons(K, a, b, []);
    } else {
      ScaleMonomial(K, a, b, j - 1);
      ScaleCons(K, a, K.zero, Monomial(K, b, j - 1));
      MulZero(K, a);
    }
  }

  lemma {:induction false} NormShifted<E(!new)>(K: Field<E>, c: E, k: nat)
    requires IsField(K)
    ensures Norm(K, ZeroVector(K, k) + [c]) == Monomial(K, c, k)
  {
    NormSnoc(K, ZeroVector(K, k), c);
    NormZeros(K, k);
    assert |ZeroVector(K, k)| == k;
  }

  lemma {:induction false} ScaleAt<E(!new)>(K: Field<E>, c: E, p: seq<E>, s: seq<E>)
    requires IsField(K) && Normal(K, p) && c != K.zero && |s| == |p|
    requires forall i :: 0 <= i < |s| ==> s[i] == K.mul(c, p[i])
    ensures s == Scale(K, c, p)
  {
    if p != [] {
      ConsParts(K, p);
      ScaleAt(K, c, p[1..], s[1..]);
      NoZeroDivisors(K, c, p[0]);
      assert s == [s[0]] + s[1..];
    }
  }
}
