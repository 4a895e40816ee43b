// Division with remainder, divisibility, greatest common divisors and
// congruences in K[X].
module PolynomialDivision {
  import opened Fields
  import opened PolynomialRing

  // c * X^k
  ghost function Monomial<E(!new)>(K: Field<E>, c: E, k: nat): (r: seq<E>)
    ensures Normal(K, r)
  {
    if k == 0 then Cons(K, c, []) else Cons(K, K.zero, Monomial(K, c, k - 1))
  }

  lemma {:induction false} MonomialLead<E(!new)>(K: Field<E>, c: E, k: nat)
    requires c != K.zero
    ensures |Monomial(K, c, k)| == k + 1 && Lead(Monomial(K, c, k)) == c
  {
    if k > 0 {
      MonomialLead(K, c, k - 1);
      LeadCons(K, K.zero, Monomial(K, c, k - 1));
    }
  }

  lemma {:induction false} AddDropsLead<E(!new)>(K: Field<E>, p: seq<E>, q: seq<E>)
    requires IsField(K) && |p| == |q| > 0 && Lead(p) == Lead(q)
    ensures |Add(K, p, q)| < |p|
  {
    Laws(K, p[0], q[0], K.zero);
    if |p| > 1 {
      AddDropsLead(K, p[1..], q[1..]);
    }
  }

  // ----- Division with remainder -----

  // The multiple of b that cancels the leading term of a.
  ghost function LeadQuotient<E(!new)>(K: Field<E>, a: seq<E>, b: seq<E>): (t: seq<E>)
    requires b != [] && |a| >= |b|
    ensures Normal(K, t)
  {
    Monomial(K, K.mul(Lead(a), K.inv(Lead(b))), |a| - |b|)
  }

  lemma LeadQuotientCancels<E(!new)>(K: Field<E>, a: seq<E>, b: seq<E>)
    requires IsField(K) && Normal(K, a) && Normal(K, b) && b != [] && |a| >= |b|
    ensures |Add(K, a, Mul(K, LeadQuotient(K, a, b), b))| < |a|
    ensures |LeadQuotient(K, a, b)| == |a| - |b| + 1
  {
    var x, y := Lead(a), Lead(b);
    var c := K.mul(x, K.inv(y));
    Laws(K, x, K.inv(y), y); Laws(K, y, K.inv(y), y); Laws(K, x, K.one, y);
    MulZero(K, y);
    assert K.mul(c, y) == x && c != K.zero;
    MonomialLead(K, c, |a| - |b|);
    MulLead(K, LeadQuotient(K, a, b), b);
    AddDropsLead(K, a, Mul(K, LeadQuotient(K, a, b), b));
  }

  ghost function DivMod<E(!new)>(K: Field<E>, a: seq<E>, b: seq<E>): (qr: (seq<E>, seq<E>))
    requires IsField(K) && Normal(K, a) && Normal(K, b) && b != []
    ensures Normal(K, qr.0) && Normal(K, qr.1) && |qr.1| < |b|
    ensures Add(K, Mul(K, qr.0, b), qr.1) == a
    decreases |a|
  {
    if |a| < |b| then ([], a)
    else
      var t := LeadQuotient(K, a, b);
      LeadQuotientCancels(K, a, b);
      var rest := DivMod(K, Add(K, a, Mul(K, t, b)), b);
      DivModStep(K, a, b, t, rest.0, rest.1);
      (Add(K, t, rest.0), rest.1)
  }

  lemma DivModStep<E(!new)>(K: Field<E>, a: seq<E>, b: seq<E>, t: seq<E>, q: seq<E>, r: seq<E>)
    requires IsField(K) && Normal(K, a) && Normal(K, b) && Normal(K, t) && Normal(K, q) && Normal(K, r)
    requires Add(K, Mul(K, q, b), r) == Add(K, a, Mul(K, t, b))
    ensures Add(K, Mul(K, Add(K, t, q), b), r) == a
  {
    MulAddLeft(K, t, q, b);
    AddAssoc(K, Mul(K, t, b), Mul(K, q, b), r);
    AddComm(K, a, Mul(K, t, b));
    AddCancel(K, Mul(K, t, b), a);
  }

  ghost function Rem<E(!new)>(K: Field<E>, a: seq<E>, b: seq<E>): (r: seq<E>)
    requires IsField(K) && Normal(K, a) && Normal(K, b) && b != []
    ensures Normal(K, r) && |r| < |b|
  {
    DivMod(K, a, b).1
  }

  // Quotient and remainder are the only pair with these two properties.
  lemma DivModUnique<E(!new)>(K: Field<E>, a: seq<E>, b: seq<E>, q: seq<E>, r: seq<E>)
    requires IsField(K) && Normal(K, a) && Normal(K, b) && b != [] && Normal(K, q) && Normal(K, r)
    requires Add(K, Mul(K, q, b), r) == a && |r| < |b|
    ensures DivMod(K, a, b) == (q, r)
  {
    var q', r' := DivMod(K, a, b).0, DivMod(K, a, b).1;
    // (q + q') b == r + r'
    var m, m' := Mul(K, q, b), Mul(K, q', b);
    AddCrossPoly(K, m, r, m', r');
    AddSelf(K, a);
    MulAddLeft(K, q, q', b);
    SumIsEmpty(K, Add(K, m, m'), Add(K, r, r'));
    if Add(K, q, q') != [] {
      MulLead(K, Add(K, q, q'), b);
      assert false;
    }
    SumIsEmpty(K, q, q');
    SumIsEmpty(K, r, r');
  }

  lemma SumIsEmpty<E(!new)>(K: Field<E>, p: seq<E>, q: seq<E>)
    requires IsField(K) && Normal(K, p) && Normal(K, q)
    ensures Add(K, p, q) == [] <==> p == q
  {
    AddCancel(K, p, q);
    AddSelf(K, p);
  }

  // ----- Divisibility -----

  ghost predicate IsMultiple<E(!new)>(K: Field<E>, k: seq<E>, d: seq<E>, p: seq<E>) {
    Normal(K, k) && Mul(K, k, d) == p
  }

  ghost predicate Divides<E(!new)>(K: Field<E>, d: seq<E>, p: seq<E>) {
    exists k :: IsMultiple(K, k, d, p)
  }

  lemma DividesSum<E(!new)>(K: Field<E>, d: seq<E>, p: seq<E>, q: seq<E>)
    requires IsField(K) && Normal(K, d) && Normal(K, p) && Normal(K, q)
    requires Divides(K, d, p) && Divides(K, d, q)
    ensures Divides(K, d, Add(K, p, q))
  {
    var k :| IsMultiple(K, k, d, p);
    var l :| IsMultiple(K, l, d, q);
    MulAddLeft(K, k, l, d);
    assert IsMultiple(K, Add(K, k, l), d, Add(K, p, q));
  }

  lemma DividesProduct<E(!new)>(K: Field<E>, d: seq<E>, p: seq<E>, q: seq<E>)
    requires IsField(K) && Normal(K, d) && Normal(K, p) && Normal(K, q)
    requires Divides(K, d, p)
    ensures Divides(K, d, Mul(K, q, p)) && Divides(K, d, Mul(K, p, q))
  {
    var k :| IsMultiple(K, k, d, p);
    MulAssoc(K, q, k, d);
    assert IsMultiple(K, Mul(K, q, k), d, Mul(K, q, p));
    MulComm(K, p, q);
  }

  lemma DividesTransitive<E(!new)>(K: Field<E>, d: seq<E>, e: seq<E>, p: seq<E>)
    requires IsField(K) && Normal(K, d) && Normal(K, e) && Normal(K, p)
    requires Divides(K, d, e) && Divides(K, e, p)
    ensures Divides(K, d, p)
  {
    var k :| IsMultiple(K, k, e, p);
    DividesProduct(K, d, e, k);
  }

  lemma DividesBasics<E(!new)>(K: Field<E>, d: seq<E>)
    requires IsField(K) && Normal(K, d)
    ensures Divides(K, d, d) && Divides(K, d, [])
  {
    MulOne(K, d);
    assert IsMultiple(K, One(K), d, d);
    assert IsMultiple(K, [], d, []);
  }

  lemma DividesLength<E(!new)>(K: Field<E>, d: seq<E>, p: seq<E>)
    requires IsField(K) && Normal(K, d) && Normal(K, p) && p != [] && Divides(K, d, p)
    ensures d != [] && |d| <= |p|
  {
    var k :| IsMultiple(K, k, d, p);
    MulIsEmptyIff(K, k, d);
    MulLead(K, k, d);
  }

  lemma RemIsEmptyIffDivides<E(!new)>(K: Field<E>, a: seq<E>, b: seq<E>)
    requires IsField(K) && Normal(K, a) && Normal(K, b) && b != []
    ensures Rem(K, a, b) == [] <==> Divides(K, b, a)
  {
    var (q, r) := DivMod(K, a, b);
    if r == [] {
      assert IsMultiple(K, q, b, a);
    }
    if Divides(K, b, a) {
      var k :| IsMultiple(K, k, b, a);
      DivModUnique(K, a, b, k, []);
    }
  }

  // ----- Monic polynomials -----

  ghost predicate IsMonic<E(!new)>(K: Field<E>, p: seq<E>) {
    p != [] && Lead(p) == K.one
  }

  ghost function Monic<E(!new)>(K: Field<E>, p: seq<E>): (r: seq<E>)
    ensures Normal(K, r)
  {
    if p == [] then [] else Scale(K, K.inv(Lead(p)), p)
  }

  lemma InverseNonZero<E(!new)>(K: Field<E>, a: E)
    requires IsField(K) && a != K.zero
    ensures K.inv(a) != K.zero && K.mul(K.inv(a), a) == K.one
  {
    Laws(K, a, K.inv(a), a);
    MulZero(K, a);
  }

  lemma MonicIsMonic<E(!new)>(K: Field<E>, p: seq<E>)
    requires IsField(K) && Normal(K, p) && p != []
    ensures IsMonic(K, Monic(K, p)) && Normal(K, Monic(K, p)) && |Monic(K, p)| == |p|
    ensures IsMonic(K, p) ==> Monic(K, p) == p
  {
    var a := Lead(p);
    InverseNonZero(K, a);
    ScaleLead(K, K.inv(a), p);
    if a == K.one {
      Laws(K, K.inv(a), K.one, a);
      ScaleUnits(K, p);
    }
  }

  // Scaling by a non-zero constant changes neither divisors nor multiples.
  lemma ScaleAssociates<E(!new)>(K: Field<E>, c: E, p: seq<E>)
    requires IsField(K) && Normal(K, p) && c != K.zero
    ensures Divides(K, p, Scale(K, c, p)) && Divides(K, Scale(K, c, p), p)
  {
    assert [c][1..] == [];
    assert IsMultiple(K, [c], p, Scale(K, c, p));
    var d := K.inv(c);
    InverseNonZero(K, c);
    assert [d][1..] == [];
    ScaleScale(K, d, c, p);
    ScaleUnits(K, p);
    assert IsMultiple(K, [d], Scale(K, c, p), p);
  }

  lemma MonicAssociates<E(!new)>(K: Field<E>, p: seq<E>)
    requires IsField(K) && Normal(K, p)
    ensures Divides(K, p, Monic(K, p)) && Divides(K, Monic(K, p), p)
  {
    if p == [] {
      DividesBasics(K, p);
    } else {
      InverseNonZero(K, Lead(p));
      ScaleAssociates(K, K.inv(Lead(p)), p);
    }
  }

  // Monic polynomials that divide each other are equal.
  lemma MonicAntisymmetric<E(!new)>(K: Field<E>, p: seq<E>, q: seq<E>)
    requires IsField(K) && Normal(K, p) && Normal(K, q) && IsMonic(K, p) && IsMonic(K, q)
    requires Divides(K, p, q) && |q| <= |p|
    ensures p == q
  {
    var k :| IsMultiple(K, k, p, q);
    MulIsEmptyIff(K, k, p);
    MulLead(K, k, p);
    Laws(K, Lead(k), K.one, K.one);
    assert k == One(K);
    MulOne(K, p);
  }

  // ----- Greatest common divisors -----

  ghost function Gcd<E(!new)>(K: Field<E>, a: seq<E>, b: seq<E>): (g: seq<E>)
    requires IsField(K) && Normal(K, a) && Normal(K, b)
    ensures Normal(K, g) && (a != [] || b != [] ==> g != [])
    decreases |b|
  {
    if b == [] then a else Gcd(K, b, Rem(K, a, b))
  }

  lemma {:induction false} GcdDividesBoth<E(!new)>(K: Field<E>, a: seq<E>, b: seq<E>)
    requires IsField(K) && Normal(K, a) && Normal(K, b)
    ensures Divides(K, Gcd(K, a, b), a) && Divides(K, Gcd(K, a, b), b)
    decreases |b|
  {
    var g := Gcd(K, a, b);
    if b == [] {
      DividesBasics(K, a);
    } else {
      var (q, r) := DivMod(K, a, b);
      GcdDividesBoth(K, b, r);
      DividesProduct(K, g, b, q);
      DividesSum(K, g, Mul(K, q, b), r);
    }
  }

  // u a + v b
  ghost function Combination<E(!new)>(K: Field<E>, u: seq<E>, a: seq<E>, v: seq<E>, b: seq<E>): seq<E> {
    Add(K, Mul(K, u, a), Mul(K, v, b))
  }

  // The extended algorithm: the gcd is a combination of the two inputs.
  lemma {:induction false} Bezout<E(!new)>(K: Field<E>, a: seq<E>, b: seq<E>) returns (u: seq<E>, v: seq<E>)
    requires IsField(K) && Normal(K, a) && Normal(K, b)
    ensures Normal(K, u) && Normal(K, v) && Combination(K, u, a, v, b) == Gcd(K, a, b)
    decreases |b|
  {
    if b == [] {
      u, v := One(K), [];
      MulOne(K, a);
    } else {
      var (q, r) := DivMod(K, a, b);
      var s, t := Bezout(K, b, r);
      // s b + t r == s b + t (a + q b) == t a + (s + t q) b
      u, v := t, Add(K, s, Mul(K, t, q));
      var m := Mul(K, q, b);
      AddCancel(K, m, r);
      AddComm(K, m, a);
      assert r == Add(K, a, m);
      MulAddRight(K, t, a, m);
      MulAssoc(K, t, q, b);
      MulAddLeft(K, s, Mul(K, t, q), b);
      var sb, ta, tm := Mul(K, s, b), Mul(K, t, a), Mul(K, t, m);
      AddAssoc(K, sb, ta, tm);
      AddComm(K, sb, ta);
      AddAssoc(K, ta, sb, tm);
    }
  }

  lemma GcdIsGreatest<E(!new)>(K: Field<E>, a: seq<E>, b: seq<E>, d: seq<E>)
    requires IsField(K) && Normal(K, a) && Normal(K, b) && Normal(K, d)
    requires Divides(K, d, a) && Divides(K, d, b)
    ensures Divides(K, d, Gcd(K, a, b))
  {
    var u, v := Bezout(K, a, b);
    DividesProduct(K, d, a, u);
    DividesProduct(K, d, b, v);
    DividesSum(K, d, Mul(K, u, a), Mul(K, v, b));
  }

  // After normalisation to a monic polynomial the gcd is determined by being
  // a common divisor that every common divisor divides.
  lemma MonicGcdUnique<E(!new)>(K: Field<E>, a: seq<E>, b: seq<E>, g: seq<E>)
    requires IsField(K) && Normal(K, a) && Normal(K, b) && (a != [] || b != [])
    requires Normal(K, g) && IsMonic(K, g) && Divides(K, g, a) && Divides(K, g, b)
    requires forall d :: Normal(K, d) && Divides(K, d, a) && Divides(K, d, b) ==> Divides(K, d, g)
    ensures g == Monic(K, Gcd(K, a, b))
  {
    var h := Gcd(K, a, b);
    var m := Monic(K, h);
    MonicIsMonic(K, h);
    MonicAssociates(K, h);
    GcdDividesBoth(K, a, b);
    GcdIsGreatest(K, a, b, g);
    DividesTransitive(K, g, h, m);
    DividesTransitive(K, m, h, a);
    DividesTransitive(K, m, h, b);
    assert Divides(K, m, g);
    DividesLength(K, m, g);
    MonicAntisymmetric(K, g, m);
  }

  // ----- Congruence -----

  ghost predicate Congruent<E(!new)>(K: Field<E>, a: seq<E>, b: seq<E>, m: seq<E>) {
    Divides(K, m, Add(K, a, b))
  }

  lemma CongruentMul<E(!new)>(K: Field<E>, a: seq<E>, b: seq<E>, c: seq<E>, d: seq<E>, m: seq<E>)
    requires IsField(K) && Normal(K, a) && Normal(K, b) && Normal(K, c) && Normal(K, d) && Normal(K, m)
    requires Congruent(K, a, b, m) && Congruent(K, c, d, m)
    ensures Congruent(K, Mul(K, a, c), Mul(K, b, d), m)
  {
    // a c + b d == (a + b) c + b (c + d)
    DividesProduct(K, m, Add(K, a, b), c);
    DividesProduct(K, m, Add(K, c, d), b);
    MulAddLeft(K, a, b, c);
    MulAddRight(K, b, c, d);
    var ac, bc, bd := Mul(K, a, c), Mul(K, b, c), Mul(K, b, d);
    DividesSum(K, m, Add(K, ac, bc), Add(K, bc, bd));
    AddAssoc(K, ac, bc, Add(K, bc, bd));
    AddCancel(K, bc, bd);
  }

  lemma CongruentTransitive<E(!new)>(K: Field<E>, a: seq<E>, b: seq<E>, c: seq<E>, m: seq<E>)
    requires IsField(K) && Normal(K, a) && Normal(K, b) && Normal(K, c) && Normal(K, m)
    requires Congruent(K, a, b, m) && Congruent(K, b, c, m)
    ensures Congruent(K, a, c, m)
  {
    DividesSum(K, m, Add(K, a, b), Add(K, b, c));
    AddAssoc(K, a, b, Add(K, b, c));
    AddCancel(K, b, c);
  }

  lemma CongruentBasics<E(!new)>(K: Field<E>, a: seq<E>, m: seq<E>)
    requires IsField(K) && Normal(K, a) && Normal(K, m)
    ensures Congruent(K, a, a, m)
    ensures m != [] ==> Congruent(K, Rem(K, a, m), a, m)
  {
    AddSelf(K, a);
    DividesBasics(K, m);
    if m != [] {
      var (q, r) := DivMod(K, a, m);
      // r + (q m + r) == q m
      AddComm(K, Mul(K, q, m), r);
      AddCancel(K, r, Mul(K, q, m));
      assert IsMultiple(K, q, m, Add(K, r, a));
    }
  }
}
