// The ring K[X]: coefficient sequences, lowest degree first, without leading
// zeros. These functions specify GCM::CantorZassenhaus::Polynomial.
module PolynomialRing {
  import opened Fields

  ghost predicate Normal<E(!new)>(K: Field<E>, p: seq<E>) {
    p != [] ==> p[|p| - 1] != K.zero
  }

  // a + X * p
  ghost function Cons<E(!new)>(K: Field<E>, a: E, p: seq<E>): (r: seq<E>)
    ensures Normal(K, p) ==> Normal(K, r)
  {
    if a == K.zero && p == [] then [] else [a] + p
  }

  ghost function Norm<E(!new)>(K: Field<E>, p: seq<E>): (r: seq<E>)
    ensures Normal(K, r) && |r| <= |p|
  {
    if p == [] then [] else Cons(K, p[0], Norm(K, p[1..]))
  }

  ghost function Add<E(!new)>(K: Field<E>, p: seq<E>, q: seq<E>): (r: seq<E>)
    ensures Normal(K, p) && Normal(K, q) ==> Normal(K, r)
    ensures |r| <= |p| || |r| <= |q|
  {
    if p == [] then q
    else if q == [] then p
    else Cons(K, K.add(p[0], q[0]), Add(K, p[1..], q[1..]))
  }

  ghost function Scale<E(!new)>(K: Field<E>, c: E, p: seq<E>): (r: seq<E>)
    ensures Normal(K, r) && |r| <= |p|
  {
    if p == [] then [] else Cons(K, K.mul(c, p[0]), Scale(K, c, p[1..]))
  }

  ghost function Mul<E(!new)>(K: Field<E>, p: seq<E>, q: seq<E>): (r: seq<E>)
    ensures Normal(K, r)
  {
    if p == [] then []
    else Add(K, Scale(K, p[0], q), Cons(K, K.zero, Mul(K, p[1..], q)))
  }

  ghost function Eval<E(!new)>(K: Field<E>, p: seq<E>, x: E): E {
    if p == [] then K.zero else K.add(p[0], K.mul(x, Eval(K, p[1..], x)))
  }

  ghost function One<E(!new)>(K: Field<E>): seq<E> { [K.one] }

  // The leading coefficient.
  ghost function Lead<E(!new)>(p: seq<E>): E
    requires p != []
  {
    p[|p| - 1]
  }

  // ----- Normal forms -----

  lemma ConsParts<E(!new)>(K: Field<E>, p: seq<E>)
    requires Normal(K, p) && p != []
    ensures p == Cons(K, p[0], p[1..]) && Normal(K, p[1..])
  {
  }

  lemma {:induction false} NormNormal<E(!new)>(K: Field<E>, p: seq<E>)
    requires Normal(K, p)
    ensures Norm(K, p) == p
  {
    if p != [] {
      ConsParts(K, p);
      NormNormal(K, p[1..]);
    }
  }

  // ----- Addition -----

  lemma AddCons<E(!new)>(K: Field<E>, a: E, p: seq<E>, b: E, q: seq<E>)
    requires IsField(K) && Normal(K, p) && Normal(K, q)
    ensures Add(K, Cons(K, a, p), Cons(K, b, q)) == Cons(K, K.add(a, b), Add(K, p, q))
  {
    Laws(K, a, b, K.zero);
    Laws(K, b, a, K.zero);
  }

  lemma {:induction false} AddComm<E(!new)>(K: Field<E>, p: seq<E>, q: seq<E>)
    requires IsField(K)
    ensures Add(K, p, q) == Add(K, q, p)
  {
    if p != [] && q != [] {
      Laws(K, p[0], q[0], K.zero);
      AddComm(K, p[1..], q[1..]);
    }
  }

  lemma {:induction false} AddAssoc<E(!new)>(K: Field<E>, p: seq<E>, q: seq<E>, r: seq<E>)
    requires IsField(K) && Normal(K, p) && Normal(K, q) && Normal(K, r)
    ensures Add(K, Add(K, p, q), r) == Add(K, p, Add(K, q, r))
  {
    if p != [] && q != [] && r != [] {
      ConsParts(K, p); ConsParts(K, q); ConsParts(K, r);
      AddAssoc(K, p[1..], q[1..], r[1..]);
      Laws(K, p[0], q[0], r[0]);
      AddCons(K, K.add(p[0], q[0]), Add(K, p[1..], q[1..]), r[0], r[1..]);
      AddCons(K, p[0], p[1..], K.add(q[0], r[0]), Add(K, q[1..], r[1..]));
    }
  }

  lemma {:induction false} AddSelf<E(!new)>(K: Field<E>, p: seq<E>)
    requires IsField(K)
    ensures Add(K, p, p) == []
  {
    if p != [] {
      Laws(K, p[0], p[0], K.zero);
      AddSelf(K, p[1..]);
    }
  }

  lemma AddCrossPoly<E(!new)>(K: Field<E>, p: seq<E>, q: seq<E>, r: seq<E>, s: seq<E>)
    requires IsField(K) && Normal(K, p) && Normal(K, q) && Normal(K, r) && Normal(K, s)
    ensures Add(K, Add(K, p, q), Add(K, r, s)) == Add(K, Add(K, p, r), Add(K, q, s))
  {
    AddAssoc(K, p, q, Add(K, r, s));
    AddAssoc(K, q, r, s);
    AddComm(K, q, r);
    AddAssoc(K, r, q, s);
    AddAssoc(K, p, r, Add(K, q, s));
  }

  // p + (p + q) == q
  lemma AddCancel<E(!new)>(K: Field<E>, p: seq<E>, q: seq<E>)
    requires IsField(K) && Normal(K, p) && Normal(K, q)
    ensures Add(K, p, Add(K, p, q)) == q && Add(K, Add(K, q, p), p) == q
  {
    AddAssoc(K, p, p, q);
    AddAssoc(K, q, p, p);
    AddSelf(K, p);
  }

  // ----- Scaling -----

  lemma ScaleCons<E(!new)>(K: Field<E>, c: E, a: E, p: seq<E>)
    requires IsField(K)
    ensures Scale(K, c, Cons(K, a, p)) == Cons(K, K.mul(c, a), Scale(K, c, p))
  {
    MulZero(K, c);
  }

  lemma {:induction false} ScaleAdd<E(!new)>(K: Field<E>, c: E, p: seq<E>, q: seq<E>)
    requires IsField(K) && Normal(K, p) && Normal(K, q)
    ensures Scale(K, c, Add(K, p, q)) == Add(K, Scale(K, c, p), Scale(K, c, q))
  {
    if p != [] && q != [] {
      ConsParts(K, p); ConsParts(K, q);
      ScaleAdd(K, c, p[1..], q[1..]);
      Laws(K, c, p[0], q[0]);
      ScaleCons(K, c, K.add(p[0], q[0]), Add(K, p[1..], q[1..]));
      AddCons(K, K.mul(c, p[0]), Scale(K, c, p[1..]), K.mul(c, q[0]), Scale(K, c, q[1..]));
    }
  }

  lemma {:induction false} ScaleSum<E(!new)>(K: Field<E>, c: E, d: E, p: seq<E>)
    requires IsField(K)
    ensures Scale(K, K.add(c, d), p) == Add(K, Scale(K, c, p), Scale(K, d, p))
  {
    if p != [] {
      ScaleSum(K, c, d, p[1..]);
      Laws(K, p[0], c, d); Laws(K, c, p[0], d); Laws(K, d, p[0], c); Laws(K, K.add(c, d), p[0], d);
      AddCons(K, K.mul(c, p[0]), Scale(K, c, p[1..]), K.mul(d, p[0]), Scale(K, d, p[1..]));
    }
  }

  lemma {:induction false} ScaleScale<E(!new)>(K: Field<E>, c: E, d: E, p: seq<E>)
    requires IsField(K)
    ensures Scale(K, c, Scale(K, d, p)) == Scale(K, K.mul(c, d), p)
  {
    if p != [] {
      ScaleScale(K, c, d, p[1..]);
      Laws(K, c, d, p[0]);
      ScaleCons(K, c, K.mul(d, p[0]), Scale(K, d, p[1..]));
    }
  }

  lemma {:induction false} ScaleUnits<E(!new)>(K: Field<E>, p: seq<E>)
    requires IsField(K)
    ensures Scale(K, K.zero, p) == []
    ensures Normal(K, p) ==> Scale(K, K.one, p) == p
  {
    if p != [] {
      MulZero(K, p[0]);
      Laws(K, p[0], K.one, K.zero);
      ScaleUnits(K, p[1..]);
      if Normal(K, p) { ConsParts(K, p); }
    }
  }

  // ----- Multiplication -----

  lemma MulCons<E(!new)>(K: Field<E>, a: E, p: seq<E>, q: seq<E>)
    requires IsField(K)
    ensures Mul(K, Cons(K, a, p), q) == Add(K, Scale(K, a, q), Cons(K, K.zero, Mul(K, p, q)))
  {
    ScaleUnits(K, q);
  }

  lemma {:induction false} MulEmpty<E(!new)>(K: Field<E>, p: seq<E>)
    ensures Mul(K, p, []) == []
  {
    if p != [] {
      MulEmpty(K, p[1..]);
    }
  }

  lemma ShiftAdd<E(!new)>(K: Field<E>, p: seq<E>, q: seq<E>)
    requires IsField(K) && Normal(K, p) && Normal(K, q)
    ensures Cons(K, K.zero, Add(K, p, q)) == Add(K, Cons(K, K.zero, p), Cons(K, K.zero, q))
  {
    Laws(K, K.zero, K.zero, K.zero);
    AddCons(K, K.zero, p, K.zero, q);
  }

  lemma {:induction false} MulAddLeft<E(!new)>(K: Field<E>, p: seq<E>, q: seq<E>, r: seq<E>)
    requires IsField(K) && Normal(K, p) && Normal(K, q) && Normal(K, r)
    ensures Mul(K, Add(K, p, q), r) == Add(K, Mul(K, p, r), Mul(K, q, r))
  {
    if p != [] && q != [] {
      ConsParts(K, p); ConsParts(K, q);
      var p', q' := p[1..], q[1..];
      MulAddLeft(K, p', q', r);
      ScaleSum(K, p[0], q[0], r);
      MulCons(K, K.add(p[0], q[0]), Add(K, p', q'), r);
      ShiftAdd(K, Mul(K, p', r), Mul(K, q', r));
      var s, t := Cons(K, K.zero, Mul(K, p', r)), Cons(K, K.zero, Mul(K, q', r));
      AddCrossPoly(K, Scale(K, p[0], r), Scale(K, q[0], r), s, t);
    }
  }

  lemma {:induction false} MulAddRight<E(!new)>(K: Field<E>, p: seq<E>, q: seq<E>, r: seq<E>)
    requires IsField(K) && Normal(K, p) && Normal(K, q) && Normal(K, r)
    ensures Mul(K, p, Add(K, q, r)) == Add(K, Mul(K, p, q), Mul(K, p, r))
  {
    if p != [] {
      var p' := p[1..];
      ConsParts(K, p);
      MulAddRight(K, p', q, r);
      ScaleAdd(K, p[0], q, r);
      ShiftAdd(K, Mul(K, p', q), Mul(K, p', r));
      var s, t := Cons(K, K.zero, Mul(K, p', q)), Cons(K, K.zero, Mul(K, p', r));
      AddCrossPoly(K, Scale(K, p[0], q), Scale(K, p[0], r), s, t);
    }
  }

  lemma {:induction false} MulScale<E(!new)>(K: Field<E>, c: E, p: seq<E>, q: seq<E>)
    requires IsField(K) && Normal(K, p) && Normal(K, q)
    ensures Mul(K, Scale(K, c, p), q) == Scale(K, c, Mul(K, p, q))
  {
    if p != [] {
      ConsParts(K, p);
      MulScale(K, c, p[1..], q);
      MulCons(K, K.mul(c, p[0]), Scale(K, c, p[1..]), q);
      ScaleScale(K, c, p[0], q);
      MulZero(K, c);
      ScaleCons(K, c, K.zero, Mul(K, p[1..], q));
      ScaleAdd(K, c, Scale(K, p[0], q), Cons(K, K.zero, Mul(K, p[1..], q)));
    }
  }

  // p * (b + X q) == b p + X (p q)
  lemma {:induction false} MulConsRight<E(!new)>(K: Field<E>, p: seq<E>, b: E, q: seq<E>)
    requires IsField(K) && Normal(K, p) && Normal(K, q)
    ensures Mul(K, p, Cons(K, b, q)) == Add(K, Scale(K, b, p), Cons(K, K.zero, Mul(K, p, q)))
  {
    if p != [] {
      var p' := p[1..];
      ConsParts(K, p);
      MulConsRight(K, p', b, q);
      var m := Mul(K, p', q);
      ScaleCons(K, p[0], b, q);
      Laws(K, p[0], b, K.zero);
      var bp := Scale(K, b, p');
      AddCons(K, K.mul(p[0], b), Scale(K, p[0], q), K.zero, Add(K, bp, Cons(K, K.zero, m)));
      AddCons(K, K.mul(b, p[0]), bp, K.zero, Add(K, Scale(K, p[0], q), Cons(K, K.zero, m)));
      AddAssoc(K, Scale(K, p[0], q), bp, Cons(K, K.zero, m));
      AddComm(K, Scale(K, p[0], q), bp);
      AddAssoc(K, bp, Scale(K, p[0], q), Cons(K, K.zero, m));
    }
  }

  lemma {:induction false} MulComm<E(!new)>(K: Field<E>, p: seq<E>, q: seq<E>)
    requires IsField(K) && Normal(K, p) && Normal(K, q)
    ensures Mul(K, p, q) == Mul(K, q, p)
  {
    if q == [] {
      MulEmpty(K, p);
    } else {
      ConsParts(K, q);
      MulConsRight(K, p, q[0], q[1..]);
      MulComm(K, p, q[1..]);
    }
  }

  lemma {:induction false} MulAssoc<E(!new)>(K: Field<E>, p: seq<E>, q: seq<E>, r: seq<E>)
    requires IsField(K) && Normal(K, p) && Normal(K, q) && Normal(K, r)
    ensures Mul(K, Mul(K, p, q), r) == Mul(K, p, Mul(K, q, r))
  {
    if p != [] {
      ConsParts(K, p);
      var m := Mul(K, p[1..], q);
      MulAssoc(K, p[1..], q, r);
      MulAddLeft(K, Scale(K, p[0], q), Cons(K, K.zero, m), r);
      MulScale(K, p[0], q, r);
      MulCons(K, K.zero, m, r);
      ScaleUnits(K, r);
    }
  }

  lemma MulOne<E(!new)>(K: Field<E>, p: seq<E>)
    requires IsField(K) && Normal(K, p)
    ensures Mul(K, One(K), p) == p == Mul(K, p, One(K)) && Normal(K, One(K))
  {
    ScaleUnits(K, p);
    assert One(K)[1..] == [];
    MulComm(K, p, One(K));
  }

  // ----- Degrees -----

  lemma LeadCons<E(!new)>(K: Field<E>, a: E, p: seq<E>)
    requires p != []
    ensures |Cons(K, a, p)| == |p| + 1 && Lead(Cons(K, a, p)) == Lead(p)
  {
  }

  lemma {:induction false} ScaleLead<E(!new)>(K: Field<E>, c: E, p: seq<E>)
    requires IsField(K) && Normal(K, p) && p != [] && c != K.zero
    ensures |Scale(K, c, p)| == |p| && Lead(Scale(K, c, p)) == K.mul(c, Lead(p))
  {
    NoZeroDivisors(K, c, Lead(p));
    if |p| > 1 {
      ScaleLead(K, c, p[1..]);
      LeadCons(K, K.mul(c, p[0]), Scale(K, c, p[1..]));
    }
  }

  lemma {:induction false} AddLead<E(!new)>(K: Field<E>, p: seq<E>, q: seq<E>)
    requires IsField(K) && |p| < |q|
    ensures |Add(K, p, q)| == |q| && Lead(Add(K, p, q)) == Lead(q)
  {
    if p != [] {
      AddLead(K, p[1..], q[1..]);
      LeadCons(K, K.add(p[0], q[0]), Add(K, p[1..], q[1..]));
    }
  }

  lemma MulSingle<E(!new)>(K: Field<E>, c: E, q: seq<E>)
    ensures Mul(K, [c], q) == Scale(K, c, q)
  {
  }

  // A product of non-zero polynomials is non-zero, its degree is the sum of
  // the degrees and its leading coefficient the product of the leading ones.
  lemma {:induction false} MulLead<E(!new)>(K: Field<E>, p: seq<E>, q: seq<E>)
    requires IsField(K) && Normal(K, p) && Normal(K, q) && p != [] && q != []
    ensures |Mul(K, p, q)| == |p| + |q| - 1 && Lead(Mul(K, p, q)) == K.mul(Lead(p), Lead(q))
  {
    hide Scale, Cons;
    var p' := p[1..];
    if p' == [] {
      ScaleLead(K, p[0], q);
      MulSingle(K, p[0], q);
      assert p == [p[0]];
    } else {
      hide Add;
      ConsParts(K, p);
      MulLead(K, p', q);
      LeadCons(K, K.zero, Mul(K, p', q));
      AddLead(K, Scale(K, p[0], q), Cons(K, K.zero, Mul(K, p', q)));
    }
  }

  lemma MulIsEmptyIff<E(!new)>(K: Field<E>, p: seq<E>, q: seq<E>)
    requires IsField(K) && Normal(K, p) && Normal(K, q)
    ensures Mul(K, p, q) == [] <==> p == [] || q == []
  {
    if p != [] && q != [] {
      MulLead(K, p, q);
    }
    MulEmpty(K, p);
  }

  lemma MulCancel<E(!new)>(K: Field<E>, p: seq<E>, q: seq<E>, r: seq<E>)
    requires IsField(K) && Normal(K, p) && Normal(K, q) && Normal(K, r) && r != []
    requires Mul(K, p, r) == Mul(K, q, r)
    ensures p == q
  {
    MulAddLeft(K, p, q, r);
    AddSelf(K, Mul(K, p, r));
    MulIsEmptyIff(K, Add(K, p, q), r);
    AddCancel(K, p, q);
  }

  // ----- Evaluation is a ring homomorphism -----

  lemma EvalCons<E(!new)>(K: Field<E>, a: E, p: seq<E>, x: E)
    requires IsField(K)
    ensures Eval(K, Cons(K, a, p), x) == K.add(a, K.mul(x, Eval(K, p, x)))
  {
    MulZero(K, x);
    Laws(K, K.zero, K.zero, K.zero);
  }

  lemma {:induction false} EvalNorm<E(!new)>(K: Field<E>, p: seq<E>, x: E)
    requires IsField(K)
    ensures Eval(K, Norm(K, p), x) == Eval(K, p, x)
  {
    if p != [] {
      EvalNorm(K, p[1..], x);
      EvalCons(K, p[0], Norm(K, p[1..]), x);
    }
  }

  lemma {:induction false} EvalAdd<E(!new)>(K: Field<E>, p: seq<E>, q: seq<E>, x: E)
    requires IsField(K)
    ensures Eval(K, Add(K, p, q), x) == K.add(Eval(K, p, x), Eval(K, q, x))
  {
    Laws(K, Eval(K, p, x), K.zero, K.zero);
    Laws(K, K.zero, Eval(K, q, x), K.zero);
    Laws(K, Eval(K, q, x), K.zero, K.zero);
    if p != [] && q != [] {
      var s, t := Eval(K, p[1..], x), Eval(K, q[1..], x);
      EvalAdd(K, p[1..], q[1..], x);
      EvalCons(K, K.add(p[0], q[0]), Add(K, p[1..], q[1..]), x);
      Laws(K, x, s, t);
      AddCross(K, p[0], q[0], K.mul(x, s), K.mul(x, t));
    }
  }

  lemma {:induction false} EvalScale<E(!new)>(K: Field<E>, c: E, p: seq<E>, x: E)
    requires IsField(K)
    ensures Eval(K, Scale(K, c, p), x) == K.mul(c, Eval(K, p, x))
  {
    MulZero(K, c);
    if p != [] {
      var s := Eval(K, p[1..], x);
      EvalScale(K, c, p[1..], x);
      EvalCons(K, K.mul(c, p[0]), Scale(K, c, p[1..]), x);
      Laws(K, c, p[0], K.mul(x, s));
      Laws(K, c, x, s); Laws(K, x, c, s);
    }
  }

  lemma {:induction false} EvalMul<E(!new)>(K: Field<E>, p: seq<E>, q: seq<E>, x: E)
    requires IsField(K)
    ensures Eval(K, Mul(K, p, q), x) == K.mul(Eval(K, p, x), Eval(K, q, x))
  {
    var v := Eval(K, q, x);
    MulZero(K, v);
    if p != [] {
      var s := Eval(K, p[1..], x);
      var m := Mul(K, p[1..], q);
      EvalMul(K, p[1..], q, x);
      EvalScale(K, p[0], q, x);
      EvalCons(K, K.zero, m, x);
      EvalAdd(K, Scale(K, p[0], q), Cons(K, K.zero, m), x);
      Laws(K, K.mul(x, K.mul(s, v)), K.zero, K.zero);
      Laws(K, K.zero, K.mul(x, K.mul(s, v)), K.zero);
      Laws(K, x, s, v);
      Laws(K, v, p[0], K.mul(x, s));
      Laws(K, K.mul(x, s), v, v); Laws(K, p[0], v, v); Laws(K, K.add(p[0], K.mul(x, s)), v, v);
    }
  }
}
