// Powers in K[X] and their congruences: the specification of the modular
// square-and-multiply loop.
module PolynomialPowers {
  import opened Fields
  import opened PolynomialRing
  import opened PolynomialDivision

  ghost function Power<E(!new)>(K: Field<E>, p: seq<E>, n: nat): (r: seq<E>)
    ensures IsField(K) ==> Normal(K, r)
  {
    if n == 0 then One(K) else Mul(K, p, Power(K, p, n - 1))
  }

  lemma PowerZero<E(!new)>(K: Field<E>, p: seq<E>)
    ensures Power(K, p, 0) == One(K)
  {
  }

  lemma PowerStep<E(!new)>(K: Field<E>, p: seq<E>, n: nat)
    ensures Power(K, p, n + 1) == Mul(K, p, Power(K, p, n))
  {
  }

  lemma {:induction false} PowerOfSquare<E(!new)>(K: Field<E>, p: seq<E>, n: nat)
    requires IsField(K) && Normal(K, p)
    ensures Power(K, Mul(K, p, p), n) == Power(K, p, 2 * n)
  {
    hide Mul, Normal;
    if n > 0 {
      PowerOfSquare(K, p, n - 1);
      MulAssoc(K, p, p, Power(K, p, 2 * n - 2));
      assert Power(K, p, 2 * n - 1) == Mul(K, p, Power(K, p, 2 * n - 2));
    }
  }

  lemma {:induction false} CongruentPower<E(!new)>(K: Field<E>, p: seq<E>, q: seq<E>, n: nat, m: seq<E>)
    requires IsField(K) && Normal(K, p) && Normal(K, q) && Normal(K, m) && Congruent(K, p, q, m)
    ensures Congruent(K, Power(K, p, n), Power(K, q, n), m)
  {
    hide Mul, Normal, Congruent;
    if n == 0 {
      CongruentBasics(K, One(K), m);
    } else {
      CongruentPower(K, p, q, n - 1, m);
      CongruentMul(K, p, q, Power(K, p, n - 1), Power(K, q, n - 1), m);
    }
  }

  // v^n in the field itself.
  ghost function ElementPower<E(!new)>(K: Field<E>, v: E, n: nat): E {
    if n == 0 then K.one else K.mul(v, ElementPower(K, v, n - 1))
  }

  lemma {:induction false} ElementPowerUnits<E(!new)>(K: Field<E>, n: nat)
    requires IsField(K) && n > 0
    ensures ElementPower(K, K.zero, n) == K.zero && ElementPower(K, K.one, n) == K.one
  {
    MulZero(K, ElementPower(K, K.zero, n - 1));
    Laws(K, K.one, K.one, K.one);
    if n > 1 {
      ElementPowerUnits(K, n - 1);
    }
  }

  // Evaluation commutes with powers.
  lemma {:induction false} EvalPower<E(!new)>(K: Field<E>, p: seq<E>, n: nat, x: E)
    requires IsField(K)
    ensures Eval(K, Power(K, p, n), x) == ElementPower(K, Eval(K, p, x), n)
  {
    if n == 0 {
      MulZero(K, x);
      Laws(K, K.one, K.zero, K.one);
      assert One(K)[1..] == [];
    } else {
      EvalPower(K, p, n - 1, x);
      EvalMul(K, p, Power(K, p, n - 1), x);
    }
  }

  // One round of the loop keeps out * base^exponent modulo m, whether or not
  // the round multiplies (bit) before squaring and reducing.
  lemma SquareStep<E(!new)>(K: Field<E>, out: seq<E>, base: seq<E>, bit: bool, half: nat, m: seq<E>)
    requires IsField(K) && Normal(K, out) && Normal(K, base) && Normal(K, m) && m != []
    ensures var n := 2 * half + if bit then 1 else 0;
            var out' := if bit then Mul(K, out, base) else out;
            Congruent(K, Mul(K, Rem(K, out', m), Power(K, Rem(K, Mul(K, base, base), m), half)),
                      Mul(K, out, Power(K, base, n)), m)
  {
    hide Mul, Normal, Congruent, Rem;
    var square := Mul(K, base, base);
    var out' := if bit then Mul(K, out, base) else out;
    CongruentBasics(K, square, m);
    CongruentPower(K, Rem(K, square, m), square, half, m);
    CongruentBasics(K, out', m);
    CongruentMul(K, Rem(K, out', m), out', Power(K, Rem(K, square, m), half), Power(K, square, half), m);
    PowerOfSquare(K, base, half);
    MulAssoc(K, out, base, Power(K, base, 2 * half));
  }

  // A reduced polynomial is determined by its class.
  lemma ReducedIsRem<E(!new)>(K: Field<E>, r: seq<E>, a: seq<E>, m: seq<E>)
    requires IsField(K) && Normal(K, r) && Normal(K, a) && Normal(K, m) && m != []
    requires Congruent(K, r, a, m) && |r| < |m|
    ensures r == Rem(K, a, m)
  {
    var k :| IsMultiple(K, k, m, Add(K, r, a));
    AddCancel(K, r, a);
    AddComm(K, r, Add(K, r, a));
    DivModUnique(K, a, m, k, r);
  }
}
