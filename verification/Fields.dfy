// Fields of characteristic two, as plain records of operations.
//
// The ring K[X] and everything built on it is developed for an arbitrary such
// field; module GcmField supplies the one field the program uses, GF(2^128),
// and proves that it satisfies these laws.
module Fields {

  datatype Field<!E(!new)> = Field(zero: E, one: E, add: (E, E) -> E, mul: (E, E) -> E, inv: E -> E)

  // The laws at one triple of elements. Naming the instance keeps the
  // quantifier in IsField from being instantiated except where a proof asks.
  ghost predicate LawsAt<E(!new)>(K: Field<E>, a: E, b: E, c: E) {
    && K.add(a, b) == K.add(b, a)
    && K.add(K.add(a, b), c) == K.add(a, K.add(b, c))
    && K.add(a, K.zero) == a
    && K.add(a, a) == K.zero
    && K.mul(a, b) == K.mul(b, a)
    && K.mul(K.mul(a, b), c) == K.mul(a, K.mul(b, c))
    && K.mul(a, K.one) == a
    && K.mul(a, K.add(b, c)) == K.add(K.mul(a, b), K.mul(a, c))
    && (a != K.zero ==> K.mul(a, K.inv(a)) == K.one)
  }

  ghost predicate IsField<E(!new)>(K: Field<E>) {
    K.zero != K.one && K.inv(K.zero) == K.zero && forall a, b, c :: LawsAt(K, a, b, c)
  }

  lemma Laws<E(!new)>(K: Field<E>, a: E, b: E, c: E)
    requires IsField(K)
    ensures LawsAt(K, a, b, c)
  {
  }

  lemma MulZero<E(!new)>(K: Field<E>, a: E)
    requires IsField(K)
    ensures K.mul(a, K.zero) == K.zero == K.mul(K.zero, a)
  {
    Laws(K, a, K.zero, K.zero);
    Laws(K, K.zero, a, a);
    Laws(K, K.mul(a, K.zero), a, a);
  }

  // A sum of two sums may be regrouped crosswise.
  lemma AddCross<E(!new)>(K: Field<E>, a: E, b: E, c: E, d: E)
    requires IsField(K)
    ensures K.add(K.add(a, b), K.add(c, d)) == K.add(K.add(a, c), K.add(b, d))
  {
    Laws(K, a, b, K.add(c, d));
    Laws(K, b, c, d);
    Laws(K, c, b, d);
    Laws(K, a, c, K.add(b, d));
  }

  lemma NoZeroDivisors<E(!new)>(K: Field<E>, a: E, b: E)
    requires IsField(K)
    ensures K.mul(a, b) == K.zero ==> a == K.zero || b == K.zero
  {
    if K.mul(a, b) == K.zero && a != K.zero {
      Laws(K, a, b, b);
      Laws(K, K.inv(a), a, b);
      Laws(K, a, K.inv(a), b);
      Laws(K, b, K.one, b);
      Laws(K, K.one, b, b);
      MulZero(K, K.inv(a));
    }
  }

  lemma AddIsZeroIffEqual<E(!new)>(K: Field<E>, a: E, b: E)
    requires IsField(K)
    ensures K.add(a, b) == K.zero <==> a == b
  {
    Laws(K, a, b, b);
    Laws(K, b, K.zero, b);
    Laws(K, K.zero, b, b);
  }
}
