// What one splitting attempt returns for a product of distinct linear factors:
// the roots at which the drawn polynomial is a non-zero cube, and the others.
module SplittingDraws {
  import opened Fields
  import opened Options
  import opened PolynomialRing
  import opened PolynomialDivision
  import opened PolynomialPowers
  import opened Factorize
  import opened Roots
  import opened RootSearchProgress
  import GcmCubes
  import GcmField
  import Gf128
  import Sse

  ghost predicate Distinct<E(!new)>(zs: seq<E>) {
    forall i, j :: 0 <= i < j < |zs| ==> zs[i] != zs[j]
  }

  // The elements of zs at which g vanishes, and those at which it does not.
  ghost function ZerosAmong<E(!new)>(K: Field<E>, g: seq<E>, zs: seq<E>): (r: seq<E>)
    ensures forall z :: z in r <==> z in zs && Eval(K, g, z) == K.zero
    ensures Distinct(zs) ==> Distinct(r)
  {
    if zs == [] then [] else (if Eval(K, g, zs[0]) == K.zero then [zs[0]] else []) + ZerosAmong(K, g, zs[1..])
  }

  ghost function OthersAmong<E(!new)>(K: Field<E>, g: seq<E>, zs: seq<E>): (r: seq<E>)
    ensures forall z :: z in r <==> z in zs && Eval(K, g, z) != K.zero
  {
    if zs == [] then [] else (if Eval(K, g, zs[0]) == K.zero then [] else [zs[0]]) + OthersAmong(K, g, zs[1..])
  }

  lemma {:induction false} SplitProduct<E(!new)>(K: Field<E>, g: seq<E>, zs: seq<E>)
    requires IsField(K)
    ensures FromRoots(K, zs) == Mul(K, FromRoots(K, ZerosAmong(K, g, zs)), FromRoots(K, OthersAmong(K, g, zs)))
  {
    hide Mul, Eval;
    if zs == [] {
      MulOne(K, One(K));
    } else {
      var l, rest := Linear(K, zs[0]), zs[1..];
      var f, k := FromRoots(K, ZerosAmong(K, g, rest)), FromRoots(K, OthersAmong(K, g, rest));
      SplitProduct(K, g, rest);
      LinearBasics(K, zs[0]);
      FromRootsCons(K, zs[0], ZerosAmong(K, g, rest));
      FromRootsCons(K, zs[0], OthersAmong(K, g, rest));
      MulAssoc(K, l, f, k);
      MulComm(K, l, f);
      MulAssoc(K, f, l, k);
    }
  }

  lemma FromRootsCons<E(!new)>(K: Field<E>, z: E, zs: seq<E>)
    ensures FromRoots(K, [z] + zs) == Mul(K, Linear(K, z), FromRoots(K, zs))
    ensures [] + zs == zs
  {
    hide Mul;
    assert ([z] + zs)[1..] == zs;
  }

  // A linear factor whose root is none of q is not needed for q to divide.
  lemma StripFactor<E(!new)>(K: Field<E>, q: seq<E>, z: E, m: seq<E>)
    requires IsField(K) && Normal(K, q) && Normal(K, m)
    requires Divides(K, q, Mul(K, Linear(K, z), m)) && Eval(K, q, z) != K.zero
    ensures Divides(K, q, m)
  {
    hide Mul, Eval, Linear;
    var l := Linear(K, z);
    LinearBasics(K, z);
    LinearParts(K, z);
    var k :| IsMultiple(K, k, q, Mul(K, l, m));
    EvalMul(K, k, q, z);
    EvalMul(K, l, m, z);
    EvalLinear(K, z, z);
    Laws(K, z, z, z);
    MulZero(K, Eval(K, m, z));
    NoZeroDivisors(K, Eval(K, k, z), Eval(K, q, z));
    RootIffFactor(K, k, z);
    var k' :| IsMultiple(K, k', l, k);
    MulComm(K, k', l);
    MulAssoc(K, l, k', q);
    MulComm(K, l, Mul(K, k', q)); MulComm(K, l, m);
    MulCancel(K, Mul(K, k', q), m, l);
    assert IsMultiple(K, k', q, m);
  }

  lemma {:induction false} StripOthers<E(!new)>(K: Field<E>, q: seq<E>, us: seq<E>, m: seq<E>)
    requires IsField(K) && Normal(K, q) && Normal(K, m)
    requires forall u :: u in us ==> Eval(K, q, u) != K.zero
    requires Divides(K, q, Mul(K, FromRoots(K, us), m))
    ensures Divides(K, q, m)
    decreases |us|
  {
    hide Mul, Eval, Linear, Divides;
    if us == [] {
      MulOne(K, m);
    } else {
      var l, f := Linear(K, us[0]), FromRoots(K, us[1..]);
      LinearBasics(K, us[0]);
      MulAssoc(K, l, f, m);
      assert us[0] in us;
      StripFactor(K, q, us[0], Mul(K, f, m));
      StripOthers(K, q, us[1..], m);
    }
  }

  // Distinct roots give a factor each.
  lemma {:induction false} DistinctRootsDivide<E(!new)>(K: Field<E>, ws: seq<E>, g: seq<E>)
    requires IsField(K) && Normal(K, g) && Distinct(ws)
    requires forall w :: w in ws ==> Eval(K, g, w) == K.zero
    ensures Divides(K, FromRoots(K, ws), g)
    decreases |ws|
  {
    hide Mul, Eval, Linear;
    if ws == [] {
      OneDivides(K, g);
    } else {
      var l, rest := Linear(K, ws[0]), ws[1..];
      assert ws[0] in ws;
      LinearBasics(K, ws[0]);
      RootIffFactor(K, g, ws[0]);
      var k :| IsMultiple(K, k, l, g);
      forall w | w in rest ensures Eval(K, k, w) == K.zero {
        OtherRoot(K, k, ws[0], w);
      }
      DistinctRootsDivide(K, rest, k);
      var k' :| IsMultiple(K, k', FromRoots(K, rest), k);
      MulAssoc(K, k', FromRoots(K, rest), l);
      MulComm(K, FromRoots(K, rest), l);
      assert IsMultiple(K, k', FromRoots(K, ws), g);
    }
  }

  lemma OtherRoot<E(!new)>(K: Field<E>, k: seq<E>, z: E, w: E)
    requires IsField(K) && Normal(K, k) && z != w && Eval(K, Mul(K, k, Linear(K, z)), w) == K.zero
    ensures Eval(K, k, w) == K.zero
  {
    hide Mul, Eval, Linear;
    LinearBasics(K, z);
    EvalMul(K, k, Linear(K, z), w);
    EvalLinear(K, z, w);
    AddIsZeroIffEqual(K, z, w);
    NoZeroDivisors(K, Eval(K, k, w), K.add(z, w));
  }

  // The common part has exactly the roots of p at which the residue vanishes.
  lemma CommonPartIs<E(!new)>(K: Field<E>, f: seq<E>, zs: seq<E>, h: seq<E>)
    requires IsField(K) && Normal(K, f) && f != [] && Distinct(zs)
    ensures CommonPart(K, f, FromRoots(K, zs), h) == FromRoots(K, ZerosAmong(K, Residue(K, f, h), zs))
  {
    hide Mul, Eval, Divides, Residue, Gcd, Monic, FromRoots;
    var p, g := FromRoots(K, zs), Residue(K, f, h);
    var ws, us := ZerosAmong(K, g, zs), OthersAmong(K, g, zs);
    var q, w := CommonPart(K, f, p, h), FromRoots(K, ws);
    FromRootsDegree(K, zs);
    FromRootsDegree(K, ws);
    CommonPartFacts(K, f, p, h);
    forall z | z in ws ensures Eval(K, p, z) == K.zero { FromRootsEval(K, zs, z); }
    DistinctRootsDivide(K, ws, p);
    DistinctRootsDivide(K, ws, g);
    GcdIsGreatest(K, p, g, w);
    MonicAssociates(K, Gcd(K, p, g));
    DividesTransitive(K, w, Gcd(K, p, g), q);
    forall u | u in us ensures Eval(K, q, u) != K.zero { RootOfDivisor(K, q, g, u); }
    SplitProduct(K, g, zs);
    MulComm(K, w, FromRoots(K, us));
    StripOthers(K, q, us, w);
    DividesLength(K, q, w);
    MonicAntisymmetric(K, w, q);
  }

  lemma CommonPartFacts<E(!new)>(K: Field<E>, f: seq<E>, p: seq<E>, h: seq<E>)
    requires IsField(K) && Normal(K, f) && f != [] && Normal(K, p) && p != []
    ensures var q := CommonPart(K, f, p, h);
            && Normal(K, q) && IsMonic(K, q) && q == Monic(K, Gcd(K, p, Residue(K, f, h)))
            && Divides(K, q, p) && Divides(K, q, Residue(K, f, h))
  {
    hide Divides, Residue, Gcd, Monic;
    var g := Residue(K, f, h);
    var d := Gcd(K, p, g);
    GcdDividesBoth(K, p, g);
    MonicIsMonic(K, d);
    MonicAssociates(K, d);
    DividesTransitive(K, Monic(K, d), d, p);
    DividesTransitive(K, Monic(K, d), d, g);
  }

  lemma RootOfDivisor<E(!new)>(K: Field<E>, d: seq<E>, p: seq<E>, z: E)
    requires IsField(K) && Normal(K, d) && Normal(K, p) && Divides(K, d, p) && Eval(K, p, z) != K.zero
    ensures Eval(K, d, z) != K.zero
  {
    hide Eval, Divides, Linear;
    LinearBasics(K, z);
    RootIffFactor(K, d, z);
    RootIffFactor(K, p, z);
    if Eval(K, d, z) == K.zero {
      DividesTransitive(K, Linear(K, z), d, p);
    }
  }

  // So the attempt returns the products over both parts, or nothing when one
  // of them is empty.
  lemma SplitIs<E(!new)>(K: Field<E>, f: seq<E>, zs: seq<E>, h: seq<E>)
    requires IsField(K) && Normal(K, f) && f != [] && Distinct(zs)
    ensures var ws, us := ZerosAmong(K, Residue(K, f, h), zs), OthersAmong(K, Residue(K, f, h), zs);
            Split(K, f, FromRoots(K, zs), h)
            == if ws == [] || us == [] then None else Some((FromRoots(K, ws), FromRoots(K, us)))
  {
    hide Mul, Residue, CommonPart, Monic, DivMod, ZerosAmong, OthersAmong, FromRoots;
    var g := Residue(K, f, h);
    var ws, us := ZerosAmong(K, g, zs), OthersAmong(K, g, zs);
    var p, q, k := FromRoots(K, zs), FromRoots(K, ws), FromRoots(K, us);
    CommonPartIs(K, f, zs, h);
    SplitProduct(K, g, zs);
    FromRootsDegree(K, zs); FromRootsDegree(K, ws); FromRootsDegree(K, us);
    MonicIsMonic(K, p);
    MulLead(K, q, k);
    MulComm(K, q, k);
    FromNoRoots(K);
    if us == [] {
      MulOne(K, q);
    }
    AddEmptyRight(K, p);
    DivModUnique(K, p, q, k, []);
  }

  lemma FromNoRoots<E(!new)>(K: Field<E>)
    ensures FromRoots(K, []) == One(K) && |One(K)| == 1
  {
  }

  // ----- The field of the program -----

  lemma {:induction false} ElementPowerIs(v: bv128, n: nat)
    ensures ElementPower(GcmField.GCM, v, n) == GcmField.Power(v, n)
  {
    hide Gf128.Mul, GcmField.GCM;
    GcmField.GcmOperations(v, GcmField.Power(v, n));
    if n > 0 {
      ElementPowerIs(v, n - 1);
      GcmField.GcmOperations(v, GcmField.Power(v, n - 1));
    }
  }

  ghost predicate CubeAt(h: seq<bv128>, z: bv128) {
    var v := Eval(GcmField.GCM, h, z);
    v != 0 && GcmCubes.IsCube(v)
  }

  // At a root of f the residue vanishes exactly where h is a non-zero cube.
  lemma ResidueAtRoot(f: seq<bv128>, h: seq<bv128>, z: bv128)
    requires Normal(GcmField.GCM, f) && f != []
    requires Eval(GcmField.GCM, f, z) == GcmField.GCM.zero
    ensures IsField(GcmField.GCM)
    ensures Eval(GcmField.GCM, Residue(GcmField.GCM, f, h), z) == GcmField.GCM.zero <==> CubeAt(h, z)
  {
    hide GcmField.GCM, Eval, Residue, ElementPower, GcmField.Power, Sse.Val, GcmCubes.IsCube, Gf128.Add, Gf128.Mul;
    GcmField.GcmIsField();
    var v := Eval(GcmField.GCM, h, z);
    var power := GcmField.Power(v, Sse.Val(THIRD));
    ResidueEval(GcmField.GCM, f, h, z);
    ElementPowerIs(v, Sse.Val(THIRD));
    GcmField.GcmOperations(power, Gf128.ONE);
    Gf128.AddIsZeroIffEqual(power, Gf128.ONE);
    GcmCubes.CubeLaw(v);
  }

  ghost function CubesAmong(h: seq<bv128>, zs: seq<bv128>): seq<bv128> {
    if zs == [] then [] else (if CubeAt(h, zs[0]) then [zs[0]] else []) + CubesAmong(h, zs[1..])
  }

  ghost function NonCubesAmong(h: seq<bv128>, zs: seq<bv128>): seq<bv128> {
    if zs == [] then [] else (if CubeAt(h, zs[0]) then [] else [zs[0]]) + NonCubesAmong(h, zs[1..])
  }

  lemma {:induction false} PartsAre(h: seq<bv128>, zs: seq<bv128>, z: bv128)
    ensures z in CubesAmong(h, zs) <==> z in zs && CubeAt(h, z)
    ensures z in NonCubesAmong(h, zs) <==> z in zs && !CubeAt(h, z)
  {
    hide CubeAt;
    if zs != [] {
      PartsAre(h, zs[1..], z);
    }
  }

  lemma {:induction false} SamePart(f: seq<bv128>, h: seq<bv128>, zs: seq<bv128>)
    requires Normal(GcmField.GCM, f) && f != []
    requires forall z :: z in zs ==> Eval(GcmField.GCM, f, z) == GcmField.GCM.zero
    ensures IsField(GcmField.GCM)
    ensures ZerosAmong(GcmField.GCM, Residue(GcmField.GCM, f, h), zs) == CubesAmong(h, zs)
    ensures OthersAmong(GcmField.GCM, Residue(GcmField.GCM, f, h), zs) == NonCubesAmong(h, zs)
  {
    hide GcmField.GCM, Eval, Residue, CubeAt;
    GcmField.GcmIsField();
    if zs != [] {
      ResidueAtRoot(f, h, zs[0]);
      SamePart(f, h, zs[1..]);
    }
  }

  // For every draw and every product of distinct linear factors of f: the
  // roots where the draw is a non-zero cube are split from the others, and the
  // attempt fails only if one of the two parts is empty.
  lemma SplitByCubes(f: seq<bv128>, zs: seq<bv128>, h: seq<bv128>)
    requires Normal(GcmField.GCM, f) && f != [] && Distinct(zs)
    requires forall z :: z in zs ==> Eval(GcmField.GCM, f, z) == GcmField.GCM.zero
    ensures IsField(GcmField.GCM)
    ensures var ws, us := CubesAmong(h, zs), NonCubesAmong(h, zs);
            Split(GcmField.GCM, f, FromRoots(GcmField.GCM, zs), h)
            == if ws == [] || us == [] then None
               else Some((FromRoots(GcmField.GCM, ws), FromRoots(GcmField.GCM, us)))
  {
    hide *;
    GcmField.GcmIsField();
    SamePart(f, h, zs);
    SplitIs(GcmField.GCM, f, zs, h);
  }

  // Whatever else p has for factors, a draw that is a non-zero cube at one of
  // its roots and not at another splits it.
  lemma SplitBetweenRoots(f: seq<bv128>, p: seq<bv128>, h: seq<bv128>, a: bv128, b: bv128)
    requires Normal(GcmField.GCM, f) && f != [] && Normal(GcmField.GCM, p) && p != []
    requires Eval(GcmField.GCM, f, a) == GcmField.GCM.zero == Eval(GcmField.GCM, f, b)
    requires Eval(GcmField.GCM, p, a) == GcmField.GCM.zero == Eval(GcmField.GCM, p, b)
    requires CubeAt(h, a) && !CubeAt(h, b)
    ensures IsField(GcmField.GCM) && Split(GcmField.GCM, f, p, h).Some?
  {
    hide *;
    GcmField.GcmIsField();
    ResidueAtRoot(f, h, a);
    ResidueAtRoot(f, h, b);
    SeparatedRootsSplit(GcmField.GCM, f, p, h, a, b);
  }
}
