// Recovering a tag from messages that share key and nonce: the two tags give
// a polynomial with the hash key among its roots.
module Recover {
  import opened Fields
  import opened Options
  import opened PolynomialRing
  import opened CoefficientVectors
  import opened CzPolynomial
  import opened GcmField
  import opened GcmBytes
  import opened ByteManipulation
  import opened GhashFunction
  import GhashStream
  import Encryptor
  import Gf128
  import RootSearch
  import Roots

  datatype EncryptionResult = EncryptionResult(ciphertext: seq<bv8>, associatedData: seq<bv8>, authTag: seq<bv8>)

  ghost function BlocksOf(msg: EncryptionResult): seq<bv128> {
    MessageBlocks(msg.associatedData, msg.ciphertext)
  }

  // ----- Xor of bytes is addition in the field -----

  lemma PartsOfSum(x: bv128, y: bv128)
    ensures Upper(Gf128.Add(x, y)) == Gf128.Add(Upper(x), Upper(y))
    ensures LastByte(Gf128.Add(x, y)) == XorByte(LastByte(x), LastByte(y))
  {
  }

  lemma {:induction false} BytesOfSum(x: bv128, y: bv128, n: nat)
    ensures Bytes(Gf128.Add(x, y), n) == Xor(Bytes(x, n), Bytes(y, n))
    decreases n
  {
    hide Gf128.Add, Upper, LastByte, XorByte;
    if n > 0 {
      PartsOfSum(x, y);
      BytesOfSum(Upper(x), Upper(y), n - 1);
    }
  }

  lemma XorIsSum(a: seq<bv8>, b: seq<bv8>)
    requires |a| == |b| == 16
    ensures FromGcmBytes(Xor(a, b)) == Gf128.Add(FromGcmBytes(a), FromGcmBytes(b))
  {
    hide Gf128.Add, Bytes, Joined, Xor;
    var x, y := FromGcmBytes(a), FromGcmBytes(b);
    GcmBytesRoundTrip(x, a);
    GcmBytesRoundTrip(y, b);
    BytesOfSum(x, y, 16);
    GcmBytesRoundTrip(Gf128.Add(x, y), a);
  }

  // ----- The blocks as field elements -----

  lemma PaddedEnd(v: seq<bv8>, i: nat)
    requires i % 16 == 0 && |v| <= i <= |Pad(v)|
    ensures i == |Pad(v)|
  {
  }

  lemma PaddedBlock(v: seq<bv8>, i: nat)
    requires i % 16 == 0 && i < |v|
    ensures var end := if i + 16 >= |v| then |v| else i + 16;
            && i + 16 <= |Pad(v)|
            && v[i..end] + ZeroBytes(16 - (end - i)) == Pad(v)[i..i + 16]
  {
  }

  lemma BlocksNext(s: seq<bv8>, i: nat)
    requires i % 16 == 0 && i + 16 <= |s|
    ensures Blocks(s[..i + 16]) == Blocks(s[..i]) + [FromGcmBytes(s[i..i + 16])]
  {
    hide FromGcmBytes;
    var block := s[i..i + 16];
    assert s[..i + 16] == s[..i] + block;
    BlocksSum(s[..i], block);
    assert block[0..16] == block;
    assert Blocks(block) == [FromGcmBytes(block)];
  }

  method AsGhashPolys(ciphertext: seq<bv8>, associatedData: seq<bv8>) returns (out: seq<bv128>)
    ensures out == MessageBlocks(associatedData, ciphertext)
  {
    hide FromGcmBytes, Pad, Blocks, BigEndian, Mod64;
    out := [];
    var parts := [associatedData, ciphertext];
    NoBlocks();
    var k := 0;
    while k < 2
      invariant 0 <= k <= 2
      invariant k == 0 ==> out == []
      invariant k == 1 ==> out == Blocks(Pad(associatedData))
      invariant k == 2 ==> out == Blocks(Pad(associatedData)) + Blocks(Pad(ciphertext))
    {
      var v := parts[k];
      ghost var before := out;
      var i := 0;
      assert Pad(v)[..0] == [];
      while i < |v|
        invariant 0 <= i <= |Pad(v)| && i % 16 == 0
        invariant out == before + Blocks(Pad(v)[..i])
      {
        PaddedBlock(v, i);
        BlocksNext(Pad(v), i);
        var end := if i + 16 >= |v| then |v| else i + 16;
        var block := v[i..end];
        block := block + ZeroBytes(16 - |block|);
        out := out + [FromGcmBytes(block)];
        i := i + 16;
      }
      PaddedEnd(v, i);
      assert Pad(v)[..i] == Pad(v);
      k := k + 1;
    }
    var length := BigEndian(Mod64(8 * |associatedData|), 8);
    length := length + BigEndian(Mod64(8 * |ciphertext|), 8);
    out := out + [FromGcmBytes(length)];
  }

  lemma NoBlocks()
    ensures Blocks([]) == []
  {
  }

  // ----- The polynomial of two tagged messages -----

  // The block that multiplies h^i in the hash of the blocks.
  ghost function Term(blocks: seq<bv128>, i: nat): bv128 {
    if 1 <= i <= |blocks| then blocks[|blocks| - i] else 0
  }

  ghost function Terms(blocks: seq<bv128>, n: nat): seq<bv128> {
    seq(n, i requires 0 <= i < n => Term(blocks, i))
  }

  lemma EvalHead(p: seq<bv128>, h: bv128)
    requires p != []
    ensures Eval(GCM, p, h) == Gf128.Add(p[0], Gf128.Mul(h, Eval(GCM, p[1..], h)))
  {
  }

  lemma HashLast(h: bv128, blocks: seq<bv128>, last: bv128)
    ensures Hash(h, blocks + [last]) == Gf128.Mul(h, Gf128.Add(last, Hash(h, blocks)))
  {
    hide Gf128.Add, Gf128.Mul;
    assert (blocks + [last])[..|blocks|] == blocks;
    Gf128.AddLaws(Hash(h, blocks), last, 0);
    Gf128.MulComm(h, Gf128.Add(last, Hash(h, blocks)));
  }

  // Horner's rule from the other end: the hash is the value at h of the
  // polynomial with the last block at h^1.
  lemma {:induction false} HashSuffix(h: bv128, blocks: seq<bv128>, n: nat, k: nat)
    requires |blocks| < n && 1 <= k <= |blocks| + 1
    ensures Gf128.Mul(h, Eval(GCM, Terms(blocks, n)[k..], h)) == Hash(h, blocks[..|blocks| + 1 - k])
    decreases |blocks| + 1 - k
  {
    hide GCM, Gf128.Add, Gf128.Mul, Eval;
    var p := Terms(blocks, n);
    if k == |blocks| + 1 {
      GcmOperations(0, 0);
      assert p[k..] == ZeroVector(GCM, n - k);
      EvalZeros(h, n - k);
      MulZeroRight(h);
    } else {
      hide Hash;
      HashSuffix(h, blocks, n, k + 1);
      EvalHead(p[k..], h);
      assert p[k..][1..] == p[k + 1..];
      var m := |blocks| - k;
      assert blocks[..m + 1] == blocks[..m] + [blocks[m]];
      HashLast(h, blocks[..m], blocks[m]);
    }
  }

  lemma EvalZeros(h: bv128, n: nat)
    ensures Eval(GCM, ZeroVector(GCM, n), h) == 0
  {
    hide GCM;
    GcmIsField();
    GcmOperations(0, 0);
    EvalNorm(GCM, ZeroVector(GCM, n), h);
    NormZeros(GCM, n);
  }

  lemma HashIsEval(h: bv128, blocks: seq<bv128>, n: nat)
    requires |blocks| < n
    ensures Eval(GCM, Terms(blocks, n), h) == Hash(h, blocks)
  {
    hide GCM, Gf128.Add, Gf128.Mul, Hash;
    var p := Terms(blocks, n);
    HashSuffix(h, blocks, n, 1);
    assert blocks[..|blocks|] == blocks;
    GcmOperations(h, Eval(GCM, p[1..], h));
    GcmOperations(0, Hash(h, blocks));
    Gf128.AddLaws(Hash(h, blocks), 0, 0);
  }

  ghost function TagCoefficient(t: bv128, p: seq<bv128>, q: seq<bv128>, i: nat): bv128 {
    if i == 0 then t else Gf128.Add(Term(p, i), Term(q, i))
  }

  ghost function Coefficients(t: bv128, p: seq<bv128>, q: seq<bv128>, n: nat): seq<bv128> {
    seq(n, i requires 0 <= i < n => TagCoefficient(t, p, q, i))
  }

  function Longer(p: seq<bv128>, q: seq<bv128>): (n: nat)
    ensures |p| <= n && |q| <= n && (n == |p| || n == |q|)
  {
    if |p| < |q| then |q| else |p|
  }

  // The coefficients of gen_poly, lowest degree first and not normalised: the
  // sum of the tags, then the blocks of both messages, the last one first.
  ghost function TagPoly(msg1: EncryptionResult, msg2: EncryptionResult): seq<bv128>
    requires |msg1.authTag| == |msg2.authTag| == 16
  {
    var p, q := BlocksOf(msg1), BlocksOf(msg2);
    Coefficients(Gf128.Add(FromGcmBytes(msg1.authTag), FromGcmBytes(msg2.authTag)), p, q, Longer(p, q) + 1)
  }

  lemma EvalSum(p: seq<bv128>, q: seq<bv128>, s: seq<bv128>, h: bv128)
    requires |p| == |q| == |s| && forall i :: 0 <= i < |s| ==> s[i] == Gf128.Add(p[i], q[i])
    ensures Eval(GCM, s, h) == Gf128.Add(Eval(GCM, p, h), Eval(GCM, q, h))
  {
    hide GCM, Gf128.Add;
    GcmIsField();
    forall i | 0 <= i < |s| ensures s[i] == GCM.add(p[i], q[i]) { GcmOperations(p[i], q[i]); }
    NormOfSums(GCM, p, q, s);
    EvalNorm(GCM, p, h); EvalNorm(GCM, q, h); EvalNorm(GCM, s, h);
    EvalAdd(GCM, Norm(GCM, p), Norm(GCM, q), h);
    GcmOperations(Eval(GCM, p, h), Eval(GCM, q, h));
  }

  lemma EvalConstantTerm(c: bv128, n: nat, h: bv128)
    ensures Eval(GCM, [c] + ZeroVector(GCM, n), h) == c
  {
    hide GCM;
    GcmIsField();
    NormPadded(GCM, [c], n);
    EvalNorm(GCM, [c], h);
    EvalNorm(GCM, [c] + ZeroVector(GCM, n), h);
    Roots.EvalConstant(GCM, c, h);
  }

  ghost function TermSums(p: seq<bv128>, q: seq<bv128>, n: nat): seq<bv128> {
    seq(n, i requires 0 <= i < n => Gf128.Add(Term(p, i), Term(q, i)))
  }

  lemma TermSumsEval(p: seq<bv128>, q: seq<bv128>, n: nat, h: bv128)
    requires |p| < n && |q| < n
    ensures Eval(GCM, TermSums(p, q, n), h) == Gf128.Add(Hash(h, p), Hash(h, q))
  {
    hide GCM, Gf128.Add, Hash, Term, Eval;
    EvalSum(Terms(p, n), Terms(q, n), TermSums(p, q, n), h);
    HashIsEval(h, p, n);
    HashIsEval(h, q, n);
  }

  lemma CoefficientIsSum(t: bv128, p: seq<bv128>, q: seq<bv128>, n: nat, i: nat)
    requires i < n
    ensures TagCoefficient(t, p, q, i) == Gf128.Add(([t] + ZeroVector(GCM, n - 1))[i], TermSums(p, q, n)[i])
  {
    hide GCM, Gf128.Add;
    GcmOperations(0, 0);
    Gf128.AddLaws(t, 0, 0); Gf128.AddLaws(TermSums(p, q, n)[i], 0, 0); Gf128.AddLaws(0, 0, 0);
  }

  lemma CoefficientsEval(t: bv128, p: seq<bv128>, q: seq<bv128>, n: nat, h: bv128)
    requires |p| < n && |q| < n
    ensures Eval(GCM, Coefficients(t, p, q, n), h) == Gf128.Add(t, Gf128.Add(Hash(h, p), Hash(h, q)))
  {
    hide GCM, Gf128.Add, Hash, Term, Eval, TagCoefficient, TermSums;
    var c, sums := [t] + ZeroVector(GCM, n - 1), TermSums(p, q, n);
    assert |sums| == n by { TermSumsLength(p, q, n); }
    forall i | 0 <= i < n ensures Coefficients(t, p, q, n)[i] == Gf128.Add(c[i], sums[i]) {
      CoefficientIsSum(t, p, q, n, i);
    }
    EvalSum(c, sums, Coefficients(t, p, q, n), h);
    EvalConstantTerm(t, n - 1, h);
    TermSumsEval(p, q, n, h);
  }

  lemma TermSumsLength(p: seq<bv128>, q: seq<bv128>, n: nat)
    ensures |TermSums(p, q, n)| == n
  {
  }

  // At every h, whatever the lengths of the messages.
  lemma TagPolyEval(msg1: EncryptionResult, msg2: EncryptionResult, h: bv128)
    requires |msg1.authTag| == |msg2.authTag| == 16
    ensures Eval(GCM, TagPoly(msg1, msg2), h)
            == Gf128.Add(Gf128.Add(FromGcmBytes(msg1.authTag), FromGcmBytes(msg2.authTag)),
                         Gf128.Add(Hash(h, BlocksOf(msg1)), Hash(h, BlocksOf(msg2))))
  {
    hide GCM, Gf128.Add, FromGcmBytes, Hash, BlocksOf, Eval, Coefficients;
    var p, q := BlocksOf(msg1), BlocksOf(msg2);
    CoefficientsEval(Gf128.Add(FromGcmBytes(msg1.authTag), FromGcmBytes(msg2.authTag)), p, q, Longer(p, q) + 1, h);
  }

  method GenPoly(msg1: EncryptionResult, msg2: EncryptionResult) returns (f: Polynomial<bv128>)
    requires |msg1.authTag| == |msg2.authTag| == 16
    ensures fresh(f) && f.K == GCM && f.coeffs == TagPoly(msg1, msg2)
  {
    hide GCM, Gf128.Add, FromGcmBytes, MessageBlocks, TagCoefficient, Longer;
    var tu := FromGcmBytes(msg1.authTag);
    var tv := FromGcmBytes(msg2.authTag);
    var p := AsGhashPolys(msg1.ciphertext, msg1.associatedData);
    var q := AsGhashPolys(msg2.ciphertext, msg2.associatedData);
    var degree := Longer(p, q);
    f := new Polynomial(GCM, ZeroVector(GCM, degree + 1));
    f.coeffs := f.coeffs[0 := Gf128.Add(tu, tv)];
    ZeroCoefficient(Gf128.Add(tu, tv), p, q);
    var i := 1;
    while i <= degree
      invariant 1 <= i <= degree + 1 == |f.coeffs|
      invariant fresh(f) && f.K == GCM
      invariant forall k :: 0 <= k < i ==> f.coeffs[k] == TagCoefficient(Gf128.Add(tu, tv), p, q, k)
      invariant forall k :: i <= k <= degree ==> f.coeffs[k] == GCM.zero
    {
      NextCoefficient(Gf128.Add(tu, tv), p, q, i);
      if i <= |p| {
        f.coeffs := f.coeffs[i := Gf128.Add(f.coeffs[i], p[|p| - i])];
      }
      if i <= |q| {
        f.coeffs := f.coeffs[i := Gf128.Add(f.coeffs[i], q[|q| - i])];
      }
      i := i + 1;
    }
  }

  lemma ZeroCoefficient(t: bv128, p: seq<bv128>, q: seq<bv128>)
    ensures TagCoefficient(t, p, q, 0) == t
  {
  }

  lemma NextCoefficient(t: bv128, p: seq<bv128>, q: seq<bv128>, i: nat)
    requires i >= 1
    ensures var a := if i <= |p| then Gf128.Add(GCM.zero, p[|p| - i]) else GCM.zero;
            (if i <= |q| then Gf128.Add(a, q[|q| - i]) else a) == TagCoefficient(t, p, q, i)
  {
    hide Gf128.Add, GCM;
    GcmOperations(0, 0);
    Gf128.AddLaws(Term(p, i), 0, 0);
    Gf128.AddLaws(Term(q, i), 0, 0);
    Gf128.AddLaws(0, 0, 0);
  }

  // ----- Tags from a candidate key -----

  ghost function HashTag(h: bv128, msg: EncryptionResult): (tag: seq<bv8>)
    ensures |tag| == 16
  {
    ToGcmBytes(Hash(h, BlocksOf(msg)))
  }

  // The tag of msg if h were the key and msg1 shared its mask.
  ghost function CandidateTag(msg1: EncryptionResult, msg: EncryptionResult, h: bv128): seq<bv8>
    requires |msg1.authTag| == 16
  {
    Xor(HashTag(h, msg), Xor(HashTag(h, msg1), msg1.authTag))
  }

  method GenAuthTagMask(msg: EncryptionResult, h: bv128) returns (mask: seq<bv8>)
    requires |msg.authTag| == 16
    ensures mask == Xor(HashTag(h, msg), msg.authTag)
  {
    hide Hash, MessageBlocks, FromGcmBytes, ToGcmBytes, Xor;
    var rawTag := GhashStream.HashMessage(msg.ciphertext, msg.associatedData, ToGcmBytes(h));
    GcmBytesRoundTrip(h, rawTag);
    mask := XorInto(rawTag, msg.authTag);
  }

  method GenAuthTag(msg1: EncryptionResult, msg2: EncryptionResult, h: bv128) returns (tag: seq<bv8>)
    requires |msg1.authTag| == 16
    ensures tag == CandidateTag(msg1, msg2, h)
  {
    hide Hash, MessageBlocks, FromGcmBytes, ToGcmBytes, Xor;
    var mask := GenAuthTagMask(msg1, h);
    tag := GhashStream.HashMessage(msg2.ciphertext, msg2.associatedData, ToGcmBytes(h));
    GcmBytesRoundTrip(h, tag);
    tag := XorInto(tag, mask);
  }

  // ----- The search -----

  // The root search over GF(2^128).
  ghost function Search(f: seq<bv128>, draws: seq<seq<bv128>>): Option<seq<bv128>>
    requires |Norm(GCM, f)| >= 2
  {
    GcmIsField();
    RootSearch.Run(GCM, f, draws)
  }

  lemma SearchIsRun(f: seq<bv128>, draws: seq<seq<bv128>>)
    requires |Norm(GCM, f)| >= 2
    ensures IsField(GCM) && Search(f, draws) == RootSearch.Run(GCM, f, draws)
  {
    GcmIsField();
  }

  // Candidates are tried from the back; the first that reproduces the third
  // tag is taken.
  ghost function LastConsistent(msg1: EncryptionResult, msg3: EncryptionResult, candidates: seq<bv128>): Option<bv128>
    requires |msg1.authTag| == 16
  {
    if candidates == [] then None
    else
      var h := candidates[|candidates| - 1];
      if CandidateTag(msg1, msg3, h) == msg3.authTag then Some(h)
      else LastConsistent(msg1, msg3, candidates[..|candidates| - 1])
  }

  ghost predicate Consistent(msg1: EncryptionResult, msg3: EncryptionResult, h: bv128)
    requires |msg1.authTag| == 16
  {
    CandidateTag(msg1, msg3, h) == msg3.authTag
  }

  // No candidate from position k on reproduces the third tag.
  ghost predicate NoneFrom(msg1: EncryptionResult, msg3: EncryptionResult, candidates: seq<bv128>, k: nat)
    requires |msg1.authTag| == 16
  {
    forall i :: k <= i < |candidates| ==> !Consistent(msg1, msg3, candidates[i])
  }

  // The result is a consistent candidate and only inconsistent ones were
  // discarded before it; there is no result only when none is consistent.
  lemma {:induction false} OnlyInconsistentDiscarded(msg1: EncryptionResult, msg3: EncryptionResult,
                                                     candidates: seq<bv128>) returns (k: nat)
    requires |msg1.authTag| == 16
    ensures k <= |candidates| && NoneFrom(msg1, msg3, candidates, k)
    ensures match LastConsistent(msg1, msg3, candidates)
            case None => k == 0
            case Some(h) => k > 0 && candidates[k - 1] == h && Consistent(msg1, msg3, h)
  {
    hide CandidateTag;
    if candidates == [] {
      k := 0;
    } else {
      var n := |candidates| - 1;
      if Consistent(msg1, msg3, candidates[n]) {
        k := n + 1;
      } else {
        k := OnlyInconsistentDiscarded(msg1, msg3, candidates[..n]);
        hide Consistent;
        NoneAdded(msg1, msg3, candidates, k);
      }
    }
  }

  lemma NoneAdded(msg1: EncryptionResult, msg3: EncryptionResult, candidates: seq<bv128>, k: nat)
    requires |msg1.authTag| == 16 && candidates != []
    requires NoneFrom(msg1, msg3, candidates[..|candidates| - 1], k)
    requires !Consistent(msg1, msg3, candidates[|candidates| - 1])
    ensures NoneFrom(msg1, msg3, candidates, k)
  {
    hide Consistent;
    var n := |candidates| - 1;
    forall i | k <= i < |candidates| ensures !Consistent(msg1, msg3, candidates[i]) {
      if i < n { assert candidates[i] == candidates[..n][i]; }
    }
  }

  // Still waiting for a random draw, the failed assertion, or the tag.
  datatype Outcome = Waiting | NoCandidate | Recovered(tag: seq<bv8>)

  method RecoverAuthTag(msg1: EncryptionResult, msg2: EncryptionResult, msg3: EncryptionResult, msg4: EncryptionResult,
                        draws: seq<seq<bv128>>) returns (outcome: Outcome)
    requires |msg1.authTag| == |msg2.authTag| == 16 && |Norm(GCM, TagPoly(msg1, msg2))| >= 2
    requires forall d :: d in draws ==> |d| == |Norm(GCM, TagPoly(msg1, msg2))| - 1
    ensures outcome == match Search(TagPoly(msg1, msg2), draws)
                       case None => Waiting
                       case Some(zs) =>
                         match LastConsistent(msg1, msg3, zs)
                         case None => NoCandidate
                         case Some(h) => Recovered(CandidateTag(msg1, msg4, h))
  {
    GcmIsField();
    hide *;
    SearchIsRun(TagPoly(msg1, msg2), draws);
    var f := GenPoly(msg1, msg2);
    var zeros, _ := RootSearch.Zeros(GCM, f.coeffs, draws);
    if zeros.None? {
      return Waiting;
    }
    var candidates := zeros.value;
    ghost var all := candidates;
    SearchStep(msg1, msg3, candidates);
    var tag := [];
    if |candidates| > 0 {
      tag := GenAuthTag(msg1, msg3, candidates[|candidates| - 1]);
    }
    while |candidates| > 0 && tag != msg3.authTag
      invariant |candidates| > 0 ==> tag == CandidateTag(msg1, msg3, candidates[|candidates| - 1])
      invariant LastConsistent(msg1, msg3, candidates) == LastConsistent(msg1, msg3, all)
      decreases |candidates|
    {
      SearchStep(msg1, msg3, candidates);
      candidates := candidates[..|candidates| - 1];
      if |candidates| > 0 {
        tag := GenAuthTag(msg1, msg3, candidates[|candidates| - 1]);
      }
    }
    SearchStep(msg1, msg3, candidates);
    if |candidates| == 0 {
      return NoCandidate;
    }
    tag := GenAuthTag(msg1, msg4, candidates[|candidates| - 1]);
    return Recovered(tag);
  }

  lemma SearchStep(msg1: EncryptionResult, msg3: EncryptionResult, candidates: seq<bv128>)
    requires |msg1.authTag| == 16
    ensures candidates == [] ==> LastConsistent(msg1, msg3, candidates) == None
    ensures candidates != [] ==>
      var h := candidates[|candidates| - 1];
      LastConsistent(msg1, msg3, candidates)
      == if CandidateTag(msg1, msg3, h) == msg3.authTag then Some(h)
         else LastConsistent(msg1, msg3, candidates[..|candidates| - 1])
  {
    hide CandidateTag;
  }

  // ----- End to end -----

  // Equal masks cancel: the hash key is a root.
  lemma KeyIsRoot(msg1: EncryptionResult, msg2: EncryptionResult, h: bv128, mask: seq<bv8>)
    requires |mask| == 16 && msg1.authTag == Xor(HashTag(h, msg1), mask) && msg2.authTag == Xor(HashTag(h, msg2), mask)
    ensures Eval(GCM, TagPoly(msg1, msg2), h) == 0
  {
    hide GCM, Gf128.Add, FromGcmBytes, ToGcmBytes, Hash, BlocksOf, Eval, TagPoly, Xor;
    var x, y, m := Hash(h, BlocksOf(msg1)), Hash(h, BlocksOf(msg2)), FromGcmBytes(mask);
    TagPolyEval(msg1, msg2, h);
    XorIsSum(HashTag(h, msg1), mask);
    XorIsSum(HashTag(h, msg2), mask);
    GcmBytesRoundTrip(x, mask);
    GcmBytesRoundTrip(y, mask);
    // ((x + m) + (y + m)) + (x + y) == 0
    Gf128.AddCross(x, m, y, m);
    Gf128.AddLaws(m, m, 0);
    Gf128.AddLaws(Gf128.Add(x, y), 0, 0);
    Gf128.AddLaws(Gf128.Add(x, y), Gf128.Add(x, y), 0);
  }

  lemma SharedMask(msg1: EncryptionResult, msg: EncryptionResult, h: bv128, mask: seq<bv8>)
    requires |mask| == 16 && msg1.authTag == Xor(HashTag(h, msg1), mask)
    ensures CandidateTag(msg1, msg, h) == Xor(HashTag(h, msg), mask)
  {
    hide HashTag;
    var t := HashTag(h, msg1);
    XorTwice(mask, t);
    XorTwice(t, mask);
    XorTwice(t, msg1.authTag);
  }

  ghost predicate Tagged(cipher: Encryptor.Cipher, nonce: seq<bv8>, msg: EncryptionResult) {
    msg.authTag == Encryptor.Tag(cipher, nonce, msg.associatedData, msg.ciphertext)
  }

  ghost function HashKey(cipher: Encryptor.Cipher): bv128 { FromGcmBytes(Encryptor.AuthKey(cipher)) }

  lemma TagParts(cipher: Encryptor.Cipher, nonce: seq<bv8>, msg: EncryptionResult)
    ensures var mask: seq<bv8> := cipher(Encryptor.PreCounter(cipher, nonce));
            |mask| == 16
            && Encryptor.Tag(cipher, nonce, msg.associatedData, msg.ciphertext)
               == Xor(HashTag(HashKey(cipher), msg), mask)
  {
  }

  // Three messages tagged under one cipher and nonce, and a search that
  // returns: the hash key is among the candidates and reproduces the third
  // tag, so the assertion that a candidate was found holds.
  lemma KeyIsCandidate(cipher: Encryptor.Cipher, nonce: seq<bv8>, msg1: EncryptionResult, msg2: EncryptionResult,
                       msg3: EncryptionResult, draws: seq<seq<bv128>>)
    requires Tagged(cipher, nonce, msg1) && Tagged(cipher, nonce, msg2) && Tagged(cipher, nonce, msg3)
    requires |msg1.authTag| == |msg2.authTag| == 16 && |Norm(GCM, TagPoly(msg1, msg2))| >= 2
    requires Search(TagPoly(msg1, msg2), draws).Some?
    ensures var zs := Search(TagPoly(msg1, msg2), draws).value;
            && HashKey(cipher) in zs && Consistent(msg1, msg3, HashKey(cipher))
            && LastConsistent(msg1, msg3, zs).Some?
  {
    hide GCM, Gf128.Add, Hash, Eval, TagPoly, Xor, Norm, RootSearch.Run, HashTag, HashKey, LastConsistent,
         Encryptor.PreCounter, Encryptor.Tag;
    var h, f := HashKey(cipher), TagPoly(msg1, msg2);
    var mask: seq<bv8> := cipher(Encryptor.PreCounter(cipher, nonce));
    TagParts(cipher, nonce, msg1); TagParts(cipher, nonce, msg2); TagParts(cipher, nonce, msg3);
    KeyIsRoot(msg1, msg2, h, mask);
    SharedMask(msg1, msg3, h, mask);
    GcmOperations(0, 0);
    GcmIsField();
    RootSearch.RunFindsRoots(GCM, f, draws);
    var zs := Search(f, draws).value;
    var k := OnlyInconsistentDiscarded(msg1, msg3, zs);
    var i :| 0 <= i < |zs| && zs[i] == h;
    assert Consistent(msg1, msg3, zs[i]);
  }

  // If moreover the hash key is the only root of the tag polynomial that
  // reproduces the third tag, the outcome is the true tag of the fourth
  // message.
  lemma RecoveryIsCorrect(cipher: Encryptor.Cipher, nonce: seq<bv8>, msg1: EncryptionResult, msg2: EncryptionResult,
                          msg3: EncryptionResult, msg4: EncryptionResult, draws: seq<seq<bv128>>)
    requires Tagged(cipher, nonce, msg1) && Tagged(cipher, nonce, msg2) && Tagged(cipher, nonce, msg3)
    requires |msg1.authTag| == |msg2.authTag| == 16 && |Norm(GCM, TagPoly(msg1, msg2))| >= 2
    requires Search(TagPoly(msg1, msg2), draws).Some?
    requires forall z ::
      Eval(GCM, TagPoly(msg1, msg2), z) == GCM.zero && Consistent(msg1, msg3, z) ==> z == HashKey(cipher)
    ensures var zs := Search(TagPoly(msg1, msg2), draws).value;
            && LastConsistent(msg1, msg3, zs) == Some(HashKey(cipher))
            && CandidateTag(msg1, msg4, HashKey(cipher))
               == Encryptor.Tag(cipher, nonce, msg4.associatedData, msg4.ciphertext)
  {
    hide GCM, Gf128.Add, Hash, Eval, TagPoly, Xor, Norm, RootSearch.Run, HashTag, HashKey, LastConsistent, Consistent,
         CandidateTag, Encryptor.PreCounter, Encryptor.Tag;
    var f := TagPoly(msg1, msg2);
    KeyIsCandidate(cipher, nonce, msg1, msg2, msg3, draws);
    TagParts(cipher, nonce, msg1); TagParts(cipher, nonce, msg4);
    SharedMask(msg1, msg4, HashKey(cipher), cipher(Encryptor.PreCounter(cipher, nonce)));
    GcmIsField();
    RootSearch.RunFindsRoots(GCM, f, draws);
    var zs := Search(f, draws).value;
    var k := OnlyInconsistentDiscarded(msg1, msg3, zs);
    assert k > 0 && zs[k - 1] in zs;
  }
}
