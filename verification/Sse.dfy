// The 128-bit vector register as a bv128 (lane 0 is the low end), with the
// SSE2 operations the program applies to it.
module Sse {

  // _mm_srli_epi32 and _mm_slli_epi32: four 32-bit lanes, shifted apart.
  function SrliEpi32(x: bv128, n: bv8): bv128
    requires n <= 32
  {
    (((x >> 96) as bv32 >> n) as bv128 << 96)
    | ((((x >> 64) & 0xffffffff) as bv32 >> n) as bv128 << 64)
    | ((((x >> 32) & 0xffffffff) as bv32 >> n) as bv128 << 32)
    | ((x & 0xffffffff) as bv32 >> n) as bv128
  }

  function SlliEpi32(x: bv128, n: bv8): bv128
    requires n <= 32
  {
    (((x >> 96) as bv32 << n) as bv128 << 96)
    | ((((x >> 64) & 0xffffffff) as bv32 << n) as bv128 << 64)
    | ((((x >> 32) & 0xffffffff) as bv32 << n) as bv128 << 32)
    | ((x & 0xffffffff) as bv32 << n) as bv128
  }

  // _mm_srli_si128 and _mm_slli_si128: the whole register, by bytes.
  function SrliSi128(x: bv128, bytes: bv8): bv128
    requires bytes <= 16
  {
    x >> (8 * bytes)
  }

  function SlliSi128(x: bv128, bytes: bv8): bv128
    requires bytes <= 16
  {
    x << (8 * bytes)
  }

  // _mm_or_si128.
  function Or(a: bv128, b: bv128): bv128 { a | b }

  // SSE::from_index, assembled from two 64-bit lanes.
  function FromIndex(index: bv8): bv128
    requires index < 128
  {
    var high: bv64 := if index >= 64 then 1 << (index - 64) else 0;
    var low: bv64 := if index >= 64 then 0 else 1 << index;
    ((high as bv128) << 64) | low as bv128
  }

  lemma FromIndexIsShift(index: bv8)
    requires index < 128
    ensures FromIndex(index) == (1 as bv128) << index
  {
  }

  // SSE::test.
  predicate Test(x: bv128, index: bv8)
    requires index < 128
  {
    x & FromIndex(index) != 0
  }

  // The exponent step of both square-and-multiply loops.
  function NextExponent(exponent: bv128): bv128 {
    var shifted := SrliEpi32(exponent, 1);
    var carry := SlliEpi32(exponent, 31);
    Or(shifted, SrliSi128(carry, 4))
  }

  // Moving each lane's low bit into the lane below makes the four lane shifts
  // one shift of the whole register.
  lemma NextExponentIsShift(exponent: bv128)
    ensures NextExponent(exponent) == exponent >> 1
  {
  }

  // The number in the register, lane 0 least significant.
  ghost function Val(x: bv128): nat
    decreases x
  {
    if x == 0 then 0 else (if x & 1 == 1 then 1 else 0) + 2 * Val(x >> 1)
  }

  lemma ValParts(x: bv128)
    ensures Val(x) == 2 * Val(x >> 1) + if x & 1 != 0 then 1 else 0
  {
  }

  // The number of halvings that bring x to zero: at most 128.
  ghost function Width(x: bv128): nat
    decreases x
  {
    if x == 0 then 0 else 1 + Width(x >> 1)
  }

  lemma WidthStep(x: bv128)
    requires x != 0
    ensures Width(x) == 1 + Width(x >> 1)
  {
  }

  lemma {:induction false} WidthBelow(x: bv128, n: nat, k: bv8)
    requires k <= 128 && n == k as nat && x >> k == 0
    ensures Width(x) <= n
    decreases n
  {
    if x != 0 {
      assert (x >> 1) >> (k - 1) == 0 && k > 0;
      WidthBelow(x >> 1, n - 1, k - 1);
    }
  }

  lemma WidthBound(x: bv128)
    ensures Width(x) <= 128
  {
    assert x >> 128 == 0;
    WidthBelow(x, 128, 128);
  }
}
