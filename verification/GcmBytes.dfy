// The 16-byte form of a field element (section 6.3 of NIST SP 800-38D: the
// first bit of the first byte is the coefficient of x^0).
module GcmBytes {
  import opened Gf128

  function Append(v: bv128, b: bv8): bv128 { (v << 8) | b as bv128 }
  function Upper(x: bv128): bv128 { x >> 8 }
  function LastByte(x: bv128): bv8 { (x & 0xff) as bv8 }
  // The big-endian value of the bytes.
  function Joined(bytes: seq<bv8>): bv128 {
    if bytes == [] then 0 else Append(Joined(bytes[..|bytes| - 1]), bytes[|bytes| - 1])
  }

  function Bytes(x: bv128, n: nat): (bytes: seq<bv8>)
    ensures |bytes| == n
    decreases n
  {
    if n == 0 then [] else Bytes(Upper(x), n - 1) + [LastByte(x)]
  }

  predicate TopByteZero(v: bv128) { v >> 120 == 0 }

  lemma AppendParts(v: bv128, b: bv8)
    requires TopByteZero(v)
    ensures Upper(Append(v, b)) == v && LastByte(Append(v, b)) == b
  {
  }

  lemma PartsAppend(x: bv128)
    ensures Append(Upper(x), LastByte(x)) == x
  {
  }

  // x is below 256^n.
  predicate Fits(x: bv128, n: nat)
    decreases n
  {
    if n == 0 then x == 0 else Fits(Upper(x), n - 1)
  }

  lemma FitsStep(x: bv128, n: nat)
    ensures Fits(x, n + 1) == Fits(Upper(x), n)
  {
  }

  lemma {:induction false} FitsMore(x: bv128, n: nat, m: nat)
    requires Fits(x, n) && n <= m
    ensures Fits(x, m)
    decreases m
  {
    if m > 0 {
      assert Upper(0) == 0;
      hide Upper;
      if n == 0 { FitsMore(Upper(x), 0, m - 1); } else { FitsMore(Upper(x), n - 1, m - 1); }
    }
  }

  function Upper4(x: bv128): bv128 { x >> 32 }

  lemma FourSteps(x: bv128)
    ensures Upper(Upper(Upper(Upper(x)))) == Upper4(x)
  {
  }

  lemma FitsFour(x: bv128, n: nat)
    requires n >= 4
    ensures Fits(x, n) == Fits(Upper4(x), n - 4)
  {
    FourSteps(x);
    hide Upper, Upper4;
    assert Fits(x, n) == Fits(Upper(x), n - 1) == Fits(Upper(Upper(x)), n - 2);
    assert Fits(Upper(Upper(x)), n - 2) == Fits(Upper(Upper(Upper(x))), n - 3);
  }

  lemma FitsFew(x: bv128)
    ensures Fits(x, 0) <==> x == 0
    ensures Fits(x, 3) <==> Upper(Upper(Upper(x))) == 0
  {
  }

  lemma LastSteps(x: bv128)
    ensures Upper4(Upper4(Upper4(Upper4(x)))) == 0
    ensures Upper(Upper(Upper(Upper4(Upper4(Upper4(x)))))) == 0 <==> TopByteZero(x)
  {
  }

  lemma FitsBlock(x: bv128)
    ensures Fits(x, 16)
    ensures Fits(x, 15) <==> TopByteZero(x)
  {
    LastSteps(x);
    hide Upper, Upper4, TopByteZero, Fits;
    var y := Upper4(Upper4(Upper4(x)));
    FitsFour(x, 16); FitsFour(Upper4(x), 12); FitsFour(Upper4(Upper4(x)), 8); FitsFour(y, 4);
    FitsFour(x, 15); FitsFour(Upper4(x), 11); FitsFour(Upper4(Upper4(x)), 7);
    FitsFew(y); FitsFew(Upper4(y));
  }

  lemma BytesOfAppend(v: bv128, b: bv8, n: nat)
    requires n <= 15 && Fits(v, n)
    ensures Bytes(Append(v, b), n + 1) == Bytes(v, n) + [b] && Fits(Append(v, b), n + 1)
  {
    hide Append, Upper, LastByte, TopByteZero, Fits;
    FitsMore(v, n, 15);
    FitsBlock(v);
    AppendParts(v, b);
    FitsStep(Append(v, b), n);
  }

  // Reading a block and writing it back.
  lemma {:induction false} BytesOfJoined(bytes: seq<bv8>)
    requires |bytes| <= 16
    ensures Bytes(Joined(bytes), |bytes|) == bytes && Fits(Joined(bytes), |bytes|)
  {
    hide Append, Fits, Bytes;
    if bytes == [] {
      NothingFits();
    } else {
      var n := |bytes| - 1;
      BytesOfJoined(bytes[..n]);
      BytesOfAppend(Joined(bytes[..n]), bytes[n], n);
      assert bytes == bytes[..n] + [bytes[n]];
    }
  }

  lemma NothingFits()
    ensures Fits(0, 0) && Bytes(0, 0) == []
  {
  }

  lemma {:induction false} JoinedOfBytes(x: bv128, n: nat)
    requires Fits(x, n)
    ensures Joined(Bytes(x, n)) == x
    decreases n
  {
    hide Append, Upper, LastByte;
    if n > 0 {
      JoinedOfBytes(Upper(x), n - 1);
      PartsAppend(x);
      var bytes := Bytes(x, n);
      assert bytes[..n - 1] == Bytes(Upper(x), n - 1);
    }
  }

  function FromGcmBytes(bytes: seq<bv8>): bv128
    requires |bytes| == 16
  {
    Joined(bytes)
  }

  function ToGcmBytes(x: bv128): (bytes: seq<bv8>)
    ensures |bytes| == 16
  {
    Bytes(x, 16)
  }

  // The two conversions are inverse to each other.
  lemma GcmBytesRoundTrip(x: bv128, bytes: seq<bv8>)
    requires |bytes| == 16
    ensures FromGcmBytes(ToGcmBytes(x)) == x && ToGcmBytes(FromGcmBytes(bytes)) == bytes
  {
    hide Joined, Bytes, Fits;
    FitsBlock(x);
    JoinedOfBytes(x, 16);
    BytesOfJoined(bytes);
  }

  predicate Coefficient(x: bv128, i: bv8)
    requires i < 128
  {
    Has(x, PowX(i))
  }

  // The byte d places from the end.
  function ByteFromEnd(x: bv128, d: bv8): bv8
    requires d < 16
  {
    ((x >> (8 * d)) & 0xff) as bv8
  }

  lemma ByteFromEndStep(x: bv128, d: bv8)
    requires d < 16
    ensures ByteFromEnd(x, 0) == LastByte(x)
    ensures d > 0 ==> ByteFromEnd(Upper(x), d - 1) == ByteFromEnd(x, d)
  {
  }

  lemma {:induction false} ByteAt(x: bv128, n: nat, i: nat, d: bv8)
    requires i < n <= 16 && d as nat == n - 1 - i
    ensures Bytes(x, n)[i] == ByteFromEnd(x, d)
    decreases n
  {
    hide ByteFromEnd, LastByte, Upper;
    ByteFromEndStep(x, d);
    if i < n - 1 {
      ByteAt(Upper(x), n - 1, i, d - 1);
    }
  }

  lemma BitOfByte(x: bv128, k: bv8, j: bv8)
    requires k < 16 && j < 8
    ensures Coefficient(x, 8 * k + j) <==> (ByteFromEnd(x, 15 - k) >> (7 - j)) & 1 == 1
  {
  }

  // Bit j of byte k, counted from the most significant, is the coefficient of
  // x^(8k + j).
  lemma GcmBytesConvention(x: bv128, k: bv8, j: bv8)
    requires k < 16 && j < 8
    ensures Coefficient(x, 8 * k + j) <==> (ToGcmBytes(x)[k as nat] >> (7 - j)) & 1 == 1
  {
    hide Coefficient, Bytes, ByteFromEnd;
    ByteAt(x, 16, k as nat, 15 - k);
    BitOfByte(x, k, j);
  }
}
