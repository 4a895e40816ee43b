// Fixed-width integers as big-endian byte vectors, and bytewise xor.
module ByteManipulation {

  type Block = b: seq<bv8> | |b| == 16 witness [0, 0, 0, 0, 0, 0, 0, 0, 0, 0, 0, 0, 0, 0, 0, 0]

  function ToByte(value: nat): bv8
    requires value < 256
  {
    value as bv8
  }

  function ByteValue(b: bv8): (value: nat)
    ensures value < 256
  {
    b as nat
  }

  lemma CastBack(value: nat)
    requires value < 256
    ensures ByteValue(ToByte(value)) == value % 256
  {
  }

  lemma ValueOfByte(value: nat)
    requires value < 256
    ensures ByteValue(ToByte(value)) == value
  {
    hide ToByte, ByteValue;
    CastBack(value);
  }

  lemma ByteOfValue(b: bv8)
    ensures ToByte(ByteValue(b)) == b
  {
  }

  // append_as_bytes with std::endian::big, for an n-byte integer.
  function BigEndian(value: nat, n: nat): (bytes: seq<bv8>)
    ensures |bytes| == n
  {
    if n == 0 then [] else BigEndian(value / 256, n - 1) + [ToByte(value % 256)]
  }

  // from_bytes with std::endian::big.
  function FromBigEndian(bytes: seq<bv8>): nat {
    if bytes == [] then 0 else 256 * FromBigEndian(bytes[..|bytes| - 1]) + ByteValue(bytes[|bytes| - 1])
  }

  function Pow256(n: nat): (r: nat)
    ensures r >= 1
  {
    if n == 0 then 1 else 256 * Pow256(n - 1)
  }

  lemma {:induction false} FromBigEndianBound(bytes: seq<bv8>)
    ensures FromBigEndian(bytes) < Pow256(|bytes|)
  {
    hide ByteValue;
    if bytes != [] {
      FromBigEndianBound(bytes[..|bytes| - 1]);
    }
  }

  lemma FromBigEndianSnoc(bytes: seq<bv8>, b: bv8)
    ensures FromBigEndian(bytes + [b]) == 256 * FromBigEndian(bytes) + ByteValue(b)
  {
    hide ByteValue;
    assert (bytes + [b])[..|bytes|] == bytes;
  }

  lemma LeadingFits(value: nat, n: nat)
    requires n > 0 && value < Pow256(n)
    ensures value / 256 < Pow256(n - 1)
  {
  }

  lemma NothingRead(value: nat)
    requires value < Pow256(0)
    ensures FromBigEndian([]) == value
  {
  }

  // Writing n bytes and reading them back, for values that fit.
  lemma {:induction false} ReadWritten(value: nat, n: nat)
    requires value < Pow256(n)
    ensures FromBigEndian(BigEndian(value, n)) == value
  {
    hide ToByte, ByteValue, Pow256, FromBigEndian;
    if n == 0 {
      NothingRead(value);
    } else {
      LeadingFits(value, n);
      ReadWritten(value / 256, n - 1);
      ValueOfByte(value % 256);
      FromBigEndianSnoc(BigEndian(value / 256, n - 1), ToByte(value % 256));
    }
  }

  lemma Apart(d: int, m: int)
    requires m > 0
    ensures d > 0 ==> m * d >= m
    ensures d < 0 ==> m * d <= -m
  {
  }

  lemma QuotientIs(q: nat, r: nat, m: nat)
    requires r < m
    ensures (m * q + r) / m == q
  {
    var x := m * q + r;
    assert m * (x / m - q) == r - x % m;
    Apart(x / m - q, m);
  }

  lemma DivideTwice(value: nat, m: nat)
    requires m > 0
    ensures value / 256 / m == value / (256 * m)
  {
    var q, r := value / (256 * m), value % (256 * m);
    var low := r % 256;
    assert r == 256 * (r / 256) + low;
    assert value == 256 * (m * q + r / 256) + low;
    assert value / 256 == m * q + r / 256;
    assert r / 256 < m;
    QuotientIs(q, r / 256, m);
  }

  // Byte i from the left is digit n - 1 - i in base 256.
  lemma {:induction false} BigEndianDigit(value: nat, n: nat, i: nat)
    requires i < n
    ensures ByteValue(BigEndian(value, n)[i]) == value / Pow256(n - 1 - i) % 256
  {
    hide ToByte, ByteValue;
    if i == n - 1 {
      ValueOfByte(value % 256);
    } else {
      BigEndianDigit(value / 256, n - 1, i);
      DivideTwice(value, Pow256(n - 2 - i));
    }
  }

  lemma {:induction false} WrittenRead(bytes: seq<bv8>)
    ensures BigEndian(FromBigEndian(bytes), |bytes|) == bytes
  {
    hide ToByte, ByteValue;
    if bytes != [] {
      var n := |bytes| - 1;
      WrittenRead(bytes[..n]);
      ByteOfValue(bytes[n]);
      assert bytes == bytes[..n] + [bytes[n]];
    }
  }

  function XorByte(a: bv8, b: bv8): bv8 { a ^ b }

  // Bit by bit; mask is a single bit.
  lemma XorByteBit(a: bv8, b: bv8, mask: bv8)
    requires mask & (mask - 1) == 0
    ensures XorByte(a, b) & mask != 0 <==> (a & mask != 0) != (b & mask != 0)
  {
  }

  function Xor(a: seq<bv8>, b: seq<bv8>): (r: seq<bv8>)
    requires |a| == |b|
    ensures |r| == |a|
  {
    seq(|a|, i requires 0 <= i < |a| => XorByte(a[i], b[i]))
  }

  lemma XorTwice(a: seq<bv8>, b: seq<bv8>)
    requires |a| == |b|
    ensures Xor(Xor(a, b), b) == a && Xor(a, b) == Xor(b, a)
  {
  }

  // std::transform with std::bit_xor, writing over one of its ranges.
  method XorInto(a: seq<bv8>, b: seq<bv8>) returns (out: seq<bv8>)
    requires |a| == |b|
    ensures out == Xor(a, b)
  {
    hide XorByte;
    out := b;
    var i := 0;
    while i < |a|
      invariant 0 <= i <= |a| == |out|
      invariant forall k :: 0 <= k < i ==> out[k] == XorByte(a[k], b[k])
      invariant forall k :: i <= k < |a| ==> out[k] == b[k]
    {
      out := out[i := XorByte(a[i], out[i])];
      i := i + 1;
    }
    assert out == Xor(a, b);
  }
}
