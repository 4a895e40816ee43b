// GHASH as section 6.4 of NIST SP 800-38D defines it, on sequences of blocks,
// and the blocks that GCM feeds to it (section 7.1).
module GhashFunction {
  import opened Gf128
  import opened GcmBytes
  import opened ByteManipulation

  const TWO_64: nat := 0x1_0000_0000_0000_0000

  type Uint64 = value: nat | value < TWO_64

  // The value kept by a 64-bit unsigned integer.
  function Mod64(value: int): Uint64 { value % TWO_64 }

  // Y_i = (Y_{i-1} + X_i) * H, from Y_0 = 0.
  ghost function Hash(h: bv128, blocks: seq<bv128>): bv128 {
    if blocks == [] then 0
    else Mul(Add(Hash(h, blocks[..|blocks| - 1]), blocks[|blocks| - 1]), h)
  }

  function ZeroBytes(n: nat): seq<bv8> { seq(n, _ => 0) }

  // Bytes missing from the last block.
  function Missing(length: nat): (n: nat)
    ensures n < 16 && (length + n) % 16 == 0
    ensures length % 16 != 0 ==> n == 16 - length % 16
    ensures length % 16 == 0 ==> n == 0
  {
    (16 - length % 16) % 16
  }

  function Pad(s: seq<bv8>): (r: seq<bv8>)
    ensures |r| % 16 == 0 && |r| == |s| + Missing(|s|)
  {
    s + ZeroBytes(Missing(|s|))
  }

  // The complete blocks of s.
  ghost function Blocks(s: seq<bv8>): (blocks: seq<bv128>)
    ensures |blocks| == |s| / 16
  {
    seq(|s| / 16, i requires 0 <= i < |s| / 16 => FromGcmBytes(s[16 * i..16 * i + 16]))
  }

  lemma BlocksSum(s: seq<bv8>, t: seq<bv8>)
    requires |s| % 16 == 0
    ensures Blocks(s + t) == Blocks(s) + Blocks(t)
  {
    hide FromGcmBytes;
    var n := |s| / 16;
    forall i | 0 <= i < |Blocks(t)| ensures Blocks(s + t)[n + i] == Blocks(t)[i] {
      assert (s + t)[16 * (n + i)..16 * (n + i) + 16] == t[16 * i..16 * i + 16];
    }
    forall i | 0 <= i < n ensures Blocks(s + t)[i] == Blocks(s)[i] {
      assert (s + t)[16 * i..16 * i + 16] == s[16 * i..16 * i + 16];
    }
  }

  lemma MultiplesSum(m: nat, n: nat)
    requires m % 16 == 0 && n % 16 == 0
    ensures (m + n) % 16 == 0
  {
  }

  // len64(A) || len64(C), in bits and modulo 2^64.
  function LengthBytes(associated: nat, ciphertext: nat): (r: seq<bv8>)
    ensures |r| == 16
  {
    BigEndian(Mod64(8 * associated), 8) + BigEndian(Mod64(8 * ciphertext), 8)
  }

  function MessageBytes(associated: seq<bv8>, ciphertext: seq<bv8>): seq<bv8> {
    Pad(associated) + Pad(ciphertext) + LengthBytes(|associated|, |ciphertext|)
  }

  ghost function MessageBlocks(associated: seq<bv8>, ciphertext: seq<bv8>): seq<bv128> {
    Blocks(Pad(associated)) + Blocks(Pad(ciphertext)) + [FromGcmBytes(LengthBytes(|associated|, |ciphertext|))]
  }

  lemma MessageBlocksAre(associated: seq<bv8>, ciphertext: seq<bv8>)
    ensures Blocks(MessageBytes(associated, ciphertext)) == MessageBlocks(associated, ciphertext)
  {
    hide FromGcmBytes, Pad, LengthBytes;
    var length := LengthBytes(|associated|, |ciphertext|);
    MultiplesSum(|Pad(associated)|, |Pad(ciphertext)|);
    BlocksSum(Pad(associated) + Pad(ciphertext), length);
    BlocksSum(Pad(associated), Pad(ciphertext));
    assert length[0..16] == length;
    assert Blocks(length) == [FromGcmBytes(length)];
  }

  lemma EightBytes()
    ensures Pow256(8) == 0x1_0000_0000_0000_0000
  {
  }

  // Both lengths can be read back, in bits and modulo 2^64.
  lemma LengthsRead(associated: nat, ciphertext: nat)
    ensures var length := LengthBytes(associated, ciphertext);
            && FromBigEndian(length[..8]) == 8 * associated % 0x1_0000_0000_0000_0000
            && FromBigEndian(length[8..]) == 8 * ciphertext % 0x1_0000_0000_0000_0000
  {
    hide BigEndian, FromBigEndian, Pow256;
    var length := LengthBytes(associated, ciphertext);
    EightBytes();
    ReadWritten(Mod64(8 * associated), 8);
    ReadWritten(Mod64(8 * ciphertext), 8);
    assert length[..8] == BigEndian(Mod64(8 * associated), 8);
    assert length[8..] == BigEndian(Mod64(8 * ciphertext), 8);
  }

  lemma PadLayout(s: seq<bv8>)
    ensures |Pad(s)| == (|s| + 15) / 16 * 16
    ensures Pad(s)[..|s|] == s && forall i :: |s| <= i < |Pad(s)| ==> Pad(s)[i] == 0
  {
  }

  lemma ThreeParts(a: seq<bv8>, b: seq<bv8>, c: seq<bv8>)
    ensures forall i :: 0 <= i < |a| ==> (a + b + c)[i] == a[i]
    ensures forall i :: |a| <= i < |a| + |b| ==> (a + b + c)[i] == b[i - |a|]
    ensures (a + b + c)[|a| + |b|..] == c
  {
  }

  // The hashed message byte by byte: both parts, each filled up with zeros to
  // whole blocks, and the two lengths in bits.
  lemma MessageLayout(associated: seq<bv8>, ciphertext: seq<bv8>)
    ensures var message := MessageBytes(associated, ciphertext);
            var a := (|associated| + 15) / 16 * 16;
            var n := a + (|ciphertext| + 15) / 16 * 16;
            && |message| == n + 16
            && message[..|associated|] == associated
            && (forall i :: |associated| <= i < a ==> message[i] == 0)
            && message[a..a + |ciphertext|] == ciphertext
            && (forall i :: a + |ciphertext| <= i < n ==> message[i] == 0)
            && FromBigEndian(message[n..n + 8]) == 8 * |associated| % 0x1_0000_0000_0000_0000
            && FromBigEndian(message[n + 8..]) == 8 * |ciphertext| % 0x1_0000_0000_0000_0000
  {
    hide LengthBytes, FromBigEndian, Pad;
    var a, c := Pad(associated), Pad(ciphertext);
    var length := LengthBytes(|associated|, |ciphertext|);
    LengthsRead(|associated|, |ciphertext|);
    PadLayout(associated);
    PadLayout(ciphertext);
    ThreeParts(a, c, length);
    var message := a + c + length;
    assert message[|a| + |c|..|a| + |c| + 8] == message[|a| + |c|..][..8] == length[..8];
    assert message[|a| + |c| + 8..] == message[|a| + |c|..][8..] == length[8..];
  }

  // Padding what is already padded in front changes only the tail.
  lemma PadAfter(s: seq<bv8>, t: seq<bv8>)
    requires |s| % 16 == 0
    ensures Pad(s + t) == s + Pad(t)
  {
    assert |s + t| % 16 == |t| % 16;
  }
}
