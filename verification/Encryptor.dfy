// GCM::Encryptor: counter mode with a running GHASH, over any block cipher.
module Encryptor {
  import opened GcmBytes
  import opened ByteManipulation
  import opened GhashFunction
  import opened GhashStream

  type Cipher = Block -> Block

  const TWO_32: nat := 0x1_0000_0000

  type Uint32 = value: nat | value < TWO_32

  // The value kept by a 32-bit unsigned integer.
  function Mod32(value: nat): Uint32 { value % TWO_32 }

  // inc32 of section 6.2 of NIST SP 800-38D: the last four bytes count up
  // modulo 2^32, the others stay.
  ghost function Inc32(block: Block): Block {
    block[..12] + BigEndian(Mod32(FromBigEndian(block[12..]) + 1), 4)
  }

  ghost function IncTimes(block: Block, i: nat): Block {
    if i == 0 then block else Inc32(IncTimes(block, i - 1))
  }

  // GCTR of section 6.5: one counter block after another from icb on, the
  // last one cut to what is left of the data.
  ghost function GctrBlocks(cipher: Cipher, icb: Block, data: seq<bv8>): seq<bv8>
    decreases |data|
  {
    if |data| <= 16 then Xor(data, cipher(icb)[..|data|])
    else Xor(data[..16], cipher(icb)) + GctrBlocks(cipher, Inc32(icb), data[16..])
  }

  // The block for a counter i, without the blocks before it.
  ghost function CounterBlock(y0: Block, i: nat): Block {
    y0[..12] + BigEndian(Mod32(FromBigEndian(y0[12..]) + i), 4)
  }

  // Byte i is masked by byte i % 16 of the cipher of the block for counter
  // 1 + i / 16.
  ghost function KeystreamByte(cipher: Cipher, y0: Block, i: nat): bv8 {
    cipher(CounterBlock(y0, 1 + i / 16))[i % 16]
  }

  ghost function Gctr(cipher: Cipher, y0: Block, start: nat, data: seq<bv8>): (r: seq<bv8>)
    ensures |r| == |data|
  {
    seq(|data|, i requires 0 <= i < |data| => XorByte(data[i], KeystreamByte(cipher, y0, start + i)))
  }

  // ----- The counter blocks -----

  // Counting 2^32 blocks from J0 never repeats one: the first 2^32 - 1 blocks
  // of keystream and J0 itself, which masks the tag, are pairwise distinct.
  lemma CounterBlocksDistinct(y0: Block, i: nat, j: nat)
    requires i < j < TWO_32
    ensures CounterBlock(y0, i) != CounterBlock(y0, j)
  {
    hide FromBigEndian, BigEndian;
    var v := FromBigEndian(y0[12..]);
    var a, b := Mod32(v + i), Mod32(v + j);
    WrapsApart(v, i, j);
    FourBytes();
    ReadWritten(a, 4);
    ReadWritten(b, 4);
    assert CounterBlock(y0, i)[12..] == BigEndian(a, 4);
    assert CounterBlock(y0, j)[12..] == BigEndian(b, 4);
  }

  lemma WrapsApart(v: nat, i: nat, j: nat)
    requires i < j < TWO_32
    ensures Mod32(v + i) != Mod32(v + j)
  {
  }

  lemma FourBytes()
    ensures Pow256(4) == TWO_32
  {
  }

  lemma CounterBlockZero(y0: Block)
    ensures CounterBlock(y0, 0) == y0
  {
    hide BigEndian, FromBigEndian, Pow256;
    FromBigEndianBound(y0[12..]);
    FourBytes();
    WrittenRead(y0[12..]);
    assert Mod32(FromBigEndian(y0[12..])) == FromBigEndian(y0[12..]);
    assert y0 == y0[..12] + y0[12..];
  }

  lemma CounterBlockWraps(y0: Block, i: nat)
    ensures CounterBlock(y0, Mod32(i)) == CounterBlock(y0, i)
  {
    hide BigEndian, FromBigEndian;
    var v := FromBigEndian(y0[12..]);
    assert Mod32(v + Mod32(i)) == Mod32(v + i);
  }

  lemma IncOfCounter(y0: Block, i: nat)
    ensures Inc32(CounterBlock(y0, i)) == CounterBlock(y0, i + 1)
  {
    hide BigEndian, FromBigEndian;
    var v := FromBigEndian(y0[12..]);
    var count: nat := Mod32(v + i);
    FourBytes();
    ReadWritten(count, 4);
    assert CounterBlock(y0, i)[..12] == y0[..12];
    assert CounterBlock(y0, i)[12..] == BigEndian(count, 4);
    assert Mod32(count + 1) == Mod32(v + (i + 1));
  }

  // The block the program computes directly is inc32 applied i times to J0.
  lemma {:induction false} CounterIsIncTimes(y0: Block, i: nat)
    ensures CounterBlock(y0, i) == IncTimes(y0, i)
  {
    hide CounterBlock, Inc32;
    if i == 0 {
      CounterBlockZero(y0);
    } else {
      CounterIsIncTimes(y0, i - 1);
      IncOfCounter(y0, i - 1);
    }
  }

  // ----- The mode is its own inverse and does not see chunks -----

  lemma GctrTwice(cipher: Cipher, y0: Block, start: nat, data: seq<bv8>)
    ensures Gctr(cipher, y0, start, Gctr(cipher, y0, start, data)) == data
  {
  }

  lemma GctrSplit(cipher: Cipher, y0: Block, start: nat, a: seq<bv8>, b: seq<bv8>)
    ensures Gctr(cipher, y0, start, a + b) == Gctr(cipher, y0, start, a) + Gctr(cipher, y0, start + |a|, b)
  {
    hide KeystreamByte, XorByte;
  }

  // ----- The keystream by bytes is GCTR by blocks -----

  lemma MaskedBlock(cipher: Cipher, y0: Block, k: nat, data: seq<bv8>)
    requires |data| <= 16
    ensures Gctr(cipher, y0, 16 * k, data) == Xor(data, cipher(CounterBlock(y0, 1 + k))[..|data|])
  {
    hide CounterBlock, XorByte;
  }

  lemma {:induction false} GctrFromBlock(cipher: Cipher, y0: Block, k: nat, data: seq<bv8>)
    ensures Gctr(cipher, y0, 16 * k, data) == GctrBlocks(cipher, CounterBlock(y0, 1 + k), data)
    decreases |data|
  {
    hide CounterBlock, Gctr, Inc32, Xor;
    if |data| <= 16 {
      MaskedBlock(cipher, y0, k, data);
    } else {
      var first, rest := data[..16], data[16..];
      assert data == first + rest;
      MaskedBlock(cipher, y0, k, first);
      GctrSplit(cipher, y0, 16 * k, first, rest);
      GctrFromBlock(cipher, y0, k + 1, rest);
      IncOfCounter(y0, 1 + k);
      assert cipher(CounterBlock(y0, 1 + k))[..16] == cipher(CounterBlock(y0, 1 + k));
    }
  }

  // Masking each byte by its position is GCTR with ICB = inc32(J0).
  lemma GctrIsBlockwise(cipher: Cipher, y0: Block, data: seq<bv8>)
    ensures Gctr(cipher, y0, 0, data) == GctrBlocks(cipher, Inc32(y0), data)
  {
    hide *;
    GctrFromBlock(cipher, y0, 0, data);
    CounterBlockZero(y0);
    IncOfCounter(y0, 0);
  }

  // ----- The pre-counter block -----

  ghost function AuthKey(cipher: Cipher): Block { cipher(ZeroBytes(16)) }

  // Step 2 of section 7.1.
  ghost function PreCounter(cipher: Cipher, nonce: seq<bv8>): Block {
    if |nonce| == 12 then nonce + [0, 0, 0, 1]
    else ToGcmBytes(Hash(FromGcmBytes(AuthKey(cipher)), MessageBlocks([], nonce)))
  }

  // Hashing the nonce as a ciphertext without associated data hashes
  // IV || 0^(s+64) || len64(IV).
  lemma NonceMessage(nonce: seq<bv8>)
    ensures MessageBytes([], nonce)
            == nonce + ZeroBytes(Missing(|nonce|) + 8) + BigEndian(Mod64(8 * |nonce|), 8)
  {
    hide Mod64;
    assert Pad([]) == [];
    assert Mod64(0) == 0 by { Mod64Of(0); }
    ZeroBigEndian(8);
    assert ZeroBytes(Missing(|nonce|)) + ZeroBytes(8) == ZeroBytes(Missing(|nonce|) + 8);
    var padding := ZeroBytes(Missing(|nonce|));
    assert MessageBytes([], nonce) == nonce + padding + ZeroBytes(8) + BigEndian(Mod64(8 * |nonce|), 8);
  }

  lemma {:induction false} ZeroBigEndian(n: nat)
    ensures BigEndian(0, n) == ZeroBytes(n)
  {
    hide ToByte;
    if n > 0 {
      ZeroBigEndian(n - 1);
      assert ToByte(0) == 0 by { ByteOfValue(0); ZeroByte(); }
      assert ZeroBytes(n) == ZeroBytes(n - 1) + [0];
    }
  }

  lemma ZeroByte()
    ensures ByteValue(0) == 0
  {
  }

  const ZERO_BLOCK: Block := [0, 0, 0, 0, 0, 0, 0, 0, 0, 0, 0, 0, 0, 0, 0, 0]

  lemma AuthKeyIs(cipher: Cipher)
    ensures AuthKey(cipher) == cipher(ZERO_BLOCK)
  {
    assert ZeroBytes(16) == ZERO_BLOCK;
  }

  lemma CountsOne(b: seq<bv8>)
    requires b == [0, 0, 0, 1]
    ensures FromBigEndian(b) == 1
  {
    ZeroByte();
    OneByte();
    FromBigEndianSnoc([], 0);
    FromBigEndianSnoc([0], 0);
    FromBigEndianSnoc([0, 0], 0);
    FromBigEndianSnoc([0, 0, 0], 1);
    assert [0] + [0] == [0, 0] && [0, 0] + [0] == [0, 0, 0] && [0, 0, 0] + [1] == b;
  }

  lemma OneByte()
    ensures ByteValue(1) == 1
  {
  }

  // J0 of section 7.1: a 12-byte nonce with a 32-bit counter at one, and
  // otherwise the hash of the nonce, zeros up to a block and eight more, and
  // the length of the nonce in bits.
  lemma PreCounterIs(cipher: Cipher, nonce: seq<bv8>)
    ensures |nonce| == 12 ==>
              var j0 := PreCounter(cipher, nonce);
              j0[..12] == nonce && FromBigEndian(j0[12..]) == 1
    ensures |nonce| != 12 ==>
              var zeros := ZeroBytes((16 - |nonce| % 16) % 16 + 8);
              var length := BigEndian(8 * |nonce| % 0x1_0000_0000_0000_0000, 8);
              PreCounter(cipher, nonce)
              == ToGcmBytes(Hash(FromGcmBytes(cipher(ZERO_BLOCK)), Blocks(nonce + zeros + length)))
  {
    hide Hash, FromGcmBytes, ToGcmBytes, BigEndian, FromBigEndian, MessageBlocks, Blocks, AuthKey;
    if |nonce| == 12 {
      CountsOne((nonce + [0, 0, 0, 1])[12..]);
    } else {
      AuthKeyIs(cipher);
      NonceMessage(nonce);
      MessageBlocksAre([], nonce);
    }
  }

  // The tag of section 7.1, steps 6 and 7, for a 128-bit tag.
  ghost function Tag(cipher: Cipher, nonce: seq<bv8>, associated: seq<bv8>, ciphertext: seq<bv8>): seq<bv8> {
    Xor(ToGcmBytes(Hash(FromGcmBytes(AuthKey(cipher)), MessageBlocks(associated, ciphertext))),
        cipher(PreCounter(cipher, nonce)))
  }

  lemma TagIs(cipher: Cipher, nonce: seq<bv8>, associated: seq<bv8>, ciphertext: seq<bv8>)
    ensures Tag(cipher, nonce, associated, ciphertext)
            == Xor(ToGcmBytes(Hash(FromGcmBytes(AuthKey(cipher)), MessageBlocks(associated, ciphertext))),
                   cipher(PreCounter(cipher, nonce)))
  {
  }

  lemma TagOfBytes(cipher: Cipher, nonce: seq<bv8>, associated: seq<bv8>, ciphertext: seq<bv8>)
    ensures Tag(cipher, nonce, associated, ciphertext)
            == Xor(ToGcmBytes(Hash(FromGcmBytes(cipher(ZERO_BLOCK)), Blocks(MessageBytes(associated, ciphertext)))),
                   cipher(PreCounter(cipher, nonce)))
  {
    hide *;
    TagIs(cipher, nonce, associated, ciphertext);
    AuthKeyIs(cipher);
    MessageBlocksAre(associated, ciphertext);
  }

  // ----- The keystream position -----

  // After pos bytes, ceil(pos / 16) blocks have been made and what is left of
  // the last one is kept; the counter, a 32-bit integer, is one ahead.
  ghost predicate At(cipher: Cipher, y0: Block, pos: nat, y: Uint32, keystream: seq<bv8>) {
    var made := (pos + 15) / 16;
    && y == Mod32(1 + made)
    && keystream == if pos % 16 == 0 then [] else cipher(CounterBlock(y0, made))[pos % 16..]
  }

  lemma AtStart(cipher: Cipher, y0: Block)
    ensures At(cipher, y0, 0, 1, [])
  {
  }

  lemma AtNextBlock(cipher: Cipher, y0: Block, pos: nat, y: Uint32)
    requires At(cipher, y0, pos, y, [])
    ensures var block := cipher(CounterBlock(y0, y));
            block[0] == KeystreamByte(cipher, y0, pos) && At(cipher, y0, pos + 1, Mod32(y + 1), block[1..])
  {
    hide CounterBlock;
    var made := (pos + 15) / 16;
    assert pos % 16 == 0;
    CounterBlockWraps(y0, 1 + made);
    assert (pos + 1 + 15) / 16 == 1 + made;
    assert made == pos / 16;
  }

  lemma AtNextByte(cipher: Cipher, y0: Block, pos: nat, y: Uint32, keystream: seq<bv8>)
    requires At(cipher, y0, pos, y, keystream) && keystream != []
    ensures keystream[0] == KeystreamByte(cipher, y0, pos) && At(cipher, y0, pos + 1, y, keystream[1..])
  {
    hide CounterBlock;
    var made := (pos + 15) / 16;
    assert pos % 16 != 0 && made == 1 + pos / 16;
    var block := cipher(CounterBlock(y0, made));
    assert (pos + 1 + 15) / 16 == made;
    if (pos + 1) % 16 == 0 {
      assert pos % 16 == 15;
      assert block[15..][1..] == [];
    } else {
      assert (pos + 1) % 16 == pos % 16 + 1;
      assert block[pos % 16..][1..] == block[pos % 16 + 1..];
    }
  }

  // The first bytes of the ciphertext.
  ghost predicate IsGctr(cipher: Cipher, y0: Block, start: nat, data: seq<bv8>, done: seq<bv8>) {
    |done| <= |data| && done == Gctr(cipher, y0, start, data[..|done|])
  }

  lemma GctrNone(cipher: Cipher, y0: Block, start: nat, data: seq<bv8>)
    ensures IsGctr(cipher, y0, start, data, [])
  {
  }

  lemma GctrNext(cipher: Cipher, y0: Block, start: nat, data: seq<bv8>, done: seq<bv8>)
    requires IsGctr(cipher, y0, start, data, done) && |done| < |data|
    ensures IsGctr(cipher, y0, start, data,
                   done + [XorByte(data[|done|], KeystreamByte(cipher, y0, start + |done|))])
  {
    hide KeystreamByte, XorByte;
  }

  lemma GctrAll(cipher: Cipher, y0: Block, start: nat, data: seq<bv8>, done: seq<bv8>)
    requires IsGctr(cipher, y0, start, data, done) && |done| == |data|
    ensures done == Gctr(cipher, y0, start, data)
  {
  }

  class Encryptor {
    const cipher: Cipher
    var y0: Block
    var y: Uint32
    var keystream: seq<bv8>
    const hasher: Ghash

    // The nonce, the number of bytes encrypted, and the bytes themselves.
    ghost const nonce: seq<bv8>
    ghost var position: nat
    ghost var message: seq<bv8>

    // However the message was cut up, the hash has been fed the encryption of
    // the whole of it.
    ghost predicate Valid()
      reads this, hasher
    {
      && hasher.Valid()
      && hasher.authKey == FromGcmBytes(AuthKey(cipher))
      && y0 == PreCounter(cipher, nonce)
      && position == |message|
      && At(cipher, y0, position, y, keystream)
      && (!hasher.finalized ==> hasher.Ciphertext() == Gctr(cipher, y0, 0, message))
    }

    lemma IsAt()
      requires Valid()
      ensures At(cipher, y0, position, y, keystream) && hasher.Valid() && hasher.Consistent()
      ensures hasher.authKey == FromGcmBytes(AuthKey(cipher)) && y0 == PreCounter(cipher, nonce)
      ensures position == |message|
      ensures !hasher.finalized ==> hasher.Ciphertext() == Gctr(cipher, y0, 0, message)
    {
    }

    lemma RemainsValid()
      requires At(cipher, y0, position, y, keystream) && hasher.Valid()
      requires hasher.authKey == FromGcmBytes(AuthKey(cipher)) && y0 == PreCounter(cipher, nonce)
      requires position == |message|
      requires !hasher.finalized ==> hasher.Ciphertext() == Gctr(cipher, y0, 0, message)
      ensures Valid()
    {
    }

    constructor (associatedData: seq<bv8>, cipher: Cipher, nonce: seq<bv8>)
      ensures Valid() && fresh(hasher) && this.cipher == cipher && this.nonce == nonce && !hasher.finalized
      ensures hasher.associated == associatedData && message == []
      ensures |nonce| == 12 ==> y0[..12] == nonce && FromBigEndian(y0[12..]) == 1
      ensures |nonce| != 12 ==>
                var zeros := ZeroBytes((16 - |nonce| % 16) % 16 + 8);
                var length := BigEndian(8 * |nonce| % 0x1_0000_0000_0000_0000, 8);
                y0 == ToGcmBytes(Hash(FromGcmBytes(cipher(ZERO_BLOCK)), Blocks(nonce + zeros + length)))
    {
      hide Hash, MessageBlocks, FromGcmBytes, ToGcmBytes, Pad, Absorbed, Counts, After;
      this.cipher := cipher;
      this.nonce := nonce;
      y := 1;
      keystream := [];
      position := 0;
      message := [];
      var h := H(cipher);
      hasher := new Ghash(associatedData, h);
      if |nonce| == 12 {
        var block := nonce + ZeroBytes(4);
        y0 := block[15 := 1];
        assert block[15 := 1] == nonce + [0, 0, 0, 1];
      } else {
        var tag := HashMessage(nonce, [], h);
        y0 := tag;
      }
      new;
      AtStart(cipher, y0);
      PreCounterIs(cipher, nonce);
    }

    static method H(cipher: Cipher) returns (key: Block)
      ensures key == AuthKey(cipher) == cipher(ZERO_BLOCK)
    {
      AuthKeyIs(cipher);
      key := cipher(ZeroBytes(16));
    }

    method YBlock(offset: Uint32) returns (block: Block)
      ensures block == IncTimes(y0, offset) == CounterBlock(y0, offset)
    {
      CounterIsIncTimes(y0, offset);
      var counter := FromBigEndian(y0[12..]);
      counter := Mod32(counter + offset);
      block := y0[..12] + BigEndian(counter, 4);
    }

    // One keystream byte for each byte of plaintext. ok is false where the
    // program throws: the hash is already finalised. The keystream has then
    // been consumed all the same.
    method Update(plaintext: seq<bv8>) returns (ok: bool, ciphertext: seq<bv8>)
      requires Valid()
      modifies this, hasher
      ensures Valid() && message == old(message) + plaintext
      ensures ok <==> !old(hasher.finalized)
      ensures hasher.finalized == old(hasher.finalized)
      ensures ciphertext == Gctr(cipher, PreCounter(cipher, nonce), |old(message)|, plaintext)
      ensures old(message) == [] ==> ciphertext == GctrBlocks(cipher, Inc32(PreCounter(cipher, nonce)), plaintext)
    {
      hide *;
      IsAt();
      ghost var start, done := position, Gctr(cipher, y0, 0, message);
      GctrSplit(cipher, y0, 0, message, plaintext);
      ciphertext := [];
      GctrNone(cipher, y0, position, plaintext);
      var i := 0;
      while i < |plaintext|
        invariant 0 <= i <= |plaintext|
        invariant At(cipher, y0, position, y, keystream) && position == start + i
        invariant IsGctr(cipher, y0, start, plaintext, ciphertext) && |ciphertext| == i
        modifies `y, `keystream, `position
      {
        var pt := plaintext[i];
        if |keystream| == 0 {
          AtNextBlock(cipher, y0, position, y);
          var block := YBlock(y);
          keystream := cipher(block);
          y := Mod32(y + 1);
        } else {
          AtNextByte(cipher, y0, position, y, keystream);
        }
        GctrNext(cipher, y0, start, plaintext, ciphertext);
        ciphertext := ciphertext + [XorByte(pt, keystream[0])];
        keystream := keystream[1..];
        position := position + 1;
        i := i + 1;
      }
      GctrAll(cipher, y0, start, plaintext, ciphertext);
      GctrIsBlockwise(cipher, y0, plaintext);
      assert done + ciphertext == Gctr(cipher, y0, 0, message + plaintext);
      message := message + plaintext;
      ok := hasher.Update(ciphertext);
      RemainsValid();
    }

    // The tag of the whole message, or an error on a second call.
    method Finalize() returns (ok: bool, tag: seq<bv8>)
      requires Valid()
      modifies hasher
      ensures Valid()
      ensures ok <==> !old(hasher.finalized)
      ensures ok ==> hasher.finalized && |tag| == 16
      ensures ok ==> var j0 := PreCounter(cipher, nonce);
                     tag == Tag(cipher, nonce, hasher.associated, GctrBlocks(cipher, Inc32(j0), message))
                         == Tag(cipher, nonce, hasher.associated, Gctr(cipher, j0, 0, message))
      ensures ok ==> var sent := GctrBlocks(cipher, Inc32(y0), message);
                     var hash := Hash(FromGcmBytes(cipher(ZERO_BLOCK)), Blocks(MessageBytes(hasher.associated, sent)));
                     tag == Xor(ToGcmBytes(hash), cipher(y0))
    {
      hide *;
      IsAt();
      ok, tag := hasher.Finalize();
      if !ok {
        return;
      }
      var mask := cipher(y0);
      tag := XorInto(tag, mask);
      TagIs(cipher, nonce, hasher.associated, Gctr(cipher, y0, 0, message));
      GctrIsBlockwise(cipher, y0, message);
      TagOfBytes(cipher, nonce, hasher.associated, GctrBlocks(cipher, Inc32(y0), message));
      RemainsValid();
    }
  }
}
