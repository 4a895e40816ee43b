// GCM::GHASH: a hash fed in pieces of any length.
module GhashStream {
  import opened Gf128
  import opened GcmBytes
  import opened ByteManipulation
  import opened GhashFunction

  // The part of a stream that is complete blocks.
  function Whole(length: nat): (n: nat)
    ensures n <= length < n + 16 && n % 16 == 0
  {
    length - length % 16
  }

  lemma WholeAfter(length: nat, more: nat)
    requires length % 16 == 0
    ensures Whole(length + more) == length + Whole(more)
  {
  }

  // 64-bit sums and differences may be reduced late.
  lemma Wrap(a: int, b: int)
    ensures Mod64(Mod64(a) + b) == Mod64(a + b)
  {
  }

  // ----- The state of the update loop -----

  // The first done bytes of the stream are in the tag, the rest is buffered.
  ghost predicate Taking(key: bv128, stream: seq<bv8>, tag: bv128, buffer: seq<bv8>, done: nat) {
    && done % 16 == 0 && done <= |stream|
    && tag == Hash(key, Blocks(stream[..done]))
    && buffer == stream[done..]
  }

  // Between calls the buffer is shorter than a block.
  ghost predicate Absorbed(key: bv128, stream: seq<bv8>, tag: bv128, buffer: seq<bv8>) {
    Taking(key, stream, tag, buffer, Whole(|stream|))
  }

  lemma Mod64Of(value: Uint64)
    ensures Mod64(value) == value
  {
  }

  lemma TakeStart(key: bv128, stream: seq<bv8>, tag: bv128, buffer: seq<bv8>, data: seq<bv8>)
    requires Absorbed(key, stream, tag, buffer)
    ensures Taking(key, stream + data, tag, buffer + data, Whole(|stream|))
    ensures |buffer| < 16
  {
    hide Hash, Blocks;
    var done := Whole(|stream|);
    assert (stream + data)[..done] == stream[..done];
    assert (stream + data)[done..] == stream[done..] + data;
  }

  lemma TakeNext(key: bv128, s: seq<bv8>, tag: bv128, buffer: seq<bv8>, done: nat)
    requires Taking(key, s, tag, buffer, done) && |buffer| >= 16
    ensures Taking(key, s, Mul(Add(tag, FromGcmBytes(buffer[..16])), key), buffer[16..], done + 16)
  {
    hide Mul, Add, FromGcmBytes;
    var block := buffer[..16];
    assert s[..done + 16] == s[..done] + block;
    BlocksSum(s[..done], block);
    assert block[0..16] == block;
    assert Blocks(block) == [FromGcmBytes(block)];
    var bs := Blocks(s[..done + 16]);
    assert bs[..|bs| - 1] == Blocks(s[..done]);
  }

  lemma TakeEnd(key: bv128, s: seq<bv8>, tag: bv128, buffer: seq<bv8>, done: nat)
    requires Taking(key, s, tag, buffer, done) && |buffer| < 16
    ensures Absorbed(key, s, tag, buffer) && done == Whole(|s|)
  {
  }

  lemma AbsorbedNothing(key: bv128)
    ensures Absorbed(key, [], 0, [])
  {
  }

  lemma AbsorbedPad(key: bv128, stream: seq<bv8>, tag: bv128, buffer: seq<bv8>)
    requires Absorbed(key, stream, tag, buffer)
    ensures |buffer| == |stream| - Whole(|stream|)
    ensures buffer == [] ==> Pad(stream) == stream
    ensures buffer != [] ==> 16 - |buffer| == Missing(|stream|) && Pad(stream) == stream + ZeroBytes(16 - |buffer|)
    ensures Whole(|Pad(stream)|) == |Pad(stream)|
  {
  }

  lemma AbsorbedWhole(key: bv128, stream: seq<bv8>, tag: bv128, buffer: seq<bv8>)
    requires Absorbed(key, stream, tag, buffer) && |stream| % 16 == 0
    ensures buffer == [] && tag == Hash(key, Blocks(stream))
  {
    assert stream[..|stream|] == stream;
  }

  // ----- The bit count -----

  // The stream is the padded associated data and ciphertext, of which the
  // complete blocks are counted.
  ghost predicate Counts(associated: seq<bv8>, stream: seq<bv8>, bits: nat) {
    Pad(associated) <= stream && bits == Mod64(8 * Whole(|stream| - |Pad(associated)|))
  }

  ghost function After(associated: seq<bv8>, stream: seq<bv8>): seq<bv8>
    requires Pad(associated) <= stream
  {
    stream[|Pad(associated)|..]
  }

  lemma CountsMore(associated: seq<bv8>, stream: seq<bv8>, bits: nat, data: seq<bv8>)
    requires Counts(associated, stream, bits)
    ensures Counts(associated, stream + data, Mod64(bits + 8 * (Whole(|stream + data|) - Whole(|stream|))))
    ensures After(associated, stream + data) == After(associated, stream) + data
  {
    var p := |Pad(associated)|;
    WholeAfter(p, |stream| - p);
    WholeAfter(p, |stream + data| - p);
    hide Whole, Pad;
    Wrap(8 * Whole(|stream| - p), 8 * (Whole(|stream + data|) - Whole(|stream|)));
  }

  lemma CountsPrefix(associated: seq<bv8>, stream: seq<bv8>, bits: nat)
    requires Counts(associated, stream, bits)
    ensures Pad(associated) <= stream
  {
  }

  lemma CountsStart(associated: seq<bv8>)
    ensures Pad(associated) <= Pad(associated) && Counts(associated, Pad(associated), 0)
    ensures After(associated, Pad(associated)) == []
  {
  }

  // What finalize writes as the ciphertext length is the length of everything
  // fed, modulo 2^64, and padding the stream pads the ciphertext.
  lemma FinalLength(associated: seq<bv8>, stream: seq<bv8>, bits: nat, key: bv128, tag: bv128, buffer: seq<bv8>)
    requires Absorbed(key, stream, tag, buffer) && Counts(associated, stream, bits)
    ensures var data := After(associated, stream);
            Mod64(bits + 8 * |buffer|) == Mod64(8 * |data|) && Pad(stream) == Pad(associated) + Pad(data)
  {
    hide Hash, Blocks;
    var p, data := Pad(associated), After(associated, stream);
    assert stream == p + data;
    PadAfter(p, data);
    WholeAfter(|p|, |data|);
    Wrap(8 * Whole(|data|), 8 * |buffer|);
  }

  lemma MessageAbsorbed(key: bv128, associated: seq<bv8>, data: seq<bv8>, tag: bv128, buffer: seq<bv8>)
    requires Absorbed(key, MessageBytes(associated, data), tag, buffer)
    ensures buffer == [] && tag == Hash(key, MessageBlocks(associated, data))
    ensures Pad(associated) <= MessageBytes(associated, data)
  {
    hide Absorbed, Hash, Pad, LengthBytes, Blocks;
    MultiplesSum(|Pad(associated)|, |Pad(data)|);
    MultiplesSum(|Pad(associated)| + |Pad(data)|, 16);
    AbsorbedWhole(key, MessageBytes(associated, data), tag, buffer);
    MessageBlocksAre(associated, data);
  }

  class Ghash {
    var authTag: bv128
    const authKey: bv128
    const associatedBits: Uint64
    var ciphertextBits: Uint64
    var ciphertextBuffer: seq<bv8>
    var finalized: bool

    // The associated data, and every byte absorbed since construction began.
    ghost const associated: seq<bv8>
    ghost var stream: seq<bv8>

    ghost predicate Consistent()
      reads this
    {
      Absorbed(authKey, stream, authTag, ciphertextBuffer) && (finalized ==> ciphertextBuffer == [])
    }

    ghost predicate Valid()
      reads this
    {
      && Consistent()
      && associatedBits == Mod64(8 * |associated|)
      && Pad(associated) <= stream
      && (!finalized ==> Counts(associated, stream, ciphertextBits))
    }

    ghost function Ciphertext(): seq<bv8>
      requires Pad(associated) <= stream
      reads this
    {
      After(associated, stream)
    }

    constructor (associatedData: seq<bv8>, key: seq<bv8>)
      requires |key| == 16
      ensures Valid() && !finalized && associated == associatedData && Ciphertext() == []
      ensures authKey == FromGcmBytes(key)
    {
      hide *;
      authTag := 0;
      authKey := FromGcmBytes(key);
      associatedBits := Mod64(8 * |associatedData|);
      ciphertextBits := 0;
      ciphertextBuffer := [];
      finalized := false;
      associated := associatedData;
      stream := [];
      new;
      AbsorbedNothing(authKey);
      BecomesConsistent();
      var ok := Update(associatedData);
      assert stream == associatedData;
      PadCurrentBlock();
      IsConsistent();
      ciphertextBits := 0;
      BecomesValid();
    }

    lemma BecomesConsistent()
      requires Absorbed(authKey, stream, authTag, ciphertextBuffer) && !finalized
      ensures Consistent()
    {
    }

    lemma IsConsistent()
      requires Consistent()
      ensures Absorbed(authKey, stream, authTag, ciphertextBuffer)
    {
    }

    lemma BecomesValid()
      requires Absorbed(authKey, stream, authTag, ciphertextBuffer) && !finalized && ciphertextBits == 0
      requires associatedBits == Mod64(8 * |associated|) && stream == Pad(associated)
      ensures Valid() && Ciphertext() == []
    {
      CountsStart(associated);
    }

    // ok is false where the program throws.
    method Update(data: seq<bv8>) returns (ok: bool)
      requires Consistent()
      modifies this
      ensures ok <==> !old(finalized)
      ensures !ok ==> unchanged(this)
      ensures ok ==> Consistent() && !finalized && stream == old(stream) + data
      ensures ok ==> ciphertextBits == Mod64(old(ciphertextBits) + 8 * (Whole(|stream|) - Whole(old(|stream|))))
      ensures ok && old(Valid()) ==> Valid() && Ciphertext() == old(Ciphertext()) + data
    {
      hide Mod64, Absorbed, Taking, Whole, Pad, Mul, Add, Hash, FromGcmBytes, Counts, After;
      if finalized {
        return false;
      }
      TakeStart(authKey, stream, authTag, ciphertextBuffer, data);
      Mod64Of(ciphertextBits);
      ghost var start: nat := Whole(|stream|);
      ghost var done: nat := start;
      ciphertextBuffer := ciphertextBuffer + data;
      stream := stream + data;
      while |ciphertextBuffer| >= 16
        invariant stream == old(stream) + data && !finalized
        invariant Taking(authKey, stream, authTag, ciphertextBuffer, done)
        invariant ciphertextBits == Mod64(old(ciphertextBits) + 8 * (done - start))
        decreases |ciphertextBuffer|
      {
        TakeNext(authKey, stream, authTag, ciphertextBuffer, done);
        var block := ciphertextBuffer[..16];
        ciphertextBuffer := ciphertextBuffer[16..];
        authTag := Add(authTag, FromGcmBytes(block));
        authTag := Mul(authTag, authKey);
        Wrap(old(ciphertextBits) + 8 * (done - start), 128);
        ciphertextBits := Mod64(ciphertextBits + |block| * 8);
        done := done + 16;
      }
      TakeEnd(authKey, stream, authTag, ciphertextBuffer, done);
      if old(Valid()) {
        CountsMore(associated, old(stream), old(ciphertextBits), data);
        CountsPrefix(associated, stream, ciphertextBits);
      }
      return true;
    }

    method PadCurrentBlock()
      requires Consistent()
      modifies this
      ensures Consistent() && finalized == old(finalized) && ciphertextBuffer == []
      ensures stream == Pad(old(stream))
      ensures old(ciphertextBuffer) == [] ==> unchanged(this)
      ensures ciphertextBits == Mod64(old(ciphertextBits) + 8 * |old(ciphertextBuffer)|)
    {
      hide Mod64, Absorbed, Whole, Pad, Valid;
      Mod64Of(ciphertextBits);
      AbsorbedPad(authKey, stream, authTag, ciphertextBuffer);
      var padding := 16 - |ciphertextBuffer|;
      if padding == 16 {
        return;
      }
      var ok := Update(ZeroBytes(padding));
      AbsorbedPad(authKey, stream, authTag, ciphertextBuffer);
      Wrap(old(ciphertextBits) + 128, -(padding * 8));
      ciphertextBits := Mod64(ciphertextBits - padding * 8);
    }

    // The tag of everything fed so far, or an error on a second call.
    method Finalize() returns (ok: bool, tag: seq<bv8>)
      requires Valid()
      modifies this
      ensures ok <==> !old(finalized)
      ensures !ok ==> unchanged(this)
      ensures ok ==> Valid() && finalized
      ensures ok ==> tag == ToGcmBytes(Hash(authKey, MessageBlocks(associated, old(Ciphertext()))))
    {
      hide Mod64, Absorbed, Whole, Pad, Hash, MessageBlocks, Counts, After, BigEndian;
      ghost var data := Ciphertext();
      if !finalized {
        FinalLength(associated, stream, ciphertextBits, authKey, authTag, ciphertextBuffer);
      }
      PadCurrentBlock();
      var length := BigEndian(associatedBits, 8);
      length := length + BigEndian(ciphertextBits, 8);
      ok := Update(length);
      if !ok {
        return false, [];
      }
      MessageAbsorbed(authKey, associated, data, authTag, ciphertextBuffer);
      finalized := true;
      return true, ToGcmBytes(authTag);
    }
  }

  // The one-shot convenience function.
  method HashMessage(ciphertext: seq<bv8>, associated: seq<bv8>, key: seq<bv8>) returns (tag: seq<bv8>)
    requires |key| == 16
    ensures tag == ToGcmBytes(Hash(FromGcmBytes(key), MessageBlocks(associated, ciphertext)))
  {
    hide Absorbed, Pad, Hash, MessageBlocks, Counts, After;
    var hasher := new Ghash(associated, key);
    var ok := hasher.Update(ciphertext);
    assert [] + ciphertext == ciphertext;
    ok, tag := hasher.Finalize();
  }
}
