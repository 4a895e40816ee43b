// PaddingOracle::Attack: the client of the padding-oracle protocol.
module PaddingOracleAttack {
  import opened ByteManipulation
  import opened Options
  import opened PaddingOracleServer

  // D(C): what the client sets out to recover.
  ghost function Raw(key: Block, ciphertext: Block): Block { Xor(ciphertext, key) }

  // ----- Which queries pad correctly -----

  function PaddingByte(index: nat): bv8
    requires index < 16
  {
    ToByte(16 - index)
  }

  // All bytes after index turn into padding; index itself is the candidate.
  ghost function Payload(raw: Block, index: nat, candidate: bv8): Block
    requires index < 16
  {
    seq(16, i requires 0 <= i < 16 =>
      if i < index then 0 else if i == index then candidate else XorByte(PaddingByte(index), raw[i]))
  }

  ghost function Validator(candidate: bv8): Block {
    seq(16, i requires 0 <= i < 16 => if i < 15 then 0xff else candidate)
  }

  lemma XorByteLaws(a: bv8, b: bv8)
    ensures XorByte(XorByte(a, b), b) == a && XorByte(0, a) == a
    ensures XorByte(a, b) == XorByte(b, a)
    ensures XorByte(0xff, a) != a
  {
  }

  lemma XorByteCancel(a: bv8, b: bv8, c: bv8)
    ensures XorByte(a, b) == c <==> a == XorByte(c, b)
  {
    hide XorByte;
    XorByteLaws(a, b);
    XorByteLaws(c, b);
  }

  // The server decrypts q to q xor D(C).
  lemma DecryptedAt(key: Block, q: Block, ciphertext: Block, i: nat)
    requires i < 16
    ensures Decrypted(key, q, ciphertext)[i] == XorByte(q[i], Raw(key, ciphertext)[i])
  {
  }

  lemma SmallByte(n: nat)
    requires n <= 16
    ensures ByteValue(ToByte(n)) == n
  {
  }

  // Before the last byte exactly one candidate pads correctly.
  lemma OneCandidate(key: Block, ciphertext: Block, index: nat, candidate: bv8)
    requires index < 15
    ensures var raw := Raw(key, ciphertext);
            PaddingIsValid(Decrypted(key, Payload(raw, index, candidate), ciphertext))
            <==> candidate == XorByte(PaddingByte(index), raw[index])
  {
    hide XorByte, ByteValue, ToByte, Decrypted, Raw;
    var raw := Raw(key, ciphertext);
    var q := Payload(raw, index, candidate);
    var block := Decrypted(key, q, ciphertext);
    var pad := PaddingByte(index);
    SmallByte(16 - index);
    forall i | index <= i < 16 ensures block[i] == XorByte(q[i], raw[i]) { DecryptedAt(key, q, ciphertext, i); }
    forall i | index < i < 16 ensures block[i] == pad { XorByteLaws(pad, raw[i]); }
    XorByteCancel(candidate, raw[index], pad);
    assert block[15] == pad;
  }

  // For the last byte the right candidate, which decrypts to 1, always pads
  // correctly; a second one may, but only if the byte before it repeats it,
  // and then the validator query, which complements that byte, rejects it.
  lemma LastByte(key: Block, ciphertext: Block, candidate: bv8)
    ensures var raw := Raw(key, ciphertext);
            && (candidate == XorByte(1, raw[15]) ==>
                  && PaddingIsValid(Decrypted(key, Payload(raw, 15, candidate), ciphertext))
                  && PaddingIsValid(Decrypted(key, Validator(candidate), ciphertext)))
            && (candidate != XorByte(1, raw[15])
                && PaddingIsValid(Decrypted(key, Payload(raw, 15, candidate), ciphertext)) ==>
                  !PaddingIsValid(Decrypted(key, Validator(candidate), ciphertext)))
  {
    hide XorByte, ByteValue, ToByte, Decrypted, Raw;
    var raw := Raw(key, ciphertext);
    var q, v := Payload(raw, 15, candidate), Validator(candidate);
    var block, check := Decrypted(key, q, ciphertext), Decrypted(key, v, ciphertext);
    DecryptedAt(key, q, ciphertext, 15);
    DecryptedAt(key, v, ciphertext, 15);
    DecryptedAt(key, q, ciphertext, 14);
    DecryptedAt(key, v, ciphertext, 14);
    XorByteLaws(raw[14], raw[14]);
    XorByteCancel(candidate, raw[15], 1);
    assert ByteValue(1) == 1 by { OneValue(); }
    if block[15] != 1 && PaddingIsValid(block) {
      ValueIsOne(block[15]);
    }
  }

  lemma OneValue()
    ensures ByteValue(1) == 1 && ToByte(1) == 1
  {
  }

  lemma ValueIsOne(b: bv8)
    ensures ByteValue(b) == 1 <==> b == 1
  {
  }

  // ----- The connection -----

  // write_num<std::uint16_t> with std::endian::little.
  function LittleEndian16(n: nat): seq<bv8>
    requires n < 65536
  {
    [ToByte(n % 256), ToByte(n / 256)]
  }

  lemma CountSent(key: Block, ciphertext: Block, n: nat)
    requires n < 65536
    ensures Drain(key, Idle(ciphertext), LittleEndian16(n))
            == Progress(if n == 0 then Closed else Queries(ciphertext, n), [], [])
  {
    hide ByteValue, ToByte, Reply;
    var bytes := LittleEndian16(n);
    ValueOfByte(n % 256);
    ValueOfByte(n / 256);
    assert bytes[..2] == bytes && bytes[2..] == [];
    DrainStep(key, Idle(ciphertext), bytes);
  }

  lemma QuerySent(key: Block, ciphertext: Block, remaining: nat, q: Block)
    ensures Drain(key, Queries(ciphertext, remaining), q)
            == Progress(if remaining <= 1 then Idle(ciphertext) else Queries(ciphertext, remaining - 1), [],
                        [Reply(key, ciphertext, q)])
  {
    hide Reply;
    assert q[..16] == q && q[16..] == [];
    DrainStep(key, Queries(ciphertext, remaining), q);
  }

  lemma BlockSent(key: Block, ciphertext: Block)
    ensures Drain(key, Start, ciphertext) == Progress(Idle(ciphertext), [], [])
  {
  }

  // A TCP connection to a server process of its own. The server moves when it
  // likes; the client sees only the replies that have arrived.
  class Connection {
    const key: Block
    var state: State
    var inbox: seq<bv8>
    var outbox: seq<bv8>

    // What there will be when the server has used up its input. No schedule
    // changes it.
    ghost function View(): Progress
      reads this
    {
      Prefixed(outbox, Drain(key, state, inbox))
    }

    constructor (key: Block)
      ensures this.key == key && View() == Progress(Start, [], [])
    {
      this.key := key;
      state := Start;
      inbox := [];
      outbox := [];
    }

    method ServerMoves(steps: nat)
      modifies this
      ensures View() == old(View())
      ensures |old(outbox)| <= |outbox|
    {
      hide Next, Drain, CanStep;
      var left := steps;
      while left > 0 && CanStep(state, inbox)
        invariant View() == old(View()) && |old(outbox)| <= |outbox|
        decreases left
      {
        DrainStep(key, state, inbox);
        var p := Next(key, state, inbox);
        state, inbox, outbox := p.state, p.rest, outbox + p.replies;
        left := left - 1;
      }
    }

    method Write(bytes: seq<bv8>)
      modifies this
      ensures View() == Extend(key, old(View()), bytes)
    {
      DrainMore(key, state, inbox, bytes);
      PrefixedTwice(key, outbox, Drain(key, state, inbox), bytes);
      hide Drain, Extend;
      inbox := inbox + bytes;
      var steps: nat := *;
      ServerMoves(steps);
    }

    // ok is false where the client would wait for ever.
    method Read(n: nat) returns (ok: bool, data: seq<bv8>)
      modifies this
      ensures ok <==> n <= |old(View()).replies|
      ensures ok ==> data == old(View()).replies[..n] && View() == old(View()).(replies := old(View()).replies[n..])
    {
      hide Next, Drain, CanStep;
      while |outbox| < n && CanStep(state, inbox)
        invariant View() == old(View())
        decreases |inbox|
      {
        DrainStep(key, state, inbox);
        var p := Next(key, state, inbox);
        state, inbox, outbox := p.state, p.rest, outbox + p.replies;
      }
      if |outbox| < n {
        Blocked(key, state, inbox);
        return false, [];
      }
      data := outbox[..n];
      assert old(View()).replies == outbox + Drain(key, state, inbox).replies;
      outbox := outbox[n..];
      return true, data;
    }
  }

  lemma Blocked(key: Block, state: State, inbox: seq<bv8>)
    requires !CanStep(state, inbox)
    ensures Drain(key, state, inbox).replies == []
  {
  }

  // ----- One byte -----

  ghost function Answer(raw: Block, index: nat): bv8
    requires index < 16
  {
    XorByte(PaddingByte(index), raw[index])
  }

  // The replies to the first n candidates.
  ghost function CandidateReplies(key: Block, ciphertext: Block, index: nat, n: nat): seq<bv8>
    requires index < 16 && n <= 256
  {
    seq(n, k requires 0 <= k < n => Reply(key, ciphertext, Payload(Raw(key, ciphertext), index, ToByte(k))))
  }

  // The connection between two rounds, and after n of 256 queries.
  ghost predicate Ready(view: Progress, ciphertext: Block) {
    view == Progress(Idle(ciphertext), [], [])
  }

  ghost predicate Asked(view: Progress, key: Block, ciphertext: Block, index: nat, n: nat)
    requires index < 16
  {
    && n <= 256
    && view == Progress(if n == 256 then Idle(ciphertext) else Queries(ciphertext, 256 - n), [],
                        CandidateReplies(key, ciphertext, index, n))
  }

  lemma AskedNone(view: Progress, key: Block, ciphertext: Block, index: nat)
    requires index < 16 && Ready(view, ciphertext)
    ensures Asked(Extend(key, view, LittleEndian16(256)), key, ciphertext, index, 0)
  {
    hide Reply, LittleEndian16;
    CountSent(key, ciphertext, 256);
    assert [] + LittleEndian16(256) == LittleEndian16(256);
  }

  lemma AskedNext(view: Progress, key: Block, ciphertext: Block, index: nat, n: nat, q: Block)
    requires index < 16 && n < 256 && Asked(view, key, ciphertext, index, n)
    requires q == Payload(Raw(key, ciphertext), index, ToByte(n))
    ensures Asked(Extend(key, view, q), key, ciphertext, index, n + 1)
  {
    hide Reply, Payload, Raw, ToByte, Drain;
    QuerySent(key, ciphertext, 256 - n, q);
    assert [] + q == q;
  }

  lemma AskedAll(view: Progress, key: Block, ciphertext: Block, index: nat)
    requires index < 16 && Asked(view, key, ciphertext, index, 256)
    ensures |view.replies| == 256 && Ready(view.(replies := view.replies[256..]), ciphertext)
    ensures forall k :: 0 <= k < 256 ==>
      view.replies[..256][k] == Reply(key, ciphertext, Payload(Raw(key, ciphertext), index, ToByte(k)))
  {
  }

  // The validator round: one query, one reply.
  lemma Validated(view: Progress, key: Block, ciphertext: Block, candidate: bv8)
    requires Ready(view, ciphertext)
    ensures var asked := Extend(key, Extend(key, view, LittleEndian16(1)), Validator(candidate));
            && asked.replies == [Reply(key, ciphertext, Validator(candidate))]
            && Ready(asked.(replies := asked.replies[1..]), ciphertext)
  {
    hide Reply, Validator, LittleEndian16, Drain;
    CountSent(key, ciphertext, 1);
    QuerySent(key, ciphertext, 1, Validator(candidate));
    assert [] + LittleEndian16(1) == LittleEndian16(1) && [] + Validator(candidate) == Validator(candidate);
  }

  // A candidate passes when its reply is 1 and, for the last byte, the
  // validator's reply is 1 too; that is so for the answer and for no other.
  lemma OnlyTheAnswerPasses(key: Block, ciphertext: Block, index: nat, candidate: bv8)
    requires index < 16
    ensures var raw := Raw(key, ciphertext);
            Reply(key, ciphertext, Payload(raw, index, candidate)) == 1
            && (index == 15 ==> Reply(key, ciphertext, Validator(candidate)) == 1)
            <==> candidate == Answer(raw, index)
  {
    hide Payload, Validator, Decrypted, PaddingIsValid, XorByte, ToByte;
    if index == 15 {
      LastByte(key, ciphertext, candidate);
      LastPadding();
    } else {
      OneCandidate(key, ciphertext, index, candidate);
    }
  }

  lemma LastPadding()
    ensures PaddingByte(15) == 1
  {
  }

  lemma PaddingByteIsOne(index: nat)
    requires index < 16
    ensures PaddingByte(index) == 1 <==> index == 15
  {
  }

  lemma Opened(key: Block, block: Block)
    ensures Ready(Extend(key, Progress(Start, [], []), block), block)
  {
    hide Drain;
    BlockSent(key, block);
    assert [] + block == block;
  }

  lemma ClosedAfter(view: Progress, key: Block, block: Block)
    requires Ready(view, block)
    ensures Extend(key, view, LittleEndian16(0)) == Progress(Closed, [], [])
  {
    hide Drain, LittleEndian16;
    CountSent(key, block, 0);
    assert [] + LittleEndian16(0) == LittleEndian16(0);
  }

  // ----- Whole messages -----

  // CBC decryption with the server's cipher, block by block.
  ghost function CbcDecrypt(key: Block, previous: Block, ciphertext: seq<bv8>): seq<bv8>
    decreases |ciphertext|
  {
    if |ciphertext| < 16 then []
    else Xor(Raw(key, ciphertext[..16]), previous) + CbcDecrypt(key, ciphertext[..16], ciphertext[16..])
  }

  // The other direction, which the server's owner applied.
  ghost function CbcEncrypt(key: Block, previous: Block, plaintext: seq<bv8>): seq<bv8>
    decreases |plaintext|
  {
    if |plaintext| < 16 then []
    else
      var block: Block := Xor(Xor(plaintext[..16], previous), key);
      block + CbcEncrypt(key, block, plaintext[16..])
  }

  lemma CbcUnfolds(key: Block, previous: Block, ciphertext: seq<bv8>)
    requires |ciphertext| >= 16
    ensures CbcDecrypt(key, previous, ciphertext)
            == Xor(Raw(key, ciphertext[..16]), previous) + CbcDecrypt(key, ciphertext[..16], ciphertext[16..])
  {
  }

  lemma BlockByte(key: Block, previous: Block, block: Block, i: nat)
    requires i < 16
    ensures Xor(Raw(key, block), previous)[i] == XorByte(XorByte(block[i], key[i]), previous[i])
  {
    hide XorByte;
  }

  lemma {:induction false} CbcLength(key: Block, previous: Block, ciphertext: seq<bv8>)
    requires |ciphertext| % 16 == 0
    ensures |CbcDecrypt(key, previous, ciphertext)| == |ciphertext|
    decreases |ciphertext|
  {
    hide Raw, Xor;
    if |ciphertext| >= 16 {
      CbcLength(key, ciphertext[..16], ciphertext[16..]);
    }
  }

  // Every byte is that of D(C), combined with the ciphertext block before.
  lemma {:induction false} CbcDecryptedByte(key: Block, iv: Block, ciphertext: seq<bv8>, i: nat)
    requires |ciphertext| % 16 == 0 && i < |ciphertext|
    ensures |CbcDecrypt(key, iv, ciphertext)| == |ciphertext|
    ensures CbcDecrypt(key, iv, ciphertext)[i]
            == XorByte(XorByte(ciphertext[i], key[i % 16]), if i < 16 then iv[i] else ciphertext[i - 16])
    decreases |ciphertext|
  {
    hide XorByte, Xor, Raw, CbcDecrypt;
    var block: Block := ciphertext[..16];
    CbcLength(key, iv, ciphertext);
    CbcUnfolds(key, iv, ciphertext);
    if i < 16 {
      BlockByte(key, iv, block, i);
    } else {
      CbcDecryptedByte(key, block, ciphertext[16..], i - 16);
      assert (i - 16) % 16 == i % 16;
      assert ciphertext[16..][i - 16] == ciphertext[i];
      assert i >= 32 ==> ciphertext[16..][i - 32] == ciphertext[i - 16];
    }
  }

  // What the attack returns is the plaintext that was encrypted.
  lemma {:induction false} CbcRoundTrip(key: Block, iv: Block, plaintext: seq<bv8>)
    requires |plaintext| % 16 == 0
    ensures |CbcEncrypt(key, iv, plaintext)| == |plaintext|
    decreases |plaintext|
    ensures CbcDecrypt(key, iv, CbcEncrypt(key, iv, plaintext)) == plaintext
  {
    hide Xor;
    if |plaintext| >= 16 {
      var p := plaintext[..16];
      var block: Block := Xor(Xor(p, iv), key);
      CbcRoundTrip(key, block, plaintext[16..]);
      XorTwice(Xor(p, iv), key);
      XorTwice(p, iv);
      var whole := CbcEncrypt(key, iv, plaintext);
      assert whole[..16] == block && whole[16..] == CbcEncrypt(key, block, plaintext[16..]);
      assert plaintext == p + plaintext[16..];
    }
  }

  // The client: it knows where the server listens, and never reads the key.
  class Attack {
    const target: Block

    constructor (target: Block)
      ensures this.target == target
    {
      this.target := target;
    }

    // The throw at the end cannot happen.
    method RecoverByte(connection: Connection, index: nat, recovered: Block, ghost ciphertext: Block)
      returns (value: bv8)
      requires index < 16 && Ready(connection.View(), ciphertext)
      requires forall i :: index < i < 16 ==> recovered[i] == Raw(connection.key, ciphertext)[i]
      modifies connection
      ensures Ready(connection.View(), ciphertext)
      ensures value == Raw(connection.key, ciphertext)[index]
    {
      hide *;
      ghost var key := connection.key;
      ghost var raw := Raw(key, ciphertext);
      AskedNone(connection.View(), key, ciphertext, index);
      connection.Write(LittleEndian16(256));
      var payload: Block := seq(16, _ => 0);
      var pad := PaddingByte(index);
      var i := index + 1;
      while i < 16
        invariant index < i <= 16
        invariant forall k :: 0 <= k <= index || i <= k < 16 ==> payload[k] == 0
        invariant forall k :: index < k < i ==> payload[k] == XorByte(pad, raw[k])
      {
        payload := payload[i := XorByte(pad, recovered[i])];
        i := i + 1;
      }
      var n := 0;
      while n < 256
        invariant 0 <= n <= 256
        invariant forall k :: 0 <= k < index ==> payload[k] == 0
        invariant forall k :: index < k < 16 ==> payload[k] == XorByte(pad, raw[k])
        invariant Asked(connection.View(), key, ciphertext, index, n)
      {
        payload := payload[index := ToByte(n)];
        IsPayload(raw, index, ToByte(n), payload);
        AskedNext(connection.View(), key, ciphertext, index, n, payload);
        connection.Write(payload);
        n := n + 1;
      }
      AskedAll(connection.View(), key, ciphertext, index);
      var ok, responses := connection.Read(256);
      assert ok;
      PaddingByteIsOne(index);
      n := 0;
      while n < 256
        invariant 0 <= n <= 256 && Ready(connection.View(), ciphertext)
        invariant forall k :: 0 <= k < n ==> ToByte(k) != Answer(raw, index)
      {
        var candidate := ToByte(n);
        OnlyTheAnswerPasses(key, ciphertext, index, candidate);
        var valid := responses[n] == 1;
        if valid && pad == 1 {
          var validator: Block := seq(16, _ => 0xff);
          validator := validator[15 := candidate];
          IsValidator(candidate, validator);
          Validated(connection.View(), key, ciphertext, candidate);
          connection.Write(LittleEndian16(1));
          connection.Write(validator);
          var reply;
          ok, reply := connection.Read(1);
          assert ok;
          ReplyIsBit(key, ciphertext, validator);
          valid := reply[0] != 0;
        }
        if valid {
          AnswerIsRaw(raw, index);
          return XorByte(candidate, pad);
        }
        n := n + 1;
      }
      ByteOfValue(Answer(raw, index));
      assert false;
    }

    // Server and client stay in step to the end: the server has closed, with
    // nothing unread on either side.
    method RecoverRawBlock(block: Block) returns (recovered: Block, ghost view: Progress)
      ensures recovered == Raw(target, block)
      ensures view == Progress(Closed, [], [])
    {
      hide *;
      var connection := new Connection(target);
      Opened(target, block);
      connection.Write(block);
      recovered := seq(16, _ => 0);
      var i := 16;
      while i > 0
        invariant 0 <= i <= 16 && fresh(connection) && connection.key == target
        invariant Ready(connection.View(), block)
        invariant forall k :: i <= k < 16 ==> recovered[k] == Raw(target, block)[k]
      {
        i := i - 1;
        var value := RecoverByte(connection, i, recovered, block);
        recovered := recovered[i := value];
      }
      ClosedAfter(connection.View(), target, block);
      connection.Write(LittleEndian16(0));
      view := connection.View();
    }

    method RecoverBlock(previous: Block, block: Block) returns (recovered: Block)
      ensures recovered == Xor(Raw(target, block), previous)
    {
      hide Raw, XorByte;
      var raw, view := RecoverRawBlock(block);
      recovered := raw;
      var i := 0;
      while i < 16
        invariant 0 <= i <= 16
        invariant forall k :: 0 <= k < i ==> recovered[k] == XorByte(Raw(target, block)[k], previous[k])
        invariant forall k :: i <= k < 16 ==> recovered[k] == Raw(target, block)[k]
      {
        recovered := recovered[i := XorByte(recovered[i], previous[i])];
        i := i + 1;
      }
      assert recovered == Xor(Raw(target, block), previous);
    }

    // None where the program throws: the ciphertext is empty or not a whole
    // number of blocks.
    method RecoverPlaintext(iv: Block, ciphertext: seq<bv8>) returns (cleartext: Option<seq<bv8>>)
      ensures cleartext == if |ciphertext| == 0 || |ciphertext| % 16 != 0 then None
                           else Some(CbcDecrypt(target, iv, ciphertext))
    {
      hide Raw, Xor;
      if |ciphertext| == 0 || |ciphertext| % 16 != 0 {
        return None;
      }
      var clear: seq<bv8> := [];
      var previous: Block := iv;
      var i := 0;
      while i < |ciphertext|
        invariant 0 <= i <= |ciphertext| && i % 16 == 0
        invariant clear + CbcDecrypt(target, previous, ciphertext[i..]) == CbcDecrypt(target, iv, ciphertext)
      {
        var block: Block := ciphertext[i..i + 16];
        assert ciphertext[i..][..16] == block && ciphertext[i..][16..] == ciphertext[i + 16..];
        var recovered := RecoverBlock(previous, block);
        clear := clear + recovered;
        previous := block;
        i := i + 16;
      }
      assert ciphertext[i..] == [] && clear + [] == clear;
      return Some(clear);
    }
  }

  lemma IsPayload(raw: Block, index: nat, candidate: bv8, payload: Block)
    requires index < 16 && payload[index] == candidate
    requires forall k :: 0 <= k < index ==> payload[k] == 0
    requires forall k :: index < k < 16 ==> payload[k] == XorByte(PaddingByte(index), raw[k])
    ensures payload == Payload(raw, index, candidate)
  {
  }

  lemma IsValidator(candidate: bv8, validator: Block)
    requires validator[15] == candidate && forall i :: 0 <= i < 15 ==> validator[i] == 0xff
    ensures validator == Validator(candidate)
  {
  }

  lemma ReplyIsBit(key: Block, ciphertext: Block, q: Block)
    ensures Reply(key, ciphertext, q) == 0 || Reply(key, ciphertext, q) == 1
  {
  }

  lemma AnswerIsRaw(raw: Block, index: nat)
    requires index < 16
    ensures XorByte(Answer(raw, index), PaddingByte(index)) == raw[index]
  {
  }
}
