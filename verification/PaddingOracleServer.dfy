// PaddingOracle::XORCBCServer, and the byte streams that join it to a client.
module PaddingOracleServer {
  import opened ByteManipulation

  // ----- One query -----

  function Decrypted(key: Block, q: Block, ciphertext: Block): Block {
    Xor(Xor(q, ciphertext), key)
  }

  // The last byte says how many bytes of padding there are, one to sixteen,
  // and each of them repeats it.
  predicate PaddingIsValid(block: Block) {
    var count := ByteValue(block[15]);
    1 <= count <= 16 && forall i :: 16 - count <= i < 16 ==> block[i] == block[15]
  }

  // The last n bytes are n copies of the byte n.
  ghost predicate PaddedWith(block: Block, n: nat) {
    1 <= n <= 16 && block == block[..16 - n] + seq(n, _ => ToByte(n))
  }

  lemma PaddingIs(block: Block)
    ensures PaddingIsValid(block) <==> exists n :: PaddedWith(block, n)
  {
    hide ToByte, ByteValue;
    if PaddingIsValid(block) {
      var n := ByteValue(block[15]);
      ByteOfValue(block[15]);
      assert block == block[..16 - n] + seq(n, _ => ToByte(n));
      assert PaddedWith(block, n);
    }
    if n: nat :| PaddedWith(block, n) {
      ValueOfByte(n);
      forall i | 16 - n <= i < 16 ensures block[i] == ToByte(n) {
        assert block[i] == (block[..16 - n] + seq(n, _ => ToByte(n)))[i];
      }
    }
  }

  method Decrypt(key: Block, q: Block, ciphertext: Block) returns (cleartext: Block)
    ensures cleartext == Decrypted(key, q, ciphertext)
  {
    hide XorByte;
    cleartext := q;
    var j := 0;
    while j < 16
      invariant 0 <= j <= 16
      invariant forall i :: 0 <= i < j ==> cleartext[i] == XorByte(XorByte(q[i], ciphertext[i]), key[i])
      invariant forall i :: j <= i < 16 ==> cleartext[i] == q[i]
    {
      cleartext := cleartext[j := XorByte(XorByte(q[j], ciphertext[j]), key[j])];
      j := j + 1;
    }
    assert cleartext == Decrypted(key, q, ciphertext);
  }

  // A count above 16 makes the program read in front of the block; such
  // blocks are taken to be invalid.
  method ValidatePadding(block: Block) returns (valid: bool)
    ensures valid <==> PaddingIsValid(block)
    ensures valid <==> exists n :: PaddedWith(block, n)
  {
    hide ByteValue, PaddedWith;
    PaddingIs(block);
    var count := ByteValue(block[15]);
    if count > 16 {
      return false;
    }
    valid := count > 0;
    var j := 0;
    while j < count
      invariant 0 <= j <= count
      invariant valid <==> count > 0 && forall i :: 16 - j <= i < 16 ==> block[i] == block[15]
    {
      if block[16 - 1 - j] != block[15] {
        valid := false;
      }
      j := j + 1;
    }
  }

  function Reply(key: Block, ciphertext: Block, q: Block): bv8 {
    if PaddingIsValid(Decrypted(key, q, ciphertext)) then 1 else 0
  }

  lemma ReplyIs(key: Block, ciphertext: Block, q: Block)
    ensures Reply(key, ciphertext, q) == if exists n :: PaddedWith(Decrypted(key, q, ciphertext), n) then 1 else 0
  {
    hide PaddedWith, PaddingIsValid, Decrypted;
    PaddingIs(Decrypted(key, q, ciphertext));
  }

  // ----- The server as a consumer of bytes -----

  datatype State = Start | Idle(ciphertext: Block) | Queries(ciphertext: Block, remaining: nat) | Closed

  // What the server has done with a stream: where it stands, the bytes it
  // cannot use yet, the bytes it answered.
  datatype Progress = Progress(state: State, rest: seq<bv8>, replies: seq<bv8>)

  // The length of the read the server is blocked in.
  function Wanted(state: State): nat {
    match state
    case Start => 16
    case Idle(_) => 2
    case Queries(_, _) => 16
    case Closed => 0
  }

  predicate CanStep(state: State, inbox: seq<bv8>) {
    state != Closed && |inbox| >= Wanted(state)
  }

  function ReadCount(bytes: seq<bv8>): nat
    requires |bytes| == 2
  {
    ByteValue(bytes[0]) + 256 * ByteValue(bytes[1])
  }

  function Next(key: Block, state: State, inbox: seq<bv8>): (p: Progress)
    requires CanStep(state, inbox)
    ensures |p.rest| < |inbox|
  {
    match state
    case Start => Progress(Idle(inbox[..16]), inbox[16..], [])
    case Idle(c) =>
      var count := ReadCount(inbox[..2]);
      Progress(if count == 0 then Closed else Queries(c, count), inbox[2..], [])
    case Queries(c, n) =>
      Progress(if n <= 1 then Idle(c) else Queries(c, n - 1), inbox[16..], [Reply(key, c, inbox[..16])])
  }

  // Everything the server does before it blocks.
  function Drain(key: Block, state: State, inbox: seq<bv8>): Progress
    decreases |inbox|
  {
    if CanStep(state, inbox) then
      var p := Next(key, state, inbox);
      var d := Drain(key, p.state, p.rest);
      Progress(d.state, d.rest, p.replies + d.replies)
    else
      Progress(state, inbox, [])
  }

  // What the server makes of more bytes.
  function Extend(key: Block, d: Progress, more: seq<bv8>): Progress {
    Prefixed(d.replies, Drain(key, d.state, d.rest + more))
  }

  function Prefixed(replies: seq<bv8>, d: Progress): Progress { Progress(d.state, d.rest, replies + d.replies) }

  lemma DrainStep(key: Block, state: State, inbox: seq<bv8>)
    requires CanStep(state, inbox)
    ensures var p := Next(key, state, inbox);
            Drain(key, state, inbox) == Prefixed(p.replies, Drain(key, p.state, p.rest))
  {
  }

  lemma PrefixedTwice(key: Block, replies: seq<bv8>, d: Progress, more: seq<bv8>)
    ensures Extend(key, Prefixed(replies, d), more) == Prefixed(replies, Extend(key, d, more))
  {
    hide Drain;
    var e := Drain(key, d.state, d.rest + more);
    assert replies + (d.replies + e.replies) == replies + d.replies + e.replies;
  }

  lemma NextMore(key: Block, state: State, inbox: seq<bv8>, more: seq<bv8>)
    requires CanStep(state, inbox)
    ensures CanStep(state, inbox + more)
    ensures var p := Next(key, state, inbox);
            Next(key, state, inbox + more) == Progress(p.state, p.rest + more, p.replies)
  {
    hide Reply, ReadCount;
    var n := Wanted(state);
    assert (inbox + more)[..n] == inbox[..n] && (inbox + more)[n..] == inbox[n..] + more;
  }

  // More input never changes what was done with the earlier input.
  lemma {:induction false} DrainMore(key: Block, state: State, inbox: seq<bv8>, more: seq<bv8>)
    ensures Drain(key, state, inbox + more) == Extend(key, Drain(key, state, inbox), more)
    decreases |inbox|
  {
    if CanStep(state, inbox) {
      hide Next, Drain, Extend, Prefixed, CanStep;
      var p := Next(key, state, inbox);
      NextMore(key, state, inbox, more);
      DrainStep(key, state, inbox);
      DrainStep(key, state, inbox + more);
      DrainMore(key, p.state, p.rest, more);
      PrefixedTwice(key, p.replies, Drain(key, p.state, p.rest), more);
    } else {
      hide Next, CanStep;
      assert [] + Drain(key, state, inbox + more).replies == Drain(key, state, inbox + more).replies;
    }
  }

  // The final progress of a server in the middle of its input.
  ghost function Handled(key: Block, state: State, rest: seq<bv8>, replies: seq<bv8>): Progress {
    Prefixed(replies, Drain(key, state, rest))
  }

  lemma HandledBlocked(key: Block, state: State, rest: seq<bv8>, replies: seq<bv8>)
    requires state == Closed || |rest| < Wanted(state)
    ensures Handled(key, state, rest, replies) == Progress(state, rest, replies)
  {
  }

  lemma HandledBlock(key: Block, input: seq<bv8>)
    requires |input| >= 16
    ensures Handled(key, Idle(input[..16]), input[16..], []) == Drain(key, Start, input)
  {
  }

  lemma HandledCount(key: Block, ciphertext: Block, rest: seq<bv8>, replies: seq<bv8>)
    requires |rest| >= 2
    ensures var count := ReadCount(rest[..2]);
            Handled(key, Idle(ciphertext), rest, replies)
            == Handled(key, if count == 0 then Closed else Queries(ciphertext, count), rest[2..], replies)
  {
  }

  lemma HandledQuery(key: Block, ciphertext: Block, n: nat, rest: seq<bv8>, replies: seq<bv8>)
    requires |rest| >= 16
    ensures Handled(key, Queries(ciphertext, n), rest, replies)
            == Handled(key, if n <= 1 then Idle(ciphertext) else Queries(ciphertext, n - 1), rest[16..],
                       replies + [Reply(key, ciphertext, rest[..16])])
  {
    hide Drain, Reply;
    DrainStep(key, Queries(ciphertext, n), rest);
  }

  // The program's loop, up to the read it blocks in or the closing count.
  method HandleClient(key: Block, input: seq<bv8>) returns (p: Progress)
    ensures p == Drain(key, Start, input)
  {
    hide Drain, Handled, Decrypted, PaddingIsValid, ReadCount;
    if |input| < 16 {
      Unstarted(key, input);
      return Progress(Start, input, []);
    }
    HandledBlock(key, input);
    var ciphertext := input[..16];
    var rest := input[16..];
    var replies: seq<bv8> := [];
    while true
      invariant Handled(key, Idle(ciphertext), rest, replies) == Drain(key, Start, input)
      decreases |rest|
    {
      ghost var before := |rest|;
      if |rest| < 2 {
        HandledBlocked(key, Idle(ciphertext), rest, replies);
        return Progress(Idle(ciphertext), rest, replies);
      }
      HandledCount(key, ciphertext, rest, replies);
      var count := ReadCount(rest[..2]);
      rest := rest[2..];
      if count == 0 {
        HandledBlocked(key, Closed, rest, replies);
        return Progress(Closed, rest, replies);
      }
      var i := 0;
      while i < count
        invariant 0 <= i <= count && |rest| < before
        invariant Handled(key, if i == count then Idle(ciphertext) else Queries(ciphertext, count - i), rest, replies)
                  == Drain(key, Start, input)
      {
        if |rest| < 16 {
          HandledBlocked(key, Queries(ciphertext, count - i), rest, replies);
          return Progress(Queries(ciphertext, count - i), rest, replies);
        }
        HandledQuery(key, ciphertext, count - i, rest, replies);
        var q := rest[..16];
        var cleartext := Decrypt(key, q, ciphertext);
        var valid := ValidatePadding(cleartext);
        rest := rest[16..];
        replies := replies + [if valid then 1 else 0];
        i := i + 1;
      }
    }
  }

  // ----- A whole conversation -----

  ghost function Joined(qs: seq<Block>): seq<bv8> {
    if qs == [] then [] else qs[0] + Joined(qs[1..])
  }

  ghost function Replies(key: Block, ciphertext: Block, qs: seq<Block>): (replies: seq<bv8>)
    ensures |replies| == |qs|
  {
    if qs == [] then [] else [Reply(key, ciphertext, qs[0])] + Replies(key, ciphertext, qs[1..])
  }

  lemma {:induction false} QueriesAnswered(key: Block, ciphertext: Block, qs: seq<Block>)
    requires qs != []
    ensures Drain(key, Queries(ciphertext, |qs|), Joined(qs))
            == Progress(Idle(ciphertext), [], Replies(key, ciphertext, qs))
    decreases |qs|
  {
    hide Reply;
    var q, rest := qs[0], Joined(qs[1..]);
    assert Joined(qs)[..16] == q && Joined(qs)[16..] == rest;
    DrainStep(key, Queries(ciphertext, |qs|), Joined(qs));
    if |qs| == 1 {
      assert rest == [] && Replies(key, ciphertext, qs[1..]) == [];
    } else {
      QueriesAnswered(key, ciphertext, qs[1..]);
    }
  }

  // The count is little-endian; query i is answered by 1 exactly when its
  // decryption, byte by byte the exclusive or of query, ciphertext and key, is
  // padded.
  lemma Conversation(key: Block, ciphertext: Block, low: bv8, high: bv8, qs: seq<Block>)
    requires ByteValue(low) + 256 * ByteValue(high) == |qs| > 0
    ensures var p := Drain(key, Start, ciphertext + [low, high] + Joined(qs));
            && p.state == Idle(ciphertext) && p.rest == [] && |p.replies| == |qs|
            && forall i :: 0 <= i < |qs| ==>
                 p.replies[i] == if exists n :: PaddedWith(Decrypted(key, qs[i], ciphertext), n) then 1 else 0
  {
    hide Reply, Joined, Replies, PaddedWith, Decrypted, ByteValue;
    var input := ciphertext + [low, high] + Joined(qs);
    assert input[..16] == ciphertext && input[16..] == [low, high] + Joined(qs);
    assert ([low, high] + Joined(qs))[..2] == [low, high] && ([low, high] + Joined(qs))[2..] == Joined(qs);
    DrainStep(key, Start, input);
    DrainStep(key, Idle(ciphertext), input[16..]);
    QueriesAnswered(key, ciphertext, qs);
    forall i | 0 <= i < |qs|
      ensures Replies(key, ciphertext, qs)[i]
              == if exists n :: PaddedWith(Decrypted(key, qs[i], ciphertext), n) then 1 else 0
    {
      RepliesAt(key, ciphertext, qs, i);
      ReplyIs(key, ciphertext, qs[i]);
    }
  }

  lemma {:induction false} RepliesAt(key: Block, ciphertext: Block, qs: seq<Block>, i: nat)
    requires i < |qs|
    ensures Replies(key, ciphertext, qs)[i] == Reply(key, ciphertext, qs[i])
  {
    hide Reply;
    if i > 0 {
      RepliesAt(key, ciphertext, qs[1..], i - 1);
    }
  }

  lemma DecryptedByte(key: Block, q: Block, ciphertext: Block, i: nat)
    requires i < 16
    ensures Decrypted(key, q, ciphertext)[i] == XorByte(XorByte(q[i], ciphertext[i]), key[i])
  {
  }

  lemma Unstarted(key: Block, input: seq<bv8>)
    requires |input| < 16
    ensures Drain(key, Start, input) == Progress(Start, input, [])
  {
  }
}
