// What the documentation of the rotor machine says about its weaknesses:
// equivalent keys, rotors that have not turned, and the 0 of the first rotor.
module RotorWeaknesses {
  import opened RotorMachine
  import opened RotorPeriod

  // ----- The last rotor -----

  ghost function Complemented(rotor: Rotor): Rotor { seq(256, i requires 0 <= i < 256 => Complement(rotor[i])) }

  lemma ComplementedIsPermutation(rotor: Rotor)
    requires IsPermutation(rotor)
    ensures IsPermutation(Complemented(rotor))
    ensures forall y: Byte :: Inverse(Complemented(rotor))[Complement(y)] == Inverse(rotor)[y]
  {
    hide Inverse;
    forall y: Byte ensures Inverse(Complemented(rotor))[Complement(y)] == Inverse(rotor)[y] {
      InverseUndoes(rotor, y);
      InverseUndoes(Complemented(rotor), Inverse(rotor)[y]);
    }
  }

  // Complementing the last rotor changes no byte at any position vector: half
  // of the last rotor's keys are redundant.
  lemma {:induction false} LastRotorComplement(rotors: seq<Rotor>, last: Rotor, positions: seq<Byte>, x: Byte)
    requires Permutations(rotors) && IsPermutation(last) && |positions| == |rotors| + 1
    ensures Crypt(rotors + [Complemented(last)], positions, x) == Crypt(rotors + [last], positions, x)
  {
    hide IsPermutation, Complemented, Enter, Leave, Crypt;
    if rotors == [] {
      SingleRotorComplement(last, positions[0], x);
      assert positions == [positions[0]];
      assert rotors + [last] == [last] && rotors + [Complemented(last)] == [Complemented(last)];
    } else {
      var r, p := rotors[0], positions[0];
      LastRotorComplement(rotors[1..], last, positions[1..], Enter(r, p, x));
      CryptInside(rotors + [last], positions, x);
      CryptInside(rotors + [Complemented(last)], positions, x);
      assert (rotors + [last])[1..] == rotors[1..] + [last];
      assert (rotors + [Complemented(last)])[1..] == rotors[1..] + [Complemented(last)];
    }
  }

  // The first rotor wraps what the rest of the machine does.
  lemma CryptInside(rotors: seq<Rotor>, positions: seq<Byte>, x: Byte)
    requires |positions| == |rotors| > 0
    ensures Crypt(rotors, positions, x)
            == Leave(rotors[0], positions[0], Crypt(rotors[1..], positions[1..], Enter(rotors[0], positions[0], x)))
  {
  }

  lemma SingleRotorComplement(last: Rotor, p: Byte, x: Byte)
    requires IsPermutation(last)
    ensures Crypt([Complemented(last)], [p], x) == Crypt([last], [p], x)
  {
    hide Inverse, Crypt;
    ComplementedIsPermutation(last);
    CryptInside([last], [p], x);
    CryptInside([Complemented(last)], [p], x);
    var y := Enter(last, p, x);
    assert Enter(Complemented(last), p, x) == Complement(y);
    assert Inverse(Complemented(last))[Complement(Complement(y))] == Inverse(last)[Complement(y)];
    assert [p][1..] == [] && [last][1..] == [] && [Complemented(last)][1..] == [];
    CryptWithoutRotors(y);
    CryptWithoutRotors(Complement(y));
  }

  lemma CryptWithoutRotors(x: Byte)
    ensures Crypt([], [], x) == Complement(x)
  {
  }

  lemma {:induction false} TurnIgnoresLast(rotors: seq<Rotor>, a: Rotor, b: Rotor, positions: seq<Byte>)
    requires |positions| == |rotors| + 1
    ensures Turn(rotors + [a], positions) == Turn(rotors + [b], positions)
  {
    assert (rotors + [a])[1..] == if rotors == [] then [] else rotors[1..] + [a];
    assert (rotors + [b])[1..] == if rotors == [] then [] else rotors[1..] + [b];
    if rotors != [] {
      TurnIgnoresLast(rotors[1..], a, b, positions[1..]);
    }
  }

  lemma {:induction false} AfterIgnoresLast(rotors: seq<Rotor>, a: Rotor, b: Rotor, positions: seq<Byte>, t: nat)
    requires |positions| == |rotors| + 1
    ensures After(rotors + [a], positions, t) == After(rotors + [b], positions, t)
  {
    hide Turn;
    if t > 0 {
      AfterIgnoresLast(rotors, a, b, positions, t - 1);
      TurnIgnoresLast(rotors, a, b, After(rotors + [a], positions, t - 1));
    }
  }

  // Two different keys, the same machine.
  lemma EquivalentKeys(rotors: seq<Rotor>, last: Rotor, positions: seq<Byte>, message: seq<Byte>)
    requires Permutations(rotors) && IsPermutation(last) && |positions| == |rotors| + 1
    ensures Complemented(last) != last
    ensures CryptMessage(rotors + [Complemented(last)], positions, message)
            == CryptMessage(rotors + [last], positions, message)
  {
    assert Complemented(last)[0] != last[0];
    hide Crypt, After, Permutations, IsPermutation, Complemented;
    forall k | 0 <= k < |message|
      ensures CryptMessage(rotors + [Complemented(last)], positions, message)[k]
              == CryptMessage(rotors + [last], positions, message)[k]
    {
      AfterIgnoresLast(rotors, Complemented(last), last, positions, k);
      LastRotorComplement(rotors, last, After(rotors + [last], positions, k), message[k]);
    }
  }

  // ----- Rotors that have not turned -----

  // The last rotor that turns, taking in those behind it where they stand.
  ghost function Merged(last: Rotor, rest: seq<Rotor>, still: seq<Byte>): Rotor
    requires |still| == |rest|
  {
    seq(256, i requires 0 <= i < 256 => Forward(rest, still, last[i]))
  }

  lemma ForwardInjective(rotors: seq<Rotor>, positions: seq<Byte>, x: Byte, y: Byte)
    requires |positions| == |rotors| && Permutations(rotors) && x != y
    ensures Forward(rotors, positions, x) != Forward(rotors, positions, y)
  {
    hide *;
    PassesInverse(rotors, positions, x);
    PassesInverse(rotors, positions, y);
  }

  lemma MergedIsPermutation(last: Rotor, rest: seq<Rotor>, still: seq<Byte>)
    requires |still| == |rest| && Permutations(rest) && IsPermutation(last)
    ensures IsPermutation(Merged(last, rest, still))
    ensures forall y: Byte :: Inverse(Merged(last, rest, still))[y] == Inverse(last)[Backward(rest, still, y)]
  {
    hide Inverse, Forward, Backward, Permutations;
    var merged := Merged(last, rest, still);
    forall i, j | 0 <= i < j < 256 ensures merged[i] != merged[j] {
      ForwardInjective(rest, still, last[i], last[j]);
    }
    forall y: Byte ensures Inverse(merged)[y] == Inverse(last)[Backward(rest, still, y)] {
      var x := Inverse(last)[Backward(rest, still, y)];
      InverseUndoes(last, Backward(rest, still, y));
      PassesInverse(rest, still, y);
      InverseUndoes(merged, x);
    }
  }

  lemma MergedLast(last: Rotor, rest: seq<Rotor>, p: Byte, still: seq<Byte>, x: Byte)
    requires |still| == |rest| && Permutations(rest) && IsPermutation(last)
    ensures Crypt([last] + rest, [p] + still, x) == Crypt([Merged(last, rest, still)], [p], x)
  {
    hide Inverse, Crypt, Forward, Backward, IsPermutation, Permutations;
    var merged := Merged(last, rest, still);
    MergedIsPermutation(last, rest, still);
    CryptInside([last] + rest, [p] + still, x);
    CryptInside([merged], [p], x);
    assert ([last] + rest)[1..] == rest && ([p] + still)[1..] == still;
    assert [merged][1..] == [] && [p][1..] == [];
    CryptWithoutRotors(Enter(merged, p, x));
    CryptParts(rest, still, Enter(last, p, x));
  }

  lemma CryptParts(rotors: seq<Rotor>, positions: seq<Byte>, x: Byte)
    requires |positions| == |rotors|
    ensures Crypt(rotors, positions, x) == Backward(rotors, positions, Complement(Forward(rotors, positions, x)))
  {
  }

  // One byte: the machine of the rotors up to the last one, merged with the
  // rest, does the same.
  lemma {:induction false} MergedByte(rotors: seq<Rotor>, last: Rotor, rest: seq<Rotor>, positions: seq<Byte>,
                                      still: seq<Byte>, x: Byte)
    requires |positions| == |rotors| + 1 && |still| == |rest|
    requires Permutations(rotors) && Permutations(rest) && IsPermutation(last)
    ensures Crypt(rotors + [last] + rest, positions + still, x)
            == Crypt(rotors + [Merged(last, rest, still)], positions, x)
    decreases |rotors|
  {
    hide Merged, Crypt, Permutations, IsPermutation;
    var merged := Merged(last, rest, still);
    if rotors == [] {
      MergedLast(last, rest, positions[0], still, x);
      assert positions == [positions[0]];
      assert rotors + [last] + rest == [last] + rest && rotors + [merged] == [merged];
    } else {
      TailPermutations(rotors);
      MergedByte(rotors[1..], last, rest, positions[1..], still, Enter(rotors[0], positions[0], x));
      CryptInside(rotors + [last] + rest, positions + still, x);
      CryptInside(rotors + [merged], positions, x);
      assert (rotors + [last] + rest)[1..] == rotors[1..] + [last] + rest;
      assert (positions + still)[1..] == positions[1..] + still;
      assert (rotors + [merged])[1..] == rotors[1..] + [merged];
    }
  }

  lemma TailPermutations(rotors: seq<Rotor>)
    requires rotors != [] && Permutations(rotors)
    ensures Permutations(rotors[1..])
  {
    hide IsPermutation;
  }

  // The front rotors turn the same whatever stands behind the last of them.
  lemma {:induction false} TurnInFront(rotors: seq<Rotor>, a: Rotor, b: Rotor, rest: seq<Rotor>, positions: seq<Byte>,
                                       behind: seq<Byte>)
    requires |positions| == |rotors| + 1 && |behind| == |rest|
    ensures Turn(rotors + [a] + rest, positions + behind)[..|positions|] == Turn(rotors + [b], positions)
    decreases |rotors|
  {
    if rotors == [] {
      assert positions == [positions[0]];
    } else {
      TurnInFront(rotors[1..], a, b, rest, positions[1..], behind);
      assert (rotors + [a] + rest)[1..] == rotors[1..] + [a] + rest;
      assert (positions + behind)[1..] == positions[1..] + behind;
      assert (rotors + [b])[1..] == rotors[1..] + [b];
    }
  }

  lemma {:induction false} AfterInFront(rotors: seq<Rotor>, a: Rotor, b: Rotor, rest: seq<Rotor>, positions: seq<Byte>,
                                        behind: seq<Byte>, t: nat)
    requires |positions| == |rotors| + 1 && |behind| == |rest|
    ensures After(rotors + [a] + rest, positions + behind, t)[..|positions|] == After(rotors + [b], positions, t)
    decreases t
  {
    hide Turn;
    if t > 0 {
      AfterInFront(rotors, a, b, rest, positions, behind, t - 1);
      var was := After(rotors + [a] + rest, positions + behind, t - 1);
      assert was == was[..|positions|] + was[|positions|..];
      TurnInFront(rotors, a, b, rest, was[..|positions|], was[|positions|..]);
    }
  }

  // While the rotors behind the last turned one stand still, a machine without
  // them does the same to the message.
  lemma TurnedRotorsSuffice(rotors: seq<Rotor>, last: Rotor, rest: seq<Rotor>, positions: seq<Byte>, still: seq<Byte>,
                            message: seq<Byte>)
    requires |positions| == |rotors| + 1 && |still| == |rest|
    requires Permutations(rotors) && Permutations(rest) && IsPermutation(last)
    requires forall k :: 0 <= k < |message| ==>
               After(rotors + [last] + rest, positions + still, k)[|positions|..] == still
    ensures IsPermutation(Merged(last, rest, still))
    ensures CryptMessage(rotors + [last] + rest, positions + still, message)
            == CryptMessage(rotors + [Merged(last, rest, still)], positions, message)
  {
    hide Crypt, After, Permutations, IsPermutation, Merged;
    var merged := Merged(last, rest, still);
    MergedIsPermutation(last, rest, still);
    forall k | 0 <= k < |message|
      ensures CryptMessage(rotors + [last] + rest, positions + still, message)[k]
              == CryptMessage(rotors + [merged], positions, message)[k]
    {
      var now := After(rotors + [last] + rest, positions + still, k);
      AfterInFront(rotors, last, merged, rest, positions, still, k);
      assert now == now[..|positions|] + now[|positions|..];
      MergedByte(rotors, last, rest, now[..|positions|], still, message[k]);
    }
  }

  // ----- Finding the 0 of the first rotor -----

  // Bytes counting down from x.
  ghost function Descending(x: Byte, n: nat): (message: seq<Byte>)
    ensures |message| == n
  {
    seq(n, k requires 0 <= k < n => (x - k) % 256)
  }

  function Down(b: Byte): Byte { (b + 255) % 256 }

  lemma SumOfMods(a: int, b: int)
    ensures (a % 256 + b % 256) % 256 == (a + b) % 256
  {
  }

  lemma {:induction false} FirstPosition(rotors: seq<Rotor>, positions: seq<Byte>, k: nat)
    requires |positions| == |rotors| > 0
    ensures After(rotors, positions, k)[0] == (positions[0] + k) % 256
  {
    hide Turn;
    if k > 0 {
      FirstPosition(rotors, positions, k - 1);
      TurnParts(rotors, After(rotors, positions, k - 1));
      SumOfMods(positions[0] + k - 1, 1);
    }
  }

  lemma EnterDescending(rotor: Rotor, p: int, x: int, k: int)
    ensures Enter(rotor, (p + k) % 256, (x - k) % 256) == rotor[(x + p) % 256]
  {
    SumOfMods(x - k, p + k);
  }

  // Every byte of the sequence comes out of the first rotor as the same byte.
  lemma DescendingByte(rotors: seq<Rotor>, positions: seq<Byte>, x: Byte, n: nat, k: nat)
    requires |positions| == |rotors| > 0 && k < n
    ensures CryptMessage(rotors, positions, Descending(x, n))[k]
            == Leave(rotors[0], (positions[0] + k) % 256,
                     Crypt(rotors[1..], After(rotors, positions, k)[1..], rotors[0][(x + positions[0]) % 256]))
  {
    hide Crypt, Enter, Leave, After;
    FirstPosition(rotors, positions, k);
    CryptInside(rotors, After(rotors, positions, k), (x - k) % 256);
    EnterDescending(rotors[0], positions[0], x, k);
  }

  lemma DownStep(u: Byte, v: Byte, p: int)
    ensures (v - (p + 1) % 256) % 256 == Down((u - p % 256) % 256) <==> u == v
  {
  }

  // One step further the first rotor gives one less for the same byte and
  // something else for another.
  lemma LeaveNext(rotor: Rotor, p: int, y: Byte, z: Byte)
    requires IsPermutation(rotor)
    ensures Leave(rotor, (p + 1) % 256, z) == Down(Leave(rotor, p % 256, y)) <==> y == z
  {
    hide Inverse, Down, IsPermutation;
    InverseUndoes(rotor, y);
    InverseUndoes(rotor, z);
    DownStep(Inverse(rotor)[y], Inverse(rotor)[z], p);
  }

  // Where the countdown of the output breaks off between byte k and the next.
  ghost predicate Breaks(rotors: seq<Rotor>, positions: seq<Byte>, x: Byte, k: nat)
    requires |positions| == |rotors|
  {
    var output := CryptMessage(rotors, positions, Descending(x, k + 2));
    output[k + 1] != Down(output[k])
  }

  // The output counts down as well, except exactly where the second rotor
  // turns and what is behind the first rotor then treats its byte differently.
  lemma CountdownBreaks(rotors: seq<Rotor>, positions: seq<Byte>, x: Byte, k: nat)
    requires |positions| == |rotors| > 0 && Permutations(rotors)
    ensures Breaks(rotors, positions, x, k) <==>
            var rest, behind := rotors[1..], After(rotors, positions, k)[1..];
            var c := rotors[0][(x + positions[0]) % 256];
            && rotors[0][(positions[0] + k) % 256] == 0
            && Crypt(rest, Turn(rest, behind), c) != Crypt(rest, behind, c)
  {
    hide Crypt, CryptMessage, Leave, IsPermutation, Descending, Turn, Down;
    DescendingByte(rotors, positions, x, k + 2, k);
    DescendingByte(rotors, positions, x, k + 2, k + 1);
    FirstPosition(rotors, positions, k);
    var now := After(rotors, positions, k);
    TurnParts(rotors, now);
    var c := rotors[0][(x + positions[0]) % 256];
    assert rotors[0] in rotors;
    LeaveNext(rotors[0], positions[0] + k, Crypt(rotors[1..], now[1..], c),
              Crypt(rotors[1..], After(rotors, positions, k + 1)[1..], c));
  }

  // So in a fresh machine a break within 256 bytes is at the index of the 0.
  lemma BreakFindsZero(rotors: seq<Rotor>, x: Byte, k: nat)
    requires rotors != [] && Permutations(rotors) && k < 256
    ensures Breaks(rotors, Origin(|rotors|), x, k) ==> rotors[0][k] == 0
  {
    hide Breaks, Permutations, Crypt, Turn, After;
    CountdownBreaks(rotors, Origin(|rotors|), x, k);
  }

  // Two rotors for which the converse fails.
  ghost function Raised(): Rotor { seq(256, i => (i + 2) % 256) }
  ghost function Mirrored(): Rotor { seq(256, i requires 0 <= i < 256 => if i < 128 then i else 383 - i) }

  lemma MirroredAlike()
    ensures Crypt([Mirrored()], [0], 1) == Crypt([Mirrored()], [1], 1)
  {
    var m := Mirrored();
    assert IsPermutation(m);
    hide Inverse, Crypt;
    CryptInside([m], [0], 1);
    CryptInside([m], [1], 1);
    assert [0 as Byte][1..] == [] && [1 as Byte][1..] == [] && [m][1..] == [];
    CryptWithoutRotors(1);
    CryptWithoutRotors(2);
    assert m[129] == 254 && m[130] == 253;
    InverseUndoes(m, 129);
    InverseUndoes(m, 130);
  }

  lemma RaisedZero(k: nat)
    requires k < 256
    ensures Permutations([Raised(), Mirrored()])
    ensures Raised()[255] == 1 && (Raised()[k] == 0 <==> k == 254)
  {
    hide Inverse;
    assert IsPermutation(Raised()) && IsPermutation(Mirrored());
  }

  lemma RaisedCarries()
    ensures Carries(Raised(), 254) == 0 && Carries(Raised(), 255) == 1
  {
    RaisedZero(254);
    hide Raised, Inverse, IsPermutation;
    assert Raised() in [Raised(), Mirrored()];
    InverseUndoes(Raised(), 254);
  }

  lemma SecondRotorTurns()
    ensures var rotors := [Raised(), Mirrored()];
            After(rotors, Origin(2), 254)[1..] == [0] && After(rotors, Origin(2), 255)[1..] == [1]
  {
    hide Raised, Mirrored, Carries, After, Permutations;
    var rotors := [Raised(), Mirrored()];
    RaisedZero(0);
    RaisedCarries();
    PositionsAre(rotors, 254, 1);
    PositionsAre(rotors, 255, 1);
    assert Turns(rotors, 254, 1) == Carries(rotors[0], Turns(rotors, 254, 0));
    assert Turns(rotors, 255, 1) == Carries(rotors[0], Turns(rotors, 255, 0));
  }

  lemma NoBreak(k: nat)
    requires k < 255
    ensures !Breaks([Raised(), Mirrored()], Origin(2), 255, k)
  {
    hide Raised, Mirrored, Crypt, Breaks, Permutations, After;
    var rotors := [Raised(), Mirrored()];
    RaisedZero(k);
    CountdownBreaks(rotors, Origin(2), 255, k);
    SecondRotorTurns();
    MirroredAlike();
    if k == 254 {
      assert rotors[1..] == [Mirrored()];
      var next := Turn([Mirrored()], [0]);
      assert next == [1];
    }
  }

  // The second rotor turns after byte 254, and the countdown from 255 goes on
  // through it.
  lemma CountdownMayGoOn()
    ensures var rotors := [Raised(), Mirrored()];
            && After(rotors, Origin(2), 254)[1..] == [0] && After(rotors, Origin(2), 255)[1..] == [1]
            && forall k :: 0 <= k < 255 ==> !Breaks(rotors, Origin(2), 255, k)
  {
    hide *;
    SecondRotorTurns();
    forall k | 0 <= k < 255 ensures !Breaks([Raised(), Mirrored()], Origin(2), 255, k) {
      NoBreak(k);
    }
  }

  // ----- Linear rotors -----

  ghost function Linear(a: Byte): Rotor { seq(256, i => (i + a) % 256) }

  ghost function LinearRotors(offsets: seq<Byte>): (rotors: seq<Rotor>)
    ensures |rotors| == |offsets|
  {
    if offsets == [] then [] else [Linear(offsets[0])] + LinearRotors(offsets[1..])
  }

  ghost function Shift(offsets: seq<Byte>, positions: seq<Byte>): int
    requires |positions| == |offsets|
  {
    if offsets == [] then 0 else offsets[0] + positions[0] + Shift(offsets[1..], positions[1..])
  }

  lemma LinearAt(a: Byte, i: Byte)
    ensures IsPermutation(Linear(a)) && Linear(a)[i] == (i + a) % 256
  {
  }

  lemma LinearEnter(a: Byte, p: Byte, x: int)
    ensures Enter(Linear(a), p, x % 256) == (x + p + a) % 256
  {
    hide Linear;
    LinearAt(a, (x % 256 + p) % 256);
    ModAdd(x, p, 256);
    ModAdd(x + p, a, 256);
  }

  lemma LinearLeave(a: Byte, p: Byte, y: int)
    ensures Leave(Linear(a), p, y % 256) == (y - p - a) % 256
  {
    hide Linear, Inverse, IsPermutation;
    var w := (y - a) % 256;
    LinearAt(a, w);
    ModAdd(y - a, a, 256);
    InverseUndoes(Linear(a), w);
    ModAdd(y - a, -(p as int), 256);
  }

  // A machine of linear rotors only reflects the byte, however many there are.
  lemma {:induction false} LinearMachine(offsets: seq<Byte>, positions: seq<Byte>, x: int)
    requires |positions| == |offsets|
    ensures Crypt(LinearRotors(offsets), positions, x % 256) == (255 - x - 2 * Shift(offsets, positions)) % 256
  {
    hide Crypt, Enter, Leave, Linear, IsPermutation;
    if offsets == [] {
      CryptWithoutRotors(x % 256);
    } else {
      var a, p, rest := offsets[0], positions[0], Shift(offsets[1..], positions[1..]);
      CryptInside(LinearRotors(offsets), positions, x % 256);
      LinearEnter(a, p, x);
      LinearLeave(a, p, 255 - (x + p + a) - 2 * rest);
      LinearMachine(offsets[1..], positions[1..], x + p + a);
    }
  }

  lemma DownTwice(z: int)
    ensures Down(Down(z % 256)) == (z - 2) % 256 == (z + 510) % 256
  {
  }

  lemma ShiftNext(offsets: seq<Byte>, positions: seq<Byte>)
    requires |positions| == |offsets| > 0 && Linear(offsets[0])[positions[0]] != 0
    ensures var next := Turn(LinearRotors(offsets), positions);
            Shift(offsets, next) - Shift(offsets, positions) in {1, -255}
  {
    hide Linear;
    TurnParts(LinearRotors(offsets), positions);
  }

  // The same byte again, after the first rotor alone has turned: two less.
  lemma LinearPattern(offsets: seq<Byte>, positions: seq<Byte>, x: Byte)
    requires |positions| == |offsets| > 0 && Linear(offsets[0])[positions[0]] != 0
    ensures var rotors := LinearRotors(offsets);
            Crypt(rotors, Turn(rotors, positions), x) == Down(Down(Crypt(rotors, positions, x)))
  {
    hide Crypt, Linear, Turn, Down, Shift, LinearRotors;
    LinearMachine(offsets, positions, x);
    LinearMachine(offsets, Turn(LinearRotors(offsets), positions), x);
    ShiftNext(offsets, positions);
    DownTwice(255 - x - 2 * Shift(offsets, positions));
  }
}
