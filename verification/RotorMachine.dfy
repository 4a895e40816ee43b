// The mathematics of the rotor machine: what one position vector does to a
// byte, and how the position vector moves.
module RotorMachine {

  type Byte = b: int | 0 <= b < 256
  type Rotor = r: seq<Byte> | |r| == 256 witness seq(256, _ => 0)

  ghost predicate IsPermutation(rotor: Rotor) {
    forall i, j :: 0 <= i < j < 256 ==> rotor[i] != rotor[j]
  }

  ghost predicate Permutations(rotors: seq<Rotor>) {
    forall r :: r in rotors ==> IsPermutation(r)
  }

  // ----- The inverse table -----

  // Later entries overwrite earlier ones; entries never written stay 0.
  function InverseUpTo(rotor: Rotor, k: nat): (inverse: Rotor)
    requires k <= 256
  {
    if k == 0 then seq(256, _ => 0) else InverseUpTo(rotor, k - 1)[rotor[k - 1] := k - 1]
  }

  function Inverse(rotor: Rotor): Rotor { InverseUpTo(rotor, 256) }

  lemma {:induction false} InverseUpToUndoes(rotor: Rotor, k: nat, x: nat)
    requires IsPermutation(rotor) && x < k <= 256
    ensures InverseUpTo(rotor, k)[rotor[x]] == x
  {
    if x < k - 1 {
      InverseUpToUndoes(rotor, k - 1, x);
    }
  }

  ghost function Values(rotor: Rotor, k: nat): set<nat>
    requires k <= 256
  {
    set i | 0 <= i < k :: rotor[i]
  }

  ghost function Below(n: nat): (s: set<nat>)
    ensures forall x: nat :: x in s <==> x < n
  {
    if n == 0 then {} else Below(n - 1) + {n - 1}
  }

  lemma {:induction false} BelowSize(n: nat)
    ensures |Below(n)| == n
  {
    if n > 0 {
      BelowSize(n - 1);
    }
  }

  lemma {:induction false} ValuesSize(rotor: Rotor, k: nat)
    requires IsPermutation(rotor) && k <= 256
    ensures |Values(rotor, k)| == k
  {
    if k > 0 {
      ValuesSize(rotor, k - 1);
      assert Values(rotor, k) == Values(rotor, k - 1) + {rotor[k - 1]};
      assert rotor[k - 1] !in Values(rotor, k - 1);
    }
  }

  lemma {:induction false} SubsetSize(a: set<nat>, b: set<nat>)
    requires a <= b
    ensures |a| <= |b|
  {
    if a != {} {
      var x :| x in a;
      SubsetSize(a - {x}, b - {x});
    }
  }

  // A rotor without repetitions reaches every byte.
  lemma Reaches(rotor: Rotor, y: Byte) returns (x: nat)
    requires IsPermutation(rotor)
    ensures x < 256 && rotor[x] == y
  {
    ValuesSize(rotor, 256);
    BelowSize(256);
    if y !in Values(rotor, 256) {
      SubsetSize(Values(rotor, 256), Below(256) - {y});
    }
    x :| 0 <= x < 256 && rotor[x] == y;
  }

  lemma InverseUndoes(rotor: Rotor, x: Byte)
    requires IsPermutation(rotor)
    ensures Inverse(rotor)[rotor[x]] == x && rotor[Inverse(rotor)[x]] == x
  {
    InverseUpToUndoes(rotor, 256, x);
    var w := Reaches(rotor, x);
    InverseUpToUndoes(rotor, 256, w);
  }

  // ----- One byte through the rotors -----

  function Enter(rotor: Rotor, position: Byte, x: Byte): Byte { rotor[(x + position) % 256] }

  function Leave(rotor: Rotor, position: Byte, y: Byte): Byte { (Inverse(rotor)[y] - position) % 256 }

  function Forward(rotors: seq<Rotor>, positions: seq<Byte>, x: Byte): Byte
    requires |positions| == |rotors|
  {
    if rotors == [] then x else Forward(rotors[1..], positions[1..], Enter(rotors[0], positions[0], x))
  }

  function Backward(rotors: seq<Rotor>, positions: seq<Byte>, y: Byte): Byte
    requires |positions| == |rotors|
  {
    if rotors == [] then y else Leave(rotors[0], positions[0], Backward(rotors[1..], positions[1..], y))
  }

  function Complement(x: Byte): Byte { 255 - x }

  function Crypt(rotors: seq<Rotor>, positions: seq<Byte>, x: Byte): Byte
    requires |positions| == |rotors|
  {
    Backward(rotors, positions, Complement(Forward(rotors, positions, x)))
  }

  lemma EnterLeave(rotor: Rotor, position: Byte, x: Byte)
    requires IsPermutation(rotor)
    ensures Leave(rotor, position, Enter(rotor, position, x)) == x
    ensures Enter(rotor, position, Leave(rotor, position, x)) == x
  {
    hide Inverse;
    InverseUndoes(rotor, (x + position) % 256);
    InverseUndoes(rotor, x);
  }

  // The two passes are inverse to each other at every position vector.
  lemma {:induction false} PassesInverse(rotors: seq<Rotor>, positions: seq<Byte>, x: Byte)
    requires |positions| == |rotors| && Permutations(rotors)
    ensures Backward(rotors, positions, Forward(rotors, positions, x)) == x
    ensures Forward(rotors, positions, Backward(rotors, positions, x)) == x
  {
    hide Enter, Leave, IsPermutation;
    if rotors != [] {
      assert rotors[0] in rotors;
      EnterLeave(rotors[0], positions[0], x);
      PassesInverse(rotors[1..], positions[1..], Enter(rotors[0], positions[0], x));
      PassesInverse(rotors[1..], positions[1..], x);
      EnterLeave(rotors[0], positions[0], Backward(rotors[1..], positions[1..], x));
    }
  }

  // Encrypting twice gives the byte back, and no byte encrypts to itself.
  lemma CryptIsInvolution(rotors: seq<Rotor>, positions: seq<Byte>, x: Byte)
    requires |positions| == |rotors| && Permutations(rotors)
    ensures Crypt(rotors, positions, Crypt(rotors, positions, x)) == x
    ensures Crypt(rotors, positions, x) != x
  {
    hide Forward, Backward, Permutations;
    var y := Forward(rotors, positions, x);
    PassesInverse(rotors, positions, x);
    PassesInverse(rotors, positions, Complement(y));
  }

  // ----- Turning -----

  function Step(position: Byte): Byte { (position + 1) % 256 }

  // One step of the first rotor, carried to the next when the old position is
  // where the rotor maps to 0.
  function Turn(rotors: seq<Rotor>, positions: seq<Byte>): (next: seq<Byte>)
    requires |positions| == |rotors|
    ensures |next| == |positions|
  {
    if rotors == [] then []
    else
      [Step(positions[0])]
      + if rotors[0][positions[0]] == 0 then Turn(rotors[1..], positions[1..]) else positions[1..]
  }

  function After(rotors: seq<Rotor>, positions: seq<Byte>, t: nat): (next: seq<Byte>)
    requires |positions| == |rotors|
    ensures |next| == |positions|
  {
    if t == 0 then positions else Turn(rotors, After(rotors, positions, t - 1))
  }

  // Byte k of a message meets the positions after k turns, whatever the bytes
  // before it were.
  function CryptMessage(rotors: seq<Rotor>, positions: seq<Byte>, message: seq<Byte>): (output: seq<Byte>)
    requires |positions| == |rotors|
    ensures |output| == |message|
  {
    seq(|message|, k requires 0 <= k < |message| => Crypt(rotors, After(rotors, positions, k), message[k]))
  }

  // Two machines in equal states undo each other on messages of any length.
  lemma MessageRoundTrip(rotors: seq<Rotor>, positions: seq<Byte>, message: seq<Byte>)
    requires |positions| == |rotors| && Permutations(rotors)
    ensures CryptMessage(rotors, positions, CryptMessage(rotors, positions, message)) == message
    ensures forall k :: 0 <= k < |message| ==> CryptMessage(rotors, positions, message)[k] != message[k]
  {
    hide Crypt, After, Permutations;
    forall k | 0 <= k < |message|
      ensures CryptMessage(rotors, positions, CryptMessage(rotors, positions, message))[k] == message[k]
      ensures CryptMessage(rotors, positions, message)[k] != message[k]
    {
      CryptIsInvolution(rotors, After(rotors, positions, k), message[k]);
    }
  }
}
