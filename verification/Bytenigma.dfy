// Bytenigma::Bytenigma: the rotor machine as the program runs it.
module BytenigmaMachine {
  import opened RotorMachine

  // The first i bytes of the output are done.
  ghost predicate Crypted(rotors: seq<Rotor>, start: seq<Byte>, input: seq<Byte>, output: seq<Byte>, i: nat) {
    && |start| == |rotors| && i <= |output| == |input|
    && forall k :: 0 <= k < i ==> output[k] == CryptMessage(rotors, start, input)[k]
  }

  lemma StartMessage(rotors: seq<Rotor>, start: seq<Byte>, input: seq<Byte>)
    requires |start| == |rotors|
    ensures Crypted(rotors, start, input, seq(|input|, _ => 0), 0) && After(rotors, start, 0) == start
  {
  }

  lemma CryptNext(rotors: seq<Rotor>, start: seq<Byte>, input: seq<Byte>, output: seq<Byte>, i: nat)
    requires Crypted(rotors, start, input, output, i) && i < |input|
    ensures Crypted(rotors, start, input, output[i := Crypt(rotors, After(rotors, start, i), input[i])], i + 1)
    ensures After(rotors, start, i + 1) == Turn(rotors, After(rotors, start, i))
  {
  }

  lemma CryptEnd(rotors: seq<Rotor>, start: seq<Byte>, input: seq<Byte>, output: seq<Byte>)
    requires Crypted(rotors, start, input, output, |input|)
    ensures output == CryptMessage(rotors, start, input)
  {
  }

  class Bytenigma {
    const rotors: seq<Rotor>
    var inverseRotors: seq<Rotor>
    var positions: seq<Byte>

    ghost predicate Valid()
      reads this
    {
      && |inverseRotors| == |positions| == |rotors|
      && forall i :: 0 <= i < |rotors| ==> inverseRotors[i] == Inverse(rotors[i])
    }

    lemma Sizes()
      requires Valid()
      ensures |positions| == |rotors|
    {
    }

    constructor (rotors: seq<Rotor>)
      ensures Valid() && this.rotors == rotors && positions == seq(|rotors|, _ => 0)
    {
      this.rotors := rotors;
      inverseRotors := [];
      positions := seq(|rotors|, _ => 0);
      new;
      CalculateInverseRotors();
    }

    method CalculateInverseRotors()
      modifies `inverseRotors
      ensures |inverseRotors| == |rotors|
      ensures forall i :: 0 <= i < |rotors| ==> inverseRotors[i] == Inverse(rotors[i])
    {
      inverseRotors := seq(|rotors|, _ => seq(256, _ => 0));
      var i := 0;
      while i < |rotors|
        invariant 0 <= i <= |rotors| == |inverseRotors|
        invariant forall k :: 0 <= k < i ==> inverseRotors[k] == Inverse(rotors[k])
      {
        var inverse: Rotor := seq(256, _ => 0);
        var entry := 0;
        while entry < |inverse|
          invariant 0 <= entry <= 256
          invariant inverse == InverseUpTo(rotors[i], entry)
        {
          inverse := inverse[rotors[i][entry] := entry];
          entry := entry + 1;
        }
        inverseRotors := inverseRotors[i := inverse];
        i := i + 1;
      }
    }

    method ForwardPass(x: Byte) returns (output: Byte)
      requires Valid()
      ensures output == Forward(rotors, positions, x)
    {
      output := x;
      var i := 0;
      while i < |rotors|
        invariant 0 <= i <= |rotors|
        invariant Forward(rotors[i..], positions[i..], output) == Forward(rotors, positions, x)
      {
        var rotor := rotors[i];
        assert rotors[i..][0] == rotor && rotors[i..][1..] == rotors[i + 1..];
        assert positions[i..][0] == positions[i] && positions[i..][1..] == positions[i + 1..];
        output := rotor[(output + positions[i]) % |rotor|];
        i := i + 1;
      }
    }

    // From the last rotor to the first; the subtraction wraps around.
    method BackwardPass(y: Byte) returns (output: Byte)
      requires Valid()
      ensures output == Backward(rotors, positions, y)
    {
      output := y;
      var i := |inverseRotors|;
      assert rotors[i..] == [];
      while i > 0
        invariant 0 <= i <= |rotors|
        invariant output == Backward(rotors[i..], positions[i..], y)
      {
        i := i - 1;
        var rotor := inverseRotors[i];
        assert rotors[i..][0] == rotors[i] && rotors[i..][1..] == rotors[i + 1..];
        assert positions[i..][0] == positions[i] && positions[i..][1..] == positions[i + 1..];
        output := rotor[output % |rotor|];
        output := (output - positions[i]) % 256;
      }
    }

    method TurnRotor(index: nat)
      requires Valid() && index < |rotors|
      modifies `positions
      ensures Valid()
      ensures positions == old(positions)[..index] + Turn(rotors[index..], old(positions)[index..])
      decreases |rotors| - index
    {
      var rotor := rotors[index];
      var oldPosition := positions[index];
      ghost var before := positions;
      assert rotors[index..][0] == rotor && rotors[index..][1..] == rotors[index + 1..];
      assert before[index..][0] == oldPosition && before[index..][1..] == before[index + 1..];
      positions := positions[index := Step(oldPosition)];
      if rotor[oldPosition] == 0 && index + 1 < |rotors| {
        TurnRotor(index + 1);
      }
    }

    // ok is false where the program throws: a machine without rotors has none
    // to turn.
    method ProcessByte(x: Byte) returns (ok: bool, output: Byte)
      requires Valid()
      modifies `positions
      ensures Valid() && (ok <==> |rotors| > 0)
      ensures !ok ==> positions == old(positions)
      ensures ok ==> output == Crypt(rotors, old(positions), x) && positions == Turn(rotors, old(positions))
    {
      var forward := ForwardPass(x);
      var complement: Byte := 255 - forward;
      var backward := BackwardPass(complement);
      if |rotors| == 0 {
        return false, 0;
      }
      TurnRotor(0);
      return true, backward;
    }

    method ProcessBytes(input: seq<Byte>) returns (ok: bool, output: seq<Byte>)
      requires Valid()
      modifies `positions
      ensures Valid() && (ok <==> |rotors| > 0 || input == [])
      ensures ok ==> output == CryptMessage(rotors, old(positions), input)
      ensures ok ==> positions == After(rotors, old(positions), |input|)
    {
      Sizes();
      hide *;
      StartMessage(rotors, positions, input);
      output := seq(|input|, _ => 0);
      var i := 0;
      while i < |input|
        invariant 0 <= i <= |input| == |output|
        invariant Valid() && |positions| == |rotors| && positions == After(rotors, old(positions), i)
        invariant i > 0 ==> |rotors| > 0
        invariant Crypted(rotors, old(positions), input, output, i)
      {
        var b;
        ok, b := ProcessByte(input[i]);
        if !ok {
          return false, [];
        }
        Sizes();
        CryptNext(rotors, old(positions), input, output, i);
        output := output[i := b];
        i := i + 1;
      }
      CryptEnd(rotors, old(positions), input, output);
      ok := true;
    }
  }
}
