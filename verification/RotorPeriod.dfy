// The period of the rotor machine: an odometer in base 256 whose digits are
// offset by where each rotor carries.
module RotorPeriod {
  import opened RotorMachine

  // 256^n
  ghost function Size(n: nat): (size: nat)
    ensures size >= 1
  {
    if n == 0 then 1 else 256 * Size(n - 1)
  }

  // The position at which a rotor carries: where it maps to 0.
  ghost function CarriesAt(rotor: Rotor): Byte { Inverse(rotor)[0] }

  lemma CarryPosition(rotor: Rotor, position: Byte)
    requires IsPermutation(rotor)
    ensures rotor[position] == 0 <==> position == CarriesAt(rotor)
  {
    hide Inverse;
    InverseUndoes(rotor, position);
    InverseUndoes(rotor, 0);
  }

  // How many steps the rotor has gone since it last carried.
  ghost function Digit(rotor: Rotor, position: Byte): Byte { (position - CarriesAt(rotor) - 1) % 256 }

  // The number the odometer shows.
  ghost function Rank(rotors: seq<Rotor>, positions: seq<Byte>): nat
    requires |positions| == |rotors|
  {
    if rotors == [] then 0 else Digit(rotors[0], positions[0]) + 256 * Rank(rotors[1..], positions[1..])
  }

  lemma {:induction false} RankBound(rotors: seq<Rotor>, positions: seq<Byte>)
    requires |positions| == |rotors|
    ensures Rank(rotors, positions) < Size(|rotors|)
  {
    if rotors != [] {
      RankBound(rotors[1..], positions[1..]);
    }
  }

  lemma DigitSteps(rotor: Rotor, position: Byte)
    ensures Digit(rotor, Step(position)) == (Digit(rotor, position) + 1) % 256
    ensures position == CarriesAt(rotor) <==> Digit(rotor, position) == 255
  {
  }

  lemma OdometerStep(d: nat, rest: nat, size: nat)
    requires d < 256 && rest < size
    ensures (d + 1) % 256 + 256 * (if d == 255 then (rest + 1) % size else rest) == (d + 256 * rest + 1) % (256 * size)
  {
    var value, full := d + 256 * rest + 1, 256 * size;
    if d < 255 {
      ModOf(0, value, full);
    } else if rest + 1 < size {
      ModOf(0, value, full);
      ModOf(0, rest + 1, size);
    } else {
      ModOf(1, 0, full);
      ModOf(1, 0, size);
      assert value == full;
    }
  }

  // Every turn counts one, and only the full odometer starts over.
  lemma {:induction false} TurnCountsOne(rotors: seq<Rotor>, positions: seq<Byte>)
    requires |positions| == |rotors| && Permutations(rotors)
    ensures var size := Size(|rotors|);
            Rank(rotors, Turn(rotors, positions)) == (Rank(rotors, positions) + 1) % size
  {
    hide IsPermutation, Digit, Step, CarriesAt;
    if rotors != [] {
      var rotor, p := rotors[0], positions[0];
      assert rotor in rotors;
      TurnCountsOne(rotors[1..], positions[1..]);
      CarryPosition(rotor, p);
      DigitSteps(rotor, p);
      RankBound(rotors[1..], positions[1..]);
      var next := Turn(rotors, positions);
      assert next[1..] == if rotor[p] == 0 then Turn(rotors[1..], positions[1..]) else positions[1..];
      OdometerStep(Digit(rotor, p), Rank(rotors[1..], positions[1..]), Size(|rotors| - 1));
    }
  }

  lemma ModOf(q: int, r: int, m: int)
    requires 0 <= r < m
    ensures (q * m + r) % m == r
  {
    var x := q * m + r;
    var d := x / m - q;
    assert x == (x / m) * m + x % m;
    assert d * m == r - x % m;
    MultipleApart(d, m);
  }

  lemma MultipleApart(d: int, m: int)
    requires m > 0
    ensures d >= 1 ==> d * m >= m
    ensures d <= -1 ==> d * m <= -m
  {
  }

  lemma ModAdd(x: int, k: int, m: int)
    requires m > 0
    ensures (x % m + k) % m == (x + k) % m
  {
    var y := x % m + k;
    ModOf(x / m + y / m, y % m, m);
    assert x + k == (x / m + y / m) * m + y % m;
  }

  lemma {:induction false} AfterCounts(rotors: seq<Rotor>, positions: seq<Byte>, t: nat)
    requires |positions| == |rotors| && Permutations(rotors)
    ensures Rank(rotors, After(rotors, positions, t)) == (Rank(rotors, positions) + t) % Size(|rotors|)
  {
    hide Rank, Turn, Permutations;
    var m := Size(|rotors|);
    if t == 0 {
      RankBound(rotors, positions);
      ModOf(0, Rank(rotors, positions), m);
    } else {
      AfterCounts(rotors, positions, t - 1);
      TurnCountsOne(rotors, After(rotors, positions, t - 1));
      ModAdd(Rank(rotors, positions) + t - 1, 1, m);
    }
  }

  lemma DigitInjective(rotor: Rotor, p: Byte, q: Byte)
    requires Digit(rotor, p) == Digit(rotor, q)
    ensures p == q
  {
  }

  lemma {:induction false} RankInjective(rotors: seq<Rotor>, p: seq<Byte>, q: seq<Byte>)
    requires |p| == |q| == |rotors| && Rank(rotors, p) == Rank(rotors, q)
    ensures p == q
  {
    hide Digit;
    if rotors != [] {
      DigitInjective(rotors[0], p[0], q[0]);
      RankInjective(rotors[1..], p[1..], q[1..]);
      assert p == [p[0]] + p[1..] && q == [q[0]] + q[1..];
    }
  }

  lemma ModShift(x: int, y: int, k: int, m: int)
    requires m > 0 && x % m == y % m
    ensures (x + k) % m == (y + k) % m
  {
    ModAdd(x, k, m);
    ModAdd(y, k, m);
  }

  lemma ModCancel(r: int, s: int, t: int, m: int)
    requires m > 0
    ensures (r + s) % m == (r + t) % m <==> s % m == t % m
  {
    if (r + s) % m == (r + t) % m { ModShift(r + s, r + t, -r, m); }
    if s % m == t % m { ModShift(s, t, r, m); }
  }

  // From every starting vector: two times show the same positions exactly
  // when they agree modulo 256^n, so the period is 256^n and nothing repeats
  // before.
  lemma PeriodIsExact(rotors: seq<Rotor>, positions: seq<Byte>, s: nat, t: nat)
    requires |positions| == |rotors| && Permutations(rotors)
    ensures After(rotors, positions, s) == After(rotors, positions, t) <==> s % Size(|rotors|) == t % Size(|rotors|)
  {
    hide Rank, After, Permutations, Size;
    AfterCounts(rotors, positions, s);
    AfterCounts(rotors, positions, t);
    ModCancel(Rank(rotors, positions), s, t, Size(|rotors|));
    if s % Size(|rotors|) == t % Size(|rotors|) {
      RankInjective(rotors, After(rotors, positions, s), After(rotors, positions, t));
    }
  }

  // Every position vector is visited, within one period.
  lemma AllVisited(rotors: seq<Rotor>, positions: seq<Byte>, target: seq<Byte>) returns (t: nat)
    requires |positions| == |target| == |rotors| && Permutations(rotors)
    ensures t < Size(|rotors|) && After(rotors, positions, t) == target
  {
    hide Rank, After, Permutations, Size;
    var m := Size(|rotors|);
    var r: int, goal: int := Rank(rotors, positions), Rank(rotors, target);
    t := (goal - r) % m;
    AfterCounts(rotors, positions, t);
    RankBound(rotors, target);
    ModAdd(goal - r, r, m);
    ModOf(0, goal, m);
    RankInjective(rotors, After(rotors, positions, t), target);
  }

  // ----- How often each rotor turns -----

  // How often a rotor carries in its first t turns from position 0.
  ghost function Carries(rotor: Rotor, t: nat): nat { (t + 255 - CarriesAt(rotor)) / 256 }

  lemma NextCarry(rotor: Rotor, t: nat)
    ensures Carries(rotor, 0) == 0
    ensures Carries(rotor, t + 1) == Carries(rotor, t) + if t % 256 == CarriesAt(rotor) then 1 else 0
  {
  }

  // Turns of rotor i in t steps of a machine started at positions 0.
  ghost function Turns(rotors: seq<Rotor>, t: nat, i: nat): nat
    requires i < |rotors|
  {
    if i == 0 then t else Carries(rotors[i - 1], Turns(rotors, t, i - 1))
  }

  ghost function Origin(n: nat): (positions: seq<Byte>)
    ensures |positions| == n
  {
    seq(n, _ => 0)
  }

  // Behind the first rotor there is a machine that steps once per carry.
  lemma {:induction false} TailSteps(rotors: seq<Rotor>, t: nat)
    requires rotors != [] && Permutations(rotors)
    ensures var now := After(rotors, Origin(|rotors|), t);
            now[0] == t % 256 && now[1..] == After(rotors[1..], Origin(|rotors| - 1), Carries(rotors[0], t))
  {
    hide IsPermutation, CarriesAt, Origin, Carries, Turn;
    var n := |rotors|;
    OriginParts(n);
    if t == 0 {
      NextCarry(rotors[0], 0);
    } else {
      TailSteps(rotors, t - 1);
      var was := After(rotors, Origin(n), t - 1);
      assert rotors[0] in rotors;
      CarryPosition(rotors[0], was[0]);
      NextCarry(rotors[0], t - 1);
      TurnParts(rotors, was);
    }
  }

  lemma TurnParts(rotors: seq<Rotor>, positions: seq<Byte>)
    requires |positions| == |rotors| > 0
    ensures var next := Turn(rotors, positions);
            && next[0] == Step(positions[0])
            && next[1..] == if rotors[0][positions[0]] == 0 then Turn(rotors[1..], positions[1..]) else positions[1..]
  {
  }

  lemma OriginParts(n: nat)
    requires n > 0
    ensures Origin(n)[1..] == Origin(n - 1) && Origin(n)[0] == 0
  {
  }

  lemma {:induction false} TurnsOfTail(rotors: seq<Rotor>, t: nat, i: nat)
    requires 0 < i < |rotors|
    ensures Turns(rotors, t, i) == Turns(rotors[1..], Carries(rotors[0], t), i - 1)
  {
    hide Carries;
    if i > 1 {
      TurnsOfTail(rotors, t, i - 1);
    }
  }

  // The position of rotor i is the number of its turns modulo 256.
  lemma {:induction false} PositionsAre(rotors: seq<Rotor>, t: nat, i: nat)
    requires i < |rotors| && Permutations(rotors)
    ensures After(rotors, Origin(|rotors|), t)[i] == Turns(rotors, t, i) % 256
    decreases i
  {
    hide IsPermutation, Carries, After, Origin;
    TailSteps(rotors, t);
    if i > 0 {
      PositionsAre(rotors[1..], Carries(rotors[0], t), i - 1);
      TurnsOfTail(rotors, t, i);
      var now := After(rotors, Origin(|rotors|), t);
      assert now[i] == now[1..][i - 1];
    }
  }

  // How often rotor i has moved in the first t steps, counted one by one.
  ghost function TurnCount(rotors: seq<Rotor>, t: nat, i: nat): nat
    requires i < |rotors|
  {
    if t == 0 then 0
    else
      var was, now := After(rotors, Origin(|rotors|), t - 1), After(rotors, Origin(|rotors|), t);
      TurnCount(rotors, t - 1, i) + if now[i] != was[i] then 1 else 0
  }

  lemma {:induction false} TurnsStep(rotors: seq<Rotor>, t: nat, i: nat)
    requires i < |rotors|
    ensures Turns(rotors, 0, i) == 0
    ensures Turns(rotors, t, i) <= Turns(rotors, t + 1, i) <= Turns(rotors, t, i) + 1
  {
    hide Carries;
    if i > 0 {
      TurnsStep(rotors, t, i - 1);
      NextCarry(rotors[i - 1], Turns(rotors, t, i - 1));
    }
  }

  lemma {:induction false} TurnCountIsTurns(rotors: seq<Rotor>, t: nat, i: nat)
    requires i < |rotors| && Permutations(rotors)
    ensures TurnCount(rotors, t, i) == Turns(rotors, t, i)
    decreases t
  {
    hide Turns, After, Permutations;
    if t == 0 {
      TurnsStep(rotors, 0, i);
    } else {
      TurnCountIsTurns(rotors, t - 1, i);
      TurnsStep(rotors, t - 1, i);
      PositionsAre(rotors, t - 1, i);
      PositionsAre(rotors, t, i);
    }
  }

  lemma WholeCarries(rotor: Rotor, k: nat)
    ensures Carries(rotor, 256 * k) == k
  {
    hide CarriesAt;
  }

  lemma {:induction false} WholeTurns(rotors: seq<Rotor>, k: nat, i: nat)
    requires i < |rotors|
    ensures Turns(rotors, Size(i) * k, i) == k
    decreases i
  {
    hide Carries;
    if i > 0 {
      assert Size(i) * k == Size(i - 1) * (256 * k);
      WholeTurns(rotors, 256 * k, i - 1);
      WholeCarries(rotors[i - 1], k);
    }
  }

  // Exactly k turns of rotor i in 256^i * k steps.
  lemma TurnRate(rotors: seq<Rotor>, k: nat, i: nat)
    requires i < |rotors| && Permutations(rotors)
    ensures TurnCount(rotors, Size(i) * k, i) == k
  {
    hide *;
    TurnCountIsTurns(rotors, Size(i) * k, i);
    WholeTurns(rotors, k, i);
  }

  // 2^n
  ghost function PowerOfTwo(n: nat): nat { if n == 0 then 1 else 2 * PowerOfTwo(n - 1) }

  lemma {:induction false} PowerBelowSize(n: nat)
    ensures PowerOfTwo(n) <= Size(n) && (n > 0 ==> PowerOfTwo(n) < Size(n))
  {
    if n > 0 {
      PowerBelowSize(n - 1);
    }
  }

  ghost predicate TurnsEvery(rotors: seq<Rotor>, period: nat, k: nat, i: nat)
    requires i < |rotors|
  {
    TurnCount(rotors, period * k, i) == k
  }

  // The documented rate of one turn in 2^i steps is right for the first rotor
  // only.
  lemma DocumentedRate(rotors: seq<Rotor>, i: nat)
    requires i < |rotors| && Permutations(rotors)
    ensures (forall k: nat :: TurnsEvery(rotors, PowerOfTwo(i), k, i)) <==> i == 0
  {
    hide TurnCount, Permutations;
    if i == 0 {
      forall k: nat ensures TurnsEvery(rotors, PowerOfTwo(i), k, i) {
        TurnRate(rotors, k, 0);
      }
    } else {
      PowerBelowSize(i);
      TurnRate(rotors, PowerOfTwo(i), i);
      assert PowerOfTwo(i) * Size(i) == Size(i) * PowerOfTwo(i);
      assert !TurnsEvery(rotors, PowerOfTwo(i), Size(i), i);
    }
  }
}
