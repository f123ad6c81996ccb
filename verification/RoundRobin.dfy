/**
 Choosing among the tasks of one priority level: the round robin of the sequencer.

 Bit masks over tasks are sets of task indices below `TASK_NBR`.
 */
module RoundRobin {

  const TASK_NBR: nat := 32

  type Tasks = set<nat>

  /** The mask with the `n` lowest bits set. */
  function Lowest(n: nat): (tasks: Tasks)
    ensures (forall t: nat :: t in tasks <==> t < n) && |tasks| == n
  {
    if n == 0 then {} else Lowest(n - 1) + {n - 1}
  }

  /** The mask with every bit set. */
  function All(): Tasks {
    Lowest(TASK_NBR)
  }

  /** The position of the highest bit set. */
  function BitPosition(tasks: Tasks): (t: nat)
    requires tasks != {} && tasks <= All()
    ensures t in tasks && forall x :: x in tasks ==> x <= t
  {
    HighestBelow(tasks, TASK_NBR)
  }

  function HighestBelow(tasks: Tasks, n: nat): (t: nat)
    requires exists x :: x in tasks && x < n
    ensures t in tasks && t < n && forall x :: x in tasks && x < n ==> x <= t
    decreases n
  {
    if n - 1 in tasks then n - 1 else HighestBelow(tasks, n - 1)
  }

  // ---- one choice ----

  /** The mask of tasks that may still be chosen in this round; a new round starts when none is a candidate. */
  function Round(roundRobin: Tasks, candidates: Tasks): Tasks {
    if roundRobin * candidates == {} then All() else roundRobin
  }

  function Chosen(roundRobin: Tasks, candidates: Tasks): (t: nat)
    requires candidates != {} && candidates <= All()
    ensures t in candidates && t in Round(roundRobin, candidates)
  {
    assert candidates * All() == candidates;
    BitPosition(candidates * Round(roundRobin, candidates))
  }

  function After(roundRobin: Tasks, candidates: Tasks): Tasks
    requires candidates != {} && candidates <= All()
  {
    Round(roundRobin, candidates) - {Chosen(roundRobin, candidates)}
  }

  // ---- the choices made at one level ----

  /** A choice of one task among the candidates. */
  datatype Pick = Pick(candidates: Tasks, task: nat) {
    predicate Proper() { candidates != {} && candidates <= All() }
  }

  function Next(mask: Tasks, pick: Pick): Tasks {
    if pick.Proper() then After(mask, pick.candidates) else mask
  }

  /** The round robin mask after a sequence of choices. */
  function MaskAfter(mask: Tasks, picks: seq<Pick>): Tasks
    decreases |picks|
  {
    if picks == [] then mask else MaskAfter(Next(mask, picks[0]), picks[1..])
  }

  /** Every choice is the one the round robin makes. */
  predicate Fair(mask: Tasks, picks: seq<Pick>)
    decreases |picks|
  {
    picks != [] ==>
      && picks[0].Proper() && picks[0].task == Chosen(mask, picks[0].candidates)
      && Fair(Next(mask, picks[0]), picks[1..])
  }

  function Count(picks: seq<Pick>, t: nat): nat {
    if picks == [] then 0 else (if picks[0].task == t then 1 else 0) + Count(picks[1..], t)
  }

  /** Task `u` is a candidate at every choice and is not chosen. */
  predicate Waits(picks: seq<Pick>, u: nat) {
    forall k :: 0 <= k < |picks| ==> u in picks[k].candidates && picks[k].task != u
  }

  function If(condition: bool, n: nat): nat {
    if condition then n else 0
  }

  lemma {:induction false} FairSplit(mask: Tasks, a: seq<Pick>, b: seq<Pick>)
    ensures Fair(mask, a + b) <==> Fair(mask, a) && Fair(MaskAfter(mask, a), b)
    ensures MaskAfter(mask, a + b) == MaskAfter(MaskAfter(mask, a), b)
    decreases |a|
  {
    hide Chosen, After, Next, Lowest;
    if a == [] {
      assert a + b == b;
    } else {
      assert (a + b)[1..] == a[1..] + b;
      FairSplit(Next(mask, a[0]), a[1..], b);
    }
  }

  /** A further choice made by the round robin. */
  lemma FairAppend(mask: Tasks, picks: seq<Pick>, pick: Pick)
    requires Fair(mask, picks) && pick.Proper() && pick.task == Chosen(MaskAfter(mask, picks), pick.candidates)
    ensures Fair(mask, picks + [pick])
    ensures MaskAfter(mask, picks + [pick]) == After(MaskAfter(mask, picks), pick.candidates)
  {
    hide Chosen, After, Fair, MaskAfter;
    FairSplit(mask, picks, [pick]);
    FairSingle(MaskAfter(mask, picks), pick);
  }

  lemma FairSingle(mask: Tasks, pick: Pick)
    requires pick.Proper() && pick.task == Chosen(mask, pick.candidates)
    ensures Fair(mask, [pick]) && MaskAfter(mask, [pick]) == After(mask, pick.candidates)
  {
  }

  /** While `u` waits, a choice of `v` uses up its turn of this round, or the round in which `u` had none. */
  lemma ChoiceUsesTurn(mask: Tasks, candidates: Tasks, u: nat, v: nat)
    requires mask <= All() && candidates != {} && candidates <= All()
    requires u in candidates && Chosen(mask, candidates) != u && u != v
    ensures var next := After(mask, candidates);
            If(Chosen(mask, candidates) == v, 1) + If(v in next, 1) + If(u !in next, 1)
            <= If(v in mask, 1) + If(u !in mask, 1)
  {
    hide Chosen, Lowest;
    assert u in mask ==> u in mask * candidates;
    assert v in mask && v in candidates ==> v in mask * candidates;
  }

  /** Each choice uses up the round; a new one starts only once while a candidate waits. */
  lemma ChoiceUsesRound(mask: Tasks, candidates: Tasks, u: nat)
    requires mask <= All() && candidates != {} && candidates <= All()
    requires u in candidates && Chosen(mask, candidates) != u
    ensures var next := After(mask, candidates);
            1 + |next| + If(u !in next, TASK_NBR) <= |mask| + If(u !in mask, TASK_NBR)
  {
    hide Chosen, Lowest;
    var t := Chosen(mask, candidates);
    if mask * candidates == {} {
      assert u in mask ==> u in mask * candidates;
      assert |All() - {t}| == TASK_NBR - 1;
    } else {
      assert |mask - {t}| == |mask| - 1;
    }
  }

  /** A task that is a candidate at every choice of its level sees no other chosen more than twice before it is. */
  lemma {:induction false} OvertakenAtMostTwice(mask: Tasks, picks: seq<Pick>, u: nat, v: nat)
    requires Fair(mask, picks) && mask <= All() && Waits(picks, u) && u != v
    ensures Count(picks, v) <= If(v in mask, 1) + If(u !in mask, 1) <= 2
    decreases |picks|
  {
    hide Chosen, After, Lowest;
    if picks != [] {
      var rest, next := picks[1..], Next(mask, picks[0]);
      AfterInRange(mask, picks[0].candidates);
      assert forall k :: 0 <= k < |rest| ==> rest[k] == picks[k + 1];
      OvertakenAtMostTwice(next, rest, u, v);
      ChoiceUsesTurn(mask, picks[0].candidates, u, v);
    }
  }

  /** And it waits for fewer choices than two full rounds have. */
  lemma {:induction false} WaitsAtMostTwoRounds(mask: Tasks, picks: seq<Pick>, u: nat)
    requires Fair(mask, picks) && mask <= All() && Waits(picks, u)
    ensures |picks| <= |mask| + If(u !in mask, TASK_NBR)
    ensures picks != [] ==> |picks| < 2 * TASK_NBR
    decreases |picks|
  {
    hide Chosen, After, Lowest;
    if picks != [] {
      var rest, next := picks[1..], Next(mask, picks[0]);
      AfterInRange(mask, picks[0].candidates);
      assert forall k :: 0 <= k < |rest| ==> rest[k] == picks[k + 1];
      WaitsAtMostTwoRounds(next, rest, u);
      ChoiceUsesRound(mask, picks[0].candidates, u);
      assert u in picks[0].candidates;
      MaskSize(mask, u);
    }
  }

  lemma AfterInRange(mask: Tasks, candidates: Tasks)
    requires mask <= All() && candidates != {} && candidates <= All()
    ensures After(mask, candidates) <= All()
  {
  }

  lemma {:induction false} MaskInRange(mask: Tasks, picks: seq<Pick>)
    requires mask <= All()
    ensures MaskAfter(mask, picks) <= All()
    decreases |picks|
  {
    hide Chosen, After, Lowest;
    if picks != [] {
      if picks[0].Proper() { AfterInRange(mask, picks[0].candidates); }
      MaskInRange(Next(mask, picks[0]), picks[1..]);
    }
  }

  /** Both bounds hold from any choice on of a run that started with the empty mask. */
  lemma BoundedOvertaking(picks: seq<Pick>, i: nat, u: nat, v: nat)
    requires Fair({}, picks) && i <= |picks| && Waits(picks[i..], u) && u != v
    ensures Count(picks[i..], v) <= 2 && (i < |picks| ==> |picks| - i < 2 * TASK_NBR)
  {
    hide Fair, Waits, Count, MaskAfter, Lowest;
    assert picks == picks[..i] + picks[i..];
    FairSplit({}, picks[..i], picks[i..]);
    MaskInRange({}, picks[..i]);
    OvertakenAtMostTwice(MaskAfter({}, picks[..i]), picks[i..], u, v);
    WaitsAtMostTwoRounds(MaskAfter({}, picks[..i]), picks[i..], u);
  }

  lemma MaskSize(mask: Tasks, u: nat)
    requires mask <= All() && u in All()
    ensures |mask| + If(u !in mask, 1) <= TASK_NBR
  {
    hide Lowest;
    var others := All() - mask;
    assert All() == mask + others;
    if u !in mask { assert u in others; assert others != {}; }
  }

  lemma NewRoundTakesHighest(mask: Tasks, candidates: Tasks)
    requires candidates != {} && candidates <= All() && mask * candidates == {}
    ensures forall x :: x in candidates ==> x <= Chosen(mask, candidates)
  {
    assert candidates * All() == candidates;
  }

  /** From the start, a task can indeed be overtaken twice by the same other one. */
  lemma TwiceIsReached()
    ensures var picks := [Pick({0, 1}, 1), Pick({0, 1}, 1)];
            Fair({}, [Pick({0}, 0)] + picks) && Waits(picks, 0) && Count(picks, 1) == 2
  {
    hide Chosen, Lowest, Fair, MaskAfter;
    var first, both := Pick({0}, 0), Pick({0, 1}, 1);
    var mask, mask' := All() - {0}, All() - {0} - {1};
    assert Round({}, {0}) == All();
    FairSingle({}, first);
    assert 1 in mask * {0, 1} && Round(mask, {0, 1}) == mask;
    FairSingle(mask, both);
    assert mask' * {0, 1} == {};
    NewRoundTakesHighest(mask', {0, 1});
    assert 1 in {0, 1} && Chosen(mask', {0, 1}) == 1;
    FairAppend({}, [first], both);
    assert [first] + [both] == [first, both];
    FairAppend({}, [first, both], both);
    assert [first, both] + [both] == [first] + [both, both];
    assert [both, both][1..] == [both];
  }

  // ---- masks as numbers ----

  function Pow2(n: nat): (p: nat)
    ensures p > 0
  {
    if n == 0 then 1 else 2 * Pow2(n - 1)
  }

  lemma Pow2Values()
    ensures Pow2(0) == 1 && Pow2(4) == 0x10 && Pow2(8) == 0x100 && Pow2(12) == 0x1000
    ensures Pow2(16) == 0x1_0000 && Pow2(20) == 0x10_0000 && Pow2(24) == 0x100_0000 && Pow2(28) == 0x1000_0000
    ensures Pow2(29) == 0x2000_0000 && Pow2(30) == 0x4000_0000 && Pow2(31) == 0x8000_0000 && Pow2(32) == 0x1_0000_0000
  {
  }

  lemma Pow2Step(n: nat)
    ensures Pow2(n) == if n == 0 then 1 else 2 * Pow2(n - 1)
  {
  }

  lemma {:induction false} ShiftBack(value: nat, position: nat, n: nat)
    requires Pow2(position + n) <= value * Pow2(n) < Pow2(position + n + 1)
    ensures Pow2(position) <= value < Pow2(position + 1)
  {
    hide Pow2;
    if n == 0 {
      Pow2Step(0);
    } else {
      Pow2Step(n);
      Pow2Step(position + n);
      Pow2Step(position + n + 1);
      var half := value * Pow2(n - 1);
      assert value * (2 * Pow2(n - 1)) == 2 * half;
      ShiftBack(value, position, n - 1);
    }
  }

  /** Leading zeros of a nonzero 4-bit number. */
  function LeadingZeros4(value: nat): nat
    requires 0 < value < 16
  {
    [4, 3, 2, 2, 1, 1, 1, 1, 0, 0, 0, 0, 0, 0, 0, 0][value]
  }

  /** A 32-bit number shifted up until its top four bits are not all zero, and by how much. */
  function ShiftedUp(value: nat): (r: (nat, nat))
    requires 0 < value < 0x1_0000_0000
    ensures r.0 <= 28 && r.1 == value * Pow2(r.0) && 0x1000_0000 <= r.1 < 0x1_0000_0000
  {
    Pow2Values();
    var n1, v1 := if value < 0x1_0000 then 16 else 0, if value < 0x1_0000 then value * 0x1_0000 else value;
    var n2, v2 := if v1 < 0x100_0000 then n1 + 8 else n1, if v1 < 0x100_0000 then v1 * 0x100 else v1;
    var n3, v3 := if v2 < 0x1000_0000 then n2 + 4 else n2, if v2 < 0x1000_0000 then v2 * 0x10 else v2;
    (n3, v3)
  }

  lemma TopBits(shifted: nat)
    requires 0x1000_0000 <= shifted < 0x1_0000_0000
    ensures 0 < shifted / 0x1000_0000 < 16
    ensures var leading := LeadingZeros4(shifted / 0x1000_0000);
            leading <= 3 && Pow2(31 - leading) <= shifted < Pow2(32 - leading)
  {
    Pow2Values();
    var top := shifted / 0x1000_0000;
    assert top * 0x1000_0000 <= shifted < (top + 1) * 0x1000_0000;
  }

  /** The position of the highest bit of a 32-bit number, found by halving and a table. */
  function HighestBit(value: nat): (position: nat)
    requires 0 < value < 0x1_0000_0000
    ensures position < TASK_NBR && Pow2(position) <= value < Pow2(position + 1)
  {
    hide Pow2, ShiftedUp, LeadingZeros4;
    var (n, shifted) := ShiftedUp(value);
    ShiftedBack(value, n, shifted);
    31 - (n + LeadingZeros4(shifted / 0x1000_0000))
  }

  lemma ShiftedBack(value: nat, n: nat, shifted: nat)
    requires value > 0 && n <= 28 && shifted == value * Pow2(n) && 0x1000_0000 <= shifted < 0x1_0000_0000
    ensures 0 < shifted / 0x1000_0000 < 16
    ensures var position := 31 - (n + LeadingZeros4(shifted / 0x1000_0000));
            0 <= position < TASK_NBR && Pow2(position) <= value < Pow2(position + 1)
  {
    hide Pow2, LeadingZeros4;
    TopBits(shifted);
    ShiftBack(value, 31 - LeadingZeros4(shifted / 0x1000_0000) - n, n);
  }

  function Bits(value: nat): Tasks {
    set t | t in All() && value / Pow2(t) % 2 == 1
  }

  lemma {:induction false} Pow2Grows(m: nat, n: nat)
    requires m <= n
    ensures Pow2(m) <= Pow2(n)
    decreases n - m
  {
    if m < n { Pow2Grows(m + 1, n); }
  }

  lemma DivideSmall(value: nat, p: nat)
    requires p > 0
    ensures value < p ==> value / p == 0
    ensures p <= value < 2 * p ==> value / p == 1
  {
    if p <= value < 2 * p { assert value / p == (value - p) / p + 1; }
  }

  /** Halving finds the same task as choosing the highest index of the mask. */
  lemma HighestBitIsPosition(value: nat)
    requires 0 < value < 0x1_0000_0000
    ensures Bits(value) != {} && Bits(value) <= All() && HighestBit(value) == BitPosition(Bits(value))
  {
    hide Lowest, HighestBit, BitPosition;
    var r := HighestBit(value);
    DivideSmall(value, Pow2(r));
    assert r in Bits(value);
    forall t | t in Bits(value) ensures t <= r {
      if t > r {
        Pow2Grows(r + 1, t);
        DivideSmall(value, Pow2(t));
      }
    }
  }
}
