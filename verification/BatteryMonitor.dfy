/**
 The voltage filter of the battery monitor: a ring of the latest measurements, sorted into a second
 buffer by two nested loops over the full range, and the mean of two middle elements of that buffer.
 The source's depth is 4; the model keeps it as a parameter.
 */
module BatteryMonitors {
  import opened Basics

  const THRESHOLD_NO_RESTRICTION := 2750
  const THRESHOLD_RESTRICTED_OPERATION := 2500

  /** Unsigned 32-bit numbers. */
  type Millivolt = mv: nat | mv < TWO_TO_THE_32

  datatype AppState = Undefined | NoRestriction | ReducedOperation | CriticalBatteryLevel

  /** The messages of the monitor. */
  datatype Message = StateChange(currentState: AppState, previousState: AppState) | CapacityChange(remaining: nat)

  function VbatToApplicationState(vbatMv: Millivolt): AppState {
    if vbatMv > THRESHOLD_NO_RESTRICTION then NoRestriction
    else if vbatMv > THRESHOLD_RESTRICTED_OPERATION then ReducedOperation
    else CriticalBatteryLevel
  }

  /** The application state at each voltage. */
  lemma StateOfVoltage(vbatMv: Millivolt)
    ensures VbatToApplicationState(vbatMv) == NoRestriction <==> vbatMv >= 2751
    ensures VbatToApplicationState(vbatMv) == ReducedOperation <==> 2501 <= vbatMv <= 2750
    ensures VbatToApplicationState(vbatMv) == CriticalBatteryLevel <==> vbatMv <= 2500
  {
  }

  ghost predicate Ascending(s: seq<Millivolt>) {
    forall i, j :: 0 <= i < j < |s| ==> s[i] <= s[j]
  }

  /** The value at least as large as all, at position `m`. */
  ghost predicate MaximumAt(s: seq<Millivolt>, m: nat) {
    m < |s| && forall k :: 0 <= k < |s| ==> s[k] <= s[m]
  }

  /** The sum of the two elements that the monitor takes for the middle ones. */
  function MiddleSum(sorted: seq<Millivolt>): nat
    requires |sorted| == 1 || |sorted| >= 3
  {
    var index1 := |sorted| / 2;
    var index2 := if |sorted| % 2 == 0 then index1 + 1 else index1;
    sorted[index1] as nat + sorted[index2] as nat
  }

  /** What the monitor reports of its sorted measurements: the mean, but the sum wraps at 32 bits. */
  function Reported(sorted: seq<Millivolt>): Millivolt
    requires |sorted| == 1 || |sorted| >= 3
  {
    MiddleSum(sorted) % TWO_TO_THE_32 / 2
  }

  /** The report is the mean just when the sum does not wrap. */
  lemma ReportedIsMean(sorted: seq<Millivolt>)
    requires |sorted| == 1 || |sorted| >= 3
    ensures Reported(sorted) == MiddleSum(sorted) / 2 <==> MiddleSum(sorted) < TWO_TO_THE_32
  {
    hide MiddleSum;
    var sum := MiddleSum(sorted);
    if sum >= TWO_TO_THE_32 { assert sum % TWO_TO_THE_32 <= sum - TWO_TO_THE_32; }
  }

  /** The median of sorted measurements, the mean of the two in the middle when their number is even. */
  function Median(sorted: seq<Millivolt>): Millivolt
    requires sorted != []
  {
    var index := |sorted| / 2;
    if |sorted| % 2 == 1 then sorted[index]
    else
      (sorted[index - 1] as int + sorted[index]) / 2
  }

  /** Without wrap, the report is the median for an odd depth. For an even depth it is taken one element too high and is
      never below the median; at depth 4 it is the mean of the two largest. */
  lemma ReportedIsNotBelowMedian(sorted: seq<Millivolt>)
    requires Ascending(sorted) && (|sorted| == 1 || |sorted| >= 3) && MiddleSum(sorted) < TWO_TO_THE_32
    ensures |sorted| % 2 == 1 ==> Reported(sorted) == Median(sorted)
    ensures Reported(sorted) >= Median(sorted)
    ensures |sorted| == 4 ==> Reported(sorted) == (sorted[2] as nat + sorted[3] as nat) / 2
  {
    if |sorted| % 2 == 0 {
      var index := |sorted| / 2;
      assert sorted[index - 1] <= sorted[index] <= sorted[index + 1];
    }
  }

  /** When the report is the median that the monitor promises. An odd depth needs no more than a sum that does not wrap.
      At an even depth the elements on either side of the upper middle one have to be equal, or one apart where rounding
      hides it; should the sum wrap, they have to be as far apart as two numbers can be. */
  lemma ReportedIsMedian(sorted: seq<Millivolt>)
    requires Ascending(sorted) && (|sorted| == 1 || |sorted| >= 3)
    ensures |sorted| % 2 == 1 ==> (Reported(sorted) == Median(sorted) <==> MiddleSum(sorted) < TWO_TO_THE_32)
    ensures |sorted| % 2 == 0 ==>
              var low, mid, high := sorted[|sorted| / 2 - 1], sorted[|sorted| / 2], sorted[|sorted| / 2 + 1];
              (Reported(sorted) == Median(sorted) <==>
                 if MiddleSum(sorted) < TWO_TO_THE_32 then high == low || (high - low == 1 && (low + mid) % 2 == 0)
                 else high - low == TWO_TO_THE_32 - 1 && mid % 2 == 1)
  {
    var index := |sorted| / 2;
    if |sorted| % 2 == 0 {
      assert sorted[index - 1] <= sorted[index] <= sorted[index + 1];
    }
  }

  /** One threshold lies between the median and the report: the two middle elements are not above it on the average, and
      those one further up are. */
  predicate Between(low: Millivolt, mid: Millivolt, high: Millivolt, threshold: nat) {
    low + mid <= 2 * threshold + 1 && mid + high >= 2 * threshold + 2
  }

  /** When the application state is not that of the median: never for an odd depth, and for an even one just when a
      threshold parts the two pairs of elements around the upper middle one. It is then too lax. */
  lemma StateIsTooLaxWhen(sorted: seq<Millivolt>)
    requires Ascending(sorted) && (|sorted| == 1 || |sorted| >= 3) && MiddleSum(sorted) < TWO_TO_THE_32
    ensures |sorted| % 2 == 1 ==> VbatToApplicationState(Reported(sorted)) == VbatToApplicationState(Median(sorted))
    ensures |sorted| % 2 == 0 ==>
              var low, mid, high := sorted[|sorted| / 2 - 1], sorted[|sorted| / 2], sorted[|sorted| / 2 + 1];
              (VbatToApplicationState(Reported(sorted)) != VbatToApplicationState(Median(sorted)) <==>
                 Between(low, mid, high, THRESHOLD_NO_RESTRICTION)
                 || Between(low, mid, high, THRESHOLD_RESTRICTED_OPERATION))
    ensures VbatToApplicationState(Median(sorted)) == NoRestriction ==>
              VbatToApplicationState(Reported(sorted)) == NoRestriction
    ensures VbatToApplicationState(Median(sorted)) == ReducedOperation ==>
              VbatToApplicationState(Reported(sorted)) != CriticalBatteryLevel
  {
    ReportedIsNotBelowMedian(sorted);
  }

  /** At depth 4, two measurements at or below the lower threshold and two above the upper one are held to come from a
      battery without restriction, even where their median is at the lower threshold or below. */
  lemma TwoLowOfFourGoUnnoticed(a: Millivolt, b: Millivolt, c: Millivolt, d: Millivolt)
    requires a <= b <= THRESHOLD_RESTRICTED_OPERATION && THRESHOLD_NO_RESTRICTION < c <= d < 0x8000_0000
    ensures var sorted := [a, b, c, d];
            && Ascending(sorted) && Reported(sorted) != Median(sorted)
            && VbatToApplicationState(Reported(sorted)) == NoRestriction
            && (b + c <= 2 * THRESHOLD_RESTRICTED_OPERATION + 1 ==>
                  VbatToApplicationState(Median(sorted)) == CriticalBatteryLevel)
  {
    var sorted := [a, b, c, d];
    StateIsTooLaxWhen(sorted);
    ReportedIsMedian(sorted);
    assert Median(sorted) == (b as int + c) / 2;
  }

  /** An instance. */
  lemma StateCanBeTooLax()
    ensures var sorted: seq<Millivolt> := [2000, 2000, 2800, 2800];
            && Ascending(sorted)
            && VbatToApplicationState(Median(sorted)) == CriticalBatteryLevel
            && VbatToApplicationState(Reported(sorted)) == NoRestriction
  {
    TwoLowOfFourGoUnnoticed(2000, 2000, 2800, 2800);
  }

  // ---- the remaining capacity ----

  /** Rounding to the nearest number, halves away from zero. */
  function Rounded(x: real): int {
    if x >= 0.0 then (x + 0.5).Floor else -((0.5 - x).Floor)
  }

  /** The remaining capacity in percent, on a steep line without restriction and on a flat one below. */
  function RemainingCapacity(vbatMv: Millivolt): (percent: nat)
    ensures percent <= 100
  {
    var level := vbatMv as int as real;
    if VbatToApplicationState(vbatMv) == NoRestriction then Min(100, Rounded(level * 0.3 - 800.0))
    else
      var rest := Min(25, Rounded(level * 0.08 - 190.0));
      if rest > 0 then rest else 0
  }

  /** More voltage never means less capacity, across the change of the line too. */
  lemma CapacityGrows(low: Millivolt, high: Millivolt)
    requires low <= high
    ensures RemainingCapacity(low) <= RemainingCapacity(high)
  {
  }

  /** Above 2750 mV at least a quarter is left, below at most a quarter. The battery is full from 2999 mV on and empty
      up to 2381 mV. */
  lemma CapacityEnds(vbatMv: Millivolt)
    ensures if VbatToApplicationState(vbatMv) == NoRestriction then RemainingCapacity(vbatMv) >= 25
            else RemainingCapacity(vbatMv) <= 25
    ensures RemainingCapacity(vbatMv) == 100 <==> vbatMv >= 2999
    ensures RemainingCapacity(vbatMv) == 0 <==> vbatMv <= 2381
  {
  }

  /** In between it is 0.3 percent per millivolt, from 25 percent at 2750 mV on, and 0.08 below up to a quarter, both
      rounded. */
  lemma CapacityOfVoltage(vbatMv: Millivolt)
    ensures 2751 <= vbatMv <= 2998 ==>
              10 * RemainingCapacity(vbatMv) - 5 <= 3 * vbatMv - 8000 < 10 * RemainingCapacity(vbatMv) + 5
    ensures 2682 <= vbatMv <= 2750 ==> RemainingCapacity(vbatMv) == 25
    ensures 2382 <= vbatMv <= 2681 ==>
              100 * RemainingCapacity(vbatMv) - 50 <= 8 * vbatMv - 19000 < 100 * RemainingCapacity(vbatMv) + 50
  {
  }

  /** A critical battery is meant to have at most 5 percent left. It has if and only if it is not above 2443 mV; at the
      threshold there are 10 percent. */
  lemma CriticalCapacity(vbatMv: Millivolt)
    requires VbatToApplicationState(vbatMv) == CriticalBatteryLevel
    ensures RemainingCapacity(vbatMv) <= 5 <==> vbatMv <= 2443
    ensures RemainingCapacity(vbatMv) <= 10 == RemainingCapacity(THRESHOLD_RESTRICTED_OPERATION)
  {
  }

  // ---- one pass of the inner loop ----

  /** The elements at `i` and `j` exchanged if they are so ordered. */
  function Exchanged(s: seq<Millivolt>, i: nat, j: nat): seq<Millivolt>
    requires i < |s| && j < |s|
  {
    if s[i] < s[j] then s[i := s[j]][j := s[i]] else s
  }

  /** After `j` steps of the pass for position `i`: the elements in front are ascending, those among the first `j` are
      no greater than the one at `i`, and the greatest of all is the last one in front, or at `i` once passed. */
  ghost predicate Passing(s: seq<Millivolt>, i: nat, j: nat) {
    && i < |s| && j <= |s|
    && (forall k, l :: 0 <= k < l < i ==> s[k] <= s[l])
    && (forall k :: 0 <= k < i && k < j ==> s[k] <= s[i])
    && (i == 0 ==> forall k :: 0 <= k < j ==> s[k] <= s[0])
    && (i > 0 ==> MaximumAt(s, if j < i then i - 1 else i))
  }

  lemma ExchangeKeepsAll(s: seq<Millivolt>, i: nat, j: nat)
    requires i < |s| && j < |s|
    ensures multiset(Exchanged(s, i, j)) == multiset(s)
  {
  }

  lemma PassingOn(s: seq<Millivolt>, i: nat, j: nat)
    requires Passing(s, i, j) && j < |s|
    ensures Passing(Exchanged(s, i, j), i, j + 1)
    ensures 0 < i <= j ==> Exchanged(s, i, j) == s
  {
    var s' := Exchanged(s, i, j);
    if s[i] < s[j] {
      assert i == 0 || j < i;
      forall k, l | 0 <= k < l < i ensures s'[k] <= s'[l] {
        assert s[k] <= s[l];
      }
    } else if j < i {
      assert j == i - 1 ==> s[i] == s[j];
    }
  }

  lemma IsExchanged(s: seq<Millivolt>, s': seq<Millivolt>, i: nat, j: nat)
    requires i < |s| && j < |s|
    requires s' == if s[i] < s[j] then s[i := s[j]][j := s[i]] else s
    ensures s' == Exchanged(s, i, j)
  {
  }

  lemma PassedBy(s: seq<Millivolt>, i: nat)
    requires Passing(s, i, |s|)
    ensures Ascending(s[..i + 1]) && MaximumAt(s, i)
  {
  }

  lemma PassStarts(s: seq<Millivolt>, i: nat)
    requires i < |s| && Ascending(s[..i]) && (i > 0 ==> MaximumAt(s, i - 1))
    ensures Passing(s, i, 0)
  {
    forall k, l | 0 <= k < l < i ensures s[k] <= s[l] {
      assert s[..i][k] <= s[..i][l];
    }
  }

  // ---- the ring ----

  /** The ring from its insert index on, where a full one has its oldest measurement. */
  function FromOldest(ring: seq<Millivolt>, index: nat): seq<Millivolt>
    requires index <= |ring|
  {
    ring[index..] + ring[..index]
  }

  /** A full ring holds the latest measurements, another all of them. */
  ghost predicate RingHolds(ring: seq<Millivolt>, index: nat, full: bool, history: seq<Millivolt>) {
    && index < |ring| && full == (|history| >= |ring|)
    && if full then FromOldest(ring, index) == history[|history| - |ring|..] else ring[..index] == history
  }

  lemma RingTakes(ring: seq<Millivolt>, index: nat, full: bool, history: seq<Millivolt>, mv: Millivolt)
    requires RingHolds(ring, index, full, history)
    ensures var last := index + 1 == |ring|;
            RingHolds(ring[index := mv], if last then 0 else index + 1, full || last, history + [mv])
  {
    var ring', history' := ring[index := mv], history + [mv];
    if full {
      var latest := history[|history| - |ring|..];
      assert history'[|history'| - |ring|..] == latest[1..] + [mv];
      assert FromOldest(ring', index + 1) == FromOldest(ring, index)[1..] + [mv];
      assert index + 1 == |ring| ==> FromOldest(ring', 0) == FromOldest(ring', index + 1);
    } else {
      assert ring'[..index + 1] == ring[..index] + [mv];
      if index + 1 == |ring| {
        assert ring' == ring'[..index + 1];
        assert FromOldest(ring', 0) == ring' == history'[0..];
      }
    }
  }

  lemma WhenFull(ring: seq<Millivolt>, index: nat, full: bool, history: seq<Millivolt>)
    requires RingHolds(ring, index, full, history)
    ensures index < |ring| && full == (|history| >= |ring|)
  {
  }

  lemma FullRingIsLatest(ring: seq<Millivolt>, index: nat, history: seq<Millivolt>)
    requires RingHolds(ring, index, true, history)
    ensures multiset(ring) == multiset(history[|history| - |ring|..])
  {
    assert ring == ring[..index] + ring[index..];
  }

  class BatteryMonitor {
    const measurements: array<Millivolt>
    const sorted: array<Millivolt>
    var bufferIndex: nat
    var historyComplete: bool
    var batteryLevelMv: Millivolt
    var actualApplicationState: AppState
    /** In percent. */
    var remainingCapacity: nat
    /** The messages published. */
    var published: seq<Message>

    /** All measurements since the first. */
    ghost var history: seq<Millivolt>

    /** Once full, the ring holds the latest measurements, the oldest at the insert index. */
    ghost predicate Valid()
      reads this, measurements
    {
      && measurements != sorted && measurements.Length == sorted.Length >= 3
      && RingHolds(measurements[..], bufferIndex, historyComplete, history)
    }

    /** The first measurement starts the history. */
    constructor (depth: nat, vbatMv: Millivolt)
      requires depth >= 3
      ensures Valid() && history == [vbatMv] && measurements.Length == depth
      ensures fresh(measurements) && fresh(sorted)
    {
      measurements := new Millivolt[depth](_ => 0);
      sorted := new Millivolt[depth](_ => 0);
      bufferIndex, historyComplete := 1, false;
      batteryLevelMv, remainingCapacity, actualApplicationState := 0, 0, Undefined;
      published := [];
      history := [vbatMv];
      new;
      measurements[0] := vbatMv;
    }

    /** Leaves the measurements in ascending order in the second buffer. */
    method CopyAndSortMeasurements()
      requires measurements != sorted && measurements.Length == sorted.Length
      modifies sorted
      ensures Ascending(sorted[..]) && multiset(sorted[..]) == multiset(measurements[..])
    {
      for i := 0 to sorted.Length
        invariant sorted[..i] == measurements[..i]
      {
        sorted[i] := measurements[i];
      }
      assert sorted[..] == measurements[..];
      for i := 0 to sorted.Length
        invariant Ascending(sorted[..i]) && (i > 0 ==> MaximumAt(sorted[..], i - 1))
        invariant multiset(sorted[..]) == multiset(measurements[..])
      {
        Pass(i);
      }
      assert sorted[..sorted.Length] == sorted[..];
    }

    /** The inner loop for position `i`. It sorts the element there into the ascending ones in front of it, of which the
        last is the greatest of all. That one ends up at `i`, so that nothing is exchanged from there on. */
    method Pass(i: nat)
      requires i < sorted.Length && Ascending(sorted[..i]) && (i > 0 ==> MaximumAt(sorted[..], i - 1))
      modifies sorted
      ensures Ascending(sorted[..i + 1]) && MaximumAt(sorted[..], i)
      ensures multiset(sorted[..]) == multiset(old(sorted[..]))
    {
      hide Passing, Exchanged, Ascending, MaximumAt;
      PassStarts(sorted[..], i);
      for j := 0 to sorted.Length
        invariant Passing(sorted[..], i, j)
        invariant multiset(sorted[..]) == multiset(old(sorted[..]))
      {
        ghost var s := sorted[..];
        PassingOn(s, i, j);
        ExchangeKeepsAll(s, i, j);
        if sorted[i] < sorted[j] {
          var tmp := sorted[i];
          sorted[i] := sorted[j];
          sorted[j] := tmp;
        }
        IsExchanged(s, sorted[..], i, j);
      }
      PassedBy(sorted[..], i);
    }

    method GetMeasuredVoltagesMedianMv() returns (mv: Millivolt)
      requires measurements != sorted && measurements.Length == sorted.Length >= 3
      modifies sorted
      ensures Ascending(sorted[..]) && multiset(sorted[..]) == multiset(measurements[..])
      ensures mv == Reported(sorted[..])
    {
      CopyAndSortMeasurements();
      var index1 := sorted.Length / 2;
      var index2 := if sorted.Length % 2 == 0 then index1 + 1 else index1;
      mv := (sorted[index1] as nat + sorted[index2] as nat) % TWO_TO_THE_32 / 2;
    }

    /** Enters a measurement into the ring. */
    method Record(vbatMv: Millivolt)
      requires Valid()
      modifies this`bufferIndex, this`historyComplete, this`history, measurements
      ensures Valid() && history == old(history) + [vbatMv]
    {
      hide RingHolds;
      ghost var ring, index, full := measurements[..], bufferIndex, historyComplete;
      WhenFull(ring, index, full, history);
      RingTakes(ring, index, full, history, vbatMv);
      measurements[bufferIndex] := vbatMv;
      bufferIndex := bufferIndex + 1;
      if bufferIndex == measurements.Length {
        bufferIndex := 0;
        historyComplete := true;
      }
      history := history + [vbatMv];
      assert measurements[..] == ring[index := vbatMv];
      WhenFull(ring[index := vbatMv], bufferIndex, historyComplete, history);
    }

    /** Takes in a measurement. Once there are enough, the level is the report on the latest ones, and every change of
        the application state and of the capacity is published. */
    method UpdateVbatCb(vbatMv: Millivolt)
      requires Valid()
      modifies this, measurements, sorted
      ensures Valid() && history == old(history) + [vbatMv]
      ensures |history| < measurements.Length ==>
                && batteryLevelMv == old(batteryLevelMv) && actualApplicationState == old(actualApplicationState)
                && remainingCapacity == old(remainingCapacity) && published == old(published)
      ensures |history| >= measurements.Length ==>
                && Ascending(sorted[..])
                && multiset(sorted[..]) == multiset(history[|history| - measurements.Length..])
                && batteryLevelMv == Reported(sorted[..])
                && actualApplicationState == VbatToApplicationState(batteryLevelMv)
                && remainingCapacity == RemainingCapacity(batteryLevelMv)
                && published == old(published)
                                + (if actualApplicationState == old(actualApplicationState) then []
                                   else [StateChange(actualApplicationState, old(actualApplicationState))])
                                + (if remainingCapacity == old(remainingCapacity) then []
                                   else [CapacityChange(remainingCapacity)])
    {
      hide Ascending, Reported, VbatToApplicationState, RemainingCapacity, RingHolds;
      Record(vbatMv);
      ghost var ring := measurements[..];
      WhenFull(ring, bufferIndex, historyComplete, history);
      if !historyComplete {
        return;
      }
      FullRingIsLatest(ring, bufferIndex, history);
      batteryLevelMv := GetMeasuredVoltagesMedianMv();
      var state := actualApplicationState;
      actualApplicationState := VbatToApplicationState(batteryLevelMv);
      var capacity := RemainingCapacity(batteryLevelMv);
      if state != actualApplicationState {
        published := published + [StateChange(actualApplicationState, state)];
      }
      if capacity != remainingCapacity {
        remainingCapacity := capacity;
        published := published + [CapacityChange(capacity)];
      }
      assert measurements[..] == ring;
    }
  }
}
