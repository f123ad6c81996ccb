/**
 The timer server: virtual timers in a list sorted by deadline that share the wakeup counter of
 the real time clock.

 Time is an ideal tick count `now`. The sub-second register counts down once per tick and wraps
 every `SYNCH_PRESCALER` ticks; the wakeup counter raises the interrupt one tick after it reaches
 zero. Nothing else moves time on, so time stands still inside every operation.

 The source keeps what is left to count for every timer, relative to the last setup of the counter.
 The model adds, as ghost state, what a caller asked for: the tick at which a timer is due and the
 order in which timers were started. The invariant ties the two together.
 */
module TimerServers {
  import opened Basics
  import opened TimerList

  const ASYNCH_PRESCALER := 16
  const SYNCH_PRESCALER := 0x8000
  /** The wakeup divider is 4: ticks are shifted down by 4 bits. */
  const WAKEUP_DIVISOR := 16
  const RTC_HANDLER_MAX_DELAY := 320
  const SSR_FORBIDDEN_VALUE := 0xFFFF_FFFF

  /** The longest countdown ever programmed, in ticks. */
  const MAX_WAKEUP_SETUP: nat := ((SYNCH_PRESCALER - 1) * ASYNCH_PRESCALER - RTC_HANDLER_MAX_DELAY) / WAKEUP_DIVISOR

  /** How late the interrupt handler may run, in ticks. */
  const MAX_LATENCY: nat := RTC_HANDLER_MAX_DELAY / WAKEUP_DIVISOR

  /** The longest timeout that milliseconds in 32 bits convert to. */
  const MAX_TICKS: nat := 4294967

  // ---- ticks ----

  /** Ticks for a number of milliseconds; the product wraps at 32 bits. */
  function MillisecondsToTicks(milliseconds: nat): (ticks: nat)
    ensures ticks <= MAX_TICKS
  {
    (2048 * milliseconds) % TWO_TO_THE_32 / 1000
  }

  /** The conversion is exact, rounded down, just when the product fits 32 bits: for up to 2097151 ms. */
  lemma TicksExact(milliseconds: nat)
    requires milliseconds < TWO_TO_THE_32
    ensures MillisecondsToTicks(milliseconds) == 2048 * milliseconds / 1000 <==> milliseconds < 2097152
  {
    if milliseconds >= 2097152 {
      assert 2048 * milliseconds >= TWO_TO_THE_32;
      WrappedTicksAreFewer(milliseconds);
    }
  }

  /** A wrapped product converts to fewer ticks than it would have without the wrap. As a multiple of 2048 it does not
      even reach the most ticks that 32 bits can give. */
  lemma WrappedTicksAreFewer(milliseconds: nat)
    requires 2097152 <= milliseconds < TWO_TO_THE_32
    ensures MillisecondsToTicks(milliseconds) < 2048 * milliseconds / 1000
    ensures MillisecondsToTicks(milliseconds) < MAX_TICKS
  {
    var product, turns := 2048 * milliseconds, milliseconds / 2097152;
    assert product - TWO_TO_THE_32 * turns == 2048 * (milliseconds % 2097152);
    assert product % TWO_TO_THE_32 == 2048 * (milliseconds % 2097152);
  }

  /** The value of the sub-second register at a tick. */
  function SsrAt(tick: nat): (ssr: nat)
    ensures ssr < SYNCH_PRESCALER
  {
    SYNCH_PRESCALER - 1 - tick % SYNCH_PRESCALER
  }

  function Elapsed(ssrOnLastSetup: nat, ssr: nat): int {
    if ssrOnLastSetup == SSR_FORBIDDEN_VALUE then 0
    else
      var ticks := if ssrOnLastSetup >= ssr then ssrOnLastSetup - ssr else ssrOnLastSetup + (SYNCH_PRESCALER - ssr);
      ticks * ASYNCH_PRESCALER / WAKEUP_DIVISOR
  }

  /** Two readings less than one period of the register apart give the ticks between them, across a wrap too. */
  lemma ElapsedIsTicksBetween(last: nat, now: nat)
    requires last <= now < last + SYNCH_PRESCALER
    ensures Elapsed(SsrAt(last), SsrAt(now)) == now - last
  {
  }

  /** With the reading forbidden, no ticks count as elapsed. */
  lemma ElapsedSinceSetup(ssrOnLastSetup: nat, lastSetup: nat, now: nat)
    requires lastSetup <= now < lastSetup + SYNCH_PRESCALER
    requires ssrOnLastSetup == SsrAt(lastSetup) || (ssrOnLastSetup == SSR_FORBIDDEN_VALUE && lastSetup == now)
    ensures Elapsed(ssrOnLastSetup, SsrAt(now)) == now - lastSetup
  {
    if ssrOnLastSetup != SSR_FORBIDDEN_VALUE { ElapsedIsTicksBetween(lastSetup, now); }
  }

  /** One period or more apart, whole periods are lost. */
  lemma ElapsedLosesPeriods(last: nat, now: nat)
    requires last <= now
    ensures Elapsed(SsrAt(last), SsrAt(now)) == (now - last) % SYNCH_PRESCALER
  {
    var periods := now / SYNCH_PRESCALER - last / SYNCH_PRESCALER;
    var difference := now % SYNCH_PRESCALER - last % SYNCH_PRESCALER;
    assert now - last == SYNCH_PRESCALER * periods + difference;
    if difference >= 0 {
      assert Elapsed(SsrAt(last), SsrAt(now)) == difference;
    } else {
      assert Elapsed(SsrAt(last), SsrAt(now)) == difference + SYNCH_PRESCALER;
    }
  }

  function Left(difference: int): (left: nat)
  {
    if difference < 0 then 0 else difference
  }

  function Latest(a: nat, b: nat): nat {
    if a <= b then b else a
  }

  // ---- what callers asked for ----

  /** A started timer: due at tick `due`, the `startNo`-th start, started at tick `since`, after `wakesBefore` wakeups
      that called back no one. */
  datatype Goal = Goal(due: nat, startNo: nat, since: nat, wakesBefore: nat)

  /** Earlier deadline, or the same deadline and started earlier. */
  predicate Before(a: Goal, b: Goal) {
    a.due < b.due || (a.due == b.due && a.startNo < b.startNo)
  }

  /** A callback that has been made. */
  datatype Ran = Ran(timerId: nat, goal: Goal, at: nat)

  ghost predicate Sorted(order: seq<nat>, goals: seq<Goal>) {
    && (forall i :: 0 <= i < |order| ==> order[i] < |goals|)
    && (forall i, j :: 0 <= i < j < |order| ==> Before(goals[order[i]], goals[order[j]]))
  }

  /** What a context says of a running timer. */
  predicate Kept(t: TimerContext, g: Goal, lastSetup: nat, now: nat, starts: nat, wakes: nat) {
    && t.countLeft == Left(g.due - lastSetup)
    && g.due == g.since + t.counterInit && t.counterInit <= MAX_TICKS
    && g.since <= now && g.startNo < starts
    && g.wakesBefore <= wakes
    && (wakes - g.wakesBefore) * MAX_WAKEUP_SETUP <= Left(lastSetup - g.since)
    && (wakes - g.wakesBefore) * MAX_WAKEUP_SETUP <= t.counterInit
  }

  ghost predicate Books(c: Contexts, order: seq<nat>, goals: seq<Goal>, lastSetup: nat, now: nat, starts: nat,
                        wakes: nat)
  {
    |goals| == |c| && forall x :: x in order ==> x < |c| && Kept(c[x], goals[x], lastSetup, now, starts, wakes)
  }

  /** The counter was set up after each start. */
  ghost predicate SetUpSince(order: seq<nat>, goals: seq<Goal>, lastSetup: nat) {
    forall x :: x in order ==> x < |goals| && goals[x].since <= lastSetup
  }

  /** The running timers are those of the list. */
  ghost predicate Marked(c: Contexts, order: seq<nat>) {
    forall x :: 0 <= x < |c| ==> (c[x].timerIdStatus == Running <==> x in order)
  }

  /** `elapsed` ticks are counted off the first `k` timers of the list. */
  ghost predicate CountedOff(c: Contexts, c': Contexts, order: seq<nat>, k: nat, elapsed: nat) {
    && |c'| == |c| && k <= |order|
    && (forall x :: 0 <= x < |c| ==>
          c'[x] == c[x].(countLeft := if x in order[..k] then Left(c[x].countLeft - elapsed) else c[x].countLeft))
  }

  lemma CountOffNext(c: Contexts, c': Contexts, order: seq<nat>, k: nat, elapsed: nat)
    requires CountedOff(c, c', order, k, elapsed) && k < |order| && Distinct(order) && order[k] < |c|
    ensures c'[order[k]] == c[order[k]]
    ensures CountedOff(c, c'[order[k] := c'[order[k]].(countLeft := Left(c'[order[k]].countLeft - elapsed))],
                       order, k + 1, elapsed)
  {
    assert order[k] !in order[..k];
    assert order[..k + 1] == order[..k] + [order[k]];
  }

  /** Counting off the ticks since the last setup keeps every deadline. */
  lemma CountingOffKeeps(c: Contexts, c': Contexts, order: seq<nat>, goals: seq<Goal>, lastSetup: nat, now: nat,
                         starts: nat, wakes: nat)
    requires Books(c, order, goals, lastSetup, now, starts, wakes) && lastSetup <= now
    requires CountedOff(c, c', order, |order|, now - lastSetup)
    ensures Books(c', order, goals, now, now, starts, wakes)
    ensures forall x :: x in order ==> c'[x].countLeft == Left(c[x].countLeft - (now - lastSetup))
    ensures Marked(c, order) ==> Marked(c', order)
    ensures SetUpSince(order, goals, now)
  {
    assert order[..|order|] == order;
    forall x | x in order ensures x < |c'| && Kept(c'[x], goals[x], now, now, starts, wakes) {
      assert Kept(c[x], goals[x], lastSetup, now, starts, wakes);
    }
  }

  lemma NoneCountedOff(c: Contexts, order: seq<nat>, elapsed: nat)
    ensures CountedOff(c, c, order, 0, elapsed)
  {
  }

  lemma CountedOffKeepsList(c: Contexts, c': Contexts, first: nat, order: seq<nat>, elapsed: nat)
    requires IsList(c, first, order) && CountedOff(c, c', order, |order|, elapsed)
    ensures IsList(c', first, order)
  {
    ListKept(c, c', first, order);
  }

  /** Callbacks were made no earlier than due, in order of deadline, those of equal deadline in start order, and before
      those still to come. */
  ghost predicate InOrder(ran: seq<Ran>, order: seq<nat>, goals: seq<Goal>, now: nat, starts: nat) {
    && (forall i :: 0 <= i < |ran| ==> ran[i].goal.due <= ran[i].at <= now && ran[i].goal.startNo < starts)
    && (forall i, j :: 0 <= i < j < |ran| ==> Before(ran[i].goal, ran[j].goal) && ran[i].at <= ran[j].at)
    && (forall i, x :: 0 <= i < |ran| && x in order && x < |goals| ==> Before(ran[i].goal, goals[x]))
  }

  lemma SortedInsert(order: seq<nat>, goals: seq<Goal>, p: nat, id: nat, goal: Goal)
    requires Sorted(order, goals) && p <= |order| && id < |goals| && id !in order
    requires forall i :: 0 <= i < p ==> Before(goals[order[i]], goal)
    requires p < |order| ==> Before(goal, goals[order[p]])
    ensures Sorted(Inserted(order, p, id), goals[id := goal])
  {
    hide Inserted;
    var r, goals' := Inserted(order, p, id), goals[id := goal];
    forall i | 0 <= i < |r|
      ensures r[i] < |goals|
      ensures i < p ==> r[i] == order[i] && goals'[r[i]] == goals[order[i]]
      ensures i == p ==> goals'[r[i]] == goal
      ensures i > p ==> r[i] == order[i - 1] && goals'[r[i]] == goals[order[i - 1]]
    {
      InsertedAt(order, p, id, i);
    }
    forall i, j | 0 <= i < j < |r| ensures Before(goals'[r[i]], goals'[r[j]]) {
      if i == p && j > p + 1 { assert Before(goals[order[p]], goals[order[j - 1]]); }
      if i < p < j { assert Before(goals[order[i]], goals[order[j - 1]]); }
      if p < i { assert Before(goals[order[i - 1]], goals[order[j - 1]]); }
    }
  }

  /** Only links differ, and one timer has `more` left to count. */
  ghost predicate SameButLinks(c: Contexts, c': Contexts, id: nat, more: nat) {
    && |c'| == |c|
    && (forall x :: 0 <= x < |c| && x != id ==> c'[x] == c[x].(previousId := c'[x].previousId, nextId := c'[x].nextId))
    && (id < |c| ==> c'[id] == c[id].(countLeft := c[id].countLeft + more, previousId := c'[id].previousId,
                                      nextId := c'[id].nextId))
  }

  /** The first `p` timers have at most `left` left, the next one has more. */
  ghost predicate Separates(c: Contexts, order: seq<nat>, p: nat, left: nat) {
    && p <= |order|
    && (forall i :: 0 <= i < p ==> order[i] < |c| && c[order[i]].countLeft <= left)
    && (p < |order| ==> order[p] < |c| && left < c[order[p]].countLeft)
  }

  lemma NextIsALink(c: Contexts, c': Contexts, id: nat)
    requires id < |c| && |c'| == |c| && c' == c[id := c[id].(nextId := |c|)]
    ensures SameButLinks(c, c', id, 0)
  {
  }

  lemma CountedThenLinked(c: Contexts, c1: Contexts, c2: Contexts, id: nat, more: nat)
    requires id < |c| && c1 == c[id := c[id].(countLeft := c[id].countLeft + more)] && OnlyLinksDiffer(c1, c2)
    ensures SameButLinks(c, c2, id, more) && c2[id].countLeft == c1[id].countLeft
  {
  }

  lemma SeparatesOthers(c: Contexts, c1: Contexts, order: seq<nat>, p: nat, id: nat, left: nat)
    requires |c1| == |c| && id !in order && Separates(c1, order, p, left)
    requires forall x :: 0 <= x < |c| && x != id ==> c1[x] == c[x]
    ensures Separates(c, order, p, left)
  {
  }

  lemma FirstSeparates(c: Contexts, order: seq<nat>, left: nat)
    requires order != [] && order[0] < |c| && c[order[0]].countLeft <= left
    ensures Separates(c, order[..1], 1, left)
  {
  }

  lemma NoneSeparates(c: Contexts, order: seq<nat>, left: nat)
    requires order == [] || (order[0] < |c| && left < c[order[0]].countLeft)
    ensures Separates(c, order, 0, left)
  {
  }

  /** Only links differ, and one timer has a new status. */
  ghost predicate SameButStatus(c: Contexts, c': Contexts, id: nat, status: Status) {
    && |c'| == |c|
    && (forall x :: 0 <= x < |c| && x != id ==> c'[x] == c[x].(previousId := c'[x].previousId, nextId := c'[x].nextId))
    && (id < |c| ==> c'[id] == c[id].(timerIdStatus := status, previousId := c'[id].previousId,
                                      nextId := c'[id].nextId))
  }

  lemma NothingDiffers(c: Contexts)
    ensures OnlyLinksDiffer(c, c)
  {
  }

  lemma LinkedThenMarked(c: Contexts, c1: Contexts, c2: Contexts, id: nat, status: Status)
    requires OnlyLinksDiffer(c, c1) && id < |c| && c2 == c1[id := c1[id].(timerIdStatus := status)]
    ensures SameButStatus(c, c2, id, status)
  {
  }

  lemma SortedRemove(order: seq<nat>, goals: seq<Goal>, p: nat)
    requires Sorted(order, goals) && p < |order|
    ensures Sorted(Removed(order, p), goals)
  {
    hide Removed;
    var r := Removed(order, p);
    forall i | 0 <= i < |r|
      ensures r[i] == order[if i < p then i else i + 1]
    {
      RemovedAt(order, p, i);
    }
  }

  /** Starting a timer at `now` puts it in front of all timers due later and behind the others. */
  lemma StartedInOrder(c: Contexts, order: seq<nat>, goals: seq<Goal>, lastSetup: nat, now: nat, starts: nat,
                       wakes: nat, p: nat, id: nat, goal: Goal)
    requires Books(c, order, goals, lastSetup, now, starts, wakes) && Sorted(order, goals)
    requires id < |c| && id !in order && goal.startNo == starts && lastSetup <= goal.due
    requires Separates(c, order, p, goal.due - lastSetup)
    ensures Sorted(Inserted(order, p, id), goals[id := goal])
  {
    hide Inserted;
    SortedInsert(order, goals, p, id, goal);
  }

  lemma StartedAfterRan(ran: seq<Ran>, order: seq<nat>, goals: seq<Goal>, now: nat, starts: nat,
                        p: nat, id: nat, goal: Goal)
    requires InOrder(ran, order, goals, now, starts) && p <= |order| && id < |goals|
    requires now <= goal.due && goal.startNo == starts
    ensures InOrder(ran, Inserted(order, p, id), goals[id := goal], now, starts + 1)
  {
    MembersInserted(order, p, id);
  }

  /** A started timer joins the books, the others stay as they are. */
  lemma StartedBooks(c: Contexts, c1: Contexts, c2: Contexts, order: seq<nat>, goals: seq<Goal>, lastSetup: nat,
                     starts: nat, wakes: nat, p: nat, id: nat, goal: Goal, ticks: nat)
    requires Books(c, order, goals, lastSetup, goal.since, starts, wakes) && Marked(c, order)
    requires id < |c| && id !in order && p <= |order| && ticks <= MAX_TICKS && lastSetup <= goal.since
    requires c1 == c[id := c[id].(timerIdStatus := Running, countLeft := ticks, counterInit := ticks)]
    requires SameButLinks(c1, c2, id, goal.since - lastSetup)
    requires goal.due == goal.since + ticks && goal.startNo == starts && goal.wakesBefore == wakes
    ensures Books(c2, Inserted(order, p, id), goals[id := goal], lastSetup, goal.since, starts + 1, wakes)
    ensures Marked(c2, Inserted(order, p, id))
  {
    MembersInserted(order, p, id);
    var goals', order' := goals[id := goal], Inserted(order, p, id);
    forall x | x in order' ensures x < |c2| && Kept(c2[x], goals'[x], lastSetup, goal.since, starts + 1, wakes) {
      if x != id { assert Kept(c[x], goals[x], lastSetup, goal.since, starts, wakes); }
    }
  }

  lemma BooksOfNone(c: Contexts, goals: seq<Goal>, lastSetup: nat, lastSetup': nat, now: nat, starts: nat, wakes: nat)
    requires Books(c, [], goals, lastSetup, now, starts, wakes)
    ensures Books(c, [], goals, lastSetup', now, starts, wakes)
  {
  }

  /** A stopped timer leaves the books, the others stay as they are. */
  lemma StoppedBooks(c: Contexts, c': Contexts, order: seq<nat>, goals: seq<Goal>, lastSetup: nat, now: nat,
                     starts: nat, wakes: nat, p: nat)
    requires Books(c, order, goals, lastSetup, now, starts, wakes) && Marked(c, order)
    requires p < |order| && Distinct(order) && SameButStatus(c, c', order[p], Created)
    ensures Books(c', Removed(order, p), goals, lastSetup, now, starts, wakes)
    ensures Marked(c', Removed(order, p))
  {
    MembersRemoved(order, p);
    var order' := Removed(order, p);
    forall x | x in order' ensures x < |c'| && Kept(c'[x], goals[x], lastSetup, now, starts, wakes) {
      assert Kept(c[x], goals[x], lastSetup, now, starts, wakes);
    }
  }

  lemma StoppedAfterRan(ran: seq<Ran>, order: seq<nat>, goals: seq<Goal>, now: nat, starts: nat, p: nat)
    requires InOrder(ran, order, goals, now, starts) && p < |order| && Distinct(order)
    ensures InOrder(ran, Removed(order, p), goals, now, starts)
  {
    MembersRemoved(order, p);
  }

  /** Modes and timeouts are unchanged, and which timers are free. */
  ghost predicate SameSettings(c: Contexts, c': Contexts) {
    |c'| == |c| && forall x :: 0 <= x < |c| ==>
      && c'[x].mode == c[x].mode && c'[x].counterInit == c[x].counterInit
      && (c'[x].timerIdStatus == Free <==> c[x].timerIdStatus == Free)
  }

  /** No timer that was handed out becomes free, and no other stops being free unless a call is about it. */
  ghost predicate HandedOutKept(c: Contexts, c': Contexts, calls: seq<Call>) {
    |c'| == |c| && forall x :: 0 <= x < |c| ==>
      && (c[x].timerIdStatus != Free ==> c'[x].timerIdStatus != Free)
      && (c[x].timerIdStatus == Free && Spared(calls, x) ==> c'[x].timerIdStatus == Free)
  }

  lemma HandedOutTwice(c: Contexts, c1: Contexts, c2: Contexts, calls: seq<Call>, call: Call)
    requires HandedOutKept(c, c1, calls) && HandedOutKept(c1, c2, [call])
    ensures HandedOutKept(c, c2, calls + [call])
  {
    forall x | 0 <= x < |c| && Spared(calls + [call], x) ensures Spared(calls, x) && Spared([call], x) {
      assert (calls + [call])[|calls|] == call;
      forall i | 0 <= i < |calls| ensures calls[i].timerId != x {
        assert (calls + [call])[i] == calls[i];
      }
    }
  }

  lemma SettingsKeepHandedOut(c: Contexts, c1: Contexts, c2: Contexts, calls: seq<Call>)
    requires SameSettings(c, c1) && HandedOutKept(c1, c2, calls)
    ensures HandedOutKept(c, c2, calls)
  {
  }

  lemma HandedOutKeepsSettings(c: Contexts, c1: Contexts, c2: Contexts, calls: seq<Call>)
    requires HandedOutKept(c, c1, calls) && SameSettings(c1, c2)
    ensures HandedOutKept(c, c2, calls)
  {
  }

  lemma StartKeepsHandedOut(c: Contexts, c': Contexts, id: nat, ticks: nat, calls: seq<Call>)
    requires StartedSettings(c, c', id, ticks) && (!Spared(calls, id) || (id < |c| && c[id].timerIdStatus != Free))
    ensures HandedOutKept(c, c', calls)
  {
  }

  lemma HandedOutAt(c: Contexts, c': Contexts, calls: seq<Call>, id: nat)
    requires HandedOutKept(c, c', calls) && id < |c| && c[id].timerIdStatus != Free
    ensures |c'| == |c| && c'[id].timerIdStatus != Free
  {
  }

  lemma HandedOutAfter(c: Contexts, c1: Contexts, c2: Contexts, calls: seq<Call>)
    requires HandedOutKept(c, c1, calls) && HandedOutKept(c1, c2, [])
    ensures HandedOutKept(c, c2, calls)
  {
  }

  /** The timers handed out since were free then and are not now. */
  ghost predicate StillOut(c: Contexts, c': Contexts, ids: seq<nat>) {
    && |c'| == |c| && (forall x :: 0 <= x < |c| && c[x].timerIdStatus != Free ==> c'[x].timerIdStatus != Free)
    && forall i :: 0 <= i < |ids| ==>
         ids[i] < |c| && c[ids[i]].timerIdStatus == Free && c'[ids[i]].timerIdStatus != Free
  }

  lemma OneMoreOut(c: Contexts, c1: Contexts, c2: Contexts, ids: seq<nat>, id: nat)
    requires StillOut(c, c1, ids) && Distinct(ids) && id < |c| && c1[id].timerIdStatus == Free
    requires |c2| == |c1| && c2 == c1[id := c2[id]] && c2[id].timerIdStatus != Free
    ensures StillOut(c, c2, ids + [id]) && Distinct(ids + [id])
  {
  }

  lemma OutAt(c: Contexts, c': Contexts, ids: seq<nat>, id: nat)
    requires StillOut(c, c', ids) && id in ids
    ensures id < |c'| && c'[id].timerIdStatus != Free
  {
  }

  lemma StayOut(c: Contexts, c1: Contexts, c2: Contexts, ids: seq<nat>)
    requires StillOut(c, c1, ids) && HandedOutKept(c1, c2, [])
    ensures StillOut(c, c2, ids)
  {
  }

  lemma NoneHandedOut(c: Contexts, calls: seq<Call>)
    ensures HandedOutKept(c, c, calls)
  {
  }

  lemma SettingsKept(c: Contexts, c1: Contexts, c2: Contexts)
    requires SameSettings(c, c1) && SameSettings(c1, c2)
    ensures SameSettings(c, c2)
  {
  }

  lemma SettingsSame(c: Contexts)
    ensures SameSettings(c, c)
  {
  }

  lemma StatusKeepsSettings(c: Contexts, c': Contexts, id: nat)
    requires SameButStatus(c, c', id, Created) && (id < |c| ==> c[id].timerIdStatus != Free)
    ensures SameSettings(c, c')
  {
  }

  lemma CountedOffKeepsSettings(c: Contexts, c': Contexts, order: seq<nat>, elapsed: nat)
    requires CountedOff(c, c', order, |order|, elapsed)
    ensures SameSettings(c, c')
  {
  }

  /** Modes and timeouts are unchanged, and which timers are free; but one timer runs and has a new timeout. */
  ghost predicate StartedSettings(c: Contexts, c': Contexts, id: nat, ticks: nat) {
    id < |c| && SameSettings(c[id := c[id].(counterInit := ticks, timerIdStatus := Running)], c')
  }

  lemma SettingsKeptByStart(c: Contexts, c1: Contexts, c2: Contexts, c3: Contexts, id: nat, ticks: nat)
    requires SameSettings(c, c1) && StartedSettings(c1, c2, id, ticks) && SameSettings(c2, c3)
    ensures StartedSettings(c, c3, id, ticks)
  {
  }

  lemma LinkedSettings(c: Contexts, c1: Contexts, c2: Contexts, id: nat, ticks: nat, elapsed: nat)
    requires id < |c| && c1 == c[id := c[id].(timerIdStatus := Running, countLeft := ticks, counterInit := ticks)]
    requires SameButLinks(c1, c2, id, elapsed)
    ensures StartedSettings(c, c2, id, ticks) && |c2| == |c| && c2[id].countLeft == ticks + elapsed
  {
  }

  lemma BooksSize(c: Contexts, order: seq<nat>, goals: seq<Goal>, lastSetup: nat, now: nat, starts: nat, wakes: nat)
    requires Books(c, order, goals, lastSetup, now, starts, wakes)
    ensures |goals| == |c|
  {
  }

  lemma FirstTimer(c: Contexts, first: nat, order: seq<nat>, goals: seq<Goal>, lastSetup: nat, now: nat, starts: nat,
                   wakes: nat)
    requires IsList(c, first, order) && Marked(c, order) && Books(c, order, goals, lastSetup, now, starts, wakes)
    requires first < |c|
    ensures order != [] && order[0] == first && first in order && c[first].timerIdStatus == Running
    ensures |goals| == |c| && Kept(c[first], goals[first], lastSetup, now, starts, wakes)
  {
    EmptyList(c, first, order);
    assert order[0] in order;
  }

  /** Modes stay, and the timeout of another timer than the one started. */
  lemma StartedAt(c: Contexts, c': Contexts, id: nat, ticks: nat, x: nat)
    requires StartedSettings(c, c', id, ticks) && x < |c|
    ensures |c'| == |c| && c'[x].mode == c[x].mode && c'[x].counterInit == if x == id then ticks else c[x].counterInit
  {
  }

  lemma StartedSettingsAt(c: Contexts, c1: Contexts, c2: Contexts, id: nat)
    requires SameSettings(c, c1) && id < |c| && StartedSettings(c1, c2, id, c[id].counterInit)
    requires c[id].timerIdStatus != Free
    ensures SameSettings(c, c2)
  {
  }

  lemma SettingsAt(c: Contexts, c': Contexts, id: nat)
    requires SameSettings(c, c') && id < |c|
    ensures |c'| == |c| && c'[id].counterInit == c[id].counterInit && c'[id].mode == c[id].mode
  {
  }

  /** A call that a more urgent interrupt makes while the handler is outside its critical section. */
  datatype Call = StartCall(timerId: nat, ticks: nat) | StopCall(timerId: nat) {
    predicate Fits(n: nat) { timerId < n && (StartCall? ==> ticks <= MAX_TICKS) }
  }

  /** The timeout of a timer after some calls. */
  function TimeoutAfter(ticks: nat, calls: seq<Call>, timerId: nat): nat {
    if calls == [] then ticks
    else
      var last := calls[|calls| - 1];
      if last.StartCall? && last.timerId == timerId then last.ticks
      else TimeoutAfter(ticks, calls[..|calls| - 1], timerId)
  }

  lemma NoCalls(ticks: nat, timerId: nat)
    ensures TimeoutAfter(ticks, [], timerId) == ticks
  {
  }

  lemma TimeoutAfterNext(ticks: nat, calls: seq<Call>, i: nat, timerId: nat)
    requires i < |calls|
    ensures TimeoutAfter(ticks, calls[..i + 1], timerId)
         == TimeoutAfter(TimeoutAfter(ticks, calls[..i], timerId), [calls[i]], timerId)
  {
    assert calls[..i + 1][..i] == calls[..i];
  }

  lemma {:induction false} TimeoutInRange(ticks: nat, calls: seq<Call>, timerId: nat, n: nat)
    requires ticks <= MAX_TICKS && forall i :: 0 <= i < |calls| ==> calls[i].Fits(n)
    ensures TimeoutAfter(ticks, calls, timerId) <= MAX_TICKS
  {
    if calls != [] {
      TimeoutInRange(ticks, calls[..|calls| - 1], timerId, n);
    }
  }

  /** The calls are not about timer `x`. */
  predicate Spared(calls: seq<Call>, x: nat) {
    forall i :: 0 <= i < |calls| ==> calls[i].timerId != x
  }

  /** Every running timer ran before, or was started now. */
  ghost predicate FreshOrKept(order: seq<nat>, goals: seq<Goal>, starts: nat, order': seq<nat>, goals': seq<Goal>,
                              now: nat)
  {
    && |goals'| == |goals|
    && forall x :: x in order' && x < |goals'| ==>
         (x in order && goals'[x] == goals[x]) || (now <= goals'[x].due && starts <= goals'[x].startNo)
  }

  /** Timer `h` has called back: whatever was asked for it meanwhile, it runs again if it is repeated, with the timeout
      asked for last, and does not run if it is not. */
  ghost predicate Renewed(c: Contexts, starts: nat, order': seq<nat>, goals': seq<Goal>, h: nat, now: nat,
                          calls: seq<Call>)
  {
    && h < |c| == |goals'|
    && (h in order' <==> c[h].mode == Repeated)
    && (h in order' ==>
        && goals'[h].since == now && goals'[h].due == now + TimeoutAfter(c[h].counterInit, calls, h)
        && starts <= goals'[h].startNo)
  }

  /** The other timers that no call is about are as they were. */
  ghost predicate OthersKept(order: seq<nat>, goals: seq<Goal>, order': seq<nat>, goals': seq<Goal>, h: nat,
                             calls: seq<Call>)
  {
    |goals'| == |goals| && forall x :: 0 <= x < |goals| && x != h && Spared(calls, x) ==>
      (x in order' <==> x in order) && goals'[x] == goals[x]
  }

  lemma FreshOrKeptAtFirst(order: seq<nat>, goals: seq<Goal>, starts: nat, now: nat)
    ensures FreshOrKept(order, goals, starts, order, goals, now)
  {
  }

  lemma FreshOrKeptTwice(order: seq<nat>, goals: seq<Goal>, starts: nat, order1: seq<nat>, goals1: seq<Goal>,
                         starts1: nat, order2: seq<nat>, goals2: seq<Goal>, now: nat)
    requires FreshOrKept(order, goals, starts, order1, goals1, now) && starts <= starts1
    requires FreshOrKept(order1, goals1, starts1, order2, goals2, now)
    ensures FreshOrKept(order, goals, starts, order2, goals2, now)
  {
  }

  /** What clients, the clock and the interrupt do. */
  datatype Demand = Create(mode: Mode) | Start(timerId: nat, milliseconds: nat) | Stop(timerId: nat) | Tick | Serve

  /** What becomes of the running timers when timer `h` calls back: a repeated one is started anew, another is out. */
  ghost predicate Served(c: Contexts, order: seq<nat>, goals: seq<Goal>, starts: nat, order': seq<nat>,
                         goals': seq<Goal>, h: nat, now: nat, wakes: nat)
  {
    && h < |c| == |goals|
    && if c[h].mode == Repeated then
         && (forall x :: x in order' <==> x in order)
         && goals' == goals[h := Goal(now + c[h].counterInit, starts, now, wakes)]
       else
         && (forall x :: x in order' <==> x in order && x != h)
         && goals' == goals
  }

  /** Every timer that runs behind the callback of timer `h` ran before, or was started now. */
  ghost predicate OthersOrFresh(order: seq<nat>, goals: seq<Goal>, starts: nat, order': seq<nat>, goals': seq<Goal>,
                                h: nat, now: nat)
  {
    |goals'| == |goals| && forall x :: x in order' && x < |goals'| ==>
      (x != h && x in order && goals'[x] == goals[x]) || (now <= goals'[x].due && starts <= goals'[x].startNo)
  }

  /** A repeated timer is unlinked, calls come, and it is started anew. */
  lemma RepeatedRenewed(c: Contexts, order: seq<nat>, goals: seq<Goal>, starts: nat, order1: seq<nat>,
                        order2: seq<nat>, goals2: seq<Goal>, starts2: nat, order3: seq<nat>, goals3: seq<Goal>, h: nat,
                        now: nat, wakes: nat, calls: seq<Call>)
    requires h < |c| == |goals| && h in order && c[h].mode == Repeated && starts <= starts2
    requires forall x :: x in order1 <==> x in order && x != h
    requires FreshOrKept(order1, goals, starts, order2, goals2, now)
    requires forall x :: 0 <= x < |goals| && Spared(calls, x) ==>
      (x in order2 <==> x in order1) && goals2[x] == goals[x]
    requires goals3 == goals2[h := Goal(now + TimeoutAfter(c[h].counterInit, calls, h), starts2, now, wakes)]
    requires forall x :: x in order3 <==> x in order2 || x == h
    ensures Renewed(c, starts, order3, goals3, h, now, calls) && OthersKept(order, goals, order3, goals3, h, calls)
    ensures OthersOrFresh(order, goals, starts, order3, goals3, h, now)
    ensures calls == [] && order2 == order1 && goals2 == goals && starts2 == starts ==>
              Served(c, order, goals, starts, order3, goals3, h, now, wakes)
  {
  }

  /** Calls come, and another timer is stopped. */
  lemma SingleRenewed(c: Contexts, order: seq<nat>, goals: seq<Goal>, starts: nat, order2: seq<nat>,
                      goals2: seq<Goal>, order3: seq<nat>, h: nat, now: nat, wakes: nat, calls: seq<Call>)
    requires h < |c| == |goals| && c[h].mode != Repeated
    requires FreshOrKept(order, goals, starts, order2, goals2, now)
    requires forall x :: 0 <= x < |goals| && Spared(calls, x) ==>
      (x in order2 <==> x in order) && goals2[x] == goals[x]
    requires forall x :: x in order3 <==> x in order2 && x != h
    ensures Renewed(c, starts, order3, goals2, h, now, calls) && OthersKept(order, goals, order3, goals2, h, calls)
    ensures OthersOrFresh(order, goals, starts, order3, goals2, h, now)
    ensures calls == [] && order2 == order && goals2 == goals ==>
              Served(c, order, goals, starts, order3, goals2, h, now, wakes)
  {
  }

  lemma ServedWithSettings(c: Contexts, c1: Contexts, order: seq<nat>, goals: seq<Goal>, starts: nat, order': seq<nat>,
                           goals': seq<Goal>, h: nat, now: nat, wakes: nat)
    requires SameSettings(c, c1) && Served(c1, order, goals, starts, order', goals', h, now, wakes)
    ensures Served(c, order, goals, starts, order', goals', h, now, wakes)
  {
  }

  /** Timer `y` starts itself anew without letting time pass, from before timer `x` is due: once it is its turn, its
      callbacks follow each other and time stands still for `x`. */
  predicate Obstructs(c: Contexts, goals: seq<Goal>, now: nat, x: nat, y: nat)
    requires x < |goals| == |c| && y < |goals|
  {
    y != x && c[y].mode == Repeated && c[y].counterInit == 0 && Latest(goals[y].due, now) < goals[x].due
  }

  /** No running timer obstructs timer `x`. */
  ghost predicate Unobstructed(c: Contexts, order: seq<nat>, goals: seq<Goal>, now: nat, x: nat) {
    x < |goals| == |c| && forall y :: y in order && y < |goals| ==> !Obstructs(c, goals, now, x, y)
  }

  /** How often timer `y` may still call back before timer `x`. */
  function Ahead(goals: seq<Goal>, order: seq<nat>, x: nat, y: nat): nat
    requires x < |goals| && y < |goals|
  {
    if y in order && Before(goals[y], goals[x]) then goals[x].due - goals[y].due + 1 else 0
  }

  function AllAhead(goals: seq<Goal>, order: seq<nat>, x: nat, n: nat): nat
    requires x < |goals| && n <= |goals|
  {
    if n == 0 then 0 else AllAhead(goals, order, x, n - 1) + Ahead(goals, order, x, n - 1)
  }

  lemma {:induction false} AllAheadFalls(goals: seq<Goal>, order: seq<nat>, goals': seq<Goal>, order': seq<nat>, x: nat,
                                         h: nat, n: nat)
    requires x < |goals| == |goals'| && n <= |goals| && h < |goals|
    requires forall y :: 0 <= y < |goals| ==> Ahead(goals', order', x, y) <= Ahead(goals, order, x, y)
    requires Ahead(goals', order', x, h) < Ahead(goals, order, x, h)
    ensures AllAhead(goals', order', x, n) <= AllAhead(goals, order, x, n) - if h < n then 1 else 0
  {
    hide Ahead;
    if n > 0 {
      AllAheadFalls(goals, order, goals', order', x, h, n - 1);
      assert Ahead(goals', order', x, n - 1) <= Ahead(goals, order, x, n - 1);
    }
  }

  /** A callback at `now` leaves fewer callbacks ahead of every other running timer that no timer obstructs, and none
      obstructs it afterwards. */
  lemma CallbackComesCloser(c: Contexts, c': Contexts, order: seq<nat>, goals: seq<Goal>, starts: nat, order': seq<nat>,
                            goals': seq<Goal>, h: nat, before: nat, now: nat, wakes: nat, x: nat)
    requires Served(c, order, goals, starts, order', goals', h, now, wakes) && Sorted(order, goals)
    requires order != [] && h == order[0] && now == Latest(goals[h].due, before) && SameSettings(c, c')
    requires x in order && x != h && Unobstructed(c, order, goals, before, x) && goals[x].startNo < starts
    ensures x in order' && goals'[x] == goals[x] && goals[h].due <= goals[x].due
    ensures AllAhead(goals', order', x, |goals|) < AllAhead(goals, order, x, |goals|)
    ensures Unobstructed(c', order', goals', now, x)
  {
    hide AllAhead;
    var j :| 0 <= j < |order| && order[j] == x;
    assert Before(goals[order[0]], goals[order[j]]) && h in order;
    assert !Obstructs(c, goals, before, x, h);
    forall y | 0 <= y < |goals|
      ensures Ahead(goals', order', x, y) <= Ahead(goals, order, x, y)
      ensures y == h ==> Ahead(goals', order', x, y) < Ahead(goals, order, x, y)
    {
    }
    AllAheadFalls(goals, order, goals', order', x, h, |goals|);
    forall y | y in order' && y < |goals'| ensures !Obstructs(c', goals', now, x, y) {
      assert !Obstructs(c, goals, before, x, y);
    }
  }

  /** A timer that obstructs another comes first, and still obstructs it after the first timer's callback. */
  lemma ObstructionStays(c: Contexts, c': Contexts, order: seq<nat>, goals: seq<Goal>, starts: nat, order': seq<nat>,
                         goals': seq<Goal>, h: nat, before: nat, now: nat, wakes: nat, x: nat, y: nat)
    requires Served(c, order, goals, starts, order', goals', h, now, wakes) && Sorted(order, goals)
    requires order != [] && h == order[0] && now == Latest(goals[h].due, before) && SameSettings(c, c')
    requires x in order && y in order && x < |goals| && y < |goals| && Obstructs(c, goals, before, x, y)
    ensures h != x && x in order' && y in order' && |goals'| == |goals| && goals'[x] == goals[x] && now < goals[x].due
    ensures |c'| == |c| && Obstructs(c', goals', now, x, y)
  {
    var j :| 0 <= j < |order| && order[j] == y;
    assert j > 0 ==> Before(goals[order[0]], goals[order[j]]);
  }

  /** The running timers whose turn is before that of timer `x`. */
  ghost function TurnsBefore(goals: seq<Goal>, order: seq<nat>, x: nat): set<nat>
    requires x < |goals|
  {
    set y | y in order && y < |goals| && Before(goals[y], goals[x])
  }

  ghost function Members(order: seq<nat>): set<nat> {
    set y | y in order
  }

  lemma {:induction false} MembersAtMost(order: seq<nat>)
    ensures |Members(order)| <= |order|
  {
    if order != [] {
      MembersAtMost(order[1..]);
      assert Members(order) == Members(order[1..]) + {order[0]};
    }
  }

  /** The turns before a running timer's are those of other running timers. */
  lemma TurnsAtMost(goals: seq<Goal>, order: seq<nat>, x: nat, among: seq<nat>)
    requires x < |goals| && x in order && forall y :: y in order ==> y in among
    ensures |TurnsBefore(goals, order, x)| + 1 <= |among|
  {
    MembersAtMost(among);
    SmallerSet(TurnsBefore(goals, order, x) + {x}, Members(among));
  }

  lemma SmallerSet(a: set<nat>, b: set<nat>)
    requires a <= b
    ensures |a| <= |b|
  {
    assert b == a + (b - a);
  }

  lemma ServedAmong(c: Contexts, order: seq<nat>, goals: seq<Goal>, starts: nat, order': seq<nat>, goals': seq<Goal>,
                    h: nat, now: nat, wakes: nat)
    requires Served(c, order, goals, starts, order', goals', h, now, wakes)
    ensures |goals'| == |goals| && forall y :: y in order' ==> y in order
  {
  }

  lemma TurnsTime(turns: nat, n: nat)
    requires turns + 1 <= n
    ensures 0 <= MAX_LATENCY * (turns + 1) <= MAX_LATENCY * (turns + 2) <= MAX_LATENCY * (n + 1)
  {
  }

  /** Once timer `x` is due, the first timer's callback leaves one turn less before that of `x`: a timer that is started
      anew comes after it, even without a timeout. */
  lemma TurnsFall(c: Contexts, order: seq<nat>, goals: seq<Goal>, starts: nat, order': seq<nat>, goals': seq<Goal>,
                  h: nat, now: nat, wakes: nat, x: nat)
    requires Served(c, order, goals, starts, order', goals', h, now, wakes) && Sorted(order, goals)
    requires order != [] && h == order[0] && x in order && x != h && goals[x].startNo < starts
    ensures x in order' && goals'[x] == goals[x] && x < |goals'| == |goals|
    ensures goals[x].due <= now ==> |TurnsBefore(goals', order', x)| + 1 <= |TurnsBefore(goals, order, x)|
  {
    var j :| 0 <= j < |order| && order[j] == x;
    assert Before(goals[order[0]], goals[order[j]]) && h in order;
    if goals[x].due <= now {
      SmallerSet(TurnsBefore(goals', order', x) + {h}, TurnsBefore(goals, order, x));
    }
  }

  /** The first timer's callback comes after those made and before those to come. */
  lemma CallbackInOrder(ran: seq<Ran>, order: seq<nat>, goals: seq<Goal>, order': seq<nat>, goals': seq<Goal>,
                        h: nat, now: nat, starts: nat, starts': nat)
    requires InOrder(ran, order, goals, now, starts) && Sorted(order, goals)
    requires order != [] && h == order[0] && goals[h].due <= now && goals[h].startNo < starts <= starts'
    requires InOrder(ran, order', goals', now, starts') && |goals'| == |goals|
    requires OthersOrFresh(order, goals, starts, order', goals', h, now)
    ensures InOrder(ran + [Ran(h, goals[h], now)], order', goals', now, starts')
  {
    forall x | x in order' && x < |goals'| ensures Before(goals[h], goals'[x]) {
      if x != h && x in order && goals'[x] == goals[x] {
        var j :| 0 <= j < |order| && order[j] == x;
        assert Before(goals[order[0]], goals[order[j]]);
      }
    }
  }

  /** A wakeup before the first deadline counts against no timer more than its timeout allows. */
  lemma WakeCounts(c: Contexts, c': Contexts, order: seq<nat>, goals: seq<Goal>, lastSetup: nat, now: nat, starts: nat,
                   wakes: nat)
    requires Books(c, order, goals, lastSetup, now, starts, wakes) && Sorted(order, goals) && order != []
    requires SetUpSince(order, goals, lastSetup) && lastSetup + MAX_WAKEUP_SETUP <= now
    requires order[0] < |c| && c[order[0]].countLeft > MAX_WAKEUP_SETUP
    requires CountedOff(c, c', order, |order|, now - lastSetup)
    ensures Books(c', order, goals, now, now, starts, wakes + 1)
    ensures forall x :: x in order ==> lastSetup + MAX_WAKEUP_SETUP < goals[x].due
  {
    assert order[..|order|] == order;
    forall x | x in order
      ensures x < |c'| && Kept(c'[x], goals[x], now, now, starts, wakes + 1)
      ensures lastSetup + MAX_WAKEUP_SETUP < goals[x].due
    {
      assert Kept(c[x], goals[x], lastSetup, now, starts, wakes);
      var j :| 0 <= j < |order| && order[j] == x;
      assert j > 0 ==> Before(goals[order[0]], goals[order[j]]);
      assert order[0] in order;
    }
  }

  lemma TimePasses(c: Contexts, order: seq<nat>, goals: seq<Goal>, ran: seq<Ran>, lastSetup: nat, now: nat, starts: nat,
                   wakes: nat)
    requires Books(c, order, goals, lastSetup, now, starts, wakes) && InOrder(ran, order, goals, now, starts)
    ensures Books(c, order, goals, lastSetup, now + 1, starts, wakes) && InOrder(ran, order, goals, now + 1, starts)
  {
    forall x | x in order ensures x < |c| && Kept(c[x], goals[x], lastSetup, now + 1, starts, wakes) {
      assert Kept(c[x], goals[x], lastSetup, now, starts, wakes);
    }
  }

  lemma CreatedBooks(c: Contexts, c': Contexts, order: seq<nat>, goals: seq<Goal>, lastSetup: nat, now: nat,
                     starts: nat, wakes: nat, id: nat)
    requires Books(c, order, goals, lastSetup, now, starts, wakes) && Marked(c, order)
    requires id < |c| && id !in order && |c'| == |c| && c'[id].timerIdStatus != Running
    requires forall x :: 0 <= x < |c| && x != id ==> c'[x] == c[x]
    ensures Books(c', order, goals, lastSetup, now, starts, wakes) && Marked(c', order)
  {
  }

  lemma InBooks(c: Contexts, order: seq<nat>, goals: seq<Goal>, lastSetup: nat, now: nat, starts: nat, wakes: nat,
                x: nat)
    requires Books(c, order, goals, lastSetup, now, starts, wakes) && x in order
    ensures x < |c| == |goals| && goals[x].startNo < starts
  {
  }

  lemma NotYetDue(c: Contexts, goals: seq<Goal>, now: nat, x: nat, y: nat)
    requires x < |goals| == |c| && y < |goals| && Obstructs(c, goals, now, x, y)
    ensures now < goals[x].due
  {
  }

  lemma MarkedAt(c: Contexts, order: seq<nat>, id: nat)
    requires Marked(c, order) && id < |c|
    ensures c[id].timerIdStatus == Running <==> id in order
  {
  }

  class TimerServer {
    const ctx: array<TimerContext>
    var current: nat
    var previous: nat
    var ssrOnLastSetup: nat
    /** The last countdown was cut to the maximum. */
    var overpassed: bool

    // the clock, the wakeup counter and the interrupt line
    var now: nat
    var enabled: bool
    var counter: nat
    var pending: bool

    /** The timers whose callbacks were made so far. */
    var callbacks: seq<nat>

    /** When the counter was set up last; no operation looks at it. */
    var lastSetup: nat

    ghost var order: seq<nat>
    ghost var goals: seq<Goal>
    ghost var starts: nat
    ghost var wakes: nat
    ghost var ran: seq<Ran>

    /** The list visits exactly the running timers, each once. The previous timer never is the current one. */
    ghost predicate Listed()
      reads this, ctx
    {
      && IsList(ctx[..], current, order)
      && previous != current
      && Marked(ctx[..], order)
    }

    /** The ticks since the last setup can be read from the register. */
    ghost predicate TimeKnown()
      reads this
    {
      && lastSetup <= now < lastSetup + SYNCH_PRESCALER
      && (ssrOnLastSetup == SsrAt(lastSetup) || (ssrOnLastSetup == SSR_FORBIDDEN_VALUE && lastSetup == now))
    }

    /** The contexts say what was asked for, in the order of deadlines, and every callback made was due. */
    ghost predicate Booked()
      reads this, ctx
    {
      && Books(ctx[..], order, goals, lastSetup, now, starts, wakes)
      && Sorted(order, goals)
      && InOrder(ran, order, goals, now, starts)
      && |ran| == |callbacks| && (forall i :: 0 <= i < |ran| ==> ran[i].timerId == callbacks[i])
      && (order != [] ==> TimeKnown())
    }

    /** The tick at which the counter set up last raises the interrupt. */
    function FireAt(): nat
      requires current < ctx.Length
      reads this`current, this`lastSetup, ctx
    {
      lastSetup + Min(ctx[current].countLeft, MAX_WAKEUP_SETUP)
    }

    /** The counter runs towards the interrupt for the first timer of the list, which is served in time. */
    ghost predicate Programmed()
      reads this, ctx
    {
      if current >= ctx.Length then !pending && !enabled
      else
        && overpassed == (ctx[current].countLeft > MAX_WAKEUP_SETUP)
        && ssrOnLastSetup == SsrAt(lastSetup)
        && lastSetup <= now <= FireAt() + MAX_LATENCY
        && (pending <==> now >= FireAt())
        && (!pending ==> enabled && now + counter + 1 == FireAt())
        && SetUpSince(order, goals, lastSetup)
    }

    ghost predicate Valid()
      reads this, ctx
    {
      Listed() && Booked() && Programmed()
    }

    /** The countdown ends no later than the earliest deadline not yet past at its setup, and never exceeds the
        maximum. */
    lemma CountdownInTime()
      requires Valid() && current < ctx.Length
      ensures |goals| == ctx.Length && lastSetup <= FireAt() <= lastSetup + MAX_WAKEUP_SETUP
      ensures forall x :: x in order ==> x < |goals| && FireAt() <= Latest(goals[x].due, lastSetup)
      ensures pending && !overpassed ==> goals[current].due <= now
      ensures now - lastSetup < SYNCH_PRESCALER
    {
      hide IsList, Marked, Books, InOrder, SetUpSince;
      FirstTimer(ctx[..], current, order, goals, lastSetup, now, starts, wakes);
      forall x | x in order ensures x < |goals| && goals[current].due <= goals[x].due {
        var j :| 0 <= j < |order| && order[j] == x;
        assert j > 0 ==> Before(goals[order[0]], goals[order[j]]);
      }
    }

    constructor (count: nat)
      ensures Valid() && order == [] && callbacks == [] && ctx.Length == count && fresh(ctx)
      ensures now == 0 && forall x :: 0 <= x < count ==> ctx[x].timerIdStatus == Free
    {
      ctx := new TimerContext[count](_ => TimerContext(0, 0, Free, SingleShot, 0, 0));
      current, previous := count, 0;
      if count == 0 { previous := 1; }
      ssrOnLastSetup, overpassed := SSR_FORBIDDEN_VALUE, false;
      now, enabled, counter, pending, callbacks := 0, false, 0, false, [];
      order, lastSetup, starts, wakes, ran := [], 0, 0, 0, [];
      goals := seq(count, _ => Goal(0, 0, 0, 0));
    }

    // ---- the list ----

    method LinkTimerAfter(timerId: nat, refTimerId: nat)
      requires timerId < ctx.Length && refTimerId < ctx.Length
      modifies ctx
      ensures ctx[..] == LinkedAfter(old(ctx[..]), timerId, refTimerId)
    {
      var nextId := ctx[refTimerId].nextId;
      if nextId < ctx.Length {
        ctx[nextId] := ctx[nextId].(previousId := timerId);
      }
      ctx[timerId] := ctx[timerId].(nextId := nextId);
      ctx[timerId] := ctx[timerId].(previousId := refTimerId);
      ctx[refTimerId] := ctx[refTimerId].(nextId := timerId);
    }

    /** Only ever asked to link before the current timer. */
    method LinkTimerBefore(timerId: nat, refTimerId: nat)
      requires timerId < ctx.Length && refTimerId < ctx.Length && refTimerId == current
      modifies ctx
      ensures ctx[..] == LinkedBefore(old(ctx[..]), timerId, refTimerId)
    {
      if refTimerId != current {
        assert false;
      } else {
        ctx[timerId] := ctx[timerId].(nextId := refTimerId);
        ctx[refTimerId] := ctx[refTimerId].(previousId := timerId);
      }
    }

    /** The timer to link a new timer after: the last one of those at the front that have no more left to count. */
    method SearchLast(timeLeft: nat) returns (timerIdLookup: nat, ghost p: nat)
      requires IsList(ctx[..], current, order) && order != [] && Separates(ctx[..], order[..1], 1, timeLeft)
      ensures 0 < p <= |order| && timerIdLookup == order[p - 1] && timerIdLookup < ctx.Length
      ensures Separates(ctx[..], order, p, timeLeft)
    {
      hide IsList;
      ghost var c := ctx[..];
      ListAt(c, current, order, 0);
      timerIdLookup := current;
      var nextId := ctx[timerIdLookup].nextId;
      p := 1;
      if 1 < |order| { ListAt(c, current, order, 1); }
      while nextId != ctx.Length && ctx[nextId].countLeft <= timeLeft
        invariant 0 < p <= |order| && timerIdLookup == order[p - 1] && timerIdLookup < ctx.Length
        invariant nextId == Successor(c, order, p - 1) && (p < |order| ==> nextId < ctx.Length)
        invariant forall i :: 0 <= i < p ==> order[i] < |c| && c[order[i]].countLeft <= timeLeft
        decreases |order| - p
      {
        timerIdLookup := ctx[timerIdLookup].nextId;
        ListAt(c, current, order, p - 1);
        ListAt(c, current, order, p);
        nextId := ctx[timerIdLookup].nextId;
        p := p + 1;
        if p < |order| { ListAt(c, current, order, p); }
      }
    }

    /** Puts a timer behind all timers that have no more left to count, in front of the others. */
    method LinkTimer(timerId: nat, timeElapsed: nat) returns (ghost p: nat)
      requires timerId < ctx.Length && IsList(ctx[..], current, order) && timerId !in order && previous != current
      requires ctx[timerId].countLeft + timeElapsed < TWO_TO_THE_32
      modifies this`current, this`previous, this`order, ctx
      ensures p <= |old(order)| && order == Inserted(old(order), p, timerId)
      ensures IsList(ctx[..], current, order) && previous != current
      ensures SameButLinks(old(ctx[..]), ctx[..], timerId, if old(order) == [] then 0 else timeElapsed)
      ensures Separates(old(ctx[..]), old(order), p, ctx[timerId].countLeft)
    {
      hide IsList, LinkedAfter, LinkedBefore, Inserted, OnlyLinksDiffer, SameButLinks, Separates, Distinct;
      ghost var before, inList := ctx[..], order;
      EmptyList(before, current, inList);
      if current == ctx.Length {
        previous := current;
        current := timerId;
        ctx[timerId] := ctx[timerId].(nextId := ctx.Length);
        p := 0;
        SingleInserted(ctx[..], timerId);
        NextIsALink(before, ctx[..], timerId);
        NoneSeparates(before, inList, ctx[timerId].countLeft);
      } else {
        ctx[timerId] := ctx[timerId].(countLeft := (ctx[timerId].countLeft + timeElapsed) % TWO_TO_THE_32);
        var timeLeft := ctx[timerId].countLeft;
        ghost var c := ctx[..];
        ListKept(before, c, current, inList);
        ListAt(c, current, inList, 0);
        if ctx[current].countLeft <= timeLeft {
          var timerIdLookup;
          FirstSeparates(c, inList, timeLeft);
          timerIdLookup, p := SearchLast(timeLeft);
          LinkTimerAfter(timerId, timerIdLookup);
          LinkAfterInserts(c, current, inList, p, timerId);
        } else {
          LinkTimerBefore(timerId, current);
          previous := current;
          current := timerId;
          p := 0;
          LinkBeforeInserts(c, previous, inList, timerId);
          NoneSeparates(c, inList, timeLeft);
        }
        CountedThenLinked(before, c, ctx[..], timerId, timeElapsed);
        SeparatesOthers(before, c, inList, p, timerId, timeLeft);
      }
      ghost var c' := ctx[..];
      order := Inserted(inList, p, timerId);
      assert ctx[..] == c';
    }

    /** Takes a timer out of the links. */
    method Unlink(timerId: nat, ghost p: nat)
      requires IsList(ctx[..], current, order) && p < |order| && order[p] == timerId && previous != current
      modifies this`current, this`previous, ctx
      ensures timerId < ctx.Length && IsList(ctx[..], current, Removed(order, p)) && previous != current
      ensures OnlyLinksDiffer(old(ctx[..]), ctx[..])
    {
      hide IsList, Removed, OnlyLinksDiffer, Distinct;
      ghost var c := ctx[..];
      ListAt(c, current, order, 0);
      ListAt(c, current, order, p);
      if p + 1 < |order| { ListAt(c, current, order, p + 1); }
      if timerId == current {
        previous := current;
        current := ctx[timerId].nextId;
        DropFirst(c, previous, order);
        NothingDiffers(c);
      } else {
        UnlinkRemoves(c, current, order, p);
        ListAt(c, current, order, p - 1);
        var previousId := ctx[timerId].previousId;
        var nextId := ctx[timerId].nextId;
        ctx[previousId] := ctx[previousId].(nextId := ctx[timerId].nextId);
        if nextId != ctx.Length {
          ctx[nextId] := ctx[nextId].(previousId := ctx[timerId].previousId);
        }
        assert ctx[..] == UnlinkedInside(c, timerId);
      }
    }

    /** Takes a timer out of the list. The deadlines of the others stay. */
    method UnlinkTimer(timerId: nat)
      requires Listed() && Booked() && timerId in order
      modifies this`current, this`previous, this`order, ctx
      ensures Listed() && Booked() && timerId < ctx.Length && ctx[timerId].timerIdStatus == Created
      ensures forall x :: x in order <==> x in old(order) && x != timerId
      ensures SameSettings(old(ctx[..]), ctx[..])
    {
      hide IsList, Removed, Distinct, OnlyLinksDiffer, SameButStatus, SameSettings, Marked, Books, Sorted, InOrder;
      ghost var p :| 0 <= p < |order| && order[p] == timerId;
      ghost var c, inList := ctx[..], order;
      ListAt(c, current, inList, p);
      Unlink(timerId, p);
      ghost var c1 := ctx[..];
      ctx[timerId] := ctx[timerId].(timerIdStatus := Created);
      ghost var c' := ctx[..];
      MarkedAt(c, inList, timerId);
      ListKept(c1, c', current, Removed(inList, p));
      LinkedThenMarked(c, c1, c', timerId, Created);
      StatusKeepsSettings(c, c', timerId);
      MembersRemoved(inList, p);
      StoppedBooks(c, c', inList, goals, lastSetup, now, starts, wakes, p);
      StoppedAfterRan(ran, inList, goals, now, starts, p);
      SortedRemove(inList, goals, p);
      order := Removed(inList, p);
      assert ctx[..] == c';
    }

    // ---- the counter ----

    method CalculateWakeupCounterValue(timeCountLeft: nat, timeElapsed: nat) returns (wakeupCounterValue: nat)
      modifies this`overpassed
      ensures wakeupCounterValue == Min(Left(timeCountLeft - timeElapsed), MAX_WAKEUP_SETUP)
      ensures overpassed <==> Left(timeCountLeft - timeElapsed) > MAX_WAKEUP_SETUP
    {
      if timeCountLeft < timeElapsed {
        overpassed := false;
        wakeupCounterValue := 0;
      } else if timeCountLeft > timeElapsed + MAX_WAKEUP_SETUP {
        overpassed := true;
        wakeupCounterValue := MAX_WAKEUP_SETUP;
      } else {
        overpassed := false;
        wakeupCounterValue := timeCountLeft - timeElapsed;
      }
    }

    /** Has the interrupt raised in `value` ticks, or at once. */
    method RestartWakeupCounter(value: nat)
      requires !enabled
      modifies this`ssrOnLastSetup, this`enabled, this`counter, this`pending, this`lastSetup
      ensures ssrOnLastSetup == SsrAt(now) && lastSetup == now && ctx[..] == old(ctx[..])
      ensures if value == 0 then pending else !pending && enabled && counter + 1 == value
    {
      if value == 0 {
        ssrOnLastSetup := SsrAt(now);
        pending := true;
      } else {
        pending := false;
        // the divider is not 1, so that the value is shortened even if it is 1
        counter := value - 1;
        ssrOnLastSetup := SsrAt(now);
        enabled := true;
      }
      lastSetup := now;
    }

    /** Counts the elapsed ticks off every running timer. */
    method CountOff(timeElapsed: nat)
      requires IsList(ctx[..], current, order)
      modifies ctx
      ensures CountedOff(old(ctx[..]), ctx[..], order, |order|, timeElapsed)
      ensures IsList(ctx[..], current, order)
    {
      hide IsList, CountedOff, Distinct;
      ghost var c := ctx[..];
      EmptyList(c, current, order);
      NoneCountedOff(c, order, timeElapsed);
      var localTimerId := current;
      ghost var k := 0;
      if order != [] { ListAt(c, current, order, 0); }
      while localTimerId != ctx.Length
        invariant k <= |order| && localTimerId == (if k < |order| then order[k] else ctx.Length)
        invariant k < |order| ==> order[k] < ctx.Length
        invariant CountedOff(c, ctx[..], order, k, timeElapsed)
        decreases |order| - k
      {
        ListAt(c, current, order, k);
        if k + 1 < |order| { ListAt(c, current, order, k + 1); }
        CountOffNext(c, ctx[..], order, k, timeElapsed);
        if ctx[localTimerId].countLeft < timeElapsed {
          ctx[localTimerId] := ctx[localTimerId].(countLeft := 0);
        } else {
          ctx[localTimerId] := ctx[localTimerId].(countLeft := ctx[localTimerId].countLeft - timeElapsed);
        }
        localTimerId := ctx[localTimerId].nextId;
        k := k + 1;
      }
      CountedOffKeepsList(c, ctx[..], current, order, timeElapsed);
    }

    /** Sets the counter up for the first timer. No deadline moves. */
    method RescheduleTimerList()
      requires Listed() && Booked() && order != []
      modifies this`ssrOnLastSetup, this`overpassed, this`enabled, this`counter, this`pending, this`lastSetup, ctx
      ensures Valid() && lastSetup == now
      ensures CountedOff(old(ctx[..]), ctx[..], order, |order|, now - old(lastSetup))
    {
      hide IsList, Sorted, InOrder, CountedOff, Marked, Books, Distinct, Kept, Elapsed, SsrAt, SetUpSince;
      enabled := false;
      ghost var c := ctx[..];
      ListAt(c, current, order, 0);
      var timeCountLeft := ctx[current].countLeft;
      var timeElapsed := Elapsed(ssrOnLastSetup, SsrAt(now));
      ElapsedSinceSetup(ssrOnLastSetup, lastSetup, now);
      var wakeupTimerValue := CalculateWakeupCounterValue(timeCountLeft, timeElapsed);
      CountOff(timeElapsed);
      ghost var c' := ctx[..];
      CountingOffKeeps(c, c', order, goals, lastSetup, now, starts, wakes);
      RestartWakeupCounter(wakeupTimerValue);
    }

    // ---- starting and stopping ----

    /** Stops a timer. The deadlines of the others stay. Nothing happens if the timer does not run. */
    method Stop(timerId: nat)
      requires timerId < ctx.Length && Listed() && Booked()
      modifies this`current, this`previous, this`order, this`ssrOnLastSetup, this`overpassed, this`enabled,
               this`counter, this`pending, this`lastSetup, ctx
      ensures Listed() && Booked() && ctx[timerId].timerIdStatus != Running
      ensures old(timerId in order || Valid()) ==> Valid()
      ensures old(timerId in order) ==> ctx[timerId].timerIdStatus == Created && (order == [] || lastSetup == now)
      ensures old(timerId !in order) ==> unchanged(this) && ctx[..] == old(ctx[..])
      ensures forall x :: x in order <==> x in old(order) && x != timerId
      ensures SameSettings(old(ctx[..]), ctx[..])
    {
      hide IsList, Sorted, InOrder, CountedOff, Marked, Books, Distinct, Removed, SameButStatus, SetUpSince,
           SameSettings;
      ghost var c := ctx[..];
      MarkedAt(c, order, timerId);
      SettingsSame(c);
      if ctx[timerId].timerIdStatus == Running {
        UnlinkTimer(timerId);
        ghost var c', lastSetup' := ctx[..], lastSetup;
        EmptyList(c', current, order);
        if current == ctx.Length {
          ssrOnLastSetup := SSR_FORBIDDEN_VALUE;
        }
        if current == ctx.Length {
          enabled := false;
          pending := false;
          assert ctx[..] == c';
        } else if previous != current {
          RescheduleTimerList();
          CountedOffKeepsSettings(c', ctx[..], order, now - lastSetup');
          SettingsKept(c, c', ctx[..]);
        }
        MarkedAt(ctx[..], order, timerId);
      }
    }

    /** Enters a timer that does not run into the list, due in `timeoutTicks`. */
    method EnterTimer(timerId: nat, timeoutTicks: nat)
      requires timerId < ctx.Length && timeoutTicks <= MAX_TICKS && Listed() && Booked()
      requires ctx[timerId].timerIdStatus != Running
      modifies this`current, this`previous, this`order, this`goals, this`starts, this`ssrOnLastSetup,
               this`lastSetup, ctx
      ensures Listed() && Booked() && order != []
      ensures goals == old(goals)[timerId := Goal(now + timeoutTicks, old(starts), now, wakes)]
      ensures starts == old(starts) + 1
      ensures forall x :: x in order <==> x in old(order) || x == timerId
      ensures StartedSettings(old(ctx[..]), ctx[..], timerId, timeoutTicks)
    {
      hide IsList, Sorted, InOrder, CountedOff, Marked, Books, Distinct, Inserted, SameButLinks, SetUpSince, Separates,
           StartedSettings, SsrAt, Elapsed;
      var timeElapsed := 0;
      ghost var c, inList := ctx[..], order;
      MarkedAt(c, inList, timerId);
      BooksSize(c, inList, goals, lastSetup, now, starts, wakes);
      EmptyList(c, current, inList);
      ctx[timerId] := ctx[timerId].(timerIdStatus := Running);
      ctx[timerId] := ctx[timerId].(countLeft := timeoutTicks);
      ctx[timerId] := ctx[timerId].(counterInit := timeoutTicks);
      ghost var c1 := ctx[..];
      ListKept(c, c1, current, inList);
      if current == ctx.Length {
        ssrOnLastSetup := SSR_FORBIDDEN_VALUE;
        BooksOfNone(c, goals, lastSetup, now, now, starts, wakes);
        lastSetup := now;
      } else {
        timeElapsed := Elapsed(ssrOnLastSetup, SsrAt(now));
        ElapsedSinceSetup(ssrOnLastSetup, lastSetup, now);
      }
      assert ctx[..] == c1;
      ghost var p := LinkTimer(timerId, timeElapsed);
      ghost var c2, goal := ctx[..], Goal(now + timeoutTicks, starts, now, wakes);
      LinkedSettings(c, c1, c2, timerId, timeoutTicks, timeElapsed);
      SeparatesOthers(c, c1, inList, p, timerId, goal.due - lastSetup);
      StartedBooks(c, c1, c2, inList, goals, lastSetup, starts, wakes, p, timerId, goal, timeoutTicks);
      StartedInOrder(c, inList, goals, lastSetup, now, starts, wakes, p, timerId, goal);
      StartedAfterRan(ran, inList, goals, now, starts, p, timerId, goal);
      MembersInserted(inList, p, timerId);
      goals := goals[timerId := goal];
      starts := starts + 1;
      assert ctx[..] == c2;
    }

    /** Starts a timer, anew if it runs: it is due in `timeoutTicks`. The deadlines of the others stay. */
    method StartTimer(timerId: nat, timeoutTicks: nat)
      requires timerId < ctx.Length && timeoutTicks <= MAX_TICKS && Listed() && Booked()
      modifies this`current, this`previous, this`order, this`goals, this`starts, this`ssrOnLastSetup, this`overpassed,
               this`enabled, this`counter, this`pending, this`lastSetup, ctx
      ensures Valid() && lastSetup == now
      ensures goals == old(goals)[timerId := Goal(now + timeoutTicks, old(starts), now, wakes)]
      ensures starts == old(starts) + 1
      ensures forall x :: x in order <==> x in old(order) || x == timerId
      ensures StartedSettings(old(ctx[..]), ctx[..], timerId, timeoutTicks)
    {
      hide IsList, Sorted, InOrder, CountedOff, Marked, Books, Distinct, SetUpSince, StartedSettings, SameSettings,
           SsrAt;
      ghost var c := ctx[..];
      SettingsSame(c);
      if ctx[timerId].timerIdStatus == Running {
        Stop(timerId);
      }
      ghost var c1 := ctx[..];
      EnterTimer(timerId, timeoutTicks);
      ghost var c2, lastSetup2 := ctx[..], lastSetup;
      if previous != current {
        RescheduleTimerList();
      } else {
        assert false;
      }
      CountedOffKeepsSettings(c2, ctx[..], order, now - lastSetup2);
      SettingsKeptByStart(c, c1, c2, ctx[..], timerId, timeoutTicks);
    }

    // ---- the interrupt ----

    /** The counter is set up for the running timers, and was so just now. */
    ghost predicate Settled()
      reads this, ctx
    {
      Valid() && (order == [] || lastSetup == now)
    }

    method Perform(call: Call)
      requires Listed() && Booked() && call.Fits(ctx.Length)
      modifies this`current, this`previous, this`order, this`goals, this`starts, this`ssrOnLastSetup, this`overpassed,
               this`enabled, this`counter, this`pending, this`lastSetup, ctx
      ensures Listed() && Booked() && starts >= old(starts)
      ensures |goals| == |old(goals)| && forall x :: 0 <= x < |goals| && x != call.timerId ==> goals[x] == old(goals)[x]
      ensures forall x :: x != call.timerId ==> (x in order <==> x in old(order))
      ensures call.timerId in order <==> call.StartCall?
      ensures old(call.timerId in order || Settled()) || call.StartCall? ==> Settled()
      ensures call.timerId !in old(order) && call.StopCall? ==> unchanged(this) && ctx[..] == old(ctx[..])
      ensures forall x :: 0 <= x < ctx.Length ==> ctx[x].mode == old(ctx[x].mode)
      ensures forall x :: 0 <= x < ctx.Length ==>
                ctx[x].counterInit == TimeoutAfter(old(ctx[x].counterInit), [call], x)
      ensures FreshOrKept(old(order), old(goals), old(starts), order, goals, now)
      ensures HandedOutKept(old(ctx[..]), ctx[..], [call])
    {
      hide IsList, Marked, Books, Sorted, InOrder, SetUpSince, HandedOutKept;
      ghost var c := ctx[..];
      BooksSize(c, order, goals, lastSetup, now, starts, wakes);
      NoneHandedOut(c, [call]);
      match call
      case StartCall(timerId, ticks) =>
        StartTimer(timerId, ticks);
        assert [call][0].timerId == timerId;
        StartKeepsHandedOut(c, ctx[..], timerId, ticks, [call]);
      case StopCall(timerId) =>
        Stop(timerId);
        HandedOutKeepsSettings(c, c, ctx[..], [call]);
    }

    /** The calls made while the handler for timer `h` is outside its critical section. */
    method Window(h: nat, calls: seq<Call>)
      requires Listed() && Booked() && h < ctx.Length == |goals|
      requires forall i :: 0 <= i < |calls| ==> calls[i].Fits(ctx.Length)
      modifies this`current, this`previous, this`order, this`goals, this`starts, this`ssrOnLastSetup, this`overpassed,
               this`enabled, this`counter, this`pending, this`lastSetup, ctx
      ensures Listed() && Booked() && starts >= old(starts)
      ensures old(h in order || Settled()) ==> h in order || Settled()
      ensures ctx[h].mode == old(ctx[h].mode)
      ensures ctx[h].counterInit == TimeoutAfter(old(ctx[h].counterInit), calls, h)
      ensures FreshOrKept(old(order), old(goals), old(starts), order, goals, now)
      ensures forall x :: 0 <= x < ctx.Length && Spared(calls, x) ==>
                (x in order <==> x in old(order)) && goals[x] == old(goals)[x]
      ensures calls == [] ==> unchanged(this) && ctx[..] == old(ctx[..])
      ensures HandedOutKept(old(ctx[..]), ctx[..], calls)
    {
      hide Listed, Booked, Settled, FreshOrKept, TimeoutAfter, HandedOutKept;
      NoneHandedOut(ctx[..], []);
      assert calls[..0] == [] && TimeoutAfter(ctx[h].counterInit, [], h) == ctx[h].counterInit by {
        NoCalls(ctx[h].counterInit, h);
      }
      FreshOrKeptAtFirst(order, goals, starts, now);
      for i := 0 to |calls|
        invariant Listed() && Booked() && starts >= old(starts) && |goals| == ctx.Length
        invariant old(h in order || Settled()) ==> h in order || Settled()
        invariant ctx[h].mode == old(ctx[h].mode)
        invariant ctx[h].counterInit == TimeoutAfter(old(ctx[h].counterInit), calls[..i], h)
        invariant FreshOrKept(old(order), old(goals), old(starts), order, goals, now)
        invariant forall x :: 0 <= x < ctx.Length && Spared(calls[..i], x) ==>
                    (x in order <==> x in old(order)) && goals[x] == old(goals)[x]
        invariant i == 0 ==> unchanged(this) && ctx[..] == old(ctx[..])
        invariant HandedOutKept(old(ctx[..]), ctx[..], calls[..i])
      {
        ghost var order1, goals1, starts1, c1 := order, goals, starts, ctx[..];
        Perform(calls[i]);
        FreshOrKeptTwice(old(order), old(goals), old(starts), order1, goals1, starts1, order, goals, now);
        TimeoutAfterNext(old(ctx[h].counterInit), calls, i, h);
        assert calls[..i + 1] == calls[..i] + [calls[i]];
        HandedOutTwice(old(ctx[..]), c1, ctx[..], calls[..i], calls[i]);
      }
      assert calls[..|calls|] == calls;
    }

    /** Takes the first timer out, or starts it anew. The calls come in between, behind the critical section that finds
        the timer elapsed. */
    method Renew(timerId: nat, calls: seq<Call>)
      requires Listed() && Booked() && timerId == current < ctx.Length
      requires forall i :: 0 <= i < |calls| ==> calls[i].Fits(ctx.Length)
      modifies this`current, this`previous, this`order, this`goals, this`starts, this`ssrOnLastSetup, this`overpassed,
               this`enabled, this`counter, this`pending, this`lastSetup, ctx
      ensures Settled() && |goals| == |old(goals)| == ctx.Length && starts >= old(starts)
      ensures calls == [] ==>
                && SameSettings(old(ctx[..]), ctx[..])
                && Served(old(ctx[..]), old(order), old(goals), old(starts), order, goals, timerId, now, wakes)
      ensures Renewed(old(ctx[..]), old(starts), order, goals, timerId, now, calls)
      ensures OthersKept(old(order), old(goals), order, goals, timerId, calls)
      ensures OthersOrFresh(old(order), old(goals), old(starts), order, goals, timerId, now)
      ensures HandedOutKept(old(ctx[..]), ctx[..], calls)
    {
      hide IsList, Marked, Books, Sorted, InOrder, SameSettings, StartedSettings, SetUpSince, TimeoutAfter, FreshOrKept,
           Renewed, OthersKept, OthersOrFresh, Served, HandedOutKept;
      ghost var c, order0, goals0, starts0 := ctx[..], order, goals, starts;
      FirstTimer(c, current, order, goals, lastSetup, now, starts, wakes);
      SettingsSame(c);
      TimeoutInRange(c[timerId].counterInit, calls, timerId, ctx.Length);
      if ctx[timerId].mode == Repeated {
        UnlinkTimer(timerId);
        ghost var c1, order1 := ctx[..], order;
        SettingsAt(c, c1, timerId);
        Window(timerId, calls);
        ghost var c2, order2, goals2, starts2 := ctx[..], order, goals, starts;
        SettingsKeepHandedOut(c, c1, c2, calls);
        HandedOutAt(c, c2, calls, timerId);
        StartTimer(timerId, ctx[timerId].counterInit);
        StartKeepsHandedOut(c2, ctx[..], timerId, c2[timerId].counterInit, []);
        HandedOutAfter(c, c2, ctx[..], calls);
        if calls == [] { StartedSettingsAt(c, c1, ctx[..], timerId); }
        RepeatedRenewed(c, order0, goals0, starts0, order1, order2, goals2, starts2, order, goals, timerId, now, wakes,
                        calls);
      } else {
        Window(timerId, calls);
        ghost var c2, order2 := ctx[..], order;
        Stop(timerId);
        HandedOutKeepsSettings(c, c2, ctx[..], calls);
        SingleRenewed(c, order0, goals0, starts0, order2, goals, order, timerId, now, wakes, calls);
      }
    }

    /** Serves a counter that ran out for the first timer: the timer is taken out or started anew, and calls back. */
    method Elapse(timerId: nat, calls: seq<Call>)
      requires Listed() && Booked() && timerId == current < ctx.Length && |goals| == ctx.Length
      requires goals[timerId].due <= now && forall i :: 0 <= i < |calls| ==> calls[i].Fits(ctx.Length)
      modifies this`current, this`previous, this`order, this`goals, this`starts, this`ssrOnLastSetup, this`overpassed,
               this`enabled, this`counter, this`pending, this`lastSetup, this`callbacks, this`ran, ctx
      ensures Settled() && |goals| == ctx.Length && starts >= old(starts)
      ensures callbacks == old(callbacks) + [timerId]
      ensures ran == old(ran) + [Ran(timerId, old(goals[timerId]), now)]
      ensures calls == [] ==>
                && SameSettings(old(ctx[..]), ctx[..])
                && Served(old(ctx[..]), old(order), old(goals), old(starts), order, goals, timerId, now, wakes)
      ensures Renewed(old(ctx[..]), old(starts), order, goals, timerId, now, calls)
      ensures OthersKept(old(order), old(goals), order, goals, timerId, calls)
      ensures HandedOutKept(old(ctx[..]), ctx[..], calls)
    {
      hide IsList, Marked, Books, Sorted, InOrder, SameSettings, SetUpSince, Served, Renewed, OthersKept, HandedOutKept;
      FirstTimer(ctx[..], current, order, goals, lastSetup, now, starts, wakes);
      ghost var order0, goals0, starts0 := order, goals, starts;
      Renew(timerId, calls);
      ghost var c' := ctx[..];
      CallbackInOrder(ran, order0, goals0, order, goals, timerId, now, starts0, starts);
      callbacks := callbacks + [timerId];
      ran := ran + [Ran(timerId, goals0[timerId], now)];
      assert ctx[..] == c';
    }

    /** The interrupt handler. If the countdown had been cut, it is set up again. Otherwise the timer with the earliest
        deadline, which has come, calls back; of several the one started first. On the way to that the handler leaves
        its critical section, and more urgent interrupts may make calls. Whatever they ask for that timer, a repeated
        one runs afterwards and another does not: a call to stop the one or to start the other is lost. */
    method RtcWakeupHandler(calls: seq<Call>)
      requires Valid() && pending && forall i :: 0 <= i < |calls| ==> calls[i].Fits(ctx.Length)
      modifies this`current, this`previous, this`order, this`goals, this`starts, this`ssrOnLastSetup, this`overpassed,
               this`enabled, this`counter, this`pending, this`lastSetup, this`callbacks, this`ran, this`wakes, ctx
      ensures Settled() && old(current) < ctx.Length == |old(goals)| == |goals| && starts >= old(starts)
      ensures old(overpassed) ==> callbacks == old(callbacks) && order == old(order) && goals == old(goals)
      ensures old(overpassed) ==> wakes == old(wakes) + 1 && lastSetup == now >= old(lastSetup) + MAX_WAKEUP_SETUP
      ensures old(overpassed) ==> starts == old(starts) && SameSettings(old(ctx[..]), ctx[..])
      ensures !old(overpassed) ==> callbacks == old(callbacks) + [old(current)] && wakes == old(wakes)
      ensures !old(overpassed) ==> old(goals[current].due) <= now
      ensures !old(overpassed) ==> ran == old(ran) + [Ran(old(current), old(goals[current]), now)]
      ensures !old(overpassed) && calls == [] ==>
                && SameSettings(old(ctx[..]), ctx[..])
                && Served(old(ctx[..]), old(order), old(goals), old(starts), order, goals, old(current), now, wakes)
      ensures !old(overpassed) ==>
                && Renewed(old(ctx[..]), old(starts), order, goals, old(current), now, calls)
                && OthersKept(old(order), old(goals), order, goals, old(current), calls)
      ensures HandedOutKept(old(ctx[..]), ctx[..], calls)
    {
      hide IsList, Marked, Books, Sorted, InOrder, SameSettings, SetUpSince, CountedOff, Served, Renewed, OthersKept,
           HandedOutKept;
      ghost var c := ctx[..];
      FirstTimer(c, current, order, goals, lastSetup, now, starts, wakes);
      pending := false;
      enabled := false;
      assert ctx[..] == c;
      var currentRunningTimerId := current;
      if ctx[currentRunningTimerId].timerIdStatus == Running {
        if !overpassed {
          Elapse(currentRunningTimerId, calls);
        } else {
          RescheduleTimerList();
          ghost var c' := ctx[..];
          WakeCounts(c, c', order, goals, old(lastSetup), now, starts, wakes);
          CountedOffKeepsSettings(c, c', order, now - old(lastSetup));
          NoneHandedOut(c, calls);
          HandedOutKeepsSettings(c, c, c', calls);
          wakes := wakes + 1;
          assert ctx[..] == c';
        }
      } else {
        assert false;
      }
    }

    /** One tick passes. The handler is not kept waiting for longer than it may be. */
    method Tick()
      requires Valid()
      requires current < ctx.Length ==> now < FireAt() + MAX_LATENCY
      modifies this`now, this`counter, this`pending
      ensures Valid() && now == old(now) + 1
    {
      hide IsList, Marked, Books, Sorted, InOrder, SetUpSince, SsrAt;
      ghost var c := ctx[..];
      EmptyList(c, current, order);
      TimePasses(c, order, goals, ran, lastSetup, now, starts, wakes);
      now := now + 1;
      if enabled {
        if counter == 0 {
          pending := true;
        } else {
          counter := counter - 1;
        }
      }
      assert ctx[..] == c;
    }

    method FindFirstFreeId() returns (id: nat)
      ensures id <= ctx.Length && (id < ctx.Length ==> ctx[id].timerIdStatus == Free)
      ensures forall x :: 0 <= x < id ==> ctx[x].timerIdStatus != Free
    {
      id := 0;
      while id < ctx.Length && ctx[id].timerIdStatus != Free
        invariant id <= ctx.Length && forall x :: 0 <= x < id ==> ctx[x].timerIdStatus != Free
      {
        id := id + 1;
      }
    }

    /** Hands out the first free timer, if any. */
    method CreateTimer(mode: Mode) returns (id: nat)
      requires Valid()
      modifies ctx
      ensures Valid() && id <= ctx.Length
      ensures forall x :: 0 <= x < id ==> old(ctx[x].timerIdStatus) != Free
      ensures id < ctx.Length ==> old(ctx[id].timerIdStatus) == Free
      ensures id < ctx.Length ==> ctx[..] == old(ctx[..])[id := old(ctx[id]).(timerIdStatus := Created, mode := mode)]
      ensures id == ctx.Length ==> ctx[..] == old(ctx[..])
    {
      hide IsList, Marked, Books, Sorted, InOrder, SetUpSince;
      ghost var c := ctx[..];
      id := FindFirstFreeId();
      if id != ctx.Length {
        MarkedAt(c, order, id);
        ctx[id] := ctx[id].(timerIdStatus := Created);
        ctx[id] := ctx[id].(mode := mode);
        ghost var c' := ctx[..];
        ListKept(c, c', current, order);
        CreatedBooks(c, c', order, goals, lastSetup, now, starts, wakes, id);
      }
    }

    /** Whatever clients do that only start timers they were given, no timer is handed out twice. Demands that are not
        permitted are passed over. */
    method ServeClients(demands: seq<Demand>) returns (ids: seq<nat>)
      requires Valid()
      modifies this, ctx
      ensures Valid() && Distinct(ids)
      ensures forall i :: 0 <= i < |ids| ==>
                && ids[i] < ctx.Length && old(ctx[..])[ids[i]].timerIdStatus == Free
                && ctx[ids[i]].timerIdStatus != Free
    {
      hide Valid, HandedOutKept, StartedSettings, SameSettings, Served, Renewed, OthersKept, Settled;
      ghost var c := ctx[..];
      ids := [];
      for i := 0 to |demands|
        invariant Valid() && Distinct(ids) && StillOut(c, ctx[..], ids)
      {
        ghost var c1 := ctx[..];
        match demands[i] {
          case Create(mode) =>
            var id := CreateTimer(mode);
            if id < ctx.Length {
              OneMoreOut(c, c1, ctx[..], ids, id);
              ids := ids + [id];
            }
          case Start(timerId, milliseconds) =>
            if timerId in ids && milliseconds < TWO_TO_THE_32 {
              OutAt(c, c1, ids, timerId);
              Start(timerId, milliseconds);
              StartKeepsHandedOut(c1, ctx[..], timerId, MillisecondsToTicks(milliseconds), []);
              StayOut(c, c1, ctx[..], ids);
            }
          case Stop(timerId) =>
            if timerId < ctx.Length {
              ListedWhenValid();
              Stop(timerId);
              NoneHandedOut(c1, []);
              HandedOutKeepsSettings(c1, c1, ctx[..], []);
              StayOut(c, c1, ctx[..], ids);
            }
          case Tick =>
            if current >= ctx.Length || now < FireAt() + MAX_LATENCY {
              Tick();
              assert ctx[..] == c1;
            }
          case Serve =>
            if pending {
              RtcWakeupHandler([]);
              assert Valid() by { SettledIsValid(); }
              StayOut(c, c1, ctx[..], ids);
            }
        }
      }
    }

    lemma ListedWhenValid()
      requires Valid()
      ensures Listed() && Booked()
    {
    }

    /** Starts a timer: it is due in as many ticks as the milliseconds convert to. */
    method Start(timerId: nat, timeoutMs: nat)
      requires Valid() && timerId < ctx.Length && timeoutMs < TWO_TO_THE_32
      modifies this`current, this`previous, this`order, this`goals, this`starts, this`ssrOnLastSetup, this`overpassed,
               this`enabled, this`counter, this`pending, this`lastSetup, ctx
      ensures Valid()
      ensures goals == old(goals)[timerId := Goal(now + MillisecondsToTicks(timeoutMs), old(starts), now, wakes)]
      ensures forall x :: x in order <==> x in old(order) || x == timerId
      ensures StartedSettings(old(ctx[..]), ctx[..], timerId, MillisecondsToTicks(timeoutMs))
    {
      hide Valid, Listed, Booked, Programmed, StartedSettings, MillisecondsToTicks;
      ListedWhenValid();
      var timeoutTicks := MillisecondsToTicks(timeoutMs);
      StartTimer(timerId, timeoutTicks);
    }

    /** Left alone, with every interrupt served at once, the timer with the earliest deadline calls back at the tick it
        is due, or now if that is past. Not more countdowns are cut than its timeout holds maxima. */
    method RunToCallback()
      requires Valid() && current < ctx.Length
      modifies this, ctx
      ensures Valid() && |old(goals)| == ctx.Length
      ensures callbacks == old(callbacks) + [old(current)]
      ensures now == Latest(old(goals[current].due), old(now))
      ensures (wakes - old(goals[current].wakesBefore)) * MAX_WAKEUP_SETUP <= old(ctx[current].counterInit)
      ensures SameSettings(old(ctx[..]), ctx[..])
      ensures Served(old(ctx[..]), old(order), old(goals), old(starts), order, goals, old(current), now, wakes)
    {
      hide IsList, Marked, Books, Sorted, InOrder, SameSettings, SetUpSince, Served, Renewed, OthersKept, TimeoutAfter;
      ghost var first, goals0, c0 := current, goals, ctx[..];
      FirstTimer(c0, current, order, goals, lastSetup, now, starts, wakes);
      SettingsSame(c0);
      while true
        invariant Valid() && current == first < ctx.Length && goals == goals0 && |goals| == ctx.Length
        invariant callbacks == old(callbacks) && order == old(order) && starts == old(starts)
        invariant SameSettings(c0, ctx[..])
        invariant old(now) <= now <= Latest(goals[first].due, old(now))
        decreases Latest(goals[first].due, now) - now, pending && overpassed
      {
        ghost var c := ctx[..];
        FirstTimer(c, current, order, goals, lastSetup, now, starts, wakes);
        if pending {
          var cut := overpassed;
          RtcWakeupHandler([]);
          SettingsKept(c0, c, ctx[..]);
          if !cut {
            SettingsAt(c0, c, first);
            ServedWithSettings(c0, c, old(order), goals0, old(starts), order, goals, first, now, wakes);
            break;
          }
          ListAt(ctx[..], current, order, 0);
        } else {
          Tick();
          assert ctx[..] == c;
        }
      }
    }

    /** So a running timer calls back, and exactly when due, if every interrupt is served at once, nothing else is
        started or stopped, and no other timer obstructs it. */
    method RunToCallbackOf(timerId: nat)
      requires Valid() && timerId in order && Unobstructed(ctx[..], order, goals, now, timerId)
      modifies this, ctx
      ensures Valid() && timerId < |old(goals)|
      ensures |callbacks| > |old(callbacks)| && old(callbacks) < callbacks && callbacks[|callbacks| - 1] == timerId
      ensures timerId !in callbacks[|old(callbacks)|..|callbacks| - 1]
      ensures now == Latest(old(goals[timerId].due), old(now))
    {
      hide IsList, Marked, Books, InOrder, Sorted, SetUpSince, Served, AllAhead, Obstructs, SameSettings;
      ghost var called: seq<nat> := [];
      while true
        invariant Valid() && timerId in order && Unobstructed(ctx[..], order, goals, now, timerId)
        invariant timerId < |goals| == ctx.Length && goals[timerId] == old(goals)[timerId]
        invariant callbacks == old(callbacks) + called && timerId !in called
        invariant old(now) <= now <= Latest(goals[timerId].due, old(now))
        decreases AllAhead(goals, order, timerId, |goals|)
      {
        ghost var c, order0, goals0, starts0, now0 := ctx[..], order, goals, starts, now;
        EmptyList(c, current, order);
        FirstTimer(c, current, order, goals, lastSetup, now, starts, wakes);
        InBooks(c, order, goals, lastSetup, now, starts, wakes, timerId);
        var head := current;
        RunToCallback();
        if head == timerId { break; }
        called := called + [head];
        CallbackComesCloser(c, ctx[..], order0, goals0, starts0, order, goals, head, now0, now, wakes, timerId);
      }
    }

    /** Under the same service a timer that another one obstructs is never called back: after any number of callbacks
        it is still not due, and still obstructed. */
    method RunObstructed(timerId: nat, n: nat)
      requires Valid() && timerId in order && timerId < |goals| == ctx.Length
      requires !Unobstructed(ctx[..], order, goals, now, timerId)
      modifies this, ctx
      ensures Valid() && timerId in order && |old(goals)| == |goals| == ctx.Length
      ensures |callbacks| == |old(callbacks)| + n && old(callbacks) <= callbacks
      ensures timerId !in callbacks[|old(callbacks)|..]
      ensures goals[timerId] == old(goals[timerId]) && now < goals[timerId].due
      ensures !Unobstructed(ctx[..], order, goals, now, timerId)
    {
      hide IsList, Marked, Books, InOrder, Sorted, SetUpSince, Served, Obstructs, SameSettings;
      ghost var called: seq<nat> := [];
      ghost var y :| y in order && 0 <= y < |goals| && Obstructs(ctx[..], goals, now, timerId, y);
      NotYetDue(ctx[..], goals, now, timerId, y);
      for i := 0 to n
        invariant Valid() && timerId in order && y in order && |goals| == ctx.Length == |old(goals)|
        invariant goals[timerId] == old(goals[timerId]) && now < goals[timerId].due
        invariant Obstructs(ctx[..], goals, now, timerId, y)
        invariant callbacks == old(callbacks) + called && |called| == i && timerId !in called
      {
        ghost var c, order0, goals0, starts0, now0 := ctx[..], order, goals, starts, now;
        EmptyList(c, current, order);
        FirstTimer(c, current, order, goals, lastSetup, now, starts, wakes);
        ghost var head := current;
        RunToCallback();
        called := called + [head];
        ObstructionStays(c, ctx[..], order0, goals0, starts0, order, goals, head, now0, now, wakes, timerId, y);
      }
    }

    /** A repeated timer of 0 ms and another of 1 s are enough for that: served in the tick that raises the interrupt,
        however often, the other one is never called back. */
    static method StarveTimer(n: nat) returns (server: TimerServer)
      ensures fresh(server) && server.Valid() && 1 in server.order && |server.goals| == 2
      ensures |server.callbacks| == n && 1 !in server.callbacks && server.now < server.goals[1].due == 2048
    {
      server := new TimerServer(2);
      assert server.ctx[0].timerIdStatus == Free && server.ctx[1].timerIdStatus == Free;
      var repeated := server.CreateTimer(Repeated);
      assert repeated == 0 && server.ctx[..][1].timerIdStatus == Free;
      var single := server.CreateTimer(SingleShot);
      assert single == 1;
      server.StartTwo();
      server.RunObstructed(single, n);
      assert server.callbacks[0..] == server.callbacks;
    }

    method StartTwo()
      requires Valid() && ctx.Length == 2 && ctx[0].mode == Repeated && order == [] && callbacks == [] && now == 0
      modifies this`current, this`previous, this`order, this`goals, this`starts, this`ssrOnLastSetup, this`overpassed,
               this`enabled, this`counter, this`pending, this`lastSetup, ctx
      ensures Valid() && 1 in order && |goals| == 2 && goals[1].due == 2048
      ensures !Unobstructed(ctx[..], order, goals, now, 1)
    {
      hide IsList, Marked, Books, InOrder, Sorted, SetUpSince, StartedSettings, SameSettings, Listed, Booked,
           Programmed;
      ghost var c := ctx[..];
      BooksSize(c, order, goals, lastSetup, now, starts, wakes) by { Listing(); }
      Start(0, 0);
      ghost var c1 := ctx[..];
      Start(1, 1000);
      StartedAt(c, c1, 0, 0, 0);
      StartedAt(c1, ctx[..], 1, 2048, 0);
      assert Obstructs(ctx[..], goals, now, 1, 0);
    }

    lemma Listing()
      requires Valid()
      ensures Books(ctx[..], order, goals, lastSetup, now, starts, wakes)
    {
    }

    /** Tick of the latest callback of timer `x` if `n` timers run. */
    ghost function LatestTurn(x: nat, n: nat): nat
      requires x < |goals|
      reads this
    {
      Latest(goals[x].due, now) + MAX_LATENCY * (n + 1)
    }

    /** Timer `x` keeps to a latest tick, since every turn before it takes the handler's latency at most. */
    ghost predicate InTime(x: nat, latest: nat)
      requires x < |goals|
      reads this, ctx
    {
      && current < ctx.Length && now <= latest
      && (goals[x].due <= now ==>
          FireAt() + MAX_LATENCY * (|TurnsBefore(goals, order, x)| + (if overpassed then 2 else 1)) <= latest)
    }

    /** What the list and the counter say of a running timer. */
    lemma WhenRunning(x: nat)
      requires Valid() && x in order
      ensures current < ctx.Length == |goals| && x < |goals| && goals[x].startNo < starts
      ensures order != [] && order[0] == current && Sorted(order, goals)
      ensures FireAt() <= Latest(goals[x].due, lastSetup) && lastSetup <= now <= FireAt() + MAX_LATENCY
      ensures pending <==> now >= FireAt()
      ensures goals[x].due <= lastSetup ==> !overpassed
      ensures overpassed && pending ==> goals[x].due >= lastSetup
    {
      hide IsList, Marked, Books, InOrder, SetUpSince, SsrAt;
      EmptyList(ctx[..], current, order);
      CountdownInTime();
      FirstTimer(ctx[..], current, order, goals, lastSetup, now, starts, wakes);
      InBooks(ctx[..], order, goals, lastSetup, now, starts, wakes, x);
      var j :| 0 <= j < |order| && order[j] == x;
      assert j > 0 ==> Before(goals[order[0]], goals[order[j]]);
    }

    lemma InTimeAtFirst(x: nat, among: seq<nat>)
      requires Valid() && x in order && forall y :: y in order ==> y in among
      ensures x < |goals| && InTime(x, LatestTurn(x, |among|))
    {
      hide Valid, TurnsBefore, FireAt, Sorted;
      WhenRunning(x);
      TurnsAtMost(goals, order, x, among);
      TurnsTime(|TurnsBefore(goals, order, x)|, |among|);
    }

    /**
     Whenever the handler runs within its allowed latency, and whatever ticks pass between its
     runs, a running timer calls back no earlier than due and within that latency for each
     running timer and one more. `schedule` has a tick where true and a run of the handler where
     false; steps that are not permitted are passed over.
     */
    method RunSchedule(timerId: nat, schedule: seq<bool>) returns (called: bool)
      requires Valid() && timerId in order
      modifies this, ctx
      ensures Valid() && timerId < |old(goals)| && now <= old(LatestTurn(timerId, |order|))
      ensures !called ==>
                timerId in order && |goals| == |old(goals)| && goals[timerId] == old(goals[timerId])
      ensures old(callbacks) <= callbacks
      ensures !called ==> timerId !in callbacks[|old(callbacks)|..]
      ensures called ==>
                && |callbacks| > |old(callbacks)| && callbacks[|callbacks| - 1] == timerId
                && timerId !in callbacks[|old(callbacks)|..|callbacks| - 1]
                && old(goals[timerId].due) <= now
    {
      hide IsList, Marked, Books, InOrder, Sorted, SetUpSince, Served, SameSettings, TurnsBefore, Listed, Booked,
           Programmed;
      WhenRunning(timerId);
      ghost var latest, among, goal := LatestTurn(timerId, |order|), order, goals[timerId];
      InTimeAtFirst(timerId, among);
      ghost var before: seq<nat> := [];
      called := false;
      for i := 0 to |schedule|
        invariant Valid() && timerId in order && timerId < |goals| == |old(goals)| && goals[timerId] == goal
        invariant InTime(timerId, latest) && (forall y :: y in order ==> y in among)
        invariant latest == old(LatestTurn(timerId, |order|)) && latest >= goal.due + MAX_LATENCY * (|among| + 1)
        invariant callbacks == old(callbacks) + before && timerId !in before
      {
        WhenRunning(timerId);
        if schedule[i] {
          if now < FireAt() + MAX_LATENCY {
            TickInTime(timerId, latest, among);
          }
        } else if pending {
          var head, cut := current, overpassed;
          HandlerInTime(timerId, latest);
          if !cut {
            before := before + [head];
            if head == timerId {
              called := true;
              return;
            }
          }
        }
      }
    }

    lemma InTimeWhenSettled(x: nat, latest: nat)
      requires Settled() && x in order && x < |goals| && now <= latest
      requires goals[x].due <= now ==> now + MAX_LATENCY * (|TurnsBefore(goals, order, x)| + 1) <= latest
      ensures InTime(x, latest)
    {
      hide IsList, Marked, Books, InOrder, Sorted, SetUpSince, TurnsBefore, Listed, Booked, Programmed;
      assert order != [];
      WhenRunning(x);
    }

    /** Before the handler runs: it is in time for timer `x`, with a turn to spare unless it is that timer's own. */
    lemma InTimeForHandler(x: nat, latest: nat)
      requires Valid() && x in order && x < |goals| && InTime(x, latest)
      ensures now <= latest && current < ctx.Length == |goals| && goals[x].startNo < starts
      ensures order != [] && order[0] == current && Sorted(order, goals)
      ensures goals[x].due <= now ==>
                now + MAX_LATENCY * (|TurnsBefore(goals, order, x)| + if overpassed then 1 else 0) <= latest
    {
      hide IsList, Marked, Books, InOrder, Sorted, SetUpSince, TurnsBefore, Listed, Booked, Programmed;
      WhenRunning(x);
    }

    method TickInTime(x: nat, ghost latest: nat, ghost among: seq<nat>)
      requires Valid() && x in order && x < |goals| && InTime(x, latest) && now < FireAt() + MAX_LATENCY
      requires latest >= goals[x].due + MAX_LATENCY * (|among| + 1) && forall y :: y in order ==> y in among
      modifies this`now, this`counter, this`pending
      ensures Valid() && InTime(x, latest)
    {
      hide Valid, TurnsBefore, FireAt;
      ListIsThere(x);
      Tick();
      TickedInTime(x, latest, among);
    }

    lemma ListIsThere(x: nat)
      requires Valid() && x in order
      ensures current < ctx.Length
    {
      hide IsList, Marked, Books, InOrder, Sorted, SetUpSince, Programmed;
      EmptyList(ctx[..], current, order);
    }

    /** A tick that makes the timer due leaves all the turns before it in time. */
    lemma TickedInTime(x: nat, latest: nat, among: seq<nat>)
      requires Valid() && x in order && x < |goals| && current < ctx.Length
      requires latest >= goals[x].due + MAX_LATENCY * (|among| + 1) && forall y :: y in order ==> y in among
      requires goals[x].due < now ==>
                 FireAt() + MAX_LATENCY * (|TurnsBefore(goals, order, x)| + (if overpassed then 2 else 1)) <= latest
      ensures InTime(x, latest)
    {
      hide Valid, TurnsBefore, FireAt, Sorted;
      WhenRunning(x);
      TurnsAtMost(goals, order, x, among);
      TurnsTime(|TurnsBefore(goals, order, x)|, |among|);
    }

    method HandlerInTime(x: nat, ghost latest: nat)
      requires Valid() && x in order && x < |goals| && InTime(x, latest) && pending
      modifies this`current, this`previous, this`order, this`goals, this`starts, this`ssrOnLastSetup, this`overpassed,
               this`enabled, this`counter, this`pending, this`lastSetup, this`callbacks, this`ran, this`wakes, ctx
      ensures Valid() && |goals| == |old(goals)| && now <= latest
      ensures callbacks == old(callbacks) + if old(overpassed) then [] else [old(current)]
      ensures old(overpassed) || old(current) != x ==> x in order && goals[x] == old(goals[x]) && InTime(x, latest)
      ensures !old(overpassed) && old(current) == x ==> old(goals[x].due) <= now
      ensures forall y :: y in order ==> y in old(order)
    {
      hide IsList, Marked, Books, InOrder, Sorted, SetUpSince, SameSettings, TurnsBefore, Listed, Booked, Programmed,
           Renewed, OthersKept, InTime, Valid, Settled, Served;
      InTimeForHandler(x, latest);
      ghost var c, order0, goals0, starts0, h := ctx[..], order, goals, starts, current;
      RtcWakeupHandler([]);
      assert Valid() by { SettledIsValid(); }
      if !old(overpassed) {
        ServedAmong(c, order0, goals0, starts0, order, goals, h, now, wakes);
        if h != x { TurnsFall(c, order0, goals0, starts0, order, goals, h, now, wakes, x); }
      }
      if old(overpassed) || h != x { InTimeWhenSettled(x, latest); }
    }

    lemma SettledIsValid()
      requires Settled()
      ensures Valid()
    {
    }

    /** At the handler itself: a repeated timer with a timeout of no ticks, once due, keeps the interrupt pending
        however often it is served, and no timer due later calls back meanwhile. */
    method StandsStill(zero: nat, n: nat)
      requires Valid() && zero in order && zero < |goals| && zero < ctx.Length && goals[zero].due <= now
      requires ctx[zero].mode == Repeated && ctx[zero].counterInit == 0
      modifies this, ctx
      ensures Valid() && pending && now == old(now) && |old(goals)| == |goals|
      ensures old(callbacks) <= callbacks
      ensures forall i :: |old(callbacks)| <= i < |callbacks| ==>
                callbacks[i] < |old(goals)| && old(goals)[callbacks[i]].due <= now
    {
      hide IsList, Marked, Books, Sorted, InOrder, SetUpSince, SameSettings, Renewed, OthersKept, TimeoutAfter;
      ghost var goals0, c0 := goals, ctx[..];
      EmptyList(c0, current, order);
      FirstTimer(c0, current, order, goals, lastSetup, now, starts, wakes);
      SettingsSame(c0);
      CountdownInTime();
      for i := 0 to n
        invariant Valid() && pending && now == old(now) && |goals| == ctx.Length == |goals0|
        invariant zero in order && goals[zero].due <= now && SameSettings(c0, ctx[..])
        invariant forall x :: 0 <= x < |goals| && goals0[x].due > now ==> goals[x] == goals0[x]
        invariant old(callbacks) <= callbacks
        invariant forall k :: |old(callbacks)| <= k < |callbacks| ==>
                    callbacks[k] < |goals0| && goals0[callbacks[k]].due <= now
      {
        ghost var c := ctx[..];
        SettingsAt(c0, c, zero);
        RtcWakeupHandler([]);
        SettingsKept(c0, c, ctx[..]);
        EmptyList(ctx[..], current, order);
        CountdownInTime();
      }
    }
  }
}
