/**
 Positions in a retained log: where an enumeration that skips a number of items starts,
 and how a page number with an index on the page relates to a position in the log.
 */
module Enumeration {
  import opened Rings
  import opened ItemLog

  /** Where the search for a start position ends when it skips `s` items: a positive multiple of the page capacity
      leads to the first item of the page before. */
  function Landing(s: nat, capacity: nat): (r: nat)
    requires capacity > 0
    ensures r <= s
  {
    if s > 0 && s % capacity == 0 then
      if s < capacity then 0 else s - capacity
    else s
  }

  lemma LandingIsNear(s: nat, capacity: nat)
    requires capacity > 0
    ensures s <= Landing(s, capacity) + capacity
  {
  }

  lemma LandingOfMultiple(pages: nat, s: nat, capacity: nat)
    requires capacity > 0 && pages > 0 && s == pages * capacity
    ensures Landing(s, capacity) == (pages - 1) * capacity
  {
    PageCount(s, pages, 0, capacity);
    assert pages * capacity == (pages - 1) * capacity + capacity;
    MulMonotone(0, pages - 1, capacity);
  }

  lemma LandingInside(pages: nat, rest: nat, s: nat, capacity: nat)
    requires s == pages * capacity + rest && 0 < rest < capacity
    ensures Landing(s, capacity) == s
  {
    PageCount(s, pages, rest, capacity);
  }

  /** An enumeration starts where it was asked to, if and only if it skips nothing or not a whole number of pages. */
  lemma LandsExactly(s: nat, capacity: nat)
    requires capacity > 0
    ensures Landing(s, capacity) == s <==> s == 0 || s % capacity != 0
  {
    if s > 0 && s % capacity == 0 && s < capacity {
      PageCount(s, 0, s, capacity);
      assert false;
    }
  }

  /** It starts a page of items before, if and only if it skips whole pages. */
  lemma LandsPageBefore(s: nat, capacity: nat)
    requires capacity > 0
    ensures Landing(s, capacity) + capacity == s <==> s > 0 && s % capacity == 0
  {
    LandsExactly(s, capacity);
    if s > 0 && s % capacity == 0 && s < capacity {
      PageCount(s, 0, s, capacity);
      assert false;
    }
  }

  /** Asking for the newest of `n` items gives it, if and only if it is the only one or not the first on its page.
      Otherwise a whole page of newer items is passed over. */
  lemma NewestIsFound(n: nat, capacity: nat)
    requires n > 0 && capacity > 0
    ensures Landing(n - 1, capacity) == n - 1 <==> n == 1 || (n - 1) % capacity != 0
    ensures n > 1 && (n - 1) % capacity == 0 ==> Landing(n - 1, capacity) == n - 1 - capacity
  {
    LandsExactly(n - 1, capacity);
  }

  // ---- what an enumeration gives ----

  /** An enumeration that skips `s` items is ready: fewer than the log has, or as many and these fill whole pages. */
  predicate Ready<T>(log: seq<T>, s: nat, capacity: nat)
    requires capacity > 0
  {
    s < |log| || (s == |log| && s > 0 && s % capacity == 0)
  }

  /** The items that it then gives: as many as the log has behind the `s` skipped, but at least one. Just after the
      close of a page the end of the log is announced too late and only met. */
  function Enumerated<T>(log: seq<T>, s: nat, capacity: nat, justClosed: bool): seq<T>
    requires capacity > 0 && Ready(log, s, capacity)
  {
    LandingIsNear(s, capacity);
    LandsBefore(s, |log|, capacity);
    var landing := Landing(s, capacity);
    log[landing..if justClosed then |log| else landing + if s < |log| then |log| - s else 1]
  }

  lemma LandsBefore(s: nat, end: nat, capacity: nat)
    requires capacity > 0 && (s < end || (s == end && s > 0 && s % capacity == 0))
    ensures Landing(s, capacity) < end
    ensures s < end ==> Landing(s, capacity) + end - s <= end
  {
    LandsExactly(s, capacity);
    if s > 0 && s % capacity == 0 && s < capacity {
      PageCount(s, 0, s, capacity);
      assert false;
    }
  }

  lemma ReadyLands<T>(log: seq<T>, s: nat, capacity: nat)
    requires capacity > 0 && Ready(log, s, capacity)
    ensures Landing(s, capacity) < |log| && s <= |log|
    ensures s < |log| ==> Landing(s, capacity) + |log| - s <= |log|
    ensures s == |log| ==> Landing(s, capacity) + capacity == s
  {
    LandsBefore(s, |log|, capacity);
    LandingIsNear(s, capacity);
    if s == |log| && s < capacity {
      PageCount(s, 0, s, capacity);
      assert false;
    }
  }

  /** It gives the whole rest of the log, if and only if it skips nothing or not a whole number of pages; otherwise it
      begins a page of items earlier, and without a page just closed it ends as much earlier. */
  lemma EnumeratesTheRest<T>(log: seq<T>, s: nat, capacity: nat, justClosed: bool)
    requires capacity > 0 && s < |log|
    ensures s == 0 || s % capacity != 0 ==> Enumerated(log, s, capacity, justClosed) == log[s..]
    ensures s > 0 && s % capacity == 0 ==>
              && capacity <= s
              && Enumerated(log, s, capacity, false) == log[s - capacity..|log| - capacity]
              && Enumerated(log, s, capacity, true) == log[s - capacity..]
  {
    LandsExactly(s, capacity);
    if s > 0 && s % capacity == 0 && s < capacity {
      PageCount(s, 0, s, capacity);
      assert false;
    }
  }

  /** What a client sees of an enumeration that it asks for from item `s` on: the rest of the log; from a positive
      multiple of the capacity on, items from a page earlier on; all of the log if it asks for more than there is in
      front, and nothing behind its end. */
  predicate Gives<T(==)>(log: seq<T>, s: int, capacity: nat, justClosed: bool, ready: bool, items: seq<T>)
    requires capacity > 0
  {
    && (log == [] || s > |log| || (s == |log| && s % capacity != 0) ==> !ready && items == [])
    && (log != [] && s <= 0 ==> ready && items == log)
    && (0 < s < |log| && s % capacity != 0 ==> ready && items == log[s..])
    && (0 < s <= |log| && s % capacity == 0 ==> ready && capacity <= s)
    && (0 < s <= |log| && s % capacity == 0 && justClosed ==> capacity <= s && items == log[s - capacity..])
    && (0 < s < |log| && s % capacity == 0 && !justClosed ==>
          capacity <= s && items == log[s - capacity..|log| - capacity])
    && (s == |log| > 0 && s % capacity == 0 && !justClosed ==> capacity <= s && items == [log[s - capacity]])
  }

  /** So it is for every number of items to skip, also if none are for want of so many. */
  lemma GivesEnumerated<T>(log: seq<T>, s: int, capacity: nat, justClosed: bool, ready: bool, items: seq<T>)
    requires capacity > 0 && (justClosed ==> |log| > 0)
    requires ready <==> Ready(log, if s > 0 then s else 0, capacity)
    requires if ready then items == Enumerated(log, if s > 0 then s else 0, capacity, justClosed) else items == []
    ensures Gives(log, s, capacity, justClosed, ready, items)
  {
    hide Landing;
    var skip := if s > 0 then s else 0;
    if ready {
      ReadyLands(log, skip, capacity);
      if skip < |log| { EnumeratesTheRest(log, skip, capacity, justClosed); }
      if skip > 0 && skip % capacity == 0 { LandsPageBefore(skip, capacity); }
    }
  }

  /** Number of items on page `j` of the history. */
  function ItemsOn(h: History, j: nat): nat
    requires j <= |h.closed|
  {
    if j < |h.closed| then |h.closed[j]| else |h.open|
  }

  /** Position in the retained log of the `i`-th item of page `j`. */
  function Position(h: History, pages: nat, capacity: nat, j: nat, i: nat): nat
    requires h.Oldest(pages) <= j
  {
    MulMonotone(0, j - h.Oldest(pages), capacity);
    (j - h.Oldest(pages)) * capacity + i
  }

  /** The item at a position of the log stands on the page and at the index that the position says. */
  lemma ItemAtPosition(h: History, pages: nat, capacity: nat, j: nat, i: nat)
    requires h.Paged(capacity) && h.Oldest(pages) <= j <= |h.closed| && i < ItemsOn(h, j)
    ensures var at := Position(h, pages, capacity, j, i);
            && at < |h.Retained(pages)|
            && h.Retained(pages)[at] == if j < |h.closed| then h.closed[j][i] else h.open[i]
  {
    hide Join, History.From, History.Oldest, History.Paged;
    var o := h.Oldest(pages);
    RetainedSplits(h, o, j, capacity);
    ItemOfPage(h, j, i);
    ItemBehind(h.From(o), (j - o) * capacity, i);
  }

  lemma ItemOfPage(h: History, j: nat, i: nat)
    requires j <= |h.closed| && i < ItemsOn(h, j)
    ensures i < |h.From(j)| && h.From(j)[i] == if j < |h.closed| then h.closed[j][i] else h.open[i]
  {
    if j < |h.closed| {
      SkipPage(h, j);
    } else {
      assert h.closed[j..] == [];
    }
  }

  lemma ItemBehind<T>(s: seq<T>, d: nat, i: nat)
    requires d <= |s| && i < |s[d..]|
    ensures d + i < |s| && s[d..][i] == s[d + i]
  {
  }

  /** The log from page `j` on is the log without the pages before it. */
  lemma {:induction false} RetainedSplits(h: History, o: nat, j: nat, capacity: nat)
    requires h.Paged(capacity) && o <= j <= |h.closed|
    ensures 0 <= (j - o) * capacity <= |h.From(o)|
    ensures h.From(j) == h.From(o)[(j - o) * capacity..]
  {
    hide Join;
    if o < j {
      RetainedSplits(h, o, j - 1, capacity);
      SkipPage(h, j - 1);
      assert (j - o) * capacity == (j - 1 - o) * capacity + capacity;
    }
  }

  /** The length of the retained log. */
  lemma RetainedLength(h: History, pages: nat, capacity: nat)
    requires h.Paged(capacity)
    ensures |h.Retained(pages)| == Position(h, pages, capacity, |h.closed|, |h.open|)
  {
    RetainedSplits(h, h.Oldest(pages), |h.closed|, capacity);
    assert h.closed[|h.closed|..] == [];
  }

  lemma PositionStep(h: History, pages: nat, capacity: nat, j: nat)
    requires h.Oldest(pages) <= j
    ensures Position(h, pages, capacity, j + 1, 0) == Position(h, pages, capacity, j, 0) + capacity
    ensures Position(h, pages, capacity, h.Oldest(pages), 0) == 0
  {
    var d := j - h.Oldest(pages);
    assert (d + 1) * capacity == d * capacity + capacity;
  }

  lemma PositionPlus(h: History, pages: nat, capacity: nat, j: nat, i: nat)
    requires h.Oldest(pages) <= j
    ensures Position(h, pages, capacity, j, i) == Position(h, pages, capacity, j, 0) + i
  {
  }

  lemma PositionOrder(h: History, pages: nat, capacity: nat, j: nat, j': nat)
    requires h.Oldest(pages) <= j < j'
    ensures Position(h, pages, capacity, j, 0) + capacity <= Position(h, pages, capacity, j', 0)
  {
    var o := h.Oldest(pages);
    MulMonotone(j + 1 - o, j' - o, capacity);
    assert (j + 1 - o) * capacity == (j - o) * capacity + capacity;
  }

  /** How far page `j` is from the end of the log. */
  lemma PositionsBefore(h: History, pages: nat, capacity: nat, j: nat)
    requires h.Paged(capacity) && h.Oldest(pages) <= j <= |h.closed|
    ensures var end := |h.Retained(pages)|;
            && Position(h, pages, capacity, |h.closed|, 0) + |h.open| == end
            && (j < |h.closed| ==>
                ItemsOn(h, j) == capacity && Position(h, pages, capacity, j, 0) + capacity + |h.open| <= end)
            && (j + 1 < |h.closed| ==> Position(h, pages, capacity, j + 1, 0) + capacity <= end)
  {
    RetainedLength(h, pages, capacity);
    PositionPlus(h, pages, capacity, |h.closed|, |h.open|);
    if j < |h.closed| { PositionOrder(h, pages, capacity, j, |h.closed|); }
    if j + 1 < |h.closed| { PositionOrder(h, pages, capacity, j + 1, |h.closed|); }
  }

  /** The two ways in which the search stops on a full page: inside the page, or on a multiple of the capacity that was
      counted on the page and led to the page a second time. */
  lemma LandsOnPage(h: History, pages: nat, capacity: nat, s: nat, j: nat, i: nat)
    requires h.Oldest(pages) <= j && capacity > 0 && i < capacity
    requires s == Position(h, pages, capacity, j, i)
    requires i > 0 || j == h.Oldest(pages)
    ensures Landing(s, capacity) == s
  {
    if i > 0 {
      LandingInside(j - h.Oldest(pages), i, s, capacity);
    } else {
      PositionStep(h, pages, capacity, j);
    }
  }

  lemma LandsOnPageBefore(h: History, pages: nat, capacity: nat, s: nat, j: nat)
    requires h.Oldest(pages) <= j && capacity > 0
    requires s == Position(h, pages, capacity, j + 1, 0)
    ensures Landing(s, capacity) == Position(h, pages, capacity, j, 0)
  {
    LandingOfMultiple(j + 1 - h.Oldest(pages), s, capacity);
  }
}
