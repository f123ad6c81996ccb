/**
 The log that an item store keeps: every item ever added, cut into pages of fixed
 capacity, of which the ring of flash pages retains the newest.
 */
module ItemLog {
  import opened Rings
  import opened FlashDriver

  /** The double words of one item. */
  type Item = seq<DoubleWord>

  /** All items ever added: the pages that were filled and closed, and the page in use. */
  datatype History = History(closed: seq<seq<Item>>, open: seq<Item>) {

    /** Closed pages are full and the open page is not. */
    ghost predicate Paged(capacity: nat) {
      (forall j :: 0 <= j < |closed| ==> |closed[j]| == capacity) && |open| < capacity
    }

    /** The item is written to the page in use. */
    function Append(x: Item): History {
      History(closed, open + [x])
    }

    /** The page in use is closed. */
    function Close(): History {
      History(closed + [open], [])
    }

    /** An item is added and its page closed if that filled it. */
    function Add(x: Item, capacity: nat): History {
      if |open| + 1 < capacity then Append(x) else Append(x).Close()
    }

    /** Number of the oldest page that a ring of `pages` pages keeps: the page after the one in use is always free. */
    function Oldest(pages: nat): (j: nat)
      ensures j <= |closed|
      ensures pages > 0 && |closed| >= pages ==> j + pages == |closed| + 1
    {
      if |closed| < pages || pages == 0 then 0 else |closed| - pages + 1
    }

    /** Every item ever added, in order. */
    function All(): seq<Item> {
      Join(closed) + open
    }

    /** The items on flash, oldest page to newest. */
    function Retained(pages: nat): seq<Item> {
      From(Oldest(pages))
    }

    /** The items of page `j` and all later pages. */
    function From(j: nat): seq<Item>
      requires j <= |closed|
    {
      Join(closed[j..]) + open
    }
  }

  const EMPTY: History := History([], [])

  function Join<T>(pages: seq<seq<T>>): seq<T> {
    if pages == [] then [] else pages[0] + Join(pages[1..])
  }

  function AddAll(h: History, xs: seq<Item>, capacity: nat): History {
    if xs == [] then h else AddAll(h, xs[..|xs| - 1], capacity).Add(xs[|xs| - 1], capacity)
  }

  lemma {:induction false} JoinConcat<T>(a: seq<seq<T>>, b: seq<seq<T>>)
    ensures Join(a + b) == Join(a) + Join(b)
  {
    if a == [] {
      assert a + b == b;
    } else {
      JoinConcat(a[1..], b);
      assert (a + b)[1..] == a[1..] + b;
      assert (a + b)[0] == a[0];
    }
  }

  lemma JoinOne<T>(a: seq<T>)
    ensures Join([a]) == a
  {
    assert Join([a]) == a + Join([]);
  }

  lemma {:induction false} JoinLength<T>(pages: seq<seq<T>>, capacity: nat)
    requires forall j :: 0 <= j < |pages| ==> |pages[j]| == capacity
    ensures |Join(pages)| == |pages| * capacity
  {
    if pages != [] {
      JoinLength(pages[1..], capacity);
      assert |pages| * capacity == (|pages| - 1) * capacity + capacity;
    }
  }

  /** An add appends to the items ever added and keeps the paging. */
  lemma AddAppends(h: History, x: Item, capacity: nat)
    requires h.Paged(capacity)
    ensures h.Add(x, capacity).Paged(capacity)
    ensures h.Add(x, capacity).All() == h.All() + [x]
  {
    JoinConcat(h.closed, [h.open + [x]]);
    JoinOne(h.open + [x]);
  }

  lemma ClosingKeeps(h: History, j: nat)
    requires j <= |h.closed|
    ensures h.Close().From(j) == h.From(j)
  {
    assert (h.closed + [h.open])[j..] == h.closed[j..] + [h.open];
    JoinConcat(h.closed[j..], [h.open]);
    JoinOne(h.open);
  }

  lemma SkipPage(h: History, j: nat)
    requires j < |h.closed|
    ensures h.From(j) == h.closed[j] + h.From(j + 1)
  {
    assert h.closed[j..] == [h.closed[j]] + h.closed[j + 1..];
  }

  /** What one add does to the retained items: it appends the new item, and when it fills a page while the
      ring has no other free page it also drops the items of the oldest page, as many as a page holds. */
  lemma AddRetains(h: History, x: Item, pages: nat, capacity: nat)
    requires h.Paged(capacity) && pages >= 2
    ensures var h' := h.Add(x, capacity);
            var drops := |h'.closed| > |h.closed| && |h.closed| + 1 >= pages;
            && (drops ==> |h.Retained(pages)| >= capacity)
            && h'.Retained(pages) == (if drops then h.Retained(pages)[capacity..] else h.Retained(pages)) + [x]
  {
    hide Join;
    var j := h.Oldest(pages);
    if |h.open| + 1 >= capacity {
      if |h.closed| + 1 >= pages {
        ClosingKeeps(h.Append(x), j + 1);
        SkipPage(h, j);
        assert h.From(j)[capacity..] == h.From(j + 1);
      } else {
        ClosingKeeps(h.Append(x), j);
      }
    }
  }

  /** Number of items dropped after `n` adds: whole pages, from the moment the ring has no free page left. */
  function Dropped(n: nat, pages: nat, capacity: nat): nat
    requires capacity > 0
  {
    if n / capacity < pages then 0 else (n / capacity - pages + 1) * capacity
  }

  lemma {:induction false} AddAllPaged(xs: seq<Item>, capacity: nat)
    requires capacity > 0
    ensures var h := AddAll(EMPTY, xs, capacity); h.Paged(capacity) && h.All() == xs
  {
    if xs == [] {
      assert EMPTY.All() == [];
    } else {
      var before := xs[..|xs| - 1];
      AddAllPaged(before, capacity);
      AddAppends(AddAll(EMPTY, before, capacity), xs[|xs| - 1], capacity);
      assert xs == before + [xs[|xs| - 1]];
    }
  }

  /** The store is a bounded log: after any adds the items kept are exactly a suffix of the items added, whole
      pages are missing from the front, and nothing is missing before the ring first wraps. */
  lemma RetainedIsSuffix(xs: seq<Item>, pages: nat, capacity: nat)
    requires pages >= 2 && capacity > 0
    ensures var d := Dropped(|xs|, pages, capacity);
            && d <= |xs|
            && AddAll(EMPTY, xs, capacity).Retained(pages) == xs[d..]
            && (|xs| < pages * capacity ==> d == 0)
  {
    hide Join, AddAll;
    var h := AddAll(EMPTY, xs, capacity);
    AddAllPaged(xs, capacity);
    var j := h.Oldest(pages);
    HistorySplits(h, j, capacity);
    HistorySplits(h, |h.closed|, capacity);
    PageCount(|xs|, |h.closed|, |h.open|, capacity);
    if |xs| < pages * capacity && |h.closed| >= pages {
      MulMonotone(pages, |h.closed|, capacity);
      assert false;
    }
  }

  /** The items before page `j` fill `j` pages, the items from page `j` on are the rest. */
  lemma HistorySplits(h: History, j: nat, capacity: nat)
    requires h.Paged(capacity) && j <= |h.closed|
    ensures j * capacity <= |h.All()| && h.From(j) == h.All()[j * capacity..]
    ensures j == |h.closed| ==> |h.All()| == j * capacity + |h.open|
  {
    assert h.closed == h.closed[..j] + h.closed[j..];
    JoinConcat(h.closed[..j], h.closed[j..]);
    JoinLength(h.closed[..j], capacity);
    assert h.All() == Join(h.closed[..j]) + h.From(j);
    assert j == |h.closed| ==> Join<Item>(h.closed[j..]) == [];
  }

  lemma PageCount(n: nat, k: nat, m: nat, capacity: nat)
    requires n == k * capacity + m && m < capacity
    ensures n / capacity == k && n % capacity == m
  {
    ModUnique(n, capacity, k, m);
    var d := k - n / capacity;
    assert capacity * d == capacity * k - capacity * (n / capacity);
    MulGrows(capacity, d);
  }

  lemma {:induction false} MulMonotone(a: nat, b: nat, c: nat)
    requires a <= b
    ensures a * c <= b * c
  {
    if a < b {
      MulMonotone(a, b - 1, c);
      assert b * c == (b - 1) * c + c;
    }
  }
}
