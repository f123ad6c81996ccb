/**
 Rebuilding an item store after a reset: the pages are scanned in address order, and the
 newest and the oldest page are picked by comparing wrapped block ids.
 */
module Recovery {
  import opened Rings
  import opened FlashDriver
  import opened PageFormat
  import opened ItemLog
  import opened StoreImage

  /** The tags that a scan keeps. */
  datatype Ends = Ends(newest: PageBeginTag, oldest: PageBeginTag)

  function UpdateEnds(e: Ends, current: PageBeginTag, initialize: bool, nrOfPages: nat): Ends {
    if initialize then Ends(current, current)
    else if IsNewerBlock(current.blockId, e.newest.blockId, nrOfPages) then e.(newest := current)
    else if IsOlderBlock(current.blockId, e.oldest.blockId, nrOfPages) then e.(oldest := current)
    else e
  }

  predicate HasHeader(page: seq<DoubleWord>)
    requires |page| == PAGE_WORDS
  {
    !AllBlank(page[0..HEADER_WORDS])
  }

  predicate IsComplete(page: seq<DoubleWord>)
    requires |page| == PAGE_WORDS
  {
    page[1] != BLANK
  }

  lemma HeaderTagged(page: seq<DoubleWord>)
    requires |page| == PAGE_WORDS
    ensures HasHeader(page) <==> page[0] != BLANK || page[1] != BLANK
  {
    var header := page[0..HEADER_WORDS];
    assert header[0] == page[0] && header[1] == page[1];
  }

  ghost predicate Paged(layout: Layout, pages: seq<seq<DoubleWord>>) {
    && layout.Valid() && |pages| > LAST_WRITABLE_PAGE
    && forall p :: 0 <= p < |pages| ==> |pages[p]| == PAGE_WORDS
  }

  /** Newest and oldest tag after the first `n` pages of the store. Until a page with a header is
      seen both are the tag of a store that was never written. */
  ghost function ScanEnds(layout: Layout, pages: seq<seq<DoubleWord>>, n: nat): Ends
    requires Paged(layout, pages) && n <= layout.nrOfPages
  {
    if n == 0 then Ends(layout.BeginTag(0), layout.BeginTag(0))
    else
      var e, page := ScanEnds(layout, pages, n - 1), pages[layout.firstPage + n - 1];
      if HasHeader(page) then UpdateEnds(e, PageBeginTag.Unpack(page[0]), n == 1, layout.nrOfPages) else e
  }

  /** Number of pages marked complete among the first `n` pages of the store. */
  ghost function ScanFull(layout: Layout, pages: seq<seq<DoubleWord>>, n: nat): nat
    requires Paged(layout, pages) && n <= layout.nrOfPages
  {
    if n == 0 then 0
    else
      var page := pages[layout.firstPage + n - 1];
      ScanFull(layout, pages, n - 1) + if HasHeader(page) && IsComplete(page) then 1 else 0
  }

  // ---- which page is where ----

  /** What the scan meets at one page of the store. */
  datatype Seen = Free | InUse | Full(j: nat)

  /** Position `p` of the ring when page number `k` is the page in use. */
  function SeenAt(k: nat, n: nat, wrapDue: bool, p: nat): Seen
    requires n > 0 && p < n && Ring(k, n) <= k
    requires wrapDue ==> k >= n
  {
    var q := Ring(k, n);
    var base := k - q;
    if p < q then Full(base + p)
    else if p == q then (if wrapDue then Full(k - n) else InUse)
    else if base >= n then Full(base - n + p)
    else Free
  }

  lemma {:induction false} RingBase(k: nat, n: nat)
    requires n > 0
    ensures Ring(k, n) <= k && Ring(k - Ring(k, n), n) == 0
    ensures k - Ring(k, n) == 0 || k - Ring(k, n) >= n
    ensures k < n ==> Ring(k, n) == k
  {
    if k > 0 {
      RingBase(k - 1, n);
      if Ring(k, n) == 0 {
        RingBelow(k, n);
      }
    }
  }

  lemma RingBelow(k: nat, n: nat)
    requires n > 0 && k > 0 && Ring(k, n) == 0
    ensures k >= n
  {
    if k < n {
      RingSmall(k, n);
    }
  }

  /** The scan meets each page at its position of the ring, and nothing elsewhere. */
  lemma SeenIsThere(k: nat, n: nat, wrapDue: bool, p: nat)
    requires n > 0 && p < n && Ring(k, n) <= k
    requires wrapDue ==> k >= n
    ensures match SeenAt(k, n, wrapDue, p)
            case Full(j) =>
              && Ring(j, n) == p && j < k
              && j >= (if wrapDue then k - n else if k >= n then k - n + 1 else 0)
            case InUse => Ring(k, n) == p && !wrapDue
            case Free => k < p
  {
    hide Ring;
    RingBase(k, n);
    if p < Ring(k, n) {
      RingAdd(k - Ring(k, n), p, n);
    } else if p > Ring(k, n) && k - Ring(k, n) >= n {
      EarlierTurn(k, n, p);
    } else if wrapDue {
      RingPeriod(k - n, n);
    }
  }

  /** The positions behind the page in use hold the pages of the turn before. */
  lemma EarlierTurn(k: nat, n: nat, p: nat)
    requires n > 0 && Ring(k, n) < p < n && k - Ring(k, n) >= n
    ensures k - Ring(k, n) - n + p >= 0 && Ring(k - Ring(k, n) - n + p, n) == p
  {
    hide Ring;
    var base := k - Ring(k, n) - n;
    RingBase(k, n);
    RingPeriod(base, n);
    RingAdd(base, p, n);
  }

  /** The header that the scan reads at each position. */
  lemma HeaderSeen(layout: Layout, pages: seq<seq<DoubleWord>>, h: History, wrapDue: bool, p: nat)
    requires Paged(layout, pages) && layout.Holds(pages, h, wrapDue) && p < layout.nrOfPages
    ensures Ring(|h.closed|, layout.nrOfPages) <= |h.closed|
    ensures var page := pages[layout.firstPage + p];
            match SeenAt(|h.closed|, layout.nrOfPages, wrapDue, p)
            case Full(j) =>
              && HasHeader(page) && IsComplete(page) && j < |h.closed|
              && PageBeginTag.Unpack(page[0]) == layout.BeginTag(j)
              && PageCompleteTag.Unpack(page[1]) == layout.CompleteTag(j)
            case InUse =>
              && (h.open == [] ==> !HasHeader(page))
              && (h.open != [] ==>
                  && HasHeader(page) && !IsComplete(page) && page == layout.OpenPage(|h.closed|, h.open)
                  && PageBeginTag.Unpack(page[0]) == layout.BeginTag(|h.closed|))
            case Free => !HasHeader(page)
  {
    hide Layout.FullPage, Layout.OpenPage, PageBeginTag.Unpack, PageCompleteTag.Unpack, Ring, HasHeader;
    var k, n := |h.closed|, layout.nrOfPages;
    HeaderTagged(pages[layout.firstPage + p]);
    RingBase(k, n);
    SeenIsThere(k, n, wrapDue, p);
    match SeenAt(k, n, wrapDue, p)
    case Full(j) =>
      HeadersRead(layout, j, h.closed[j]);
      assert pages[layout.PageOf(j)] == layout.FullPage(j, h.closed[j]);
    case InUse =>
      HeadersRead(layout, k, h.open);
    case Free =>
      HeadersRead(layout, k, []);
      RingSmall(p, n);
      assert layout.PageOf(p) == layout.firstPage + p;
  }

  lemma {:induction false} ScanCountsFull(layout: Layout, pages: seq<seq<DoubleWord>>, h: History, wrapDue: bool,
                                          i: nat)
    requires Paged(layout, pages) && layout.Holds(pages, h, wrapDue) && i <= layout.nrOfPages
    ensures var k, n := |h.closed|, layout.nrOfPages;
            var q := Ring(k, n);
            && (i <= q ==> ScanFull(layout, pages, i) == i)
            && (i > q && k < n ==> ScanFull(layout, pages, i) == k)
            && (i > q && k >= n ==> ScanFull(layout, pages, i) == i - if wrapDue then 0 else 1)
  {
    hide Layout.Holds, HasHeader, IsComplete, Ring;
    RingBase(|h.closed|, layout.nrOfPages);
    if i > 0 {
      ScanCountsFull(layout, pages, h, wrapDue, i - 1);
      HeaderSeen(layout, pages, h, wrapDue, i - 1);
    }
  }

  // ---- the scan finds the newest and the oldest page ----

  /** Number of the oldest page on flash. */
  function First(h: History, n: nat, wrapDue: bool): nat
    requires n > 0 && (wrapDue ==> |h.closed| >= n)
  {
    if wrapDue then |h.closed| - n else h.Oldest(n)
  }

  /** One more than the number of the newest page on flash. */
  function Limit(h: History): nat {
    if h.open == [] then |h.closed| else |h.closed| + 1
  }

  /** Page number `j` is on flash and among the first `i` pages of the store. */
  predicate SeenBefore(layout: Layout, h: History, wrapDue: bool, i: nat, j: nat)
    requires layout.Valid() && (wrapDue ==> |h.closed| >= layout.nrOfPages)
  {
    First(h, layout.nrOfPages, wrapDue) <= j < Limit(h) && Ring(j, layout.nrOfPages) < i
  }

  /** The page that stands at position `p`, if any does. */
  lemma PageSeen(layout: Layout, pages: seq<seq<DoubleWord>>, h: History, wrapDue: bool, p: nat) returns (j: nat)
    requires Paged(layout, pages) && layout.Holds(pages, h, wrapDue) && p < layout.nrOfPages
    ensures var page := pages[layout.firstPage + p];
            HasHeader(page) ==>
              && First(h, layout.nrOfPages, wrapDue) <= j < Limit(h) && Ring(j, layout.nrOfPages) == p
              && PageBeginTag.Unpack(page[0]) == layout.BeginTag(j)
    ensures forall j' :: First(h, layout.nrOfPages, wrapDue) <= j' < Limit(h) && Ring(j', layout.nrOfPages) == p ==>
              HasHeader(pages[layout.firstPage + p]) && j' == j
  {
    hide HasHeader, IsComplete, PageBeginTag.Unpack, PageCompleteTag.Unpack, Layout.OpenPage, Layout.FullPage, Ring;
    var k, n := |h.closed|, layout.nrOfPages;
    HeaderSeen(layout, pages, h, wrapDue, p);
    SeenIsThere(k, n, wrapDue, p);
    match SeenAt(k, n, wrapDue, p)
    case Full(i) => j := i; OnePagePerPosition(h, n, wrapDue, p, j);
    case InUse => j := k; OnePagePerPosition(h, n, wrapDue, p, j);
    case Free =>
      j := p;
      RingSmall(p, n);
      forall j' | First(h, n, wrapDue) <= j' < Limit(h) && Ring(j', n) == p ensures false {
        RingSmall(j', n);
      }
  }

  lemma OnePagePerPosition(h: History, n: nat, wrapDue: bool, p: nat, j: nat)
    requires n > 0 && (wrapDue ==> |h.closed| >= n && h.open == [])
    requires First(h, n, wrapDue) <= j <= |h.closed| && Ring(j, n) == p && (wrapDue ==> j < |h.closed|)
    ensures forall j' :: First(h, n, wrapDue) <= j' < Limit(h) && Ring(j', n) == p ==> j' == j
  {
    forall j' | First(h, n, wrapDue) <= j' < Limit(h) && Ring(j', n) == p ensures j' == j {
      if j' < j { RingDistinct(j', j, n); }
      if j < j' { RingDistinct(j, j', n); }
    }
  }

  /** The pages on flash are at most one turn of the ring. */
  lemma OneTurn(layout: Layout, pages: seq<seq<DoubleWord>>, h: History, wrapDue: bool)
    requires layout.Valid() && layout.Holds(pages, h, wrapDue)
    ensures wrapDue ==> |h.closed| >= layout.nrOfPages && h.open == []
    ensures First(h, layout.nrOfPages, wrapDue) <= |h.closed|
    ensures Limit(h) <= First(h, layout.nrOfPages, wrapDue) + layout.nrOfPages
  {
  }

  /** The first page of the store decides whether a scan starts from a page that is on flash. */
  ghost predicate FirstPageUsed(layout: Layout, pages: seq<seq<DoubleWord>>)
    requires Paged(layout, pages)
  {
    HasHeader(pages[layout.firstPage])
  }

  /** Once the first page was seen, the scan holds the newest and the oldest of the pages seen so far. */
  lemma {:induction false} ScanTracksEnds(layout: Layout, pages: seq<seq<DoubleWord>>, h: History, wrapDue: bool,
                                          i: nat)
    returns (newest: nat, oldest: nat)
    requires Paged(layout, pages) && layout.Holds(pages, h, wrapDue)
    requires FirstPageUsed(layout, pages) && 1 <= i <= layout.nrOfPages
    ensures ScanEnds(layout, pages, i) == Ends(layout.BeginTag(newest), layout.BeginTag(oldest))
    ensures SeenBefore(layout, h, wrapDue, i, newest) && SeenBefore(layout, h, wrapDue, i, oldest)
    ensures forall j: nat :: SeenBefore(layout, h, wrapDue, i, j) ==> oldest <= j <= newest
  {
    hide Layout.Holds, HasHeader, PageBeginTag.Unpack, Ring, IsNewerBlock, IsOlderBlock;
    OneTurn(layout, pages, h, wrapDue);
    var j := PageSeen(layout, pages, h, wrapDue, i - 1);
    if i == 1 {
      newest, oldest := j, j;
    } else {
      newest, oldest := ScanTracksEnds(layout, pages, h, wrapDue, i - 1);
      if HasHeader(pages[layout.firstPage + i - 1]) {
        BlockOrderIsAge(j, newest, layout.nrOfPages, layout.maxBlockIndex);
        BlockOrderIsAge(j, oldest, layout.nrOfPages, layout.maxBlockIndex);
        newest, oldest := if j > newest then j else newest, if j < oldest then j else oldest;
      }
    }
    forall j': nat | SeenBefore(layout, h, wrapDue, i, j') ensures oldest <= j' <= newest {
      if Ring(j', layout.nrOfPages) < i - 1 {
        assert SeenBefore(layout, h, wrapDue, i - 1, j');
      }
    }
  }

  /** The scan ends with the newest and the oldest page on flash. */
  lemma ScanFindsEnds(layout: Layout, pages: seq<seq<DoubleWord>>, h: History, wrapDue: bool)
    requires Paged(layout, pages) && layout.Holds(pages, h, wrapDue) && FirstPageUsed(layout, pages)
    ensures Limit(h) > 0
    ensures ScanEnds(layout, pages, layout.nrOfPages)
         == Ends(layout.BeginTag(Limit(h) - 1), layout.BeginTag(First(h, layout.nrOfPages, wrapDue)))
  {
    hide Layout.Holds, HasHeader, Ring, ScanEnds;
    var newest, oldest := ScanTracksEnds(layout, pages, h, wrapDue, layout.nrOfPages);
    assert SeenBefore(layout, h, wrapDue, layout.nrOfPages, Limit(h) - 1);
    assert SeenBefore(layout, h, wrapDue, layout.nrOfPages, First(h, layout.nrOfPages, wrapDue));
  }

  // ---- what a restart rebuilds ----

  function PageAt(pages: seq<seq<DoubleWord>>, p: nat): seq<DoubleWord> {
    if p < |pages| then pages[p] else Blanks(PAGE_WORDS)
  }

  /** Next-write tag and oldest tag after a restart: if the newest page is complete, writing goes on on the page that it
      names, and if that page is still in use it is given up as the oldest one. */
  ghost function Recovered(layout: Layout, pages: seq<seq<DoubleWord>>): Ends
    requires Paged(layout, pages)
  {
    var e := ScanEnds(layout, pages, layout.nrOfPages);
    var completeTag := PageCompleteTag.Unpack(PageAt(pages, e.newest.pageId)[1]);
    if completeTag.magic != PAGE_MAGIC then e
    else
      var next := PageAt(pages, completeTag.nextPage);
      Ends(e.newest.(pageId := completeTag.nextPage, blockId := completeTag.nextPageId),
           if HasHeader(next) then PageBeginTag.Unpack(PageAt(pages, PageCompleteTag.Unpack(next[1]).nextPage)[0])
           else e.oldest)
  }

  /** What the store that is running with history `h` has in memory. */
  function Running(layout: Layout, h: History): Ends
    requires layout.Valid()
  {
    Ends(layout.BeginTag(|h.closed|), layout.BeginTag(h.Oldest(layout.nrOfPages)))
  }

  lemma BlankCompleteTag()
    ensures PageCompleteTag.Unpack(BLANK).magic != PAGE_MAGIC
    ensures Blanks(PAGE_WORDS)[1] == BLANK
  {
  }

  /** The first page is free only on a store that was never written and just after the ring went round. */
  lemma FirstPageFree(layout: Layout, pages: seq<seq<DoubleWord>>, h: History, wrapDue: bool)
    requires Paged(layout, pages) && layout.Holds(pages, h, wrapDue)
    ensures !FirstPageUsed(layout, pages) <==>
              h.open == [] && !wrapDue && Ring(|h.closed|, layout.nrOfPages) == 0
    ensures !FirstPageUsed(layout, pages) ==> h.closed == [] || |h.closed| >= layout.nrOfPages
  {
    hide HasHeader, IsComplete, PageBeginTag.Unpack, PageCompleteTag.Unpack, Layout.OpenPage, Layout.FullPage, Ring;
    RingBase(|h.closed|, layout.nrOfPages);
    HeaderSeen(layout, pages, h, wrapDue, 0);
  }

  /** After a scan that started from a page in use, the restart rebuilds what the running store has. */
  lemma RecoveredWhenFirstUsed(layout: Layout, pages: seq<seq<DoubleWord>>, h: History, wrapDue: bool)
    requires Paged(layout, pages) && layout.Holds(pages, h, wrapDue) && FirstPageUsed(layout, pages)
    ensures Recovered(layout, pages) == Running(layout, h)
  {
    hide HasHeader, IsComplete, PageBeginTag.Unpack, PageCompleteTag.Unpack, Layout.OpenPage, Layout.FullPage, Ring,
         Layout.Holds, ScanEnds;
    ScanFindsEnds(layout, pages, h, wrapDue);
    OneTurn(layout, pages, h, wrapDue);
    if h.open != [] {
      OpenPageSeen(layout, pages, h);
    } else {
      ClosedPageSeen(layout, pages, h, wrapDue, |h.closed| - 1);
      NextPageSeen(layout, pages, h, wrapDue);
    }
  }

  lemma OpenPageSeen(layout: Layout, pages: seq<seq<DoubleWord>>, h: History)
    requires Paged(layout, pages) && layout.Holds(pages, h, false) && h.open != []
    ensures pages[layout.PageOf(|h.closed|)][1] == BLANK
    ensures PageCompleteTag.Unpack(BLANK).magic != PAGE_MAGIC
  {
    HeadersRead(layout, |h.closed|, h.open);
    BlankCompleteTag();
    hide PageBeginTag.Unpack, PageCompleteTag.Unpack, Layout.OpenPage, Layout.FullPage, Ring;
  }

  lemma ClosedPageSeen(layout: Layout, pages: seq<seq<DoubleWord>>, h: History, wrapDue: bool, j: nat)
    requires Paged(layout, pages) && layout.Holds(pages, h, wrapDue)
    requires First(h, layout.nrOfPages, wrapDue) <= j < |h.closed|
    ensures HasHeader(pages[layout.PageOf(j)])
    ensures PageBeginTag.Unpack(pages[layout.PageOf(j)][0]) == layout.BeginTag(j)
    ensures PageCompleteTag.Unpack(pages[layout.PageOf(j)][1]) == layout.CompleteTag(j)
  {
    hide HasHeader, PageBeginTag.Unpack, PageCompleteTag.Unpack, Layout.OpenPage, Layout.FullPage, Ring;
    HeadersRead(layout, j, h.closed[j]);
    HeaderTagged(pages[layout.PageOf(j)]);
    if j < h.Oldest(layout.nrOfPages) {
      RingPeriod(j, layout.nrOfPages);
    }
  }

  /** The page after the newest complete one: free, or the page to give up. */
  lemma NextPageSeen(layout: Layout, pages: seq<seq<DoubleWord>>, h: History, wrapDue: bool)
    requires Paged(layout, pages) && layout.Holds(pages, h, wrapDue) && h.open == []
    ensures var next := pages[layout.PageOf(|h.closed|)];
            && (HasHeader(next) <==> wrapDue)
            && (wrapDue ==>
                PageBeginTag.Unpack(PageAt(pages, PageCompleteTag.Unpack(next[1]).nextPage)[0])
                == layout.BeginTag(h.Oldest(layout.nrOfPages)))
  {
    hide PageBeginTag.Unpack, PageCompleteTag.Unpack, Layout.OpenPage, Layout.FullPage, Ring, HasHeader;
    var k, n := |h.closed|, layout.nrOfPages;
    if wrapDue {
      RingPeriod(k - n, n);
      ClosedPageSeen(layout, pages, h, wrapDue, k - n);
      ClosedPageSeen(layout, pages, h, wrapDue, k - n + 1);
      assert layout.CompleteTag(k - n).nextPage == layout.PageOf(k - n + 1);
    } else {
      HeaderTagged(Blanks(PAGE_WORDS));
    }
  }

  // ---- a restart while the first page is free ----

  /** The ring has just gone round: the first page is free, and the others are full and hold the pages from number
      |h.closed| - nrOfPages + 1 on. */
  ghost predicate JustWrapped(layout: Layout, pages: seq<seq<DoubleWord>>, h: History) {
    && Paged(layout, pages) && layout.Holds(pages, h, false)
    && h.open == [] && |h.closed| >= layout.nrOfPages && Ring(|h.closed|, layout.nrOfPages) == 0
  }

  /** Block id of the second page of the store, the oldest one when the ring has just gone round. */
  function OldestBlock(layout: Layout, h: History): nat
    requires layout.Valid()
  {
    Ring(h.Oldest(layout.nrOfPages), layout.maxBlockIndex)
  }

  lemma WrappedStep(layout: Layout, pages: seq<seq<DoubleWord>>, h: History, i: nat)
    requires JustWrapped(layout, pages, h) && 1 <= i < layout.nrOfPages
    ensures ScanEnds(layout, pages, 1) == Ends(layout.BeginTag(0), layout.BeginTag(0))
    ensures ScanEnds(layout, pages, i + 1)
         == UpdateEnds(ScanEnds(layout, pages, i), layout.BeginTag(h.Oldest(layout.nrOfPages) + i - 1), false,
                       layout.nrOfPages)
    ensures Ring(0, layout.maxBlockIndex) == 0
    ensures var a, m := h.Oldest(layout.nrOfPages), layout.maxBlockIndex;
            Ring(a + i - 1, m) == if OldestBlock(layout, h) + i - 1 < m then OldestBlock(layout, h) + i - 1
                                  else OldestBlock(layout, h) + i - 1 - m
  {
    hide HasHeader, IsComplete, PageBeginTag.Unpack, PageCompleteTag.Unpack, Layout.OpenPage, Layout.FullPage,
         Layout.Holds, UpdateEnds;
    HeaderSeen(layout, pages, h, false, 0);
    HeaderSeen(layout, pages, h, false, i);
    RingAdd(h.Oldest(layout.nrOfPages), i - 1, layout.maxBlockIndex);
    assert h.Oldest(layout.nrOfPages) + i - 1 == h.Oldest(layout.nrOfPages) + (i - 1);
  }

  lemma {:induction false} WrappedScanLow(layout: Layout, pages: seq<seq<DoubleWord>>, h: History, i: nat)
    requires JustWrapped(layout, pages, h) && 1 <= i <= layout.nrOfPages
    requires OldestBlock(layout, h) < layout.nrOfPages
    ensures var found := i >= 3 || (i == 2 && OldestBlock(layout, h) > 0);
            var newest := if found then h.Oldest(layout.nrOfPages) + i - 2 else 0;
            ScanEnds(layout, pages, i) == Ends(layout.BeginTag(newest), layout.BeginTag(0))
  {
    hide HasHeader, Layout.Holds, Ring, ScanEnds;
    if i == 1 {
      WrappedStep(layout, pages, h, 1);
    } else {
      WrappedScanLow(layout, pages, h, i - 1);
      WrappedStep(layout, pages, h, i - 1);
      if i >= 3 {
        var a := h.Oldest(layout.nrOfPages);
        BlockOrderIsAge(a + i - 2, a + i - 3, layout.nrOfPages, layout.maxBlockIndex);
      }
    }
  }

  lemma {:induction false} WrappedScanAtCount(layout: Layout, pages: seq<seq<DoubleWord>>, h: History, i: nat)
    requires JustWrapped(layout, pages, h) && 1 <= i <= layout.nrOfPages
    requires OldestBlock(layout, h) == layout.nrOfPages
    ensures var a := h.Oldest(layout.nrOfPages);
            ScanEnds(layout, pages, i) == Ends(layout.BeginTag(0), layout.BeginTag(if i >= 3 then a + 1 else 0))
  {
    hide HasHeader, Layout.Holds, Ring, ScanEnds;
    if i == 1 {
      WrappedStep(layout, pages, h, 1);
    } else {
      WrappedScanAtCount(layout, pages, h, i - 1);
      WrappedStep(layout, pages, h, i - 1);
      if i >= 4 {
        var a := h.Oldest(layout.nrOfPages);
        BlockOrderIsAge(a + i - 2, a + 1, layout.nrOfPages, layout.maxBlockIndex);
      }
    }
  }

  lemma {:induction false} WrappedScanHigh(layout: Layout, pages: seq<seq<DoubleWord>>, h: History, i: nat)
    requires JustWrapped(layout, pages, h) && 1 <= i <= layout.nrOfPages
    requires OldestBlock(layout, h) > layout.nrOfPages
    ensures var a := h.Oldest(layout.nrOfPages);
            var newest := if OldestBlock(layout, h) + i >= layout.maxBlockIndex + 3 then a + i - 2 else 0;
            ScanEnds(layout, pages, i) == Ends(layout.BeginTag(newest), layout.BeginTag(if i >= 2 then a else 0))
  {
    hide HasHeader, Layout.Holds, Ring, ScanEnds;
    if i == 1 {
      WrappedStep(layout, pages, h, 1);
    } else {
      WrappedScanHigh(layout, pages, h, i - 1);
      WrappedStep(layout, pages, h, i - 1);
      if i >= 3 {
        var a := h.Oldest(layout.nrOfPages);
        BlockOrderIsAge(a + i - 2, a + i - 3, layout.nrOfPages, layout.maxBlockIndex);
        BlockOrderIsAge(a + i - 2, a, layout.nrOfPages, layout.maxBlockIndex);
      }
    }
  }

  /** The scan of a ring that has just gone round finds either the newest page or none, so a restart never takes a page
      in the middle for the newest one. */
  lemma WrappedNewest(layout: Layout, pages: seq<seq<DoubleWord>>, h: History)
    requires JustWrapped(layout, pages, h)
    ensures var newest := ScanEnds(layout, pages, layout.nrOfPages).newest;
            newest == layout.BeginTag(0) || newest == layout.BeginTag(|h.closed| - 1)
  {
    hide HasHeader, Layout.Holds, Ring, ScanEnds;
    if OldestBlock(layout, h) < layout.nrOfPages {
      WrappedScanLow(layout, pages, h, layout.nrOfPages);
    } else if OldestBlock(layout, h) == layout.nrOfPages {
      WrappedScanAtCount(layout, pages, h, layout.nrOfPages);
    } else {
      WrappedScanHigh(layout, pages, h, layout.nrOfPages);
    }
  }

  /** What a restart makes of the scan result when the first page is free. */
  lemma WrappedRecovered(layout: Layout, pages: seq<seq<DoubleWord>>, h: History)
    requires JustWrapped(layout, pages, h)
    ensures var e := ScanEnds(layout, pages, layout.nrOfPages);
            && (e.newest == layout.BeginTag(0) ==> Recovered(layout, pages) == e)
            && (e.newest == layout.BeginTag(|h.closed| - 1) ==>
                Recovered(layout, pages) == e.(newest := layout.BeginTag(|h.closed|)))
    ensures layout.PageOf(0) == layout.PageOf(|h.closed|)
    ensures layout.PageOf(h.Oldest(layout.nrOfPages)) == layout.firstPage + 1
    ensures layout.PageOf(|h.closed| - 1) != layout.PageOf(0)
    ensures layout.nrOfPages >= 3 ==> layout.PageOf(h.Oldest(layout.nrOfPages) + 1) != layout.firstPage + 1
  {
    hide HasHeader, IsComplete, PageBeginTag.Unpack, PageCompleteTag.Unpack, Layout.OpenPage, Layout.FullPage,
         ScanEnds, Ring, Layout.Holds;
    BlankCompleteTag();
    ClosedPageSeen(layout, pages, h, false, |h.closed| - 1);
    NextPageSeen(layout, pages, h, false);
    WrappedPages(layout, h);
    assert pages[layout.PageOf(|h.closed|)] == Blanks(PAGE_WORDS) by { FreeNextPage(layout, pages, h); }
  }

  lemma FreeNextPage(layout: Layout, pages: seq<seq<DoubleWord>>, h: History)
    requires Paged(layout, pages) && layout.Holds(pages, h, false) && h.open == []
    ensures pages[layout.PageOf(|h.closed|)] == Blanks(PAGE_WORDS)
  {
  }

  lemma WrappedPages(layout: Layout, h: History)
    requires layout.Valid() && |h.closed| >= layout.nrOfPages && Ring(|h.closed|, layout.nrOfPages) == 0
    ensures layout.PageOf(0) == layout.PageOf(|h.closed|)
    ensures layout.PageOf(h.Oldest(layout.nrOfPages)) == layout.firstPage + 1
    ensures layout.PageOf(|h.closed| - 1) != layout.PageOf(0)
    ensures layout.nrOfPages >= 3 ==> layout.PageOf(h.Oldest(layout.nrOfPages) + 1) != layout.firstPage + 1
  {
    var k, n := |h.closed|, layout.nrOfPages;
    RingPeriod(k - n, n);
    RingAdd(k - n, 1, n);
    RingDistinct(k - 1, k, n);
    if n >= 3 {
      RingDistinct(k - n + 1, k - n + 2, n);
    }
  }

  /** The block ids of the next page and of the oldest page tell how the pages on flash straddle the wrap of the ids. */
  lemma NextBlock(layout: Layout, h: History)
    requires layout.Valid() && |h.closed| >= layout.nrOfPages
    ensures var b, m := OldestBlock(layout, h), layout.maxBlockIndex;
            Ring(|h.closed|, m) == if b + layout.nrOfPages - 1 < m then b + layout.nrOfPages - 1
                                   else b + layout.nrOfPages - 1 - m
  {
    RingAdd(h.Oldest(layout.nrOfPages), layout.nrOfPages - 1, layout.maxBlockIndex);
    assert h.Oldest(layout.nrOfPages) + (layout.nrOfPages - 1) == |h.closed|;
  }

  /** When the first page is free, the restart is exact if and only if the block id of the next page is 0, or at
      least 2 and smaller than that of the oldest page. */
  lemma RecoveredWhenWrapped(layout: Layout, pages: seq<seq<DoubleWord>>, h: History)
    requires JustWrapped(layout, pages, h)
    ensures var next := Ring(|h.closed|, layout.maxBlockIndex);
            Recovered(layout, pages) == Running(layout, h) <==> next == 0 || 2 <= next < OldestBlock(layout, h)
  {
    hide HasHeader, Layout.Holds, Ring, ScanEnds, Recovered;
    var n := layout.nrOfPages;
    WrappedRecovered(layout, pages, h);
    NextBlock(layout, h);
    assert Ring(0, layout.maxBlockIndex) == 0 by { WrappedStep(layout, pages, h, 1); }
    if OldestBlock(layout, h) < n {
      WrappedScanLow(layout, pages, h, n);
    } else if OldestBlock(layout, h) == n {
      WrappedScanAtCount(layout, pages, h, n);
    } else {
      WrappedScanHigh(layout, pages, h, n);
    }
  }

  /** What the restart has in the end when the first page is free. Depending on the block id of the second page it takes
      the page to write to for a page never written, or the free page for the oldest one, or passes over a page. */
  lemma WrappedOutcome(layout: Layout, pages: seq<seq<DoubleWord>>, h: History)
    requires JustWrapped(layout, pages, h)
    ensures var b, a := OldestBlock(layout, h), h.Oldest(layout.nrOfPages);
            var n, m := layout.nrOfPages, layout.maxBlockIndex;
            var found := if b < n then n >= 3 || b > 0 else b > n && b + n >= m + 3;
            Recovered(layout, pages) ==
              Ends(layout.BeginTag(if found then |h.closed| else 0),
                   layout.BeginTag(if b < n then 0 else if b > n then a else if n >= 3 then a + 1 else 0))
  {
    hide HasHeader, Layout.Holds, Ring, ScanEnds, Recovered;
    var n := layout.nrOfPages;
    WrappedRecovered(layout, pages, h);
    if OldestBlock(layout, h) < n {
      WrappedScanLow(layout, pages, h, n);
    } else if OldestBlock(layout, h) == n {
      WrappedScanAtCount(layout, pages, h, n);
    } else {
      WrappedScanHigh(layout, pages, h, n);
    }
  }

  /** The failing side is reached by every store: right after the ring has gone round for the first time, a restart
      takes the page it will write next, which is erased, for the oldest page of the log. */
  lemma FirstWrapFails(layout: Layout, pages: seq<seq<DoubleWord>>, h: History)
    requires Paged(layout, pages) && layout.Holds(pages, h, false)
    requires h.open == [] && |h.closed| == layout.nrOfPages
    ensures Recovered(layout, pages) != Running(layout, h) && !Recoverable(layout, pages, h)
    ensures Recovered(layout, pages) == Ends(layout.BeginTag(|h.closed|), layout.BeginTag(0))
    ensures layout.BeginTag(0).pageId == layout.BeginTag(|h.closed|).pageId
    ensures pages[layout.BeginTag(0).pageId] == Blanks(PAGE_WORDS)
  {
    hide HasHeader, Layout.Holds, Ring, ScanEnds, Recovered, Recoverable;
    RingSmall(0, layout.nrOfPages);
    RingSmall(0, layout.maxBlockIndex);
    RingPeriod(0, layout.nrOfPages);
    RingSmall(1, layout.maxBlockIndex);
    FreeNextPage(layout, pages, h);
    WrappedOutcome(layout, pages, h);
    WrappedPages(layout, h);
    assert layout.BeginTag(0).pageId != layout.BeginTag(1).pageId;
    RecoveryIsExact(layout, pages, h, false);
  }

  lemma {:induction false} ScanOfNothing(layout: Layout, pages: seq<seq<DoubleWord>>, i: nat)
    requires Paged(layout, pages) && layout.Holds(pages, EMPTY, false) && i <= layout.nrOfPages
    ensures ScanEnds(layout, pages, i) == Ends(layout.BeginTag(0), layout.BeginTag(0))
  {
    hide HasHeader, PageBeginTag.Unpack, Layout.Holds, UpdateEnds;
    if i > 0 {
      ScanOfNothing(layout, pages, i - 1);
      HeaderSeen(layout, pages, EMPTY, false, i - 1);
      assert Ring(0, layout.nrOfPages) == 0;
    }
  }

  lemma RecoveredWhenEmpty(layout: Layout, pages: seq<seq<DoubleWord>>)
    requires Paged(layout, pages) && layout.Holds(pages, EMPTY, false)
    ensures Recovered(layout, pages) == Running(layout, EMPTY)
  {
    hide HasHeader, PageBeginTag.Unpack, PageCompleteTag.Unpack, ScanEnds;
    ScanOfNothing(layout, pages, layout.nrOfPages);
    BlankCompleteTag();
  }

  /** The condition for an exact restart; all of it can be read off the flash and the running store. */
  ghost predicate Recoverable(layout: Layout, pages: seq<seq<DoubleWord>>, h: History)
    requires Paged(layout, pages)
  {
    var next := Ring(|h.closed|, layout.maxBlockIndex);
    FirstPageUsed(layout, pages) || h.closed == [] || next == 0 || 2 <= next < OldestBlock(layout, h)
  }

  /**
     Recovery is exact, for every history and also when the reset came after a page was
     closed but before the oldest page was erased: a restart rebuilds the next-write page
     with its block id and the oldest page of the running store, if and only if the first
     page of the store is in use, nothing was ever closed, or the next block id is 0 or lies
     between 2 and the block id of the oldest page.
   */
  lemma RecoveryIsExact(layout: Layout, pages: seq<seq<DoubleWord>>, h: History, wrapDue: bool)
    requires Paged(layout, pages) && layout.Holds(pages, h, wrapDue)
    ensures Recovered(layout, pages) == Running(layout, h) <==> Recoverable(layout, pages, h)
  {
    hide HasHeader, Layout.Holds, Ring, Recovered;
    FirstPageFree(layout, pages, h, wrapDue);
    if FirstPageUsed(layout, pages) {
      RecoveredWhenFirstUsed(layout, pages, h, wrapDue);
    } else if h.closed == [] {
      assert h == EMPTY;
      RecoveredWhenEmpty(layout, pages);
    } else {
      RecoveredWhenWrapped(layout, pages, h);
    }
  }

  /** Where the page count divides the block modulus, as in both stores of the device, only next block id 0 is left. */
  lemma WrappedConditionWhenDividing(layout: Layout, h: History, turns: nat)
    requires layout.Valid() && |h.closed| >= layout.nrOfPages && Ring(|h.closed|, layout.nrOfPages) == 0
    requires layout.maxBlockIndex == turns * layout.nrOfPages
    ensures var next := Ring(|h.closed|, layout.maxBlockIndex);
            next == 0 || 2 <= next < OldestBlock(layout, h) <==> next == 0
  {
    var k, n, m := |h.closed|, layout.nrOfPages, layout.maxBlockIndex;
    NextBlock(layout, h);
    RingInRing(k, n, turns);
    var next := Ring(k, m);
    if 2 <= next < OldestBlock(layout, h) {
      RingSmall(next, n);
    }
  }

  /** A page in use whose items fill it but which has no complete tag, as power loss between the two writes leaves it.
      The scan closes it when it comes across it. As long as the ring has not gone round, the next page is free and the
      scan has the ends of the running store. Later on the next page holds the oldest items and is complete. Closing
      then asserts that it is the oldest page seen so far, which holds if and only if the scan is at its end; and its
      erase is pending when the last step of the restart comes to a complete page and asks for another erase. */
  lemma FullPageWithoutTag(layout: Layout, pages: seq<seq<DoubleWord>>, h: History)
    requires Paged(layout, pages) && layout.Holds(pages, h, false) && h.open != []
    ensures var k, n := |h.closed|, layout.nrOfPages;
            var e, next := ScanEnds(layout, pages, Ring(k, n) + 1), pages[layout.PageOf(k + 1)];
            && e.newest == layout.BeginTag(k)
            && (HasHeader(next) <==> k + 1 >= n)
            && (k + 1 < n ==> e.oldest == Running(layout, h.Close()).oldest)
            && (k + 1 >= n ==>
                && (e.oldest.pageId == layout.PageOf(k + 1) <==> Ring(k, n) + 1 == n)
                && PageCompleteTag.Unpack(next[1]).magic == PAGE_MAGIC)
  {
    hide HasHeader, Layout.Holds, Ring, ScanEnds, PageBeginTag.Unpack, PageCompleteTag.Unpack;
    var k, n := |h.closed|, layout.nrOfPages;
    RingBase(k, n);
    FirstPageFree(layout, pages, h, false);
    var newest, oldest := ScanTracksEnds(layout, pages, h, false, Ring(k, n) + 1);
    assert SeenBefore(layout, h, false, Ring(k, n) + 1, k);
    assert SeenBefore(layout, h, false, Ring(k, n) + 1, k - Ring(k, n));
    if k + 1 < n {
      NothingBeyond(layout, pages, h);
    } else {
      TurnBegins(k, n, oldest);
      ClosedPageSeen(layout, pages, h, false, k + 1 - n);
      RingPeriod(k + 1 - n, n);
    }
  }

  /** Among the pages up to the newest one's position the oldest is the first of its turn. */
  lemma TurnBegins(k: nat, n: nat, oldest: nat)
    requires n >= 2 && k + 1 - n <= oldest && Ring(oldest, n) <= Ring(k, n) <= k && oldest <= k - Ring(k, n)
    ensures oldest == k - Ring(k, n) && Ring(oldest, n) == 0
    ensures Ring(k + 1, n) == if Ring(k, n) + 1 == n then 0 else Ring(k, n) + 1
  {
    hide Ring;
    RingBase(k, n);
    RingAdd(k, 1, n);
    RingAdd(oldest, k - Ring(k, n) - oldest, n);
  }

  lemma NothingBeyond(layout: Layout, pages: seq<seq<DoubleWord>>, h: History)
    requires Paged(layout, pages) && layout.Holds(pages, h, false) && |h.closed| + 1 < layout.nrOfPages
    ensures !HasHeader(pages[layout.PageOf(|h.closed| + 1)])
  {
    hide Ring;
    HeadersRead(layout, 0, []);
    HeaderTagged(pages[layout.PageOf(|h.closed| + 1)]);
  }

  /** Where the scan leaves a restart before its last step: writing goes on on the page it found, or that page is
      complete and is the last one that was closed. */
  lemma ScanOutcome(layout: Layout, pages: seq<seq<DoubleWord>>, h: History, wrapDue: bool)
    requires Paged(layout, pages) && layout.Holds(pages, h, wrapDue)
    ensures var e := ScanEnds(layout, pages, layout.nrOfPages);
            && layout.Owns(e.newest.pageId)
            && var completeTag := PageCompleteTag.Unpack(pages[e.newest.pageId][1]);
            && (completeTag.magic != PAGE_MAGIC ==> !wrapDue)
            && (completeTag.magic == PAGE_MAGIC ==>
                && h.open == [] && h.closed != [] && completeTag == layout.CompleteTag(|h.closed| - 1)
                && e.newest == layout.BeginTag(|h.closed| - 1)
                && (wrapDue ==> e.oldest == layout.BeginTag(|h.closed| - layout.nrOfPages)))
  {
    hide HasHeader, Layout.Holds, Ring, ScanEnds, PageBeginTag.Unpack, PageCompleteTag.Unpack;
    FirstPageFree(layout, pages, h, wrapDue);
    OneTurn(layout, pages, h, wrapDue);
    if FirstPageUsed(layout, pages) {
      ScanFindsEnds(layout, pages, h, wrapDue);
      if h.open != [] {
        OpenPageSeen(layout, pages, h);
      } else {
        ClosedPageSeen(layout, pages, h, wrapDue, |h.closed| - 1);
      }
    } else {
      BlankCompleteTag();
      FreeNextPage(layout, pages, h);
      if h.closed == [] {
        ScanOfNothing(layout, pages, layout.nrOfPages);
      } else {
        WrappedNewest(layout, pages, h);
        WrappedPages(layout, h);
        ClosedPageSeen(layout, pages, h, wrapDue, |h.closed| - 1);
      }
    }
  }

  lemma RecoveredFromScan(layout: Layout, pages: seq<seq<DoubleWord>>, h: History, wrapDue: bool)
    requires Paged(layout, pages) && layout.Holds(pages, h, wrapDue)
    ensures var e := ScanEnds(layout, pages, layout.nrOfPages);
            Recovered(layout, pages) ==
              if PageCompleteTag.Unpack(PageAt(pages, e.newest.pageId)[1]).magic != PAGE_MAGIC then e
              else Ends(layout.BeginTag(|h.closed|),
                        if wrapDue then layout.BeginTag(h.Oldest(layout.nrOfPages)) else e.oldest)
  {
    hide HasHeader, Layout.Holds, Ring, ScanEnds, PageBeginTag.Unpack, PageCompleteTag.Unpack;
    ScanOutcome(layout, pages, h, wrapDue);
    if h.open == [] {
      NextPageSeen(layout, pages, h, wrapDue);
    }
  }

  /** A scan starts from the tag of a store that was never written. */
  lemma ScanStart(layout: Layout, pages: seq<seq<DoubleWord>>)
    requires Paged(layout, pages)
    ensures var tag := PageBeginTag(PAGE_MAGIC, layout.firstPage, 0, layout.itemId, 8 * layout.itemWords);
            ScanEnds(layout, pages, 0) == Ends(tag, tag) && ScanFull(layout, pages, 0) == 0
  {
  }

  /** Number of items that a restart counts on a page in use: those before the first that reads as erased. */
  function Counted(items: seq<Item>): (n: nat)
    ensures n <= |items| && (forall i :: 0 <= i < n ==> !AllBlank(items[i])) && (n < |items| ==> AllBlank(items[n]))
  {
    if items == [] || AllBlank(items[0]) then 0 else 1 + Counted(items[1..])
  }

  /** It counts all of them if and only if none is all ones. */
  lemma CountedAll(items: seq<Item>)
    ensures Counted(items) == |items| <==> forall i :: 0 <= i < |items| ==> !AllBlank(items[i])
  {
  }

  lemma CountedIs(items: seq<Item>, n: nat)
    requires n <= |items| && (forall i :: 0 <= i < n ==> !AllBlank(items[i])) && (n < |items| ==> AllBlank(items[n]))
    ensures n == Counted(items)
  {
  }

  /** What reading the slots of a page in use gives: its items, then an erased slot. */
  lemma SlotsRead(layout: Layout, j: nat, items: seq<Item>, n: nat)
    requires layout.Valid() && |items| < layout.Capacity() && n <= |items|
    requires forall i :: 0 <= i < |items| ==> layout.ValidItem(items[i])
    ensures layout.Slot(0) == HEADER_WORDS && layout.Slot(n + 1) == layout.Slot(n) + layout.itemWords
    ensures layout.Slot(n) + layout.itemWords <= PAGE_WORDS
    ensures var slot := layout.OpenPage(j, items)[layout.Slot(n)..layout.Slot(n) + layout.itemWords];
            if n < |items| then slot == items[n] else AllBlank(slot)
  {
    hide PageBeginTag.Pack, Layout.Capacity, Body, Flat;
    var w := layout.itemWords;
    assert (n + 1) * w == n * w + w;
    layout.CapacityFits();
    MulMonotone(n + 1, layout.Capacity(), w);
    BodySlots(layout, items);
    assert layout.OpenPage(j, items)[layout.Slot(n)..layout.Slot(n) + w] == Body(items)[n * w..n * w + w];
    if n == |items| {
      FlatLength(items, w);
      assert Body(items)[n * w..n * w + w] == Blanks(BODY_WORDS - n * w)[..w];
    }
  }

  /** All that the scan of position `i` comes across. */
  lemma PageScanned(layout: Layout, pages: seq<seq<DoubleWord>>, h: History, wrapDue: bool, i: nat)
    requires Paged(layout, pages) && layout.Holds(pages, h, wrapDue) && i < layout.nrOfPages
    ensures var page, p, k := pages[layout.firstPage + i], layout.firstPage + i, |h.closed|;
            var begin, complete := PageBeginTag.Unpack(page[0]), PageCompleteTag.Unpack(page[1]);
            var atWritePage := Ring(k, layout.nrOfPages) == i;
            && (!HasHeader(page) && atWritePage ==> h.open == [])
            && (HasHeader(page) ==>
                begin.magic == PAGE_MAGIC && begin.pageId == p && begin.itemSize == 8 * layout.itemWords
                && begin.itemId == layout.itemId)
            && (HasHeader(page) && IsComplete(page) ==>
                && complete.magic == PAGE_MAGIC && complete.nrOfItems == layout.Capacity()
                && complete.nextPage == layout.NextPageNr(p)
                && (atWritePage ==> h.open == []))
            && (HasHeader(page) && !IsComplete(page) ==>
                atWritePage && h.open != [] && page == layout.OpenPage(k, h.open))
  {
    hide Layout.FullPage, Layout.OpenPage, Layout.Holds, Layout.Capacity, Ring, HasHeader, IsComplete,
         PageBeginTag.Unpack, PageCompleteTag.Unpack;
    OneTurn(layout, pages, h, wrapDue);
    HeaderSeen(layout, pages, h, wrapDue, i);
    SeenIsThere(|h.closed|, layout.nrOfPages, wrapDue, i);
    match SeenAt(|h.closed|, layout.nrOfPages, wrapDue, i)
    case Full(j) => layout.NextPageIsNext(j);
    case _ =>
  }

  lemma ScanTotal(layout: Layout, pages: seq<seq<DoubleWord>>, h: History, wrapDue: bool)
    requires Paged(layout, pages) && layout.Holds(pages, h, wrapDue)
    ensures ScanFull(layout, pages, layout.nrOfPages)
         == |h.closed| - h.Oldest(layout.nrOfPages) + if wrapDue then 1 else 0
  {
    hide Layout.Holds, Ring, ScanFull;
    OneTurn(layout, pages, h, wrapDue);
    ScanCountsFull(layout, pages, h, wrapDue, layout.nrOfPages);
  }

  /** What an enumeration reads in the header of page number `j`. */
  lemma HeaderOfPage(layout: Layout, pages: seq<seq<DoubleWord>>, h: History, j: nat)
    requires Paged(layout, pages) && layout.Holds(pages, h, false)
    requires h.Oldest(layout.nrOfPages) <= j <= |h.closed|
    ensures var begin, complete := PageBeginTag.Unpack(pages[layout.PageOf(j)][0]),
                                   PageCompleteTag.Unpack(pages[layout.PageOf(j)][1]);
            && (j < |h.closed| ==> begin == layout.BeginTag(j) && complete == layout.CompleteTag(j))
            && (j == |h.closed| && h.open != [] ==> begin == layout.BeginTag(j) && complete.magic != PAGE_MAGIC)
            && (j == |h.closed| && h.open == [] ==> begin.magic != PAGE_MAGIC)
    ensures j < |h.closed| ==> layout.PageOf(j) != layout.PageOf(|h.closed|)
  {
    hide PageBeginTag.Unpack, PageCompleteTag.Unpack, Layout.OpenPage, Layout.FullPage, HasHeader;
    if j < |h.closed| {
      ClosedPageSeen(layout, pages, h, false, j);
      RingDistinct(j, |h.closed|, layout.nrOfPages);
    } else if h.open != [] {
      HeadersRead(layout, j, h.open);
      OpenPageSeen(layout, pages, h);
    } else {
      FreeNextPage(layout, pages, h);
      assert Blanks(PAGE_WORDS)[0] == BLANK;
      BlankBeginTag();
    }
  }

  lemma BlankBeginTag()
    ensures PageBeginTag.Unpack(BLANK).magic != PAGE_MAGIC
  {
  }
}
