/**
 The flash image of an item store: which double words stand on its pages after any history
 of adds. The image is a function of the history, so it fixes the content of every page of
 the store, headers and free space included.
 */
module StoreImage {
  import opened Rings
  import opened FlashDriver
  import opened PageFormat
  import opened ItemLog

  /** Double words of a page that hold items. */
  const BODY_WORDS: nat := PAGE_WORDS - HEADER_WORDS

  /** The constants of one item store. */
  datatype Layout = Layout(firstPage: nat, nrOfPages: nat, itemId: nat, itemWords: nat, maxBlockIndex: nat) {

    /** The store lies in the writable pages, has a page to spare, its items fit a byte-sized item size, and the block
        ids run long enough to order all pages. */
    predicate Valid() {
      && FIRST_WRITABLE_PAGE <= firstPage && LastPage() <= LAST_WRITABLE_PAGE
      && nrOfPages >= 2
      && itemId < 2
      && 1 <= itemWords <= 31
      && 2 * nrOfPages <= maxBlockIndex <= 256
    }

    function LastPage(): int {
      firstPage + nrOfPages - 1
    }

    predicate Owns(page: nat) {
      firstPage <= page <= LastPage()
    }

    /** Number of items that fit a page. */
    function Capacity(): nat
      requires itemWords > 0
    {
      BODY_WORDS / itemWords
    }

    /** The offset of the `n`-th item slot of a page. */
    function Slot(n: nat): nat {
      HEADER_WORDS + n * itemWords
    }

    lemma CapacityFits()
      requires itemWords > 0
      ensures Capacity() * itemWords <= BODY_WORDS < Capacity() * itemWords + itemWords
    {
    }

    /** As many items as all pages hold. */
    predicate Fills(items: nat) {
      itemWords > 0 && items == nrOfPages * Capacity()
    }

    /** The macro NEXT_PAGE_NR. */
    function NextPageNr(page: nat): nat {
      if page + 1 > LastPage() then firstPage else page + 1
    }

    /** The flash page that the `j`-th page ever opened lives on. */
    function PageOf(j: nat): (p: nat)
      requires nrOfPages > 0
      ensures Owns(p)
    {
      firstPage + Ring(j, nrOfPages)
    }

    function BeginTag(j: nat): (t: PageBeginTag)
      requires Valid()
      ensures t.InRange()
    {
      PageBeginTag(PAGE_MAGIC, PageOf(j), Ring(j, maxBlockIndex), itemId, 8 * itemWords)
    }

    function CompleteTag(j: nat): (t: PageCompleteTag)
      requires Valid()
      ensures t.InRange()
    {
      CapacityBounds();
      PageCompleteTag(PAGE_MAGIC, Capacity(), PageOf(j + 1), Ring(j + 1, maxBlockIndex))
    }

    /** A page in use holds more than one item, and no count of a store leaves its 16 bits. */
    lemma CapacityBounds()
      requires Valid()
      ensures 16 <= Capacity() <= BODY_WORDS
      ensures (nrOfPages + 1) * Capacity() < 0x1_0000
    {
      CapacityFits();
      MulMonotone(1, itemWords, Capacity());
      if Capacity() < 16 {
        MulMonotone(Capacity() + 1, 16, itemWords);
        assert false;
      }
      MulMonotone(nrOfPages + 1, 35, Capacity());
    }

    lemma NextPageIsNext(j: nat)
      requires Valid()
      ensures NextPageNr(PageOf(j)) == PageOf(j + 1)
    {
    }

    ghost predicate ValidItem(x: Item) {
      |x| == itemWords
    }

    ghost predicate ValidHistory(h: History)
      requires Valid()
    {
      && h.Paged(Capacity())
      && (forall j, i :: 0 <= j < |h.closed| && 0 <= i < |h.closed[j]| ==> ValidItem(h.closed[j][i]))
      && (forall i :: 0 <= i < |h.open| ==> ValidItem(h.open[i]))
    }

    // ---- page contents ----

    /** The page that was opened as number `j` and holds `items` so far. */
    function OpenPage(j: nat, items: seq<Item>): (p: seq<DoubleWord>)
      requires Valid()
      ensures |p| == PAGE_WORDS
    {
      [BeginTag(j).Pack(), BLANK] + Body(items)
    }

    /** The same page after it was closed. */
    function FullPage(j: nat, items: seq<Item>): (p: seq<DoubleWord>)
      requires Valid()
      ensures |p| == PAGE_WORDS
    {
      [BeginTag(j).Pack(), CompleteTag(j).Pack()] + Body(items)
    }

    /** The page in use is still erased until its first item is added; when `wrapDue` it still holds the oldest page. */
    function WritePage(h: History, wrapDue: bool): (p: seq<DoubleWord>)
      requires Valid()
      requires wrapDue ==> |h.closed| >= nrOfPages
      ensures |p| == PAGE_WORDS
    {
      if h.open != [] then OpenPage(|h.closed|, h.open)
      else if wrapDue then FullPage(|h.closed| - nrOfPages, h.closed[|h.closed| - nrOfPages])
      else Blanks(PAGE_WORDS)
    }

    /** The closed pages that the ring keeps are on flash. */
    ghost predicate HoldsClosed(pages: seq<seq<DoubleWord>>, h: History)
      requires Valid() && |pages| > LAST_WRITABLE_PAGE
    {
      forall j :: h.Oldest(nrOfPages) <= j < |h.closed| ==> pages[PageOf(j)] == FullPage(j, h.closed[j])
    }

    /** The pages beyond page `k` that no page was opened on yet are erased. */
    ghost predicate FreeBeyond(pages: seq<seq<DoubleWord>>, k: nat)
      requires Valid() && |pages| > LAST_WRITABLE_PAGE
    {
      forall j :: k < j < nrOfPages ==> pages[PageOf(j)] == Blanks(PAGE_WORDS)
    }

    /**
     The pages of the store hold exactly what the history `h` leaves on them. With `wrapDue`
     the erase of the oldest page, which makes room for the next one, is still outstanding.
     */
    ghost predicate Holds(pages: seq<seq<DoubleWord>>, h: History, wrapDue: bool)
      requires Valid()
    {
      && |pages| > LAST_WRITABLE_PAGE
      && (wrapDue ==> |h.closed| >= nrOfPages && h.open == [])
      && HoldsClosed(pages, h)
      && pages[PageOf(|h.closed|)] == WritePage(h, wrapDue)
      && FreeBeyond(pages, |h.closed|)
    }
  }

  function Flat(items: seq<Item>): seq<DoubleWord> {
    if items == [] then [] else Flat(items[..|items| - 1]) + items[|items| - 1]
  }

  function Body(items: seq<Item>): (b: seq<DoubleWord>)
    ensures |b| == BODY_WORDS
  {
    (Flat(items) + Blanks(BODY_WORDS))[..BODY_WORDS]
  }

  lemma {:induction false} FlatLength(items: seq<Item>, w: nat)
    requires forall i :: 0 <= i < |items| ==> |items[i]| == w
    ensures |Flat(items)| == |items| * w
  {
    if items != [] {
      FlatLength(items[..|items| - 1], w);
      assert |items| * w == (|items| - 1) * w + w;
    }
  }

  lemma {:induction false} FlatAt(items: seq<Item>, w: nat, i: nat)
    requires forall n :: 0 <= n < |items| ==> |items[n]| == w
    requires i < |items|
    ensures 0 <= i * w <= i * w + w <= |Flat(items)|
    ensures Flat(items)[i * w..i * w + w] == items[i]
  {
    var front := items[..|items| - 1];
    FlatLength(items, w);
    FlatLength(front, w);
    MulMonotone(i + 1, |items|, w);
    assert (i + 1) * w == i * w + w;
    if i < |front| {
      FlatAt(front, w, i);
      assert Flat(items)[i * w..i * w + w] == Flat(front)[i * w..i * w + w];
    }
  }

  /** The slot after the last item is free, and every item can be read back from its slot. */
  lemma BodySlots(layout: Layout, items: seq<Item>)
    requires layout.Valid() && |items| <= layout.Capacity()
    requires forall n :: 0 <= n < |items| ==> |items[n]| == layout.itemWords
    ensures forall i :: 0 <= i < |items| ==>
              0 <= i * layout.itemWords <= i * layout.itemWords + layout.itemWords <= BODY_WORDS
    ensures forall i :: 0 <= i < |items| ==>
              Body(items)[i * layout.itemWords..i * layout.itemWords + layout.itemWords] == items[i]
    ensures |items| * layout.itemWords <= BODY_WORDS
    ensures Body(items) == Flat(items) + Blanks(BODY_WORDS - |items| * layout.itemWords)
  {
    hide Body, Flat, Layout.Capacity;
    BodyIsFlat(layout, items);
    forall i | 0 <= i < |items|
      ensures 0 <= i * layout.itemWords <= i * layout.itemWords + layout.itemWords <= BODY_WORDS
      ensures Body(items)[i * layout.itemWords..i * layout.itemWords + layout.itemWords] == items[i]
    {
      BodySlot(layout, items, i);
    }
  }

  lemma BodyIsFlat(layout: Layout, items: seq<Item>)
    requires layout.Valid() && |items| <= layout.Capacity()
    requires forall n :: 0 <= n < |items| ==> |items[n]| == layout.itemWords
    ensures 0 <= |items| * layout.itemWords <= BODY_WORDS && |Flat(items)| == |items| * layout.itemWords
    ensures Body(items) == Flat(items) + Blanks(BODY_WORDS - |items| * layout.itemWords)
  {
    hide Flat, Layout.Capacity;
    layout.CapacityFits();
    FlatLength(items, layout.itemWords);
    MulMonotone(|items|, layout.Capacity(), layout.itemWords);
  }

  lemma BodySlot(layout: Layout, items: seq<Item>, i: nat)
    requires layout.Valid() && i < |items| <= layout.Capacity()
    requires forall n :: 0 <= n < |items| ==> |items[n]| == layout.itemWords
    ensures 0 <= i * layout.itemWords <= i * layout.itemWords + layout.itemWords <= BODY_WORDS
    ensures Body(items)[i * layout.itemWords..i * layout.itemWords + layout.itemWords] == items[i]
  {
    hide Body, Flat, Layout.Capacity;
    BodyIsFlat(layout, items);
    FlatAt(items, layout.itemWords, i);
    FrontSlice(Flat(items), Blanks(BODY_WORDS - |items| * layout.itemWords), i * layout.itemWords, layout.itemWords);
  }

  lemma FrontSlice(a: seq<DoubleWord>, b: seq<DoubleWord>, offset: nat, n: nat)
    requires offset + n <= |a|
    ensures (a + b)[offset..offset + n] == a[offset..offset + n]
  {
  }

  // ---- how the image changes ----

  lemma AppendToBody(layout: Layout, items: seq<Item>, x: Item)
    requires layout.Valid() && |items| < layout.Capacity()
    requires forall n :: 0 <= n < |items| ==> |items[n]| == layout.itemWords
    requires |x| == layout.itemWords
    ensures var offset := |items| * layout.itemWords;
            && offset + |x| <= BODY_WORDS
            && BlankAt(Body(items), offset, |x|)
            && Patch(Body(items), offset, x) == Body(items + [x])
  {
    var w, n := layout.itemWords, |items|;
    layout.CapacityFits();
    MulMonotone(n + 1, layout.Capacity(), w);
    assert (n + 1) * w == n * w + w;
    FlatLength(items, w);
    BodySlots(layout, items);
    BodySlots(layout, items + [x]);
    hide Body;
    assert Flat(items + [x]) == Flat(items) + x by {
      assert (items + [x])[..n] == items;
    }
    var free := BODY_WORDS - n * w;
    assert Blanks(free)[w..] == Blanks(free - w);
    assert Patch(Flat(items) + Blanks(free), n * w, x) == Flat(items) + x + Blanks(free)[w..];
  }

  lemma PatchBehindHeader(header: seq<DoubleWord>, body: seq<DoubleWord>, offset: nat, x: seq<DoubleWord>)
    requires offset + |x| <= |body|
    ensures Patch(header + body, |header| + offset, x) == header + Patch(body, offset, x)
    ensures BlankAt(header + body, |header| + offset, |x|) <==> BlankAt(body, offset, |x|)
  {
    if BlankAt(header + body, |header| + offset, |x|) {
      forall i | offset <= i < offset + |x| ensures body[i] == BLANK {
        assert (header + body)[|header| + i] == BLANK;
      }
    }
  }

  /** The next item goes to erased double words, and writing it there makes it the last item of the page. */
  lemma AppendItem(layout: Layout, j: nat, items: seq<Item>, x: Item)
    requires layout.Valid() && |items| < layout.Capacity()
    requires forall n :: 0 <= n < |items| ==> |items[n]| == layout.itemWords
    requires |x| == layout.itemWords
    ensures var offset := layout.Slot(|items|);
            && offset + |x| <= PAGE_WORDS
            && BlankAt(layout.OpenPage(j, items), offset, |x|)
            && Patch(layout.OpenPage(j, items), offset, x) == layout.OpenPage(j, items + [x])
  {
    AppendToBody(layout, items, x);
    hide Body, Patch, BlankAt, PageBeginTag.Pack;
    PatchBehindHeader([layout.BeginTag(j).Pack(), BLANK], Body(items), |items| * layout.itemWords, x);
  }

  lemma {:induction false} FlatUpdate(items: seq<Item>, w: nat, c: nat, x: Item)
    requires forall n :: 0 <= n < |items| ==> |items[n]| == w
    requires c < |items| && |x| == w
    ensures 0 <= c * w <= c * w + w <= |Flat(items)| == |items| * w
    ensures Flat(items[c := x]) == Flat(items)[..c * w] + x + Flat(items)[c * w + w..]
  {
    hide Flat;
    var front, last := items[..|items| - 1], items[|items| - 1];
    FlatAt(items, w, c);
    FlatLength(items, w);
    FlatLength(front, w);
    FlatSplits(items);
    FlatSplits(items[c := x]);
    if c == |front| {
      assert items[c := x][..|items| - 1] == front;
    } else {
      FlatUpdate(front, w, c, x);
      assert items[c := x][..|items| - 1] == front[c := x];
      AroundMiddle(Flat(front), last, c * w, c * w + w, x);
    }
  }

  lemma FlatSplits(items: seq<Item>)
    requires items != []
    ensures Flat(items) == Flat(items[..|items| - 1]) + items[|items| - 1]
  {
  }

  lemma AroundMiddle(a: seq<DoubleWord>, b: seq<DoubleWord>, from: nat, to: nat, x: seq<DoubleWord>)
    requires from <= to <= |a|
    ensures (a[..from] + x + a[to..]) + b == (a + b)[..from] + x + (a + b)[to..]
  {
  }

  /** An item of which the first `n` double words are written anew. */
  function Overwritten(x: Item, data: Item, n: nat): (y: Item)
    requires |x| == |data| && n <= |data|
    ensures |y| == |data|
  {
    data[..n] + x[n..]
  }

  /** Writing double words to the slot of an item that is there already. */
  lemma OverwriteItem(layout: Layout, j: nat, items: seq<Item>, c: nat, data: Item, n: nat)
    requires layout.Valid() && c < |items| <= layout.Capacity() && |data| == layout.itemWords && n <= |data|
    requires forall i :: 0 <= i < |items| ==> |items[i]| == layout.itemWords
    ensures layout.Slot(c) + layout.itemWords <= PAGE_WORDS
    ensures BlankAt(layout.OpenPage(j, items), layout.Slot(c), n) <==> AllBlank(items[c][..n])
    ensures n < |data| ==> layout.OpenPage(j, items)[layout.Slot(c) + n] == items[c][n]
    ensures Patch(layout.OpenPage(j, items), layout.Slot(c), data[..n])
         == layout.OpenPage(j, items[c := Overwritten(items[c], data, n)])
  {
    hide Flat, PageBeginTag.Pack, Layout.Capacity, Body, Patch, BlankAt, AllBlank, Overwritten;
    var offset := c * layout.itemWords;
    BodySlots(layout, items);
    OverwriteBody(layout, items, c, data, n);
    PatchBehindHeader([layout.BeginTag(j).Pack(), BLANK], Body(items), offset, data[..n]);
    SliceBlank(Body(items), offset, items[c], n);
  }

  lemma SliceBlank(body: seq<DoubleWord>, offset: nat, x: seq<DoubleWord>, n: nat)
    requires offset + |x| <= |body| && body[offset..offset + |x|] == x && n <= |x|
    ensures BlankAt(body, offset, n) <==> AllBlank(x[..n])
    ensures n < |x| ==> body[offset + n] == x[n]
  {
    assert forall i :: 0 <= i < |x| ==> x[i] == body[offset + i];
    if AllBlank(x[..n]) {
      forall i | offset <= i < offset + n ensures body[i] == BLANK {
        assert x[..n][i - offset] == BLANK;
      }
    }
  }

  lemma OverwriteBody(layout: Layout, items: seq<Item>, c: nat, data: Item, n: nat)
    requires layout.Valid() && c < |items| <= layout.Capacity() && |data| == layout.itemWords && n <= |data|
    requires forall i :: 0 <= i < |items| ==> |items[i]| == layout.itemWords
    ensures 0 <= c * layout.itemWords <= c * layout.itemWords + layout.itemWords <= BODY_WORDS
    ensures Patch(Body(items), c * layout.itemWords, data[..n]) == Body(items[c := Overwritten(items[c], data, n)])
  {
    hide Body, Flat, Patch, Overwritten, Layout.Capacity;
    var w, x := layout.itemWords, Overwritten(items[c], data, n);
    BodySlots(layout, items);
    BodySlots(layout, items[c := x]);
    FlatUpdate(items, w, c, x);
    FlatAt(items, w, c);
    var flat, free := Flat(items), Blanks(BODY_WORDS - |items| * w);
    SplitAt(flat, c * w, items[c]);
    PatchMiddle(flat[..c * w], items[c], flat[c * w + w..] + free, data, n);
    assert Body(items) == flat[..c * w] + items[c] + (flat[c * w + w..] + free);
    assert Body(items[c := x]) == flat[..c * w] + x + (flat[c * w + w..] + free);
  }

  lemma SplitAt(s: seq<DoubleWord>, offset: nat, x: seq<DoubleWord>)
    requires offset + |x| <= |s| && s[offset..offset + |x|] == x
    ensures s == s[..offset] + x + s[offset + |x|..]
  {
  }

  lemma PatchMiddle(a: seq<DoubleWord>, x: Item, b: seq<DoubleWord>, data: Item, n: nat)
    requires |x| == |data| && n <= |data|
    ensures Patch(a + x + b, |a|, data[..n]) == a + Overwritten(x, data, n) + b
  {
    assert (a + x + b)[|a| + n..] == x[n..] + b;
  }

  /** Another item fits exactly when the page holds fewer than its capacity. */
  lemma FullWhenNoRoom(layout: Layout, n: nat)
    requires layout.Valid()
    ensures layout.Slot(n) + layout.itemWords > PAGE_WORDS <==> n >= layout.Capacity()
  {
    var w := layout.itemWords;
    layout.CapacityFits();
    if n >= layout.Capacity() {
      MulMonotone(layout.Capacity(), n, w);
    } else {
      MulMonotone(n + 1, layout.Capacity(), w);
      assert (n + 1) * w == n * w + w;
    }
  }

  /** The pages kept, the page in use and the pages not used yet are all different pages. */
  lemma PagesApart(layout: Layout, h: History)
    requires layout.Valid()
    ensures forall j :: h.Oldest(layout.nrOfPages) <= j < |h.closed| || |h.closed| < j < layout.nrOfPages ==>
              layout.PageOf(j) != layout.PageOf(|h.closed|)
  {
    var k, n := |h.closed|, layout.nrOfPages;
    forall j | h.Oldest(n) <= j < k || k < j < n
      ensures layout.PageOf(j) != layout.PageOf(k)
    {
      if j < k {
        RingDistinct(j, k, n);
      } else {
        RingDistinct(k, j, n);
      }
    }
  }

  /** An item is written to the page in use. */
  lemma HoldsAfterAppend(layout: Layout, pages: seq<seq<DoubleWord>>, h: History, x: Item)
    requires layout.Valid() && layout.Holds(pages, h, false)
    ensures layout.Holds(pages[layout.PageOf(|h.closed|) := layout.OpenPage(|h.closed|, h.open + [x])],
                         h.Append(x), false)
  {
    hide Layout.FullPage, Layout.OpenPage;
    PagesApart(layout, h);
  }

  lemma HoldsClosedAfterClose(layout: Layout, pages: seq<seq<DoubleWord>>, h: History)
    requires layout.Valid() && |pages| > LAST_WRITABLE_PAGE && layout.HoldsClosed(pages, h)
    ensures layout.HoldsClosed(pages[layout.PageOf(|h.closed|) := layout.FullPage(|h.closed|, h.open)], h.Close())
  {
    hide Layout.FullPage;
    PagesApart(layout, h);
  }

  lemma NextPageBeforeWrap(layout: Layout, pages: seq<seq<DoubleWord>>, k: nat, page: seq<DoubleWord>)
    requires layout.Valid() && |pages| > LAST_WRITABLE_PAGE && layout.FreeBeyond(pages, k)
    ensures layout.FreeBeyond(pages[layout.PageOf(k) := page], k + 1)
    ensures k + 1 < layout.nrOfPages ==> pages[layout.PageOf(k) := page][layout.PageOf(k + 1)] == Blanks(PAGE_WORDS)
  {
    forall j | k < j < layout.nrOfPages
      ensures layout.PageOf(j) != layout.PageOf(k)
    {
      RingDistinct(k, j, layout.nrOfPages);
    }
  }

  lemma NextPageAfterWrap(layout: Layout, pages: seq<seq<DoubleWord>>, h: History, page: seq<DoubleWord>)
    requires layout.Valid() && |pages| > LAST_WRITABLE_PAGE && layout.HoldsClosed(pages, h)
    requires |h.closed| + 1 >= layout.nrOfPages
    ensures var k, j := |h.closed|, |h.closed| + 1 - layout.nrOfPages;
            pages[layout.PageOf(k) := page][layout.PageOf(k + 1)] == layout.FullPage(j, h.closed[j])
  {
    hide Layout.FullPage;
    var k, j := |h.closed|, |h.closed| + 1 - layout.nrOfPages;
    RingPeriod(j, layout.nrOfPages);
    RingDistinct(j, k, layout.nrOfPages);
    assert layout.PageOf(k + 1) == layout.PageOf(j);
  }

  /** The page in use is closed: the next page of the ring is either erased or, once the ring has gone round, still
      holds the oldest page, which has to be erased first. */
  lemma HoldsAfterClose(layout: Layout, pages: seq<seq<DoubleWord>>, h: History)
    requires layout.Valid() && layout.Holds(pages, h, false)
    ensures layout.Holds(pages[layout.PageOf(|h.closed|) := layout.FullPage(|h.closed|, h.open)], h.Close(),
                         |h.closed| + 1 >= layout.nrOfPages)
  {
    hide Layout.FullPage, Layout.OpenPage;
    var k, n := |h.closed|, layout.nrOfPages;
    HoldsClosedAfterClose(layout, pages, h);
    NextPageBeforeWrap(layout, pages, k, layout.FullPage(k, h.open));
    if k + 1 >= n {
      NextPageAfterWrap(layout, pages, h, layout.FullPage(k, h.open));
      assert h.Close().closed[k + 1 - n] == h.closed[k + 1 - n];
    }
  }

  /** The erase of the page after the newest one completes. */
  lemma HoldsAfterErase(layout: Layout, pages: seq<seq<DoubleWord>>, h: History)
    requires layout.Valid() && layout.Holds(pages, h, true)
    ensures layout.Holds(pages[layout.PageOf(|h.closed|) := Blanks(PAGE_WORDS)], h, false)
  {
    PagesApart(layout, h);
  }

  /** The image lies on the store's own pages, so nothing done to other pages disturbs it. */
  lemma HoldsIsLocal(layout: Layout, pages: seq<seq<DoubleWord>>, pages': seq<seq<DoubleWord>>, h: History,
                     wrapDue: bool)
    requires layout.Valid() && layout.Holds(pages, h, wrapDue) && |pages'| == |pages|
    requires forall p: nat :: layout.Owns(p) ==> pages'[p] == pages[p]
    ensures layout.Holds(pages', h, wrapDue)
  {
  }

  lemma HoldsWhenErased(layout: Layout, pages: seq<seq<DoubleWord>>)
    requires layout.Valid() && |pages| > LAST_WRITABLE_PAGE
    requires forall p: nat :: layout.Owns(p) ==> pages[p] == Blanks(PAGE_WORDS)
    ensures layout.Holds(pages, EMPTY, false)
  {
  }

  // ---- reading page headers ----

  /** What the header of a page tells: nothing on an erased page, the begin tag on an open page, both tags on a full
      one. */
  lemma HeadersRead(layout: Layout, j: nat, items: seq<Item>)
    requires layout.Valid()
    ensures AllBlank(Blanks(PAGE_WORDS)[..HEADER_WORDS])
    ensures var header := layout.OpenPage(j, items);
            && PageBeginTag.Unpack(header[0]) == layout.BeginTag(j) && header[0] != BLANK && header[1] == BLANK
    ensures var header := layout.FullPage(j, items);
            && PageBeginTag.Unpack(header[0]) == layout.BeginTag(j) && header[0] != BLANK
            && PageCompleteTag.Unpack(header[1]) == layout.CompleteTag(j) && header[1] != BLANK
  {
    BeginTagRoundTrip(layout.BeginTag(j));
    CompleteTagRoundTrip(layout.CompleteTag(j));
    hide PageBeginTag.Pack, PageCompleteTag.Pack, PageBeginTag.Unpack, PageCompleteTag.Unpack, Body;
  }

  /** Writing the begin tag opens an erased page, writing the complete tag closes an open one. */
  lemma TagsWrite(layout: Layout, j: nat, items: seq<Item>)
    requires layout.Valid()
    ensures BlankAt(Blanks(PAGE_WORDS), 0, 1)
    ensures Patch(Blanks(PAGE_WORDS), 0, [layout.BeginTag(j).Pack()]) == layout.OpenPage(j, [])
    ensures BlankAt(layout.OpenPage(j, items), 1, 1)
    ensures Patch(layout.OpenPage(j, items), 1, [layout.CompleteTag(j).Pack()]) == layout.FullPage(j, items)
  {
    assert Flat([]) == [];
    hide PageBeginTag.Pack, PageCompleteTag.Pack, Flat;
    assert Body([]) == Blanks(BODY_WORDS);
    hide Body;
  }
}
