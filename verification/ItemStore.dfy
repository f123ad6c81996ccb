/**
 The item store: a log of fixed-size items on a ring of flash pages.
 */
module ItemStores {
  import opened Rings
  import opened FlashDriver
  import opened PageFormat
  import opened ItemLog
  import opened StoreImage
  import opened Recovery
  import opened Enumeration

  datatype EraseParameters = EraseParameters(itemStore: nat, reinit: bool, pageNumber: nat, nrOfPages: nat)

  /** What the item stores share: the state of the message listener and the erase that it waits for. */
  class Listener {
    /** The current message handler is ListenerErasingState. */
    var erasing: bool
    var eraseParameters: EraseParameters
    /** An erase request that arrived during an erase. */
    var eraseReminder: EraseParameters

    constructor ()
      ensures !erasing && eraseReminder.pageNumber == 0
    {
      erasing := false;
      eraseParameters := EraseParameters(0, false, 0, 0);
      eraseReminder := EraseParameters(0, false, 0, 0);
    }
  }

  /** The state of an enumeration; the header is that of the page being read. */
  datatype EnumeratorStatus = EnumeratorStatus(
    beginTag: PageBeginTag, completeTag: PageCompleteTag, currentIndex: nat, itemsOnPage: nat, itemsRead: nat,
    itemsToSkip: nat, totalNrOfItems: nat)

  /** The client's side of an enumeration. */
  class Enumerator {
    var hasMoreItems: bool
    var startIndex: int
    /** `enumeratorDetails` is not null. */
    var attached: bool

    constructor (startIndex: int)
      ensures this.startIndex == startIndex && !attached
    {
      hasMoreItems, this.startIndex, attached := false, startIndex, false;
    }
  }

  class ItemStore {
    const layout: Layout
    const flash: Flash
    const listener: Listener

    var nrOfFullPages: int
    var currentPageNrOfItems: nat
    var currentPageInfo: PageBeginTag
    var nextWritePageInfo: PageBeginTag
    var oldestPageInfo: PageBeginTag

    /** The current state is EnumeratingState: add and enumerate requests are not served. */
    var enumerating: bool
    var status: EnumeratorStatus

    /** Everything ever added. */
    ghost var history: History

    /** The static initialisation; InitItemStore then rebuilds the rest from the flash. */
    constructor (layout: Layout, flash: Flash, listener: Listener)
      ensures this.layout == layout && this.flash == flash && this.listener == listener
      ensures nrOfFullPages == 0 && currentPageNrOfItems == 0
    {
      this.layout, this.flash, this.listener := layout, flash, listener;
      nrOfFullPages, currentPageNrOfItems := 0, 0;
      currentPageInfo := PageBeginTag(0, 0, 0, 0, 0);
      nextWritePageInfo, oldestPageInfo := PageBeginTag(0, 0, 0, 0, 0), PageBeginTag(0, 0, 0, 0, 0);
      enumerating := false;
      status := EnumeratorStatus(PageBeginTag(0, 0, 0, 0, 0), PageCompleteTag(0, 0, 0, 0), 0, 0, 0, 0, 0);
      history := EMPTY;
    }

    // ---- consistency ----

    /** The flash holds the history, and the page to write to is where the history says. */
    ghost predicate Writes(wrapDue: bool)
      reads this`history, this`currentPageInfo, this`nextWritePageInfo, flash
    {
      && layout.Valid() && flash.Valid()
      && layout.ValidHistory(history)
      && layout.Holds(flash.pages, history, wrapDue)
      && currentPageInfo.itemId == layout.itemId
      && nextWritePageInfo == layout.BeginTag(|history.closed|)
    }

    /** So is the oldest page. */
    ghost predicate Tracks(wrapDue: bool)
      reads this`history, this`currentPageInfo, this`nextWritePageInfo, this`oldestPageInfo, flash
    {
      Writes(wrapDue) && oldestPageInfo == layout.BeginTag(history.Oldest(layout.nrOfPages))
    }

    lemma WhenTracking(wrapDue: bool)
      requires Tracks(wrapDue)
      ensures layout.Valid() && flash.Valid()
    {
    }

    /** The page taken for the oldest one is erased. */
    ghost predicate OldestIsFree()
      reads this`oldestPageInfo, this`nrOfFullPages, flash
    {
      && layout.Valid() && flash.Valid() && layout.Owns(oldestPageInfo.pageId) && nrOfFullPages >= 0
      && flash.pages[oldestPageInfo.pageId] == Blanks(PAGE_WORDS)
    }

    /** The page in use was not begun since the last page was closed. */
    ghost predicate JustClosed()
      requires layout.Valid()
      reads this`history, this`currentPageNrOfItems
    {
      history.open == [] && history.closed != [] && currentPageNrOfItems == layout.Capacity()
    }

    /** The item counts kept in memory. */
    ghost predicate Counts()
      requires layout.Valid()
      reads this`history, this`nrOfFullPages, this`currentPageNrOfItems
    {
      && nrOfFullPages == |history.closed| - history.Oldest(layout.nrOfPages)
      && (currentPageNrOfItems == |history.open| || JustClosed())
    }

    ghost predicate Valid(wrapDue: bool)
      reads this`history, this`currentPageInfo, this`nextWritePageInfo, this`oldestPageInfo,
            this`nrOfFullPages, this`currentPageNrOfItems, flash
    {
      Tracks(wrapDue) && Counts()
    }

    /** The image and the tags are right, and no more items are counted on a page in use than it has. This is weaker
        than `Valid`: after a request to delete all items the counts are zero already while the items are still there,
        and a restart miscounts items that read as erased. */
    ghost predicate Consistent(wrapDue: bool)
      reads this`history, this`currentPageInfo, this`nextWritePageInfo, this`oldestPageInfo,
            this`currentPageNrOfItems, flash
    {
      Tracks(wrapDue) && (history.open == [] || currentPageNrOfItems <= |history.open|)
    }

    /** The flash is erasing the oldest page to make room for the page in use. */
    ghost predicate ErasingOldest()
      requires layout.Valid()
      reads this`history, flash, listener
    {
      && listener.erasing
      && listener.eraseParameters == EraseParameters(layout.itemId, false, layout.PageOf(|history.closed|), 1)
      && flash.Valid() && flash.Erasing() && flash.erasedPages == []
      && flash.requestStart == layout.PageOf(|history.closed|) && flash.requestCount == 1
    }

    /** No other page changed since the method was called. */
    twostate predicate OnlyOwnPages()
      reads flash
    {
      && |flash.pages| == |old(flash.pages)|
      && forall p: nat :: p < |flash.pages| && !layout.Owns(p) ==> flash.pages[p] == old(flash.pages)[p]
    }

    /** The store stays valid while others change other pages. */
    twostate lemma StaysValid(wrapDue: bool)
      requires old(Tracks(wrapDue)) && unchanged(this) && flash.Valid() && |flash.pages| == |old(flash.pages)|
      requires forall p: nat :: layout.Owns(p) ==> flash.pages[p] == old(flash.pages)[p]
      ensures Tracks(wrapDue)
    {
      hide Layout.FullPage, Layout.OpenPage;
      HoldsIsLocal(layout, old(flash.pages), flash.pages, history, wrapDue);
    }

    /** The erase of the oldest page completes. */
    twostate lemma OldestErased()
      requires old(Tracks(true)) && unchanged(this) && flash.Valid()
      requires flash.pages == old(flash.pages)[layout.PageOf(|history.closed|) := Blanks(PAGE_WORDS)]
      ensures Tracks(false)
    {
      hide Layout.FullPage, Layout.OpenPage;
      HoldsAfterErase(layout, old(flash.pages), history);
    }

    // ---- adding items ----

    /** The item was added. Counts that were right stay right. */
    twostate predicate Added(data: Item)
      requires layout.Valid()
      reads this, flash, listener
    {
      var wraps := history.open == [] && |history.closed| >= layout.nrOfPages;
      && history == old(history).Add(data, layout.Capacity())
      && Tracks(wraps)
      && (if wraps then ErasingOldest() else flash.Idle() && !listener.erasing)
      && (if history.open == [] then JustClosed() else currentPageNrOfItems == |history.open|)
      && nrOfFullPages - old(nrOfFullPages) ==
           (|history.closed| - history.Oldest(layout.nrOfPages))
           - (|old(history).closed| - old(history).Oldest(layout.nrOfPages))
    }

    /** The item was written over the one behind the counted ones, up to the first double word that was not erased. */
    twostate predicate WroteOver(data: Item, ok: bool, n: nat)
      requires layout.Valid()
      reads this, flash, listener
    {
      var c := old(currentPageNrOfItems);
      && c < |old(history).open| && n <= |data| == |old(history).open[c]|
      && AllBlank(old(history).open[c][..n]) && (ok <==> n == |data|)
      && (!ok ==> old(history).open[c][n] != BLANK)
      && history == History(old(history).closed, old(history).open[c := Overwritten(old(history).open[c], data, n)])
      && Tracks(false) && flash.Idle() && !listener.erasing
      && currentPageNrOfItems == c + (if ok then 1 else 0) && nrOfFullPages == old(nrOfFullPages)
    }

    method HasNoData(buffer: seq<DoubleWord>) returns (r: bool)
      ensures r <==> AllBlank(buffer)
    {
      for i := 0 to |buffer|
        invariant forall n :: 0 <= n < i ==> buffer[n] == BLANK
      {
        if buffer[i] != BLANK {
          return false;
        }
      }
      return true;
    }

    /** Programs the next slot of the page in use; it succeeds exactly when the slot is erased, and otherwise stops
        before the first double word that is not. */
    method WriteItem(data: Item) returns (ok: bool, ghost n: nat)
      requires layout.Valid() && flash.Valid() && flash.Idle() && |data| == layout.itemWords
      requires layout.Owns(nextWritePageInfo.pageId)
      requires layout.Slot(currentPageNrOfItems) + layout.itemWords <= PAGE_WORDS
      modifies this`currentPageNrOfItems, flash`pages, flash`locked
      ensures flash.Valid() && flash.Idle() && OnlyOwnPages()
      ensures n <= |data| && (ok <==> n == |data|)
      ensures var page, offset := nextWritePageInfo.pageId, layout.Slot(old(currentPageNrOfItems));
              && (ok <==> BlankAt(old(flash.pages)[page], offset, |data|))
              && BlankAt(old(flash.pages)[page], offset, n)
              && (n < |data| ==> old(flash.pages)[page][offset + n] != BLANK)
              && flash.pages == old(flash.pages)[page := Patch(old(flash.pages)[page], offset, data[..n])]
      ensures currentPageNrOfItems == old(currentPageNrOfItems) + if ok then 1 else 0
    {
      var writeOffset := layout.Slot(currentPageNrOfItems);
      ok, n := flash.Write(nextWritePageInfo.pageId, writeOffset, data);
      if !ok {
        return;
      }
      currentPageNrOfItems := currentPageNrOfItems + 1;
    }

    /**
     Moves on to the page that the complete tag of the page just closed names. If that page
     is not erased it is the oldest page: it leaves the log and its erase is started. The
     source's assertions about the page to erase hold.
     */
    method AdjustNextWritePage(completeTag: PageCompleteTag, ghost wrapDue: bool) returns (ok: bool)
      requires layout.Valid() && flash.Valid() && (wrapDue ==> flash.Idle()) && layout.ValidHistory(history)
      requires layout.Holds(flash.pages, history, wrapDue)
      requires history.open == [] && history.closed != [] && completeTag == layout.CompleteTag(|history.closed| - 1)
      requires wrapDue ==> oldestPageInfo == layout.BeginTag(|history.closed| - layout.nrOfPages)
      requires currentPageInfo.itemId == layout.itemId
      modifies this`nextWritePageInfo, this`oldestPageInfo, this`nrOfFullPages, flash
      modifies listener`erasing, listener`eraseParameters
      ensures ok && flash.Valid() && flash.pages == old(flash.pages)
      ensures nextWritePageInfo == old(nextWritePageInfo).(
                pageId := layout.PageOf(|history.closed|), blockId := Ring(|history.closed|, layout.maxBlockIndex))
      ensures wrapDue ==> ErasingOldest()
      ensures wrapDue ==> oldestPageInfo == layout.BeginTag(history.Oldest(layout.nrOfPages))
      ensures nrOfFullPages == old(nrOfFullPages) - if wrapDue then 1 else 0
      ensures !wrapDue ==> unchanged(flash) && unchanged(listener) && oldestPageInfo == old(oldestPageInfo)
    {
      hide Layout.FullPage, Layout.OpenPage, Layout.ValidHistory, Layout.Holds, PageBeginTag.Unpack,
           PageCompleteTag.Unpack, Ring, Flash.Erasing;
      var header := flash.Read(completeTag.nextPage, 0, HEADER_WORDS);
      nextWritePageInfo := nextWritePageInfo.(pageId := completeTag.nextPage, blockId := completeTag.nextPageId);
      var free := HasNoData(header);
      NextHeader(layout, flash.pages, history, wrapDue);
      if free {
        return true;
      }
      var nextHeader := flash.Read(PageCompleteTag.Unpack(header[1]).nextPage, 0, HEADER_WORDS);
      assert oldestPageInfo.pageId == completeTag.nextPage;
      assert layout.Owns(completeTag.nextPage);
      oldestPageInfo := PageBeginTag.Unpack(nextHeader[0]);
      nrOfFullPages := nrOfFullPages - 1;
      listener.eraseParameters := EraseParameters(currentPageInfo.itemId, false, completeTag.nextPage, 1);
      listener.erasing := true;
      flash.Erase(completeTag.nextPage, 1);
      return true;
    }

    /** Closes the page in use if no further item fits. */
    method ClosePageIfFull() returns (ok: bool)
      requires layout.Valid() && flash.Valid() && currentPageNrOfItems <= layout.Capacity()
      requires currentPageNrOfItems == layout.Capacity() ==>
                && flash.Idle() && |history.open| == currentPageNrOfItems && layout.ValidHistory(history.Close())
                && layout.Holds(flash.pages, history, false)
                && nextWritePageInfo == layout.BeginTag(|history.closed|)
                && oldestPageInfo == layout.BeginTag(history.Oldest(layout.nrOfPages))
                && currentPageInfo.itemId == layout.itemId
      modifies this`history, this`nextWritePageInfo, this`oldestPageInfo, this`nrOfFullPages, flash
      modifies listener`erasing, listener`eraseParameters
      ensures ok
      ensures currentPageNrOfItems < layout.Capacity() ==>
                unchanged(this) && unchanged(flash) && unchanged(listener)
      ensures currentPageNrOfItems == layout.Capacity() ==>
                && history == old(history).Close()
                && var wraps := |history.closed| >= layout.nrOfPages;
                && Tracks(wraps) && OnlyOwnPages()
                && nrOfFullPages == old(nrOfFullPages) + (if wraps then 0 else 1)
                && (if wraps then ErasingOldest() else flash.Idle() && listener.erasing == old(listener.erasing))
    {
      hide Layout.FullPage, Layout.OpenPage, PageCompleteTag.Pack, Layout.Holds, Layout.ValidHistory, Patch, BlankAt,
           Layout.Capacity, Ring, Flash.Erasing, Programmed;
      var actualPage := nextWritePageInfo.pageId;
      var writeOffset := layout.Slot(currentPageNrOfItems);
      FullWhenNoRoom(layout, currentPageNrOfItems);
      if writeOffset + layout.itemWords > PAGE_WORDS {
        var nextPage := layout.NextPageNr(actualPage);
        var completeTag := PageCompleteTag(PAGE_MAGIC, currentPageNrOfItems, nextPage,
                                           (nextWritePageInfo.blockId + 1) % layout.maxBlockIndex);
        CompleteTagComputed(layout, |history.closed|);
        CloseWrites(layout, flash.pages, history);
        var written, _ := flash.Write(actualPage, 1, [completeTag.Pack()]);
        if !written {
          assert false;
          return false;
        }
        nrOfFullPages := nrOfFullPages + 1;
        nextWritePageInfo := nextWritePageInfo.(blockId := completeTag.nextPageId, pageId := nextPage);
        history := history.Close();
        ok := AdjustNextWritePage(completeTag, |history.closed| >= layout.nrOfPages);
        return ok;
      }
      return true;
    }

    /** AddItem on a page that was not begun: its begin tag is written before the item. */
    method BeginPageWith(data: Item) returns (ok: bool)
      requires Writes(false) && flash.Idle() && layout.ValidItem(data) && history.open == []
      modifies this`history, this`currentPageNrOfItems, flash`pages, flash`locked
      ensures ok && history == old(history).Append(data)
      ensures Writes(false) && currentPageNrOfItems == 1 && flash.Idle() && OnlyOwnPages()
    {
      hide Layout.FullPage, Layout.OpenPage, PageBeginTag.Pack, Layout.Holds, Layout.ValidItem, Layout.ValidHistory;
      hide Patch, BlankAt, Layout.Slot, Layout.Capacity, Programmed, Ring, Flash.Erasing;
      layout.CapacityBounds();
      AppendStaysValid(layout, history, data);
      FirstItemWrites(layout, flash.pages, history, data);
      var begun, _ := flash.Write(nextWritePageInfo.pageId, 0, [nextWritePageInfo.Pack()]);
      if !begun {
        assert false;
        return false;
      }
      currentPageNrOfItems := 0;
      ghost var n;
      ok, n := WriteItem(data);
      assert ok && data[..n] == data;
      history := history.Append(data);
      assert flash.Valid();
      assert layout.Holds(flash.pages, history, false);
      assert OnlyOwnPages();
    }

    /** AddItem on a page that is already in use and whose items are all counted. */
    method AddToOpenPage(data: Item) returns (ok: bool, ghost n: nat)
      requires Tracks(false) && flash.Idle() && !listener.erasing && layout.ValidItem(data)
      requires history.open != [] && currentPageNrOfItems <= |history.open|
      modifies this`history, this`currentPageNrOfItems, this`nextWritePageInfo, this`oldestPageInfo, this`nrOfFullPages
      modifies listener`erasing, listener`eraseParameters, flash
      ensures OnlyOwnPages()
      ensures old(currentPageNrOfItems == |history.open|) ==> ok && Added(data)
      ensures old(currentPageNrOfItems < |history.open|) ==> WroteOver(data, ok, n)
    {
      hide Layout.FullPage, Layout.OpenPage, PageBeginTag.Pack, Layout.Holds, Layout.ValidHistory;
      hide Patch, BlankAt, Layout.Slot, Layout.Capacity, Programmed, Ring, Flash.Erasing;
      OpenIsShort(layout, history);
      if currentPageNrOfItems == |history.open| {
        AppendStaysValid(layout, history, data);
        ItemWrites(layout, flash.pages, history, data);
      }
      FullWhenNoRoom(layout, currentPageNrOfItems);
      ghost var all := currentPageNrOfItems == |history.open|;
      ghost var c, pages := currentPageNrOfItems, flash.pages;
      ok, n := WriteItem(data);
      if all {
        assert ok && data[..n] == data;
        history := history.Append(data);
      } else {
        ItemWritesOver(layout, pages, history, c, data, n);
        history := History(history.closed, history.open[c := Overwritten(history.open[c], data, n)]);
      }
      if !ok {
        return;
      }
      ok := ClosePageIfFull();
    }

    /**
     Adds an item. Every double word that this programs was erased, only pages of this store
     change, and the history grows by the item. If the item fills its page and the ring has
     no free page left, the erase of the oldest page is under way afterwards. When fewer items
     are counted on the page in use than it has, the item goes to the slot behind the counted
     ones instead: that succeeds exactly when the item there is all ones, which it replaces.
     */
    method AddItem(data: Item) returns (ok: bool, ghost n: nat)
      requires Consistent(false) && flash.Idle() && !listener.erasing && layout.ValidItem(data)
      modifies this`history, this`currentPageNrOfItems, this`nextWritePageInfo, this`oldestPageInfo, this`nrOfFullPages
      modifies listener`erasing, listener`eraseParameters, flash
      ensures OnlyOwnPages()
      ensures old(history.open == [] || currentPageNrOfItems == |history.open|) ==> ok && Added(data)
      ensures old(Counts()) ==> Counts() && ok && Added(data)
      ensures old(history.open != [] && currentPageNrOfItems < |history.open|) ==> WroteOver(data, ok, n)
    {
      hide Layout.FullPage, Layout.OpenPage, Layout.Holds, Layout.ValidItem, Layout.ValidHistory, Layout.Capacity;
      layout.CapacityBounds();
      WriteHeader(layout, flash.pages, history);
      n := |data|;
      var header := flash.Read(nextWritePageInfo.pageId, 0, HEADER_WORDS);
      var first := HasNoData(header);
      if first {
        ok := BeginPageWith(data);
        return;
      }
      var inUse := HasNoData(header[1..]);
      if inUse {
        ok, n := AddToOpenPage(data);
        return;
      }
      assert false;
      ok := false;
    }

    /** What ItemStore_DeleteAllItems does at once; the erase of the pages follows. */
    method MarkEmpty()
      modifies this`nrOfFullPages, this`currentPageNrOfItems
      ensures nrOfFullPages == 0 && currentPageNrOfItems == 0
    {
      nrOfFullPages := 0;
      currentPageNrOfItems := 0;
    }

    // ---- recovery after a reset ----

    /** The macro BEGIN_TAG_IS_CONSISTENT. */
    predicate BeginTagIsConsistent(tag: PageBeginTag, page: nat) {
      tag.magic == PAGE_MAGIC && tag.pageId == page && tag.itemSize == 8 * layout.itemWords
    }

    /** The macro COMPLETE_TAG_IS_CONSISTENT. */
    predicate CompleteTagIsConsistent(tag: PageCompleteTag, page: nat)
      requires layout.itemWords > 0
    {
      tag.magic == PAGE_MAGIC && tag.nrOfItems == layout.Capacity() && tag.nextPage == layout.NextPageNr(page)
    }

    method UpdateNewestOldestPage(initialize: bool)
      modifies this`nextWritePageInfo, this`oldestPageInfo
      ensures Ends(nextWritePageInfo, oldestPageInfo)
           == UpdateEnds(old(Ends(nextWritePageInfo, oldestPageInfo)), currentPageInfo, initialize, layout.nrOfPages)
    {
      if initialize {
        oldestPageInfo := currentPageInfo;
        nextWritePageInfo := currentPageInfo;
        return;
      }
      var nrOfPages := layout.nrOfPages;
      var currentBlockId := currentPageInfo.blockId;
      var newestBlockId := nextWritePageInfo.blockId;
      var oldestBlockId := oldestPageInfo.blockId;
      if (currentBlockId > newestBlockId && currentBlockId - newestBlockId < nrOfPages)
         || (currentBlockId < newestBlockId && newestBlockId - currentBlockId > nrOfPages) {
        nextWritePageInfo := currentPageInfo;
      } else if (currentBlockId < oldestBlockId && oldestBlockId - currentBlockId < nrOfPages)
                || (currentBlockId > oldestBlockId && currentBlockId - oldestBlockId > nrOfPages) {
        oldestPageInfo := currentPageInfo;
      }
    }

    /** Counts the items of a page that is in use by reading its slots up to the first erased one. */
    method CountItemsOnCurrentPage(ghost j: nat, ghost items: seq<Item>) returns (n: nat)
      requires layout.Valid() && flash.Shape() && layout.Owns(currentPageInfo.pageId)
      requires |items| < layout.Capacity() && forall i :: 0 <= i < |items| ==> layout.ValidItem(items[i])
      requires flash.pages[currentPageInfo.pageId] == layout.OpenPage(j, items)
      ensures n == Counted(items)
    {
      hide Layout.OpenPage, Layout.Capacity, Layout.Slot;
      var offset := HEADER_WORDS;
      n := 0;
      SlotsRead(layout, j, items, 0);
      while offset < PAGE_WORDS
        invariant n <= |items| && offset == layout.Slot(n) && offset + layout.itemWords <= PAGE_WORDS
        invariant forall i :: 0 <= i < n ==> !AllBlank(items[i])
        decreases |items| - n
      {
        SlotsRead(layout, j, items, n);
        var readBuffer := flash.Read(currentPageInfo.pageId, offset, layout.itemWords);
        var free := HasNoData(readBuffer);
        if free {
          CountedIs(items, n);
          return n;
        }
        SlotsRead(layout, j, items, n + 1);
        n := n + 1;
        offset := offset + layout.itemWords;
      }
      assert false;
    }

    /** The scan of one page: the body of the loop of InitItemStore. `errors` counts recoverable errors reported. */
    method ScanPage(ghost h: History, ghost wrapDue: bool, i: nat, ghost full: int, ghost items: nat)
      returns (errors: int)
      requires layout.Valid() && flash.Valid() && i < layout.nrOfPages
      requires layout.ValidHistory(h) && layout.Holds(flash.pages, h, wrapDue)
      requires currentPageInfo.itemId == layout.itemId
      requires Ends(nextWritePageInfo, oldestPageInfo) == ScanEnds(layout, flash.pages, i)
      requires nrOfFullPages == full + ScanFull(layout, flash.pages, i)
      requires currentPageNrOfItems == if Scanned(layout, h, i) then Counted(h.open) else items
      modifies this, listener`erasing, listener`eraseParameters, flash
      ensures unchanged(flash) && unchanged(listener) && history == old(history) && errors == 0
      ensures enumerating == old(enumerating)
      ensures currentPageInfo.itemId == layout.itemId
      ensures Ends(nextWritePageInfo, oldestPageInfo) == ScanEnds(layout, flash.pages, i + 1)
      ensures nrOfFullPages == full + ScanFull(layout, flash.pages, i + 1)
      ensures currentPageNrOfItems == if Scanned(layout, h, i + 1) then Counted(h.open) else items
    {
      hide Layout.FullPage, Layout.OpenPage, Layout.Holds, Layout.ValidItem, Layout.Capacity, Ring,
           PageBeginTag.Unpack, PageCompleteTag.Unpack, Flash.Erasing, UpdateEnds, Layout.ValidHistory;
      PageScanned(layout, flash.pages, h, wrapDue, i);
      OpenIsShort(layout, h);
      errors := 0;
      var actualPageId := i + layout.firstPage;
      var header := flash.Read(actualPageId, 0, HEADER_WORDS);
      var free := HasNoData(header);
      if free {
        return errors;
      }
      if !BeginTagIsConsistent(PageBeginTag.Unpack(header[0]), actualPageId) {
        errors := errors + 1;
      }
      currentPageInfo := PageBeginTag.Unpack(header[0]);
      UpdateNewestOldestPage(i == 0);
      var inUse := HasNoData(header[1..]);
      if !inUse {
        if !CompleteTagIsConsistent(PageCompleteTag.Unpack(header[1]), actualPageId) {
          errors := errors + 1;
        }
        nrOfFullPages := nrOfFullPages + 1;
      } else {
        currentPageNrOfItems := CountItemsOnCurrentPage(|h.closed|, h.open);
        var closed := ClosePageIfFull();
      }
    }

    /**
     Rebuilds the store from the flash. The flash holds what some history `h` left on it,
     and with `wrapDue` the reset came before the erase of the oldest page. The tags in
     memory come out as `Recovered` says. The full pages are added to those counted before, and
     on a page in use the items up to the first that reads as erased are counted; without such
     a page the count of items stays. So after a reset, with counts of zero, the store is again
     the running one if and only if the history is recoverable and no item of the page in use
     reads as erased. No tag is ever found inconsistent, and an outstanding erase is started
     again.
     */
    method InitItemStore(ghost h: History, ghost wrapDue: bool) returns (errors: int)
      requires layout.Valid() && flash.Valid() && (wrapDue ==> flash.Idle())
      requires layout.ValidHistory(h) && layout.Holds(flash.pages, h, wrapDue)
      modifies this, listener`erasing, listener`eraseParameters, flash
      ensures history == h && flash.Valid() && flash.pages == old(flash.pages) && errors == 0
      ensures Ends(nextWritePageInfo, oldestPageInfo) == Recovered(layout, flash.pages)
      ensures nrOfFullPages == old(nrOfFullPages) + |h.closed| - h.Oldest(layout.nrOfPages)
      ensures currentPageNrOfItems == if h.open != [] then Counted(h.open) else old(currentPageNrOfItems)
      ensures Consistent(wrapDue) <==> Recoverable(layout, flash.pages, h)
      ensures Writes(wrapDue) <==> nextWritePageInfo == layout.BeginTag(|h.closed|)
      ensures old(nrOfFullPages == 0 && currentPageNrOfItems == 0) ==>
                (Valid(wrapDue) <==> Recoverable(layout, flash.pages, h) && Counted(h.open) == |h.open|)
      ensures if wrapDue then ErasingOldest() else unchanged(flash) && unchanged(listener)
      ensures enumerating == old(enumerating)
    {
      hide Layout.FullPage, Layout.OpenPage, Layout.Holds, Layout.ValidHistory, Layout.ValidItem, Layout.Capacity, Ring,
           HasHeader, IsComplete, PageBeginTag.Unpack, PageCompleteTag.Unpack, Recovered, Recoverable, Flash.Erasing,
           ScanEnds, ScanFull;
      currentPageInfo := PageBeginTag(PAGE_MAGIC, layout.firstPage, 0, layout.itemId, 8 * layout.itemWords);
      nextWritePageInfo := currentPageInfo;
      oldestPageInfo := currentPageInfo;
      history := h;
      errors := 0;
      ScanStart(layout, flash.pages);
      for i := 0 to layout.nrOfPages
        invariant unchanged(flash) && unchanged(listener) && history == h && errors == 0
        invariant enumerating == old(enumerating)
        invariant currentPageInfo.itemId == layout.itemId
        invariant Ends(nextWritePageInfo, oldestPageInfo) == ScanEnds(layout, flash.pages, i)
        invariant nrOfFullPages == old(nrOfFullPages) + ScanFull(layout, flash.pages, i)
        invariant currentPageNrOfItems == if Scanned(layout, h, i) then Counted(h.open) else old(currentPageNrOfItems)
      {
        var found := ScanPage(h, wrapDue, i, old(nrOfFullPages), old(currentPageNrOfItems));
        errors := errors + found;
      }
      ScanTotal(layout, flash.pages, h, wrapDue);
      ScanOutcome(layout, flash.pages, h, wrapDue);
      RecoveredFromScan(layout, flash.pages, h, wrapDue);
      RecoveryIsExact(layout, flash.pages, h, wrapDue);
      var header := flash.Read(nextWritePageInfo.pageId, 0, HEADER_WORDS);
      var completeTag := PageCompleteTag.Unpack(header[1]);
      if completeTag.magic == PAGE_MAGIC {
        var adjusted := AdjustNextWritePage(completeTag, wrapDue);
      }
    }

    /** This store, restarted from the flash of `running`, writes on where that one does and counts as many pages and
        items. But the page that it takes for the oldest one is the free page that it writes to next. So the search for
        a start position stops there at once (BeginEnumerate), and the page to erase when that page is full is another
        one (FillAfterRestart). */
    ghost predicate TakesFreePageForOldest(running: ItemStore)
      reads this`history, this`currentPageInfo, this`nextWritePageInfo, this`oldestPageInfo, this`nrOfFullPages,
            running`history, running`nextWritePageInfo, running`oldestPageInfo, running`nrOfFullPages, flash
    {
      var page := oldestPageInfo.pageId;
      && layout == running.layout && flash == running.flash && Writes(false) && OldestIsFree()
      && history == running.history && nextWritePageInfo == running.nextWritePageInfo
      && history.open == [] && |history.closed| >= layout.nrOfPages
      && nrOfFullPages == running.nrOfFullPages && oldestPageInfo != running.oldestPageInfo
      && page == nextWritePageInfo.pageId != layout.NextPageNr(nextWritePageInfo.pageId)
      && page < |flash.pages| && flash.pages[page] == Blanks(PAGE_WORDS)
      && !BeginTagIsConsistent(PageBeginTag.Unpack(BLANK), page)
    }

    lemma FreeForOldest(running: ItemStore)
      requires TakesFreePageForOldest(running)
      ensures OldestIsFree()
    {
    }

    /** A reset right after the ring has gone round for the first time, when the erase of the oldest page is done. */
    method RestartAfterFirstWrap() returns (restarted: ItemStore)
      requires Valid(false) && history.open == [] && |history.closed| == layout.nrOfPages
      modifies listener`erasing, listener`eraseParameters, flash
      ensures unchanged(listener) && unchanged(flash)
      ensures fresh(restarted) && restarted.TakesFreePageForOldest(this)
    {
      hide Layout.Holds, Layout.ValidHistory, Layout.Capacity, Recovered, Recoverable, PageBeginTag.Unpack, Ring;
      FirstWrapFails(layout, flash.pages, history);
      BlankBeginTag();
      RingDistinct(0, 1, layout.nrOfPages);
      layout.NextPageIsNext(|history.closed|);
      RingDistinct(|history.closed|, |history.closed| + 1, layout.nrOfPages);
      restarted := new ItemStore(layout, flash, listener);
      var _ := restarted.InitItemStore(history, false);
    }

    /** That erase is asked for as soon as the page is full: the page that it would be for is not the one taken for the
        oldest, so that the source's assertion fails. These are the steps of AddItem up to there. */
    method FillAfterRestart(xs: seq<Item>)
      requires Writes(false) && flash.Idle() && history.open == [] && |history.closed| >= layout.nrOfPages
      requires oldestPageInfo.pageId == nextWritePageInfo.pageId
      requires |xs| == layout.Capacity() && forall i :: 0 <= i < |xs| ==> layout.ValidItem(xs[i])
      modifies this`history, this`currentPageNrOfItems, flash`pages, flash`locked
      ensures layout.Valid() && flash.Shape() && layout.Owns(nextWritePageInfo.pageId)
      ensures layout.Slot(currentPageNrOfItems) + layout.itemWords > PAGE_WORDS
      ensures var next := layout.NextPageNr(nextWritePageInfo.pageId);
              && next < |flash.pages| && !AllBlank(flash.pages[next][0..HEADER_WORDS])
              && oldestPageInfo.pageId != next
    {
      hide Layout.FullPage, Layout.OpenPage, Layout.Holds, Layout.ValidHistory, Layout.ValidItem, Layout.Capacity, Ring,
           Patch, BlankAt, Layout.Slot, Programmed, Flash.Erasing;
      layout.CapacityBounds();
      var ok := BeginPageWith(xs[0]);
      for i := 1 to |xs|
        invariant layout.Holds(flash.pages, history, false) && flash.Valid() && flash.Idle()
        invariant |history.closed| == |old(history).closed| && |history.open| == i == currentPageNrOfItems
        invariant i < |xs| ==> layout.ValidHistory(history)
      {
        ghost var n;
        FullWhenNoRoom(layout, i);
        ItemWrites(layout, flash.pages, history, xs[i]);
        if i + 1 < |xs| { AppendStaysValid(layout, history, xs[i]); }
        ok, n := WriteItem(xs[i]);
        assert ok && xs[i][..n] == xs[i];
        history := history.Append(xs[i]);
      }
      FullWhenNoRoom(layout, |xs|);
      NextIsOldest(layout, flash.pages, history);
    }

    // ---- enumerating ----

    /** Position in the retained log. */
    ghost function At(j: nat, i: nat): nat
      requires layout.Valid() && history.Oldest(layout.nrOfPages) <= j
      reads this`history
    {
      Position(history, layout.nrOfPages, layout.Capacity(), j, i)
    }

    ghost function Log(): seq<Item>
      reads this`history
    {
      history.Retained(layout.nrOfPages)
    }

    /** The search for the item behind `s` items is at page `j` with `skipping` items left to skip. `again`: the page
        was counted already and left none. */
    ghost predicate Searching(s: nat, j: nat, skipping: int, itemsOnPage: nat, again: bool)
      requires layout.Valid()
      reads this`history
    {
      && history.Oldest(layout.nrOfPages) <= j <= |history.closed| && skipping >= 0
      && if again then skipping == 0 && j < |history.closed| && s == At(j + 1, 0)
         else
           && s == At(j, 0) + skipping
           && if j == history.Oldest(layout.nrOfPages) then itemsOnPage == 0 else skipping > 0
    }

    /** Where the search ends if there are `s` items. */
    ghost predicate Found(s: nat, j: nat, startPosition: nat)
      requires layout.Valid()
      reads this`history
    {
      && history.Oldest(layout.nrOfPages) <= j <= |history.closed| && s <= |Log()|
      && (s < |Log()| ==>
          layout.Capacity() > 0 && startPosition < ItemsOn(history, j)
          && At(j, startPosition) == Landing(s, layout.Capacity()))
      && (s == |Log()| ==>
          if history.open != [] || history.closed == [] then
            j == |history.closed| && startPosition == |history.open|
          else
            j == |history.closed| - 1 && startPosition == 0)
    }

    lemma SearchBegins(s: nat)
      requires Valid(false)
      ensures Searching(s, history.Oldest(layout.nrOfPages), s, 0, false)
    {
      hide Layout.Holds, Layout.ValidHistory, Layout.Capacity, Position;
      PositionStep(history, layout.nrOfPages, layout.Capacity(), history.Oldest(layout.nrOfPages));
    }

    /** The page to write to was not begun: the log ends here. */
    lemma SearchEnds(s: nat, j: nat, skipping: int, itemsOnPage: nat, again: bool)
      requires Valid(false) && Searching(s, j, skipping, itemsOnPage, again)
      requires j == |history.closed| && history.open == []
      ensures if skipping == 0 then Found(s, j, itemsOnPage) else s > |Log()|
    {
      hide Layout.Holds, Layout.ValidHistory, Layout.Capacity, Position, Landing, History.Retained;
      HistoryIsPaged(layout, history);
      PositionsBefore(history, layout.nrOfPages, layout.Capacity(), j);
    }

    lemma SearchOnOpenPage(s: nat, j: nat, skipping: int, itemsOnPage: nat, again: bool)
      requires Valid(false) && Searching(s, j, skipping, itemsOnPage, again)
      requires j == |history.closed| && history.open != []
      ensures if skipping <= |history.open| then Found(s, j, skipping) else s > |Log()|
    {
      hide Layout.Holds, Layout.ValidHistory, Layout.Capacity, Position, Landing, History.Retained;
      HistoryIsPaged(layout, history);
      PositionsBefore(history, layout.nrOfPages, layout.Capacity(), j);
      PositionPlus(history, layout.nrOfPages, layout.Capacity(), j, skipping);
      if skipping < |history.open| {
        OpenIsShort(layout, history);
        LandsOnPage(history, layout.nrOfPages, layout.Capacity(), s, j, skipping);
      }
    }

    lemma SearchOnFullPage(s: nat, j: nat, skipping: int, itemsOnPage: nat, again: bool)
      requires Valid(false) && Searching(s, j, skipping, itemsOnPage, again) && j < |history.closed|
      ensures var c := layout.Capacity();
              && c > 0
              && (skipping < c ==> Found(s, j, skipping))
              && (skipping == c ==> Searching(s, j, 0, c, true))
              && (skipping > c ==> Searching(s, j + 1, skipping - c, c, false))
    {
      hide Layout.Holds, Layout.ValidHistory, Layout.Capacity, Position, Landing, History.Retained;
      ghost var c := layout.Capacity();
      HistoryIsPaged(layout, history);
      PositionsBefore(history, layout.nrOfPages, c, j);
      PositionsBefore(history, layout.nrOfPages, c, j + 1);
      PositionStep(history, layout.nrOfPages, c, j);
      if again {
        LandsOnPageBefore(history, layout.nrOfPages, c, s, j);
      } else if skipping < c {
        PositionPlus(history, layout.nrOfPages, c, j, skipping);
        LandsOnPage(history, layout.nrOfPages, c, s, j, skipping);
      }
    }

    /**
     Searches the page and the index on it at which to start reading after `itemsToSkip`
     items. The search ends for every number of items to skip, and succeeds exactly when
     there are that many. If there are more, it lands where `Landing` says. A store that takes an
     erased page for its oldest one finds that page, but only without items to skip.
     */
    method FindEnumeratorStartPosition() returns (ok: bool, startPage: nat, startPosition: nat, ghost j: nat)
      requires Valid(false) || OldestIsFree()
      modifies this`status
      ensures status == old(status).(beginTag := status.beginTag, completeTag := status.completeTag)
      ensures OldestIsFree() && ok ==> startPage == oldestPageInfo.pageId
      ensures Valid(false) ==> (ok <==> status.itemsToSkip <= |Log()|)
      ensures Valid(false) && ok ==> Found(status.itemsToSkip, j, startPosition) && startPage == layout.PageOf(j)
    {
      hide Layout.Holds, Layout.ValidHistory, Layout.Capacity, PageBeginTag.Unpack, PageCompleteTag.Unpack, Ring,
           Position, Landing, History.Retained, Flash.Erasing, ItemStore.Searching, ItemStore.Found;
      ghost var s, valid := status.itemsToSkip, Valid(false);
      var pageNr := oldestPageInfo.pageId;
      var skipping: int := status.itemsToSkip;
      var itemsOnPage: nat := 0;
      j := history.Oldest(layout.nrOfPages);
      // the page was counted already and left nothing to skip
      ghost var again := false;
      if valid { SearchBegins(s); }
      while true
        invariant valid ==> Searching(s, j, skipping, itemsOnPage, again) && pageNr == layout.PageOf(j)
        invariant OldestIsFree() ==> pageNr == oldestPageInfo.pageId
        invariant skipping >= 0 && (valid || OldestIsFree())
        invariant status == old(status).(beginTag := status.beginTag, completeTag := status.completeTag)
        decreases skipping
      {
        if OldestIsFree() { FreeHeader(flash.pages, pageNr); }
        if valid { HeaderRead(s, j, skipping, itemsOnPage, again); }
        var header := flash.Read(pageNr, 0, HEADER_WORDS);
        status := status.(beginTag := PageBeginTag.Unpack(header[0]), completeTag := PageCompleteTag.Unpack(header[1]));
        if !BeginTagIsConsistent(status.beginTag, pageNr) {
          if valid { SearchEnds(s, j, skipping, itemsOnPage, again); }
          break;
        }
        if status.completeTag.magic == PAGE_MAGIC {
          if valid { SearchOnFullPage(s, j, skipping, itemsOnPage, again); }
          itemsOnPage := layout.Capacity();
          skipping := skipping - itemsOnPage;
          again := skipping == 0;
        } else {
          if valid { SearchOnOpenPage(s, j, skipping, itemsOnPage, again); }
          itemsOnPage := currentPageNrOfItems;
          skipping := skipping - itemsOnPage;
          break;
        }
        if skipping > 0 {
          pageNr := status.completeTag.nextPage;
          j := j + 1;
        }
        if skipping < 0 {
          break;
        }
      }
      if valid { FoundIsInLog(s); }
      if skipping > 0 {
        return false, 0, 0, 0;
      }
      startPage := pageNr;
      startPosition := itemsOnPage + skipping;
      ok := true;
    }

    lemma FoundIsInLog(s: nat)
      requires layout.Valid()
      ensures forall j, startPosition :: Found(s, j, startPosition) ==> s <= |Log()|
    {
      hide Layout.Capacity;
    }

    /** The header of the page that a search is at. */
    lemma HeaderRead(s: nat, j: nat, skipping: int, itemsOnPage: nat, again: bool)
      requires Valid(false) && Searching(s, j, skipping, itemsOnPage, again)
      ensures history.Oldest(layout.nrOfPages) <= j <= |history.closed|
      ensures var begin, complete := PageBeginTag.Unpack(flash.pages[layout.PageOf(j)][0..HEADER_WORDS][0]),
                                     PageCompleteTag.Unpack(flash.pages[layout.PageOf(j)][0..HEADER_WORDS][1]);
              if j < |history.closed| then
                begin == layout.BeginTag(j) && complete == layout.CompleteTag(j)
                && complete.nextPage == layout.PageOf(j + 1)
              else if history.open != [] then begin == layout.BeginTag(j) && complete.magic != PAGE_MAGIC
              else begin.magic != PAGE_MAGIC
      ensures j == |history.closed| && history.open != [] ==> currentPageNrOfItems == |history.open|
    {
      hide Layout.Holds, Layout.ValidHistory, Layout.Capacity, PageBeginTag.Unpack, PageCompleteTag.Unpack, Ring,
           Position, Flash.Erasing;
      HeaderOfPage(layout, flash.pages, history, j);
    }

    /** The enumeration reads page number `j`. */
    ghost predicate Reading(j: nat)
      requires layout.Valid()
      reads this
    {
      && history.Oldest(layout.nrOfPages) <= j <= |history.closed|
      && status.beginTag == layout.BeginTag(j)
      && status.itemsOnPage == ItemsOn(history, j) > 0
      && status.currentIndex <= status.itemsOnPage
    }

    ghost predicate PageToRead(pageNr: nat, j: nat)
      reads this`history, this`currentPageInfo, this`nextWritePageInfo, this`oldestPageInfo,
            this`nrOfFullPages, this`currentPageNrOfItems, flash
    {
      Valid(false) && history.Oldest(layout.nrOfPages) <= j <= |history.closed| && pageNr == layout.PageOf(j)
    }

    ghost predicate FreePage(pageNr: nat)
      reads flash
    {
      layout.Valid() && flash.Shape() && layout.Owns(pageNr) && flash.pages[pageNr] == Blanks(PAGE_WORDS)
    }

    /** Prepares reading page number `j` from an index on; it fails if the page has no item there, or is free. */
    method InitEnumeratorStatus(pageNr: nat, startIndex: nat, ghost j: nat) returns (ok: bool)
      requires PageToRead(pageNr, j) || FreePage(pageNr)
      modifies this`status
      ensures FreePage(pageNr) ==> !ok
      ensures PageToRead(pageNr, j) ==> (ok <==> startIndex < ItemsOn(history, j))
      ensures PageToRead(pageNr, j) && ok ==> Reading(j) && status.currentIndex == startIndex
      ensures status == old(status).(beginTag := status.beginTag, completeTag := status.completeTag,
                                     currentIndex := startIndex, itemsOnPage := status.itemsOnPage)
    {
      hide Layout.Holds, Layout.ValidHistory, Layout.Capacity, PageBeginTag.Unpack, PageCompleteTag.Unpack, Ring,
           Position, Landing, History.Retained, Flash.Erasing;
      if FreePage(pageNr) { FreeHeader(flash.pages, pageNr); }
      if PageToRead(pageNr, j) {
        HistoryIsPaged(layout, history);
        HeaderOfPage(layout, flash.pages, history, j);
        layout.NextPageIsNext(j);
      }
      status := status.(currentIndex := startIndex);
      var header := flash.Read(pageNr, 0, HEADER_WORDS);
      status := status.(beginTag := PageBeginTag.Unpack(header[0]), completeTag := PageCompleteTag.Unpack(header[1]));
      if !BeginTagIsConsistent(status.beginTag, pageNr) {
        return false;
      }
      if pageNr == nextWritePageInfo.pageId {
        status := status.(itemsOnPage := currentPageNrOfItems);
      } else {
        if !CompleteTagIsConsistent(status.completeTag, pageNr) {
          assert false;
          return false;
        }
        status := status.(itemsOnPage := layout.Capacity());
      }
      return status.currentIndex < status.itemsOnPage;
    }

    /** Number of items that the store reports: between the close of a page and the next add it is one page too high. */
    ghost function ReportedCount(): nat
      requires layout.Valid()
      reads this`history, this`currentPageNrOfItems
    {
      |Log()| + if JustClosed() then layout.Capacity() else 0
    }

    /** The total that an enumeration computes. */
    function TotalNrOfItems(): int
      requires layout.itemWords > 0
      reads this`nrOfFullPages, this`currentPageNrOfItems
    {
      currentPageNrOfItems + nrOfFullPages * layout.Capacity()
    }

    lemma TotalIsReported()
      requires Valid(false)
      ensures TotalNrOfItems() == ReportedCount() < 0x1_0000
    {
      hide Layout.Capacity, Layout.Holds;
      CountReported(layout, history, nrOfFullPages);
    }

    lemma LogIsShort()
      requires Valid(false)
      ensures layout.Valid() && |Log()| < 0x1_0000
    {
      hide Layout.Capacity, Layout.Holds;
      TotalIsReported();
    }

    lemma TotalIsNat()
      requires Valid(false) || OldestIsFree()
      ensures layout.itemWords > 0 && TotalNrOfItems() >= 0
    {
      hide Layout.Capacity, Layout.Holds;
      if Valid(false) { TotalIsReported(); } else { MulMonotone(0, nrOfFullPages, layout.Capacity()); }
    }

    /** Number of items to skip for a start index; a negative index counts from the end of what is reported. */
    ghost function ToSkip(startIndex: int): nat
      requires layout.Valid()
      reads this`history, this`currentPageNrOfItems
    {
      if startIndex >= 0 then startIndex % 0x1_0000
      else if ReportedCount() + startIndex > 0 then ReportedCount() + startIndex else 0
    }

    /** The items to skip are those that the client asks to skip: as many as the index says, or all but as many from the
        end as it says, where the end is a page too far between the close of a page and the next add. */
    lemma SkipsAsAsked(startIndex: int)
      requires Valid(false)
      ensures layout.Valid() && (0 <= startIndex < 0x1_0000 ==> ToSkip(startIndex) == startIndex)
      ensures startIndex < 0 ==>
                var s := |Log()| + (if JustClosed() then layout.Capacity() else 0) + startIndex;
                ToSkip(startIndex) == if s > 0 then s else 0
    {
      hide Layout.Capacity, Layout.Holds;
    }

    /** The enumeration stands at `position` of the log, on page number `j`. As long as it announces more items there
        are some, unless the page in use was just closed. */
    ghost predicate Enumerates(enumerator: Enumerator, position: nat, j: nat)
      requires layout.Valid()
      reads this, enumerator
    {
      && status.totalNrOfItems == ReportedCount()
      && position <= status.itemsRead + status.itemsToSkip
      && (enumerator.hasMoreItems ==>
          && Reading(j) && At(j, status.currentIndex) == position
          && (position < |Log()| || JustClosed()))
    }

    /** The part of BeginEnumerate that finds the start position and prepares reading there. */
    method StartReading() returns (ready: bool, ghost j: nat)
      requires Valid(false) || OldestIsFree()
      modifies this`status
      ensures OldestIsFree() ==> !ready
      ensures Valid(false) ==> (ready <==>
                var s := status.itemsToSkip;
                s < |Log()| || (s == |Log()| && history.open == [] && history.closed != []))
      ensures Valid(false) && ready ==>
                var position := Landing(status.itemsToSkip, layout.Capacity());
                Reading(j) && At(j, status.currentIndex) == position && position < |Log()|
                && status.currentIndex < status.itemsOnPage
      ensures status.itemsRead == old(status.itemsRead) && status.itemsToSkip == old(status.itemsToSkip)
      ensures status.totalNrOfItems == old(status.totalNrOfItems)
    {
      hide Layout.Holds, Layout.ValidHistory, Layout.Capacity, PageBeginTag.Unpack, PageCompleteTag.Unpack, Ring,
           Position, Landing, History.Retained, Flash.Erasing;
      if Valid(false) { HistoryIsPaged(layout, history); }
      var startPage, startIndex;
      ready, startPage, startIndex, j := FindEnumeratorStartPosition();
      if !ready {
        return;
      }
      if Valid(false) && history.open == [] && history.closed != [] {
        LandsOnLastPage(history, layout.nrOfPages, layout.Capacity());
      }
      ready := InitEnumeratorStatus(startPage, startIndex, j);
    }

    /** The part of BeginEnumerate that counts the items and those to skip. */
    method CountToSkip(startIndex: int)
      requires Valid(false) || OldestIsFree()
      modifies this`status
      ensures status.itemsRead == 0
      ensures Valid(false) ==> status.totalNrOfItems == ReportedCount() && status.itemsToSkip == ToSkip(startIndex)
    {
      hide Layout.Holds, Layout.ValidHistory, Layout.Capacity, Ring, ItemStore.TotalNrOfItems, History.Retained,
           History.Oldest, Flash.Erasing;
      TotalIsNat();
      if Valid(false) { TotalIsReported(); }
      status := status.(itemsRead := 0, totalNrOfItems := TotalNrOfItems());
      status := status.(itemsToSkip := startIndex % 0x1_0000);
      if startIndex < 0 {
        var itemsToSkip := status.totalNrOfItems + startIndex;
        status := status.(itemsToSkip := if itemsToSkip > 0 then itemsToSkip else 0);
      }
    }

    /**
     Starts an enumeration. It is ready exactly when fewer items are to be skipped than the
     log has, or as many as it has and these fill whole pages; it then stands where `Landing`
     says. A store that takes an erased page for its oldest one is never ready.
     */
    method BeginEnumerate(enumerator: Enumerator) returns (ready: bool, ghost j: nat)
      requires Valid(false) || OldestIsFree()
      modifies this`status, this`enumerating, enumerator
      ensures enumerator.startIndex == old(enumerator.startIndex)
      ensures OldestIsFree() ==> !ready
      ensures Valid(false) ==> (ready <==>
                var s := ToSkip(enumerator.startIndex);
                s < |Log()| || (s == |Log()| && history.open == [] && history.closed != []))
      ensures enumerator.attached == enumerator.hasMoreItems == ready
      ensures ready ==> enumerating
      ensures Valid(false) && ready ==>
                && status.itemsRead == 0 && status.itemsToSkip == ToSkip(enumerator.startIndex)
                && status.totalNrOfItems == ReportedCount()
                && Enumerates(enumerator, Landing(ToSkip(enumerator.startIndex), layout.Capacity()), j)
      ensures Valid(false) && 0 <= enumerator.startIndex < |Log()| ==>
                ready && Enumerates(enumerator, Landing(enumerator.startIndex, layout.Capacity()), j)
      ensures Valid(false) && enumerator.startIndex < 0 && Log() != [] && !JustClosed() ==>
                var s := |Log()| + enumerator.startIndex;
                ready && Enumerates(enumerator, Landing(if s > 0 then s else 0, layout.Capacity()), j)
    {
      hide Layout.Holds, Layout.ValidHistory, Layout.Capacity, Ring, Position, Landing, ItemStore.TotalNrOfItems,
           History.Retained, History.Oldest, Flash.Erasing;
      if Valid(false) {
        SkipsAsAsked(enumerator.startIndex);
        LogIsShort();
      }
      CountToSkip(enumerator.startIndex);
      ready, j := StartReading();
      if !ready {
        enumerator.attached := false;
        enumerator.hasMoreItems := false;
        return false, 0;
      }
      enumerator.attached := true;
      enumerator.hasMoreItems := status.itemsOnPage > status.currentIndex;
      enumerating := true;
    }

    method EndEnumerate(enumerator: Enumerator)
      modifies this`enumerating, enumerator
      ensures !enumerating && !enumerator.attached && !enumerator.hasMoreItems
      ensures enumerator.startIndex == old(enumerator.startIndex)
    {
      enumerating := false;
      enumerator.attached := false;
      enumerator.hasMoreItems := false;
    }

    /**
     Reads the next item. While items are announced this gives the item of the log at the
     position of the enumeration, and it fails only at the end of the log.
     */
    method GetNext(enumerator: Enumerator, ghost position: nat, ghost j: nat)
      returns (ok: bool, data: Item, ghost j': nat)
      requires Valid(false) && (enumerator.attached ==> Enumerates(enumerator, position, j))
      modifies this`status, enumerator`hasMoreItems
      ensures ok <==> old(enumerator.hasMoreItems) && enumerator.attached && position < |Log()|
      ensures ok ==> data == Log()[position] && Enumerates(enumerator, position + 1, j')
      ensures ok ==> status.itemsRead == old(status.itemsRead) + 1
      ensures ok ==> enumerator.hasMoreItems == (status.itemsRead + status.itemsToSkip < status.totalNrOfItems)
      ensures status.totalNrOfItems == old(status.totalNrOfItems) && status.itemsToSkip == old(status.itemsToSkip)
      ensures !ok ==> status.itemsRead == old(status.itemsRead) && (enumerator.attached ==> !enumerator.hasMoreItems)
    {
      hide Layout.Holds, Layout.ValidHistory, Layout.Capacity, PageBeginTag.Unpack, PageCompleteTag.Unpack, Ring,
           Position, Layout.Slot, History.Retained, Flash.Erasing, Layout.CompleteTag, History.Oldest, Layout.PageOf;
      data, j' := [], j;
      if !enumerator.hasMoreItems {
        return false, data, j';
      }
      if !enumerator.attached {
        return false, data, j';
      }
      HistoryIsPaged(layout, history);
      EndOfPage(history, layout.nrOfPages, layout.Capacity(), j, status.currentIndex);
      if status.currentIndex == status.itemsOnPage {
        // go on with the page after this one
        layout.NextPageIsNext(j);
        j' := j + 1;
        var more := InitEnumeratorStatus(layout.NextPageNr(status.beginTag.pageId), 0, j');
        if !more {
          enumerator.hasMoreItems := false;
          return false, data, j';
        }
      }
      ItemAtPosition(history, layout.nrOfPages, layout.Capacity(), j', status.currentIndex);
      ItemOnFlash(layout, flash.pages, history, j', status.currentIndex);
      data := flash.Read(status.beginTag.pageId, layout.Slot(status.currentIndex), status.beginTag.itemSize / 8);
      PositionPlus(history, layout.nrOfPages, layout.Capacity(), j', status.currentIndex);
      PositionPlus(history, layout.nrOfPages, layout.Capacity(), j', status.currentIndex + 1);
      status := status.(currentIndex := status.currentIndex + 1, itemsRead := status.itemsRead + 1);
      enumerator.hasMoreItems := status.itemsRead + status.itemsToSkip < status.totalNrOfItems;
      ok := true;
    }

    /**
     A whole enumeration, begun, read to its end and closed, for every start index. It gives the
     rest of the log from the items to skip on if these are none or not whole pages, and begins
     a page of items earlier otherwise.
     */
    method ReadAll(enumerator: Enumerator) returns (ready: bool, items: seq<Item>)
      requires Valid(false)
      modifies this`status, this`enumerating, enumerator
      ensures Valid(false) && !enumerating && layout.Capacity() > 0
      ensures ready <==> Ready(Log(), ToSkip(old(enumerator.startIndex)), layout.Capacity())
      ensures !ready ==> items == []
      ensures ready ==>
                items == Enumerated(Log(), ToSkip(old(enumerator.startIndex)), layout.Capacity(), JustClosed())
      ensures var i, log, capacity := old(enumerator.startIndex), Log(), layout.Capacity();
              && (0 <= i < 0x1_0000 ==> Gives(log, i, capacity, JustClosed(), ready, items))
              && (i < 0 && !JustClosed() ==> Gives(log, |log| + i, capacity, false, ready, items))
              && (i < 0 && JustClosed() ==> Gives(log, |log| + capacity + i, capacity, true, ready, items))
    {
      hide Layout.Holds, Layout.ValidHistory, Layout.Capacity, Position, Landing, History.Retained, Flash.Erasing,
           ItemStore.Reading, ItemStore.Valid, Layout.BeginTag, Layout.CompleteTag, Enumerated, Layout.Valid;
      PagedLog();
      ghost var s, j := ToSkip(enumerator.startIndex), 0;
      ready, j := BeginEnumerate(enumerator);
      items := [];
      if ready { items := ReadOn(enumerator, s, j); }
      SkipsAsAsked(enumerator.startIndex);
      EndEnumerate(enumerator);
      GivesToClient(old(enumerator.startIndex), ready, items);
    }

    lemma GivesToClient(i: int, ready: bool, items: seq<Item>)
      requires Valid(false) && layout.Capacity() > 0 && (ready <==> Ready(Log(), ToSkip(i), layout.Capacity()))
      requires if ready then items == Enumerated(Log(), ToSkip(i), layout.Capacity(), JustClosed()) else items == []
      ensures var log, capacity := Log(), layout.Capacity();
              && (0 <= i < 0x1_0000 ==> Gives(log, i, capacity, JustClosed(), ready, items))
              && (i < 0 && !JustClosed() ==> Gives(log, |log| + i, capacity, false, ready, items))
              && (i < 0 && JustClosed() ==> Gives(log, |log| + capacity + i, capacity, true, ready, items))
    {
      hide Gives, Ready, Enumerated, Layout.Capacity, ItemStore.Valid, ItemStore.ToSkip, History.Retained;
      PagedLog();
      SkipsAsAsked(i);
      var log, capacity := Log(), layout.Capacity();
      if 0 <= i < 0x1_0000 { GivesEnumerated(log, i, capacity, JustClosed(), ready, items); }
      if i < 0 {
        GivesEnumerated(log, |log| + (if JustClosed() then capacity else 0) + i, capacity, JustClosed(), ready, items);
      }
    }

    /** Reads to the end of an enumeration just begun. */
    method ReadOn(enumerator: Enumerator, ghost s: nat, ghost j: nat) returns (items: seq<Item>)
      requires Valid(false) && layout.Capacity() > 0 && Ready(Log(), s, layout.Capacity())
      requires enumerator.hasMoreItems && enumerator.attached
      requires Enumerates(enumerator, Landing(s, layout.Capacity()), j)
      requires status.itemsRead == 0 && status.itemsToSkip == s && status.totalNrOfItems == ReportedCount()
      modifies this`status, enumerator`hasMoreItems
      ensures items == Enumerated(Log(), s, layout.Capacity(), JustClosed())
    {
      hide *;
      PagedLog();
      ghost var log, landing, end, j' := Log(), Landing(s, layout.Capacity()), ReportedCount(), j;
      LandingIsNear(s, layout.Capacity());
      ReadyLands(log, s, layout.Capacity());
      items := [];
      while enumerator.hasMoreItems
        invariant log == Log() && end == ReportedCount() && landing + |items| <= |log|
        invariant forall i :: 0 <= i < |items| ==> items[i] == log[landing + i]
        invariant enumerator.hasMoreItems ==> enumerator.attached && Enumerates(enumerator, landing + |items|, j')
        invariant status.totalNrOfItems == end && status.itemsToSkip == s && status.itemsRead == |items|
        invariant enumerator.hasMoreItems ==> items == [] || |items| + s < end
        invariant !enumerator.hasMoreItems ==>
                    if JustClosed() then landing + |items| == |log|
                    else |items| == if s < |log| then |log| - s else 1
        decreases |log| - |items|, enumerator.hasMoreItems
      {
        var ok, data;
        ok, data, j' := GetNext(enumerator, landing + |items|, j');
        if ok {
          items := items + [data];
        }
      }
      IsEnumerated(log, s, layout.Capacity(), JustClosed(), items);
    }

    lemma CapacityOfMany()
      requires Consistent(false)
      ensures layout.Valid() && layout.Capacity() >= 16
    {
      layout.CapacityBounds();
    }

    lemma PagedLog()
      requires Valid(false)
      ensures layout.Valid() && layout.itemWords > 0 && layout.Capacity() >= 16
      ensures history.open == [] && history.closed != [] <==> |Log()| > 0 && |Log()| % layout.Capacity() == 0
      ensures ReportedCount() == |Log()| + if JustClosed() then layout.Capacity() else 0
    {
      hide Layout.Holds, Layout.Capacity, History.Retained;
      HistoryIsPaged(layout, history);
      WholePages(history, layout.nrOfPages, layout.Capacity());
    }

    /** Reads the newest item, as the settings are read when the device starts. This finds it, if it is the only one or
        not the first on its page; otherwise it finds the item a page before. Between the close of a page and the next
        add it finds none. */
    method ReadNewest(enumerator: Enumerator) returns (found: bool, data: Item)
      requires Valid(false) && enumerator.startIndex == -1
      modifies this`status, this`enumerating, enumerator
      ensures Valid(false) && !enumerating && layout.Capacity() > 0
      ensures found <==> Log() != [] && !JustClosed()
      ensures found ==>
                var n := |Log()|;
                if n == 1 || (n - 1) % layout.Capacity() != 0 then data == Log()[n - 1]
                else n > layout.Capacity() && data == Log()[n - 1 - layout.Capacity()]
    {
      hide Layout.Holds, Layout.ValidHistory, Layout.Capacity, Position, Landing, History.Retained, Flash.Erasing,
           ItemStore.Reading, Layout.BeginTag, Layout.CompleteTag;
      PagedLog();
      ghost var n := |Log()|;
      if n > 0 { NewestIsFound(n, layout.Capacity()); }
      data := [];
      ghost var j;
      found, j := BeginEnumerate(enumerator);
      if found && enumerator.hasMoreItems {
        found, data, j := GetNext(enumerator, Landing(n - 1, layout.Capacity()), j);
      }
      EndEnumerate(enumerator);
    }
  }

  /** The items on flash fill whole pages exactly when the page in use has none. */
  lemma WholePages(h: History, pages: nat, capacity: nat)
    requires h.Paged(capacity) && pages >= 2 && capacity > 0
    ensures h.open == [] && h.closed != [] <==> |h.Retained(pages)| > 0 && |h.Retained(pages)| % capacity == 0
    ensures h.open == [] && h.closed == [] <==> |h.Retained(pages)| == 0
  {
    var k := |h.closed| - h.Oldest(pages);
    RetainedLength(h, pages, capacity);
    PageCount(|h.Retained(pages)|, k, |h.open|, capacity);
    MulMonotone(if k > 0 then 1 else 0, k, capacity);
  }

  lemma IsEnumerated(log: seq<Item>, s: nat, capacity: nat, justClosed: bool, items: seq<Item>)
    requires capacity > 0 && Ready(log, s, capacity)
    requires var landing := Landing(s, capacity);
             && landing + |items| <= |log| && (forall i :: 0 <= i < |items| ==> items[i] == log[landing + i])
             && if justClosed then landing + |items| == |log| else |items| == if s < |log| then |log| - s else 1
    ensures items == Enumerated(log, s, capacity, justClosed)
  {
    hide Landing;
  }

  /** Once the ring has gone round, the page behind the one in use is the oldest one and not erased. */
  lemma NextIsOldest(layout: Layout, pages: seq<seq<DoubleWord>>, h: History)
    requires Paged(layout, pages) && layout.Holds(pages, h, false) && |h.closed| >= layout.nrOfPages
    ensures var page, next := layout.PageOf(|h.closed|), layout.NextPageNr(layout.PageOf(|h.closed|));
            next != page && next < |pages| && !AllBlank(pages[next][0..HEADER_WORDS])
  {
    hide HasHeader, PageBeginTag.Unpack, PageCompleteTag.Unpack, Layout.Holds, Ring;
    var k, n := |h.closed|, layout.nrOfPages;
    layout.NextPageIsNext(k);
    RingDistinct(k, k + 1, n);
    RingPeriod(k + 1 - n, n);
    ClosedPageSeen(layout, pages, h, false, k + 1 - n);
    assert HasHeader(pages[layout.PageOf(k + 1)]);
    HeaderIs(pages[layout.PageOf(k + 1)]);
  }

  /** The header of an erased page has no tag. */
  lemma FreeHeader(pages: seq<seq<DoubleWord>>, page: nat)
    requires page < |pages| && pages[page] == Blanks(PAGE_WORDS)
    ensures PageBeginTag.Unpack(pages[page][0..HEADER_WORDS][0]).magic != PAGE_MAGIC
  {
    BlankBeginTag();
    assert Blanks(PAGE_WORDS)[0] == BLANK;
  }

  lemma HeaderIs(page: seq<DoubleWord>)
    requires |page| == PAGE_WORDS
    ensures HasHeader(page) <==> !AllBlank(page[0..HEADER_WORDS])
  {
  }

  /** The scan has come across the page in use among the first `i` pages. */
  predicate Scanned(layout: Layout, h: History, i: nat)
    requires layout.Valid()
  {
    Ring(|h.closed|, layout.nrOfPages) < i && h.open != []
  }

  /** The end of a page, unless it is the end of the log, is the start of the next page, which has items. */
  lemma EndOfPage(h: History, pages: nat, capacity: nat, j: nat, i: nat)
    requires h.Paged(capacity) && h.Oldest(pages) <= j <= |h.closed| && i <= ItemsOn(h, j)
    ensures var position, end := Position(h, pages, capacity, j, i), |h.Retained(pages)|;
            && position <= end
            && (i < ItemsOn(h, j) ==> position < end)
            && (i == ItemsOn(h, j) && j == |h.closed| ==> position == end)
            && (i == ItemsOn(h, j) && j < |h.closed| ==>
                && Position(h, pages, capacity, j + 1, 0) == position
                && (ItemsOn(h, j + 1) == 0 ==> capacity == 0 || position == end)
                && (ItemsOn(h, j + 1) > 0 ==> position < end))
  {
    hide Position;
    PositionsBefore(h, pages, capacity, j);
    PositionPlus(h, pages, capacity, j, i);
    PositionStep(h, pages, capacity, j);
    if j < |h.closed| {
      PositionsBefore(h, pages, capacity, j + 1);
    }
  }

  /** Reading the slot of an item gives the item. */
  lemma ItemOnFlash(layout: Layout, pages: seq<seq<DoubleWord>>, h: History, j: nat, i: nat)
    requires Paged(layout, pages) && layout.Holds(pages, h, false) && layout.ValidHistory(h)
    requires h.Oldest(layout.nrOfPages) <= j <= |h.closed| && i < ItemsOn(h, j)
    ensures layout.Slot(i) + layout.itemWords <= PAGE_WORDS
    ensures pages[layout.PageOf(j)][layout.Slot(i)..layout.Slot(i) + layout.itemWords]
         == if j < |h.closed| then h.closed[j][i] else h.open[i]
  {
    hide PageBeginTag.Pack, PageCompleteTag.Pack, Layout.Capacity, Body;
    var items := if j < |h.closed| then h.closed[j] else h.open;
    BodySlots(layout, items);
    PageBody(layout, pages, h, j);
    SliceBehindHeader(pages[layout.PageOf(j)], Body(items), i * layout.itemWords, layout.itemWords);
  }

  lemma PageBody(layout: Layout, pages: seq<seq<DoubleWord>>, h: History, j: nat)
    requires Paged(layout, pages) && layout.Holds(pages, h, false)
    requires h.Oldest(layout.nrOfPages) <= j <= |h.closed| && ItemsOn(h, j) > 0
    ensures pages[layout.PageOf(j)][HEADER_WORDS..] == Body(if j < |h.closed| then h.closed[j] else h.open)
  {
    hide PageBeginTag.Pack, PageCompleteTag.Pack, Body, Ring;
  }

  lemma SliceBehindHeader(page: seq<DoubleWord>, body: seq<DoubleWord>, offset: nat, n: nat)
    requires |page| >= HEADER_WORDS && page[HEADER_WORDS..] == body && offset + n <= |body|
    ensures page[HEADER_WORDS + offset..HEADER_WORDS + offset + n] == body[offset..offset + n]
  {
  }

  /** The count of full pages times the capacity plus the count of the page in use is what the store reports. */
  lemma CountReported(layout: Layout, h: History, nrOfFullPages: int)
    requires layout.Valid() && layout.ValidHistory(h)
    requires nrOfFullPages == |h.closed| - h.Oldest(layout.nrOfPages)
    ensures |h.open| + nrOfFullPages * layout.Capacity() == |h.Retained(layout.nrOfPages)|
    ensures 0 <= layout.Capacity() + nrOfFullPages * layout.Capacity() < 0x1_0000
  {
    hide Layout.Capacity;
    layout.CapacityBounds();
    RetainedLength(h, layout.nrOfPages, layout.Capacity());
    MulMonotone(nrOfFullPages + 1, layout.nrOfPages + 1, layout.Capacity());
    assert (nrOfFullPages + 1) * layout.Capacity() == nrOfFullPages * layout.Capacity() + layout.Capacity();
  }

  /** Skipping all items of a log of whole pages leads to the last page. */
  lemma LandsOnLastPage(h: History, pages: nat, capacity: nat)
    requires h.Paged(capacity) && h.closed != [] && h.open == [] && pages >= 2 && capacity > 0
    ensures h.Oldest(pages) < |h.closed|
    ensures var k := |h.closed|;
            Landing(|h.Retained(pages)|, capacity) == Position(h, pages, capacity, k - 1, 0) < |h.Retained(pages)|
  {
    RetainedLength(h, pages, capacity);
    LandsOnPageBefore(h, pages, capacity, |h.Retained(pages)|, |h.closed| - 1);
    PositionsBefore(h, pages, capacity, |h.closed| - 1);
  }

  lemma HistoryIsPaged(layout: Layout, h: History)
    requires layout.Valid() && layout.ValidHistory(h)
    ensures h.Paged(layout.Capacity()) && layout.Capacity() >= 16
  {
    layout.CapacityBounds();
  }

  lemma OpenIsShort(layout: Layout, h: History)
    requires layout.Valid() && layout.ValidHistory(h)
    ensures |h.open| < layout.Capacity() && forall i :: 0 <= i < |h.open| ==> layout.ValidItem(h.open[i])
  {
  }

  lemma AppendStaysValid(layout: Layout, h: History, x: Item)
    requires layout.Valid() && layout.ValidHistory(h) && layout.ValidItem(x)
    ensures |h.open| < layout.Capacity()
    ensures layout.ValidHistory(if |h.open| + 1 < layout.Capacity() then h.Append(x) else h.Append(x).Close())
  {
  }

  /** What the header of the page in use tells before an add. */
  lemma WriteHeader(layout: Layout, pages: seq<seq<DoubleWord>>, h: History)
    requires layout.Valid() && layout.Holds(pages, h, false)
    ensures var page := pages[layout.PageOf(|h.closed|)];
            && |page| == PAGE_WORDS
            && (AllBlank(page[0..HEADER_WORDS]) <==> h.open == [])
            && AllBlank(page[0..HEADER_WORDS][1..])
  {
    hide Layout.OpenPage, Layout.FullPage, PageBeginTag.Unpack, PageCompleteTag.Unpack;
    HeadersRead(layout, |h.closed|, h.open);
  }

  /** The first item of a page: the begin tag goes to the erased page and the item to its first slot. */
  lemma FirstItemWrites(layout: Layout, pages: seq<seq<DoubleWord>>, h: History, x: Item)
    requires layout.Valid() && layout.ValidItem(x)
    requires layout.Holds(pages, h, false) && h.open == []
    ensures var k, page := |h.closed|, layout.PageOf(|h.closed|);
            var begun := Patch(pages[page], 0, [layout.BeginTag(k).Pack()]);
            && BlankAt(pages[page], 0, 1)
            && |x| == layout.itemWords && layout.Slot(0) + |x| <= PAGE_WORDS && BlankAt(begun, layout.Slot(0), |x|)
            && layout.Holds(pages[page := begun][page := Patch(begun, layout.Slot(0), x)], h.Append(x), false)
  {
    var k, page := |h.closed|, layout.PageOf(|h.closed|);
    layout.CapacityBounds();
    TagsWrite(layout, k, []);
    AppendItem(layout, k, [], x);
    HoldsAfterAppend(layout, pages, h, x);
    hide Layout.OpenPage, Layout.FullPage, Patch, BlankAt;
    assert [] + [x] == h.open + [x];
    assert pages[page := layout.OpenPage(k, [])][page := layout.OpenPage(k, [x])]
        == pages[page := layout.OpenPage(k, [x])];
  }

  /** Writing an item to the next slot of the page in use. */
  lemma ItemWrites(layout: Layout, pages: seq<seq<DoubleWord>>, h: History, x: Item)
    requires layout.Valid() && layout.ValidHistory(h) && layout.ValidItem(x)
    requires layout.Holds(pages, h, false) && h.open != []
    ensures var page, offset := layout.PageOf(|h.closed|), layout.Slot(|h.open|);
            && |x| == layout.itemWords && offset + |x| <= PAGE_WORDS
            && BlankAt(pages[page], offset, |x|)
            && layout.Holds(pages[page := Patch(pages[page], offset, x)], h.Append(x), false)
  {
    AppendItem(layout, |h.closed|, h.open, x);
    hide Layout.OpenPage, Layout.FullPage, Patch, BlankAt;
    HoldsAfterAppend(layout, pages, h, x);
  }

  /** Writing double words of an item to the slot of one that is there already. */
  lemma ItemWritesOver(layout: Layout, pages: seq<seq<DoubleWord>>, h: History, c: nat, data: Item, n: nat)
    requires layout.Valid() && layout.ValidHistory(h) && layout.ValidItem(data) && n <= |data|
    requires layout.Holds(pages, h, false) && c < |h.open|
    ensures |h.open[c]| == |data|
    ensures var k, page, offset, x := |h.closed|, layout.PageOf(|h.closed|), layout.Slot(c), h.open[c];
            var h' := History(h.closed, h.open[c := Overwritten(x, data, n)]);
            && offset + |data| <= PAGE_WORDS == |pages[page]|
            && (BlankAt(pages[page], offset, n) <==> AllBlank(x[..n]))
            && (n < |data| ==> pages[page][offset + n] == x[n])
            && layout.ValidHistory(h')
            && layout.Holds(pages[page := Patch(pages[page], offset, data[..n])], h', false)
  {
    OverwriteItem(layout, |h.closed|, h.open, c, data, n);
    hide Layout.OpenPage, Layout.FullPage, Patch, BlankAt, AllBlank, Overwritten;
    PagesApart(layout, h);
  }

  lemma CompleteTagComputed(layout: Layout, k: nat)
    requires layout.Valid()
    ensures layout.CompleteTag(k) == PageCompleteTag(PAGE_MAGIC, layout.Capacity(), layout.NextPageNr(layout.PageOf(k)),
                                                     (layout.BeginTag(k).blockId + 1) % layout.maxBlockIndex)
  {
    layout.NextPageIsNext(k);
    RingIsMod(k, layout.maxBlockIndex);
    RingIsMod(k + 1, layout.maxBlockIndex);
    ModStep(k, layout.maxBlockIndex);
    ModStep(layout.BeginTag(k).blockId, layout.maxBlockIndex);
    ModUnique(layout.BeginTag(k).blockId, layout.maxBlockIndex, 0, layout.BeginTag(k).blockId);
  }

  /** Writing the complete tag on the page in use. */
  lemma CloseWrites(layout: Layout, pages: seq<seq<DoubleWord>>, h: History)
    requires layout.Valid() && layout.Holds(pages, h, false) && h.open != []
    ensures var k, page := |h.closed|, layout.PageOf(|h.closed|);
            && |pages[page]| == PAGE_WORDS && BlankAt(pages[page], 1, 1)
            && layout.Holds(pages[page := Patch(pages[page], 1, [layout.CompleteTag(k).Pack()])],
                            h.Close(), k + 1 >= layout.nrOfPages)
  {
    hide Layout.FullPage, Layout.OpenPage, PageCompleteTag.Pack, Patch;
    TagsWrite(layout, |h.closed|, h.open);
    HoldsAfterClose(layout, pages, h);
  }

  /** Where the headers of the next page and of the page after it lead, when the page in use was not begun. */
  lemma NextHeader(layout: Layout, pages: seq<seq<DoubleWord>>, h: History, wrapDue: bool)
    requires layout.Valid() && layout.Holds(pages, h, wrapDue) && h.open == []
    requires forall p: nat :: p < |pages| ==> |pages[p]| == PAGE_WORDS
    ensures var header := pages[layout.PageOf(|h.closed|)][0..HEADER_WORDS];
            && (AllBlank(header) <==> !wrapDue)
            && (wrapDue ==>
                && |h.closed| >= layout.nrOfPages
                && layout.PageOf(|h.closed| - layout.nrOfPages) == layout.PageOf(|h.closed|)
                && var next := PageCompleteTag.Unpack(header[1]).nextPage;
                && next == layout.PageOf(h.Oldest(layout.nrOfPages))
                && PageBeginTag.Unpack(pages[next][0..HEADER_WORDS][0]) == layout.BeginTag(h.Oldest(layout.nrOfPages)))
  {
    var k, n := |h.closed|, layout.nrOfPages;
    hide PageBeginTag.Unpack, PageCompleteTag.Unpack, Layout.FullPage, Layout.OpenPage;
    if wrapDue {
      RingPeriod(k - n, n);
      HeadersRead(layout, k - n, h.closed[k - n]);
      HeadersRead(layout, k - n + 1, h.closed[k - n + 1]);
    } else {
      HeadersRead(layout, k, []);
    }
  }
}
