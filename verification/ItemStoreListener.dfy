/**
 The message listener of the item stores: requests, the erase that excludes them, and the
 interrupts that drive it.
 */
module ItemStoreListener {
  import opened FlashDriver
  import opened PageFormat
  import opened ItemLog
  import opened StoreImage
  import opened Recovery
  import opened Enumeration
  import opened ItemStores

  /** What the flash is being erased for. */
  datatype Purpose = Nothing | Wrap(store: ItemStore) | DeleteAll

  /**
     The two stores of the device and their listener. `samples` is the store whose items can
     be deleted as a whole.
   */
  class ItemStoreService {
    const flash: Flash
    const listener: Listener
    const config: ItemStore
    const samples: ItemStore
    /** The erase-done message is in the application's message queue. */
    var eraseDoneQueued: bool
    /** Number of messages in that queue that ask to erase all samples. */
    var deletesQueued: nat

    ghost var purpose: Purpose
    /** The reminder holds a request to delete all samples. */
    ghost var deleteDue: bool

    /** The objects of the service are its own and the stores lie on different pages. */
    ghost predicate Wired() {
      && config != samples
      && config.flash == flash == samples.flash
      && config.listener == listener == samples.listener
      && config.layout.Valid() && samples.layout.Valid()
      && config.layout.LastPage() < samples.layout.firstPage
    }

    predicate IsReminder(p: EraseParameters) {
      0 < p.pageNumber < 0xFF && p.itemStore != 0xFF && p.nrOfPages > 0
    }

    function DeleteRequest(): EraseParameters {
      EraseParameters(samples.layout.itemId, true, samples.layout.firstPage, samples.layout.nrOfPages)
    }

    /** The flash is still busy with the erase that the listener waits for. */
    ghost predicate Busy()
      reads this, listener
    {
      listener.erasing && !eraseDoneQueued
    }

    /** The listener waits exactly while an erase runs or its completion was not handled yet. */
    ghost predicate Excludes()
      reads this, listener, flash
    {
      && flash.Valid()
      && (flash.Idle() <==> !Busy())
      && (eraseDoneQueued ==> listener.erasing)
      && (listener.erasing <==> purpose != Nothing)
    }

    ghost predicate SamplesErased()
      requires Wired()
      reads flash
    {
      flash.Shape() && forall p: nat :: samples.layout.Owns(p) ==> flash.pages[p] == Blanks(PAGE_WORDS)
    }

    /** Progress of the erase by purpose. */
    ghost predicate ErasesRightPages()
      requires Wired()
      reads this, listener, flash, config, samples
    {
      match purpose
      case Nothing => true
      case Wrap(store) =>
        && (store == config || store == samples)
        && !listener.eraseParameters.reinit
        && (Busy() ==>
            flash.requestStart == store.layout.PageOf(|store.history.closed|) && flash.requestCount == 1
            && flash.erasedPages == [])
      case DeleteAll =>
        && listener.eraseParameters == DeleteRequest()
        && (Busy() ==>
            flash.requestStart == samples.layout.firstPage && flash.requestCount == samples.layout.nrOfPages)
        && (!Busy() ==> SamplesErased())
    }

    /** The stores are consistent, except that the samples are void while they are being deleted. The samples may be
        miscounted from a call to delete them on. */
    ghost predicate StoresValid()
      requires Wired()
      reads this, listener, flash, config, samples
    {
      && config.Valid(purpose == Wrap(config) && Busy())
      && (deleteDue || purpose == DeleteAll || samples.Consistent(purpose == Wrap(samples) && Busy()))
    }

    ghost predicate Valid()
      reads this, listener, flash, config, samples
    {
      && Wired() && Excludes() && ErasesRightPages() && StoresValid()
      && (if deleteDue then listener.eraseReminder == DeleteRequest() && listener.erasing
          else !IsReminder(listener.eraseReminder))
    }

    /** Both stores were initialised. At most one of them was reset between the close of a page and the erase that makes
        room for the next one; that erase is then under way. */
    constructor (config: ItemStore, samples: ItemStore, ghost outstanding: Purpose)
      requires config != samples && config.flash == samples.flash && config.listener == samples.listener
      requires outstanding == Nothing || outstanding == Wrap(config) || outstanding == Wrap(samples)
      requires config.Valid(outstanding == Wrap(config)) && samples.Valid(outstanding == Wrap(samples))
      requires config.layout.LastPage() < samples.layout.firstPage
      requires if outstanding.Wrap? then outstanding.store.ErasingOldest()
               else config.flash.Idle() && !config.listener.erasing
      requires config.listener.eraseReminder.pageNumber == 0
      ensures Valid() && this.config == config && this.samples == samples && purpose == outstanding
      ensures deletesQueued == 0 && !deleteDue && !eraseDoneQueued
    {
      hide ItemStore.Tracks, Layout.Capacity, Erased, Ascending;
      config.WhenTracking(outstanding == Wrap(config));
      samples.WhenTracking(outstanding == Wrap(samples));
      this.config, this.samples := config, samples;
      flash, listener := config.flash, config.listener;
      eraseDoneQueued, deletesQueued, deleteDue := false, 0, false;
      purpose := outstanding;
    }

    /**
     ItemStore_Init, after a reset of the device: both stores are rebuilt from what they left on
     flash, whichever of them had an erase outstanding, and the service is up. The stores are
     again the running ones if their histories are recoverable and no item on a page in use
     reads as erased.
     */
    static method Init(configLayout: Layout, samplesLayout: Layout, flash: Flash, listener: Listener,
                       ghost hc: History, ghost hs: History, ghost configDue: bool, ghost samplesDue: bool)
      returns (service: ItemStoreService)
      requires configLayout.Valid() && samplesLayout.Valid() && configLayout.LastPage() < samplesLayout.firstPage
      requires flash.Valid() && flash.Idle() && !listener.erasing && listener.eraseReminder.pageNumber == 0
      requires configLayout.ValidHistory(hc) && configLayout.Holds(flash.pages, hc, configDue)
      requires samplesLayout.ValidHistory(hs) && samplesLayout.Holds(flash.pages, hs, samplesDue)
      requires !(configDue && samplesDue)
      requires Recoverable(configLayout, flash.pages, hc) && Counted(hc.open) == |hc.open|
      requires Recoverable(samplesLayout, flash.pages, hs) && Counted(hs.open) == |hs.open|
      modifies flash, listener`erasing, listener`eraseParameters
      ensures fresh(service) && service.Valid() && service.flash == flash && service.listener == listener
      ensures fresh(service.config) && service.config.layout == configLayout && service.config.history == hc
      ensures fresh(service.samples) && service.samples.layout == samplesLayout && service.samples.history == hs
      ensures service.samples.Counts() && !service.deleteDue && service.deletesQueued == 0
      ensures flash.pages == old(flash.pages)
      ensures service.purpose == if configDue then Wrap(service.config) else if samplesDue then Wrap(service.samples)
                                 else Nothing
    {
      hide Layout.Holds, Layout.ValidHistory, Layout.Capacity, Recoverable, Recovered, Counted, ItemStore.Writes;
      var config := new ItemStore(configLayout, flash, listener);
      var samples := new ItemStore(samplesLayout, flash, listener);
      var _ := config.InitItemStore(hc, configDue);
      label Initialised:
      var _ := samples.InitItemStore(hs, samplesDue);
      config.StaysValid@Initialised(configDue);
      ghost var outstanding := if configDue then Wrap(config) else if samplesDue then Wrap(samples) else Nothing;
      service := new ItemStoreService(config, samples, outstanding);
    }

    // ---- requests ----

    /** A request to add an item. While an erase is under way, or while the store is being enumerated, it is not served.
        Otherwise the item is added, unless the store is miscounted and the item would go to a slot in use. */
    method HandleAddItem(store: ItemStore, data: Item) returns (handled: bool, ok: bool, ghost n: nat)
      requires Valid() && (store == config || store == samples) && store.layout.ValidItem(data)
      modifies this`purpose, config, samples, listener`erasing, listener`eraseParameters, flash
      ensures Valid() && store.layout.Valid()
      ensures handled <==> !old(listener.erasing) && !store.enumerating
      ensures handled && old(store.history.open == [] || store.currentPageNrOfItems == |store.history.open|) ==>
                ok && store.Added(data)
      ensures handled && old(store.history.open != [] && store.currentPageNrOfItems < |store.history.open|) ==>
                store.WroteOver(data, ok, n)
      ensures handled && old(store.Counts()) ==>
                store.Counts() && store.history == old(store.history).Add(data, store.layout.Capacity())
      ensures handled ==> purpose == (if listener.erasing then Wrap(store) else Nothing)
      ensures store.enumerating == old(store.enumerating)
      ensures !handled ==> unchanged(config) && unchanged(samples) && unchanged(flash) && unchanged(listener)
    {
      hide ItemStoreService.Valid, Layout.Holds, Layout.ValidHistory, Layout.Capacity, Layout.ValidItem, Flash.Idle,
           Flash.Erasing, History.Add;
      WhenServing();
      ok, n := false, 0;
      if listener.erasing || store.enumerating {
        return false, ok, n;
      }
      ok, n := store.AddItem(data);
      if store == config {
        samples.StaysValid(false);
      } else {
        config.StaysValid(false);
      }
      purpose := if listener.erasing then Wrap(store) else Nothing;
      AfterAdd(store);
      handled := true;
    }

    /** While requests are served, both stores are consistent and the flash is idle. */
    lemma WhenServing()
      requires Valid()
      ensures Wired() && flash.Valid()
      ensures !listener.erasing ==>
                && !eraseDoneQueued && !deleteDue && !IsReminder(listener.eraseReminder) && flash.Idle()
                && config.Valid(false) && samples.Consistent(false)
    {
      hide ItemStore.Tracks;
    }

    lemma WiredStore(store: ItemStore)
      requires Valid() && (store == config || store == samples)
      ensures store.flash == flash && store.listener == listener && store.layout.Valid()
    {
    }

    lemma AfterAdd(store: ItemStore)
      requires Wired() && flash.Valid() && !eraseDoneQueued && !deleteDue && !IsReminder(listener.eraseReminder)
      requires (store == config || store == samples) && purpose == if listener.erasing then Wrap(store) else Nothing
      requires if listener.erasing then store.ErasingOldest() else flash.Idle()
      requires config.Valid(purpose == Wrap(config)) && samples.Consistent(purpose == Wrap(samples))
      ensures Valid()
    {
      hide ItemStore.Tracks, Erased, Ascending;
    }

    /** A request to enumerate a store; not served during an erase nor while the store is being enumerated. */
    method HandleBeginEnumerate(store: ItemStore, enumerator: Enumerator)
      returns (handled: bool, ready: bool, ghost j: nat)
      requires Valid() && (store == config || store == samples) && store.Counts()
      modifies store`status, store`enumerating, enumerator
      ensures Valid()
      ensures handled <==> !listener.erasing && !old(store.enumerating)
      ensures handled ==> (ready <==>
                var s := store.ToSkip(enumerator.startIndex);
                s < |store.Log()| || (s == |store.Log()| && store.history.open == [] && store.history.closed != []))
      ensures handled && ready ==>
                && store.enumerating && enumerator.attached
                && var landing := Landing(store.ToSkip(enumerator.startIndex), store.layout.Capacity());
                   store.Enumerates(enumerator, landing, j)
      ensures handled && 0 <= enumerator.startIndex < |store.Log()| ==>
                ready && store.Enumerates(enumerator, Landing(enumerator.startIndex, store.layout.Capacity()), j)
      ensures !handled ==> unchanged(store) && unchanged(enumerator)
    {
      hide Layout.Holds, Layout.ValidHistory, Layout.Capacity, Erased, Ascending, Landing, ItemStore.Reading;
      if listener.erasing || store.enumerating {
        return false, false, 0;
      }
      ready, j := store.BeginEnumerate(enumerator);
      handled := true;
    }

    /** ItemStore_DeleteAllItems on the samples: they count as none from now on, and the message to erase them is
        queued. */
    method DeleteAllItems()
      requires Valid()
      modifies this`deletesQueued, samples`nrOfFullPages, samples`currentPageNrOfItems
      ensures Valid() && deletesQueued == old(deletesQueued) + 1
      ensures samples.nrOfFullPages == 0 && samples.currentPageNrOfItems == 0
    {
      hide ItemStore.Tracks, Layout.Capacity, Erased, Ascending;
      samples.MarkEmpty();
      // only pages of the item stores are erased, and not all of them
      assert samples.layout.firstPage >= FIRST_WRITABLE_PAGE
             && samples.layout.nrOfPages < LAST_WRITABLE_PAGE - FIRST_WRITABLE_PAGE + 1;
      deletesQueued := deletesQueued + 1;
    }

    /** The message to erase all samples. If no erase runs, the erase of all pages starts, else it is remembered. */
    method HandleErase()
      requires Valid() && deletesQueued > 0
      modifies this`purpose, this`deleteDue, this`deletesQueued, listener, flash
      ensures Valid() && listener.erasing && deletesQueued == old(deletesQueued) - 1
      ensures if old(listener.erasing) then deleteDue && unchanged(flash)
              else !deleteDue && purpose == DeleteAll && flash.Erasing()
    {
      hide Layout.Holds, Layout.ValidHistory, Layout.Capacity, Erased, Ascending;
      deletesQueued := deletesQueued - 1;
      if listener.erasing {
        listener.eraseReminder := DeleteRequest();
        deleteDue := true;
      } else {
        listener.eraseParameters := DeleteRequest();
        flash.Erase(samples.layout.firstPage, samples.layout.nrOfPages);
        listener.erasing := true;
        purpose := DeleteAll;
      }
      config.StaysValid(purpose == Wrap(config) && Busy());
    }

    // ---- the erase in the background ----

    /** The flash task starts the hardware erase of the next page. */
    method FlashTask()
      requires Valid() && flash.queuedPage.Some?
      modifies flash`queuedPage, flash`erasingPage
      ensures Valid() && flash.erasingPage == old(flash.queuedPage)
    {
      hide Layout.Holds, Layout.ValidHistory, Layout.Capacity, Erased, Ascending;
      flash.ProcessNextPage();
      config.StaysValid(purpose == Wrap(config) && Busy());
      if !deleteDue && purpose != DeleteAll {
        samples.StaysValid(purpose == Wrap(samples) && Busy());
      }
    }

    /** The end-of-operation interrupt; with the last page the erase-done message is posted. */
    method FlashInterrupt()
      requires Valid() && flash.erasingPage.Some?
      modifies this`eraseDoneQueued, flash
      ensures Valid()
      ensures eraseDoneQueued <==> flash.Idle()
      ensures !eraseDoneQueued ==> flash.queuedPage.Some? && flash.pagesToErase == old(flash.pagesToErase) - 1
    {
      hide Layout.Holds, Layout.ValidHistory, Layout.Capacity, Erased, Ascending;
      var done := flash.EndOfOperation();
      if done {
        eraseDoneQueued := true;
      }
      if purpose == Wrap(config) {
        config.OldestErased();
        if !deleteDue {
          samples.StaysValid(false);
        }
      } else {
        config.StaysValid(false);
        if purpose == Wrap(samples) {
          if !deleteDue {
            samples.OldestErased();
          }
        } else if done {
          ErasedIsBlank(flash.before, samples.layout.firstPage, samples.layout.nrOfPages);
        }
      }
    }

    /** The samples are an empty log. They count as one just if both counts stood at zero. */
    ghost predicate Emptied()
      requires Wired()
      reads samples, flash
    {
      && samples.history == EMPTY && samples.Consistent(false)
      && (samples.Valid(false) <==> samples.nrOfFullPages == 0 && samples.currentPageNrOfItems == 0)
    }

    /**
     The erase-done message. A remembered request to delete is carried out next; otherwise the
     listener serves requests again, and after a deletion the samples are an empty log. The
     counts of the samples are not reset by that.
     */
    method HandleEraseDone()
      requires Valid() && eraseDoneQueued
      modifies this`purpose, this`eraseDoneQueued, this`deleteDue, samples, listener, flash
      ensures Valid() && !eraseDoneQueued && !deleteDue
      ensures if old(deleteDue) then listener.erasing && purpose == DeleteAll && flash.Erasing() else !listener.erasing
      ensures !old(deleteDue) && old(purpose) == DeleteAll ==> Emptied()
      ensures !old(deleteDue) && old(purpose) != DeleteAll ==> unchanged(samples)
      ensures samples.nrOfFullPages == old(samples.nrOfFullPages)
      ensures samples.currentPageNrOfItems == old(samples.currentPageNrOfItems)
      ensures samples.enumerating == old(samples.enumerating)
    {
      hide ItemStore.Valid;
      if IsReminder(listener.eraseReminder) {
        StartRemembered();
      } else {
        ResumeRequests();
      }
    }

    /** The remembered erase is started. */
    method StartRemembered()
      requires Valid() && eraseDoneQueued && deleteDue
      modifies this`purpose, this`eraseDoneQueued, this`deleteDue, listener, flash
      ensures Valid() && !eraseDoneQueued && !deleteDue && listener.erasing && purpose == DeleteAll && flash.Erasing()
    {
      hide Layout.Holds, Layout.ValidHistory, Layout.Capacity, Erased, Ascending;
      eraseDoneQueued := false;
      listener.eraseParameters := listener.eraseReminder;
      listener.eraseReminder := EraseParameters(0xFF, false, 0xFF, 0);
      deleteDue := false;
      purpose := DeleteAll;
      flash.Erase(listener.eraseParameters.pageNumber, listener.eraseParameters.nrOfPages);
      config.StaysValid(false);
    }

    /** Nothing is left to erase: requests are served again, and a deleted store starts over from its erased pages. */
    method ResumeRequests()
      requires Valid() && eraseDoneQueued && !deleteDue
      modifies this`purpose, this`eraseDoneQueued, samples, listener`erasing, listener`eraseParameters, flash
      ensures Valid() && !eraseDoneQueued && !listener.erasing
      ensures old(purpose) == DeleteAll ==> Emptied()
      ensures old(purpose) != DeleteAll ==> unchanged(samples)
      ensures samples.nrOfFullPages == old(samples.nrOfFullPages)
      ensures samples.currentPageNrOfItems == old(samples.currentPageNrOfItems)
      ensures samples.enumerating == old(samples.enumerating)
    {
      hide Layout.Holds, Layout.ValidHistory, Layout.Capacity, Erased, Ascending, Recoverable, Recovered, Flash.Erasing;
      eraseDoneQueued := false;
      listener.erasing := false;
      if listener.eraseParameters.reinit {
        HoldsWhenErased(samples.layout, flash.pages);
        EmptyIsRecoverable(samples.layout, flash.pages);
        var errors := samples.InitItemStore(EMPTY, false);
        config.StaysValid(false);
      }
      purpose := Nothing;
    }

    /**
     Without further requests the listener comes back to serving requests: every erase ends,
     and so does one more if a deletion was remembered.
     */
    method RunToIdle()
      requires Valid()
      modifies this`purpose, this`eraseDoneQueued, this`deleteDue, samples, listener, flash
      ensures Valid() && !listener.erasing && flash.Idle()
      ensures old(deleteDue || purpose == DeleteAll) ==> Emptied()
      ensures samples.nrOfFullPages == old(samples.nrOfFullPages)
      ensures samples.currentPageNrOfItems == old(samples.currentPageNrOfItems)
      ensures samples.enumerating == old(samples.enumerating)
      ensures !old(deleteDue || purpose == DeleteAll) ==> unchanged(samples) && !deleteDue
    {
      hide ItemStore.Valid, ItemStore.Consistent, Emptied, StoresValid, ErasesRightPages;
      while listener.erasing
        invariant Valid()
        invariant !old(deleteDue || purpose == DeleteAll) ==>
                    unchanged(samples) && !deleteDue && (listener.erasing ==> purpose != DeleteAll)
        invariant old(deleteDue || purpose == DeleteAll) ==>
                    if listener.erasing then deleteDue || purpose == DeleteAll else Emptied()
        invariant samples.nrOfFullPages == old(samples.nrOfFullPages)
        invariant samples.currentPageNrOfItems == old(samples.currentPageNrOfItems)
        invariant samples.enumerating == old(samples.enumerating)
        decreases deleteDue, listener.erasing, !eraseDoneQueued, flash.pagesToErase, flash.queuedPage.Some?
      {
        if eraseDoneQueued {
          HandleEraseDone();
        } else if flash.queuedPage.Some? {
          FlashTask();
        } else {
          FlashInterrupt();
        }
      }
    }

    /**
     Items are added one after the other, each once the listener is back to serving requests.
     From an empty log on, the items on flash are then the newest of them: all but whole pages
     at the front.
     */
    method AddItems(store: ItemStore, xs: seq<Item>)
      requires Valid() && (store == config || store == samples) && !store.enumerating && !listener.erasing
      requires store.Counts()
      requires forall i :: 0 <= i < |xs| ==> store.layout.ValidItem(xs[i])
      modifies this, config, samples, listener, flash
      ensures Valid() && !listener.erasing && store.Valid(false)
      ensures store.history == AddAll(old(store.history), xs, store.layout.Capacity())
      ensures old(store.history) == EMPTY ==>
                var dropped := Dropped(|xs|, store.layout.nrOfPages, store.layout.Capacity());
                dropped <= |xs| && store.Log() == xs[dropped..]
    {
      hide Layout.ValidItem, Layout.Capacity, ItemStore.Tracks, AddAll, Dropped, ItemStore.Added, ItemStore.WroteOver,
           ErasesRightPages;
      ghost var capacity := store.layout.Capacity();
      NoneAdded(store.history, capacity);
      for i := 0 to |xs|
        invariant Valid() && !listener.erasing && !store.enumerating && store.Counts()
        invariant store.history == AddAll(old(store.history), xs[..i], capacity)
      {
        AddAllNext(old(store.history), xs, i, capacity);
        var _, _, _ := HandleAddItem(store, xs[i]);
        if listener.erasing { RunToIdle(); }
      }
      assert xs[..|xs|] == xs;
      store.layout.CapacityBounds();
      RetainedIsSuffix(xs, store.layout.nrOfPages, capacity);
    }

    /**
     A request to add a sample that was queued before the message to erase all samples. It finds
     the counts at zero: it succeeds exactly when the page in use was not begun, or its first
     item is all ones. After the erase the store is empty; but if the add succeeded it still
     counts one item, which is not there.
     */
    method AddBeforeErase(data: Item) returns (ok: bool)
      requires Valid() && !listener.erasing && !samples.enumerating && samples.layout.ValidItem(data)
      modifies this, config, samples, listener, flash
      ensures Valid() && !listener.erasing && samples.history == EMPTY && samples.Consistent(false)
      ensures ok <==> old(samples.history.open == [] || AllBlank(samples.history.open[0]))
      ensures samples.nrOfFullPages == 0 && samples.currentPageNrOfItems == if ok then 1 else 0
      ensures samples.Valid(false) <==> !ok
    {
      hide ItemStoreService.Valid, ItemStore.Tracks, Layout.Capacity;
      WhenServing();
      samples.CapacityOfMany();
      DeleteAllItems();
      WhenServing();
      var handled;
      ghost var n;
      handled, ok, n := HandleAddItem(samples, data);
      HandleErase();
      RunToIdle();
    }

    /** From an empty store, as many items as all its pages hold bring about the state in which a reset goes wrong:
        though the log has items, no enumeration of the restarted store is ready, whatever its start index. */
    method ResetAfterFirstWrap(store: ItemStore, xs: seq<Item>, enumerator: Enumerator)
      returns (restarted: ItemStore, ready: bool)
      requires Valid() && (store == config || store == samples) && !store.enumerating && !listener.erasing
      requires store.Counts() && store.history == EMPTY && store.layout.Fills(|xs|)
      requires forall i :: 0 <= i < |xs| ==> store.layout.ValidItem(xs[i])
      modifies this, config, samples, listener, flash, enumerator
      ensures fresh(restarted) && store.Valid(false) && restarted.TakesFreePageForOldest(store)
      ensures |store.Log()| > 0 && !ready
    {
      hide *;
      AddItems(store, xs);
      WiredStore(store);
      FirstWrap(xs, store.layout);
      restarted := store.RestartAfterFirstWrap();
      ghost var j;
      restarted.FreeForOldest(store);
      ready, j := restarted.BeginEnumerate(enumerator);
    }
  }

  /** As many items as all pages hold fill and close them all. */
  lemma FirstWrap(xs: seq<Item>, layout: Layout)
    requires layout.Valid() && layout.Fills(|xs|)
    ensures var h := AddAll(EMPTY, xs, layout.Capacity()); h.open == [] && |h.closed| == layout.nrOfPages
    ensures Dropped(|xs|, layout.nrOfPages, layout.Capacity()) == layout.Capacity() < |xs|
  {
    hide AddAll, Layout.Capacity;
    var h, capacity := AddAll(EMPTY, xs, layout.Capacity()), layout.Capacity();
    layout.CapacityBounds();
    AddAllPaged(xs, capacity);
    HistorySplits(h, |h.closed|, capacity);
    PageCount(|xs|, |h.closed|, |h.open|, capacity);
    PageCount(|xs|, layout.nrOfPages, 0, capacity);
    MulMonotone(2, layout.nrOfPages, capacity);
  }

  lemma NoneAdded(h: History, capacity: nat)
    ensures AddAll(h, [], capacity) == h
  {
  }

  lemma AddAllNext(h: History, xs: seq<Item>, i: nat, capacity: nat)
    requires i < |xs|
    ensures AddAll(h, xs[..i + 1], capacity) == AddAll(h, xs[..i], capacity).Add(xs[i], capacity)
  {
    assert xs[..i + 1][..i] == xs[..i];
  }

  lemma EmptyIsRecoverable(layout: Layout, pages: seq<seq<DoubleWord>>)
    requires Paged(layout, pages)
    ensures Recoverable(layout, pages, EMPTY) && layout.ValidHistory(EMPTY)
  {
    layout.CapacityBounds();
  }

  lemma ErasedIsBlank(pages: seq<seq<DoubleWord>>, start: nat, n: nat)
    requires start + n <= |pages|
    ensures forall p: nat :: start <= p < start + n ==> Erased(pages, start, n)[p] == Blanks(PAGE_WORDS)
  {
  }
}
