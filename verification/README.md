# Verification model of a humidity and temperature gadget's firmware

The firmware logs measurements to flash, sends them over Bluetooth, multiplexes virtual timers on one hardware
countdown, runs tasks under a cooperative sequencer and filters its battery voltage. The model covers the stateful cores
of these five parts and proves what they promise, parameterised over page count, page capacity, block id modulus, timer
count, priority levels and history depth. Where the code does less than its comments intend, the model keeps the code as
it is and the property states the exact condition under which the intent is met.

`dafny verify dfyconfig.toml` checks everything.

## How the model is organised

| file | content |
|---|---|
| `Basics.dfy` | definitions that several parts share |
| `Ring.dfy` | counters that wrap, and the comparison of wrapped block ids |
| `FlashDriver.dfy` | the flash memory, its driver, and the erase in the background |
| `PageFormat.dfy` | the two tags of a page header, packed into double words |
| `ItemLog.dfy` | the log as a value: closed pages, the page in use, what a ring of pages retains |
| `StoreImage.dfy` | the flash image that a log leaves on the pages of a store |
| `Recovery.dfy` | the scan after a reset, as a function of the image |
| `Enumeration.dfy` | positions in the log, where an enumeration starts and what it gives |
| `ItemStore.dfy` | the item store: adding, recovering, enumerating |
| `ItemStoreListener.dfy` | the message listener of the two stores and the erase that excludes requests |
| `SampleDownload.dfy` | the chunked download of the newest samples and the frames it is cut into |
| `TimerList.dfy`, `TimerServer.dfy` | the linked list of running timers, and the timer server over it |
| `RoundRobin.dfy` | the choice among tasks of one priority level |
| `TaskRuns.dfy`, `Sequencer.dfy` | what runs of tasks do to pending tasks and events, and the sequencer |
| `BatteryMonitor.dfy` | the voltage filter and what is derived from it |

Objects that the source updates in place are classes whose methods have the source's branches and loops. Each method is
proved against a specification on values: the item store against a `History` of everything ever added and the flash image
that this history fixes byte for byte; the timer server against ghost goals, which say when a caller wanted to be called
back; the download against the frames that a log determines; the sequencer against the script of calls and actions that its
surroundings follow, and a log of the choices made. Ghost state
never influences what a method does.

Time, interrupts and the radio are steps or parameters. Flash is a sequence of pages of 64-bit double words; programming
succeeds only on an erased double word. The clock of the timer server is a tick count that only `Tick` advances, so time
stands still inside critical sections. What interrupts, tasks and idle hooks of the sequencer do is an arbitrary finite
script: a step is an interrupt with its calls, taken at the next point where one may strike, or an action. The radio has room for an arbitrary number of frames before it refuses one.

## Main results

- **Recovery.** `RecoveryIsExact`: for every image that any run of adds, closes and wraps leaves, including one with the
  erase of the oldest page outstanding, the scan after a reset rebuilds the running store's tags if and only if the first
  page is in use, or nothing was ever written, or the next block id is 0, or at least 2 and below the id on the second
  page. `WrappedOutcome` says what it rebuilds otherwise, and `FirstWrapFails` and `ResetAfterFirstWrap` that every store
  comes there: filled for the first time, from any items, a store restarts with the free page for its oldest one. It then
  has items, but no enumeration is ready until the next one is added (`BeginEnumerate`), and when it has filled that page
  the source's assertion on the page to erase fails (`FillAfterRestart`).
  `InitItemStore` computes that scan, with the right number of full pages, and with the right number of items if and only
  if none of them is all ones. The comment at `source/app_service/item_store/ItemStore.c:58-60` asks for a block id
  modulus above the page count; the comparison needs twice the page count (`AgeOrderNeedsDoubleModulus`, an equivalence).
  The comment at line 632 has the scan add a missing complete tag; `FullPageWithoutTag` says that this goes through only
  while the ring has not gone round.
- **The store is a bounded log.** `AddItem` programs only erased double words of its own pages, adds the item, and keeps
  the image; `AddItems` with `RetainedIsSuffix`: after any number of adds, with the erases they cause, what is on flash is
  a suffix of the items added, and only whole pages are missing.
- **Enumeration.** `ReadAll`, for every start index and every state of the store (`Gives`): the rest of the log from the
  index on, or from as many items before the end as a negative index says, unless that is at a positive multiple of the
  page capacity, where it begins a page of items earlier. What a user sees
  of that: `ReadNewest` (at boot the settings fall back by a page when the newest one is the first on its page) and
  `ReadsInOrder` below.
- **Download.** `RunToEnd`: whatever the stack refuses, the first frame of a chunk or the header frame included, and
  whatever is added to the log between any two steps, the accepted data frames are exactly the expected ones, if the store
  counted its items right at the request. `ReadsInOrder` and `DeliversNewest`: these carry the newest samples in order if
  and only if no chunk starts at a positive multiple of the page capacity. Just after the close of a page the store counts
  a page too many. With no item added meanwhile, all samples of a request on the device then come if and only if it is for
  whole pages (`RequestAfterClose`), and they are the newest ones if and only if it is not for all that the store counts;
  any other request delivers the items up to the end of the log, goes on with old contents of the cache, and stalls
  (`PartAfterClose`, `RunToEnd`).
- **Erase exclusion.** From the boot on, with an erase outstanding in either store (`Init`), no request is served while an
  erase runs, a request to delete that arrives meanwhile is carried out next, and the listener returns to idle
  (`RunToIdle`); the driver's assertions never fail. A deletion zeroes the counts before its message is handled:
  `AddBeforeErase` says when an add queued in between succeeds, and that the emptied store then counts an item too many.
- **Timers.** The list visits the running timers once each in order of deadline, ties in start order; no callback is early;
  callbacks of a whole run are in that order; rescheduling moves no deadline, across the wrap of the sub-second register
  too; a timeout of T ticks sees at most T divided by the maximal countdown wakeups that call back no one. On every
  schedule of ticks and handler runs within the latency that the source allows, a running timer calls back at most that
  latency for each running timer and one more after it is due (`RunSchedule`). On the schedule that serves every interrupt
  in the tick that raises it, a running timer calls back at exactly the tick it is due if no other repeated timer with a
  timeout of no ticks is due before it (`RunToCallbackOf`), and on that schedule is never called back otherwise
  (`RunObstructed`, reached by `StarveTimer`), since no tick ever passes. Calls that come while the handler has left its
  critical section do not decide about the timer it serves: a stop of a repeated one and a start of another are lost
  (`Renewed`). No timer is handed out twice (`ServeClients`).
- **Sequencer.** `SelectTask`: at the most urgent level that has a candidate when the search comes to it, the round robin
  chooses among the tasks pending there, whatever interrupts strike meanwhile. Between any two moments of any run no
  pending task is lost, none is begun that was not set, and none twice unless it was set again (`Moves`); every task begun
  was chosen (`Recorded`). A run begins all tasks of its mask that were pending and unmasked, unless they are paused or an
  awaited event comes (`AllBegun`), and no others, and if nothing else happens it is determined what it does
  (`QuietRun`). Every wait sees its event, uses it up, and returns at once if it is there (`Waited`, `WaitEvt`). No active
  task is run again before it returns, however deeply waits nest; a waiting candidate is overtaken at most twice by any
  other task of its level, and that bound is reached.
- **Battery.** The two full-range loops with the comparison that looks reversed do sort. The reported voltage is the mean
  of the two largest of four; it is the median that its comment promises if and only if the elements around the upper
  middle one are equal, or one apart where rounding hides it (`ReportedIsMedian`). The state derived from it is wrong just
  when a threshold parts the mean of the two middle measurements from that of the pair above, and then too lax
  (`StateIsTooLaxWhen`).

## Model

| member | source | states |
|---|---|---|
| Rings.RingIsMod | source/app_service/item_store/ItemStore.c:671-675 | stepwise wrapping agrees with the remainder by which the source advances block ids |
| Rings.RingInRing | source/app_service/item_store/ItemStore.c:67-69 | a block id that runs several turns of the page ring determines the page |
| Rings.BlockOrderIsAge | source/app_service/item_store/ItemStore.c:704-718 | with twice as many ids as pages, the wrapped comparisons order two pages of one turn by age, newer and older alike |
| Rings.AgeOrderNeedsDoubleModulus | source/app_service/item_store/ItemStore.c:58-61 | the comparison orders all such pairs if and only if the modulus is at least twice the page count |
| PageFormat.BeginTagRoundTrip | source/app_service/item_store/ItemStore.c:84-91 | a begin tag survives writing and reading, and never reads as erased |
| PageFormat.CompleteTagRoundTrip | source/app_service/item_store/ItemStore.c:93-99 | the same for a complete tag |
| PageFormat.BeginTagBytes | source/app_service/item_store/ItemStore.c:84-91 | the bytes of a begin tag in memory: the magic number, page, block and item id and the item size, in the order of the struct |
| PageFormat.CompleteTagBytes | source/app_service/item_store/ItemStore.c:93-99 | those of a complete tag, with two bytes for the number of items |
| FlashDriver.Flash.constructor | source/hal/Flash.c:111-122 | the driver starts idle and leaves the memory as it is |
| FlashDriver.Flash.Program | source/hal/Flash.c:165-173 | a double word is programmed if and only if it is erased, and nothing else changes |
| FlashDriver.Flash.Write | source/hal/Flash.c:140-177 | a write succeeds if and only if its whole target is erased, changes only the target, and otherwise stops before the first double word that is not erased; the lock is released either way |
| FlashDriver.Flash.WriteBytes | source/hal/Flash.c:140-177 | a write of any number of bytes programs what was read of them with the last double word masked, under the same condition |
| FlashDriver.MaskedBytes | source/hal/Flash.c:155-161 | the mask clears the first bytes of the last double word in memory, and keeps the others |
| FlashDriver.PaddingIsAsMeant | source/hal/Flash.c:153-161 | so the bytes of the buffer arrive padded with zeros, as the comment says, if and only if all those bytes are zero that are cleared instead of kept or kept instead of cleared |
| FlashDriver.WholeWordsAreKept | source/hal/Flash.c:155-161 | writes of whole double words, which all of the item stores are, are not touched by that |
| FlashDriver.ProgramNext | source/hal/Flash.c:163-174 | each step of the loop extends the programmed prefix by one double word |
| FlashDriver.Flash.Erase | source/hal/Flash.c:186-208 | the request is pending with the semaphore held, the first page queued, the memory untouched |
| FlashDriver.Flash.ProcessNextPage | source/hal/Flash.c:211-231 | the queued page is the one whose erase starts |
| FlashDriver.Flash.EndOfOperation | source/hal/Flash.c:252-271 | exactly that page is erased; the callback comes with the last page and nothing remaining, the next page is queued otherwise |
| FlashDriver.Flash.EraseToEnd | source/hal/Flash.c:186-271 | an erase of n pages erases exactly these, once each, in ascending order, and calls back once with 0 remaining |
| ItemLog.AddAppends | source/app_service/item_store/ItemStore.c:564-591 | an add appends to everything ever added and keeps closed pages full and the page in use not |
| ItemLog.AddRetains | source/app_service/item_store/ItemStore.c:662-694 | an add appends to what is on flash; it drops exactly the oldest page's items when it fills a page and no other page is free |
| ItemLog.AddAllPaged | source/app_service/item_store/ItemStore.c:564-591 | after any adds the pages hold all items in order |
| ItemLog.RetainedIsSuffix | source/app_service/item_store/ItemStore.c:746-792 | after any adds the items on flash are a suffix of the items added, whole pages are missing, none before the first wrap |
| ItemLog.HistorySplits | source/app_service/item_store/ItemStore.c:469-509 | the items from a page on are all items without as many pages |
| StoreImage.AppendItem | source/app_service/item_store/ItemStore.c:645-660 | the next slot is erased, lies on the page, and writing it adds the item to the page |
| StoreImage.BodySlots | source/app_service/item_store/ItemStore.c:511-550 | every item can be read back from its slot |
| StoreImage.FullWhenNoRoom | source/app_service/item_store/ItemStore.c:666-670 | no item fits if and only if the page holds its capacity |
| StoreImage.PagesApart | source/app_service/item_store/ItemStore.c:66-69 | pages kept, page in use and pages never used are different pages |
| StoreImage.HoldsAfterAppend | source/app_service/item_store/ItemStore.c:645-660 | writing an item keeps the image of the history |
| StoreImage.HoldsAfterClose | source/app_service/item_store/ItemStore.c:671-693 | closing keeps the image; the next page is erased, or holds the oldest page once the ring has gone round |
| StoreImage.HoldsAfterErase | source/app_service/item_store/ItemStore.c:780-790 | the erase of that page keeps the image of the history |
| StoreImage.OverwriteItem | source/app_service/item_store/ItemStore.c:645-660 | what is left on the page when an item is written to a slot in use, up to the first double word that is not erased |
| StoreImage.HoldsIsLocal | source/app_service/item_store/ItemStore.c:46-56 | changes to other pages do not disturb a store |
| StoreImage.HeadersRead | source/app_service/item_store/ItemStore.c:71-82 | the header tells erased, open and full pages apart and gives their tags |
| StoreImage.TagsWrite | source/app_service/item_store/ItemStore.c:572-577 | a begin tag opens an erased page, a complete tag closes an open one, both on erased double words |
| Recovery.HeaderSeen | source/app_service/item_store/ItemStore.c:608-618 | what the scan reads at each position of the ring, for every history |
| Recovery.ScanCountsFull | source/app_service/item_store/ItemStore.c:619-628 | the scan counts the complete pages it has passed |
| Recovery.ScanTracksEnds | source/app_service/item_store/ItemStore.c:696-719 | once the first page was seen in use, the scan holds the newest and oldest page seen so far |
| Recovery.ScanFindsEnds | source/app_service/item_store/ItemStore.c:696-719 | it ends with the newest and oldest page on flash |
| Recovery.RecoveredWhenFirstUsed | source/app_service/item_store/ItemStore.c:593-643 | with the first page in use the restart rebuilds the running store's tags |
| Recovery.RecoveredWhenEmpty | source/app_service/item_store/ItemStore.c:593-643 | so it does on a blank store |
| Recovery.FirstPageFree | source/app_service/item_store/ItemStore.c:604-618 | the first page is free only on a blank store and when the ring has just gone round |
| Recovery.WrappedNewest | source/app_service/item_store/ItemStore.c:704-718 | then the scan finds the newest page, or none but the initial tag |
| Recovery.RecoveredWhenWrapped | source/app_service/item_store/ItemStore.c:593-643 | then the restart is exact if and only if the next block id is 0, or at least 2 and below the id on the second page |
| Recovery.WrappedOutcome | source/app_service/item_store/ItemStore.c:604-642 | what the restart rebuilds there in every case: next page and oldest page |
| Recovery.FirstWrapFails | source/app_service/item_store/ItemStore.c:604-642 | every store is in the failing case right after its first wrap: the restart takes the erased next page for the oldest |
| Recovery.RecoveryIsExact | source/app_service/item_store/ItemStore.c:593-643 | for every image of every history, exact if and only if `Recoverable` |
| Recovery.WrappedConditionWhenDividing | source/app_service/item_store/ItemStore.c:46-61 | where the page count divides the modulus, only next block id 0 is left |
| Recovery.ScanTotal | source/app_service/item_store/ItemStore.c:619-628 | the scan's count of complete pages, from which the restart computes the full pages |
| Recovery.SlotsRead | source/app_service/item_store/ItemStore.c:721-735 | the slots of a page in use read as its items and then as erased |
| Recovery.Counted | source/app_service/item_store/ItemStore.c:721-735 | the items before the first that reads as erased |
| Recovery.CountedAll | source/app_service/item_store/ItemStore.c:721-735 | all items are counted if and only if none is all ones |
| Recovery.FullPageWithoutTag | source/app_service/item_store/ItemStore.c:629-642 | a full page that lacks its complete tag: with the next page free the scan has the running store's oldest page, so closing it is all there is to do; with the next page in use the assertion on the oldest page holds only at the last page of the scan, and the last step of the restart comes to a complete page, to be erased while an erase is pending |
| Enumeration.LandsExactly | source/app_service/item_store/ItemStore.c:469-509 | the landing position, where `FindEnumeratorStartPosition` stops, is the one asked for if and only if it is 0 or no multiple of the capacity |
| Enumeration.LandingOfMultiple | source/app_service/item_store/ItemStore.c:469-509 | for k full pages it is item (k-1) times the capacity |
| Enumeration.NewestIsFound | source/app_service/item_store/SettingsController.c:104 | the landing position for the last item is right if and only if that is the only one or not the first on its page; `ReadNewest` says so of the store |
| Enumeration.EnumeratesTheRest | source/app_service/item_store/ItemStore.c:397-550 | an enumeration gives the rest of the log if and only if it skips nothing or not whole pages; otherwise the part that begins a page earlier, and ends as much earlier unless a page was just closed |
| Enumeration.GivesEnumerated | source/app_service/item_store/ItemStore.c:397-550 | what a client sees of an enumeration for every position it asks for, before, in and behind the log |
| Enumeration.ItemAtPosition | source/app_service/item_store/ItemStore.c:511-550 | the item at a position of the log stands where page and index say |
| Enumeration.RetainedLength | source/app_service/item_store/ItemStore.c:403-407 | the length of the log is full pages times capacity plus the items of the page in use |
| ItemStores.ItemStore.HasNoData | source/app_service/item_store/ItemStore.c:737-744 | true if and only if all is erased |
| ItemStores.ItemStore.WriteItem | source/app_service/item_store/ItemStore.c:645-660 | succeeds if and only if the slot is erased, changes only the slot up to the first double word in use, counts the item |
| ItemStores.ItemStore.AdjustNextWritePage | source/app_service/item_store/ItemStore.c:746-792 | moves on to the next page; if that holds the oldest page, this leaves the log and its erase is under way; the assertions hold |
| ItemStores.ItemStore.ClosePageIfFull | source/app_service/item_store/ItemStore.c:662-694 | a full page is closed, the image kept; any other is left alone |
| ItemStores.ItemStore.BeginPageWith | source/app_service/item_store/ItemStore.c:571-579 | the first item of a page begins it with its tag |
| ItemStores.ItemStore.AddToOpenPage | source/app_service/item_store/ItemStore.c:581-588 | a further item is added and the page closed when that fills it; with items uncounted it goes over one of them |
| ItemStores.ItemStore.AddItem | source/app_service/item_store/ItemStore.c:564-591 | on right counts never fails, the history grows by the item, image and counts are kept, only own pages change, an erase runs just when the ring wrapped, the item count is one page too high just when the add closed a page; with too few items counted on the page it succeeds if and only if the item behind the counted ones is all ones, and writes over that |
| ItemStores.ItemStore.UpdateNewestOldestPage | source/app_service/item_store/ItemStore.c:696-719 | computes the update step of the scan that `Recovery` is about |
| ItemStores.ItemStore.CountItemsOnCurrentPage | source/app_service/item_store/ItemStore.c:721-735 | counts the items of a page in use |
| ItemStores.ItemStore.ScanPage | source/app_service/item_store/ItemStore.c:608-634 | one position of the scan: ends, full pages and items so far |
| ItemStores.ItemStore.InitItemStore | source/app_service/item_store/ItemStore.c:593-643 | on every image of every history: the tags that `Recovery.Recovered` says, the full pages added to those counted before, the items of the page in use up to the first all ones, no inconsistency reported, an outstanding erase started, the memory untouched; from zero counts it is the running store again if and only if `Recoverable` and no such item |
| ItemStores.ItemStore.RestartAfterFirstWrap | source/app_service/item_store/ItemStore.c:593-643 | a restart right after the first wrap writes on where the store was and counts right, but takes the erased next page for the oldest |
| ItemStores.ItemStore.FillAfterRestart | source/app_service/item_store/ItemStore.c:746-790 | as many items as fill that page are written, and then the page to give up is in use and not the one taken for the oldest, which the source asserts |
| ItemStores.ItemStore.FindEnumeratorStartPosition | source/app_service/item_store/ItemStore.c:469-509 | terminates and finds page and index of the landing position, for every start position; from an erased oldest page it does not get on |
| ItemStores.ItemStore.SearchOnFullPage | source/app_service/item_store/ItemStore.c:480-500 | a full page ends the search inside it or, counted a second time with nothing left to skip, at its beginning; otherwise the search is at the next page |
| ItemStores.ItemStore.SearchOnOpenPage | source/app_service/item_store/ItemStore.c:480-509 | the page in use ends the search at the position asked for, or the log is too short |
| ItemStores.ItemStore.InitEnumeratorStatus | source/app_service/item_store/ItemStore.c:438-467 | ready if and only if the index is on the page; then the page's items are what is counted; never on an erased page |
| ItemStores.ItemStore.TotalIsReported | source/app_service/item_store/ItemStore.c:402-407 | the total is the number of items on flash, but one page capacity more between a page close and the next add; it fits 16 bits |
| ItemStores.ItemStore.SkipsAsAsked | source/app_service/item_store/ItemStore.c:402-416 | the items to skip are as many as the start index says, or all but as many from the end as a negative one says, where the end is a page too far just after the close of a page |
| ItemStores.ItemStore.BeginEnumerate | source/app_service/item_store/ItemStore.c:397-436 | ready if and only if fewer items are skipped than the log has, or as many and these fill whole pages; negative indices count from the end of what is reported; never ready on a store that takes an erased page for its oldest; for an index inside the log it is ready and stands at the landing position of that index |
| ItemStores.ItemStore.GetNext | source/app_service/item_store/ItemStore.c:511-550 | gives the item at the next position of the log, across pages, until the end |
| ItemStores.ItemStore.EndEnumerate | source/app_service/item_store/ItemStore.c:389-395 | requests are served again |
| ItemStores.ItemStore.ReadAll | source/app_service/item_store/ItemStore.c:397-550 | for every start index up to 16 bits: the rest of the log from the index on if that is 0 or no multiple of the capacity, from a page earlier on otherwise, and nothing behind the end; the same from the end for a negative index, shifted by a page just after the close of a page |
| ItemStores.ItemStore.ReadNewest | source/app_service/item_store/SettingsController.c:137-145 | start index -1, with which the settings are read: found unless the store is empty or a page was just closed; the newest item if it is the only one or not the first on its page, otherwise the one a page before |
| ItemStores.ItemStore.StaysValid | source/app_service/item_store/ItemStore.c:46-56 | a store stays consistent while the other one works |
| ItemStores.ItemStore.OldestErased | source/app_service/item_store/ItemStore.c:857-865 | a store is consistent again after the erase |
| ItemStoreListener.ItemStoreService.constructor | source/app_service/item_store/ItemStore.c:329-333 | the service is consistent after the initialisation of both stores, with an erase of either store's oldest page under way or none |
| ItemStoreListener.ItemStoreService.Init | source/app_service/item_store/ItemStore.c:329-333 | after a reset both stores are the running ones again and the service is consistent, whichever of them has an erase outstanding |
| ItemStoreListener.ItemStoreService.HandleAddItem | source/app_service/item_store/ItemStore.c:794-820 | served if and only if no erase runs and the store is not enumerated, with the outcome that `AddItem` says; otherwise nothing changes |
| ItemStoreListener.ItemStoreService.HandleBeginEnumerate | source/app_service/item_store/ItemStore.c:807-826 | the same for enumerations; once served, the enumerator is ready as `BeginEnumerate` says and stands at the landing position |
| ItemStoreListener.ItemStoreService.DeleteAllItems | source/app_service/item_store/ItemStore.c:353-373 | the counts are zero at once, while all items are still there, and the message is queued; its assertion holds |
| ItemStoreListener.ItemStoreService.HandleErase | source/app_service/item_store/ItemStore.c:794-804 | the message starts the erase of all pages, or is remembered while another erase runs |
| ItemStoreListener.ItemStoreService.FlashTask | source/hal/Flash.c:224-231 | the next page's erase starts, both stores stay consistent |
| ItemStoreListener.ItemStoreService.FlashInterrupt | source/app_service/item_store/ItemStore.c:857-865 | each page's completion; the erase-done message comes with the last |
| ItemStoreListener.ItemStoreService.HandleEraseDone | source/app_service/item_store/ItemStore.c:828-855 | a remembered request is carried out next; otherwise requests are served again, and deleted samples are an empty log, counted as one if and only if both counts still stand at zero |
| ItemStoreListener.ItemStoreService.RunToIdle | source/app_service/item_store/ItemStore.c:828-865 | from every state the listener returns to idle, and a requested deletion has then happened |
| ItemStoreListener.ItemStoreService.AddItems | source/app_service/item_store/ItemStore.c:342-350 | any number of adds, erases in between included: the history is all of them in order, and from an empty store the items on flash are the suffix that `RetainedIsSuffix` says |
| ItemStoreListener.ItemStoreService.AddBeforeErase | source/app_service/item_store/ItemStore.c:353-373 | an add queued before the erase message of a deletion succeeds if and only if the page in use was not begun or its first item is all ones; the store is empty after the erase, but counts one item if the add succeeded |
| ItemStoreListener.ItemStoreService.ResetAfterFirstWrap | source/app_service/item_store/ItemStore.c:593-643 | any items that fill an empty store for the first time bring it to a state whose restart is wrong: though there are items, no enumeration is ready, whatever its start index |
| SampleDownload.MeasurementItemController.BeginReadSamples | source/app_service/item_store/MeasurementItemController.c:375-418 | delivers the requested number or all; start index, number and parity add up to what is available |
| SampleDownload.MeasurementItemController.ReadMoreSamples | source/app_service/item_store/MeasurementItemController.c:420-451 | the front of the cache holds the next items, limited by cache, enumerator and what is unread in 16 bits; a read that fails counts as one and leaves the cache |
| SampleDownload.BleContext.BeginDownload | source/app/BleContext.c:698-754 | a new download starts with nothing transmitted; data is asked for, and numbered from 1, only if the header frame was accepted |
| SampleDownload.BleContext.AskForMore | source/app/BleContext.c:787-799 | with nothing to send, more data is asked for if any is left; otherwise a download that has begun is cleared |
| SampleDownload.BleContext.StopSendSamples | source/app/BleContext.c:756-763 | a download that has begun is cleared, a pending one is not |
| SampleDownload.BleContext.TrySendSampleFrames | source/app/BleContext.c:765-799 | sends consecutive frames until refusal, end of chunk or end of download, indices and counters in step; the last frame may reach behind the chunk, but not behind the cache; from a used-up chunk it sends nothing and asks |
| SampleDownload.BleContext.SendFrames | source/app/BleContext.c:765-786 | its loop: what is accepted are the next frames of the chunk, and it stops at the first refusal |
| SampleDownload.NextFrame | source/app/BleContext.c:765-786 | each frame lies within the cache, is not empty and moves all counters on together |
| SampleDownload.FramesContinue | source/app/BleContext.c:765-799 | frames cut from one chunk continue those cut before |
| SampleDownload.FramesCarry | source/app/BleContext.c:765-786 | frames carry exactly the data |
| SampleDownload.FramesSized | source/app/BleContext.c:769-784 | they are numbered without a gap, and full but for the last |
| SampleDownload.ExpectedCarries | source/app/BleContext.c:765-799 | the frames of a download carry its samples and no more |
| SampleDownload.ReadsInOrder | source/app_service/item_store/MeasurementItemController.c:346-353 | for every page capacity, the items read are those from the first on if and only if no chunk starts at a positive multiple of it |
| SampleDownload.ReadsPageBefore | source/app_service/item_store/MeasurementItemController.c:346-353 | they are those from a page earlier on if and only if all chunks start at one |
| SampleDownload.ReadsInOrderOnDevice | source/app_service/item_store/MeasurementItemController.c:67 | where cache and page hold as much: in order if and only if the first item is not at a multiple, or one chunk from item 0 is enough |
| SampleDownload.DeliversNewest | source/app_service/item_store/MeasurementItemController.c:375-418 | in order the payload is exactly the newest part of the log; of an odd number the newest sample is left out |
| SampleDownload.SecondChunkRepeats | source/app_service/item_store/ItemStore.c:469-509 | reading a longer log from its start, the second chunk begins with item 0 again |
| SampleDownload.ChunkCarries | source/app_service/item_store/MeasurementItemController.c:420-451 | a chunk that can be read in full carries the next part of the stream, whatever was appended since the request |
| SampleDownload.Download.Request | source/app_service/item_store/MeasurementItemController.c:338-344 | how many samples a request yields, with the enumerator where the last use left it, and how many of them come right, also just after the close of a page; it waits for room when the header frame is refused |
| SampleDownload.Download.Append | source/app_service/item_store/ItemStore.c:564-591 | an item added at any time changes nothing for a download that was counted right; of one that was not, what was sent so far stays right |
| SampleDownload.RequestAfterClose | source/app_service/item_store/MeasurementItemController.c:375-403 | a request on the device while the store counts a page too many: all items can be read if and only if it is for whole pages, and they are the newest ones if and only if besides it is not for all that is counted |
| SampleDownload.WholePagesAfterClose | source/app_service/item_store/MeasurementItemController.c:375-451 | the payload is then the newest part of the log |
| SampleDownload.AllAfterClose | source/app_service/item_store/MeasurementItemController.c:375-451 | a request for all that is counted gets the first page twice |
| SampleDownload.PartAfterClose | source/app_service/item_store/MeasurementItemController.c:375-451 | of any other request exactly the whole frames up to the end of the log come right, a page less than asked for, and none of less than a page |
| SampleDownload.ReachIsComplete | source/app_service/item_store/MeasurementItemController.c:346-353 | what comes right of a request can be read in full; it is the whole request if and only if all its chunks can be |
| SampleDownload.Download.Send | source/app/BleContext.c:765-799 | sending keeps the accepted frames right as far as they are to come right and all counters in step, and makes progress; a doomed download does not complete |
| SampleDownload.Download.ServeNext | source/app_service/item_store/MeasurementItemController.c:346-353 | reading and sending a chunk keeps the download right; with nothing to read, all that comes right was sent |
| SampleDownload.Download.ReadChunk | source/app_service/item_store/MeasurementItemController.c:420-451 | the chunk in hand carries the stream on, and is full if more is to follow |
| SampleDownload.Download.PoolAvailable | source/app/BleContext.c:719-722 | sending resumes where it was refused; after a refused header the data is asked for |
| SampleDownload.Download.AcceptedFrames | source/app/BleContext.c:765-799 | never more frames than the download has; at the end exactly the expected ones, as far as they come right |
| SampleDownload.Download.RunToEnd | source/app/BleContext.c:698-799 | every download ends; all that comes right is accepted, whatever is refused and appended meanwhile, and is the whole download if that was counted right, numbered from 0 without its header; on the device a download that was not counted right and not for whole pages stalls |
| TimerList.LinkAfterInserts | source/app_service/timer_server/TimerServerHelper.c:121-132 | linking after a timer inserts behind it, all links right |
| TimerList.LinkBeforeInserts | source/app_service/timer_server/TimerServerHelper.c:143-147 | linking before the first makes it the first |
| TimerList.UnlinkRemoves | source/app_service/timer_server/TimerServerHelper.c:100-108 | unlinking inside removes exactly that timer |
| TimerList.DropFirst | source/app_service/timer_server/TimerServerHelper.c:96-98 | dropping the first needs no relinking |
| TimerServers.TicksExact | source/app_service/timer_server/TimerServer.c:326-330 | the conversion is exact if and only if the timeout is below 2097152 ms; above, the product wraps |
| TimerServers.WrappedTicksAreFewer | source/app_service/timer_server/TimerServer.c:326-330 | a wrapped product gives fewer ticks, and never the most that 32 bits can give |
| TimerServers.ElapsedIsTicksBetween | source/app_service/timer_server/TimerServerRtcInterface.c:129-153 | less than a period apart, elapsed ticks are right across the wrap |
| TimerServers.ElapsedLosesPeriods | source/app_service/timer_server/TimerServerRtcInterface.c:129-153 | further apart, whole periods are lost |
| TimerServers.CountingOffKeeps | source/app_service/timer_server/TimerServerRtcInterface.c:180-189 | counting elapsed ticks off every timer keeps every deadline |
| TimerServers.StartedInOrder | source/app_service/timer_server/TimerServerHelper.c:64-88 | where the search puts a timer, deadlines stay sorted, ties in start order |
| TimerServers.StartedAfterRan | source/app_service/timer_server/TimerServer.c:222-265 | a timer started now comes after every callback made |
| TimerServers.CallbackInOrder | source/app_service/timer_server/TimerServer.c:166-199 | the first timer's callback comes after those made and before those to come, also those started meanwhile |
| TimerServers.WakeCounts | source/app_service/timer_server/TimerServer.c:193-196 | a cut countdown uses up a maximum of every running timer's timeout, and no deadline has come |
| TimerServers.TimerServer.CountdownInTime | source/app_service/timer_server/TimerServerRtcInterface.c:251-272 | the countdown is never above the maximum nor later than any deadline, and the register does not wrap twice before it is read |
| TimerServers.TimerServer.LinkTimerAfter | source/app_service/timer_server/TimerServerHelper.c:121-132 | relinks as the list lemma says |
| TimerServers.TimerServer.LinkTimerBefore | source/app_service/timer_server/TimerServerHelper.c:134-148 | likewise; its branch for a timer that is not the current one is never taken |
| TimerServers.TimerServer.SearchLast | source/app_service/timer_server/TimerServerHelper.c:71-79 | the search ends and splits the list at the new timer's count |
| TimerServers.TimerServer.LinkTimer | source/app_service/timer_server/TimerServerHelper.c:55-90 | the timer is inserted behind those with no more left; only links and its own count change; previous and current differ |
| TimerServers.TimerServer.UnlinkTimer | source/app_service/timer_server/TimerServerHelper.c:92-112 | the timer leaves the list, the others keep deadlines and order |
| TimerServers.TimerServer.CalculateWakeupCounterValue | source/app_service/timer_server/TimerServerRtcInterface.c:251-272 | the ticks left, cut to the maximum, and whether they were cut |
| TimerServers.TimerServer.RestartWakeupCounter | source/app_service/timer_server/TimerServerRtcInterface.c:212-249 | the interrupt is pending at once for 0, and otherwise comes in exactly that many ticks |
| TimerServers.TimerServer.RescheduleTimerList | source/app_service/timer_server/TimerServerRtcInterface.c:155-193 | the counter is set up for the first timer; no deadline moves |
| TimerServers.TimerServer.StartTimer | source/app_service/timer_server/TimerServer.c:222-265 | the timer is due in its timeout from now, others keep their deadlines and which of them are free; the branch without rescheduling is never taken |
| TimerServers.TimerServer.Stop | source/app_service/timer_server/TimerServer.c:267-315 | the timer no longer runs but stays handed out, others keep their deadlines and which are free does not change; nothing happens if it does not run |
| TimerServers.TimerServer.Start | source/app_service/timer_server/TimerServer.c:217-220 | the same as starting, for milliseconds |
| TimerServers.TimerServer.RtcWakeupHandler | source/app_service/timer_server/TimerServer.c:144-215 | the handler never meets an empty list; it sets up a cut countdown again, or calls back the due timer of earliest deadline; whatever calls come while it has left its critical section, that timer is then started anew if repeated and out if not, and timers no call is about are as before; no timer that was handed out becomes free |
| TimerServers.TimerServer.Window | source/app_service/timer_server/TimerServer.c:174-183 | any calls outside the critical section keep list, deadlines and order, and the timeout used next is the one asked for last |
| TimerServers.TimerServer.Renew | source/app_service/timer_server/TimerServer.c:172-187 | so a stop of a repeated timer in the window is lost, and a start of another one |
| TimerServers.TimerServer.Tick | source/app_service/timer_server/TimerServerRtcInterface.c:31-38 | time within the allowed handler latency keeps everything |
| TimerServers.TimerServer.FindFirstFreeId | source/app_service/timer_server/TimerServer.c:317-324 | the first free timer |
| TimerServers.TimerServer.CreateTimer | source/app_service/timer_server/TimerServer.c:120-137 | hands out the first free timer without disturbing others |
| TimerServers.TimerServer.ServeClients | source/app_service/timer_server/TimerServer.c:120-324 | whatever clients, clock and interrupt do, as long as only timers handed out are started, none is handed out twice |
| TimerServers.TimerServer.RunToCallback | source/app_service/timer_server/TimerServer.c:144-215 | served at once, the first timer calls back exactly when due, with no more cut countdowns than its timeout holds maxima |
| TimerServers.CallbackComesCloser | source/app_service/timer_server/TimerServer.c:166-199 | each callback leaves fewer callbacks ahead of every other running timer that is not obstructed, and leaves it unobstructed |
| TimerServers.ObstructionStays | source/app_service/timer_server/TimerServer.c:166-199 | each callback leaves an obstructed timer running, not due, and obstructed by the same timer |
| TimerServers.TimerServer.RunToCallbackOf | source/app_service/timer_server/TimerServer.c:144-215 | on the schedule that serves every interrupt in its tick, a running timer calls back, and exactly when due, if it is unobstructed: no other repeated timer with a timeout of no ticks is due before it |
| TimerServers.TimerServer.RunObstructed | source/app_service/timer_server/TimerServer.c:144-215 | on that schedule otherwise no number of callbacks contains one of it, and time stays before its deadline |
| TimerServers.TimerServer.StarveTimer | source/app_service/timer_server/TimerServer.c:144-265 | that is reached: a repeated timer of 0 ms and another of 1 s |
| TimerServers.TimerServer.RunSchedule | source/app_service/timer_server/TimerServerRtcInterface.c:31-38 | on every schedule of ticks and handler runs within the allowed latency, a running timer is called back no earlier than due, and no later than that latency for each running timer and one more |
| TimerServers.TurnsFall | source/app_service/timer_server/TimerServer.c:166-199 | once a timer is due, each callback leaves one turn less before it, since timers started anew come behind it |
| TimerServers.TimerServer.StandsStill | source/app_service/timer_server/TimerServer.c:172-183 | on that schedule at the handler itself: while a repeated timer of no ticks is due, the interrupt stays pending however often it is served, and no timer due later calls back |
| RoundRobin.HighestBit | lib/Utilities/sequencer/stm32_seq.c:511-530 | halving and a table find the highest bit; this is the code for Cortex-M0 cores, on the application core line 539 has an instruction count the leading zeros instead |
| RoundRobin.HighestBitIsPosition | lib/Utilities/sequencer/stm32_seq.c:511-540 | that is the highest task of the mask, which is what 31 less the leading zeros are too |
| RoundRobin.ChoiceUsesTurn | lib/Utilities/sequencer/stm32_seq.c:263-279 | while a task waits, a choice of another uses up its turn or starts the one new round |
| RoundRobin.ChoiceUsesRound | lib/Utilities/sequencer/stm32_seq.c:263-279 | each choice uses up the round |
| RoundRobin.OvertakenAtMostTwice | lib/Utilities/sequencer/stm32_seq.c:249-279 | a task that is always a candidate sees no other chosen more than twice before it |
| RoundRobin.WaitsAtMostTwoRounds | lib/Utilities/sequencer/stm32_seq.c:249-279 | and waits for fewer choices than two full rounds have |
| RoundRobin.BoundedOvertaking | lib/Utilities/sequencer/stm32_seq.c:249-279 | both, from any choice on of a run from the start |
| RoundRobin.TwiceIsReached | lib/Utilities/sequencer/stm32_seq.c:249-279 | a run from the start in which a task is overtaken twice |
| Sequencers.SetTaskKeeps | lib/Utilities/sequencer/stm32_seq.c:335-345 | setting tasks keeps the pending set equal to the union over levels |
| Sequencers.RemovingKeeps | lib/Utilities/sequencer/stm32_seq.c:281-289 | so does taking a task off all levels |
| Sequencers.PickKeeps | lib/Utilities/sequencer/stm32_seq.c:249-279 | a choice follows the round robin of its level |
| Sequencers.Sequencer.SetTask | lib/Utilities/sequencer/stm32_seq.c:335-345 | the new pending tasks, overall and at the level |
| Sequencers.Sequencer.PauseTask | lib/Utilities/sequencer/stm32_seq.c:361-370 | the tasks leave the mask |
| Sequencers.Sequencer.ResumeTask | lib/Utilities/sequencer/stm32_seq.c:383-392 | the tasks join the mask |
| Sequencers.Sequencer.PickTask | lib/Utilities/sequencer/stm32_seq.c:263-279 | the task whose turn it is among the candidates, logged, and the round robin without it |
| Sequencers.Sequencer.TakeOff | lib/Utilities/sequencer/stm32_seq.c:281-289 | the task is pending nowhere, all others as before |
| Sequencers.Sequencer.SelectTask | lib/Utilities/sequencer/stm32_seq.c:234-289 | with interrupts at every point: no more urgent level had a candidate when the search came to it; the candidates are exactly the unmasked tasks pending at the level found; the round robin's choice among them is taken off all levels, and nothing else changes but by the interrupts |
| Sequencers.Sequencer.SearchLevel | lib/Utilities/sequencer/stm32_seq.c:244-247 | the search ends at the first level with a candidate |
| Sequencers.Sequencer.PickAndTakeOff | lib/Utilities/sequencer/stm32_seq.c:263-289 | the choice, and what interrupts can do up to the begin of the task |
| Sequencers.Sequencer.Perform | lib/Utilities/sequencer/stm32_seq.c:335-412 | what each call does to pending tasks, mask, events and levels |
| Sequencers.Sequencer.Interrupts | lib/Utilities/sequencer/stm32_seq.c:335-412 | a point at which an interrupt may strike: exactly its calls, if one does |
| Sequencers.Sequencer.NoTaskIsPassedOver | lib/Utilities/sequencer/stm32_seq.c:249-279 | bounded overtaking at every level of every run |
| Sequencers.WaitingIsExcluded | lib/Utilities/sequencer/stm32_seq.c:475-480 | the mask of a nested run excludes the waiting task and those waiting below it |
| Sequencers.SelectedIsNew | lib/Utilities/sequencer/stm32_seq.c:207-321 | a task selected under such a mask is not active |
| Sequencers.Sequencer.Run | lib/Utilities/sequencer/stm32_seq.c:207-321 | begins all tasks of its mask that were pending and unmasked, unless paused meanwhile or an awaited event came, and only such; loses no task, event or call; if nothing else happens exactly those are begun, or none if an awaited event is there, and then the device idles; restores super mask, awaited events and the stack of active tasks |
| Sequencers.Sequencer.RunOne | lib/Utilities/sequencer/stm32_seq.c:236-296 | a round: a task is selected, begun and runs, and the run looks again |
| Sequencers.Sequencer.Look | lib/Utilities/sequencer/stm32_seq.c:231-235 | what a run looks at, with interrupts in between |
| TaskRuns.TasksKeptTwice | lib/Utilities/sequencer/stm32_seq.c:207-321 | that no task is lost, begun unset or begun twice carries over from parts to a whole run |
| TaskRuns.WaitedTwice | lib/Utilities/sequencer/stm32_seq.c:416-467 | so does that every wait saw its event |
| TaskRuns.LoopEnds | lib/Utilities/sequencer/stm32_seq.c:236 | when the loop ends on what was seen last, all its tasks were begun or an awaited event came |
| TaskRuns.RunIsQuiet | lib/Utilities/sequencer/stm32_seq.c:236-315 | what a run does in which only tasks return |
| TaskRuns.LookedNow | lib/Utilities/sequencer/stm32_seq.c:292-295 | what a look tells of everything since the run began |
| Sequencers.Sequencer.GoIdle | lib/Utilities/sequencer/stm32_seq.c:298-315 | the hooks in order, the one in between only with no unmasked task pending and no awaited event there; restores the same whatever they do |
| Sequencers.Sequencer.IdleHook | lib/Utilities/sequencer/stm32_seq.c:298-315 | an idle hook may make calls or wait for events, as the comment there says, and the same is restored; if it just returns nothing changes |
| Sequencers.Sequencer.RunTask | lib/Utilities/sequencer/stm32_seq.c:291-292 | a task that is not active runs until it returns: all its calls are carried out and all its waits see their events |
| Sequencers.Sequencer.TakeAction | lib/Utilities/sequencer/stm32_seq.c:291-292 | an action: the call is made, the wait waited for, or the task returns |
| Sequencers.Sequencer.WaitEvt | lib/Utilities/sequencer/stm32_seq.c:416-467 | from a task or an idle hook: returns at once if an awaited event is there, and otherwise only after one was signalled; uses up exactly the awaited ones; begins no waiting task; restores the awaited events and the current task |
| Sequencers.Sequencer.EvtIdle | lib/Utilities/sequencer/stm32_seq.c:475-480 | the default idle hook of a wait begins all other pending tasks, but none that waits |
| BatteryMonitors.PassingOn | source/app_service/power_manager/BatteryMonitor.c:252-260 | one step of the inner loop keeps the sorted front and the place of the greatest element |
| BatteryMonitors.BatteryMonitor.Pass | source/app_service/power_manager/BatteryMonitor.c:252-260 | the inner loop sorts one more element in and puts the greatest at its place |
| BatteryMonitors.BatteryMonitor.CopyAndSortMeasurements | source/app_service/power_manager/BatteryMonitor.c:246-263 | an ascending permutation of the ring, for any depth |
| BatteryMonitors.RingTakes | source/app_service/power_manager/BatteryMonitor.c:169-174 | the ring holds the latest measurements once full, all of them before |
| BatteryMonitors.ReportedIsMean | source/app_service/power_manager/BatteryMonitor.c:276-278 | the reported value is the mean if and only if the sum fits 32 bits |
| BatteryMonitors.ReportedIsNotBelowMedian | source/app_service/power_manager/BatteryMonitor.c:265-279 | the median for odd depths, never below it for even ones, the mean of the two largest of four |
| BatteryMonitors.ReportedIsMedian | source/app_service/power_manager/BatteryMonitor.c:265-279 | exactly when it is the median, which the function's comment promises, for every depth and with the wrap of the sum |
| BatteryMonitors.StateIsTooLaxWhen | source/app_service/power_manager/BatteryMonitor.c:209-217 | never for an odd depth, for an even one the state differs from the median's if and only if the two middle measurements sum to at most twice a threshold and one and the pair above them to at least twice it and two; it is then the less critical one |
| BatteryMonitors.StateOfVoltage | source/app_service/power_manager/BatteryMonitor.c:209-217 | no restriction from 2751 mV on, reduced operation from 2501 to 2750, critical up to 2500 |
| BatteryMonitors.TwoLowOfFourGoUnnoticed | source/app_service/power_manager/BatteryMonitor.c:265-279 | all four measurements of which two are at or below the lower threshold and two above the upper one count as a battery without restriction, whatever their median |
| BatteryMonitors.StateCanBeTooLax | source/app_service/power_manager/BatteryMonitor.c:265-279 | four such values, whose median is critical |
| BatteryMonitors.CapacityGrows | source/app_service/power_manager/BatteryMonitor.c:234-244 | the remaining capacity never falls with more voltage, across the change of slope too |
| BatteryMonitors.CapacityEnds | source/app_service/power_manager/BatteryMonitor.c:234-244 | at least 25 percent without restriction and at most 25 with; 100 from 2999 mV on, 0 up to 2381 mV |
| BatteryMonitors.CapacityOfVoltage | source/app_service/power_manager/BatteryMonitor.c:234-244 | 0.3 percent per millivolt above 2750 mV and 0.08 below, rounded, with a quarter from 2682 to 2750 |
| BatteryMonitors.CriticalCapacity | source/app_service/power_manager/BatteryMonitor.c:59-73 | of the at most 5 percent that are meant for a critical battery: these are there if and only if the voltage is at most 2443 mV, and 10 percent at the threshold |
| BatteryMonitors.BatteryMonitor.GetMeasuredVoltagesMedianMv | source/app_service/power_manager/BatteryMonitor.c:265-279 | reports on the sorted ring |
| BatteryMonitors.BatteryMonitor.UpdateVbatCb | source/app_service/power_manager/BatteryMonitor.c:169-207 | level, state and capacity follow from the latest measurements once there are enough, and stay before; each change of state or capacity is published, state first |

## Left out

- FlashDriver.Flash.Write: whole double words; programming zero over a programmed double word, which the hardware allows, is not modelled.
- FlashDriver.Flash.WriteBytes: the last double word is masked before the loop instead of in it; a write of no bytes is not modelled.
- FlashDriver.Flash.EndOfOperation: the error callback of the hardware is not modelled; it invokes the client's callback with pages remaining, which the item store takes for the completion.
- ItemStores.ItemStore.InitItemStore: a page that has its begin tag and no item yet, and power loss during an erase, are not among the images; a full page without complete tag is what `Recovery.FullPageWithoutTag` is about.
- ItemStoreListener.ItemStoreService.Init: at most one store has an erase outstanding; with both, the second erase asked for at boot violates the driver's assertion.
- ItemStoreListener.ItemStoreService.DeleteAllItems: only the samples are ever deleted.
- ItemStoreListener.ItemStoreService.HandleBeginEnumerate: requires counts that are right; what an enumeration gives between the call to delete all items and the erase, or after an add in between, is not modelled.
- ItemStoreListener.ItemStoreService.AddItems: requires counts that are right, for the same reason.
- ItemStoreListener.ItemStoreService.FlashInterrupt: erases succeed.
- SampleDownload.MeasurementItemController.BeginReadSamples: the logging interval and the age of the newest sample, which go into the header frame, are not modelled.
- SampleDownload.Download.Request: no download is running.
- SampleDownload.Download.RunToEnd: no page is dropped during a download, and connections do not end; what a download that relies on an enumeration to begin a page earlier delivers once an item is added is claimed only as far as it was sent before.
- SampleDownload.Download.PoolAvailable: comes only after a refusal, as the BLE stack announces it; an event without one can ask for a chunk twice.
- TimerServers.TimerServer.RtcWakeupHandler: calls by more urgent interrupts between the restart or stop of the timer and its callback, and calls made by the callback itself, come behind it, and no tick passes during the handler.
- TimerServers.TimerServer.RunSchedule: nothing is started or stopped from outside meanwhile.
- TimerServers.TimerServer.Tick: requires that the handler is kept waiting for at most the 10 ms that the source allows; beyond that elapsed ticks are lost (`ElapsedLosesPeriods`).
- TimerServers.TimerServer.CreateTimer: its inverse is not modelled; the source frees a running timer without unlinking it.
- Sequencers.Sequencer.Run: every pending task is registered, and tasks do not call it directly; what it restores is claimed for runs that come to their end, the invariants always.
- Sequencers.Sequencer.SelectTask: a task paused between the reading of the task mask and its start still runs.
- Sequencers.Sequencer.EvtIdle: lib/Core/Src/app_entry.c overrides this hook in code that the firmware does not use; the default is modelled.
- BatteryMonitors.BatteryMonitor.constructor: depth 3 or more; at depth 2 the second index lies behind the buffer, at depth 1 the first measurement leaves the insert index there.
- BatteryMonitors.BatteryMonitor.UpdateVbatCb: the capacity is computed on real numbers, without the rounding of single precision.
- Register access of the real time clock, semaphores, interrupt controller: replaced by the ideal clock, a lock bit and pending flags; the auto-reload of the wakeup counter only repeats a pending interrupt.
- The moving averages of the measurements, which are floating point.
- Screen, sensor, advertising, pairing, settings protocol, sample conversion and the message broker: branch-by-branch dispatch or calls into the stack.
