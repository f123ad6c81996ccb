/**
 The on-chip flash and its driver. The memory is a sequence of pages of 64-bit double
 words, the unit in which the hardware programs; an erased double word is all ones. An
 address is a page and a double-word offset in it, which is the form of every address
 that the driver's clients compute.
 */
module FlashDriver {

  /** FLASH_PAGE_SIZE in double words. */
  const PAGE_WORDS: nat := 512

  const FIRST_WRITABLE_PAGE: nat := 65
  const LAST_WRITABLE_PAGE: nat := FIRST_WRITABLE_PAGE - 1 + 2 + 32

  type DoubleWord = w: nat | w < 0x1_0000_0000_0000_0000

  const BLANK: DoubleWord := 0xFFFF_FFFF_FFFF_FFFF

  function Blanks(n: nat): (s: seq<DoubleWord>)
    ensures |s| == n
  {
    seq(n, _ => BLANK)
  }

  predicate AllBlank(words: seq<DoubleWord>) {
    forall i :: 0 <= i < |words| ==> words[i] == BLANK
  }

  predicate BlankAt(words: seq<DoubleWord>, offset: nat, n: nat)
    requires offset + n <= |words|
  {
    forall i :: offset <= i < offset + n ==> words[i] == BLANK
  }

  /** `words` with `data` in place of what stood at `offset`. */
  function Patch(words: seq<DoubleWord>, offset: nat, data: seq<DoubleWord>): (r: seq<DoubleWord>)
    requires offset + |data| <= |words|
    ensures |r| == |words|
  {
    words[..offset] + data + words[offset + |data|..]
  }

  lemma PatchNothing(words: seq<DoubleWord>, offset: nat)
    requires offset <= |words|
    ensures Patch(words, offset, []) == words
  {
  }

  lemma PatchNext(words: seq<DoubleWord>, offset: nat, data: seq<DoubleWord>, n: nat)
    requires offset + |data| <= |words| && n < |data|
    ensures Patch(Patch(words, offset, data[..n]), offset + n, [data[n]]) == Patch(words, offset, data[..n + 1])
  {
    assert data[..n + 1] == data[..n] + [data[n]];
  }

  // ---- the last double word of a write ----

  /** Byte `i` of a double word in memory, where the least significant one comes first. */
  function ByteOf(word: DoubleWord, i: nat): nat {
    if i == 0 then word % 0x100 else ByteOf(word / 0x100, i - 1)
  }

  /** A double word with its `n` least significant bytes cleared. */
  function Masked(word: DoubleWord, n: nat): (r: DoubleWord)
    ensures r <= word
  {
    if n == 0 then word else 0x100 * Masked(word / 0x100, n - 1)
  }

  /** What a write of `nrOfBytes` bytes programs of the double words that it reads from the buffer: in the last one as
      many bytes are cleared as are not in the buffer any more. */
  function AsWritten(buffer: seq<DoubleWord>, nrOfBytes: nat): (r: seq<DoubleWord>)
    requires buffer != [] && 8 * (|buffer| - 1) < nrOfBytes <= 8 * |buffer|
    ensures |r| == |buffer|
  {
    var last := |buffer| - 1;
    buffer[last := Masked(buffer[last], 8 * |buffer| - nrOfBytes)]
  }

  lemma {:induction false} MaskedBytes(word: DoubleWord, n: nat, i: nat)
    ensures ByteOf(Masked(word, n), i) == if i < n then 0 else ByteOf(word, i)
  {
    if n > 0 && i > 0 {
      MaskedBytes(word / 0x100, n - 1, i - 1);
      assert Masked(word, n) / 0x100 == Masked(word / 0x100, n - 1);
    }
  }

  /** The double word keeps its first bytes and the last `excess` bytes are zero, as the driver means it. */
  predicate PaddedAsMeant(word: DoubleWord, excess: nat) {
    forall i: nat :: i < 8 ==> ByteOf(Masked(word, excess), i) == if i < 8 - excess then ByteOf(word, i) else 0
  }

  /** The driver clears the wrong end. What it means comes about if and only if all those bytes are zero that it clears
      though they are to be written, or keeps though they are not. */
  lemma PaddingIsAsMeant(word: DoubleWord, excess: nat)
    requires excess < 8
    ensures PaddedAsMeant(word, excess)
       <==> (forall i: nat :: i < 8 && (i < excess <==> i < 8 - excess) ==> ByteOf(word, i) == 0)
  {
    hide ByteOf, Masked;
    forall i: nat ensures ByteOf(Masked(word, excess), i) == if i < excess then 0 else ByteOf(word, i) {
      MaskedBytes(word, excess, i);
    }
    if PaddedAsMeant(word, excess) {
      forall i: nat | i < 8 && (i < excess <==> i < 8 - excess) ensures ByteOf(word, i) == 0 {
        assert ByteOf(Masked(word, excess), i) == if i < 8 - excess then ByteOf(word, i) else 0;
      }
    } else {
      var i: nat :| i < 8 && ByteOf(Masked(word, excess), i) != if i < 8 - excess then ByteOf(word, i) else 0;
      assert (i < excess <==> i < 8 - excess) && ByteOf(word, i) != 0;
    }
  }

  /** A write of whole double words programs them as they are. One that ends with half a double word loses the first
      byte of that half, unless it is zero. */
  lemma WholeWordsAreKept(buffer: seq<DoubleWord>)
    requires buffer != []
    ensures AsWritten(buffer, 8 * |buffer|) == buffer
    ensures var word := buffer[|buffer| - 1];
            ByteOf(word, 0) != 0 ==>
              ByteOf(AsWritten(buffer, 8 * |buffer| - 4)[|buffer| - 1], 0) != ByteOf(word, 0)
  {
    MaskedBytes(buffer[|buffer| - 1], 4, 0);
  }

  /** The first `n` double words of `data` were programmed where `before` was erased, and nothing else changed. */
  ghost predicate Programmed(before: seq<seq<DoubleWord>>, after: seq<seq<DoubleWord>>, page: nat, offset: nat,
                             data: seq<DoubleWord>, n: nat)
    requires page < |before| && offset + |data| <= |before[page]| && n <= |data|
  {
    && BlankAt(before[page], offset, n)
    && after == before[page := Patch(before[page], offset, data[..n])]
  }

  lemma ProgramNext(before: seq<seq<DoubleWord>>, after: seq<seq<DoubleWord>>, page: nat, offset: nat,
                    data: seq<DoubleWord>, n: nat)
    requires page < |before| && offset + |data| <= |before[page]| && n < |data|
    requires Programmed(before, after, page, offset, data, n)
    ensures after[page][offset + n] == before[page][offset + n]
    ensures before[page][offset + n] == BLANK ==>
              Programmed(before, after[page := Patch(after[page], offset + n, [data[n]])], page, offset, data, n + 1)
  {
    PatchNext(before[page], offset, data, n);
    assert data[..n + 1] == data[..n] + [data[n]];
  }

  /** `pages` with the `n` pages from `start` on erased. */
  function Erased(pages: seq<seq<DoubleWord>>, start: nat, n: nat): (r: seq<seq<DoubleWord>>)
    requires start + n <= |pages|
    ensures |r| == |pages|
  {
    pages[..start] + seq(n, _ => Blanks(PAGE_WORDS)) + pages[start + n..]
  }

  function Ascending(start: nat, n: nat): (s: seq<nat>)
    ensures |s| == n
  {
    seq(n, (i: nat) => start + i)
  }

  lemma NothingErased(pages: seq<seq<DoubleWord>>, start: nat)
    requires start <= |pages|
    ensures Erased(pages, start, 0) == pages && Ascending(start, 0) == []
  {
  }

  datatype Option<T> = None | Some(value: T)

  /** One invocation of the operation-complete callback. */
  datatype Completion = Completion(pageNr: nat, remaining: nat)

  class Flash {
    /** The memory. */
    var pages: seq<seq<DoubleWord>>
    /** The flash semaphore is held by this CPU. */
    var locked: bool
    /** `_flashOperationComplete` is set: an erase was requested and is not finished. */
    var operationPending: bool
    var pagesToErase: nat
    /** Page of the queued process-next-page message of the flash task. */
    var queuedPage: Option<nat>
    /** Page whose erase the hardware is running. */
    var erasingPage: Option<nat>

    /** The current or latest erase request, and what it did so far. */
    ghost var requestStart: nat
    ghost var requestCount: nat
    ghost var before: seq<seq<DoubleWord>>
    ghost var erasedPages: seq<nat>
    ghost var completions: seq<Completion>

    ghost predicate Shape()
      reads this
    {
      && |pages| > LAST_WRITABLE_PAGE
      && forall p :: 0 <= p < |pages| ==> |pages[p]| == PAGE_WORDS
    }

    /** No erase is requested or running. */
    ghost predicate Idle()
      reads this
    {
      !operationPending && !locked && queuedPage == None && erasingPage == None
    }

    /** How far the current erase request is. */
    ghost predicate Erasing()
      reads this
    {
      var done := |erasedPages|;
      && operationPending && locked
      && done + pagesToErase == requestCount && pagesToErase > 0
      && FIRST_WRITABLE_PAGE <= requestStart && requestStart + requestCount - 1 <= LAST_WRITABLE_PAGE
      && |before| == |pages| > LAST_WRITABLE_PAGE
      && erasedPages == Ascending(requestStart, done)
      && pages == Erased(before, requestStart, done)
      && completions == []
      && (|| (queuedPage == Some(requestStart + done) && erasingPage == None)
          || (queuedPage == None && erasingPage == Some(requestStart + done)))
    }

    ghost predicate Valid()
      reads this
    {
      Shape() && (Idle() || Erasing())
    }

    constructor (image: seq<seq<DoubleWord>>)
      requires |image| > LAST_WRITABLE_PAGE
      requires forall p :: 0 <= p < |image| ==> |image[p]| == PAGE_WORDS
      ensures Valid() && Idle() && pages == image
    {
      pages := image;
      locked, operationPending := false, false;
      pagesToErase := 0;
      queuedPage, erasingPage := None, None;
      erasedPages, completions := [], [];
    }

    /** Reads double words of one page. */
    function Read(page: nat, offset: nat, n: nat): (r: seq<DoubleWord>)
      requires Shape() && page < |pages| && offset + n <= PAGE_WORDS
      reads this
    {
      pages[page][offset..offset + n]
    }

    /** HAL_FLASH_Program: the hardware refuses a double word that is not erased. */
    method Program(page: nat, offset: nat, data: DoubleWord) returns (ok: bool)
      requires Shape() && page < |pages| && offset < PAGE_WORDS
      modifies this`pages
      ensures Shape() && |pages| == |old(pages)|
      ensures ok == (old(pages)[page][offset] == BLANK)
      ensures pages == if ok then old(pages)[page := Patch(old(pages)[page], offset, [data])] else old(pages)
    {
      ok := pages[page][offset] == BLANK;
      if ok {
        pages := pages[page := Patch(pages[page], offset, [data])];
      }
    }

    /**
     Writes double words one after the other. The requires are the driver's own assertions:
     the target is writable by the application and no erase is under way. The write succeeds
     exactly when the whole target was erased; otherwise it stops before the first double
     word that was not. `n` double words are programmed.
     */
    method Write(page: nat, offset: nat, buffer: seq<DoubleWord>) returns (ok: bool, ghost n: nat)
      requires Shape() && Idle()
      requires FIRST_WRITABLE_PAGE <= page <= LAST_WRITABLE_PAGE
      requires |buffer| > 0 && offset + |buffer| <= PAGE_WORDS
      modifies this`pages, this`locked
      ensures Shape() && Idle() && |pages| == |old(pages)|
      ensures ok <==> BlankAt(old(pages)[page], offset, |buffer|)
      ensures ok ==> pages == old(pages)[page := Patch(old(pages)[page], offset, buffer)]
      ensures n <= |buffer| && (ok <==> n == |buffer|) && Programmed(old(pages), pages, page, offset, buffer, n)
      ensures n < |buffer| ==> old(pages)[page][offset + n] != BLANK
    {
      hide Patch;
      var written := 0;
      ok := true;
      locked := true;
      assert Programmed(pages, pages, page, offset, buffer, 0) by {
        assert Patch(pages[page], offset, buffer[..0]) == pages[page] by { PatchNothing(pages[page], offset); }
      }
      while written < |buffer|
        invariant written <= |buffer| && ok
        invariant Shape() && |pages| == |old(pages)|
        invariant Programmed(old(pages), pages, page, offset, buffer, written)
      {
        ProgramNext(old(pages), pages, page, offset, buffer, written);
        var status := Program(page, offset + written, buffer[written]);
        if !status {
          locked := false;
          ok := false;
          n := written;
          return;
        }
        written := written + 1;
      }
      locked := false;
      n := written;
      assert buffer[..written] == buffer;
    }

    /** A write of any number of bytes. `buffer` has the double words that the driver reads for it, the last one perhaps
        from behind the bytes to write. */
    method WriteBytes(page: nat, offset: nat, buffer: seq<DoubleWord>, nrOfBytes: nat) returns (ok: bool)
      requires Shape() && Idle()
      requires FIRST_WRITABLE_PAGE <= page <= LAST_WRITABLE_PAGE
      requires buffer != [] && 8 * (|buffer| - 1) < nrOfBytes <= 8 * |buffer| && offset + |buffer| <= PAGE_WORDS
      modifies this`pages, this`locked
      ensures Shape() && Idle() && |pages| == |old(pages)|
      ensures ok <==> BlankAt(old(pages)[page], offset, |buffer|)
      ensures ok ==> pages == old(pages)[page := Patch(old(pages)[page], offset, AsWritten(buffer, nrOfBytes))]
      ensures nrOfBytes == 8 * |buffer| && ok ==> pages[page][offset..offset + |buffer|] == buffer
    {
      hide Masked;
      if nrOfBytes == 8 * |buffer| { WholeWordsAreKept(buffer); }
      ghost var n;
      ok, n := Write(page, offset, AsWritten(buffer, nrOfBytes));
    }

    /**
     Requests the erase of `n` pages. The requires are the driver's assertions and the
     documented n > 0.
     */
    method Erase(start: nat, n: nat)
      requires Valid() && Idle()
      requires n > 0 && FIRST_WRITABLE_PAGE <= start && start + n - 1 <= LAST_WRITABLE_PAGE
      modifies this
      ensures Valid() && Erasing()
      ensures pages == old(pages) && before == pages
      ensures requestStart == start && requestCount == n && erasedPages == [] && queuedPage == Some(start)
    {
      hide Erased, Ascending;
      pagesToErase := n;
      operationPending := true;
      locked := true;
      requestStart, requestCount, before := start, n, pages;
      erasedPages, completions := [], [];
      queuedPage := Some(start);
      NothingErased(pages, start);
    }

    /** The flash task handles its process-next-page message: the hardware erase starts. */
    method ProcessNextPage()
      requires Valid() && queuedPage.Some?
      modifies this`queuedPage, this`erasingPage
      ensures Valid() && Erasing() && erasingPage == old(queuedPage) && queuedPage == None
    {
      erasingPage := queuedPage;
      queuedPage := None;
    }

    /**
     The hardware has erased the page and raises the end-of-operation interrupt. `done`
     tells that the client's callback was invoked.
     */
    method EndOfOperation() returns (done: bool)
      requires Valid() && erasingPage.Some?
      modifies this
      ensures Valid()
      ensures unchanged(`requestStart, `requestCount, `before)
      ensures erasedPages == old(erasedPages) + [old(erasingPage).value]
      ensures pages == old(pages)[old(erasingPage).value := Blanks(PAGE_WORDS)]
      ensures done <==> |erasedPages| == requestCount
      ensures done ==> Idle() && completions == [Completion(requestStart + requestCount - 1, 0)]
      ensures done ==> pages == Erased(before, requestStart, requestCount)
      ensures !done ==> Erasing() && queuedPage.Some? && pagesToErase == old(pagesToErase) - 1
    {
      var page := erasingPage.value;
      assert Erased(before, requestStart, |erasedPages|)[page := Blanks(PAGE_WORDS)]
          == Erased(before, requestStart, |erasedPages| + 1);
      pages := pages[page := Blanks(PAGE_WORDS)];
      erasedPages := erasedPages + [page];
      erasingPage := None;
      pagesToErase := pagesToErase - 1;
      if pagesToErase == 0 {
        completions := completions + [Completion(page, pagesToErase)];
        operationPending := false;
        locked := false;
        return true;
      }
      queuedPage := Some(page + 1);
      return false;
    }

    /**
     A whole erase with one completion per page: exactly the requested pages are erased,
     each once and in ascending order, the semaphore is held until the end, and the
     callback is invoked exactly once and with nothing remaining.
     */
    method EraseToEnd(start: nat, n: nat)
      requires Valid() && Idle()
      requires n > 0 && FIRST_WRITABLE_PAGE <= start && start + n - 1 <= LAST_WRITABLE_PAGE
      modifies this
      ensures Valid() && Idle()
      ensures pages == Erased(old(pages), start, n)
      ensures erasedPages == Ascending(start, n)
      ensures completions == [Completion(start + n - 1, 0)]
    {
      Erase(start, n);
      var done := false;
      while !done
        invariant Valid() && before == old(pages) && requestStart == start && requestCount == n
        invariant !done ==> Erasing() && locked && completions == [] && queuedPage.Some?
        invariant done ==> Idle() && completions == [Completion(start + n - 1, 0)] && |erasedPages| == n
        invariant done ==> pages == Erased(old(pages), start, n)
        invariant erasedPages == Ascending(start, |erasedPages|) && |erasedPages| <= n
        decreases n - |erasedPages|, !done
      {
        ProcessNextPage();
        done := EndOfOperation();
      }
    }
  }
}
