/**
 What an item store writes into a flash page: a begin tag, a complete tag, and items of a
 fixed size one after the other. Both tags are one double word with the fields of the
 source's packed structs, least significant byte first.
 */
module PageFormat {
  import opened Rings
  import opened FlashDriver

  const PAGE_MAGIC: nat := 0xA53C_C35A
  /** The page header is the begin tag followed by the complete tag. */
  const HEADER_WORDS: nat := 2

  datatype PageBeginTag = PageBeginTag(magic: nat, pageId: nat, blockId: nat, itemId: nat, itemSize: nat) {
    predicate InRange() {
      magic < 0x1_0000_0000 && pageId < 0x100 && blockId < 0x100 && itemId < 0x100 && itemSize < 0x100
    }

    function Pack(): DoubleWord
      requires InRange()
    {
      magic + 0x1_0000_0000 * (pageId + 0x100 * (blockId + 0x100 * (itemId + 0x100 * itemSize)))
    }

    static function Unpack(w: DoubleWord): (t: PageBeginTag)
      ensures t.InRange()
    {
      var fromPage := w / 0x1_0000_0000;
      var fromBlock := fromPage / 0x100;
      var fromItem := fromBlock / 0x100;
      PageBeginTag(w % 0x1_0000_0000, fromPage % 0x100, fromBlock % 0x100, fromItem % 0x100, fromItem / 0x100)
    }
  }

  datatype PageCompleteTag = PageCompleteTag(magic: nat, nrOfItems: nat, nextPage: nat, nextPageId: nat) {
    predicate InRange() {
      magic < 0x1_0000_0000 && nrOfItems < 0x1_0000 && nextPage < 0x100 && nextPageId < 0x100
    }

    function Pack(): DoubleWord
      requires InRange()
    {
      magic + 0x1_0000_0000 * (nrOfItems + 0x1_0000 * (nextPage + 0x100 * nextPageId))
    }

    static function Unpack(w: DoubleWord): (t: PageCompleteTag)
      ensures t.InRange()
    {
      var fromCount := w / 0x1_0000_0000;
      var fromPage := fromCount / 0x1_0000;
      PageCompleteTag(w % 0x1_0000_0000, fromCount % 0x1_0000, fromPage % 0x100, fromPage / 0x100)
    }
  }

  lemma SplitLow(base: nat, low: nat, high: nat)
    requires low < base
    ensures (low + base * high) / base == high && (low + base * high) % base == low
  {
    ModUnique(low + base * high, base, high, low);
    assert base * ((low + base * high) / base) == base * high;
    var d := high - (low + base * high) / base;
    assert base * d == 0;
    MulGrows(base, d);
  }

  /** A tag survives being written and read back, and a tagged double word never reads as erased. */
  lemma BeginTagRoundTrip(t: PageBeginTag)
    requires t.InRange()
    ensures PageBeginTag.Unpack(t.Pack()) == t
    ensures t.magic == PAGE_MAGIC ==> t.Pack() != BLANK
  {
    var fromItem := t.itemId + 0x100 * t.itemSize;
    var fromBlock := t.blockId + 0x100 * fromItem;
    var fromPage := t.pageId + 0x100 * fromBlock;
    SplitLow(0x100, t.itemId, t.itemSize);
    SplitLow(0x100, t.blockId, fromItem);
    SplitLow(0x100, t.pageId, fromBlock);
    SplitLow(0x1_0000_0000, t.magic, fromPage);
  }

  lemma CompleteTagRoundTrip(t: PageCompleteTag)
    requires t.InRange()
    ensures PageCompleteTag.Unpack(t.Pack()) == t
    ensures t.magic == PAGE_MAGIC ==> t.Pack() != BLANK
  {
    var fromPage := t.nextPage + 0x100 * t.nextPageId;
    var fromCount := t.nrOfItems + 0x1_0000 * fromPage;
    SplitLow(0x100, t.nextPage, t.nextPageId);
    SplitLow(0x1_0000, t.nrOfItems, fromPage);
    SplitLow(0x1_0000_0000, t.magic, fromCount);
  }

  /** A number of up to four bytes, the least significant one first. */
  function FromBytes(b0: nat, b1: nat, b2: nat, b3: nat): nat {
    b0 + 0x100 * (b1 + 0x100 * (b2 + 0x100 * b3))
  }

  /** The bytes of a tag in memory: those of the magic number, then one for each other field in order. */
  lemma BeginTagBytes(t: PageBeginTag)
    requires t.InRange()
    ensures var w := t.Pack();
            && t.magic == FromBytes(ByteOf(w, 0), ByteOf(w, 1), ByteOf(w, 2), ByteOf(w, 3))
            && t.pageId == ByteOf(w, 4) && t.blockId == ByteOf(w, 5)
            && t.itemId == ByteOf(w, 6) && t.itemSize == ByteOf(w, 7)
  {
    var fromItem := t.itemId + 0x100 * t.itemSize;
    var fromBlock := t.blockId + 0x100 * fromItem;
    var fromPage := t.pageId + 0x100 * fromBlock;
    LowBytes(t.magic, fromPage);
    HighBytes(t.Pack(), fromPage, t.pageId, t.blockId, t.itemId, t.itemSize);
  }

  /** The number of items takes two. */
  lemma CompleteTagBytes(t: PageCompleteTag)
    requires t.InRange()
    ensures var w := t.Pack();
            && t.magic == FromBytes(ByteOf(w, 0), ByteOf(w, 1), ByteOf(w, 2), ByteOf(w, 3))
            && t.nrOfItems == FromBytes(ByteOf(w, 4), ByteOf(w, 5), 0, 0)
            && t.nextPage == ByteOf(w, 6) && t.nextPageId == ByteOf(w, 7)
  {
    var fromPage := t.nextPage + 0x100 * t.nextPageId;
    var fromCount := t.nrOfItems + 0x1_0000 * fromPage;
    LowBytes(t.magic, fromCount);
    HighBytes(t.Pack(), fromCount, t.nrOfItems % 0x100, t.nrOfItems / 0x100, t.nextPage, t.nextPageId);
  }

  lemma FirstByte(w: DoubleWord, b: nat, rest: nat)
    requires w == b + 0x100 * rest && b < 0x100
    ensures w / 0x100 == rest && ByteOf(w, 0) == b
    ensures forall i: nat :: i > 0 ==> ByteOf(w, i) == ByteOf(w / 0x100, i - 1)
  {
    SplitLow(0x100, b, rest);
  }

  /** The low half of a double word. */
  lemma LowBytes(low: nat, high: nat)
    requires low < 0x1_0000_0000 && high < 0x1_0000_0000
    ensures var w := low + 0x1_0000_0000 * high;
            && low == FromBytes(ByteOf(w, 0), ByteOf(w, 1), ByteOf(w, 2), ByteOf(w, 3))
            && w / 0x100 / 0x100 / 0x100 / 0x100 == high
  {
    hide ByteOf;
    var low1 := low / 0x100;
    var low2 := low1 / 0x100;
    var low3 := low2 / 0x100;
    var w3: DoubleWord := low3 + 0x100 * high;
    var w2: DoubleWord := low2 % 0x100 + 0x100 * w3;
    var w1: DoubleWord := low1 % 0x100 + 0x100 * w2;
    var w: DoubleWord := low % 0x100 + 0x100 * w1;
    FirstByte(w, low % 0x100, w1);
    FirstByte(w1, low1 % 0x100, w2);
    FirstByte(w2, low2 % 0x100, w3);
    FirstByte(w3, low3, high);
    assert w == low + 0x1_0000_0000 * high;
  }

  /** The high half. */
  lemma HighBytes(w: DoubleWord, high: nat, b4: nat, b5: nat, b6: nat, b7: nat)
    requires w / 0x100 / 0x100 / 0x100 / 0x100 == high == FromBytes(b4, b5, b6, b7)
    requires b4 < 0x100 && b5 < 0x100 && b6 < 0x100 && b7 < 0x100
    ensures ByteOf(w, 4) == b4 && ByteOf(w, 5) == b5 && ByteOf(w, 6) == b6 && ByteOf(w, 7) == b7
  {
    ByteBehind(w, 3);
    ByteBehind(w, 2);
    ByteBehind(w, 1);
    ByteBehind(w, 0);
    var h: DoubleWord := high;
    var h1: DoubleWord := h / 0x100;
    var h2: DoubleWord := h1 / 0x100;
    var h3: DoubleWord := h2 / 0x100;
    assert h1 == b5 + 0x100 * (b6 + 0x100 * b7) && h2 == b6 + 0x100 * b7 && h3 == b7;
    assert ByteOf(h, 1) == ByteOf(h1, 0) && ByteOf(h, 2) == ByteOf(h1, 1) == ByteOf(h2, 0);
    assert ByteOf(h, 3) == ByteOf(h1, 2) == ByteOf(h2, 1) == ByteOf(h3, 0);
  }

  /** The byte `i + 4` is byte `i` of the high half. */
  lemma ByteBehind(w: DoubleWord, i: nat)
    ensures ByteOf(w, i + 4) == ByteOf(w / 0x100 / 0x100 / 0x100 / 0x100, i)
  {
    assert ByteOf(w, i + 4) == ByteOf(w / 0x100, i + 3) == ByteOf(w / 0x100 / 0x100, i + 2)
        == ByteOf(w / 0x100 / 0x100 / 0x100, i + 1);
  }
}
