/**
 The download of logged samples: the measurement item controller reads the newest part of
 the log in chunks, and the BLE context cuts the chunks into notification frames. Both only
 talk through messages, and the BLE stack can refuse a frame at any time.
 */
module SampleDownload {
  import opened Basics
  import opened Enumeration

  type Byte = b: nat | b < 256

  /** An item of the log holds two samples of four bytes. */
  type Item = b: seq<Byte> | |b| == ITEM_BYTES witness [0, 0, 0, 0, 0, 0, 0, 0]

  type Positive = n: nat | n > 0 witness 1

  const ITEM_BYTES: nat := 8
  const SAMPLE_BYTES: nat := 4
  const FRAME_BYTES: nat := 16
  /** Number of items in the sample cache. */
  const CACHE_ITEMS: nat := 510
  const CACHE_BYTES: nat := ITEM_BYTES * CACHE_ITEMS
  /** Number of items on a flash page of the measurement store of the device. */
  const DEVICE_CAPACITY: Positive := 510

  datatype Frame = Frame(index: nat, payload: seq<Byte>)

  function Bytes(items: seq<Item>): (r: seq<Byte>)
    ensures |r| == ITEM_BYTES * |items|
  {
    seq(ITEM_BYTES * |items|, i requires 0 <= i < ITEM_BYTES * |items| => items[i / ITEM_BYTES][i % ITEM_BYTES])
  }

  /** Byte `b` of item `i`. */
  lemma ByteAt(items: seq<Item>, i: nat, b: nat)
    requires i < |items| && b < ITEM_BYTES
    ensures ITEM_BYTES * i + b < |Bytes(items)| && Bytes(items)[ITEM_BYTES * i + b] == items[i][b]
  {
    var p := ITEM_BYTES * i + b;
    assert p / ITEM_BYTES == i && p % ITEM_BYTES == b;
  }

  // ---- the controller ----

  class MeasurementItemController {
    var numberOfSamples: nat
    var enumeratorStartIndex: nat
    var requestedNrOfSamples: nat
    var alreadyReadSamples: nat
    var extraSample: nat
    /** The cache; a chunk overwrites its front. */
    var samplesCache: seq<Item>
    /** The start index of the shared enumerator. */
    var enumeratorStart: nat

    /**
     BeginReadSamples, once the enumerator is ready or not: how many samples are delivered and
     from which item on they are read.
     */
    method BeginReadSamples(requested: nat, ready: bool, count: nat)
      requires 2 * count < 0x1_0000 && requested < 0x1_0000
      modifies this`numberOfSamples, this`extraSample, this`enumeratorStartIndex, this`alreadyReadSamples,
               this`requestedNrOfSamples
      ensures var available := if ready then 2 * count else 0;
              && numberOfSamples == Min(available, requested)
              && extraSample == numberOfSamples % 2
              && 2 * enumeratorStartIndex + numberOfSamples + extraSample == available
      ensures alreadyReadSamples == 0 && requestedNrOfSamples == requested
    {
      requestedNrOfSamples := requested;
      alreadyReadSamples := 0;
      var availableSamples := 0;
      if ready {
        availableSamples := count * 2;
      }
      numberOfSamples := if availableSamples > requestedNrOfSamples then requestedNrOfSamples else availableSamples;
      extraSample := numberOfSamples % 2;
      enumeratorStartIndex := 0;
      if availableSamples > numberOfSamples {
        enumeratorStartIndex := (availableSamples - numberOfSamples - extraSample) / 2;
      }
    }

    /** How many samples the controller takes to be unread, in 16 bits. */
    function Unread(): nat
      reads this
    {
      (extraSample + numberOfSamples - 2 * alreadyReadSamples) % 0x1_0000
    }

    /** ReadMoreSamples with an enumerator that gives `items`, and announces one more if `failing`: one chunk goes into
        the cache. A read that fails counts like the others and leaves what stood in the cache. */
    method ReadMoreSamples(items: seq<Item>, failing: bool) returns (length: nat)
      requires |samplesCache| == CACHE_ITEMS
      modifies this`samplesCache, this`enumeratorStartIndex, this`alreadyReadSamples
      ensures length == Min(|items| + (if failing then 1 else 0), Min(CACHE_ITEMS, old(Unread())))
      ensures var read := Min(length, |items|);
              samplesCache == items[..read] + old(samplesCache)[read..]
      ensures enumeratorStartIndex == old(enumeratorStartIndex) + length
      ensures alreadyReadSamples == old(alreadyReadSamples) + length
    {
      var index := 0;
      var unreadSamples := Unread();
      var announced := |items| + if failing then 1 else 0;
      while index < announced && index < CACHE_ITEMS && index < unreadSamples
        invariant index <= announced && index <= CACHE_ITEMS && index <= unreadSamples
        invariant samplesCache == items[..Min(index, |items|)] + old(samplesCache)[Min(index, |items|)..]
        invariant enumeratorStartIndex == old(enumeratorStartIndex) && alreadyReadSamples == old(alreadyReadSamples)
      {
        if index < |items| {
          ReadNext(items, old(samplesCache), index);
          samplesCache := samplesCache[index := items[index]];
        }
        index := index + 1;
      }
      enumeratorStartIndex := enumeratorStartIndex + index;
      alreadyReadSamples := alreadyReadSamples + index;
      length := index;
    }
  }

  lemma ReadNext(items: seq<Item>, cache: seq<Item>, index: nat)
    requires index < |items| && index < |cache|
    ensures (items[..index] + cache[index..])[index := items[index]] == items[..index + 1] + cache[index + 1..]
  {
  }

  // ---- the BLE context ----

  /** Payload length of the `i`-th frame of a transmission of `bytes` bytes. */
  function FrameLength(bytes: int, i: nat): int {
    Min(FRAME_BYTES, bytes - FRAME_BYTES * i)
  }

  /** The first `k` frames into which `bytes` bytes of `data` from `from` on are cut, numbered from `index` on. */
  function FramesOf(data: seq<Byte>, from: nat, bytes: int, index: nat, k: nat): (frames: seq<Frame>)
    requires k > 0 ==> bytes > FRAME_BYTES * (k - 1) && from + Min(FRAME_BYTES * k, bytes) <= |data|
    ensures |frames| == k
  {
    if k == 0 then []
    else
      var start := from + FRAME_BYTES * (k - 1);
      FramesOf(data, from, bytes, index, k - 1)
      + [Frame(index + k - 1, data[start..start + FrameLength(bytes, k - 1)])]
  }

  lemma NoFrames(data: seq<Byte>, from: nat, bytes: int, index: nat)
    ensures FramesOf(data, from, bytes, index, 0) == []
  {
  }

  lemma OneMoreFrame(data: seq<Byte>, from: nat, bytes: int, index: nat, k: nat)
    requires bytes > FRAME_BYTES * k && from + Min(FRAME_BYTES * (k + 1), bytes) <= |data|
    ensures from + Min(FRAME_BYTES * k, bytes) == from + FRAME_BYTES * k
    ensures FramesOf(data, from, bytes, index, k + 1)
         == FramesOf(data, from, bytes, index, k)
            + [Frame(index + k, data[from + FRAME_BYTES * k..from + FRAME_BYTES * k + FrameLength(bytes, k)])]
  {
  }

  /** The payloads of frames one after the other. */
  function Payload(frames: seq<Frame>): seq<Byte> {
    if frames == [] then [] else Payload(frames[..|frames| - 1]) + frames[|frames| - 1].payload
  }

  lemma PayloadOfMore(frames: seq<Frame>, frame: Frame)
    ensures Payload(frames + [frame]) == Payload(frames) + frame.payload
  {
    assert (frames + [frame])[..|frames|] == frames;
  }

  /** The frames together carry exactly the data. */
  lemma {:induction false} FramesCarry(data: seq<Byte>, from: nat, bytes: nat, index: nat, k: nat)
    requires from <= |data|
    requires k > 0 ==> bytes > FRAME_BYTES * (k - 1) && from + Min(FRAME_BYTES * k, bytes) <= |data|
    ensures Payload(FramesOf(data, from, bytes, index, k)) == data[from..from + Min(FRAME_BYTES * k, bytes)]
  {
    hide FramesOf, Payload;
    if k == 0 {
      NoFrames(data, from, bytes, index);
      assert Payload([]) == [] by { NoPayload(); }
    } else {
      var start, length := from + FRAME_BYTES * (k - 1), FrameLength(bytes, k - 1);
      FramesCarry(data, from, bytes, index, k - 1);
      OneMoreFrame(data, from, bytes, index, k - 1);
      PayloadOfMore(FramesOf(data, from, bytes, index, k - 1), Frame(index + k - 1, data[start..start + length]));
      assert data[from..start] + data[start..start + length] == data[from..start + length];
    }
  }

  lemma NoPayload()
    ensures Payload([]) == []
  {
  }

  /** They are numbered without a gap, and all but the last are full. */
  lemma {:induction false} FramesSized(data: seq<Byte>, from: nat, bytes: nat, index: nat, k: nat)
    requires k > 0 ==> bytes > FRAME_BYTES * (k - 1) && from + Min(FRAME_BYTES * k, bytes) <= |data|
    ensures var frames := FramesOf(data, from, bytes, index, k);
            forall i :: 0 <= i < k ==> frames[i].index == index + i && |frames[i].payload| == FrameLength(bytes, i) > 0
  {
    if k > 0 {
      FramesSized(data, from, bytes, index, k - 1);
    }
  }

  /** What the BLE context does after a call to TrySendSampleFrames. */
  datatype Outcome = Refused | WantsMore | Complete

  class BleContext {
    var nrOfSamplesToTransmit: nat
    var samplesTransmitted: nat
    var currentFrameIndex: nat
    var currentDataIndex: nat
    /** What is behind the data pointer: the whole sample cache, of which the chunk is the front. */
    var sampleData: seq<Byte>
    var dataLength: nat
    /** The data frames that the BLE stack accepted. */
    ghost var accepted: seq<Frame>

    /** Number of bytes still to be sent of this download. */
    function BytesLeft(): int
      reads this
    {
      SAMPLE_BYTES * (nrOfSamplesToTransmit - samplesTransmitted)
    }

    /** All data of the chunk was sent, or cleared. */
    predicate UsedUp()
      reads this`currentDataIndex, this`dataLength
    {
      currentDataIndex >= dataLength
    }

    function DataLeft(): nat
      reads this`currentDataIndex, this`dataLength
    {
      if UsedUp() then 0 else dataLength - currentDataIndex
    }

    /** Frames are read from whole multiples of their size on, so that none reaches behind the cache. */
    ghost predicate InCache()
      reads this
    {
      && samplesTransmitted <= nrOfSamplesToTransmit
      && dataLength <= |sampleData| && |sampleData| % FRAME_BYTES == 0
      && (UsedUp() || samplesTransmitted == nrOfSamplesToTransmit || currentDataIndex % FRAME_BYTES == 0)
    }

    /** The response to a sample request: a new download begins. Data is only asked for if the stack accepts the header
        frame. */
    method BeginDownload(numberOfSamples: nat, fits: bool) returns (asks: bool)
      modifies this`currentFrameIndex, this`samplesTransmitted, this`nrOfSamplesToTransmit, this`accepted
      ensures nrOfSamplesToTransmit == numberOfSamples && samplesTransmitted == 0 && accepted == []
      ensures asks == fits && currentFrameIndex == if fits then 1 else 0
    {
      currentFrameIndex := 0;
      samplesTransmitted := 0;
      nrOfSamplesToTransmit := numberOfSamples;
      accepted := [];
      if !fits {
        return false;
      }
      currentFrameIndex := currentFrameIndex + 1;
      return true;
    }

    /** The response with the next chunk: the first `length` bytes of the cache. */
    method Load(data: seq<Byte>, length: nat)
      modifies this`sampleData, this`dataLength, this`currentDataIndex
      ensures sampleData == data && dataLength == length && currentDataIndex == 0
    {
      sampleData := data;
      dataLength := length;
      currentDataIndex := 0;
    }

    method StopSendSamples()
      modifies this`dataLength, this`nrOfSamplesToTransmit
      ensures if samplesTransmitted > 0 && old(nrOfSamplesToTransmit) > 0 then
                nrOfSamplesToTransmit == 0 && dataLength == 0
              else unchanged(this)
    {
      if samplesTransmitted > 0 && nrOfSamplesToTransmit > 0 {
        dataLength := 0;
        nrOfSamplesToTransmit := 0;
      }
    }

    /** `k` frames were transmitted from the chunk. */
    twostate predicate Transmitted(k: nat)
      reads this
    {
      var bytes, from := old(BytesLeft()), old(currentDataIndex);
      && bytes >= 0 && sampleData == old(sampleData)
      && (k > 0 ==> bytes > FRAME_BYTES * (k - 1) && from + FRAME_BYTES * (k - 1) < old(dataLength))
      && (k > 0 ==> from + Min(FRAME_BYTES * k, bytes) <= |sampleData|)
      && accepted == old(accepted) + FramesOf(sampleData, from, bytes, old(currentFrameIndex), k)
      && currentFrameIndex == old(currentFrameIndex) + k
      && currentDataIndex == from + Min(FRAME_BYTES * k, bytes)
      && samplesTransmitted == Min(old(samplesTransmitted) + 4 * k, old(nrOfSamplesToTransmit))
    }

    /** What a transmission of `k` frames leaves behind. */
    twostate predicate Sent(k: nat, outcome: Outcome)
      reads this
    {
      var bytes, from := old(BytesLeft()), old(currentDataIndex);
      && Transmitted(k)
      && (outcome == Complete <==> bytes <= FRAME_BYTES * k)
      && (outcome == WantsMore ==> from + FRAME_BYTES * k >= old(dataLength))
      && (outcome == Refused ==> from + FRAME_BYTES * k < old(dataLength))
      && (outcome != Complete ==>
          nrOfSamplesToTransmit == old(nrOfSamplesToTransmit) && dataLength == old(dataLength) && InCache())
      && (outcome == Complete ==>
          dataLength == if samplesTransmitted > 0 && old(nrOfSamplesToTransmit) > 0 then 0 else old(dataLength))
    }

    /** The end of TrySendSampleFrames, when all frames of the chunk are sent. */
    method AskForMore() returns (outcome: Outcome)
      modifies this`dataLength, this`nrOfSamplesToTransmit
      ensures outcome == if old(nrOfSamplesToTransmit > samplesTransmitted) then WantsMore else Complete
      ensures outcome == WantsMore ==> unchanged(this)
      ensures outcome == Complete ==>
                if samplesTransmitted > 0 && old(nrOfSamplesToTransmit) > 0 then dataLength == 0 else unchanged(this)
    {
      if nrOfSamplesToTransmit > samplesTransmitted {
        return WantsMore;
      }
      StopSendSamples();
      return Complete;
    }

    /**
     Sends frames from the current data position on until the stack, which has room for `pool`
     frames, refuses one, the chunk is used up, or the download is complete. `k` frames are
     accepted; they carry consecutive indices and consecutive bytes of the cache. The last one may
     reach behind the chunk, but not behind the cache. From a chunk that is used up none is sent.
     */
    method TrySendSampleFrames(pool: nat) returns (outcome: Outcome, ghost k: nat)
      requires InCache()
      modifies this
      ensures k <= pool && Transmitted(k) && Sent(k, outcome)
      ensures outcome == Refused ==> k == pool
      ensures old(UsedUp()) ==> k == 0
      ensures sampleData == old(sampleData) && dataLength <= old(dataLength)
      ensures outcome == Complete <==> old(BytesLeft()) <= FRAME_BYTES * k
      ensures outcome != Complete ==> dataLength == old(dataLength)
      ensures outcome == Refused ==> !UsedUp()
    {
      hide FramesOf;
      var refused;
      refused, k := SendFrames(pool);
      if refused {
        return Refused, k;
      }
      outcome := AskForMore();
    }

    /** The loop of TrySendSampleFrames. */
    method SendFrames(pool: nat) returns (refused: bool, ghost k: nat)
      requires InCache()
      modifies this`currentDataIndex, this`currentFrameIndex, this`samplesTransmitted, this`accepted
      ensures k <= pool && Transmitted(k) && InCache()
      ensures nrOfSamplesToTransmit > samplesTransmitted <==> old(BytesLeft()) > FRAME_BYTES * k
      ensures nrOfSamplesToTransmit > samplesTransmitted ==> currentDataIndex == old(currentDataIndex) + FRAME_BYTES * k
      ensures refused ==> k == pool && nrOfSamplesToTransmit > samplesTransmitted && !UsedUp()
      ensures !refused && nrOfSamplesToTransmit > samplesTransmitted ==> UsedUp()
      ensures old(UsedUp()) ==> k == 0
    {
      hide FramesOf, AfterFrames, FrameLength;
      NoFrames(sampleData, currentDataIndex, BytesLeft(), currentFrameIndex);
      ghost var size, length, total, from, sent :=
        |sampleData|, dataLength, nrOfSamplesToTransmit, currentDataIndex, samplesTransmitted;
      FramesStart(total, sent, from, size, length);
      var index := currentDataIndex;
      var room: nat := pool;
      k := 0;
      while index < dataLength && nrOfSamplesToTransmit > samplesTransmitted
        invariant room + k == pool && index == currentDataIndex && currentFrameIndex == old(currentFrameIndex) + k
        invariant AfterFrames(total, sent, from, size, length, k, index, samplesTransmitted)
        invariant k > 0 ==> old(BytesLeft()) > FRAME_BYTES * (k - 1)
        invariant k > 0 ==> from + Min(FRAME_BYTES * k, old(BytesLeft())) <= size
        invariant accepted == old(accepted)
                              + FramesOf(sampleData, from, old(BytesLeft()), old(currentFrameIndex), k)
        decreases room
      {
        var frameLength := Min(FRAME_BYTES, SAMPLE_BYTES * (nrOfSamplesToTransmit - samplesTransmitted));
        NextFrame(total, sent, from, size, length, k, index, samplesTransmitted);
        if room == 0 {
          FramesEnd(total, sent, from, size, length, k, index, samplesTransmitted);
          return true, k;
        }
        room := room - 1;
        OneMoreFrame(sampleData, from, old(BytesLeft()), old(currentFrameIndex), k);
        accepted := accepted + [Frame(currentFrameIndex, sampleData[index..index + frameLength])];
        index := index + frameLength;
        currentDataIndex := index;
        currentFrameIndex := currentFrameIndex + 1;
        samplesTransmitted := samplesTransmitted + frameLength / SAMPLE_BYTES;
        k := k + 1;
      }
      FramesEnd(total, sent, from, size, length, k, index, samplesTransmitted);
      refused := false;
    }
  }

  /** The counters after `k` frames of a chunk of `length` bytes in a cache of `size` bytes, sent from `from` on with
      `sent` of `total` samples sent before: at byte `index`, with `now` samples sent. */
  ghost predicate AfterFrames(total: nat, sent: nat, from: nat, size: nat, length: nat, k: nat, index: nat, now: nat) {
    && sent <= total && length <= size && size % FRAME_BYTES == 0
    && (from >= length || sent == total || from % FRAME_BYTES == 0)
    && (k > 0 ==> SAMPLE_BYTES * (total - sent) > FRAME_BYTES * (k - 1) && from + FRAME_BYTES * (k - 1) < length)
    && index == from + Min(FRAME_BYTES * k, SAMPLE_BYTES * (total - sent))
    && now == Min(sent + 4 * k, total)
  }

  lemma FramesStart(total: nat, sent: nat, from: nat, size: nat, length: nat)
    requires sent <= total && length <= size && size % FRAME_BYTES == 0
    requires from >= length || sent == total || from % FRAME_BYTES == 0
    ensures AfterFrames(total, sent, from, size, length, 0, from, sent)
  {
  }

  /** The next frame lies within the cache. */
  lemma NextFrame(total: nat, sent: nat, from: nat, size: nat, length: nat, k: nat, index: nat, now: nat)
    requires AfterFrames(total, sent, from, size, length, k, index, now) && index < length && now < total
    ensures var left, bytes := SAMPLE_BYTES * (total - sent), Min(FRAME_BYTES, SAMPLE_BYTES * (total - now));
            && left > FRAME_BYTES * k && bytes == FrameLength(left, k) && bytes > 0
            && index == from + FRAME_BYTES * k && index + bytes == from + Min(FRAME_BYTES * (k + 1), left) <= size
            && AfterFrames(total, sent, from, size, length, k + 1, index + bytes, now + bytes / SAMPLE_BYTES)
  {
  }

  /** Where the counters stand when no further frame is sent. */
  lemma FramesEnd(total: nat, sent: nat, from: nat, size: nat, length: nat, k: nat, index: nat, now: nat)
    requires AfterFrames(total, sent, from, size, length, k, index, now)
    ensures now <= total && (now == total <==> SAMPLE_BYTES * (total - sent) <= FRAME_BYTES * k)
    ensures now == Min(sent + 4 * k, total)
    ensures index == from + Min(FRAME_BYTES * k, SAMPLE_BYTES * (total - sent))
    ensures now < total ==> index == from + FRAME_BYTES * k && (index >= length || index % FRAME_BYTES == 0)
    ensures k > 0 ==> from + FRAME_BYTES * (k - 1) < length
  {
  }

  // ---- what a download delivers ----

  /** The start index of the `c`-th chunk of a download from item `first` on. */
  function ChunkStart(first: nat, c: nat): nat {
    first + CACHE_ITEMS * c
  }

  /** Index in the log of the `i`-th item that such a download reads: each chunk is enumerated anew. */
  function Source(first: nat, i: nat, capacity: Positive): nat {
    Landing(ChunkStart(first, i / CACHE_ITEMS), capacity) + i % CACHE_ITEMS
  }

  /** Number of items that hold `n` samples. */
  function Needed(n: nat): nat {
    (n + 1) / 2
  }

  ghost predicate Readable(log: seq<Item>, first: nat, n: nat, capacity: Positive) {
    forall i: nat :: i < Needed(n) ==> Source(first, i, capacity) < |log|
  }

  /** The items that a download reads. */
  ghost function Items(log: seq<Item>, first: nat, n: nat, capacity: Positive): (items: seq<Item>)
    requires Readable(log, first, n, capacity)
    ensures |items| == Needed(n)
  {
    seq(Needed(n), i requires 0 <= i < Needed(n) => log[Source(first, i, capacity)])
  }

  /** The bytes of the `n` samples that a download delivers. */
  ghost function Stream(log: seq<Item>, first: nat, n: nat, capacity: Positive): (bytes: seq<Byte>)
    requires Readable(log, first, n, capacity)
    ensures |bytes| == SAMPLE_BYTES * n
  {
    Bytes(Items(log, first, n, capacity))[..SAMPLE_BYTES * n]
  }

  lemma ByteOfStream(log: seq<Item>, first: nat, n: nat, capacity: Positive, i: nat, b: nat)
    requires Readable(log, first, n, capacity) && b < ITEM_BYTES && ITEM_BYTES * i + b < SAMPLE_BYTES * n
    ensures i < Needed(n) && Source(first, i, capacity) < |log|
    ensures Stream(log, first, n, capacity)[ITEM_BYTES * i + b] == log[Source(first, i, capacity)][b]
  {
    hide Bytes, Source;
    ByteAt(Items(log, first, n, capacity), i, b);
  }

  /** Of fewer samples the bytes are the same. */
  lemma StreamOfFewer(log: seq<Item>, first: nat, n: nat, m: nat, capacity: Positive)
    requires Readable(log, first, n, capacity) && m <= n
    ensures Readable(log, first, m, capacity)
    ensures Stream(log, first, m, capacity) == Stream(log, first, n, capacity)[..SAMPLE_BYTES * m]
  {
    hide Bytes, Stream, Source;
    var x, y := Stream(log, first, m, capacity), Stream(log, first, n, capacity)[..SAMPLE_BYTES * m];
    forall q | 0 <= q < |x| ensures x[q] == y[q] {
      ByteOfStream(log, first, m, capacity, q / ITEM_BYTES, q % ITEM_BYTES);
      ByteOfStream(log, first, n, capacity, q / ITEM_BYTES, q % ITEM_BYTES);
    }
  }

  /** Number of data frames of a download. */
  function FrameCount(n: nat): nat {
    (n + 3) / 4
  }

  /** The data frames of a download, numbered from `index` on. */
  ghost function Expected(log: seq<Item>, first: nat, n: nat, capacity: Positive, index: nat): seq<Frame>
    requires Readable(log, first, n, capacity)
  {
    FramesOf(Stream(log, first, n, capacity), 0, SAMPLE_BYTES * n, index, FrameCount(n))
  }

  /** These frames carry the samples of the download and no more. */
  lemma ExpectedCarries(log: seq<Item>, first: nat, n: nat, capacity: Positive, index: nat)
    requires Readable(log, first, n, capacity)
    ensures Payload(Expected(log, first, n, capacity, index)) == Stream(log, first, n, capacity)
  {
    hide Stream, FramesOf, Payload, Readable;
    var stream := Stream(log, first, n, capacity);
    FramesCarry(stream, 0, SAMPLE_BYTES * n, index, FrameCount(n));
    assert stream[0..0 + Min(FRAME_BYTES * FrameCount(n), SAMPLE_BYTES * n)] == stream;
  }

  // ---- which items are read ----

  /** A download reads exactly the items from `first` on, if and only if no chunk starts at a positive multiple of the
      page capacity. */
  lemma ReadsInOrder(first: nat, n: nat, capacity: Positive)
    ensures (forall i: nat :: i < Needed(n) ==> Source(first, i, capacity) == first + i)
       <==> (forall c: nat :: CACHE_ITEMS * c < Needed(n) ==>
               ChunkStart(first, c) == 0 || ChunkStart(first, c) % capacity != 0)
  {
    hide Landing;
    if forall i: nat :: i < Needed(n) ==> Source(first, i, capacity) == first + i {
      forall c: nat | CACHE_ITEMS * c < Needed(n)
        ensures ChunkStart(first, c) == 0 || ChunkStart(first, c) % capacity != 0
      {
        SourceOfChunk(first, c, capacity);
        LandsExactly(ChunkStart(first, c), capacity);
      }
    }
    if forall c: nat :: CACHE_ITEMS * c < Needed(n) ==>
         ChunkStart(first, c) == 0 || ChunkStart(first, c) % capacity != 0
    {
      forall i: nat | i < Needed(n) ensures Source(first, i, capacity) == first + i {
        var c := i / CACHE_ITEMS;
        assert ChunkStart(first, c) == 0 || ChunkStart(first, c) % capacity != 0;
        LandsExactly(ChunkStart(first, c), capacity);
      }
    }
  }

  /** It reads exactly the items from a page before `first` on, if and only if all chunks start at such multiples. */
  lemma ReadsPageBefore(first: nat, n: nat, capacity: Positive)
    ensures (forall i: nat :: i < Needed(n) ==> Source(first, i, capacity) + capacity == first + i)
       <==> (forall c: nat :: CACHE_ITEMS * c < Needed(n) ==>
               ChunkStart(first, c) > 0 && ChunkStart(first, c) % capacity == 0)
  {
    hide Landing;
    if forall i: nat :: i < Needed(n) ==> Source(first, i, capacity) + capacity == first + i {
      forall c: nat | CACHE_ITEMS * c < Needed(n)
        ensures ChunkStart(first, c) > 0 && ChunkStart(first, c) % capacity == 0
      {
        SourceOfChunk(first, c, capacity);
        LandsPageBefore(ChunkStart(first, c), capacity);
      }
    }
    if forall c: nat :: CACHE_ITEMS * c < Needed(n) ==>
         ChunkStart(first, c) > 0 && ChunkStart(first, c) % capacity == 0
    {
      forall i: nat | i < Needed(n) ensures Source(first, i, capacity) + capacity == first + i {
        var c := i / CACHE_ITEMS;
        assert ChunkStart(first, c) > 0 && ChunkStart(first, c) % capacity == 0;
        LandsPageBefore(ChunkStart(first, c), capacity);
      }
    }
  }

  lemma SourceOfChunk(first: nat, c: nat, capacity: Positive)
    ensures Source(first, CACHE_ITEMS * c, capacity) == Landing(ChunkStart(first, c), capacity)
  {
    hide Landing;
    assert CACHE_ITEMS * c / CACHE_ITEMS == c && CACHE_ITEMS * c % CACHE_ITEMS == 0;
  }

  /** On the device, where a page holds as much as the cache: in order, if and only if the first item is not at a
      multiple, or it is item 0 and one chunk is enough. */
  lemma ReadsInOrderOnDevice(first: nat, n: nat)
    requires n > 0
    ensures (forall i: nat :: i < Needed(n) ==> Source(first, i, DEVICE_CAPACITY) == first + i)
       <==> first % DEVICE_CAPACITY != 0 || (first == 0 && Needed(n) <= CACHE_ITEMS)
  {
    ReadsInOrder(first, n, DEVICE_CAPACITY);
    assert ChunkStart(first, 0) == first && ChunkStart(first, 1) == first + CACHE_ITEMS;
    forall c: nat ensures ChunkStart(first, c) % DEVICE_CAPACITY == first % DEVICE_CAPACITY {
      SameRemainder(first, c);
    }
  }

  lemma SameRemainder(first: nat, c: nat)
    ensures ChunkStart(first, c) % DEVICE_CAPACITY == first % DEVICE_CAPACITY
  {
  }

  /** Read in one piece from item `at` on, the payload is that part of the log. */
  lemma StreamIsPart(log: seq<Item>, first: nat, n: nat, capacity: Positive, at: nat)
    requires Readable(log, first, n, capacity) && at + Needed(n) <= |log|
    requires forall i: nat :: i < Needed(n) ==> Source(first, i, capacity) == at + i
    ensures 0 <= ITEM_BYTES * at <= ITEM_BYTES * at + SAMPLE_BYTES * n <= |Bytes(log)|
    ensures Stream(log, first, n, capacity) == Bytes(log)[ITEM_BYTES * at..ITEM_BYTES * at + SAMPLE_BYTES * n]
  {
    hide Bytes, Stream, Source;
    var stream := Stream(log, first, n, capacity);
    forall q | 0 <= q < |stream| ensures stream[q] == Bytes(log)[ITEM_BYTES * at + q] {
      var i, b := q / ITEM_BYTES, q % ITEM_BYTES;
      ByteOfStream(log, first, n, capacity, i, b);
      assert Source(first, i, capacity) == at + i;
      ByteAt(log, at + i, b);
      assert ITEM_BYTES * (at + i) + b == ITEM_BYTES * at + q;
    }
  }

  lemma EndOfPart(at: nat, n: nat, end: nat)
    requires at + Needed(n) == end
    ensures ITEM_BYTES * at + SAMPLE_BYTES * n == ITEM_BYTES * end - SAMPLE_BYTES * (n % 2)
  {
  }

  /** In order, the payload is the newest part of the log; of an odd number of samples the newest one stored is left
      out. */
  lemma DeliversNewest(log: seq<Item>, first: nat, n: nat, capacity: Positive)
    requires first + Needed(n) == |log|
    requires forall c: nat :: CACHE_ITEMS * c < Needed(n) ==>
               ChunkStart(first, c) == 0 || ChunkStart(first, c) % capacity != 0
    ensures Readable(log, first, n, capacity) && 0 <= ITEM_BYTES * first <= |Bytes(log)| - SAMPLE_BYTES * (n % 2)
    ensures Stream(log, first, n, capacity)
         == Bytes(log)[ITEM_BYTES * first..|Bytes(log)| - SAMPLE_BYTES * (n % 2)]
  {
    hide Bytes, Stream, Source;
    ReadsInOrder(first, n, capacity);
    StreamIsPart(log, first, n, capacity, first);
    EndOfPart(first, n, |log|);
  }

  /** The defect at its smallest: of a log of 511 items read from the start, the last item read is item 0 again. */
  lemma SecondChunkRepeats()
    ensures Source(0, CACHE_ITEMS, DEVICE_CAPACITY) == 0
  {
    SourceOfChunk(0, 1, DEVICE_CAPACITY);
  }

  // ---- whether the items can be read ----

  /** The store gives as many items from the start of chunk `c` on as a download of `n` samples needs. */
  ghost predicate CompleteChunk(log: seq<Item>, first: nat, n: nat, capacity: Positive, justClosed: bool, c: nat) {
    && Ready(log, ChunkStart(first, c), capacity)
    && |Enumerated(log, ChunkStart(first, c), capacity, justClosed)| >= Min(CACHE_ITEMS, Needed(n) - CACHE_ITEMS * c)
  }

  /** That is so of all chunks from chunk `from` on. */
  ghost predicate AllComplete(log: seq<Item>, first: nat, n: nat, capacity: Positive, justClosed: bool, from: nat) {
    forall c: nat :: from <= c && CACHE_ITEMS * c < Needed(n) ==> CompleteChunk(log, first, n, capacity, justClosed, c)
  }

  /** The items needed are in the log whenever the request counted the log right, however the log has grown since. */
  lemma RightCountIsComplete(log: seq<Item>, first: nat, n: nat, capacity: Positive, justClosed: bool, from: nat)
    requires first + Needed(n) <= |log|
    ensures AllComplete(log, first, n, capacity, justClosed, from)
  {
    forall c: nat | from <= c && CACHE_ITEMS * c < Needed(n)
      ensures CompleteChunk(log, first, n, capacity, justClosed, c)
    {
      hide Landing;
      var s := ChunkStart(first, c);
      LandsBefore(s, |log|, capacity);
      LandingIsNear(s, capacity);
    }
  }

  lemma CompleteAt(log: seq<Item>, first: nat, n: nat, capacity: Positive, justClosed: bool, c: nat)
    requires AllComplete(log, first, n, capacity, justClosed, c) && CACHE_ITEMS * c < Needed(n)
    ensures CompleteChunk(log, first, n, capacity, justClosed, c)
    ensures AllComplete(log, first, n, capacity, justClosed, c + 1)
  {
  }

  lemma CompleteIsReadable(log: seq<Item>, first: nat, n: nat, capacity: Positive, justClosed: bool)
    requires AllComplete(log, first, n, capacity, justClosed, 0)
    ensures Readable(log, first, n, capacity)
  {
    hide Landing;
    forall i: nat | i < Needed(n) ensures Source(first, i, capacity) < |log| {
      var c := i / CACHE_ITEMS;
      assert CompleteChunk(log, first, n, capacity, justClosed, c);
      LandsBefore(ChunkStart(first, c), |log|, capacity);
    }
  }

  /** How many samples of a download of `n` come right: all, or those in whole frames up to the end of the log. */
  ghost function Reach(log: seq<Item>, first: nat, n: nat, capacity: Positive, justClosed: bool): nat {
    if AllComplete(log, first, n, capacity, justClosed, 0) then n
    else if first < |log| then 4 * ((|log| - first) / 2) else 0
  }

  lemma ReachIsComplete(log: seq<Item>, first: nat, n: nat, capacity: Positive, justClosed: bool)
    ensures var reach := Reach(log, first, n, capacity, justClosed);
            && reach <= n && (reach == n <==> AllComplete(log, first, n, capacity, justClosed, 0))
            && (reach == n || (reach % 4 == 0 && (reach == 0 || first + Needed(reach) <= |log|)))
            && AllComplete(log, first, reach, capacity, justClosed, 0) && Readable(log, first, reach, capacity)
  {
    hide AllComplete, Readable;
    var reach := Reach(log, first, n, capacity, justClosed);
    if reach >= n && !AllComplete(log, first, n, capacity, justClosed, 0) {
      NothingNeeded(log, first, capacity, justClosed);
      if n > 0 { RightCountIsComplete(log, first, n, capacity, justClosed, 0); }
      assert false;
    }
    if reach == 0 {
      NothingNeeded(log, first, capacity, justClosed);
    } else if reach != n {
      RightCountIsComplete(log, first, reach, capacity, justClosed, 0);
    }
    CompleteIsReadable(log, first, reach, capacity, justClosed);
  }

  lemma NothingNeeded(log: seq<Item>, first: nat, capacity: Positive, justClosed: bool)
    ensures AllComplete(log, first, 0, capacity, justClosed, 0)
  {
  }

  /**
     A request on the device just after the close of a page, when the store counts a page of items
     too many: the start index comes out that much too high. All items can be read if and only if
     the request is for whole pages, as the enumeration then begins a page earlier for each chunk;
     these are the newest items, if and only if it is not for as many as the store counts.
   */
  lemma RequestAfterClose(log: seq<Item>, n: nat, first: nat)
    requires n > 0 && |log| > 0 && |log| % DEVICE_CAPACITY == 0 && first + Needed(n) == |log| + DEVICE_CAPACITY
    ensures AllComplete(log, first, n, DEVICE_CAPACITY, true, 0) <==> Needed(n) % DEVICE_CAPACITY == 0
    ensures (forall i: nat :: i < Needed(n) ==> Source(first, i, DEVICE_CAPACITY) + DEVICE_CAPACITY == first + i)
       <==> first > 0 && Needed(n) % DEVICE_CAPACITY == 0
  {
    hide AllComplete, CompleteChunk, Source;
    ReadsPageBefore(first, n, DEVICE_CAPACITY);
    assert ChunkStart(first, 0) == first;
    WholePagesShifted(log, first, n);
    if Needed(n) % DEVICE_CAPACITY == 0 {
      WholePagesComplete(log, first, n);
    } else {
      EndOfLogPassed(log, first, n);
    }
  }

  lemma WholePagesShifted(log: seq<Item>, first: nat, n: nat)
    requires |log| % DEVICE_CAPACITY == 0 && first + Needed(n) == |log| + DEVICE_CAPACITY
    ensures Needed(n) % DEVICE_CAPACITY == 0 <==> first % DEVICE_CAPACITY == 0
    ensures forall c: nat :: ChunkStart(first, c) % DEVICE_CAPACITY == first % DEVICE_CAPACITY
  {
    forall c: nat ensures ChunkStart(first, c) % DEVICE_CAPACITY == first % DEVICE_CAPACITY {
      SameRemainder(first, c);
    }
  }

  lemma WholePagesComplete(log: seq<Item>, first: nat, n: nat)
    requires |log| > 0 && |log| % DEVICE_CAPACITY == 0 && first + Needed(n) == |log| + DEVICE_CAPACITY
    requires Needed(n) % DEVICE_CAPACITY == 0
    ensures AllComplete(log, first, n, DEVICE_CAPACITY, true, 0)
  {
    forall c: nat | CACHE_ITEMS * c < Needed(n) ensures CompleteChunk(log, first, n, DEVICE_CAPACITY, true, c) {
      assert Needed(n) - CACHE_ITEMS * c >= CACHE_ITEMS;
      SameRemainder(first, c);
    }
  }

  lemma EndOfLogPassed(log: seq<Item>, first: nat, n: nat)
    requires n > 0 && |log| % DEVICE_CAPACITY == 0 && first + Needed(n) == |log| + DEVICE_CAPACITY
    requires Needed(n) % DEVICE_CAPACITY != 0
    ensures !AllComplete(log, first, n, DEVICE_CAPACITY, true, 0)
  {
    var c := Needed(n) / CACHE_ITEMS;
    assert ChunkStart(first, c) > |log|;
    assert !CompleteChunk(log, first, n, DEVICE_CAPACITY, true, c);
  }

  /** So a request for whole pages, but not for all that the store counts, gets the newest items in spite of that. */
  lemma WholePagesAfterClose(log: seq<Item>, n: nat, first: nat)
    requires n > 0 && |log| > 0 && |log| % DEVICE_CAPACITY == 0 && first + Needed(n) == |log| + DEVICE_CAPACITY
    requires first > 0 && Needed(n) % DEVICE_CAPACITY == 0
    ensures Readable(log, first, n, DEVICE_CAPACITY)
    ensures 0 <= ITEM_BYTES * (|log| - Needed(n)) <= |Bytes(log)| - SAMPLE_BYTES * (n % 2)
    ensures Stream(log, first, n, DEVICE_CAPACITY)
         == Bytes(log)[ITEM_BYTES * (|log| - Needed(n))..|Bytes(log)| - SAMPLE_BYTES * (n % 2)]
  {
    hide Bytes, Stream, Source, AllComplete;
    RequestAfterClose(log, n, first);
    CompleteIsReadable(log, first, n, DEVICE_CAPACITY, true);
    assert Source(first, 0, DEVICE_CAPACITY) + DEVICE_CAPACITY == first;
    StreamIsPart(log, first, n, DEVICE_CAPACITY, first - DEVICE_CAPACITY);
    EndOfPart(first - DEVICE_CAPACITY, n, |log|);
  }

  /** A request for all that the store counts gets the first page twice. */
  lemma AllAfterClose(log: seq<Item>, n: nat, i: nat)
    requires |log| > 0 && |log| % DEVICE_CAPACITY == 0 && Needed(n) == |log| + DEVICE_CAPACITY && i < Needed(n)
    ensures Source(0, i, DEVICE_CAPACITY) == if i < DEVICE_CAPACITY then i else i - DEVICE_CAPACITY
  {
    SameRemainder(0, i / CACHE_ITEMS);
    LandsExactly(ChunkStart(0, i / CACHE_ITEMS), DEVICE_CAPACITY);
  }

  /** Of every other request only the items up to the end of the log come right, a page less than asked for, and of
      these only those in whole frames. */
  lemma PartAfterClose(log: seq<Item>, n: nat, first: nat)
    requires n > 0 && |log| > 0 && |log| % DEVICE_CAPACITY == 0 && first + Needed(n) == |log| + DEVICE_CAPACITY
    requires Needed(n) % DEVICE_CAPACITY != 0
    ensures var reach := Reach(log, first, n, DEVICE_CAPACITY, true);
            && reach == (if Needed(n) > DEVICE_CAPACITY then 4 * ((Needed(n) - DEVICE_CAPACITY) / 2) else 0)
            && reach < n && Readable(log, first, reach, DEVICE_CAPACITY)
            && (reach > 0 ==>
                && 0 <= ITEM_BYTES * first <= ITEM_BYTES * first + SAMPLE_BYTES * reach <= |Bytes(log)|
                && Stream(log, first, reach, DEVICE_CAPACITY)
                   == Bytes(log)[ITEM_BYTES * first..ITEM_BYTES * first + SAMPLE_BYTES * reach])
  {
    hide Bytes, Stream, Source, AllComplete, Readable;
    RequestAfterClose(log, n, first);
    ReachIsComplete(log, first, n, DEVICE_CAPACITY, true);
    WholePagesShifted(log, first, n);
    var reach := Reach(log, first, n, DEVICE_CAPACITY, true);
    if reach > 0 {
      ReadsInOrder(first, reach, DEVICE_CAPACITY);
      StreamIsPart(log, first, reach, DEVICE_CAPACITY, first);
    }
  }

  // ---- frames of a chunk ----

  /** `m` bytes of `data` from `from` on are those of `stream` from `at` on. */
  ghost predicate Carries(data: seq<Byte>, from: nat, stream: seq<Byte>, at: nat, m: int) {
    && from + m <= |data| && at + m <= |stream|
    && forall p :: from <= p < from + m ==> data[p] == stream[at + (p - from)]
  }

  lemma CarriesSlice(data: seq<Byte>, from: nat, stream: seq<Byte>, at: nat, m: int, skip: nat, length: nat)
    requires Carries(data, from, stream, at, m) && skip + length <= m
    ensures data[from + skip..from + skip + length] == stream[at + skip..at + skip + length]
  {
    var x, y := data[from + skip..from + skip + length], stream[at + skip..at + skip + length];
    forall r | 0 <= r < length ensures x[r] == y[r] {
      assert x[r] == data[from + skip + r];
    }
  }

  lemma CarriesPart(data: seq<Byte>, from: nat, stream: seq<Byte>, at: nat, m: int, done: int)
    requires Carries(data, from, stream, at, m) && 0 <= done <= m
    ensures from + m <= |data| && at + m <= |stream| && Carries(data, from, stream, at, done)
    ensures Carries(data, from + done, stream, at + done, m - done)
  {
  }

  /** Frame `k` of a part of a stream has the bytes of the frame of the stream in its place. */
  lemma SameFrame(stream: seq<Byte>, a: nat, data: seq<Byte>, from: nat, k: nat, left: int)
    requires left > FRAME_BYTES * k && |stream| == FRAME_BYTES * a + left
    requires Carries(data, from, stream, FRAME_BYTES * a, Min(FRAME_BYTES * (k + 1), left))
    ensures 0 < FrameLength(left, k) == FrameLength(|stream|, a + k)
    ensures from + FRAME_BYTES * k + FrameLength(left, k) <= |data|
    ensures FRAME_BYTES * (a + k) + FrameLength(left, k) <= |stream|
    ensures data[from + FRAME_BYTES * k..from + FRAME_BYTES * k + FrameLength(left, k)]
         == stream[FRAME_BYTES * (a + k)..FRAME_BYTES * (a + k) + FrameLength(left, k)]
  {
    CarriesSlice(data, from, stream, FRAME_BYTES * a, Min(FRAME_BYTES * (k + 1), left), FRAME_BYTES * k,
                 FrameLength(left, k));
  }

  /** Frames cut from a part of a stream continue the frames of what comes before it. */
  lemma {:induction false} FramesContinue(stream: seq<Byte>, bytes: nat, a: nat, data: seq<Byte>, from: nat, k: nat,
                                          index: nat)
    requires |stream| == bytes && (a > 0 ==> bytes > FRAME_BYTES * (a - 1))
    requires k > 0 ==> bytes > FRAME_BYTES * (a + k - 1)
    requires k > 0 ==> Carries(data, from, stream, FRAME_BYTES * a, Min(FRAME_BYTES * k, bytes - FRAME_BYTES * a))
    ensures FramesOf(stream, 0, bytes, index, a) + FramesOf(data, from, bytes - FRAME_BYTES * a, index + a, k)
         == FramesOf(stream, 0, bytes, index, a + k)
  {
    hide FramesOf, FrameLength, Carries;
    var left := bytes - FRAME_BYTES * a;
    if k == 0 {
      NoFrames(data, from, left, index + a);
    } else {
      var m := Min(FRAME_BYTES * k, left);
      SameFrame(stream, a, data, from, k - 1, left);
      CarriesPart(data, from, stream, FRAME_BYTES * a, m, FRAME_BYTES * (k - 1));
      FramesContinue(stream, bytes, a, data, from, k - 1, index);
      OneMoreFrame(stream, 0, bytes, index, a + (k - 1));
      OneMoreFrame(data, from, left, index + a, k - 1);
    }
  }

  /** How much of a request comes right. */
  lemma ReachOfRequest(log: seq<Item>, first: nat, n: nat, capacity: Positive, justClosed: bool)
    requires n > 0 ==> first + Needed(n) == |log| + if justClosed then capacity else 0
    requires justClosed ==> |log| > 0 && |log| % capacity == 0
    requires n == 0 && !justClosed ==> first <= |log|
    ensures var reach := Reach(log, first, n, capacity, justClosed);
            && reach <= n && (reach == n <==> AllComplete(log, first, n, capacity, justClosed, 0))
            && (reach < n ==> first + Needed(reach) <= |log| || reach == 0)
            && (!justClosed ==> reach == n && first + Needed(n) <= |log|)
            && (justClosed && capacity == DEVICE_CAPACITY ==>
                && (reach == n <==> Needed(n) % DEVICE_CAPACITY == 0)
                && (reach < n ==> n > 0 && first % DEVICE_CAPACITY != 0))
  {
    hide AllComplete, Reach;
    ReachIsComplete(log, first, n, capacity, justClosed);
    if !justClosed { RightCountIsComplete(log, first, n, capacity, justClosed, 0); }
    if n == 0 { NothingNeeded(log, first, capacity, justClosed); }
    if justClosed && capacity == DEVICE_CAPACITY && n > 0 {
      RequestAfterClose(log, n, first);
      WholePagesShifted(log, first, n);
    }
  }

  /** Fewer frames of fewer bytes are the first ones. */
  lemma {:induction false} FramesCut(data: seq<Byte>, from: nat, bytes: int, k: nat, bytes': int, k': nat, index: nat)
    requires k' <= k && (k > 0 ==> bytes > FRAME_BYTES * (k - 1) && from + Min(FRAME_BYTES * k, bytes) <= |data|)
    requires bytes' == bytes || (FRAME_BYTES * k' <= bytes && FRAME_BYTES * k' <= bytes')
    ensures k' > 0 ==> bytes' > FRAME_BYTES * (k' - 1) && from + Min(FRAME_BYTES * k', bytes') <= |data|
    ensures FramesOf(data, from, bytes, index, k)[..k'] == FramesOf(data, from, bytes', index, k')
  {
    if k' < k {
      FramesCut(data, from, bytes, k - 1, bytes', k', index);
    } else if k > 0 {
      FramesCut(data, from, bytes, k - 1, bytes', k - 1, index);
      var front := FramesOf(data, from, bytes, index, k - 1);
      assert front[..k - 1] == front;
      assert FrameLength(bytes, k - 1) == FrameLength(bytes', k - 1);
    }
  }

  /** Whole frames depend on their bytes only. */
  lemma {:induction false} FramesOfPrefix(data: seq<Byte>, bytes: int, data': seq<Byte>, bytes': int, index: nat,
                                          k: nat)
    requires FRAME_BYTES * k <= bytes <= |data| && FRAME_BYTES * k <= bytes' <= |data'|
    requires data[..FRAME_BYTES * k] == data'[..FRAME_BYTES * k]
    ensures FramesOf(data, 0, bytes, index, k) == FramesOf(data', 0, bytes', index, k)
  {
    if k > 0 {
      var start, end := FRAME_BYTES * (k - 1), FRAME_BYTES * k;
      assert data[..start] == data[..end][..start] && data'[..start] == data'[..end][..start];
      FramesOfPrefix(data, bytes, data', bytes', index, k - 1);
      assert data[start..end] == data[..end][start..] && data'[start..end] == data'[..end][start..];
    }
  }

  // ---- the chunk in the cache ----

  /** A complete chunk carries the next part of the stream, whatever was appended since the request. */
  lemma ChunkCarries(requestLog: seq<Item>, log: seq<Item>, first: nat, n: nat, capacity: Positive, justClosed: bool,
                     c: nat, cache: seq<Item>, read: nat)
    requires requestLog <= log && Readable(requestLog, first, n, capacity) && CACHE_ITEMS * c < Needed(n)
    requires CompleteChunk(log, first, n, capacity, justClosed, c) && |cache| == CACHE_ITEMS
    requires var items := Enumerated(log, ChunkStart(first, c), capacity, justClosed);
             read <= |items| && read <= |cache| && cache[..read] == items[..read]
    requires read >= Min(CACHE_ITEMS, Needed(n) - CACHE_ITEMS * c)
    ensures Carries(Bytes(cache), 0, Stream(requestLog, first, n, capacity), CACHE_BYTES * c,
                    Min(SAMPLE_BYTES * n - CACHE_BYTES * c, CACHE_BYTES))
  {
    hide Bytes, Stream, Ready, Readable, CompleteChunk;
    var at := CACHE_BYTES * c;
    var stream := Stream(requestLog, first, n, capacity);
    forall p | 0 <= p < Min(SAMPLE_BYTES * n - at, CACHE_BYTES) ensures Bytes(cache)[p] == stream[at + (p - 0)] {
      ByteOfChunk(requestLog, log, first, n, capacity, justClosed, c, cache, read, p);
    }
  }

  lemma ByteOfChunk(requestLog: seq<Item>, log: seq<Item>, first: nat, n: nat, capacity: Positive, justClosed: bool,
                    c: nat, cache: seq<Item>, read: nat, p: nat)
    requires requestLog <= log && Readable(requestLog, first, n, capacity)
    requires CompleteChunk(log, first, n, capacity, justClosed, c) && |cache| == CACHE_ITEMS
    requires var items := Enumerated(log, ChunkStart(first, c), capacity, justClosed);
             read <= |items| && read <= |cache| && cache[..read] == items[..read]
    requires read >= Min(CACHE_ITEMS, Needed(n) - CACHE_ITEMS * c)
    requires p < CACHE_BYTES && CACHE_BYTES * c + p < SAMPLE_BYTES * n
    ensures Bytes(cache)[p] == Stream(requestLog, first, n, capacity)[CACHE_BYTES * c + p]
  {
    hide Ready, Bytes, Stream, Readable, Enumerated, Landing;
    var i, b := p / ITEM_BYTES, p % ITEM_BYTES;
    var j := CACHE_ITEMS * c + i;
    ByteAt(cache, i, b);
    assert ITEM_BYTES * j + b == CACHE_BYTES * c + p;
    ByteOfStream(requestLog, first, n, capacity, j, b);
    assert j / CACHE_ITEMS == c && j % CACHE_ITEMS == i;
    ItemOfChunk(log, ChunkStart(first, c), capacity, justClosed, i);
    assert cache[i] == cache[..read][i];
    assert Enumerated(log, ChunkStart(first, c), capacity, justClosed)[i]
        == Enumerated(log, ChunkStart(first, c), capacity, justClosed)[..read][i];
  }

  lemma ItemOfChunk(log: seq<Item>, s: nat, capacity: Positive, justClosed: bool, i: nat)
    requires Ready(log, s, capacity) && i < |Enumerated(log, s, capacity, justClosed)|
    ensures Landing(s, capacity) + i < |log|
    ensures Enumerated(log, s, capacity, justClosed)[i] == log[Landing(s, capacity) + i]
  {
    LandsBefore(s, |log|, capacity);
  }
  // ---- the two state machines together ----

  datatype Stage = NoDownload | HeaderRefused | NextRequested | AwaitingPool | Finished | Stalled

  /**
     The controller and the BLE context with the messages between them. The store may grow at
     any time, but drops no page during a download.
   */
  class Download {
    const controller: MeasurementItemController
    const context: BleContext
    /** Number of items on a flash page. */
    const capacity: Positive
    /** The items on flash. */
    var log: seq<Item>
    /** A page was just closed: the store counts a page of items too many until the next one is added. */
    var justClosed: bool
    var stage: Stage

    /** The current download: the log when it was requested, its first item, its number of samples and the index of its
        first data frame, which is 0 if the header frame was refused. */
    ghost var requestLog: seq<Item>
    ghost var first: nat
    ghost var samples: nat
    ghost var base: nat
    /** Number of samples that come right, whatever else is sent behind them. */
    ghost var target: nat
    /** Number of chunks used up. */
    ghost var chunks: nat

    ghost predicate Requested()
      reads this`log, this`requestLog, this`first, this`samples, this`target, controller`numberOfSamples,
            controller`extraSample, controller`enumeratorStartIndex, controller`alreadyReadSamples
    {
      && requestLog <= log && target <= samples && (target == samples || target % 4 == 0)
      && Readable(requestLog, first, target, capacity)
      && controller.numberOfSamples == samples && controller.extraSample == samples % 2 && samples + 1 < 0x1_0000
      && controller.enumeratorStartIndex == first + controller.alreadyReadSamples
    }

    /** What comes right was all in the log when it was requested. */
    ghost predicate Counted()
      reads this`requestLog, this`first, this`target
    {
      first + Needed(target) <= |requestLog| || target == 0
    }

    /** Not all frames that come right were accepted. */
    ghost predicate Due()
      reads this`target, context`accepted
    {
      |context.accepted| < FrameCount(target)
    }

    /** The accepted frames are the first frames of the download, as far as these come right. */
    ghost predicate FramesRight()
      requires Requested()
      reads this`log, this`requestLog, this`first, this`samples, this`target, this`base, context`accepted,
            controller`numberOfSamples, controller`extraSample, controller`enumeratorStartIndex,
            controller`alreadyReadSamples
    {
      var k := Min(|context.accepted|, FrameCount(target));
      context.accepted[..k] == FramesOf(Stream(requestLog, first, target, capacity), 0, SAMPLE_BYTES * target, base, k)
    }

    /** All counters agree with the accepted frames, and these have used up every chunk but the one loaded last. */
    ghost predicate InStep()
      reads this`samples, this`base, controller`alreadyReadSamples, context
    {
      && context.nrOfSamplesToTransmit == samples
      && context.samplesTransmitted == 4 * |context.accepted| <= samples
      && context.currentFrameIndex == |context.accepted| + base
      && context.InCache()
      && FRAME_BYTES * |context.accepted| + context.DataLeft() >= ITEM_BYTES * controller.alreadyReadSamples
    }

    /** What comes next is right: all chunks so far were full ones, and all those to come can be read. */
    ghost predicate NextRight()
      reads this`log, this`justClosed, this`first, this`target, this`chunks, controller`alreadyReadSamples,
            context`accepted
    {
      Due() ==>
        && controller.alreadyReadSamples == CACHE_ITEMS * chunks == 2 * |context.accepted|
        && AllComplete(log, first, target, capacity, justClosed, chunks)
    }

    /** The chunk in hand is right: it carries the stream from where sending stands, and is full if more follows. */
    ghost predicate ChunkRight()
      requires Requested()
      reads this`log, this`justClosed, this`requestLog, this`first, this`samples, this`target, this`chunks, context,
            controller`numberOfSamples, controller`extraSample, controller`enumeratorStartIndex,
            controller`alreadyReadSamples
    {
      Due() ==>
        var at, from := FRAME_BYTES * |context.accepted|, context.currentDataIndex;
        && from + CACHE_BYTES * chunks == at && |context.sampleData| == CACHE_BYTES && !context.UsedUp()
        && context.dataLength >= Min(CACHE_BYTES, SAMPLE_BYTES * target - CACHE_BYTES * chunks)
        && (context.dataLength == CACHE_BYTES ==> controller.alreadyReadSamples == CACHE_ITEMS * (chunks + 1))
        && Carries(context.sampleData, from, Stream(requestLog, first, target, capacity), at,
                   Min(SAMPLE_BYTES * target - at, CACHE_BYTES - from))
        && AllComplete(log, first, target, capacity, justClosed, chunks + 1)
    }

    /** What holds at all times. */
    ghost predicate Sane()
      reads this`log, this`justClosed, controller`samplesCache, context`dataLength, context`sampleData
    {
      && |controller.samplesCache| == CACHE_ITEMS
      && (justClosed ==> |log| > 0 && |log| % capacity == 0)
      && context.dataLength <= |context.sampleData| && |context.sampleData| % FRAME_BYTES == 0
    }

    ghost predicate Valid()
      reads this, controller, context
    {
      && Sane()
      && (stage != NoDownload ==> Requested() && FramesRight())
      && (stage != AwaitingPool ==> context.UsedUp())
      && (stage == HeaderRefused ==> chunks == 0 && base == 0)
      && (stage == HeaderRefused || stage == NextRequested ==>
          InStep() && NextRight() && (samples == 0 || 4 * |context.accepted| < samples))
      && (stage == AwaitingPool ==>
          InStep() && ChunkRight() && !context.UsedUp() && 4 * |context.accepted| < samples)
      && (stage == Finished ==> |context.accepted| == FrameCount(samples))
      && (stage == Stalled ==> !Due() && |context.accepted| < FrameCount(samples))
    }

    constructor (log: seq<Item>, justClosed: bool, capacity: Positive, controller: MeasurementItemController,
                 context: BleContext)
      requires |controller.samplesCache| == CACHE_ITEMS && (justClosed ==> |log| > 0 && |log| % capacity == 0)
      requires context.dataLength == 0 && context.sampleData == []
      ensures Valid() && stage == NoDownload && this.log == log && this.justClosed == justClosed
      ensures this.controller == controller && this.context == context && this.capacity == capacity
    {
      this.log, this.justClosed, this.capacity := log, justClosed, capacity;
      this.controller, this.context := controller, context;
      stage := NoDownload;
    }

    /**
     An item is added to the log. A download that was requested with the right count does not
     notice. Of one that relies on an enumeration to begin a page earlier, no more comes right than
     was sent already, because from now on the store announces the end of the log.
     */
    method Append(x: Item)
      requires Valid()
      modifies this`log, this`justClosed, this`target
      ensures Valid() && log == old(log) + [x] && justClosed == (|log| % capacity == 0) && target <= old(target)
      ensures old(Counted()) ==> Counted() && target == old(target)
    {
      hide Valid;
      KeepCounted();
      label Kept:
      log := log + [x];
      justClosed := |log| % capacity == 0;
      StillRight@Kept();
    }

    /** A download with frames to come is under way. */
    ghost predicate Running()
      reads this`stage, this`target, context`accepted
    {
      stage != NoDownload && Due()
    }

    /** Reduces what comes right to what was sent already, unless it does not rely on more items than there were. */
    ghost method KeepCounted()
      requires Valid()
      modifies this`target
      ensures Valid() && target <= old(target) && (Running() ==> Counted())
      ensures old(Counted()) ==> Counted() && target == old(target)
    {
      hide Stream, FramesOf, Carries, Readable, AllComplete, FrameCount, InStep, Sane, Needed, BleContext.UsedUp;
      ghost var a := |context.accepted|;
      if stage != NoDownload && Due() && !Counted() {
        FramesOfFewer(requestLog, first, target, capacity, a, base);
        target := 4 * a;
      }
    }

    twostate lemma StillRight()
      requires old(Valid()) && old(log) <= log && (justClosed ==> |log| > 0 && |log| % capacity == 0)
      requires unchanged(controller) && unchanged(context) && unchanged(`stage, `requestLog, `first, `samples, `base)
      requires unchanged(`target, `chunks) && (Running() ==> Counted())
      ensures Valid()
    {
      hide Stream, FramesOf, Carries, Readable, AllComplete, FrameCount, BleContext.InCache;
      FrameCountIs(target);
      if Running() {
        RightCountIsComplete(log, first, target, capacity, justClosed, chunks);
        RightCountIsComplete(log, first, target, capacity, justClosed, chunks + 1);
      }
    }

    /**
     A client asks for `requested` samples. The enumerator that counts the log is not reset, so
     the samples are counted as none if it still points behind the log. When the header frame is
     refused the data waits until the stack has room again, and its frames start with number 0.
     All samples come right if the store counts right. If it counts a page too many, on the device,
     they do if and only if the request is for whole pages.
     */
    method Request(requested: nat, fits: bool)
      requires Valid() && (stage == NoDownload || stage == Finished || stage == Stalled)
      requires 2 * (|log| + capacity) < 0x1_0000 && requested < 0x1_0000
      modifies this`stage, this`requestLog, this`first, this`samples, this`base, this`target, this`chunks, controller,
               context
      ensures Valid() && stage == (if fits then NextRequested else HeaderRefused) && base == (if fits then 1 else 0)
      ensures requestLog == log && controller.enumeratorStart == old(controller.enumeratorStart)
      ensures var counted := |log| + if justClosed then capacity else 0;
              && samples == Min(if Ready(log, controller.enumeratorStart, capacity) then 2 * counted else 0, requested)
              && (samples > 0 ==> first + Needed(samples) == counted)
      ensures target == Reach(log, first, samples, capacity, justClosed)
      ensures target == samples <==> AllComplete(log, first, samples, capacity, justClosed, 0)
      ensures !justClosed ==> target == samples && Counted()
      ensures target < samples ==> Counted()
      ensures justClosed && capacity == DEVICE_CAPACITY ==>
                && (target == samples <==> Needed(samples) % DEVICE_CAPACITY == 0)
                && (target < samples ==> Doomed())
    {
      hide Stream, FramesOf, Ready, Carries, Readable, AllComplete, Reach, FramesRight, InStep, NextRight, Requested;
      Ask(requested, fits);
      JustBegun();
      ReachOfRequest(log, first, samples, capacity, justClosed);
    }

    /** What a request does to the controller and the BLE context. */
    method Ask(requested: nat, fits: bool)
      requires 2 * (|log| + capacity) < 0x1_0000 && requested < 0x1_0000
      modifies this`stage, this`requestLog, this`first, this`samples, this`base, this`target, this`chunks,
               controller`numberOfSamples, controller`extraSample, controller`enumeratorStartIndex,
               controller`alreadyReadSamples, controller`requestedNrOfSamples, context`currentFrameIndex,
               context`samplesTransmitted, context`nrOfSamplesToTransmit, context`accepted
      ensures stage == (if fits then NextRequested else HeaderRefused) && base == (if fits then 1 else 0)
      ensures var counted := |log| + if justClosed then capacity else 0;
              && samples == Min(if Ready(log, controller.enumeratorStart, capacity) then 2 * counted else 0, requested)
              && (samples > 0 ==> first + Needed(samples) == counted) && first <= counted
      ensures requestLog == log && chunks == 0 && target == Reach(log, first, samples, capacity, justClosed)
      ensures controller.numberOfSamples == samples && controller.extraSample == samples % 2 && samples + 1 < 0x1_0000
      ensures controller.enumeratorStartIndex == first && controller.alreadyReadSamples == 0
      ensures context.nrOfSamplesToTransmit == samples && context.samplesTransmitted == 0 && context.accepted == []
      ensures context.currentFrameIndex == base
    {
      hide Ready, Reach;
      var ready := Ready(log, controller.enumeratorStart, capacity);
      controller.BeginReadSamples(requested, ready, |log| + if justClosed then capacity else 0);
      var asks := context.BeginDownload(controller.numberOfSamples, fits);
      stage := if asks then NextRequested else HeaderRefused;
      requestLog, first, samples := log, controller.enumeratorStartIndex, controller.numberOfSamples;
      base, chunks := context.currentFrameIndex, 0;
      target := Reach(log, first, samples, capacity, justClosed);
    }

    lemma JustBegun()
      requires requestLog == log && chunks == 0 && target == Reach(log, first, samples, capacity, justClosed)
      requires controller.numberOfSamples == samples && controller.extraSample == samples % 2 && samples + 1 < 0x1_0000
      requires controller.enumeratorStartIndex == first && controller.alreadyReadSamples == 0
      requires context.nrOfSamplesToTransmit == samples && context.samplesTransmitted == 0 && context.accepted == []
      requires context.currentFrameIndex == base && Sane() && context.UsedUp()
      ensures Requested() && FramesRight() && InStep() && NextRight()
    {
      hide Stream, FramesOf, Readable, AllComplete, Reach;
      ReachIsComplete(log, first, samples, capacity, justClosed);
      NoFrames(Stream(requestLog, first, target, capacity), 0, SAMPLE_BYTES * target, base);
    }

    // ---- sending a chunk ----

    twostate lemma SentKeepsFrames(k: nat)
      requires old(Requested() && FramesRight() && InStep() && ChunkRight()) && context.Transmitted(k)
      requires Requested() && requestLog == old(requestLog) && first == old(first) && samples == old(samples)
      requires base == old(base) && target == old(target)
      ensures |context.accepted| == |old(context.accepted)| + k
      ensures FramesRight()
    {
      hide Stream, FramesOf, Carries, Readable, AllComplete, FrameCount, BleContext.InCache;
      FrameCountIs(target);
      FramesGoOn(Stream(requestLog, first, target, capacity), target, old(context.accepted), base,
                 old(context.sampleData), old(context.currentDataIndex), old(context.BytesLeft()), k);
    }

    twostate lemma SentKeepsChunk(k: nat)
      requires old(Requested() && InStep() && ChunkRight()) && context.Sent(k, Refused)
      requires unchanged(controller) && log == old(log) && justClosed == old(justClosed)
      requires requestLog == old(requestLog) && first == old(first) && samples == old(samples)
      requires base == old(base) && target == old(target) && chunks == old(chunks)
      requires Requested() && |context.accepted| == |old(context.accepted)| + k
      ensures ChunkRight() && InStep() && !context.UsedUp() && 4 * |context.accepted| < samples
    {
      hide Stream, FramesOf, Carries, Readable, AllComplete, FrameCount;
      FrameCountIs(target);
      var stream := Stream(requestLog, first, target, capacity);
      var data, from := old(context.sampleData), old(context.currentDataIndex);
      var a := |old(context.accepted)|;
      if Due() {
        CarriesPart(data, from, stream, FRAME_BYTES * a,
                    Min(SAMPLE_BYTES * target - FRAME_BYTES * a, CACHE_BYTES - from), FRAME_BYTES * k);
        assert FRAME_BYTES * (a + k) == FRAME_BYTES * a + FRAME_BYTES * k;
      }
    }

    twostate lemma SentUsesUpChunk(k: nat)
      requires old(Requested() && InStep() && ChunkRight()) && context.Sent(k, WantsMore)
      requires unchanged(controller) && log == old(log) && justClosed == old(justClosed)
      requires first == old(first) && samples == old(samples) && base == old(base) && target == old(target)
      requires chunks == old(chunks) + 1 && |context.accepted| == |old(context.accepted)| + k
      ensures NextRight() && InStep() && context.UsedUp() && 4 * |context.accepted| < samples
      ensures old(!context.UsedUp()) ==> k > 0
    {
      hide Stream, FramesOf, Carries, Readable, AllComplete, FrameCount;
      FrameCountIs(target);
      var a := |old(context.accepted)|;
      assert FRAME_BYTES * (a + k) == FRAME_BYTES * a + FRAME_BYTES * k;
    }

    twostate lemma SentCompletes(k: nat)
      requires old(InStep()) && context.Sent(k, Complete) && samples == old(samples)
      requires |context.accepted| == |old(context.accepted)| + k && (samples == 0 ==> old(context.UsedUp()))
      ensures |context.accepted| == FrameCount(samples) && context.UsedUp()
    {
      hide FramesOf;
    }

    /** Sends from the chunk in hand, and asks for the next chunk when it is used up before the download is complete. */
    method Send(pool: nat)
      requires stage != NoDownload && Sane() && Requested() && FramesRight() && InStep() && ChunkRight()
      requires samples == 0 <==> context.UsedUp()
      modifies this`stage, this`chunks, context
      ensures Valid() && (stage == AwaitingPool || stage == NextRequested || stage == Finished)
      ensures |context.accepted| >= |old(context.accepted)|
      ensures stage == AwaitingPool ==> |context.accepted| == |old(context.accepted)| + pool
      ensures stage == NextRequested ==> |context.accepted| > |old(context.accepted)|
      ensures old(DoomedChunk()) ==> stage != Finished && (stage == AwaitingPool ==> DoomedChunk())
      ensures old(DoomedChunk()) && stage == NextRequested ==> Doomed()
    {
      hide Stream, FramesOf, Carries, FramesRight, InStep, ChunkRight, NextRight, Readable, AllComplete, Doomed,
           DoomedChunk, Requested, BleContext.Sent, BleContext.Transmitted, BleContext.InCache, Sane, FrameCount;
      assert context.InCache() by { InCacheWhenInStep(); }
      var outcome;
      ghost var k;
      outcome, k := context.TrySendSampleFrames(pool);
      SentKeepsSane();
      SentKeepsFrames(k);
      if old(DoomedChunk()) { SentDoomed(k); }
      if outcome == Refused {
        SentKeepsChunk(k);
        stage := AwaitingPool;
      } else if outcome == WantsMore {
        chunks := chunks + 1;
        SentUsesUpChunk(k);
        stage := NextRequested;
      } else {
        SentCompletes(k);
        stage := Finished;
      }
    }

    twostate lemma SentKeepsSane()
      requires old(Sane()) && unchanged(controller) && log == old(log) && justClosed == old(justClosed)
      requires context.sampleData == old(context.sampleData) && context.dataLength <= old(context.dataLength)
      ensures Sane()
    {
    }

    lemma InCacheWhenInStep()
      requires InStep()
      ensures context.InCache()
    {
    }

    // ---- a download that does not come to its end ----

    /** On the device, a request while the store counts a page of items too many, and not for whole pages. After `read`
        items, either all chunks were full ones or the last one ended behind the end of the log. */
    ghost predicate PartOfRead(read: nat)
      reads this`log, this`justClosed, this`first, this`samples
    {
      && capacity == DEVICE_CAPACITY && justClosed && |log| > 0 && |log| % DEVICE_CAPACITY == 0 && samples > 0
      && first % DEVICE_CAPACITY != 0 && first + Needed(samples) == |log| + DEVICE_CAPACITY
      && (read % CACHE_ITEMS == 0 || first + read == |log| + 1)
    }

    /** Such a download, with nothing in hand. */
    ghost predicate Doomed()
      reads this`log, this`justClosed, this`first, this`samples, controller`alreadyReadSamples, context`accepted
    {
      PartOfRead(controller.alreadyReadSamples) && 2 * |context.accepted| <= controller.alreadyReadSamples + 1
    }

    /** So it is with a chunk in hand. */
    ghost predicate DoomedChunk()
      reads this`log, this`justClosed, this`first, this`samples, controller`alreadyReadSamples, context`accepted,
            context`dataLength, context`currentDataIndex
    {
      && PartOfRead(controller.alreadyReadSamples) && first + controller.alreadyReadSamples <= |log| + 1
      && !context.UsedUp() && context.dataLength % ITEM_BYTES == 0 && context.currentDataIndex % FRAME_BYTES == 0
      && FRAME_BYTES * |context.accepted| - context.currentDataIndex + context.dataLength
         <= ITEM_BYTES * controller.alreadyReadSamples
    }

    twostate lemma SentDoomed(k: nat)
      requires old(DoomedChunk() && InStep()) && context.Transmitted(k)
      requires unchanged(controller) && log == old(log) && justClosed == old(justClosed)
      requires first == old(first) && samples == old(samples) && |context.accepted| == |old(context.accepted)| + k
      ensures old(context.BytesLeft()) > FRAME_BYTES * k && Doomed()
      ensures context.dataLength == old(context.dataLength) && !context.UsedUp() ==> DoomedChunk()
    {
      hide FramesOf, BleContext.InCache, Needed;
      DoomedFrames(|old(context.accepted)|, old(context.currentDataIndex), k, old(context.dataLength),
                   controller.alreadyReadSamples, |log|, first, samples);
    }

    // ---- the messages ----

    /** Never more frames than the download has; all of them at the end, if all come right. */
    lemma AcceptedFrames()
      requires Valid() && stage != NoDownload
      ensures Requested() && |context.accepted| <= FrameCount(samples)
      ensures stage == Finished || stage == Stalled ==>
                && FrameCount(target) <= |context.accepted|
                && context.accepted[..FrameCount(target)] == Expected(requestLog, first, target, capacity, base)
      ensures (stage == Finished || stage == Stalled) && target == samples ==>
                stage == Finished && context.accepted == Expected(requestLog, first, samples, capacity, base)
    {
      hide Stream, FramesOf, Carries, Readable, AllComplete;
      if stage == Finished && target == samples {
        assert context.accepted[..FrameCount(target)] == context.accepted;
      }
    }

    /**
     The request for the next chunk reaches the controller: it reads the chunk and passes it to
     the BLE context. If there is nothing to read it reports an error and answers nothing. A
     download of no samples is complete then, another one goes no further.
     */
    method ServeNext(pool: nat)
      requires Valid() && stage == NextRequested
      modifies this`stage, this`chunks, controller`samplesCache, controller`enumeratorStartIndex,
               controller`alreadyReadSamples, controller`enumeratorStart, context
      ensures Valid() && stage != NoDownload && stage != HeaderRefused
      ensures |context.accepted| >= |old(context.accepted)|
      ensures stage == AwaitingPool ==> |context.accepted| == |old(context.accepted)| + pool
      ensures stage == NextRequested ==> |context.accepted| > |old(context.accepted)|
      ensures controller.enumeratorStart == old(controller.enumeratorStartIndex)
      ensures old(Doomed()) ==> stage != Finished && (stage == AwaitingPool ==> DoomedChunk())
      ensures old(Doomed()) && stage == NextRequested ==> Doomed()
    {
      hide Stream, FramesOf, Carries, Ready, Readable, AllComplete, FramesRight, BleContext.InCache, Doomed,
           DoomedChunk;
      controller.enumeratorStart := controller.enumeratorStartIndex;
      if !Ready(log, controller.enumeratorStart, capacity) {
        NothingDue();
        stage := if context.nrOfSamplesToTransmit == 0 then Finished else Stalled;
        assert old(Doomed()) ==> samples > 0 by { DoomedIsOfSome(); }
        return;
      }
      ReadChunk();
      Send(pool);
    }

    lemma DoomedIsOfSome()
      ensures Doomed() ==> samples > 0
    {
    }

    /** When the next chunk cannot be read, everything was sent that comes right. */
    lemma NothingDue()
      requires Valid() && stage == NextRequested && !Ready(log, controller.enumeratorStartIndex, capacity)
      ensures !Due() && |context.accepted| <= FrameCount(samples)
      ensures samples > 0 ==> |context.accepted| < FrameCount(samples)
      ensures context.nrOfSamplesToTransmit == samples
    {
      hide Stream, FramesOf, Readable, Ready, Enumerated;
      if Due() { CompleteAt(log, first, target, capacity, justClosed, chunks); }
    }

    /** ReadMoreSamples with an enumerator that is ready, and its response. */
    method ReadChunk()
      requires Valid() && stage == NextRequested && Ready(log, controller.enumeratorStartIndex, capacity)
      modifies controller`samplesCache, controller`enumeratorStartIndex, controller`alreadyReadSamples,
               context`sampleData, context`dataLength, context`currentDataIndex
      ensures Sane() && Requested() && FramesRight() && InStep() && ChunkRight()
      ensures samples == 0 <==> context.UsedUp()
      ensures old(Doomed()) ==> DoomedChunk()
    {
      hide Stream, FramesOf, Carries, Ready, Bytes, Readable, AllComplete, Enumerated, ChunkRight, DoomedChunk,
           PartOfRead, FrameCount;
      ghost var read, cache := controller.alreadyReadSamples, controller.samplesCache;
      UnreadIs(samples, read);
      var items := Enumerated(log, controller.enumeratorStartIndex, capacity, justClosed);
      SomeItems(log, controller.enumeratorStartIndex, capacity, justClosed);
      var length := controller.ReadMoreSamples(items, justClosed);
      context.Load(Bytes(controller.samplesCache), ITEM_BYTES * length);
      ReadFront(items, cache, controller.samplesCache, Min(length, |items|));
      LoadedRight(read, length);
      if old(Doomed()) { LoadedDoomed(read, length); }
    }

    /** A chunk read right is right in hand. */
    lemma LoadedRight(read: nat, length: nat)
      requires Requested() && Due() ==> read == CACHE_ITEMS * chunks == 2 * |context.accepted|
      requires Requested() && Due() ==> AllComplete(log, first, target, capacity, justClosed, chunks)
      requires Requested() && controller.alreadyReadSamples == read + length && 2 * read <= samples
      requires |controller.samplesCache| == CACHE_ITEMS && Ready(log, first + read, capacity)
      requires context.currentDataIndex == 0 && context.sampleData == Bytes(controller.samplesCache)
      requires context.dataLength == ITEM_BYTES * length
      requires var items := Enumerated(log, first + read, capacity, justClosed);
               && length == Min(|items| + (if justClosed then 1 else 0), Min(CACHE_ITEMS, 2 * (Needed(samples) - read)))
               && var front := Min(length, |items|); controller.samplesCache[..front] == items[..front]
      ensures ChunkRight()
    {
      hide Stream, FramesOf, Carries, Ready, Bytes, Readable, AllComplete, Enumerated, Needed, FrameCount;
      if Due() {
        var items := Enumerated(log, first + read, capacity, justClosed);
        FrameCountIs(target);
        NeededIs(target);
        CompleteAt(log, first, target, capacity, justClosed, chunks);
        EnoughRead(length, |items|, if justClosed then 1 else 0, samples, target, read);
        ChunkCarries(requestLog, log, first, target, capacity, justClosed, chunks, controller.samplesCache,
                     Min(length, |items|));
      }
    }

    lemma LoadedDoomed(read: nat, length: nat)
      requires PartOfRead(read) && 2 * |context.accepted| <= read + 1 && read <= 2 * |context.accepted|
      requires controller.alreadyReadSamples == read + length && Ready(log, first + read, capacity)
      requires length == Min(|Enumerated(log, first + read, capacity, justClosed)| + (if justClosed then 1 else 0),
                             Min(CACHE_ITEMS, 2 * (Needed(samples) - read)))
      requires context.currentDataIndex == 0 && context.dataLength == ITEM_BYTES * length
      ensures DoomedChunk()
    {
      hide Ready, Enumerated, Needed;
      DoomedRead(log, first, read, samples, length);
      FramesOfFull(|context.accepted|, read);
    }

    /** After a refusal the stack has room for frames again. */
    method PoolAvailable(pool: nat)
      requires Valid() && (stage == HeaderRefused || stage == AwaitingPool)
      modifies this`stage, this`chunks, context
      ensures Valid() && (stage == AwaitingPool || stage == NextRequested || stage == Finished)
      ensures |context.accepted| >= |old(context.accepted)|
      ensures stage == AwaitingPool ==> |context.accepted| == |old(context.accepted)| + pool
      ensures stage == NextRequested && old(stage) != HeaderRefused ==>
                |context.accepted| > |old(context.accepted)|
      ensures old(stage) == HeaderRefused ==> stage != AwaitingPool && context.accepted == old(context.accepted)
      ensures old(stage == HeaderRefused && Doomed()) ==> stage == NextRequested && Doomed()
      ensures old(stage == AwaitingPool && DoomedChunk()) ==>
                stage != Finished && (stage == AwaitingPool ==> DoomedChunk()) && (stage == NextRequested ==> Doomed())
    {
      hide Stream, FramesOf, Carries, Readable, AllComplete;
      if stage == HeaderRefused {
        NoFrames(context.sampleData, context.currentDataIndex, context.BytesLeft(), context.currentFrameIndex);
        var outcome, _ := context.TrySendSampleFrames(pool);
        stage := if outcome == WantsMore then NextRequested else Finished;
      } else {
        Send(pool);
      }
    }

    /**
     A download runs to its end if the stack has room for a frame again sooner or later, whatever
     it refuses on the way, and whatever is added to the log between the steps if `grows`. What
     comes right at the request is then accepted, and that is all of the download unless it was
     requested just after the close of a page. On the device, one that does not come right then
     stalls.
     */
    method RunToEnd(grows: bool)
      requires Valid() && (stage == HeaderRefused || stage == NextRequested)
      modifies this, controller, context
      ensures Valid() && (stage == Finished || stage == Stalled)
      ensures requestLog == old(requestLog) && first == old(first) && samples == old(samples) && base == old(base)
      ensures target <= old(target) && (old(Counted()) || !grows ==> target == old(target))
      ensures FrameCount(target) <= |context.accepted|
      ensures context.accepted[..FrameCount(target)] == Expected(requestLog, first, target, capacity, base)
      ensures target == samples ==>
                stage == Finished && context.accepted == Expected(requestLog, first, samples, capacity, base)
      ensures !grows && old(Doomed()) ==> stage == Stalled
    {
      hide Stream, FramesOf, Carries, Valid, Requested, Expected, Readable, Doomed, DoomedChunk, Counted;
      AcceptedFrames();
      while stage != Finished && stage != Stalled
        invariant Valid() && stage != NoDownload
        invariant Requested() && |context.accepted| <= FrameCount(samples)
        invariant requestLog == old(requestLog) && first == old(first) && samples == old(samples) && base == old(base)
        invariant target <= old(target) && (old(Counted()) || !grows ==> target == old(target))
        invariant old(Counted()) ==> Counted()
        invariant !grows && old(Doomed()) ==>
                    && stage != Finished && (stage == AwaitingPool ==> DoomedChunk())
                    && (stage == HeaderRefused || stage == NextRequested ==> Doomed())
        decreases FrameCount(samples) - |context.accepted|, stage != Finished && stage != Stalled,
                  stage == HeaderRefused, stage == NextRequested
      {
        if grows { Grow(); }
        var pool: nat :| stage == NextRequested || pool > 0;
        if stage == NextRequested {
          ServeNext(pool);
        } else {
          PoolAvailable(pool);
        }
        AcceptedFrames();
      }
      AcceptedFrames();
    }

    /** Any items are added. */
    method Grow()
      requires Valid()
      modifies this`log, this`justClosed, this`target
      ensures Valid() && old(log) <= log && target <= old(target)
      ensures old(Counted()) ==> Counted() && target == old(target)
    {
      hide Valid, Counted;
      var additions: seq<Item> := *;
      for i := 0 to |additions|
        invariant Valid() && old(log) <= log && target <= old(target)
        invariant old(Counted()) ==> Counted() && target == old(target)
      {
        Append(additions[i]);
      }
    }
  }

  lemma DoomedFrames(a: nat, from: nat, k: nat, length: nat, read: nat, end: nat, first: nat, n: nat)
    requires from % FRAME_BYTES == 0 && length % ITEM_BYTES == 0 && from < length
    requires FRAME_BYTES * a - from + length <= ITEM_BYTES * read
    requires first + read <= end + 1 && first + Needed(n) == end + DEVICE_CAPACITY
    requires k > 0 ==> from + FRAME_BYTES * (k - 1) < length
    ensures 2 * (a + k) <= read + 1 && SAMPLE_BYTES * n - FRAME_BYTES * a > FRAME_BYTES * k
    ensures FRAME_BYTES * (a + k) - (from + FRAME_BYTES * k) + length <= ITEM_BYTES * read
    ensures (from + FRAME_BYTES * k) % FRAME_BYTES == 0
  {
    hide Needed;
    var f, l := from / FRAME_BYTES, length / ITEM_BYTES;
    assert from == FRAME_BYTES * f && length == ITEM_BYTES * l;
    WholeFrames(f + k);
    DoomedItems(a, f, k, l, read);
    NeededIs(n);
  }

  lemma WholeFrames(k: nat)
    ensures FRAME_BYTES * k % FRAME_BYTES == 0
  {
  }

  /** In items, two of which are a frame. */
  lemma DoomedItems(a: nat, f: nat, k: nat, l: nat, read: nat)
    requires 2 * a - 2 * f + l <= read && 2 * f < l && (k > 0 ==> 2 * f + 2 * (k - 1) < l)
    ensures 2 * (a + k) <= read + 1
  {
  }

  lemma NeededIs(n: nat)
    ensures n <= 2 * Needed(n) <= n + 1
  {
  }

  lemma FramesOfFull(a: nat, read: nat)
    requires read % CACHE_ITEMS == 0 && read <= 2 * a <= read + 1
    ensures 2 * a == read
  {
  }

  /** A chunk of such a download: it ends at most one item behind the log, and is full unless it ends there. */
  lemma DoomedRead(log: seq<Item>, first: nat, read: nat, n: nat, length: nat)
    requires |log| % DEVICE_CAPACITY == 0 && first % DEVICE_CAPACITY != 0
    requires first + Needed(n) == |log| + DEVICE_CAPACITY && Ready(log, first + read, DEVICE_CAPACITY)
    requires read % CACHE_ITEMS == 0 || first + read == |log| + 1
    requires length == Min(|Enumerated(log, first + read, DEVICE_CAPACITY, true)| + 1,
                           Min(CACHE_ITEMS, 2 * (Needed(n) - read)))
    ensures read % CACHE_ITEMS == 0 && 0 < length && first + read + length <= |log| + 1
    ensures (read + length) % CACHE_ITEMS == 0 || first + read + length == |log| + 1
  {
    assert first + read < |log| && (first + read) % DEVICE_CAPACITY != 0;
  }

  /** As many frames as hold the samples, the last one perhaps in part. */
  lemma FrameCountIs(n: nat)
    ensures n <= 4 * FrameCount(n) < n + 4 && (n % 4 == 0 ==> 4 * FrameCount(n) == n)
  {
  }

  lemma AppendedFront(front: seq<Frame>, back: seq<Frame>, k: nat)
    requires k <= |back|
    ensures (front + back)[..|front| + k] == front + back[..k]
  {
  }

  /** With the frames of a chunk the accepted frames stay the first ones of the download. */
  lemma FramesGoOn(stream: seq<Byte>, n: nat, accepted: seq<Frame>, base: nat, data: seq<Byte>, from: nat, left: int,
                   k: nat)
    requires |stream| == SAMPLE_BYTES * n
    requires var done := Min(|accepted|, FrameCount(n));
             && (done > 0 ==> SAMPLE_BYTES * n > FRAME_BYTES * (done - 1))
             && accepted[..done] == FramesOf(stream, 0, SAMPLE_BYTES * n, base, done)
    requires k > 0 ==> left > FRAME_BYTES * (k - 1) && from + Min(FRAME_BYTES * k, left) <= |data|
    requires left == SAMPLE_BYTES * n - FRAME_BYTES * |accepted|
             || (n % 4 == 0 && left >= SAMPLE_BYTES * n - FRAME_BYTES * |accepted|)
    requires |accepted| < FrameCount(n) ==>
               Carries(data, from, stream, FRAME_BYTES * |accepted|,
                       Min(SAMPLE_BYTES * n - FRAME_BYTES * |accepted|, |data| - from))
    ensures var all, done := accepted + FramesOf(data, from, left, base + |accepted|, k),
                             Min(|accepted| + k, FrameCount(n));
            && (done > 0 ==> SAMPLE_BYTES * n > FRAME_BYTES * (done - 1))
            && all[..done] == FramesOf(stream, 0, SAMPLE_BYTES * n, base, done)
  {
    hide FramesOf, Carries, FrameCount;
    var a := |accepted|;
    FrameCountIs(n);
    if a < FrameCount(n) {
      assert accepted[..a] == accepted;
      FramesOnTheWay(stream, n, accepted, base, data, from, left, k, Min(k, FrameCount(n) - a));
    } else {
      assert (accepted + FramesOf(data, from, left, base + a, k))[..FrameCount(n)] == accepted[..FrameCount(n)];
    }
  }

  lemma FramesOnTheWay(stream: seq<Byte>, n: nat, accepted: seq<Frame>, base: nat, data: seq<Byte>, from: nat,
                       left: int, k: nat, k': nat)
    requires |stream| == SAMPLE_BYTES * n && |accepted| + k' <= FrameCount(n) && |accepted| < FrameCount(n) && k' <= k
    requires |accepted| > 0 ==> SAMPLE_BYTES * n > FRAME_BYTES * (|accepted| - 1)
    requires accepted == FramesOf(stream, 0, SAMPLE_BYTES * n, base, |accepted|)
    requires k > 0 ==> left > FRAME_BYTES * (k - 1) && from + Min(FRAME_BYTES * k, left) <= |data|
    requires left == SAMPLE_BYTES * n - FRAME_BYTES * |accepted|
             || (n % 4 == 0 && left >= SAMPLE_BYTES * n - FRAME_BYTES * |accepted|)
    requires Carries(data, from, stream, FRAME_BYTES * |accepted|,
                     Min(SAMPLE_BYTES * n - FRAME_BYTES * |accepted|, |data| - from))
    ensures |accepted| + k' > 0 ==> SAMPLE_BYTES * n > FRAME_BYTES * (|accepted| + k' - 1)
    ensures (accepted + FramesOf(data, from, left, base + |accepted|, k))[..|accepted| + k']
         == FramesOf(stream, 0, SAMPLE_BYTES * n, base, |accepted| + k')
  {
    hide FramesOf, Carries, FrameCount;
    FrameCountIs(n);
    var a, rest := |accepted|, SAMPLE_BYTES * n - FRAME_BYTES * |accepted|;
    FramesCut(data, from, left, k, rest, k', base + a);
    if k' > 0 {
      CarriesPart(data, from, stream, FRAME_BYTES * a, Min(rest, |data| - from), Min(FRAME_BYTES * k', rest));
    }
    FramesContinue(stream, SAMPLE_BYTES * n, a, data, from, k', base);
    AppendedFront(accepted, FramesOf(data, from, left, base + a, k), k');
  }

  /** A chunk that can be read in full is. */
  lemma EnoughRead(length: nat, count: nat, more: nat, n: nat, t: nat, read: nat)
    requires length == Min(count + more, Min(CACHE_ITEMS, 2 * (Needed(n) - read))) && t <= n && 2 * read <= n
    requires count >= Min(CACHE_ITEMS, Needed(t) - read)
    ensures Min(length, count) >= Min(CACHE_ITEMS, Needed(t) - read)
    ensures ITEM_BYTES * length >= Min(CACHE_BYTES, SAMPLE_BYTES * t - ITEM_BYTES * read) && length <= CACHE_ITEMS
  {
  }

  /** The controller's count of unread samples does not wrap. */
  lemma UnreadIs(n: nat, read: nat)
    requires 2 * read <= n && n + 1 < 0x1_0000
    ensures (n % 2 + n - 2 * read) % 0x1_0000 == 2 * (Needed(n) - read)
  {
  }

  lemma ReadFront(items: seq<Item>, old': seq<Item>, cache: seq<Item>, read: nat)
    requires read <= |items| && read <= |old'| && cache == items[..read] + old'[read..]
    ensures cache[..read] == items[..read]
  {
  }

  /** The first frames of a download are those of a shorter one. */
  lemma FramesOfFewer(log: seq<Item>, first: nat, n: nat, capacity: Positive, a: nat, index: nat)
    requires Readable(log, first, n, capacity) && a < FrameCount(n)
    ensures 4 * a < n && FrameCount(4 * a) == a && Readable(log, first, 4 * a, capacity)
    ensures FramesOf(Stream(log, first, n, capacity), 0, SAMPLE_BYTES * n, index, a)
         == FramesOf(Stream(log, first, 4 * a, capacity), 0, SAMPLE_BYTES * (4 * a), index, a)
  {
    hide Stream, FramesOf, Readable;
    StreamOfFewer(log, first, n, 4 * a, capacity);
    var stream := Stream(log, first, 4 * a, capacity);
    assert stream[..FRAME_BYTES * a] == stream;
    FramesOfPrefix(Stream(log, first, n, capacity), SAMPLE_BYTES * n, stream, SAMPLE_BYTES * (4 * a), index, a);
  }

  /** An enumeration that is ready gives an item at least. */
  lemma SomeItems(log: seq<Item>, s: nat, capacity: Positive, justClosed: bool)
    requires Ready(log, s, capacity)
    ensures |Enumerated(log, s, capacity, justClosed)| > 0
  {
    LandsBefore(s, |log|, capacity);
  }
}
