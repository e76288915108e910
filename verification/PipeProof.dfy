/** Every step of the pipe keeps bytes in order, and reader and writer apart. */
module PipeProof {
  import opened Arithmetic
  import opened Pages
  import opened Wrappers
  import opened PipeRing
  import opened Pipe

  lemma AheadBack(h: nat, k: nat, n: nat)
    requires n > 0 && k > 0
    ensures Ahead(Ahead(h, k, n), n - 1, n) == Ahead(h, k - 1, n)
  {
    AheadTwice(h, k, n - 1, n);
    var q, r := (h + k - 1) / n, (h + k - 1) % n;
    assert h + k + n - 1 == (q + 1) * n + r;
    ModIs(h + k + n - 1, q + 1, r, n);
  }

  lemma LastIs(s: State)
    requires RingOk(s) && s.slots > 0
    ensures Last(s) == Ahead(s.head, s.slots - 1, |s.ring|)
  {
    AheadBack(s.head, s.slots, |s.ring|);
  }

  /** The writer's slot is not the one being read. */
  lemma SlotsApart(s: State)
    requires RingOk(s) && ReaderOk(s) && WriterOk(s) && s.reader.ReadCopy? && s.writer.WriteCopy?
    ensures s.writer.slot != s.head
  {
    if !s.writer.merging {
      AheadIs(s.head, 0, |s.ring|, s.head);
      AheadDistinct(s.head, 0, s.slots, |s.ring|);
    }
  }

  /** Where bytes are available there is a slot. */
  lemma SomeSlot(s: State)
    requires RingOk(s) && s.bytes > 0
    ensures s.slots > 0 && BufferOk(s.ring[s.head])
  {
    if s.slots > 0 {
      HeadHolds(s.ring, s.head, s.slots);
    }
  }

  // ---------------------------------------------------------------- reader

  lemma ReadPinKeeps(s: State)
    requires Inv(s) && Enabled(s, ReadPin)
    ensures Inv(Step(s, ReadPin))
  {
    hide SlotsOk, Contents, Ahead, PowerOfTwo;
    SomeSlot(s);
  }

  lemma ReadByteKeeps(s: State)
    requires Inv(s) && Enabled(s, ReadByte)
    ensures Inv(Step(s, ReadByte))
  {
    hide SlotsOk, Contents, Ahead, PowerOfTwo;
    var r, p := s.reader, s.ring[s.reader.slot].page.value;
    assert p[r.offset..r.offset + |r.got| + 1] == p[r.offset..r.offset + |r.got|] + [p[r.offset + |r.got|]];
  }

  lemma ReadStopKeeps(s: State, ev: Event)
    requires Inv(s) && Enabled(s, ev) && (ev.ReadBegin? || ev.ReadFault? || ev.ReadEnd?)
    ensures Inv(Step(s, ev))
  {
    hide SlotsOk, Contents, Ahead, PowerOfTwo;
  }

  /** What consuming does to the ring. */
  lemma ConsumeRing(s: State, c: nat)
    requires RingOk(s) && s.slots > 0 && BufferOk(s.ring[s.head]) && 0 < c <= s.ring[s.head].length
    ensures var t := Consumed(s, c);
            && RingOk(t) && t.tail == s.tail && |t.ring| == |s.ring| && c <= s.bytes && t.bytes == s.bytes - c
            && Bytes(s.ring[s.head])[..c] + Contents(t.ring, t.head, t.slots) == Contents(s.ring, s.head, s.slots)
            && t.slots <= s.slots && (t.slots < |t.ring| || t.slots == s.slots)
            && (s.slots >= 2 || t.slots == s.slots ==>
               t.slots > 0 && Ahead(t.head, t.slots - 1, |t.ring|) == Ahead(s.head, s.slots - 1, |s.ring|))
            && (forall i :: 0 <= i < |s.ring| && i != s.head ==> t.ring[i] == s.ring[i])
  {
    hide SlotsOk, Contents, Ahead, PowerOfTwo, Bytes;
    SlotBounds(s);
    var b := s.ring[s.head];
    if c < b.length {
      ConsumePart(s.ring, s.head, s.slots, c);
    } else {
      ConsumeAll(s.ring, s.head, s.slots, Buffer(None, 0, 0, false));
      assert Bytes(b)[..c] == Bytes(b);
      if s.slots >= 2 {
        AheadTwice(s.head, 1, s.slots - 2, |s.ring|);
      }
    }
  }

  lemma SlotBounds(s: State)
    requires SlotsOk(s.ring, s.head, s.slots)
    ensures |s.ring| > 0 && s.head < |s.ring| && s.slots <= |s.ring|
  {}

  lemma GotIsFront(b: Buffer, c: nat, got: seq<int>)
    requires BufferOk(b) && c <= b.length && got == b.page.value[b.offset..b.offset + c]
    ensures Bytes(b)[..c] == got
  {}

  lemma ReadConsumeKeeps(s: State)
    requires Inv(s) && Enabled(s, ReadConsume)
    ensures Inv(Step(s, ReadConsume))
  {
    hide SlotsOk, Contents, Ahead, PowerOfTwo, Bytes, PagesOk, Consumed, Remainder;
    SlotBounds(s);
    var r, t := s.reader, Step(s, ReadConsume);
    GotIsFront(s.ring[s.head], r.chunk, r.got);
    ConsumeRing(s, r.chunk);
    if s.writer.WriteCopy? {
      SlotsApart(s);
      MergeNeedsTwo(s);
    }
    Assoc(s.consumed, r.got, Contents(t.ring, t.head, t.slots));
    ConsumedRest(s, r.chunk);
  }

  lemma ConsumedRest(s: State, c: nat)
    requires |s.ring| > 0 && s.head < |s.ring|
    ensures Consumed(s, c).parked == s.parked && Consumed(s, c).writer == s.writer
              && Consumed(s, c).mergeSlot == s.mergeSlot && Consumed(s, c).published == s.published
  {}

  lemma MergeNeedsTwo(s: State)
    requires RingOk(s) && ReaderOk(s) && WriterOk(s) && s.reader.ReadCopy? && s.writer.WriteCopy?
    ensures s.writer.merging ==> s.slots >= 2
  {
    if s.writer.merging && s.slots == 1 {
      AheadIs(s.head, 0, |s.ring|, s.head);
    }
  }

  // ---------------------------------------------------------------- writer

  lemma WriteChooseKeeps(s: State)
    requires Inv(s) && Enabled(s, WriteChoose)
    ensures Inv(Step(s, WriteChoose))
  {
    hide SlotsOk, Ahead, Contents, PowerOfTwo, Bytes, Remainder, Last;
    SlotBounds(s);
    if s.slots > 0 {
      LastIs(s);
      LastHolds(s.ring, s.head, s.slots);
    }
    RemainderBound(s.writer.src, s.writer.whole);
  }

  lemma RemainderBound(src: seq<int>, whole: bool)
    ensures Remainder(src, whole) <= |src| && Remainder(src, whole) < PAGE
    ensures |src| <= PAGE && Remainder(src, whole) > 0 ==> Remainder(src, whole) == |src|
  {}

  lemma WriteStopKeeps(s: State, ev: Event)
    requires Inv(s) && Enabled(s, ev) && (ev.WriteBegin? || ev.WriteEnd?)
    ensures Inv(Step(s, ev))
  {
    hide SlotsOk, Contents, Ahead, PowerOfTwo;
  }

  /** A writer that gives up the mutex on a full ring, and one that comes back to it. */
  lemma ParkKeeps(s: State, ev: Event)
    requires Inv(s) && Enabled(s, ev) && (ev.WritePark? || ev.WriteResume? || ev.WriteGiveUp?)
    ensures Inv(Step(s, ev))
  {
    hide SlotsOk, Contents, Ahead, PowerOfTwo, Merges;
    SlotBounds(s);
  }

  /** A change to the writer's slot that readers cannot see. */
  lemma WriterStore(s: State, b: Buffer)
    requires Inv(s) && s.writer.WriteCopy?
    requires s.writer.merging ==> BufferOk(b) && Bytes(b) == Bytes(s.ring[s.writer.slot])
    ensures var ring := s.ring[s.writer.slot := b];
            SlotsOk(ring, s.head, s.slots) && Contents(ring, s.head, s.slots) == Contents(s.ring, s.head, s.slots)
  {
    hide SlotsOk, Contents, Ahead, PowerOfTwo, Bytes, BufferOk, Holds;
    SlotBounds(s);
    if !s.writer.merging {
      TailIsFree(s.ring, s.head, s.slots);
    }
    StoreFrame(s.ring, s.head, s.slots, s.writer.slot, b);
  }

  lemma WritePageKeeps(s: State, page: seq<int>)
    requires Inv(s) && Enabled(s, WritePage(page))
    ensures Inv(Step(s, WritePage(page)))
  {
    hide SlotsOk, Contents, Ahead, PowerOfTwo, Remainder;
    SlotBounds(s);
    var b := s.ring[s.writer.slot];
    WriterStore(s, Buffer(Some(page), b.offset, b.length, b.canMerge));
    if s.reader.ReadCopy? {
      SlotsApart(s);
    }
  }

  /** Storing behind the published bytes of a page. */
  lemma StoreBehind(b: Buffer, i: nat, x: int)
    requires BufferOk(b) && b.offset + b.length <= i < PAGE
    ensures var b' := Buffer(Some(b.page.value[i := x]), b.offset, b.length, b.canMerge);
            BufferOk(b') && Bytes(b') == Bytes(b)
  {}

  lemma StoredOne(p: seq<int>, offset: nat, src: seq<int>, total: nat, done: nat)
    requires offset + done < |p| && total + done < |src|
              && (done > 0 ==> p[offset..offset + done] == src[total..total + done])
    ensures p[offset + done := src[total + done]][offset..offset + done + 1] == src[total..total + done + 1]
  {
    var p' := p[offset + done := src[total + done]];
    assert p[offset..offset + done] == src[total..total + done];
    assert p'[offset..offset + done + 1] == p[offset..offset + done] + [src[total + done]];
    assert src[total..total + done + 1] == src[total..total + done] + [src[total + done]];
  }

  lemma WriteByteRing(s: State)
    requires Inv(s) && Enabled(s, WriteByte)
    ensures RingOk(Step(s, WriteByte)) && Fifo(Step(s, WriteByte))
  {
    hide SlotsOk, Contents, Ahead, PowerOfTwo, Bytes, Remainder, PagesOk, BufferOk, ReaderOk;
    SlotBounds(s);
    var w, b := s.writer, s.ring[s.writer.slot];
    var b' := Buffer(Some(b.page.value[w.offset + w.done := w.src[w.total + w.done]]), b.offset, b.length, b.canMerge);
    PageSize(s.ring, w.slot);
    if w.merging {
      StoreBehind(b, w.offset + w.done, w.src[w.total + w.done]);
    }
    WriterStore(s, b');
    PageStored(s.ring, w.slot, b');
  }

  lemma WriteByteWriter(s: State)
    requires Inv(s) && Enabled(s, WriteByte)
    ensures WriterOk(Step(s, WriteByte))
  {
    hide SlotsOk, Contents, Ahead, PowerOfTwo, Remainder, ReaderOk;
    SlotBounds(s);
    var w, b := s.writer, s.ring[s.writer.slot];
    StoredOne(b.page.value, w.offset, w.src, w.total, w.done);
  }

  lemma WriteByteReader(s: State)
    requires Inv(s) && Enabled(s, WriteByte)
    ensures InBounds(s) && ReaderOk(Step(s, WriteByte))
  {
    hide SlotsOk, Contents, Ahead, PowerOfTwo, Remainder, PagesOk, BufferOk;
    SlotBounds(s);
    if s.reader.ReadCopy? {
      SlotsApart(s);
    }
  }

  lemma WriteByteParked(s: State)
    requires InBounds(s)
    ensures Step(s, WriteByte).parked == s.parked
  {
    hide Enabled;
  }

  lemma WriteByteKeeps(s: State)
    requires Inv(s) && Enabled(s, WriteByte)
    ensures Inv(Step(s, WriteByte))
  {
    hide RingOk, Fifo, WriterOk, ReaderOk, Step;
    WriteByteRing(s);
    WriteByteWriter(s);
    WriteByteReader(s);
    WriteByteParked(s);
  }

  lemma PageSize(ring: seq<Buffer>, i: nat)
    requires PagesOk(ring) && i < |ring| && ring[i].page.Some?
    ensures |ring[i].page.value| == PAGE
  {}

  lemma PageStored(ring: seq<Buffer>, i: nat, b: Buffer)
    requires PagesOk(ring) && i < |ring| && b.page.Some? && |b.page.value| == PAGE
    ensures PagesOk(ring[i := b])
  {}

  lemma WriteFaultKeeps(s: State)
    requires Inv(s) && Enabled(s, WriteFault)
    ensures Inv(Step(s, WriteFault))
  {
    hide SlotsOk, Contents, Ahead, PowerOfTwo, Bytes, Remainder;
    SlotBounds(s);
    var b := s.ring[s.writer.slot];
    if !s.writer.merging {
      WriterStore(s, Buffer(None, b.offset, b.length, b.canMerge));
    }
    if s.reader.ReadCopy? {
      SlotsApart(s);
    }
  }

  lemma FilledSlot(b: Buffer, c: nat, canMerge: bool, more: seq<int>)
    requires b.page.Some? && |b.page.value| == PAGE && 0 < c <= PAGE && b.page.value[0..c] == more
    ensures BufferOk(Buffer(b.page, 0, c, canMerge)) && Bytes(Buffer(b.page, 0, c, canMerge)) == more
  {}

  /** What publishing does to the ring. */
  lemma PublishRing(s: State)
    requires Inv(s) && Enabled(s, WritePublish)
    ensures var t, w := Step(s, WritePublish), s.writer;
            && SlotsOk(t.ring, t.head, t.slots)
            && Contents(t.ring, t.head, t.slots)
            == Contents(s.ring, s.head, s.slots) + w.src[w.total..w.total + w.chunk]
            && t.tail == Ahead(t.head, t.slots, |t.ring|)
  {
    hide SlotsOk, Contents, Ahead, PowerOfTwo, Bytes, BufferOk, Remainder;
    SlotBounds(s);
    var w, b := s.writer, s.ring[s.writer.slot];
    var more := w.src[w.total..w.total + w.chunk];
    if w.merging {
      BytesMore(b, w.chunk);
      PublishMerge(s.ring, s.head, s.slots, w.slot, Buffer(b.page, b.offset, b.length + w.chunk, b.canMerge), more);
    } else {
      FilledSlot(b, w.chunk, !w.whole, more);
      PublishNew(s.ring, s.head, s.slots, Buffer(b.page, 0, w.chunk, !w.whole));
      AheadTwice(s.head, s.slots, 1, |s.ring|);
    }
  }

  lemma WritePublishKeeps(s: State)
    requires Inv(s) && Enabled(s, WritePublish)
    ensures Inv(Step(s, WritePublish))
  {
    hide SlotsOk, Contents, Ahead, PowerOfTwo, Bytes, BufferOk, Remainder;
    SlotBounds(s);
    PublishRing(s);
    if s.reader.ReadCopy? {
      SlotsApart(s);
    }
    var w := s.writer;
    Assoc(s.consumed, Contents(s.ring, s.head, s.slots), w.src[w.total..w.total + w.chunk]);
  }

  // ---------------------------------------------------------------- resize

  lemma MovedSlots(ring: seq<Buffer>, head: nat, slots: nat, nr: nat)
    requires SlotsOk(ring, head, slots) && slots <= nr && nr > 0 && PagesOk(ring)
    ensures var ring' := Moved(ring, head, slots, nr);
            && |ring'| == nr && SlotsOk(ring', 0, slots) && PagesOk(ring')
            && Contents(ring', 0, slots) == Contents(ring, head, slots)
  {
    hide Ahead, Contents, BufferOk;
    var ring' := Moved(ring, head, slots, nr);
    forall j: nat | j < slots ensures ring'[Ahead(0, j, nr)] == ring[Ahead(head, j, |ring|)] {
      AheadIs(0, j, nr, j);
    }
    ContentsMove(ring, head, ring', 0, slots);
  }

  lemma ResizeKeeps(s: State, nr: nat)
    requires Inv(s) && Enabled(s, Resize(nr))
    ensures Inv(Step(s, Resize(nr)))
    ensures Contents(Step(s, Resize(nr)).ring, 0, s.slots) == Contents(s.ring, s.head, s.slots)
  {
    hide SlotsOk, Contents, PowerOfTwo, Moved, PagesOk;
    SlotBounds(s);
    Positive(nr);
    MovedSlots(s.ring, s.head, s.slots, nr);
  }

  lemma Positive(n: nat)
    requires PowerOfTwo(n)
    ensures n > 0
  {}

  // ---------------------------------------------------------------- runs

  lemma EnabledKeeps(s: State, ev: Event)
    requires Inv(s) && Enabled(s, ev)
    ensures Inv(Step(s, ev))
  {
    hide *;
    match ev
    case ReadBegin(_) => ReadStopKeeps(s, ev);
    case ReadPin => ReadPinKeeps(s);
    case ReadByte => ReadByteKeeps(s);
    case ReadFault => ReadStopKeeps(s, ev);
    case ReadConsume => ReadConsumeKeeps(s);
    case ReadEnd => ReadStopKeeps(s, ev);
    case WriteBegin(_, _) => WriteStopKeeps(s, ev);
    case WriteChoose => WriteChooseKeeps(s);
    case WritePage(page) => WritePageKeeps(s, page);
    case WriteByte => WriteByteKeeps(s);
    case WriteFault => WriteFaultKeeps(s);
    case WritePublish => WritePublishKeeps(s);
    case WriteEnd => WriteStopKeeps(s, ev);
    case WritePark => ParkKeeps(s, ev);
    case WriteResume(_) => ParkKeeps(s, ev);
    case WriteGiveUp(_) => ParkKeeps(s, ev);
    case Resize(nr) => ResizeKeeps(s, nr);
  }

  /** Every step keeps the invariant. */
  lemma StepKeeps(s: State, ev: Event)
    requires Inv(s)
    ensures Inv(Step(s, ev))
  {
    if Enabled(s, ev) {
      EnabledKeeps(s, ev);
    }
  }

  /** A new pipe with `size` empty slots. */
  function Empty(size: nat): State
  {
    State(seq(size, _ => Buffer(None, 0, 0, false)), 0, 0, 0, 0, None, None, NoReader, NoWriter, [], [], [])
  }

  function Run(s: State, evs: seq<Event>): State {
    if evs == [] then s else Step(Run(s, evs[..|evs| - 1]), evs[|evs| - 1])
  }

  lemma {:induction false} RunKeeps(s: State, evs: seq<Event>)
    requires Inv(s)
    ensures Inv(Run(s, evs))
  {
    hide Inv, Step;
    if evs != [] {
      RunKeeps(s, evs[..|evs| - 1]);
      StepKeeps(Run(s, evs[..|evs| - 1]), evs[|evs| - 1]);
    }
  }

  lemma EmptyOk(size: nat)
    requires size > 0 && PowerOfTwo(size)
    ensures Inv(Empty(size))
  {
    AheadIs(0, 0, size, 0);
  }

  /** In every run the bytes consumed are a prefix of the bytes published, and the byte count says how many
      are left. */
  lemma ConsumedInOrder(size: nat, evs: seq<Event>)
    requires size > 0 && PowerOfTwo(size)
    ensures var t := Run(Empty(size), evs);
            t.consumed <= t.published && t.bytes == |t.published| - |t.consumed|
  {
    hide *;
    EmptyOk(size);
    RunKeeps(Empty(size), evs);
    InOrder(Run(Empty(size), evs));
  }

  lemma InOrder(t: State)
    requires Inv(t)
    ensures t.consumed <= t.published && t.bytes == |t.published| - |t.consumed|
  {
    hide ReaderOk, WriterOk, Contents, SlotsOk;
    SlotBounds(t);
  }

  /** In every run the writer's copy region lies outside every published byte and outside the page that
      the reader has pinned. */
  lemma CopiesApart(size: nat, evs: seq<Event>)
    requires size > 0 && PowerOfTwo(size)
    ensures var t := Run(Empty(size), evs);
            t.writer.WriteCopy? ==>
              && InBounds(t) && t.writer.slot < |t.ring|
              && (Holds(t.head, t.slots, t.writer.slot, |t.ring|) ==>
                    t.ring[t.writer.slot].offset + t.ring[t.writer.slot].length <= t.writer.offset)
              && t.readSlot != Some(t.writer.slot)
  {
    hide *;
    EmptyOk(size);
    RunKeeps(Empty(size), evs);
    var t := Run(Empty(size), evs);
    if t.writer.WriteCopy? {
      Apart(t);
    }
  }

  lemma Apart(t: State)
    requires Inv(t) && t.writer.WriteCopy?
    ensures InBounds(t) && t.writer.slot < |t.ring| && t.readSlot != Some(t.writer.slot)
    ensures Holds(t.head, t.slots, t.writer.slot, |t.ring|) ==>
              t.ring[t.writer.slot].offset + t.ring[t.writer.slot].length <= t.writer.offset
  {
    hide Contents, Ahead, Holds, Remainder;
    if !t.writer.merging {
      TailIsFree(t.ring, t.head, t.slots);
    }
    if t.reader.ReadCopy? {
      SlotsApart(t);
    }
  }

  /** A write of at most one page is published whole, in one step, and while it waits nothing of it is published. */
  lemma SmallWriteIsAtomic(size: nat, evs: seq<Event>)
    requires size > 0 && PowerOfTwo(size)
    ensures var s := Run(Empty(size), evs);
            forall i :: 0 <= i < |s.parked| && |s.parked[i].src| <= PAGE ==> s.parked[i].total == 0
    ensures var s, t := Run(Empty(size), evs), Step(Run(Empty(size), evs), WritePublish);
            s.writer.WriteCopy? && |s.writer.src| <= PAGE && s != t ==>
              t.published == s.published + s.writer.src
                  && t.writer == Writing(s.writer.src, s.writer.whole, |s.writer.src|)
  {
    hide *;
    EmptyOk(size);
    RunKeeps(Empty(size), evs);
    Atomic(Run(Empty(size), evs));
  }

  lemma Atomic(s: State)
    requires Inv(s)
    ensures forall i :: 0 <= i < |s.parked| && |s.parked[i].src| <= PAGE ==> s.parked[i].total == 0
    ensures var t := Step(s, WritePublish);
            s.writer.WriteCopy? && |s.writer.src| <= PAGE && s != t ==>
              t.published == s.published + s.writer.src
                  && t.writer == Writing(s.writer.src, s.writer.whole, |s.writer.src|)
  {
    hide RingOk, Fifo, ReaderOk;
    if s.writer.WriteCopy? && |s.writer.src| <= PAGE {
      assert s.writer.src[0..|s.writer.src|] == s.writer.src;
    }
  }

  /** The consistency traps of the read, consume and resize scopes cannot fire. */
  lemma TrapsUnreachable(s: State)
    requires Inv(s)
    ensures Enabled(s, ReadPin) ==> s.slots > 0 && s.ring[s.head].length > 0
    ensures Enabled(s, ReadConsume) ==> s.mergeSlot != Some(s.head)
    ensures s.reader.NoReader? && s.writer.NoWriter? ==> s.readSlot.None? && s.mergeSlot.None?
  {
    hide Contents, SlotsOk, Ahead;
    SlotBounds(s);
    if Enabled(s, ReadPin) {
      SomeSlot(s);
    }
  }
}
