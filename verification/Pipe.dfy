/** The pipe of fs/pipe.c as a transition system: a reader and a writer copy page bytes outside the
    metadata lock, coordinated by `read_slot` and `merge_slot`; one step per lock scope and per copied
    byte, any interleaving. */
module Pipe {
  import opened Arithmetic
  import opened Pages
  import opened Wrappers
  import opened PipeRing

  /** The thread holding the read mutex; `got` are the bytes copied out so far. */
  datatype Reader =
    | NoReader
    | Reading(requested: nat, committed: nat)
    | ReadCopy(requested: nat, committed: nat, slot: nat, offset: nat, chunk: nat, got: seq<int>)

  /** The thread holding the write mutex, writing `src`; `whole` marks a sendfile or splice source. */
  datatype Writer =
    | NoWriter
    | Writing(src: seq<int>, whole: bool, total: nat)
    | WriteCopy(src: seq<int>, whole: bool, total: nat, slot: nat, offset: nat, chunk: nat, merging: bool, done: nat)

  /** A thread that waits for room in a full ring, having given up the write mutex after `total` bytes. */
  datatype Parked = Parked(src: seq<int>, whole: bool, total: nat)

  /** `consumed` and `published` are the whole history of committed reads and writes. */
  datatype State = State(
    ring: seq<Buffer>,
    head: nat, tail: nat, slots: nat, bytes: nat,
    readSlot: Option<nat>, mergeSlot: Option<nat>,
    reader: Reader, writer: Writer, parked: seq<Parked>,
    consumed: seq<int>, published: seq<int>)

  datatype Event =
    | ReadBegin(count: nat)          // kernel_pipe_readv: request scope
    | ReadPin                        // slot scope; refused while the head is being merged into
    | ReadByte
    | ReadFault                      // copy fault
    | ReadConsume                    // pipe_consume
    | ReadEnd
    | WriteBegin(src: seq<int>, whole: bool)
    | WriteChoose                    // slot scope; refused while the ring is full
    | WritePage(page: seq<int>)      // page for an empty slot, with whatever it held
    | WriteByte
    | WriteFault
    | WritePublish
    | WriteEnd                       // done, or given up between chunks
    | WritePark                      // pipe_park with the ring full: the write mutex is free meanwhile
    | WriteResume(i: nat)            // woken, with the write mutex taken again
    | WriteGiveUp(i: nat)            // woken by a signal
    | Resize(nr: nat)

  /** `count & PAGE_MASK` of a user write: the part that may merge into the tail page. */
  function Remainder(src: seq<int>, whole: bool): nat { if whole then 0 else |src| % PAGE }

  function Last(s: State): nat
    requires |s.ring| > 0
  {
    Ahead(s.tail, |s.ring| - 1, |s.ring|)
  }

  /** `pipe_tail_space` */
  function TailSpace(s: State): nat
    requires |s.ring| > 0
  {
    var b := s.ring[Last(s)];
    if s.slots == 0 || s.readSlot == Some(Last(s)) || !b.canMerge || b.offset + b.length > PAGE then 0
    else PAGE - b.offset - b.length
  }

  predicate Merges(s: State, src: seq<int>, whole: bool, total: nat)
    requires |s.ring| > 0
  {
    total == 0 && Remainder(src, whole) > 0 && s.slots > 0 && TailSpace(s) >= Remainder(src, whole)
  }

  predicate Enabled(s: State, ev: Event)
    requires |s.ring| > 0 && s.head < |s.ring| && s.tail < |s.ring|
  {
    match ev
    case ReadBegin(count) => s.reader.NoReader? && count > 0 && s.bytes > 0
    case ReadPin => s.reader.Reading? && s.reader.committed < s.reader.requested && s.mergeSlot != Some(s.head)
    case ReadByte =>
      && s.reader.ReadCopy? && |s.reader.got| < s.reader.chunk && s.reader.slot < |s.ring|
      && s.ring[s.reader.slot].page.Some?
      && s.reader.offset + |s.reader.got| < |s.ring[s.reader.slot].page.value|
    case ReadFault => s.reader.ReadCopy?
    case ReadConsume => s.reader.ReadCopy? && |s.reader.got| == s.reader.chunk
    case ReadEnd => s.reader.Reading?
    case WriteBegin(src, _) => s.writer.NoWriter? && |src| > 0
    case WriteChoose =>
      && s.writer.Writing? && s.writer.total < |s.writer.src|
      && (s.slots < |s.ring| || Merges(s, s.writer.src, s.writer.whole, s.writer.total))
    case WritePage(page) => |page| == PAGE && s.writer.WriteCopy? && s.writer.slot < |s.ring|
        && s.ring[s.writer.slot].page.None?
    case WriteByte =>
      && s.writer.WriteCopy? && s.writer.done < s.writer.chunk && s.writer.slot < |s.ring|
      && s.ring[s.writer.slot].page.Some?
      && s.writer.total + s.writer.done < |s.writer.src|
      && s.writer.offset + s.writer.done < |s.ring[s.writer.slot].page.value|
    case WriteFault => s.writer.WriteCopy? && s.writer.slot < |s.ring|
    case WritePublish => s.writer.WriteCopy? && s.writer.done == s.writer.chunk && s.writer.slot < |s.ring|
                         && s.writer.total + s.writer.chunk <= |s.writer.src|
    case WriteEnd => s.writer.Writing?
    case WritePark =>
      && s.writer.Writing? && s.writer.total < |s.writer.src|
      && s.slots == |s.ring| && !Merges(s, s.writer.src, s.writer.whole, s.writer.total)
    case WriteResume(i) => s.writer.NoWriter? && i < |s.parked|
    case WriteGiveUp(i) => i < |s.parked|
    case Resize(nr) => s.reader.NoReader? && s.writer.NoWriter? && s.slots <= nr && PowerOfTwo(nr)
  }

  /** `pipe_consume` on the head slot. */
  function Consumed(s: State, count: nat): State
    requires |s.ring| > 0 && s.head < |s.ring|
  {
    var b := s.ring[s.head];
    if count < b.length then
      s.(ring := s.ring[s.head := Buffer(b.page, b.offset + count, b.length - count, b.canMerge)],
         bytes := if count <= s.bytes then s.bytes - count else 0)
    else
      s.(ring := s.ring[s.head := Buffer(None, 0, 0, false)],
         bytes := if count <= s.bytes then s.bytes - count else 0,
         head := Ahead(s.head, 1, |s.ring|),
         slots := if s.slots > 0 then s.slots - 1 else 0)
  }

  function Moved(ring: seq<Buffer>, head: nat, slots: nat, nr: nat): seq<Buffer>
    requires |ring| > 0
  {
    seq(nr, i requires 0 <= i < nr => if i < slots then ring[Ahead(head, i, |ring|)] else Buffer(None, 0, 0, false))
  }

  predicate InBounds(s: State) {
    |s.ring| > 0 && s.head < |s.ring| && s.tail < |s.ring|
  }

  function Step(s: State, ev: Event): State {
    if !InBounds(s) || !Enabled(s, ev) then s else
    match ev
    case ReadBegin(count) => s.(reader := Reading(Min(count, s.bytes), 0))
    case ReadPin =>
      var b := s.ring[s.head];
      s.(readSlot := Some(s.head),
         reader := ReadCopy(s.reader.requested, s.reader.committed, s.head, b.offset,
                            Min(s.reader.requested - s.reader.committed, b.length), []))
    case ReadByte =>
      var r := s.reader;
      var byte := s.ring[r.slot].page.value[r.offset + |r.got|];
      s.(reader := ReadCopy(r.requested, r.committed, r.slot, r.offset, r.chunk, r.got + [byte]))
    case ReadFault => s.(readSlot := None, reader := NoReader)
    case ReadConsume =>
      var r := s.reader;
      Consumed(s, r.chunk).(readSlot := None, reader := Reading(r.requested, r.committed + r.chunk),
                            consumed := s.consumed + r.got)
    case ReadEnd => s.(reader := NoReader)
    case WriteBegin(src, whole) => s.(writer := Writing(src, whole, 0))
    case WriteChoose =>
      var w := s.writer;
      if Merges(s, w.src, w.whole, w.total) then
        var b := s.ring[Last(s)];
        s.(mergeSlot := Some(Last(s)),
           writer := WriteCopy(w.src, w.whole, w.total, Last(s), b.offset + b.length,
                               Remainder(w.src, w.whole), true, 0))
      else
        s.(writer := WriteCopy(w.src, w.whole, w.total, s.tail, 0, Min(|w.src| - w.total, PAGE), false, 0))
    case WritePage(page) =>
      var b := s.ring[s.writer.slot];
      s.(ring := s.ring[s.writer.slot := Buffer(Some(page), b.offset, b.length, b.canMerge)])
    case WriteByte =>
      var w := s.writer;
      var b := s.ring[w.slot];
      s.(ring := s.ring[w.slot := Buffer(Some(b.page.value[w.offset + w.done := w.src[w.total + w.done]]), b.offset,
                                         b.length, b.canMerge)],
         writer := WriteCopy(w.src, w.whole, w.total, w.slot, w.offset, w.chunk, w.merging, w.done + 1))
    case WriteFault =>
      var w := s.writer;
      var b := s.ring[w.slot];
      s.(mergeSlot := None, writer := NoWriter,
         ring := if w.merging then s.ring else s.ring[w.slot := Buffer(None, b.offset, b.length, b.canMerge)])
    case WritePublish =>
      var w := s.writer;
      var b := s.ring[w.slot];
      s.(mergeSlot := None, writer := Writing(w.src, w.whole, w.total + w.chunk), bytes := s.bytes + w.chunk,
         published := s.published + w.src[w.total..w.total + w.chunk],
         ring := s.ring[w.slot := if w.merging then Buffer(b.page, b.offset, b.length + w.chunk, b.canMerge)
                                  else Buffer(b.page, 0, w.chunk, !w.whole)],
         tail := if w.merging then s.tail else Ahead(w.slot, 1, |s.ring|),
         slots := if w.merging then s.slots else s.slots + 1)
    case WriteEnd => s.(writer := NoWriter)
    case WritePark =>
      s.(writer := NoWriter, parked := s.parked + [Parked(s.writer.src, s.writer.whole, s.writer.total)])
    case WriteResume(i) =>
      var p := s.parked[i];
      s.(writer := Writing(p.src, p.whole, p.total), parked := s.parked[..i] + s.parked[i + 1..])
    case WriteGiveUp(i) => s.(parked := s.parked[..i] + s.parked[i + 1..])
    case Resize(nr) =>
      s.(ring := Moved(s.ring, s.head, s.slots, nr), head := 0, tail := s.slots % nr)
  }

  // ---------------------------------------------------------------- invariant

  ghost predicate PagesOk(ring: seq<Buffer>) {
    forall i :: 0 <= i < |ring| && ring[i].page.Some? ==> |ring[i].page.value| == PAGE
  }

  ghost predicate RingOk(s: State) {
    && SlotsOk(s.ring, s.head, s.slots) && PowerOfTwo(|s.ring|) && PagesOk(s.ring)
    && s.tail == Ahead(s.head, s.slots, |s.ring|)
    && s.bytes == |Contents(s.ring, s.head, s.slots)|
  }

  /** The bytes consumed, then the bytes in the pipe, are the bytes published. */
  ghost predicate Fifo(s: State)
    requires |s.ring| > 0
  {
    s.consumed + Contents(s.ring, s.head, s.slots) == s.published
  }

  ghost predicate ReaderOk(s: State)
    requires |s.ring| > 0 && s.head < |s.ring|
  {
    match s.reader
    case NoReader => s.readSlot.None?
    case Reading(requested, committed) => s.readSlot.None? && committed <= requested && requested - committed <= s.bytes
    case ReadCopy(requested, committed, slot, offset, chunk, got) =>
      && s.readSlot == Some(slot) && slot == s.head && s.mergeSlot != Some(slot) && s.slots > 0
      && 0 < chunk && committed + chunk <= requested && requested - committed <= s.bytes
      && BufferOk(s.ring[slot]) && offset == s.ring[slot].offset && chunk <= s.ring[slot].length
      && |got| <= chunk && got == s.ring[slot].page.value[offset..offset + |got|]
  }

  ghost predicate WriterOk(s: State)
    requires |s.ring| > 0 && s.head < |s.ring| && s.tail < |s.ring|
  {
    match s.writer
    case NoWriter => s.mergeSlot.None?
    case Writing(src, whole, total) =>
      && s.mergeSlot.None? && total <= |src|
      && (|src| <= PAGE ==> total == 0 || total == |src|)
    case WriteCopy(src, whole, total, slot, offset, chunk, merging, done) =>
      && (|src| <= PAGE ==> total == 0 && chunk == |src|) && 0 < chunk && done <= chunk && total + chunk <= |src|
      && slot < |s.ring| && offset + chunk <= PAGE
      && (done > 0 ==>
            && s.ring[slot].page.Some? && |s.ring[slot].page.value| == PAGE
            && s.ring[slot].page.value[offset..offset + done] == src[total..total + done])
      && if merging
         then && s.slots > 0 && slot == Ahead(s.head, s.slots - 1, |s.ring|) && s.mergeSlot == Some(slot)
              && BufferOk(s.ring[slot]) && offset == s.ring[slot].offset + s.ring[slot].length
              && total == 0 && chunk == Remainder(src, whole)
         else && s.slots < |s.ring| && slot == s.tail && s.mergeSlot.None? && offset == 0
              && chunk == Min(|src| - total, PAGE)
  }

  /** Waiting writers have bytes left, and a small write that waits has published nothing. */
  ghost predicate ParkedOk(s: State) {
    forall i :: 0 <= i < |s.parked| ==>
      s.parked[i].total < |s.parked[i].src| && (|s.parked[i].src| <= PAGE ==> s.parked[i].total == 0)
  }

  ghost predicate Inv(s: State) {
    RingOk(s) && Fifo(s) && ReaderOk(s) && WriterOk(s) && ParkedOk(s)
  }
}
