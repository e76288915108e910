/** The read, write and resize loops of fs/pipe.c on the ring in place, each round taking the steps of the
    transition system. */
module PipeDevice {
  import opened Arithmetic
  import opened Pages
  import opened Wrappers
  import opened PipeRing
  import opened Pipe
  import opened PipeProof

  const LARGEST: nat := 0x8000_0000

  /** The rounding loop of `kernel_pipe_capacity`: the least power-of-two number of pages that holds size. */
  method RoundCapacity(size: nat) returns (rounded: nat)
    requires size <= LARGEST
    ensures size <= rounded <= LARGEST && rounded % PAGE == 0 && PowerOfTwo(rounded / PAGE)
    ensures rounded == PAGE || rounded / 2 < size
  {
    hide PowerOfTwo;
    Powers();
    rounded := PAGE;
    ghost var pages := 1;
    while rounded < size
      invariant rounded == PAGE * pages && PowerOfTwo(pages) && PowerOfTwo(rounded)
      invariant rounded == PAGE || rounded / 2 < size
      invariant 0 < rounded <= LARGEST
      decreases LARGEST - rounded
    {
      DoublePower(pages);
      DoublePower(rounded);
      PowerGap(rounded, LARGEST);
      rounded, pages := rounded * 2, pages * 2;
    }
  }

  lemma Powers()
    ensures PowerOfTwo(1) && PowerOfTwo(PAGE) && PowerOfTwo(LARGEST)
  {
    PowerTimes(0x10, 0x100);
    PowerTimes(0x1000, 0x1000);
    PowerTimes(0x100_0000, 0x80);
  }

  lemma {:induction false} PowerTimes(n: nat, m: nat)
    requires PowerOfTwo(n) && PowerOfTwo(m)
    ensures PowerOfTwo(n * m)
    decreases n
  {
    if n > 1 {
      PowerTimes(n / 2, m);
      assert n * m == 2 * (n / 2 * m);
      DoublePower(n / 2 * m);
    }
  }

  lemma DoublePower(n: nat)
    requires PowerOfTwo(n)
    ensures PowerOfTwo(2 * n) && n > 0
  {
    assert 2 * n / 2 == n;
  }

  lemma {:induction false} PowerGap(n: nat, m: nat)
    requires PowerOfTwo(n) && PowerOfTwo(m) && n < m
    ensures 2 * n <= m
    decreases n
  {
    if n > 1 {
      PowerGap(n / 2, m / 2);
    }
  }

  class Device {
    var buffers: array<Buffer>
    var head: nat
    var tail: nat
    var slots: nat
    var bytes: nat
    var readSlot: Option<nat>
    var mergeSlot: Option<nat>
    ghost var consumed: seq<int>
    ghost var published: seq<int>

    /** The device as a state of the transition system, with the given reader and writer. */
    ghost function View(reader: Reader, writer: Writer): State
      reads this, buffers
    {
      State(buffers[..], head, tail, slots, bytes, readSlot, mergeSlot, reader, writer, [], consumed, published)
    }

    ghost predicate Valid()
      reads this, buffers
    {
      Inv(View(NoReader, NoWriter))
    }

    constructor (size: nat)
      requires size > 0 && PowerOfTwo(size)
      ensures Valid() && consumed == [] && published == [] && fresh(buffers) && buffers.Length == size
    {
      buffers := new Buffer[size](_ => Buffer(None, 0, 0, false));
      head, tail, slots, bytes := 0, 0, 0, 0;
      readSlot, mergeSlot, consumed, published := None, None, [], [];
      new;
      hide *;
      EmptyOk(size);
      assert buffers[..] == Empty(size).ring;
    }

    /** `pipe_consume`: takes count bytes from the head slot and drops the slot when it runs empty. */
    method Consume(count: nat, ghost r: Reader, ghost w: Writer)
      requires buffers.Length > 0 && head < buffers.Length && slots > 0 && count <= bytes
                && count <= buffers[head].length
      modifies this`head, this`slots, this`bytes, buffers
      ensures View(r, w) == Consumed(old(View(r, w)), count)
    {
      hide Ahead;
      var slot := head;
      var b := buffers[slot];
      buffers[slot] := Buffer(b.page, b.offset + count, b.length - count, b.canMerge);
      bytes := bytes - count;
      if buffers[slot].length == 0 {
        buffers[slot] := Buffer(None, 0, 0, false);
        head := Ahead(slot, 1, buffers.Length);
        slots := slots - 1;
        assert buffers[..] == old(buffers[..])[slot := Buffer(None, 0, 0, false)];
      } else {
        assert buffers[..] == old(buffers[..])[slot := Buffer(b.page, b.offset + count, b.length - count, b.canMerge)];
      }
    }

    /** One round of the read loop: pin the head slot, copy out, consume. A copy that meets the fault
        consumes nothing. */
    method ReadChunk(requested: nat, committed: nat, fault: Option<nat>) returns (got: seq<int>)
      requires committed < requested && Inv(View(Reading(requested, committed), NoWriter))
      modifies this`head, this`slots, this`bytes, this`readSlot, this`consumed, buffers
      ensures |got| <= requested - committed && bytes == old(bytes) - |got| && consumed == old(consumed) + got
      ensures fault.None? || fault.value >= requested ==> |got| > 0
      ensures |got| > 0 ==> Inv(View(Reading(requested, committed + |got|), NoWriter))
      ensures |got| > 0 && fault.Some? ==> committed + |got| <= fault.value
      ensures |got| == 0 ==> Inv(View(NoReader, NoWriter)) && fault.Some?
    {
      hide Inv, Step, Enabled, Consumed;
      ghost var s := View(Reading(requested, committed), NoWriter);
      StepKeeps(s, ReadPin);
      PinFacts(s);
      var slot, offset := head, buffers[head].offset;
      var length := requested - committed;
      var chunk := if length < buffers[slot].length then length else buffers[slot].length;
      readSlot := Some(slot);
      ghost var pinned := View(ReadCopy(requested, committed, slot, offset, chunk, []), NoWriter);
      assert pinned == Step(s, ReadPin);
      if fault.Some? && fault.value < committed + chunk {
        StepKeeps(pinned, ReadFault);
        FaultFacts(pinned);
        readSlot := None;
        return [];
      }
      got := buffers[slot].page.value[offset..offset + chunk];
      ghost var reader := ReadCopy(requested, committed, slot, offset, chunk, got);
      ghost var copied := View(reader, NoWriter);
      CopyFacts(pinned, copied);
      StepKeeps(copied, ReadConsume);
      ConsumeFacts(copied);
      Consume(chunk, reader, NoWriter);
      readSlot := None;
      consumed := consumed + got;
      assert View(Reading(requested, committed + chunk), NoWriter) == Step(copied, ReadConsume);
    }

    /** `kernel_pipe_readv` with bytes available: takes the first min(count, bytes) of them, in order, or fewer when
        the copy out meets a fault at a byte among them; nothing that was not copied is consumed. */
    method Readv(count: nat, fault: Option<nat>) returns (out: seq<int>)
      requires Valid()
      modifies this`head, this`slots, this`bytes, this`readSlot, this`consumed, buffers
      ensures Valid() && buffers == old(buffers) && published == old(published)
      ensures |out| <= Min(count, old(bytes)) && consumed == old(consumed) + out && bytes == old(bytes) - |out|
      ensures fault.None? || fault.value >= Min(count, old(bytes)) ==> |out| == Min(count, old(bytes))
      ensures fault.Some? ==> |out| <= fault.value
    {
      hide Inv, Step, Enabled, Consumed;
      out := [];
      var requested := Min(count, bytes);
      if requested == 0 {
        return;
      }
      StepKeeps(View(NoReader, NoWriter), ReadBegin(count));
      BeginFacts(View(NoReader, NoWriter), count);
      var committed := 0;
      while committed < requested
        invariant committed <= requested && |out| == committed && bytes == old(bytes) - committed
        invariant consumed == old(consumed) + out && Inv(View(Reading(requested, committed), NoWriter))
        invariant fault.Some? ==> committed <= fault.value
        decreases requested - committed
      {
        var got := ReadChunk(requested, committed, fault);
        if |got| == 0 {
          return;
        }
        out := out + got;
        committed := committed + |got|;
      }
      StepKeeps(View(Reading(requested, committed), NoWriter), ReadEnd);
      EndFacts(View(Reading(requested, committed), NoWriter));
    }

    /** `pipe_tail_space` and the merge decision. */
    method ChooseMerge(src: seq<int>, whole: bool, total: nat) returns (merging: bool)
      requires buffers.Length > 0 && tail < buffers.Length
      ensures merging == Merges(View(NoReader, Writing(src, whole, total)), src, whole, total)
    {
      var remainder := if whole then 0 else |src| % PAGE;
      var space := 0;
      if slots != 0 {
        var last := Ahead(tail, buffers.Length - 1, buffers.Length);
        if readSlot != Some(last) && buffers[last].canMerge && buffers[last].offset + buffers[last].length <= PAGE {
          space := PAGE - buffers[last].offset - buffers[last].length;
        }
      }
      merging := total == 0 && remainder != 0 && slots != 0 && space >= remainder;
    }

    /** The copy in, byte by byte, of the first upTo bytes into the chosen slot. */
    method CopyIn(ghost s: State, src: seq<int>, whole: bool, total: nat, slot: nat, offset: nat, chunk: nat,
                  merging: bool, upTo: nat)
      requires upTo <= chunk && Inv(s)
                && s == View(NoReader, WriteCopy(src, whole, total, slot, offset, chunk, merging, 0))
      requires slot < buffers.Length && buffers[slot].page.Some?
      modifies buffers
      ensures Inv(View(NoReader, WriteCopy(src, whole, total, slot, offset, chunk, merging, upTo)))
      ensures buffers[slot].page.Some?
    {
      hide Inv, Step, Enabled;
      var done := 0;
      CopyInFacts(s);
      while done < upTo
        invariant done <= upTo && buffers[slot].page.Some?
        invariant Inv(View(NoReader, WriteCopy(src, whole, total, slot, offset, chunk, merging, done)))
      {
        ghost var t := View(NoReader, WriteCopy(src, whole, total, slot, offset, chunk, merging, done));
        StepKeeps(t, WriteByte);
        ByteFacts(t);
        var b := buffers[slot];
        buffers[slot] := Buffer(Some(b.page.value[offset + done := src[total + done]]), b.offset, b.length, b.canMerge);
        done := done + 1;
        assert View(NoReader, WriteCopy(src, whole, total, slot, offset, chunk, merging, done)) == Step(t, WriteByte);
      }
    }

    /** The publishing scope. */
    method Publish(src: seq<int>, whole: bool, total: nat, slot: nat, offset: nat, chunk: nat, merging: bool)
      requires Inv(View(NoReader, WriteCopy(src, whole, total, slot, offset, chunk, merging, chunk)))
      modifies this`tail, this`slots, this`bytes, this`mergeSlot, this`published, buffers
      ensures Inv(View(NoReader, Writing(src, whole, total + chunk)))
      ensures 0 < chunk && total + chunk <= |src| && published == old(published) + src[total..total + chunk]
                && bytes == old(bytes) + chunk
    {
      hide Inv, Step, Enabled, Ahead;
      ghost var s := View(NoReader, WriteCopy(src, whole, total, slot, offset, chunk, merging, chunk));
      StepKeeps(s, WritePublish);
      PublishFacts(s);
      var b := buffers[slot];
      if !merging {
        buffers[slot] := Buffer(b.page, 0, 0, !whole);
        tail := Ahead(slot, 1, buffers.Length);
        slots := slots + 1;
      }
      b := buffers[slot];
      buffers[slot] := Buffer(b.page, b.offset, b.length + chunk, b.canMerge);
      bytes := bytes + chunk;
      mergeSlot := None;
      published := published + src[total..total + chunk];
      assert buffers[..] == Step(s, WritePublish).ring;
    }

    /** The scope after a copy fault: nothing is published, and a page put into an unpublished slot goes. */
    method Abort(src: seq<int>, whole: bool, total: nat, slot: nat, offset: nat, chunk: nat, merging: bool,
                 ghost done: nat)
      requires Inv(View(NoReader, WriteCopy(src, whole, total, slot, offset, chunk, merging, done)))
      modifies this`mergeSlot, buffers
      ensures Valid()
    {
      hide Inv, Step, Enabled;
      ghost var s := View(NoReader, WriteCopy(src, whole, total, slot, offset, chunk, merging, done));
      StepKeeps(s, WriteFault);
      AbortFacts(s);
      mergeSlot := None;
      if !merging {
        var b := buffers[slot];
        buffers[slot] := Buffer(None, b.offset, b.length, b.canMerge);
      }
      assert View(NoReader, NoWriter) == Step(s, WriteFault);
    }

    /** One round of the write loop: choose a slot, give it a page, copy in, publish. A chunk of 0 means that
        the ring is full, that no page was to be had, or that the copy met the fault. */
    method WriteChunk(src: seq<int>, whole: bool, total: nat, page: Option<seq<int>>, fault: Option<nat>)
      returns (chunk: nat, faulted: bool)
      requires total < |src| && Inv(View(NoReader, Writing(src, whole, total)))
      requires (page.Some? ==> |page.value| == PAGE) && (fault.Some? ==> total <= fault.value)
      modifies this`tail, this`slots, this`bytes, this`mergeSlot, this`published, buffers
      ensures total + chunk <= |src| && published == old(published) + src[total..total + chunk]
                && bytes == old(bytes) + chunk
      ensures faulted ==> Valid() && chunk == 0 && fault.Some? && fault.value < |src|
      ensures !faulted ==> Inv(View(NoReader, Writing(src, whole, total + chunk)))
      ensures fault.Some? ==> total + chunk <= fault.value
      ensures chunk == 0 ==> slots == old(slots) && (faulted || page.None? || slots == buffers.Length)
    {
      hide Inv, Step, Enabled, Merges, Ahead, Remainder;
      ghost var s := View(NoReader, Writing(src, whole, total));
      ChooseFacts(s);
      faulted := false;
      assert src[total..total + 0] == [];
      var merging := ChooseMerge(src, whole, total);
      if !merging && slots == buffers.Length {
        return 0, false;
      }
      StepKeeps(s, WriteChoose);
      var slot := if merging then Ahead(tail, buffers.Length - 1, buffers.Length) else tail;
      if buffers[slot].page.None? && page.None? {
        return 0, false;
      }
      var offset := if merging then buffers[slot].offset + buffers[slot].length else 0;
      chunk := if merging then Remainder(src, whole) else Min(|src| - total, PAGE);
      if merging {
        mergeSlot := Some(slot);
      }
      ghost var t := View(NoReader, WriteCopy(src, whole, total, slot, offset, chunk, merging, 0));
      assert t == Step(s, WriteChoose);
      ChunkFits(t);
      faulted := Move(src, whole, total, slot, offset, chunk, merging, page, fault);
      if faulted {
        chunk := 0;
      }
    }

    /** The copy of one round, published unless it meets the fault. */
    method Move(src: seq<int>, whole: bool, total: nat, slot: nat, offset: nat, chunk: nat, merging: bool,
                page: Option<seq<int>>, fault: Option<nat>) returns (faulted: bool)
      requires Inv(View(NoReader, WriteCopy(src, whole, total, slot, offset, chunk, merging, 0)))
      requires slot < buffers.Length && (buffers[slot].page.Some? || page.Some?)
                && (page.Some? ==> |page.value| == PAGE)
      requires total + chunk <= |src| && (fault.Some? ==> total <= fault.value)
      modifies this`tail, this`slots, this`bytes, this`mergeSlot, this`published, buffers
      ensures faulted <==> fault.Some? && fault.value < total + chunk
      ensures faulted ==> Valid() && published == old(published) && bytes == old(bytes) && slots == old(slots)
      ensures !faulted ==> Inv(View(NoReader, Writing(src, whole, total + chunk))) && 0 < chunk
      ensures !faulted ==> published == old(published) + src[total..total + chunk] && bytes == old(bytes) + chunk
    {
      hide Inv, View;
      var upTo := if fault.Some? && fault.value < total + chunk then fault.value - total else chunk;
      Fill(src, whole, total, slot, offset, chunk, merging, page, upTo);
      if upTo < chunk {
        Abort(src, whole, total, slot, offset, chunk, merging, upTo);
        return true;
      }
      Publish(src, whole, total, slot, offset, chunk, merging);
      return false;
    }

    /** The unlocked part of a write round: a page for an empty slot, then the copy as far as it gets. */
    method Fill(src: seq<int>, whole: bool, total: nat, slot: nat, offset: nat, chunk: nat, merging: bool,
                page: Option<seq<int>>, upTo: nat)
      requires upTo <= chunk && Inv(View(NoReader, WriteCopy(src, whole, total, slot, offset, chunk, merging, 0)))
      requires slot < buffers.Length && (buffers[slot].page.Some? || page.Some?)
                && (page.Some? ==> |page.value| == PAGE)
      modifies buffers
      ensures Inv(View(NoReader, WriteCopy(src, whole, total, slot, offset, chunk, merging, upTo)))
    {
      hide Inv, Step, Enabled;
      ghost var w := WriteCopy(src, whole, total, slot, offset, chunk, merging, 0);
      ghost var t := View(NoReader, w);
      if buffers[slot].page.None? {
        StepKeeps(t, WritePage(page.value));
        PageFacts(t, page.value);
        var b := buffers[slot];
        buffers[slot] := Buffer(page, b.offset, b.length, b.canMerge);
        assert View(NoReader, w) == Step(t, WritePage(page.value));
      }
      CopyIn(View(NoReader, w), src, whole, total, slot, offset, chunk, merging, upTo);
    }

    /** `pipe_write_source` from the point where it holds the write mutex, with `total` bytes published before a wait,
        up to its next wait or its end: accepts the next bytes of src, and all of them unless the ring fills up, the
        pages run out or the copy in meets a fault; a write of at most one page is accepted whole or not at all. */
    method Write(src: seq<int>, whole: bool, total: nat, pages: seq<seq<int>>, fault: Option<nat>)
        returns (accepted: nat)
      requires Valid() && forall i :: 0 <= i < |pages| ==> |pages[i]| == PAGE
      requires total <= |src| && (|src| <= PAGE ==> total == 0) && (fault.Some? ==> total <= fault.value)
      modifies this`tail, this`slots, this`bytes, this`mergeSlot, this`published, buffers
      ensures Valid() && buffers == old(buffers) && consumed == old(consumed) && total + accepted <= |src|
      ensures published == old(published) + src[total..total + accepted] && bytes == old(bytes) + accepted
      ensures |src| <= PAGE ==> accepted == 0 || accepted == |src|
      ensures fault.Some? ==> total + accepted <= fault.value
      ensures |pages| > |src| && total + accepted < |src| && (fault.None? || fault.value >= |src|) ==>
                slots == buffers.Length
    {
      hide Inv, View;
      accepted := 0;
      assert src[total..total] == [];
      if total == |src| {
        return;
      }
      WriteStarts(src, whole, total);
      var used := 0;
      while total + accepted < |src|
        invariant total + accepted <= |src| && used <= accepted && used <= |pages| && bytes == old(bytes) + accepted
        invariant published == old(published) + src[total..total + accepted]
        invariant Inv(View(NoReader, Writing(src, whole, total + accepted)))
        invariant (fault.Some? ==> total + accepted <= fault.value)
                  && (|src| <= PAGE ==> accepted == 0 || accepted == |src|)
        decreases |src| - total - accepted
      {
        var at := total + accepted;
        var chunk, faulted := WriteChunk(src, whole, at, if used < |pages| then Some(pages[used]) else None, fault);
        assert src[total..at + chunk] == src[total..at] + src[at..at + chunk];
        if !faulted {
          WriteStands(src, whole, at + chunk);
        }
        if faulted {
          return;
        }
        if chunk == 0 {
          break;
        }
        accepted := accepted + chunk;
        if used < |pages| {
          used := used + 1;
        }
      }
      WriteStands(src, whole, total + accepted);
    }

    /** The write mutex is taken, at first or after a wait. */
    lemma WriteStarts(src: seq<int>, whole: bool, total: nat)
      requires Valid() && total < |src| && (|src| <= PAGE ==> total == 0)
      ensures Inv(View(NoReader, Writing(src, whole, total)))
    {
      hide Inv;
      ResumeFacts(View(NoReader, NoWriter), src, whole, total);
    }

    /** Between chunks the mutex may be given up. */
    lemma WriteStands(src: seq<int>, whole: bool, total: nat)
      requires Inv(View(NoReader, Writing(src, whole, total)))
      ensures Valid() && (|src| <= PAGE ==> total == 0 || total == |src|)
    {
      hide Inv, Step, Enabled;
      StepKeeps(View(NoReader, Writing(src, whole, total)), WriteEnd);
      WriteEndFacts(View(NoReader, Writing(src, whole, total)));
    }

    /** The resize of `kernel_pipe_capacity`: refused when the slots in use do not fit, otherwise the slots move
        to the front of the new ring with their bytes untouched. */
    method Resize(nr: nat, candidate: array<Buffer>) returns (ok: bool)
      requires Valid() && PowerOfTwo(nr) && candidate.Length == nr && candidate != buffers
      requires forall i :: 0 <= i < nr ==> candidate[i] == Buffer(None, 0, 0, false)
      modifies this`buffers, this`head, this`tail, candidate
      ensures Valid() && ok == (slots <= nr) && (!ok ==> buffers == old(buffers))
      ensures ok ==> buffers == candidate
      ensures published == old(published) && consumed == old(consumed) && bytes == old(bytes) && slots == old(slots)
    {
      hide Inv, Step, Enabled, Moved, Ahead, PowerOfTwo;
      if nr < slots {
        return false;
      }
      ghost var s := View(NoReader, NoWriter);
      StepKeeps(s, Pipe.Resize(nr));
      ResizeFacts(s, nr);
      assert readSlot.None? && mergeSlot.None?;
      MoveSlots(candidate);
      MovedIs(s, nr, candidate[..]);
      buffers := candidate;
      head, tail := 0, slots % nr;
      assert View(NoReader, NoWriter) == Step(s, Pipe.Resize(nr));
      return true;
    }

    method MoveSlots(candidate: array<Buffer>)
      requires candidate != buffers && slots <= candidate.Length && buffers.Length > 0
      requires forall i :: 0 <= i < candidate.Length ==> candidate[i] == Buffer(None, 0, 0, false)
      modifies candidate
      ensures forall j :: 0 <= j < candidate.Length ==>
                candidate[j] == if j < slots then buffers[Ahead(head, j, buffers.Length)] else Buffer(None, 0, 0, false)
    {
      hide Ahead;
      var i := 0;
      while i < slots
        invariant i <= slots
        invariant forall j :: 0 <= j < candidate.Length ==>
                    candidate[j] == if j < i then buffers[Ahead(head, j, buffers.Length)] else Buffer(None, 0, 0, false)
      {
        candidate[i] := buffers[Ahead(head, i, buffers.Length)];
        i := i + 1;
      }
    }
  }

  lemma FaultFacts(s: State)
    requires Inv(s) && s.reader.ReadCopy?
    ensures Step(s, ReadFault) == s.(readSlot := None, reader := NoReader)
  {
    hide SlotsOk, Contents, Ahead, PowerOfTwo, Remainder;
    SlotBounds(s);
  }

  lemma AbortFacts(s: State)
    requires Inv(s) && s.writer.WriteCopy?
    ensures s.writer.slot < |s.ring|
    ensures var w, b := s.writer, s.ring[s.writer.slot];
            Step(s, WriteFault) == s.(mergeSlot := None, writer := NoWriter,
              ring := if w.merging then s.ring else s.ring[w.slot := Buffer(None, b.offset, b.length, b.canMerge)])
  {
    hide SlotsOk, Contents, Ahead, PowerOfTwo, Remainder;
    SlotBounds(s);
  }

  lemma ChunkFits(s: State)
    requires Inv(s) && s.writer.WriteCopy?
    ensures s.writer.total + s.writer.chunk <= |s.writer.src|
  {
    hide RingOk, Fifo, ReaderOk;
  }

  /** The write mutex taken, at first or after a wait. */
  lemma ResumeFacts(s: State, src: seq<int>, whole: bool, total: nat)
    requires Inv(s) && s.writer.NoWriter? && total < |src| && (|src| <= PAGE ==> total == 0)
    ensures Inv(s.(writer := Writing(src, whole, total)))
  {
    hide SlotsOk, Contents, Ahead, PowerOfTwo;
  }

  lemma CopyInFacts(s: State)
    requires Inv(s) && s.writer.WriteCopy?
    ensures s.writer.done <= s.writer.chunk
  {
    hide RingOk, Fifo, ReaderOk;
  }

  lemma ByteFacts(s: State)
    requires Inv(s) && s.writer.WriteCopy? && s.writer.done < s.writer.chunk && s.writer.slot < |s.ring|
              && s.ring[s.writer.slot].page.Some?
    ensures var w, b := s.writer, s.ring[s.writer.slot];
            && w.total + w.done < |w.src| && w.offset + w.done < |b.page.value|
            && Step(s, WriteByte)
            == s.(ring := s.ring[w.slot := Buffer(Some(b.page.value[w.offset + w.done := w.src[w.total + w.done]]),
                                                  b.offset, b.length, b.canMerge)],
                                        writer := WriteCopy(w.src, w.whole, w.total, w.slot, w.offset, w.chunk,
                                                            w.merging, w.done + 1))
  {
    hide SlotsOk, Contents, Ahead, Remainder, PowerOfTwo;
    SlotBounds(s);
  }

  lemma PublishFacts(s: State)
    requires Inv(s) && s.writer.WriteCopy? && s.writer.done == s.writer.chunk
    ensures var t, w := Step(s, WritePublish), s.writer;
            && w.slot < |s.ring| && 0 < w.chunk && w.total + w.chunk <= |w.src|
            && t == s.(mergeSlot := None, writer := Writing(w.src, w.whole, w.total + w.chunk),
                       bytes := s.bytes + w.chunk,
                       published := s.published + w.src[w.total..w.total + w.chunk],
                       ring := s.ring[w.slot := if w.merging
                                                then Buffer(s.ring[w.slot].page, s.ring[w.slot].offset,
                                                            s.ring[w.slot].length + w.chunk, s.ring[w.slot].canMerge)
                                                else Buffer(s.ring[w.slot].page, 0, w.chunk, !w.whole)],
                       tail := if w.merging then s.tail else Ahead(w.slot, 1, |s.ring|),
                       slots := if w.merging then s.slots else s.slots + 1)
  {
    hide SlotsOk, Contents, Ahead, Remainder, PowerOfTwo;
    SlotBounds(s);
  }

  lemma ChooseFacts(s: State)
    requires Inv(s) && s.writer.Writing? && s.writer.total < |s.writer.src|
    ensures InBounds(s) && s.slots <= |s.ring|
    ensures var w := s.writer;
            Merges(s, w.src, w.whole, w.total) || s.slots < |s.ring| ==>
              Step(s, WriteChoose) ==
                if Merges(s, w.src, w.whole, w.total) then
                  s.(mergeSlot := Some(Last(s)),
                     writer := WriteCopy(w.src, w.whole, w.total, Last(s),
                                         s.ring[Last(s)].offset + s.ring[Last(s)].length,
                                         Remainder(w.src, w.whole), true, 0))
                else
                  s.(writer := WriteCopy(w.src, w.whole, w.total, s.tail, 0, Min(|w.src| - w.total, PAGE), false, 0))
  {
    hide SlotsOk, Contents, Ahead, Remainder, PowerOfTwo, Merges;
    SlotBounds(s);
  }

  lemma PageFacts(s: State, page: seq<int>)
    requires Inv(s) && s.writer.WriteCopy? && s.writer.slot < |s.ring| && s.ring[s.writer.slot].page.None?
              && |page| == PAGE
    ensures var b := s.ring[s.writer.slot];
            Step(s, WritePage(page))
                == s.(ring := s.ring[s.writer.slot := Buffer(Some(page), b.offset, b.length, b.canMerge)])
  {
    hide SlotsOk, Contents, Ahead, PowerOfTwo;
    SlotBounds(s);
  }

  lemma WriteEndFacts(s: State)
    requires Inv(s) && s.writer.Writing?
    ensures Step(s, WriteEnd) == s.(writer := NoWriter)
    ensures |s.writer.src| <= PAGE ==> s.writer.total == 0 || s.writer.total == |s.writer.src|
  {}

  lemma ResizeFacts(s: State, nr: nat)
    requires Inv(s) && s.reader.NoReader? && s.writer.NoWriter? && s.slots <= nr && PowerOfTwo(nr)
    ensures nr > 0 && InBounds(s) && s.readSlot.None? && s.mergeSlot.None?
    ensures Step(s, Pipe.Resize(nr)) == s.(ring := Moved(s.ring, s.head, s.slots, nr), head := 0, tail := s.slots % nr)
  {
    hide SlotsOk, Contents, Ahead, Moved;
    SlotBounds(s);
  }

  lemma MovedIs(s: State, nr: nat, ring: seq<Buffer>)
    requires |s.ring| > 0 && |ring| == nr
    requires forall j ::
              0 <= j < nr ==>
                  ring[j] == if j < s.slots then s.ring[Ahead(s.head, j, |s.ring|)] else Buffer(None, 0, 0, false)
    ensures ring == Moved(s.ring, s.head, s.slots, nr)
  {
    hide Ahead;
  }

  lemma BeginFacts(s: State, count: nat)
    requires Inv(s) && s.reader.NoReader? && count > 0 && s.bytes > 0
    ensures Step(s, ReadBegin(count)) == s.(reader := Reading(Min(count, s.bytes), 0))
  {}

  lemma PinFacts(s: State)
    requires Inv(s) && s.reader.Reading? && s.reader.committed < s.reader.requested && s.writer.NoWriter?
    ensures InBounds(s) && s.slots > 0 && BufferOk(s.ring[s.head]) && s.reader.requested - s.reader.committed <= s.bytes
    ensures var b := s.ring[s.head];
            Step(s, ReadPin) == s.(readSlot := Some(s.head),
                                   reader := ReadCopy(s.reader.requested, s.reader.committed, s.head, b.offset,
                                                      Min(s.reader.requested - s.reader.committed, b.length), []))
  {
    hide Contents, SlotsOk, Ahead;
    SlotBounds(s);
    SomeSlot(s);
  }

  /** The copy out, all bytes at once: what any number of single-byte steps ends in. */
  lemma CopyFacts(s: State, t: State)
    requires Inv(s) && s.reader.ReadCopy? && InBounds(s)
    requires var r := s.reader;
             && r.slot < |s.ring| && s.ring[r.slot].page.Some? && r.offset + r.chunk <= |s.ring[r.slot].page.value|
             && t == s.(reader := ReadCopy(r.requested, r.committed, r.slot, r.offset, r.chunk,
                                           s.ring[r.slot].page.value[r.offset..r.offset + r.chunk]))
    ensures Inv(t)
  {
    hide Contents, SlotsOk, Ahead;
  }

  lemma ConsumeFacts(s: State)
    requires Inv(s) && s.reader.ReadCopy? && |s.reader.got| == s.reader.chunk
    ensures InBounds(s) && s.slots > 0 && s.reader.slot == s.head && s.reader.chunk <= s.ring[s.head].length
    ensures Consumed(s, s.reader.chunk).bytes == s.bytes - s.reader.chunk && s.reader.chunk <= s.bytes
    ensures 0 < s.reader.chunk <= s.bytes && s.reader.committed + s.reader.chunk <= s.reader.requested
    ensures var r := s.reader;
            Step(s, ReadConsume)
                == Consumed(s, r.chunk).(readSlot := None, reader := Reading(r.requested, r.committed + r.chunk),
                                                          consumed := s.consumed + r.got)
  {
    hide Contents, SlotsOk, Ahead;
    SlotBounds(s);
  }

  lemma EndFacts(s: State)
    requires Inv(s) && s.reader.Reading?
    ensures Step(s, ReadEnd) == s.(reader := NoReader)
  {}
}
