/** The slot ring of fs/pipe.c and the bytes it holds. */
module PipeRing {
  import opened Arithmetic
  import opened Pages
  import opened Wrappers

  /** struct kernel_pipe_buffer; `page` is the bytes of its page when it has one. */
  datatype Buffer = Buffer(page: Option<seq<int>>, offset: nat, length: nat, canMerge: bool)

  ghost predicate BufferOk(b: Buffer) {
    b.page.Some? && |b.page.value| == PAGE && b.length > 0 && b.offset + b.length <= PAGE
  }

  /** The published bytes of one slot. */
  ghost function Bytes(b: Buffer): (r: seq<int>)
    ensures BufferOk(b) ==> |r| == b.length
  {
    if BufferOk(b) then b.page.value[b.offset..b.offset + b.length] else []
  }

  /** The bytes of the next `slots` slots, oldest first. */
  ghost function Contents(ring: seq<Buffer>, head: nat, slots: nat): seq<int>
    requires |ring| > 0
    decreases slots
  {
    if slots == 0 then [] else Contents(ring, head, slots - 1) + Bytes(ring[Ahead(head, slots - 1, |ring|)])
  }

  ghost predicate SlotsOk(ring: seq<Buffer>, head: nat, slots: nat) {
    |ring| > 0 && head < |ring| && slots <= |ring|
        && forall j: nat :: j < slots ==> BufferOk(ring[Ahead(head, j, |ring|)])
  }

  /** Slot i is one of the published ones. */
  ghost predicate Holds(head: nat, slots: nat, i: nat, n: nat)
    requires n > 0
  {
    exists j: nat :: j < slots && Ahead(head, j, n) == i
  }

  // ---------------------------------------------------------------- lemmas

  lemma {:induction false} ContentsFrame(ring: seq<Buffer>, ring': seq<Buffer>, head: nat, slots: nat)
    requires |ring| > 0 && |ring'| == |ring|
    requires forall j: nat :: j < slots ==> Bytes(ring'[Ahead(head, j, |ring|)]) == Bytes(ring[Ahead(head, j, |ring|)])
    ensures Contents(ring', head, slots) == Contents(ring, head, slots)
    decreases slots
  {
    hide Ahead, Bytes;
    if slots > 0 {
      ContentsFrame(ring, ring', head, slots - 1);
    }
  }

  /** The same bytes, read from a ring laid out from another position. */
  lemma {:induction false} ContentsMove(ring: seq<Buffer>, head: nat, ring': seq<Buffer>, head': nat, slots: nat)
    requires |ring| > 0 && |ring'| > 0
    requires forall j: nat :: j < slots ==> ring'[Ahead(head', j, |ring'|)] == ring[Ahead(head, j, |ring|)]
    ensures Contents(ring', head', slots) == Contents(ring, head, slots)
    decreases slots
  {
    hide Ahead, Bytes;
    if slots > 0 {
      ContentsMove(ring, head, ring', head', slots - 1);
    }
  }

  lemma {:induction false} ContentsFirst(ring: seq<Buffer>, head: nat, slots: nat)
    requires |ring| > 0 && head < |ring| && slots > 0
    ensures Contents(ring, head, slots) == Bytes(ring[head]) + Contents(ring, Ahead(head, 1, |ring|), slots - 1)
    decreases slots
  {
    hide Ahead, Bytes;
    var n := |ring|;
    AheadIs(head, 0, n, head);
    if slots == 1 {
      assert Contents(ring, head, 0) == [];
      assert Contents(ring, Ahead(head, 1, n), 0) == [];
    } else {
      ContentsFirst(ring, head, slots - 1);
      AheadTwice(head, 1, slots - 2, n);
      Assoc(Bytes(ring[head]), Contents(ring, Ahead(head, 1, n), slots - 2), Bytes(ring[Ahead(head, slots - 1, n)]));
    }
  }

  lemma HeadHolds(ring: seq<Buffer>, head: nat, slots: nat)
    requires SlotsOk(ring, head, slots) && slots > 0
    ensures BufferOk(ring[head])
  {
    hide Ahead, BufferOk;
    AheadIs(head, 0, |ring|, head);
    assert BufferOk(ring[Ahead(head, 0, |ring|)]);
  }

  lemma LastHolds(ring: seq<Buffer>, head: nat, slots: nat)
    requires SlotsOk(ring, head, slots) && slots > 0
    ensures BufferOk(ring[Ahead(head, slots - 1, |ring|)])
  {
    hide Ahead, BufferOk;
    assert BufferOk(ring[Ahead(head, slots - 1, |ring|)]);
  }

  lemma Assoc(a: seq<int>, b: seq<int>, c: seq<int>)
    ensures (a + b) + c == a + (b + c)
  {}

  lemma BytesSplit(b: Buffer, c: nat)
    requires BufferOk(b) && c < b.length
    ensures var b' := Buffer(b.page, b.offset + c, b.length - c, b.canMerge);
            BufferOk(b') && Bytes(b)[..c] + Bytes(b') == Bytes(b)
  {}

  /** Consuming c < length bytes of the head slot. */
  lemma ConsumePart(ring: seq<Buffer>, head: nat, slots: nat, c: nat)
    requires SlotsOk(ring, head, slots) && slots > 0 && BufferOk(ring[head]) && c < ring[head].length
    ensures var b := ring[head];
            var ring' := ring[head := Buffer(b.page, b.offset + c, b.length - c, b.canMerge)];
            && SlotsOk(ring', head, slots)
            && Bytes(b)[..c] + Contents(ring', head, slots) == Contents(ring, head, slots)
  {
    hide Ahead, Contents, Bytes, BufferOk;
    var b, n := ring[head], |ring|;
    var b' := Buffer(b.page, b.offset + c, b.length - c, b.canMerge);
    var ring' := ring[head := b'];
    BytesSplit(b, c);
    RestFrame(ring, head, slots, b');
    ContentsFirst(ring, head, slots);
    ContentsFirst(ring', head, slots);
    Assoc(Bytes(b)[..c], Bytes(b'), Contents(ring, Ahead(head, 1, n), slots - 1));
    RestOk(ring, head, slots, b');
  }

  lemma RestFrame(ring: seq<Buffer>, head: nat, slots: nat, b: Buffer)
    requires 0 < |ring| && head < |ring| && 0 < slots <= |ring|
    ensures Contents(ring[head := b], Ahead(head, 1, |ring|), slots - 1)
              == Contents(ring, Ahead(head, 1, |ring|), slots - 1)
  {
    hide Ahead, Contents, Bytes;
    var n := |ring|;
    forall j: nat | j < slots - 1 ensures Ahead(Ahead(head, 1, n), j, n) != head {
      AheadTwice(head, 1, j, n);
      AheadIs(head, 0, n, head);
      AheadDistinct(head, j + 1, 0, n);
    }
    ContentsFrame(ring, ring[head := b], Ahead(head, 1, n), slots - 1);
  }

  lemma RestOk(ring: seq<Buffer>, head: nat, slots: nat, b: Buffer)
    requires SlotsOk(ring, head, slots) && BufferOk(b)
    ensures SlotsOk(ring[head := b], head, slots)
  {
    hide Ahead, BufferOk;
  }

  /** Consuming the whole head slot. */
  lemma ConsumeAll(ring: seq<Buffer>, head: nat, slots: nat, b: Buffer)
    requires SlotsOk(ring, head, slots) && slots > 0
    ensures var ring', next := ring[head := b], Ahead(head, 1, |ring|);
            && SlotsOk(ring', next, slots - 1)
            && Bytes(ring[head]) + Contents(ring', next, slots - 1) == Contents(ring, head, slots)
            && Ahead(next, slots - 1, |ring|) == Ahead(head, slots, |ring|)
  {
    hide Ahead, Contents, Bytes, BufferOk;
    var n := |ring|;
    var ring', next := ring[head := b], Ahead(head, 1, n);
    RestFrame(ring, head, slots, b);
    ContentsFirst(ring, head, slots);
    forall j: nat | j < slots - 1 ensures BufferOk(ring'[Ahead(next, j, n)]) {
      AheadTwice(head, 1, j, n);
      AheadIs(head, 0, n, head);
      AheadDistinct(head, j + 1, 0, n);
      assert BufferOk(ring[Ahead(head, j + 1, n)]);
    }
    AheadTwice(head, 1, slots - 1, n);
  }

  /** Storing into a slot that is not published, or outside the published bytes of one, changes nothing
      that a reader can see. */
  lemma StoreFrame(ring: seq<Buffer>, head: nat, slots: nat, i: nat, b: Buffer)
    requires SlotsOk(ring, head, slots) && i < |ring|
    requires Holds(head, slots, i, |ring|) ==> BufferOk(b) && Bytes(b) == Bytes(ring[i])
    ensures SlotsOk(ring[i := b], head, slots) && Contents(ring[i := b], head, slots) == Contents(ring, head, slots)
  {
    hide Ahead, Contents, Bytes, BufferOk;
    var ring' := ring[i := b];
    forall j: nat | j < slots
      ensures BufferOk(ring'[Ahead(head, j, |ring|)])
                && Bytes(ring'[Ahead(head, j, |ring|)]) == Bytes(ring[Ahead(head, j, |ring|)])
    {
      assert BufferOk(ring[Ahead(head, j, |ring|)]);
    }
    ContentsFrame(ring, ring', head, slots);
  }

  lemma TailIsFree(ring: seq<Buffer>, head: nat, slots: nat)
    requires SlotsOk(ring, head, slots) && slots < |ring|
    ensures !Holds(head, slots, Ahead(head, slots, |ring|), |ring|)
  {
    hide Ahead, BufferOk;
    forall j: nat | j < slots ensures Ahead(head, j, |ring|) != Ahead(head, slots, |ring|) {
      AheadDistinct(head, j, slots, |ring|);
    }
  }

  /** Publishing the slot at the tail appends its bytes. */
  lemma PublishNew(ring: seq<Buffer>, head: nat, slots: nat, b: Buffer)
    requires SlotsOk(ring, head, slots) && slots < |ring| && BufferOk(b)
    ensures var ring' := ring[Ahead(head, slots, |ring|) := b];
            && SlotsOk(ring', head, slots + 1)
            && Contents(ring', head, slots + 1) == Contents(ring, head, slots) + Bytes(b)
  {
    hide Ahead, Bytes, BufferOk, Holds;
    var tail := Ahead(head, slots, |ring|);
    TailIsFree(ring, head, slots);
    StoreFrame(ring, head, slots, tail, b);
  }

  /** Extending the last slot appends the new bytes. */
  lemma PublishMerge(ring: seq<Buffer>, head: nat, slots: nat, last: nat, b: Buffer, more: seq<int>)
    requires SlotsOk(ring, head, slots) && slots > 0 && last == Ahead(head, slots - 1, |ring|)
    requires BufferOk(b) && Bytes(b) == Bytes(ring[last]) + more
    ensures SlotsOk(ring[last := b], head, slots)
    ensures Contents(ring[last := b], head, slots) == Contents(ring, head, slots) + more
  {
    hide Ahead, Bytes, BufferOk;
    var n := |ring|;
    forall j: nat | j < slots - 1 ensures Ahead(head, j, n) != last {
      AheadDistinct(head, j, slots - 1, n);
    }
    ContentsFrame(ring, ring[last := b], head, slots - 1);
    Assoc(Contents(ring, head, slots - 1), Bytes(ring[last]), more);
  }

  lemma BytesMore(b: Buffer, c: nat)
    requires BufferOk(b) && b.offset + b.length + c <= PAGE
    ensures var b' := Buffer(b.page, b.offset, b.length + c, b.canMerge);
            BufferOk(b') && Bytes(b') == Bytes(b) + b.page.value[b.offset + b.length..b.offset + b.length + c]
  {}
}
