/** The loops over captured dirty blocks: the ranges handed out one after another, the copy into the
    stable version, and the scan that narrows the dirty region on completion. */
module WritebackRanges {
  import opened Arithmetic
  import opened Pages
  import opened Writeback
  import opened WritebackDirty

  ghost predicate PreparedOk(c: Config, p: Prepared) {
    ConfigOk(c) && p.begin <= p.end <= PAGE && (!c.blockMode ==> p.blocks == {})
  }

  /** Byte i is in the block bit scanned by the loops. */
  lemma ScannedBlock(i: nat, bit: nat, m: nat)
    requires m > 0
    ensures i < bit * m <==> i / m < bit
  {
    BlockBounds(i, m);
    if i / m < bit {
      MulLe(i / m + 1, bit, m);
    } else {
      MulLe(bit, i / m, m);
    }
  }

  /** `next_writeback_range`: the next maximal run of captured bytes at or after the cursor. */
  method NextRange(c: Config, p: Prepared, cursor: nat) returns (more: bool, begin: nat, end: nat, next: nat)
    requires PreparedOk(c, p) && p.begin <= cursor
    ensures !more ==> forall i :: cursor <= i < p.end ==> !InCapture(c, p, i)
    ensures more ==> cursor <= begin < end <= p.end && next == end
    ensures more ==> forall i :: cursor <= i < begin ==> !InCapture(c, p, i)
    ensures more ==> forall i :: begin <= i < end ==> InCapture(c, p, i)
    ensures more ==> !InCapture(c, p, end)
  {
    begin, end, next := cursor, p.end, cursor;
    if begin >= end {
      more := false;
      return;
    }
    if p.blocks != {} {
      var bit, last := begin / c.block, (end + c.block - 1) / c.block;
      CeilAbove(begin, end, c.block);
      while bit < last && bit !in p.blocks
        invariant cursor / c.block <= bit <= last
        invariant forall k :: cursor / c.block <= k < bit ==> k !in p.blocks
      {
        bit := bit + 1;
      }
      forall i: nat | cursor <= i < p.end && i / c.block < bit ensures !InCapture(c, p, i) {
        DivLe(cursor, i, c.block);
      }
      if bit == last {
        forall i: nat | cursor <= i < p.end ensures !InCapture(c, p, i) {
          CeilAbove(i, p.end, c.block);
        }
        next, more := end, false;
        return;
      }
      ghost var low := bit;
      ScannedBlock(cursor, bit, c.block);
      if begin < bit * c.block {
        begin := bit * c.block;
        BlockOf(begin, bit, c.block);
      }
      assert begin / c.block == bit by {
        BlockBounds(begin, c.block);
        DivLe(cursor, begin, c.block);
      }
      forall i: nat | cursor <= i < begin ensures i / c.block < low || i < cursor {
        ScannedBlock(i, low, c.block);
      }
      while bit < last && bit in p.blocks
        invariant low <= bit <= last && (bit == low ==> bit < last && bit in p.blocks)
        invariant forall k :: low <= k < bit ==> k in p.blocks
      {
        bit := bit + 1;
      }
      BlockStartsBelow(low, p.end, c.block);
      ScannedBlock(begin, bit, c.block);
      if end > bit * c.block {
        end := bit * c.block;
        BlockOf(end, bit, c.block);
        ScanStopped(c, p.end, bit, last);
      }
      forall i: nat | begin <= i < end ensures InCapture(c, p, i) {
        DivLe(begin, i, c.block);
        ScannedBlock(i, bit, c.block);
      }
    }
    next, more := end, true;
  }

  lemma ScanStopped(c: Config, end: nat, bit: nat, last: nat)
    requires c.block > 0 && last == (end + c.block - 1) / c.block && bit <= last && bit * c.block < end
    ensures bit < last
  {
    ScannedBlock(bit * c.block, bit, c.block);
    BlockOf(bit * c.block, bit, c.block);
    CeilAbove(bit * c.block, end, c.block);
  }

  // ---------------------------------------------------------------- all ranges of one capture

  /** Ordered, disjoint and separated ranges inside [lo, hi). */
  ghost predicate Ordered(rs: seq<(nat, nat)>, lo: nat, hi: nat) {
    && (forall k :: 0 <= k < |rs| ==> lo <= rs[k].0 < rs[k].1 <= hi)
    && (forall j, k :: 0 <= j < k < |rs| ==> rs[j].1 < rs[k].0)
  }

  ghost predicate InRanges(rs: seq<(nat, nat)>, i: nat) {
    exists k :: 0 <= k < |rs| && rs[k].0 <= i < rs[k].1
  }

  /** The ranges of one captured page: ordered, separated by bytes that were not captured, and together
      exactly the captured bytes. */
  method Ranges(c: Config, p: Prepared) returns (rs: seq<(nat, nat)>)
    requires PreparedOk(c, p)
    ensures Ordered(rs, p.begin, p.end)
    ensures forall i: nat :: InRanges(rs, i) <==> InCapture(c, p, i)
  {
    hide InCapture;
    rs := [];
    var cursor := p.begin;
    assert forall i: nat :: InCapture(c, p, i) ==> p.begin <= i < p.end by {
      forall i: nat | InCapture(c, p, i) ensures p.begin <= i < p.end { CapturedWithin(c, p, i); }
    }
    while true
      invariant p.begin <= cursor <= p.end
      invariant Ordered(rs, p.begin, cursor)
      invariant forall i: nat :: i < cursor ==> (InRanges(rs, i) <==> InCapture(c, p, i))
      invariant rs != [] ==> rs[|rs| - 1].1 == cursor && !InCapture(c, p, cursor)
      decreases p.end - cursor
    {
      var more, begin, end, next := NextRange(c, p, cursor);
      if !more {
        break;
      }
      assert begin != cursor || InCapture(c, p, cursor);
      ExtendRanges(rs, begin, end, cursor);
      rs, cursor := rs + [(begin, end)], next;
    }
  }

  lemma CapturedWithin(c: Config, p: Prepared, i: nat)
    requires c.block > 0 && InCapture(c, p, i)
    ensures p.begin <= i < p.end
  {}

  lemma ExtendRanges(rs: seq<(nat, nat)>, begin: nat, end: nat, cursor: nat)
    requires (forall k :: 0 <= k < |rs| ==> rs[k].1 <= cursor) && cursor <= begin < end
    ensures forall i: nat :: InRanges(rs + [(begin, end)], i) <==> InRanges(rs, i) || begin <= i < end
    ensures forall i: nat :: i >= cursor ==> !InRanges(rs, i)
  {
    var t := rs + [(begin, end)];
    forall i: nat ensures InRanges(t, i) <==> InRanges(rs, i) || begin <= i < end {
      if InRanges(rs, i) {
        var k :| 0 <= k < |rs| && rs[k].0 <= i < rs[k].1;
        assert t[k] == rs[k];
      }
      if begin <= i < end {
        assert t[|rs|] == (begin, end);
      }
    }
  }

  // ---------------------------------------------------------------- the stable copy

  /** Some captured byte below the cursor shares the block of byte i. */
  ghost predicate CopiedBelow(c: Config, p: Prepared, cursor: nat, i: nat)
    requires c.block > 0
  {
    exists j: nat :: j < cursor && InCapture(c, p, j) && j / c.block == i / c.block
  }

  lemma CopyStep(c: Config, p: Prepared, cursor: nat, begin: nat, end: nat, i: nat)
    requires ConfigOk(c) && cursor <= begin < end <= PAGE
    requires forall j: nat :: cursor <= j < begin ==> !InCapture(c, p, j)
    requires forall j: nat :: begin <= j < end ==> InCapture(c, p, j)
    ensures var m := c.block;
            CopiedBelow(c, p, end, i) <==> CopiedBelow(c, p, cursor, i) || begin / m * m <= i < (end + m - 1) / m * m
  {
    var m := c.block;
    var first, last := begin / m * m, (end + m - 1) / m * m;
    hide InCapture;
    ScannedBlock(i, begin / m, m);
    ScannedBlock(i, (end + m - 1) / m, m);
    BlockBounds(i, m);
    if first <= i < last {
      var j := if i / m * m < begin then begin else i / m * m;
      BlockStartsBelow(i / m, end, m);
      if i / m * m < begin {
        ScannedBlock(begin, i / m, m);
        BlockStartsBelow(i / m, begin + 1, m);
      } else {
        BlockOf(j, i / m, m);
      }
      assert InCapture(c, p, j);
    }
    forall j: nat | begin <= j < end ensures begin / m <= j / m < (end + m - 1) / m {
      DivLe(begin, j, m);
      CeilAbove(j, end, m);
    }
  }

  /** memcpy and memset of one range's blocks. */
  method CopyBlocks(data: seq<int>, stable: array<int>, first: nat, last: nat, valid: nat)
    requires |data| == PAGE && stable.Length == PAGE && first <= last <= PAGE && first <= valid <= PAGE
    modifies stable
    ensures forall i ::
              0 <= i < PAGE ==> stable[i] == if first <= i < last then Snapshot(data, valid)[i] else old(stable[i])
  {
    var copyEnd := if last < valid then last else valid;
    forall i | first <= i < copyEnd {
      stable[i] := data[i];
    }
    forall i | copyEnd <= i < last {
      stable[i] := 0;
    }
  }

  /** One captured range: the blocks it touches are copied. */
  method CopyRange(c: Config, p: Prepared, data: seq<int>, stable: array<int>, begin: nat, end: nat, ghost cursor: nat,
                   ghost was: seq<int>)
    requires PreparedOk(c, p) && |data| == PAGE && stable.Length == PAGE && |was| == PAGE
    requires p.valid <= PAGE && cursor <= begin < end <= p.end <= p.valid
    requires forall j: nat :: cursor <= j < begin ==> !InCapture(c, p, j)
    requires forall j: nat :: begin <= j < end ==> InCapture(c, p, j)
    requires forall i ::
              0 <= i < PAGE ==> stable[i] == if CopiedBelow(c, p, cursor, i) then Snapshot(data, p.valid)[i] else was[i]
    modifies stable
    ensures forall i ::
              0 <= i < PAGE ==> stable[i] == if CopiedBelow(c, p, end, i) then Snapshot(data, p.valid)[i] else was[i]
  {
    hide *;
    PreparedBounds(c, p);
    SnapshotLength(data, p.valid);
    var first, last := begin / c.block * c.block, (end + c.block - 1) / c.block * c.block;
    RoundBounds(c, begin, end);
    ghost var m, snap := c.block, Snapshot(data, p.valid);
    forall i: nat ensures CopiedBelow(c, p, end, i) <==> CopiedBelow(c, p, cursor, i) || first <= i < last {
      CopyStep(c, p, cursor, begin, end, i);
    }
    ghost var f, l := first, last;
    CopyBlocks(data, stable, first, last, p.valid);
    assert forall i :: 0 <= i < PAGE ==> stable[i] == if f <= i < l then snap[i] else old(stable[i]);
  }

  /** The copy in `capture_writeback`: the stable version holds the page's valid bytes, zero behind EOF, in
      every block that a captured byte lies in; other bytes of the version are left alone. */
  method CopySnapshot(c: Config, p: Prepared, data: seq<int>, stable: array<int>)
    requires PreparedOk(c, p) && |data| == PAGE && stable.Length == PAGE
    requires p.valid <= PAGE && (p.begin < p.end ==> p.end <= p.valid)
    modifies stable
    ensures forall i :: 0 <= i < PAGE ==>
              stable[i] == if InSource(c, p, i) then Snapshot(data, p.valid)[i] else old(stable[i])
  {
    hide *;
    ghost var was := stable[..];
    SnapshotLength(data, p.valid);
    PreparedBounds(c, p);
    var cursor := p.begin;
    forall i: nat ensures !CopiedBelow(c, p, p.begin, i) { NothingBelow(c, p, i); }
    while true
      invariant p.begin <= cursor <= p.end && |was| == PAGE
      invariant forall i :: 0 <= i < PAGE ==>
                  stable[i] == if CopiedBelow(c, p, cursor, i) then Snapshot(data, p.valid)[i] else was[i]
      decreases p.end - cursor
    {
      var more, begin, end, next := NextRange(c, p, cursor);
      if !more {
        assert forall i :: cursor <= i < p.end ==> !InCapture(c, p, i);
        break;
      }
      CopyRange(c, p, data, stable, begin, end, cursor, was);
      cursor := next;
    }
    forall i: nat ensures CopiedBelow(c, p, cursor, i) <==> InSource(c, p, i) { AllCopied(c, p, cursor, i); }
  }

  lemma SnapshotLength(data: seq<int>, valid: nat)
    ensures |Snapshot(data, valid)| == |data|
  {}

  lemma PreparedBounds(c: Config, p: Prepared)
    requires PreparedOk(c, p)
    ensures c.block > 0 && p.begin <= p.end <= PAGE && ConfigOk(c)
  {}

  lemma NothingBelow(c: Config, p: Prepared, i: nat)
    requires c.block > 0
    ensures !CopiedBelow(c, p, p.begin, i)
  {}

  lemma AllCopied(c: Config, p: Prepared, cursor: nat, i: nat)
    requires c.block > 0 && cursor <= p.end && forall j :: cursor <= j < p.end ==> !InCapture(c, p, j)
    ensures CopiedBelow(c, p, cursor, i) <==> InSource(c, p, i)
  {}

  lemma RoundBounds(c: Config, begin: nat, end: nat)
    requires ConfigOk(c) && begin < end <= PAGE
    ensures begin / c.block * c.block <= begin
    ensures begin / c.block * c.block <= (end + c.block - 1) / c.block * c.block <= PAGE
  {
    var m := c.block;
    BlockBounds(begin, m);
    BlockBounds(end + m - 1, m);
    DivLe(end + m - 1, PAGE + m - 1, m);
    PageBlocks(m);
    BlockBounds(PAGE, m);
    MulLe((end + m - 1) / m, PAGE / m, m);
  }

  // ---------------------------------------------------------------- completion

  /** The scan of the remaining mask in `complete_writeback`. */
  method ScanLeft(left: set<nat>, n: nat) returns (first: nat, last: nat)
    requires left != {} && forall k :: k in left ==> k < n
    ensures first == FirstFrom(left, 0, n) && last == LastBelow(left, n)
  {
    ghost var x :| x in left;
    first := 0;
    while first !in left
      invariant forall k :: k in left ==> first <= k
      decreases n - first
    {
      first := first + 1;
    }
    last := first + 1;
    while exists k :: k in left && k >= last
      invariant first < last <= n && last - 1 >= first
      invariant exists k :: k in left && k >= last - 1
      decreases n - last
    {
      last := last + 1;
    }
    FirstFromIs(left, 0, n);
    LastBelowIs(left, n);
  }

  /** `complete_writeback` on the dirty region, after a submission that succeeded with the generation
      unchanged: every dirty byte that was not captured stays dirty. */
  method CompleteRegion(c: Config, d: Dirty, p: Prepared) returns (r: Dirty)
    requires ConfigOk(c) && DirtyOk(c, d) && Matches(c, d, p)
    ensures r == Cleared(c, d, p) && DirtyOk(c, r)
    ensures forall i: nat :: DirtyAt(c, d, i) && !InCapture(c, p, i) ==> DirtyAt(c, r, i)
  {
    if p.blocks != {} {
      var covered := p.blocks;
      if p.end < d.end && p.end % c.block != 0 {
        covered := covered - {p.end / c.block};
      }
      var left := d.blocks * BlockRange(c.block, d.begin, d.end);
      left := left - covered;
      if left == {} {
        r := CLEAN;
      } else {
        var first, last := ScanLeft(left, PAGE / c.block);
        r := Dirty(if d.begin < first * c.block then first * c.block else d.begin,
                   if d.end > last * c.block then last * c.block else d.end, left);
      }
    } else if p.end == d.end {
      r := CLEAN;
    } else {
      r := Dirty(p.end, d.end, d.blocks);
    }
    ClearedOk(c, d, p);
    forall i: nat | DirtyAt(c, d, i) && !InCapture(c, p, i) ensures DirtyAt(c, r, i) {
      if !DirtyAt(c, Cleared(c, d, p), i) {
        ClearedWasCaptured(c, d, p, i);
      }
    }
  }
}
