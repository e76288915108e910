/** The per-page writeback protocol of fs/page_cache.c: one step per lock scope, any interleaving.
    A page's bytes are stored by write borrows, by one write or resize operation at a time under the
    inode's I/O lock, and are copied to a snapshot that is submitted while new writers run. */
module Writeback {
  import opened Arithmetic
  import opened Pages

  /** `writeback_block_size`, and whether per-block dirty bits are kept (`dirty_block_size` is not 0). */
  datatype Config = Config(block: nat, blockMode: bool)

  ghost predicate ConfigOk(c: Config) {
    0 < c.block <= PAGE && PAGE % c.block == 0 && (c.blockMode ==> c.block < PAGE && PAGE / c.block <= 64)
  }

  /** dirty_begin, dirty_end and dirty_blocks; end is 0 when the page is clean. */
  datatype Dirty = Dirty(begin: nat, end: nat, blocks: set<nat>)

  const CLEAN := Dirty(0, 0, {})

  /** struct prepared_writeback after capture. */
  datatype Prepared = Prepared(begin: nat, end: nat, blocks: set<nat>, gen: nat, valid: nat)

  datatype Phase =
    | Idle
    | Selected
    | Closing
    | Captured(p: Prepared)
    | Copied(p: Prepared, snap: seq<int>)
    | Open(p: Prepared, snap: seq<int>, done: set<nat>)
    | Finished(p: Prepared, snap: seq<int>, done: set<nat>, ok: bool)

  /** The operation that holds the inode's I/O lock for writing. */
  datatype Operation =
    | NoOp
    | Write(start: nat, count: nat, marked: bool)
    | HoleWrite(start: nat, count: nat, applied: bool, marked: bool)
    | Resize(target: nat, was: nat, sized: bool, applied: bool)

  datatype Token = NoToken | Draining | Held

  datatype Page = Page(
    data: seq<int>,               // the cached page
    disk: seq<int>,               // the backend's view of the same bytes, zero behind EOF
    valid: nat,                   // entry_valid_bytes
    dirty: Dirty,
    gen: nat,
    writers: map<nat, set<nat>>,  // live write borrows, and the bytes each has stored
    closed: bool,                 // CACHE_WRITES_CLOSED
    entryClosed: bool,            // CACHE_ENTRY_CLOSED
    wb: Phase,
    token: Token,                 // the resize token of this entry
    op: Operation,
    retired: bool)

  // ---------------------------------------------------------------- dirty region

  function Span(lo: nat, hi: nat): (r: set<nat>)
    ensures forall k :: k in r <==> lo <= k < hi
    decreases hi - lo
  {
    if lo >= hi then {} else {lo} + Span(lo + 1, hi)
  }

  /** `dirty_block_range` as a set of block numbers. */
  function BlockRange(block: nat, begin: nat, end: nat): set<nat>
    requires block > 0
  {
    if begin >= end then {} else Span(begin / block, (end + block - 1) / block)
  }

  predicate DirtyAt(c: Config, d: Dirty, i: nat)
    requires c.block > 0
  {
    d.begin <= i < d.end && (c.blockMode ==> i / c.block in d.blocks)
  }

  ghost predicate DirtyOk(c: Config, d: Dirty)
    requires c.block > 0
  {
    && d.end <= PAGE
    && (d.end == 0 ==> d == CLEAN)
    && (d.end > 0 ==> d.begin < d.end && (c.blockMode ==> d.begin / c.block in d.blocks))
    && (c.blockMode ==> forall k :: k in d.blocks ==> k < PAGE / c.block)
  }

  /** `dirty_mark`; the caller counts the generation. */
  function Mark(c: Config, d: Dirty, begin: nat, end: nat): Dirty
    requires c.block > 0
  {
    Dirty(if d.end == 0 || begin < d.begin then begin else d.begin,
          if end > d.end then end else d.end,
          if c.blockMode then d.blocks + BlockRange(c.block, begin, end) else d.blocks)
  }

  /** The lowest block of B from k on, scanning upwards as the source does. */
  function FirstFrom(B: set<nat>, k: nat, n: nat): nat
    decreases n - k
  {
    if k >= n || k in B then k else FirstFrom(B, k + 1, n)
  }

  /** One more than the highest block of B below n. */
  function LastBelow(B: set<nat>, n: nat): nat {
    if n == 0 || n - 1 in B then n else LastBelow(B, n - 1)
  }

  /** What `complete_writeback` leaves of the dirty region when the submission succeeded and the generation
      is unchanged. */
  function Cleared(c: Config, d: Dirty, p: Prepared): Dirty
    requires c.block > 0
  {
    if c.blockMode && p.blocks != {} then
      var covered := if p.end < d.end && p.end % c.block != 0 then p.blocks - {p.end / c.block} else p.blocks;
      var left := (d.blocks * BlockRange(c.block, d.begin, d.end)) - covered;
      if left == {} then CLEAN
      else
        var n := PAGE / c.block;
        var first, last := FirstFrom(left, 0, n) * c.block, LastBelow(left, n) * c.block;
        Dirty(if d.begin < first then first else d.begin, if d.end > last then last else d.end, left)
    else if p.end == d.end then CLEAN
    else d.(begin := p.end)
  }

  // ---------------------------------------------------------------- captured ranges

  /** Bytes that `next_writeback_range` yields from the captured range. */
  predicate InCapture(c: Config, p: Prepared, i: nat)
    requires c.block > 0
  {
    p.begin <= i < p.end && (c.blockMode && p.blocks != {} ==> i / c.block in p.blocks)
  }

  /** Bytes of the block-aligned source buffers handed to the backend. */
  predicate InSource(c: Config, p: Prepared, i: nat)
    requires c.block > 0
  {
    exists j: nat :: j < p.end && InCapture(c, p, j) && j / c.block == i / c.block
  }

  function Snapshot(data: seq<int>, valid: nat): seq<int> {
    seq(|data|, i requires 0 <= i < |data| => if i < valid then data[i] else 0)
  }

  function Zeroed(s: seq<int>, lo: nat, hi: nat): seq<int> {
    seq(|s|, i requires 0 <= i < |s| => if lo <= i < hi then 0 else s[i])
  }

  function Overwritten(s: seq<int>, t: seq<int>, at: set<nat>): seq<int> {
    seq(|s|, i requires 0 <= i < |s| => if i in at && i < |t| then t[i] else s[i])
  }

  // ---------------------------------------------------------------- steps

  datatype Event =
    | BeginWrite(id: nat)                        // writer_begin
    | Store(id: nat, at: nat, byte: int)
    | EndWrite(id: nat, begin: nat, end: nat)    // dirty_mark and writer_end_locked
    | MarkWrite(id: nat, begin: nat, end: nat)   // dirty_mark alone, as kernel_page_cache_alias_mark_dirty does
    | EndBorrow(id: nat)                         // writer_end_locked alone
    | WriteOpen(start: nat, count: nat)          // I/O lock and writer_begin of a file write
    | WriteStore(at: nat, byte: int)
    | WriteApply                                 // resize_apply over the hole before the write
    | WriteMark                                  // dirty_mark and writer_end_locked
    | WriteSize                                  // kernel_vfs_node_written, I/O lock released
    | TokenClose                                 // kernel_page_cache_resize_prepare, first scope
    | TokenAbort
    | TokenReady
    | TokenRelease                               // kernel_page_cache_resize_finish
    | ResizeOpen(target: nat)
    | ResizeSize                                 // backend and node size
    | ResizeApply                                // resize_apply
    | ResizeClose
    | GrowFromEmpty(target: nat)                 // EOF moves into or past a page that lay behind it
    | Select                                     // prepare_writeback, selection scope
    | Unselect
    | Close(background: bool)                    // prepare_writeback, closing scope
    | Unclose
    | Capture(limit: nat)                        // capture_writeback, first scope, under the I/O lock for reading
    | Copy
    | Reopen                                     // capture_writeback, last scope
    | Submit(written: set<nat>)                  // any part of a submission
    | Finish(ok: bool)                           // submission result, I/O lock released
    | Complete                                   // complete_writeback
    | Reclaim
    | TruncateAway                               // kernel_page_cache_truncate

  /** The writeback run holds the I/O lock for reading. */
  predicate Reading(w: Phase) {
    w.Captured? || w.Copied? || w.Open?
  }

  /** The borrow count in entry->writes is zero. */
  predicate NoWriters(s: Page) {
    s.writers == map[] && !(s.op.Write? && !s.op.marked)
  }

  predicate Admits(s: Page) {
    !s.closed && !s.entryClosed
  }

  function CapturedRange(c: Config, s: Page, limit: nat): Prepared
    requires c.block > 0
  {
    var begin := if s.retired then 0 else s.dirty.begin;
    var stop := if s.retired then 0 else Min(s.dirty.end, Min(s.valid, limit));
    var end := if stop < begin then begin else stop;
    Prepared(begin, end, if c.blockMode then s.dirty.blocks * BlockRange(c.block, begin, end) else {}, s.gen, s.valid)
  }

  predicate Enabled(c: Config, s: Page, ev: Event)
    requires c.block > 0
  {
    match ev
    case BeginWrite(id) => Admits(s) && id !in s.writers && s.valid > 0 && !s.retired
    case Store(id, at, _) => id in s.writers && at < PAGE
    case EndWrite(id, begin, end) => id in s.writers && begin < end <= PAGE
        && forall i :: i in s.writers[id] ==> begin <= i < end
    case MarkWrite(id, begin, end) => id in s.writers && begin < end <= PAGE
    case EndBorrow(id) => id in s.writers && forall i :: i in s.writers[id] ==> i >= s.valid
    case WriteOpen(start, count) =>
      && s.op.NoOp? && !Reading(s.wb) && !s.retired && 0 < count && start + count <= PAGE
      && (if start <= s.valid || s.valid == 0 then Admits(s) else s.token.Held?)
    case WriteStore(at, _) => (s.op.Write? || s.op.HoleWrite?) && !s.op.marked
        && s.op.start <= at < s.op.start + s.op.count
    case WriteApply => s.op.HoleWrite? && !s.op.applied
    case WriteMark => (s.op.Write? || (s.op.HoleWrite? && s.op.applied)) && !s.op.marked
    case WriteSize => (s.op.Write? || s.op.HoleWrite?) && s.op.marked
    case TokenClose => s.wb.Idle? && Admits(s) && s.token.NoToken?
    case TokenAbort => s.token.Draining?
    case TokenReady => s.token.Draining? && NoWriters(s)
    case TokenRelease => s.token.Held? && s.op.NoOp?
    case ResizeOpen(target) => s.op.NoOp? && s.token.Held? && !s.retired && target <= PAGE && target != s.valid
                               && 0 < Min(s.valid, target) < PAGE
    case ResizeSize => s.op.Resize? && !s.op.sized
    case ResizeApply => s.op.Resize? && !s.op.applied
    case ResizeClose => s.op.Resize? && s.op.sized == s.op.applied
    case GrowFromEmpty(target) => s.op.NoOp? && !Reading(s.wb) && s.valid == 0 && target <= PAGE && !s.retired
    case Select => s.wb.Idle? && !s.retired && s.dirty.end > 0 && !s.closed
    case Unselect => s.wb.Selected?
    case Close(background) => s.wb.Selected? && (background ==> NoWriters(s) && Admits(s))
    case Unclose => s.wb.Closing?
    case Capture(limit) => s.wb.Closing? && NoWriters(s) && s.op.NoOp?
    case Copy => s.wb.Captured?
    case Reopen => s.wb.Copied?
    case Submit(written) => s.wb.Open? && forall i :: i in written ==> i < PAGE && InSource(c, s.wb.p, i)
    case Finish(ok) => s.wb.Open?
        && (ok ==> forall i: nat :: i < s.wb.p.end && InCapture(c, s.wb.p, i) ==> i in s.wb.done)
    case Complete => s.wb.Finished?
    case Reclaim => !s.retired && s.dirty.end == 0 && NoWriters(s) && s.op.NoOp? && s.wb.Idle? && s.token.NoToken?
    case TruncateAway => !s.retired && s.op.NoOp? && !Reading(s.wb)
  }

  function Step(c: Config, s: Page, ev: Event): Page
    requires c.block > 0
  {
    if !Enabled(c, s, ev) then s else
    match ev
    case BeginWrite(id) => s.(writers := s.writers[id := {}])
    case Store(id, at, byte) =>
      if at < |s.data| then s.(data := s.data[at := byte], writers := s.writers[id := s.writers[id] + {at}]) else s
    case EndWrite(id, begin, end) =>
      s.(writers := s.writers - {id},
         dirty := if s.retired then s.dirty else Mark(c, s.dirty, begin, end), gen := s.gen + 1)
    case MarkWrite(id, begin, end) =>
      s.(writers := s.writers[id := s.writers[id] - Span(begin, end)],
         dirty := if s.retired then s.dirty else Mark(c, s.dirty, begin, end), gen := s.gen + 1)
    case EndBorrow(id) => s.(writers := s.writers - {id})
    case WriteOpen(start, count) =>
      s.(op := if start <= s.valid || s.valid == 0
               then Write(start, count, false)
               else HoleWrite(start, count, false, false))
    case WriteStore(at, byte) => if at < |s.data| then s.(data := s.data[at := byte]) else s
    case WriteApply =>
      s.(data := Zeroed(s.data, s.valid, s.op.start),
         gen := s.gen + 1,
         op := HoleWrite(s.op.start, s.op.count, true, s.op.marked))
    case WriteMark =>
      s.(dirty := if s.retired then s.dirty else Mark(c, s.dirty, s.op.start, s.op.start + s.op.count),
         gen := s.gen + 1,
         op := if s.op.Write? then Write(s.op.start, s.op.count, true)
             else HoleWrite(s.op.start, s.op.count, s.op.applied, true))
    case WriteSize =>
      var end := s.op.start + s.op.count;
      s.(valid := if end > s.valid then end else s.valid, op := NoOp)
    case TokenClose => s.(closed := true, entryClosed := true, token := Draining)
    case TokenAbort => s.(closed := false, entryClosed := false, token := NoToken)
    case TokenReady => s.(token := Held)
    case TokenRelease => s.(closed := false, entryClosed := false, token := NoToken)
    case ResizeOpen(target) => s.(op := Resize(target, s.valid, false, false))
    case ResizeSize =>
      s.(disk := Zeroed(s.disk, s.op.target, |s.disk|), valid := s.op.target,
         op := Resize(s.op.target, s.op.was, true, s.op.applied))
    case ResizeApply =>
      var boundary := Min(s.op.was, s.op.target);
      var end := if s.op.target < s.op.was then |s.data| else s.op.target;
      var clipped := if s.op.target < s.op.was && s.dirty.end > boundary then s.dirty.(end := boundary) else s.dirty;
      s.(data := Zeroed(s.data, boundary, end),
         dirty := if clipped.end != 0 && clipped.begin >= clipped.end then CLEAN else clipped,
         gen := s.gen + 1, op := Resize(s.op.target, s.op.was, s.op.sized, true))
    case ResizeClose => s.(op := NoOp)
    case GrowFromEmpty(target) => s.(valid := target)
    case Select => s.(wb := Selected)
    case Unselect => s.(wb := Idle)
    case Close(_) => s.(wb := Closing, closed := true)
    case Unclose => s.(wb := Idle, closed := false)
    case Capture(limit) => s.(wb := Captured(CapturedRange(c, s, limit)))
    case Copy => s.(wb := Copied(s.wb.p, Snapshot(s.data, s.wb.p.valid)))
    case Reopen => s.(wb := Open(s.wb.p, s.wb.snap, {}), closed := false)
    case Submit(written) =>
      s.(disk := Overwritten(s.disk, s.wb.snap, written), wb := Open(s.wb.p, s.wb.snap, s.wb.done + written))
    case Finish(ok) => s.(wb := Finished(s.wb.p, s.wb.snap, s.wb.done, ok))
    case Complete =>
      s.(wb := Idle,
         dirty := if s.wb.ok && !s.retired && s.wb.p.gen == s.gen then Cleared(c, s.dirty, s.wb.p) else s.dirty)
    case Reclaim => s.(retired := true)
    case TruncateAway => s.(retired := true, dirty := CLEAN, valid := 0, disk := Zeroed(s.disk, 0, |s.disk|))
  }
}
