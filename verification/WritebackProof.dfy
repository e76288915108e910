/** No accepted write is lost by writeback: the invariant of the protocol in Writeback, kept by every
    step and hence by every run. */
module WritebackProof {
  import opened Arithmetic
  import opened Pages
  import opened Writeback
  import opened WritebackDirty

  /** Byte i is being changed right now, by a live borrow or by the operation holding the I/O lock. */
  ghost predicate Transit(s: Page, i: nat) {
    || (exists id :: id in s.writers && i in s.writers[id])
    || (s.op.Write? && !s.op.marked && s.op.start <= i < s.op.start + s.op.count)
    || (s.op.Resize? && s.op.sized != s.op.applied && i >= Min(s.op.was, s.op.target))
  }

  ghost predicate ShapeOk(c: Config, s: Page) {
    && ConfigOk(c) && |s.data| == PAGE && |s.disk| == PAGE && s.valid <= PAGE && DirtyOk(c, s.dirty)
    && (forall i :: s.valid <= i < PAGE ==> s.disk[i] == 0)
  }

  /** Who may store into the page, and when. */
  ghost predicate GateOk(s: Page) {
    && (s.entryClosed <==> !s.token.NoToken?)
    && (s.closed <==> s.entryClosed || s.wb.Closing? || s.wb.Captured? || s.wb.Copied?)
    && (s.entryClosed ==> s.wb.Idle?)
    && (s.token.Held? || s.wb.Captured? || s.wb.Copied? ==> NoWriters(s))
    && (Reading(s.wb) ==> s.op.NoOp?)
    && (s.op.HoleWrite? || s.op.Resize? ==> s.token.Held?)
    && (!s.op.NoOp? ==> !s.retired)
    && (s.valid == 0 && !s.retired ==> s.writers == map[])
  }

  ghost predicate OperationOk(c: Config, s: Page)
    requires c.block > 0 && |s.data| == PAGE && |s.disk| == PAGE
  {
    match s.op
    case NoOp => true
    case Write(start, count, marked) =>
      && 0 < count && start + count <= PAGE && (start <= s.valid || s.valid == 0)
      && (marked ==> forall i :: start <= i < start + count ==> DirtyAt(c, s.dirty, i))
    case HoleWrite(start, count, applied, marked) =>
      && 0 < count && start + count <= PAGE && 0 < s.valid < start
      && (applied ==> forall i :: s.valid <= i < start ==> s.data[i] == 0)
      && (marked ==> applied && forall i :: start <= i < start + count ==> DirtyAt(c, s.dirty, i))
    case Resize(target, was, sized, applied) =>
      && target <= PAGE && was <= PAGE && target != was && 0 < Min(was, target) < PAGE
      && s.valid == (if sized then target else was)
      && (was < target ==> forall i :: was <= i < PAGE ==> s.disk[i] == 0)
      && (applied ==> forall i :: Min(was, target) <= i < (if target < was then PAGE else target) ==> s.data[i] == 0)
  }

  ghost predicate HasRange(w: Phase) {
    w.Captured? || w.Copied? || w.Open? || w.Finished?
  }

  ghost predicate RangeOk(c: Config, s: Page)
    requires c.block > 0
  {
    HasRange(s.wb) ==>
      && s.wb.p.begin <= s.wb.p.end <= PAGE && s.wb.p.gen <= s.gen
      && (s.wb.p.gen == s.gen && !s.retired ==> Matches(c, s.dirty, s.wb.p))
      && (Reading(s.wb) ==> s.wb.p.valid == s.valid)
      && (s.wb.p.begin < s.wb.p.end && Reading(s.wb) ==> s.wb.p.end <= s.valid)
      && ((s.op.Write? || s.op.HoleWrite?) && s.op.marked ==> s.wb.p.gen < s.gen)
  }

  ghost predicate SnapOk(c: Config, s: Page)
    requires c.block > 0 && |s.data| == PAGE && |s.disk| == PAGE
  {
    && (s.wb.Copied? ==> s.wb.snap == Snapshot(s.data, s.valid))
    && (s.wb.Open? ==>
          && |s.wb.snap| == PAGE && (forall i :: s.valid <= i < PAGE ==> s.wb.snap[i] == 0)
          && (forall i :: i in s.wb.done ==> i < PAGE && s.disk[i] == s.wb.snap[i])
          && (!s.retired ==> forall i :: 0 <= i < PAGE && i < s.valid ==>
                s.data[i] == s.wb.snap[i] || Transit(s, i) || (s.wb.p.gen < s.gen && DirtyAt(c, s.dirty, i))))
    && (s.wb.Finished? && s.wb.ok && s.wb.p.gen == s.gen && !s.retired ==>
          forall i: nat ::
              i < PAGE && i < s.valid && i < s.wb.p.end && InCapture(c, s.wb.p, i) ==>
                  s.data[i] == s.disk[i] || Transit(s, i))
  }

  /** Where page and backend differ, the byte is dirty or in transit. */
  ghost predicate Covered(c: Config, s: Page)
    requires c.block > 0 && |s.data| == PAGE && |s.disk| == PAGE
  {
    && (!s.retired ==>
       forall i :: 0 <= i < s.valid && i < PAGE ==> s.data[i] == s.disk[i] || DirtyAt(c, s.dirty, i) || Transit(s, i))
    && (!s.retired && s.valid == 0 ==>
          forall i :: 0 <= i < PAGE ==> s.data[i] == 0 || (s.op.Write? && s.op.start <= i < s.op.start + s.op.count))
  }

  ghost predicate Inv(c: Config, s: Page) {
    ShapeOk(c, s) && GateOk(s) && OperationOk(c, s) && RangeOk(c, s) && SnapOk(c, s) && Covered(c, s)
  }

  // ---------------------------------------------------------------- write borrows

  lemma BeginWriteKeeps(c: Config, s: Page, id: nat)
    requires Inv(c, s) && Enabled(c, s, BeginWrite(id))
    ensures Inv(c, Step(c, s, BeginWrite(id)))
  {
    var t := Step(c, s, BeginWrite(id));
    assert forall i :: Transit(s, i) ==> Transit(t, i) by {
      forall i | Transit(s, i) ensures Transit(t, i) {
        if w :| w in s.writers && i in s.writers[w] {
          assert w in t.writers && i in t.writers[w];
        }
      }
    }
  }

  lemma StoreKeeps(c: Config, s: Page, id: nat, at: nat, byte: int)
    requires Inv(c, s) && Enabled(c, s, Store(id, at, byte))
    ensures Inv(c, Step(c, s, Store(id, at, byte)))
  {
    var t := Step(c, s, Store(id, at, byte));
    assert at in t.writers[id];
    forall i | Transit(s, i) ensures Transit(t, i) {
      if w :| w in s.writers && i in s.writers[w] {
        assert w in t.writers && i in t.writers[w];
      }
    }
  }

  lemma EndWriteKeeps(c: Config, s: Page, id: nat, begin: nat, end: nat)
    requires Inv(c, s) && Enabled(c, s, EndWrite(id, begin, end))
    ensures Inv(c, Step(c, s, EndWrite(id, begin, end)))
  {
    var t := Step(c, s, EndWrite(id, begin, end));
    MarkOk(c, s.dirty, begin, end);
    forall i ensures DirtyAt(c, s.dirty, i) && !s.retired ==> DirtyAt(c, t.dirty, i) {
      if i >= 0 {
        MarkCovers(c, s.dirty, begin, end, i);
      }
    }
    forall i: nat | Transit(s, i) ensures Transit(t, i) || (begin <= i < end) {
      if w :| w in s.writers && i in s.writers[w] {
        if w != id {
          assert w in t.writers && i in t.writers[w];
        }
      }
    }
    forall i: nat | begin <= i < end ensures !s.retired ==> DirtyAt(c, t.dirty, i) {
      MarkCovers(c, s.dirty, begin, end, i);
    }
  }

  /** The mark in a scope of its own takes over the bytes stored so far. */
  lemma MarkWriteKeeps(c: Config, s: Page, id: nat, begin: nat, end: nat)
    requires Inv(c, s) && Enabled(c, s, MarkWrite(id, begin, end))
    ensures Inv(c, Step(c, s, MarkWrite(id, begin, end)))
  {
    var t := Step(c, s, MarkWrite(id, begin, end));
    MarkOk(c, s.dirty, begin, end);
    forall i ensures DirtyAt(c, s.dirty, i) && !s.retired ==> DirtyAt(c, t.dirty, i) {
      if i >= 0 {
        MarkCovers(c, s.dirty, begin, end, i);
      }
    }
    forall i: nat | Transit(s, i) ensures Transit(t, i) || (begin <= i < end) {
      if w :| w in s.writers && i in s.writers[w] {
        assert begin <= i < end || (w in t.writers && i in t.writers[w]);
      }
    }
    forall i: nat | begin <= i < end ensures !s.retired ==> DirtyAt(c, t.dirty, i) {
      MarkCovers(c, s.dirty, begin, end, i);
    }
  }

  /** A borrow ends once nothing it stored below the end of file is unmarked. */
  lemma EndBorrowKeeps(c: Config, s: Page, id: nat)
    requires Inv(c, s) && Enabled(c, s, EndBorrow(id))
    ensures Inv(c, Step(c, s, EndBorrow(id)))
  {
    var t := Step(c, s, EndBorrow(id));
    forall i: nat | Transit(s, i) && i < s.valid ensures Transit(t, i) {
      if w :| w in s.writers && i in s.writers[w] {
        assert w in t.writers && i in t.writers[w];
      }
    }
  }

  // ---------------------------------------------------------------- writes under the I/O lock

  lemma WriteOpenKeeps(c: Config, s: Page, start: nat, count: nat)
    requires Inv(c, s) && Enabled(c, s, WriteOpen(start, count))
    ensures Inv(c, Step(c, s, WriteOpen(start, count)))
  {
    var t := Step(c, s, WriteOpen(start, count));
    assert forall i :: Transit(s, i) ==> Transit(t, i);
  }

  lemma WriteStoreKeeps(c: Config, s: Page, at: nat, byte: int)
    requires Inv(c, s) && Enabled(c, s, WriteStore(at, byte))
    ensures Inv(c, Step(c, s, WriteStore(at, byte)))
  {
    var t := Step(c, s, WriteStore(at, byte));
    assert forall i :: Transit(s, i) ==> Transit(t, i);
  }

  lemma WriteApplyKeeps(c: Config, s: Page)
    requires Inv(c, s) && Enabled(c, s, WriteApply)
    ensures Inv(c, Step(c, s, WriteApply))
  {
    var t := Step(c, s, WriteApply);
    assert forall i :: Transit(s, i) ==> Transit(t, i);
  }

  lemma WriteMarkKeeps(c: Config, s: Page)
    requires Inv(c, s) && Enabled(c, s, WriteMark)
    ensures Inv(c, Step(c, s, WriteMark))
  {
    var t := Step(c, s, WriteMark);
    var begin, end := s.op.start, s.op.start + s.op.count;
    MarkOk(c, s.dirty, begin, end);
    forall i: nat ensures DirtyAt(c, s.dirty, i) ==> DirtyAt(c, t.dirty, i) {
      MarkCovers(c, s.dirty, begin, end, i);
    }
    forall i: nat | begin <= i < end ensures DirtyAt(c, t.dirty, i) {
      MarkCovers(c, s.dirty, begin, end, i);
    }
    assert forall i: nat :: Transit(s, i) ==> Transit(t, i) || begin <= i < end;
  }

  lemma WriteSizeKeeps(c: Config, s: Page)
    requires Inv(c, s) && Enabled(c, s, WriteSize)
    ensures Inv(c, Step(c, s, WriteSize))
  {
    var t := Step(c, s, WriteSize);
    assert forall i: nat :: Transit(s, i) ==> Transit(t, i);
  }

  // ---------------------------------------------------------------- resizes

  lemma TokenKeeps(c: Config, s: Page, ev: Event)
    requires Inv(c, s) && Enabled(c, s, ev)
    requires ev.TokenClose? || ev.TokenAbort? || ev.TokenReady? || ev.TokenRelease?
    ensures Inv(c, Step(c, s, ev))
  {
    var t := Step(c, s, ev);
    assert forall i: nat :: Transit(s, i) ==> Transit(t, i);
  }

  lemma ResizeOpenKeeps(c: Config, s: Page, target: nat)
    requires Inv(c, s) && Enabled(c, s, ResizeOpen(target))
    ensures Inv(c, Step(c, s, ResizeOpen(target)))
  {
    var t := Step(c, s, ResizeOpen(target));
    assert forall i: nat :: Transit(s, i) ==> Transit(t, i);
  }

  lemma ResizeSizeKeeps(c: Config, s: Page)
    requires Inv(c, s) && Enabled(c, s, ResizeSize)
    ensures Inv(c, Step(c, s, ResizeSize))
  {
    var t := Step(c, s, ResizeSize);
    var low := Min(s.op.was, s.op.target);
    assert forall i: nat :: i < low && Transit(s, i) ==> Transit(t, i);
  }

  lemma ResizeApplyKeeps(c: Config, s: Page)
    requires Inv(c, s) && Enabled(c, s, ResizeApply)
    ensures Inv(c, Step(c, s, ResizeApply))
  {
    var t := Step(c, s, ResizeApply);
    var low := Min(s.op.was, s.op.target);
    assert forall i: nat :: i < low && Transit(s, i) ==> Transit(t, i);
    assert forall i: nat :: i < low && DirtyAt(c, s.dirty, i) ==> DirtyAt(c, t.dirty, i);
  }

  lemma ResizeCloseKeeps(c: Config, s: Page)
    requires Inv(c, s) && Enabled(c, s, ResizeClose)
    ensures Inv(c, Step(c, s, ResizeClose))
  {
    var t := Step(c, s, ResizeClose);
    assert forall i: nat :: Transit(s, i) ==> Transit(t, i);
  }

  lemma GrowFromEmptyKeeps(c: Config, s: Page, target: nat)
    requires Inv(c, s) && Enabled(c, s, GrowFromEmpty(target))
    ensures Inv(c, Step(c, s, GrowFromEmpty(target)))
  {
    var t := Step(c, s, GrowFromEmpty(target));
    assert forall i: nat :: Transit(s, i) ==> Transit(t, i);
  }

  // ---------------------------------------------------------------- writeback

  lemma SelectionKeeps(c: Config, s: Page, ev: Event)
    requires Inv(c, s) && Enabled(c, s, ev)
    requires ev.Select? || ev.Unselect? || ev.Close? || ev.Unclose?
    ensures Inv(c, Step(c, s, ev))
  {
    var t := Step(c, s, ev);
    assert forall i: nat :: Transit(s, i) ==> Transit(t, i);
  }

  lemma CaptureKeeps(c: Config, s: Page, limit: nat)
    requires Inv(c, s) && Enabled(c, s, Capture(limit))
    ensures Inv(c, Step(c, s, Capture(limit)))
  {
    var t := Step(c, s, Capture(limit));
    assert forall i: nat :: Transit(s, i) ==> Transit(t, i);
  }

  lemma CopyKeeps(c: Config, s: Page)
    requires Inv(c, s) && Enabled(c, s, Copy)
    ensures Inv(c, Step(c, s, Copy))
  {
    var t := Step(c, s, Copy);
    assert forall i: nat :: Transit(s, i) ==> Transit(t, i);
  }

  lemma ReopenKeeps(c: Config, s: Page)
    requires Inv(c, s) && Enabled(c, s, Reopen)
    ensures Inv(c, Step(c, s, Reopen))
  {
    var t := Step(c, s, Reopen);
    assert forall i: nat :: Transit(s, i) ==> Transit(t, i);
  }

  lemma SubmitKeeps(c: Config, s: Page, written: set<nat>)
    requires Inv(c, s) && Enabled(c, s, Submit(written))
    ensures Inv(c, Step(c, s, Submit(written)))
  {
    var t := Step(c, s, Submit(written));
    assert forall i: nat :: Transit(s, i) ==> Transit(t, i);
  }

  lemma FinishKeeps(c: Config, s: Page, ok: bool)
    requires Inv(c, s) && Enabled(c, s, Finish(ok))
    ensures Inv(c, Step(c, s, Finish(ok)))
  {
    var t := Step(c, s, Finish(ok));
    assert forall i: nat :: Transit(s, i) ==> Transit(t, i);
  }

  lemma CompleteKeeps(c: Config, s: Page)
    requires Inv(c, s) && Enabled(c, s, Complete)
    ensures Inv(c, Step(c, s, Complete))
  {
    var t := Step(c, s, Complete);
    assert forall i: nat :: Transit(s, i) ==> Transit(t, i);
    if s.wb.ok && !s.retired && s.wb.p.gen == s.gen {
      ClearedOk(c, s.dirty, s.wb.p);
      forall i: nat | DirtyAt(c, s.dirty, i) && !DirtyAt(c, t.dirty, i) ensures InCapture(c, s.wb.p, i) {
        ClearedWasCaptured(c, s.dirty, s.wb.p, i);
      }
    }
  }

  lemma RetireKeeps(c: Config, s: Page, ev: Event)
    requires Inv(c, s) && Enabled(c, s, ev) && (ev.Reclaim? || ev.TruncateAway?)
    ensures Inv(c, Step(c, s, ev))
  {
    var t := Step(c, s, ev);
    assert forall i: nat :: Transit(s, i) ==> Transit(t, i);
  }

  // ---------------------------------------------------------------- runs

  lemma WriteStepKeeps(c: Config, s: Page, ev: Event)
    requires Inv(c, s) && Enabled(c, s, ev)
    requires ev.BeginWrite? || ev.Store? || ev.EndWrite? || ev.MarkWrite? || ev.EndBorrow? || ev.WriteOpen?
              || ev.WriteStore? || ev.WriteApply? || ev.WriteMark? || ev.WriteSize?
    ensures Inv(c, Step(c, s, ev))
  {
    hide *;
    match ev
    case BeginWrite(id) => BeginWriteKeeps(c, s, id);
    case Store(id, at, byte) => StoreKeeps(c, s, id, at, byte);
    case EndWrite(id, begin, end) => EndWriteKeeps(c, s, id, begin, end);
    case MarkWrite(id, begin, end) => MarkWriteKeeps(c, s, id, begin, end);
    case EndBorrow(id) => EndBorrowKeeps(c, s, id);
    case WriteOpen(start, count) => WriteOpenKeeps(c, s, start, count);
    case WriteStore(at, byte) => WriteStoreKeeps(c, s, at, byte);
    case WriteApply => WriteApplyKeeps(c, s);
    case WriteMark => WriteMarkKeeps(c, s);
    case WriteSize => WriteSizeKeeps(c, s);
    case _ =>
  }

  lemma ResizeStepKeeps(c: Config, s: Page, ev: Event)
    requires Inv(c, s) && Enabled(c, s, ev)
    requires ev.TokenClose? || ev.TokenAbort? || ev.TokenReady? || ev.TokenRelease? || ev.ResizeOpen? || ev.ResizeSize?
              || ev.ResizeApply? || ev.ResizeClose? || ev.GrowFromEmpty?
    ensures Inv(c, Step(c, s, ev))
  {
    hide *;
    match ev
    case TokenClose => TokenKeeps(c, s, ev);
    case TokenAbort => TokenKeeps(c, s, ev);
    case TokenReady => TokenKeeps(c, s, ev);
    case TokenRelease => TokenKeeps(c, s, ev);
    case ResizeOpen(target) => ResizeOpenKeeps(c, s, target);
    case ResizeSize => ResizeSizeKeeps(c, s);
    case ResizeApply => ResizeApplyKeeps(c, s);
    case ResizeClose => ResizeCloseKeeps(c, s);
    case GrowFromEmpty(target) => GrowFromEmptyKeeps(c, s, target);
    case _ =>
  }

  lemma WritebackStepKeeps(c: Config, s: Page, ev: Event)
    requires Inv(c, s) && Enabled(c, s, ev)
    requires ev.Select? || ev.Unselect? || ev.Close? || ev.Unclose? || ev.Capture? || ev.Copy? || ev.Reopen?
              || ev.Submit? || ev.Finish? || ev.Complete? || ev.Reclaim? || ev.TruncateAway?
    ensures Inv(c, Step(c, s, ev))
  {
    hide *;
    match ev
    case Select => SelectionKeeps(c, s, ev);
    case Unselect => SelectionKeeps(c, s, ev);
    case Close(_) => SelectionKeeps(c, s, ev);
    case Unclose => SelectionKeeps(c, s, ev);
    case Capture(limit) => CaptureKeeps(c, s, limit);
    case Copy => CopyKeeps(c, s);
    case Reopen => ReopenKeeps(c, s);
    case Submit(written) => SubmitKeeps(c, s, written);
    case Finish(ok) => FinishKeeps(c, s, ok);
    case Complete => CompleteKeeps(c, s);
    case Reclaim => RetireKeeps(c, s, ev);
    case TruncateAway => RetireKeeps(c, s, ev);
    case _ =>
  }

  /** Every step keeps the invariant. */
  lemma StepKeeps(c: Config, s: Page, ev: Event)
    requires Inv(c, s)
    ensures Inv(c, Step(c, s, ev))
  {
    if Enabled(c, s, ev) {
      hide *;
      match ev
      case BeginWrite(_) | Store(_, _, _) | EndWrite(_, _, _) | MarkWrite(_, _, _) | EndBorrow(_)
        | WriteOpen(_, _) | WriteStore(_, _) | WriteApply | WriteMark | WriteSize => WriteStepKeeps(c, s, ev);
      case TokenClose | TokenAbort | TokenReady | TokenRelease | ResizeOpen(_) | ResizeSize | ResizeApply
        | ResizeClose | GrowFromEmpty(_) => ResizeStepKeeps(c, s, ev);
      case _ => WritebackStepKeeps(c, s, ev);
    }
  }

  /** A page just filled from the backend and published. */
  ghost predicate Initial(c: Config, s: Page) {
    && ConfigOk(c) && |s.data| == PAGE && s.disk == s.data && s.valid <= PAGE
    && (forall i :: s.valid <= i < PAGE ==> s.data[i] == 0)
    && s.dirty == CLEAN && s.writers == map[] && !s.closed && !s.entryClosed
    && s.wb.Idle? && s.token.NoToken? && s.op.NoOp? && !s.retired
  }

  function Run(c: Config, s: Page, evs: seq<Event>): Page
    requires c.block > 0
  {
    if evs == [] then s else Step(c, Run(c, s, evs[..|evs| - 1]), evs[|evs| - 1])
  }

  lemma {:induction false} RunKeeps(c: Config, s: Page, evs: seq<Event>)
    requires Initial(c, s)
    ensures Inv(c, Run(c, s, evs))
  {
    if evs != [] {
      RunKeeps(c, s, evs[..|evs| - 1]);
      StepKeeps(c, Run(c, s, evs[..|evs| - 1]), evs[|evs| - 1]);
    }
  }

  /** In every run, a valid byte where a live page and the backend differ is recorded dirty or is being
      changed by a live borrow or by the operation holding the I/O lock. */
  lemma NoWriteIsLost(c: Config, s: Page, evs: seq<Event>, i: nat)
    requires Initial(c, s)
    ensures var t := Run(c, s, evs);
            && |t.data| == PAGE && |t.disk| == PAGE && t.valid <= PAGE
            && (!t.retired && i < t.valid && t.data[i] != t.disk[i] ==> DirtyAt(c, t.dirty, i) || Transit(t, i))
  {
    RunKeeps(c, s, evs);
  }

  /** Only a page equal to the backend can be reclaimed. */
  lemma ReclaimLosesNothing(c: Config, s: Page, evs: seq<Event>)
    requires Initial(c, s) && Enabled(c, Run(c, s, evs), Reclaim)
    ensures var t := Run(c, s, evs);
            |t.data| == PAGE && |t.disk| == PAGE && t.valid <= PAGE && t.data[..t.valid] == t.disk[..t.valid]
  {
    RunKeeps(c, s, evs);
    var t := Run(c, s, evs);
    assert forall i: nat :: i < t.valid ==> t.data[i] == t.disk[i] || Transit(t, i);
  }

  /** The snapshot is copied while nothing else can store into the page, and at the guarded points of the
      protocol the gate is in exactly the state the source insists on. */
  lemma GateIsAsExpected(c: Config, s: Page, evs: seq<Event>)
    requires Initial(c, s)
    ensures var t := Run(c, s, evs);
            && (t.wb.Selected? ==> !t.closed)
            && (t.wb.Copied? || t.wb.Captured? ==> t.closed && !t.entryClosed && NoWriters(t) && t.op.NoOp?)
            && (t.token.Held? ==> NoWriters(t) && t.wb.Idle?)
  {
    RunKeeps(c, s, evs);
  }
}
