/** Adding a directory entry: it is read back as written, and every other record stays what it was. */
module FatEntries {
  import opened Wrappers
  import FatUtf
  import opened FatDirectory

  // ---------------------------------------------------------------- the new entry

  /** The entry's slots are in the directory at start. */
  ghost predicate Holds(dir: seq<seq<nat>>, start: nat, units: seq<nat>, n: nat, raw: seq<nat>) {
    && SlotsOk(dir) && |units| == FatUtf.UNITS && n <= 20 && EntryRaw(raw) && start + n < |dir| && start + n < MAX_SLOTS
    && forall i :: 0 <= i <= n ==> dir[start + i] == EntrySlot(units, n, raw, i)
  }

  lemma EntryFields(units: seq<nat>, n: nat, raw: seq<nat>, i: nat)
    requires |units| == FatUtf.UNITS && n <= 20 && i < n && |raw| == 32
    ensures var p := EntrySlot(units, n, raw, i); p[0] != 0 && p[0] != 0xe5 && p[11] == 15
  {
    FragmentFields(n - i + (if i == 0 then 64 else 0), Checksum(raw), units[(n - i - 1) * 13..(n - i) * 13]);
    hide Fragment, Checksum;
  }

  /** The scan gathers the fragments and reaches the short entry. */
  lemma {:induction false} ReadFragments(dir: seq<seq<nat>>, start: nat, st: Pending, units: seq<nat>, n: nat,
                                         raw: seq<nat>, i: nat)
    requires Holds(dir, start, units, n, raw) && 0 < n && i <= n && PendingOk(st)
    requires i > 0 ==> st == Gathered(units, n, Checksum(raw), start, i)
    ensures ReadFrom(dir, start + i, st)
              == Some(MakeRecord(Gathered(units, n, Checksum(raw), start, n), raw, start + n))
    decreases n - i
  {
    hide Absorb, Gathered, EntrySlot, MakeRecord, Checksum;
    assert dir[start + i] == EntrySlot(units, n, raw, i);
    if i == n {
      LastSlot(units, n, raw);
    } else {
      EntryFields(units, n, raw, i);
      AbsorbNext(st, units, n, raw, start, i);
      ReadFragments(dir, start, Absorb(st, EntrySlot(units, n, raw, i), start + i), units, n, raw, i + 1);
    }
  }

  lemma LastSlot(units: seq<nat>, n: nat, raw: seq<nat>)
    requires |units| == FatUtf.UNITS && n <= 20 && |raw| == 32
    ensures EntrySlot(units, n, raw, n) == raw
  {}

  lemma {:induction false} NamePrefix(u: seq<nat>, v: seq<nat>, k: nat, j: nat, out: seq<nat>)
    requires k <= |u| && k <= |v| && u[..k] == v[..k]
    ensures FatUtf.NameFrom(u, k, j, out) == FatUtf.NameFrom(v, k, j, out)
    decreases k - j
  {
    hide FatUtf.Utf8Of;
    if j < k {
      assert u[j] == u[..k][j] == v[..k][j] == v[j];
      if u[j] == 0 || u[j] == 0xffff || j >= 255 {
      } else if 0xd800 <= u[j] <= 0xdbff {
        if j + 1 < k {
          assert u[j + 1] == u[..k][j + 1] == v[..k][j + 1] == v[j + 1];
          if 0xdc00 <= u[j + 1] <= 0xdfff {
            NamePrefix(u, v, k, j + 2, out + FatUtf.Utf8Of(0x10000 + (u[j] - 0xd800) * 1024 + (u[j + 1] - 0xdc00)));
          }
        }
      } else if !(0xdc00 <= u[j] <= 0xdfff) {
        NamePrefix(u, v, k, j + 1, out + FatUtf.Utf8Of(u[j]));
      }
    }
  }

  lemma GatheredPrefix(units: seq<nat>, n: nat, sum: nat, start: nat)
    requires |units| == FatUtf.UNITS && 0 < n <= 20
    ensures var st := Gathered(units, n, sum, start, n);
            st.expected == 0 && st.total == n && st.sum == sum && st.first == start && |st.units| == FatUtf.UNITS
            && st.units[..n * 13] == units[..n * 13]
  {
    hide Blank;
    assert Blank()[..0] + units[0..n * 13] == units[..n * 13];
  }

  /** The record that an entry with fragments is read as. */
  lemma LongRecord(units: seq<nat>, n: nat, raw: seq<nat>, start: nat)
    requires |units| == FatUtf.UNITS && 0 < n <= 20 && EntryRaw(raw) && FatUtf.NameFrom(units, n * 13, 0, []).Ok?
    ensures MakeRecord(Gathered(units, n, Checksum(raw), start, n), raw, start + n)
            == Record(FatUtf.NameFrom(units, n * 13, 0, []).value, n + 1, start + n, start, start + n + 1, raw)
  {
    var st := Gathered(units, n, Checksum(raw), start, n);
    GatheredPrefix(units, n, Checksum(raw), start);
    NamePrefix(st.units, units, n * 13, 0, []);
    hide Gathered, Checksum, FatUtf.NameFrom;
  }

  /** What the scan makes of the entry at start, when `st` is pending in front of it. */
  function NewRecord(units: seq<nat>, n: nat, raw: seq<nat>, start: nat): Record
    requires |units| == FatUtf.UNITS && n <= 20 && |raw| == 32
  {
    var name := FatUtf.NameFrom(units, n * 13, 0, []);
    Record(if n > 0 && name.Ok? then name.value else ShortName(raw), n + 1, start + n, start, start + n + 1, raw)
  }

  /** Nothing in front of the entry can be taken for its long name. */
  predicate Harmless(st: Pending, n: nat, raw: seq<nat>)
    requires PendingOk(st) && |raw| == 32
  {
    n > 0 || !Attaches(st, raw)
  }

  /** An added entry is read as itself if and only if it has fragments of its own or no stray long name in
      front of it attaches. */
  lemma ReadNew(dir: seq<seq<nat>>, start: nat, st: Pending, units: seq<nat>, n: nat, raw: seq<nat>)
    requires Holds(dir, start, units, n, raw) && PendingOk(st) && (st.total > 0 ==> st.first < start)
    requires n > 0 ==> FatUtf.NameFrom(units, n * 13, 0, []).Ok?
    ensures ReadFrom(dir, start, st).Some? && ReadFrom(dir, start, st).value.next == start + n + 1
    ensures ReadFrom(dir, start, st) == Some(NewRecord(units, n, raw, start)) <==> Harmless(st, n, raw)
  {
    hide MakeRecord, Gathered, FatUtf.NameFrom, ReadFrom, Checksum, ShortName, Attaches, EntrySlot;
    assert dir[start + 0] == EntrySlot(units, n, raw, 0);
    if n > 0 {
      ReadFragments(dir, start, st, units, n, raw, 0);
      LongRecord(units, n, raw, start);
    } else {
      LastSlot(units, n, raw);
      ReadShort(dir, start, st, raw);
    }
  }

  lemma ReadShort(dir: seq<seq<nat>>, start: nat, st: Pending, raw: seq<nat>)
    requires SlotsOk(dir) && start < |dir| && start < MAX_SLOTS && dir[start] == raw && EntryRaw(raw) && PendingOk(st)
    requires st.total > 0 ==> st.first < start
    ensures ReadFrom(dir, start, st).Some? && ReadFrom(dir, start, st).value.next == start + 1
    ensures ReadFrom(dir, start, st) == Some(Record(ShortName(raw), 1, start, start, start + 1, raw)) <==>
              !Attaches(st, raw)
  {
    hide Checksum, FatUtf.NameFrom, ShortName;
  }

  // ---------------------------------------------------------------- the other records

  /** A scan towards slot `start`: it finds a record, meets the end, or arrives with something pending. */
  datatype Reached = Hit(record: Record) | End | Open(pending: Pending)

  function Reach(dir: seq<seq<nat>>, i: nat, start: nat, st: Pending): (r: Reached)
    requires SlotsOk(dir) && PendingOk(st) && i <= start <= |dir| && start <= MAX_SLOTS
              && (st.total > 0 ==> st.first < i)
    ensures r.Open? ==> PendingOk(r.pending) && (r.pending.total > 0 ==> r.pending.first < start)
    ensures r.Hit? ==> i < r.record.next <= start
    decreases start - i
  {
    if i == start then Open(st)
    else
      var p := dir[i];
      if p[0] == 0 then End
      else if p[0] == 0xe5 then Reach(dir, i + 1, start, CLEAN)
      else if p[11] == 15 then Reach(dir, i + 1, start, Absorb(st, p, i))
      else if p[11] / 8 % 2 == 1 then Reach(dir, i + 1, start, CLEAN)
      else Hit(MakeRecord(st, p, i))
  }

  /** Reading goes on from where the scan arrived, in any directory that agrees below start. */
  lemma {:induction false} ReachIs(dir: seq<seq<nat>>, dir': seq<seq<nat>>, i: nat, start: nat, st: Pending)
    requires SlotsOk(dir) && SlotsOk(dir') && PendingOk(st) && i <= start <= |dir| && start <= |dir'|
              && start <= MAX_SLOTS
    requires (st.total > 0 ==> st.first < i) && dir'[..start] == dir[..start]
    ensures var r := Reach(dir, i, start, st);
            ReadFrom(dir', i, st)
                == match r { case Hit(x) => Some(x) case End => None case Open(s) => ReadFrom(dir', start, s) }
    decreases start - i
  {
    hide Absorb, MakeRecord;
    if i < start {
      assert dir'[i] == dir'[..start][i] == dir[..start][i] == dir[i];
      var p := dir[i];
      if p[0] == 0 {
      } else if p[0] == 0xe5 {
        ReachIs(dir, dir', i + 1, start, CLEAN);
      } else if p[11] == 15 {
        AbsorbFirst(st, p, i);
        ReachIs(dir, dir', i + 1, start, Absorb(st, p, i));
      } else if p[11] / 8 % 2 == 1 {
        ReachIs(dir, dir', i + 1, start, CLEAN);
      }
    }
  }

  lemma AbsorbFirst(st: Pending, p: seq<nat>, i: nat)
    requires |p| == 32 && PendingOk(st) && (st.total > 0 ==> st.first < i)
    ensures Absorb(st, p, i).total > 0 ==> Absorb(st, p, i).first < i + 1
  {}

  /** No end mark below start, so a scan never stops there. */
  lemma {:induction false} NoEnd(dir: seq<seq<nat>>, i: nat, start: nat, st: Pending)
    requires SlotsOk(dir) && PendingOk(st) && i <= start <= |dir| && start <= MAX_SLOTS
              && (st.total > 0 ==> st.first < i)
    requires forall k :: 0 <= k < start ==> dir[k][0] != 0
    ensures !Reach(dir, i, start, st).End?
    decreases start - i
  {
    hide Absorb, MakeRecord;
    if i < start {
      var p := dir[i];
      if p[0] == 0xe5 {
        NoEnd(dir, i + 1, start, CLEAN);
      } else if p[11] == 15 {
        AbsorbFirst(st, p, i);
        NoEnd(dir, i + 1, start, Absorb(st, p, i));
      } else if p[11] / 8 % 2 == 1 {
        NoEnd(dir, i + 1, start, CLEAN);
      }
    }
  }

  /** Count free slots from start on: deleted ones, or the first end mark after only deleted ones. */
  ghost predicate FreeRun(dir: seq<seq<nat>>, start: nat, count: nat, past: bool) {
    && SlotsOk(dir) && count > 0 && start + count <= |dir| && start + count <= MAX_SLOTS
    && (forall k :: 0 <= k < start ==> dir[k][0] != 0)
    && if past
       then exists t :: start <= t < start + count && dir[t][0] == 0 && forall k :: start <= k < t ==> dir[k][0] == 0xe5
       else forall k :: start <= k < start + count ==> dir[k][0] == 0xe5
  }

  /** Deleted slots are skipped and forget what was pending. */
  lemma {:induction false} SkipDeleted(dir: seq<seq<nat>>, i: nat, end: nat, st: Pending)
    requires SlotsOk(dir) && PendingOk(st) && i <= end <= |dir| && end <= MAX_SLOTS
              && forall k :: i <= k < end ==> dir[k][0] == 0xe5
    ensures ReadFrom(dir, i, st) == ReadFrom(dir, end, if i < end then CLEAN else st)
    decreases end - i
  {
    hide Absorb, MakeRecord;
    if i < end {
      SkipDeleted(dir, i + 1, end, CLEAN);
    }
  }

  /** What was read through the free run before: the records behind it, or none past the end. */
  lemma ReadFree(dir: seq<seq<nat>>, start: nat, count: nat, past: bool, st: Pending)
    requires FreeRun(dir, start, count, past) && PendingOk(st)
    ensures ReadFrom(dir, start, st) == if past then None else ReadFrom(dir, start + count, CLEAN)
  {
    hide Absorb, MakeRecord;
    if past {
      var t :| start <= t < start + count && dir[t][0] == 0 && forall k :: start <= k < t ==> dir[k][0] == 0xe5;
      SkipDeleted(dir, start, t, st);
    } else {
      SkipDeleted(dir, start, start + count, st);
    }
  }

  /** The directory after the entry is added; past the end the next slot becomes the end mark. */
  ghost predicate Added(dir: seq<seq<nat>>, dir': seq<seq<nat>>, start: nat, units: seq<nat>, n: nat, raw: seq<nat>,
                        past: bool) {
    && FreeRun(dir, start, n + 1, past) && Holds(dir', start, units, n, raw) && |dir'| == |dir|
    && dir'[..start] == dir[..start]
    && (!past ==> dir'[start + n + 1..] == dir[start + n + 1..])
    && (past && start + n + 1 < |dir'| && start + n + 1 < MAX_SLOTS ==> dir'[start + n + 1][0] == 0)
  }

  lemma {:induction false} ReadTail(dir: seq<seq<nat>>, dir': seq<seq<nat>>, from: nat, i: nat, st: Pending)
    requires SlotsOk(dir) && SlotsOk(dir') && |dir'| == |dir| && from <= i && from <= |dir|
              && dir'[from..] == dir[from..] && PendingOk(st)
    ensures ReadFrom(dir', i, st) == ReadFrom(dir, i, st)
    decreases |dir| - i
  {
    hide Absorb, MakeRecord;
    if i < |dir| && i < MAX_SLOTS {
      assert dir'[i] == dir'[from..][i - from] == dir[from..][i - from] == dir[i];
      var p := dir[i];
      if p[0] == 0xe5 || (p[11] != 15 && p[11] / 8 % 2 == 1) {
        ReadTail(dir, dir', from, i + 1, CLEAN);
      } else if p[0] != 0 && p[11] == 15 {
        ReadTail(dir, dir', from, i + 1, Absorb(st, p, i));
      }
    }
  }

  lemma {:induction false} RecordsTail(dir: seq<seq<nat>>, dir': seq<seq<nat>>, from: nat, i: nat)
    requires SlotsOk(dir) && SlotsOk(dir') && |dir'| == |dir| && from <= i && from <= |dir|
              && dir'[from..] == dir[from..]
    ensures Records(dir', i) == Records(dir, i)
    decreases |dir| - i
  {
    hide ReadFrom;
    ReadTail(dir, dir', from, i, CLEAN);
    var r := ReadFrom(dir, i, CLEAN);
    if r.Some? {
      RecordsTail(dir, dir', from, r.value.next);
    }
  }

  /** What is pending when a listing that starts at i comes to slot start. */
  function PendingAt(dir: seq<seq<nat>>, i: nat, start: nat): (r: Option<Pending>)
    requires SlotsOk(dir) && i <= start <= |dir| && start <= MAX_SLOTS
    ensures r.Some? ==> PendingOk(r.value) && (r.value.total > 0 ==> r.value.first < start)
    decreases start - i
  {
    match Reach(dir, i, start, CLEAN)
    case Hit(x) => PendingAt(dir, x.next, start)
    case End => None
    case Open(st) => Some(st)
  }

  /** The listing of the directory gains one record x between the records in front of it and the records behind it,
      which stay as they were; x is the new record if and only if nothing in front can be taken for its long name. */
  lemma {:induction false} RecordsAdded(dir: seq<seq<nat>>, dir': seq<seq<nat>>, i: nat, start: nat, units: seq<nat>,
                                        n: nat, raw: seq<nat>, past: bool)
    returns (front: seq<Record>, x: Record, back: seq<Record>)
    requires Added(dir, dir', start, units, n, raw, past) && i <= start
    requires n > 0 ==> FatUtf.NameFrom(units, n * 13, 0, []).Ok?
    ensures PendingAt(dir, i, start).Some?
    ensures Records(dir, i) == front + back && forall r :: r in front ==> r.next <= start
    ensures back == if past then [] else Records(dir, start + n + 1)
    ensures Records(dir', i) == front + [x] + back
    ensures x == NewRecord(units, n, raw, start) <==> Harmless(PendingAt(dir, i, start).value, n, raw)
    decreases start - i
  {
    hide ReadFrom, NewRecord, Harmless, Added, Reach, Records, FatUtf.NameFrom;
    AddedFacts(dir, dir', start, units, n, raw, past);
    NoEnd(dir, i, start, CLEAN);
    ReachIs(dir, dir, i, start, CLEAN);
    ReachIs(dir, dir', i, start, CLEAN);
    match Reach(dir, i, start, CLEAN)
    case Hit(y) =>
      var rest;
      rest, x, back := RecordsAdded(dir, dir', y.next, start, units, n, raw, past);
      front := [y] + rest;
      RecordsCons(dir, i, y);
      RecordsCons(dir', i, y);
      assert front + back == [y] + (rest + back);
      assert front + [x] + back == [y] + (rest + [x] + back);
    case Open(st) =>
      front := [];
      back := if past then [] else Records(dir, start + n + 1);
      RecordsFree(dir, i, start, n + 1, past, st);
      AddedHolds(dir, dir', start, units, n, raw, past);
      ReadNew(dir', start, st, units, n, raw);
      RecordsBehind(dir, dir', start, units, n, raw, past);
      x := ReadFrom(dir', start, st).value;
      RecordsCons(dir', i, x);
      assert front + back == back && front + [x] + back == [x] + back;
  }

  lemma RecordsCons(dir: seq<seq<nat>>, i: nat, x: Record)
    requires SlotsOk(dir) && ReadFrom(dir, i, CLEAN) == Some(x)
    ensures Records(dir, i) == [x] + Records(dir, x.next)
  {
    hide ReadFrom;
  }

  lemma RecordsFree(dir: seq<seq<nat>>, i: nat, start: nat, count: nat, past: bool, st: Pending)
    requires FreeRun(dir, start, count, past) && PendingOk(st) && ReadFrom(dir, i, CLEAN) == ReadFrom(dir, start, st)
    ensures Records(dir, i) == if past then [] else Records(dir, start + count)
  {
    ReadFree(dir, start, count, past, st);
    hide ReadFrom;
  }

  lemma AddedHolds(dir: seq<seq<nat>>, dir': seq<seq<nat>>, start: nat, units: seq<nat>, n: nat, raw: seq<nat>,
                   past: bool)
    requires Added(dir, dir', start, units, n, raw, past)
    ensures Holds(dir', start, units, n, raw) && FreeRun(dir, start, n + 1, past)
  {}

  lemma AddedFacts(dir: seq<seq<nat>>, dir': seq<seq<nat>>, start: nat, units: seq<nat>, n: nat, raw: seq<nat>,
                   past: bool)
    requires Added(dir, dir', start, units, n, raw, past)
    ensures SlotsOk(dir) && SlotsOk(dir') && start + n + 1 <= |dir| == |dir'| && start + n + 1 <= MAX_SLOTS
    ensures forall k :: 0 <= k < start ==> dir[k][0] != 0
    ensures |units| == FatUtf.UNITS && n <= 20 && EntryRaw(raw) && FreeRun(dir, start, n + 1, past)
    ensures start <= |dir'| && dir'[..start] == dir[..start]
  {}

  /** Behind the new entry nothing changes. */
  lemma RecordsBehind(dir: seq<seq<nat>>, dir': seq<seq<nat>>, start: nat, units: seq<nat>, n: nat, raw: seq<nat>,
                      past: bool)
    requires Added(dir, dir', start, units, n, raw, past)
    ensures Records(dir', start + n + 1) == if past then [] else Records(dir, start + n + 1)
  {
    if past {
      EndsThere(dir', start + n + 1);
    } else {
      RecordsTail(dir, dir', start + n + 1, start + n + 1);
    }
  }

  lemma EndsThere(dir: seq<seq<nat>>, i: nat)
    requires SlotsOk(dir) && (i < |dir| && i < MAX_SLOTS ==> dir[i][0] == 0)
    ensures Records(dir, i) == []
  {}
}
