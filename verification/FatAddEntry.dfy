/** The loops of `free_slots` and `add_entry` in fs/fat32.c, and what a caller sees of them. */
module FatAddEntry {
  import opened Wrappers
  import FatUtf
  import opened FatDirectory
  import opened FatEntries

  function ZeroSlot(): (r: seq<nat>)
    ensures |r| == 32 && r[0] == 0
  {
    seq(32, _ => 0)
  }

  /** Grown by k zeroed slots. */
  function Grown(dir: seq<seq<nat>>, k: nat): (r: seq<seq<nat>>)
    ensures |r| == |dir| + k && r[..|dir|] == dir
    ensures forall i :: |dir| <= i < |r| ==> r[i] == ZeroSlot()
    ensures SlotsOk(dir) ==> SlotsOk(r)
  {
    dir + seq(k, _ => ZeroSlot())
  }

  lemma {:induction false} GrownReads(dir: seq<seq<nat>>, k: nat, i: nat, st: Pending)
    requires SlotsOk(dir) && PendingOk(st)
    ensures ReadFrom(Grown(dir, k), i, st) == ReadFrom(dir, i, st)
    decreases |dir| - i
  {
    hide Absorb, MakeRecord, Grown;
    if i < |dir| && i < MAX_SLOTS {
      assert Grown(dir, k)[i] == Grown(dir, k)[..|dir|][i] == dir[i];
      var p := dir[i];
      if p[0] == 0xe5 || (p[11] != 15 && p[11] / 8 % 2 == 1) {
        GrownReads(dir, k, i + 1, CLEAN);
      } else if p[0] != 0 && p[11] == 15 {
        GrownReads(dir, k, i + 1, Absorb(st, p, i));
      }
    }
  }

  /** Zeroed slots behind the directory add no record. */
  lemma {:induction false} GrownRecords(dir: seq<seq<nat>>, k: nat, i: nat)
    requires SlotsOk(dir)
    ensures Records(Grown(dir, k), i) == Records(dir, i)
    decreases |dir| - i
  {
    hide ReadFrom, Grown;
    GrownReads(dir, k, i, CLEAN);
    var r := ReadFrom(dir, i, CLEAN);
    if r.Some? {
      GrownRecords(dir, k, r.value.next);
    }
  }

  /** How far a search has come: `run` free slots end at slot, and past the end the first end mark is at t. */
  ghost predicate Searched(d: seq<seq<nat>>, slot: nat, run: nat, first: nat, past: bool, t: nat) {
    && SlotsOk(d) && slot <= |d| && (run > 0 ==> first + run == slot)
    && (past ==> run > 0 && first <= t < slot && d[t][0] == 0)
    && (forall k :: 0 <= k < (if past then t else slot) ==> d[k][0] != 0)
    && (run > 0 ==> forall k :: first <= k < (if past then t else slot) ==> d[k][0] == 0xe5)
  }

  lemma SearchedGrow(d: seq<seq<nat>>, d': seq<seq<nat>>, slot: nat, run: nat, first: nat, past: bool, t: nat)
    requires Searched(d, slot, run, first, past, t) && d <= d' && SlotsOk(d')
    ensures Searched(d', slot, run, first, past, t)
  {
    assert forall k :: 0 <= k < slot ==> d'[k] == d[k];
  }

  lemma SearchedStep(d: seq<seq<nat>>, slot: nat, run: nat, first: nat, past: bool, t: nat, end: bool)
    requires Searched(d, slot, run, first, past, t) && slot < |d| && end == (past || d[slot][0] == 0)
    ensures if end || d[slot][0] == 0xe5
            then Searched(d, slot + 1, run + 1, if run == 0 then slot else first, end, if past then t else slot)
            else Searched(d, slot + 1, 0, first, false, t)
  {}

  lemma SearchedDone(d: seq<seq<nat>>, slot: nat, count: nat, first: nat, past: bool, t: nat)
    requires Searched(d, slot, count, first, past, t) && count > 0 && slot <= MAX_SLOTS
    ensures FreeRun(d, first, count, past)
  {}

  function Slots(clusters: nat, perCluster: nat): nat { clusters * perCluster }

  lemma SlotsLess(clusters: nat, perCluster: nat)
    ensures if clusters == 0 then Slots(clusters, perCluster) == 0
            else Slots(clusters, perCluster) == Slots(clusters - 1, perCluster) + perCluster
  {}

  /** No run of count free slots starts before bound. */
  ghost predicate NoneBefore(d: seq<seq<nat>>, count: nat, bound: nat) {
    forall q: nat, past: bool :: FreeRun(d, q, count, past) ==> q >= bound
  }

  ghost predicate HasRun(d: seq<seq<nat>>, count: nat) {
    exists q: nat, past: bool :: FreeRun(d, q, count, past)
  }

  /** Where the next free run can start at the earliest. */
  function Bound(slot: nat, run: nat, first: nat): nat { if run > 0 then first else slot }

  /** A slot in use with no end mark in front of it lies in no free run. */
  lemma RunClear(d: seq<seq<nat>>, q: nat, count: nat, past: bool, slot: nat)
    requires FreeRun(d, q, count, past) && slot < |d| && d[slot][0] != 0 && d[slot][0] != 0xe5
    requires forall k :: 0 <= k < slot ==> d[k][0] != 0
    ensures q > slot || q + count <= slot
  {}

  /** A slot in use ends every run that it would lie in. */
  lemma RunBroken(d: seq<seq<nat>>, full: seq<seq<nat>>, slot: nat, run: nat, first: nat, t: nat, count: nat)
    requires Searched(d, slot, run, first, false, t) && run < count && NoneBefore(full, count, Bound(slot, run, first))
    requires d <= full && slot < |d| && d[slot][0] != 0 && d[slot][0] != 0xe5
    ensures NoneBefore(full, count, slot + 1)
  {
    assert forall k :: 0 <= k < |d| ==> full[k] == d[k];
    forall q: nat, past: bool | FreeRun(full, q, count, past) ensures q >= slot + 1 {
      RunClear(full, q, count, past, slot);
    }
  }

  /** A search that ends with the directory, or with the last slot allowed, has missed no run. */
  lemma NoRunLeft(d: seq<seq<nat>>, slot: nat, run: nat, first: nat, count: nat)
    requires NoneBefore(d, count, Bound(slot, run, first)) && run < count && (run > 0 ==> first + run == slot)
    requires slot >= |d| || slot >= MAX_SLOTS
    ensures !HasRun(d, count)
  {}

  lemma StartSearch(d: seq<seq<nat>>, full: seq<seq<nat>>, count: nat)
    requires SlotsOk(d)
    ensures NoneBefore(full, count, 0) && Searched(d, 0, 0, 0, false, 0) && Grown(d, 0) == d
  {}

  /** `free_slots`: the first run of count slots that are deleted or past the end. The directory grows a zeroed
      cluster at a time while there is room and no further than the run needs; nothing else of it changes. No run is
      found exactly when the directory grown by all the room has none. */
  method FreeSlots(dir: seq<seq<nat>>, count: nat, perCluster: nat, room: nat)
    returns (start: Option<nat>, past: bool, grown: seq<seq<nat>>, ghost added: nat)
    requires SlotsOk(dir) && count > 0 && perCluster > 0
    ensures grown == Grown(dir, added) && added <= Slots(room, perCluster)
    ensures start.Some? ==> FreeRun(grown, start.value, count, past)
    ensures start.Some? ==> NoneBefore(Grown(dir, Slots(room, perCluster)), count, start.value)
    ensures start.Some? && added > 0 ==> |dir| + added < start.value + count + perCluster
    ensures start.None? ==> !HasRun(Grown(dir, Slots(room, perCluster)), count)
  {
    hide Grown, Searched, FreeRun, NoneBefore, HasRun, Slots, ZeroSlot;
    var run, first, slot, left: nat := 0, 0, 0, room;
    past, added, start, grown := false, 0, None, dir;
    ghost var t, full := 0, Grown(dir, Slots(room, perCluster));
    StartSearch(dir, full, count);
    while slot < MAX_SLOTS
      invariant slot <= |grown| && slot <= MAX_SLOTS && run < count && grown == Grown(dir, added) && start.None?
      invariant Searched(grown, slot, run, first, past, t) && SlotsOk(grown)
      invariant left <= room && added + Slots(left, perCluster) == Slots(room, perCluster)
                && (run > 0 ==> first + run == slot)
      invariant added > 0 ==> |dir| + added <= slot + perCluster
      invariant NoneBefore(full, count, Bound(slot, run, first))
    {
      var end := past;
      if slot >= |grown| {
        SlotsLess(left, perCluster);
        if left == 0 {
          NoRunLeft(full, slot, run, first, count);
          return;
        }
        GrownMore(dir, added, perCluster);
        SearchedGrow(grown, Grown(dir, added + perCluster), slot, run, first, past, t);
        added, left := added + perCluster, left - 1;
        grown := grown + seq(perCluster, _ => ZeroSlot());
        end := true;
        GrownZero(dir, added, slot);
      }
      GrownMore(dir, added, Slots(left, perCluster));
      var tag := 0;
      if !end {
        tag := grown[slot][0];
      }
      if tag == 0 {
        end := true;
      }
      SearchedStep(grown, slot, run, first, past, t, past || grown[slot][0] == 0);
      if end || tag == 0xe5 {
        if run == 0 {
          first := slot;
        }
        if !past {
          t := slot;
        }
        run, past := run + 1, end;
        if run == count {
          start := Some(first);
          SearchedDone(grown, slot + 1, count, first, past, t);
          return;
        }
      } else {
        RunBroken(grown, full, slot, run, first, t, count);
        run := 0;
      }
      slot := slot + 1;
    }
    NoRunLeft(full, slot, run, first, count);
  }

  lemma GrownMore(dir: seq<seq<nat>>, k: nat, m: nat)
    ensures Grown(dir, k) + seq(m, _ => ZeroSlot()) == Grown(dir, k + m)
    ensures Grown(dir, k) <= Grown(dir, k + m)
  {}

  lemma GrownZero(dir: seq<seq<nat>>, k: nat, i: nat)
    requires |dir| <= i < |dir| + k
    ensures Grown(dir, k)[i][0] == 0
  {}

  // ---------------------------------------------------------------- add_entry

  /** Some slots of the new entry written, from the first on. */
  ghost predicate Written(dir: seq<seq<nat>>, d: seq<seq<nat>>, start: nat, units: seq<nat>, n: nat, raw: seq<nat>,
                          past: bool, i: nat)
    requires |units| == FatUtf.UNITS && n <= 20 && |raw| == 32 && i <= n + 1
  {
    && SlotsOk(d) && |d| == |dir| && start + n + 1 <= |d| && d[..start] == dir[..start]
    && (forall k :: 0 <= k < i ==> d[start + k] == EntrySlot(units, n, raw, k))
    && (!past ==> d[start + n + 1..] == dir[start + n + 1..])
    && (past && start + n + 1 < |d| && start + n + 1 < MAX_SLOTS ==> d[start + n + 1][0] == 0)
  }

  lemma WrittenNext(dir: seq<seq<nat>>, d: seq<seq<nat>>, start: nat, units: seq<nat>, n: nat, raw: seq<nat>,
                    past: bool, i: nat)
    requires |units| == FatUtf.UNITS && n <= 20 && |raw| == 32 && i <= n
              && Written(dir, d, start, units, n, raw, past, i)
    ensures Written(dir, d[start + i := EntrySlot(units, n, raw, i)], start, units, n, raw, past, i + 1)
  {
    hide EntrySlot;
    var d' := d[start + i := EntrySlot(units, n, raw, i)];
    assert d'[..start] == d[..start];
    assert d'[start + n + 1..] == d[start + n + 1..];
  }

  /** The writes of `add_entry`: past the end the end mark moves first, then the fragments from the last one down,
      then the short entry that makes them count. */
  method WriteEntry(dir: seq<seq<nat>>, start: nat, units: seq<nat>, n: nat, raw: seq<nat>, past: bool)
      returns (d: seq<seq<nat>>)
    requires FreeRun(dir, start, n + 1, past) && |units| == FatUtf.UNITS && n <= 20 && EntryRaw(raw)
    ensures Added(dir, d, start, units, n, raw, past)
  {
    hide EntrySlot, Written, Checksum, Fragment, FreeRun, Added;
    d := dir;
    RunFits(dir, start, n + 1, past);
    if past && start + n + 1 < MAX_SLOTS && start + n + 1 < |d| {
      d := d[start + n + 1 := d[start + n + 1][0 := 0]];
    }
    EndMoved(dir, d, start, units, n, raw, past);
    var j := n;
    while j > 0
      invariant 0 <= j <= n && Written(dir, d, start, units, n, raw, past, n - j) && |d| == |dir|
    {
      WrittenNext(dir, d, start, units, n, raw, past, n - j);
      FragmentSlot(units, n, raw, j);
      d := d[start + n - j := Fragment(j + (if j == n then 64 else 0), Checksum(raw), units[(j - 1) * 13..j * 13])];
      j := j - 1;
    }
    WrittenNext(dir, d, start, units, n, raw, past, n);
    LastSlot(units, n, raw);
    d := d[start + n := raw];
    WrittenAll(dir, d, start, units, n, raw, past);
  }

  lemma RunFits(dir: seq<seq<nat>>, start: nat, count: nat, past: bool)
    requires FreeRun(dir, start, count, past)
    ensures SlotsOk(dir) && start + count <= |dir|
  {}

  lemma EndMoved(dir: seq<seq<nat>>, d: seq<seq<nat>>, start: nat, units: seq<nat>, n: nat, raw: seq<nat>, past: bool)
    requires |units| == FatUtf.UNITS && n <= 20 && |raw| == 32 && SlotsOk(dir) && start + n + 1 <= |dir|
    requires d == if past && start + n + 1 < MAX_SLOTS && start + n + 1 < |dir|
                  then dir[start + n + 1 := dir[start + n + 1][0 := 0]] else dir
    ensures Written(dir, d, start, units, n, raw, past, 0)
  {
    hide EntrySlot;
    assert d[..start] == dir[..start];
  }

  lemma FragmentSlot(units: seq<nat>, n: nat, raw: seq<nat>, j: nat)
    requires |units| == FatUtf.UNITS && 0 < j <= n <= 20 && |raw| == 32
    ensures EntrySlot(units, n, raw, n - j)
              == Fragment(j + (if j == n then 64 else 0), Checksum(raw), units[(j - 1) * 13..j * 13])
  {
    hide Fragment, Checksum;
  }

  lemma WrittenAll(dir: seq<seq<nat>>, d: seq<seq<nat>>, start: nat, units: seq<nat>, n: nat, raw: seq<nat>, past: bool)
    requires FreeRun(dir, start, n + 1, past) && |units| == FatUtf.UNITS && n <= 20 && EntryRaw(raw)
    requires Written(dir, d, start, units, n, raw, past, n + 1)
    ensures Added(dir, d, start, units, n, raw, past)
  {
    hide EntrySlot;
  }

  /** The name a new entry is listed under: its own, unless it is stored long and contains U+FFFF. */
  lemma ListedName(name: seq<nat>, u: seq<nat>, n: nat, raw: seq<nat>, start: nat) returns (s: seq<nat>)
    requires FatUtf.EncodeName(name) == FatUtf.Ok(u) && |raw| == 32
    requires n == if ShortName(raw) == name then 0 else (|u| + 12) / 13
    ensures n <= 20 && |u| <= 255 && FatUtf.Spells(s, name, u)
    ensures n > 0 ==> FatUtf.NameFrom(FatUtf.Padded(u), n * 13, 0, []).Ok?
    ensures NewRecord(FatUtf.Padded(u), n, raw, start).name == name <==> n == 0 || 0xffff !in s
  {
    hide FatUtf.EncodeName, FatUtf.NameFrom, FatUtf.Spells, ShortName;
    FatUtf.EncodedLength(name, u);
    s := FatUtf.NameRoundTrip(name, u, if n > 0 then n * 13 else |u|);
  }

  /** The fragments that a name needs: none when it is spelled by the short entry. */
  function LongSlots(name: seq<nat>, raw: seq<nat>): nat
    requires |raw| == 32
  {
    var e := FatUtf.EncodeName(name);
    if !e.Ok? || ShortName(raw) == name then 0 else (|e.value| + 12) / 13
  }

  /** The padded units that a name is stored as. */
  function StoredUnits(name: seq<nat>): (r: seq<nat>)
    ensures |r| == FatUtf.UNITS
  {
    var e := FatUtf.EncodeName(name);
    FatUtf.Padded(if e.Ok? && |e.value| < FatUtf.UNITS then e.value else [])
  }

  /** `add_entry`: refused with the encoder's error, or for want of a free run in the directory grown by all the room,
      and then the listing does not change. Otherwise the entry goes to the first run, and the listing gains one record
      x between the old ones, which stay as they were. The entry is read back as itself if and only if no
      fragments in front of it attach, and under its own name if and only if that is short or free of U+FFFF. */
  method AddEntry(dir: seq<seq<nat>>, name: seq<nat>, raw: seq<nat>, perCluster: nat, room: nat)
    returns (r: FatUtf.Result<Record>, d: seq<seq<nat>>, ghost s: seq<nat>, ghost front: seq<Record>, ghost x: Record,
             ghost back: seq<Record>, ghost listed: Record, ghost atEnd: bool)
    requires SlotsOk(dir) && EntryRaw(raw) && perCluster > 0
    ensures SlotsOk(d) && |d| >= |dir|
    ensures r.Invalid? <==> FatUtf.EncodeName(name).Invalid?
    ensures r.TooLong? <==> FatUtf.EncodeName(name).TooLong?
    ensures r.IllegalSequence? <==> FatUtf.EncodeName(name).IllegalSequence?
    ensures r.NoSpace? <==>
            FatUtf.EncodeName(name).Ok? && !HasRun(Grown(dir, Slots(room, perCluster)), LongSlots(name, raw) + 1)
    ensures !r.Ok? ==> d == Grown(dir, |d| - |dir|) && Records(d, 0) == Records(dir, 0)
    ensures r.Ok? ==> r.value.name == name && r.value.raw == raw && r.value.slots == LongSlots(name, raw) + 1 <= 21
    ensures r.Ok? ==> Added(Grown(dir, |d| - |dir|), d, r.value.first, StoredUnits(name), r.value.slots - 1, raw, atEnd)
    ensures r.Ok? ==> listed == NewRecord(StoredUnits(name), r.value.slots - 1, raw, r.value.first)
    ensures r.Ok? ==> r.value.next == r.value.first + r.value.slots <= |d| && r.value.next <= MAX_SLOTS
    ensures r.Ok? ==> NoneBefore(Grown(dir, Slots(room, perCluster)), r.value.slots, r.value.first)
    ensures r.Ok? ==> Records(dir, 0) == front + back && Records(d, 0) == front + [x] + back
    ensures r.Ok? ==> (forall y :: y in front ==> y.next <= r.value.first)
                      && forall y :: y in back ==> y in Records(dir, r.value.next)
    ensures r.Ok? ==> PendingAt(Grown(dir, |d| - |dir|), 0, r.value.first).Some?
    ensures r.Ok? ==> (x == listed <==>
              Harmless(PendingAt(Grown(dir, |d| - |dir|), 0, r.value.first).value, r.value.slots - 1, raw))
    ensures r.Ok? && r.value.slots > 1 ==> x == listed
    ensures r.Ok? ==> r.value == listed.(name := name) && name == FatUtf.Utf8(s)
    ensures r.Ok? ==> (listed.name == name <==> r.value.slots == 1 || 0xffff !in s)
  {
    hide FatUtf.EncodeName, FatUtf.NameFrom, FatUtf.Utf8, FatUtf.Utf16, ShortName, Records, Grown, FreeRun, Added,
         Harmless, NoneBefore, PendingAt, Slots;
    s, front, back, listed, d := [], [], [], Record([], 0, 0, 0, 0, []), dir;
    x, atEnd := listed, false;
    GrownLength(dir, 0);
    var e := FatUtf.Encode(name);
    if !e.Ok? {
      FatUtf.EncodeErrors(name);
      r := if e.Invalid? then FatUtf.Invalid else if e.TooLong? then FatUtf.TooLong else FatUtf.IllegalSequence;
      return;
    }
    var u := e.value;
    var n := if ShortName(raw) == name then 0 else (|u| + 12) / 13;
    s := ListedName(name, u, n, raw, 0);
    SpelledName(s, name, u);
    var start, past, grown;
    ghost var added;
    start, past, grown, added := FreeSlots(dir, n + 1, perCluster, room);
    GrownRecords(dir, added, 0);
    GrownLength(dir, added);
    d := grown;
    if start.None? {
      r := FatUtf.NoSpace;
      return;
    }
    atEnd := past;
    GrownRun(dir, added, Slots(room, perCluster), start.value, n + 1, past);
    d := WriteEntry(grown, start.value, FatUtf.Padded(u), n, raw, past);
    AddedFacts(grown, d, start.value, FatUtf.Padded(u), n, raw, past);
    front, x, back := RecordsAdded(grown, d, 0, start.value, FatUtf.Padded(u), n, raw, past);
    listed := NewRecord(FatUtf.Padded(u), n, raw, start.value);
    SameListed(FatUtf.Padded(u), n, raw, start.value);
    LongIsHarmless(PendingAt(grown, 0, start.value).value, n, raw);
    GrownRecords(dir, added, start.value + n + 1);
    r := FatUtf.Ok(Record(name, n + 1, start.value + n, start.value, start.value + n + 1, raw));
  }

  lemma GrownLength(dir: seq<seq<nat>>, k: nat)
    ensures |Grown(dir, k)| - |dir| == k && (k == 0 ==> Grown(dir, k) == dir)
  {}

  /** A run in a directory is one in the directory grown further. */
  lemma GrownRun(dir: seq<seq<nat>>, k: nat, m: nat, start: nat, count: nat, past: bool)
    requires FreeRun(Grown(dir, k), start, count, past) && k <= m && SlotsOk(dir)
    ensures HasRun(Grown(dir, m), count)
  {
    var d, full := Grown(dir, k), Grown(dir, m);
    GrownMore(dir, k, m - k);
    assert forall i :: 0 <= i < |d| ==> full[i] == d[i];
    if past {
      var t :| start <= t < start + count && d[t][0] == 0 && forall i :: start <= i < t ==> d[i][0] == 0xe5;
      assert full[t][0] == 0;
    }
    assert FreeRun(full, start, count, past);
  }

  lemma SpelledName(s: seq<nat>, name: seq<nat>, u: seq<nat>)
    requires FatUtf.Spells(s, name, u)
    ensures name == FatUtf.Utf8(s)
  {}

  lemma SameListed(units: seq<nat>, n: nat, raw: seq<nat>, start: nat)
    requires |units| == FatUtf.UNITS && n <= 20 && |raw| == 32
    ensures NewRecord(units, n, raw, start).name == NewRecord(units, n, raw, 0).name
  {}

  lemma LongIsHarmless(st: Pending, n: nat, raw: seq<nat>)
    requires PendingOk(st) && |raw| == 32
    ensures n > 0 ==> Harmless(st, n, raw)
  {}

  /** A deleted slot. */
  function Deleted(): (r: seq<nat>)
    ensures |r| == 32 && r[0] == 0xe5
  {
    [0xe5] + seq(31, _ => 0)
  }

  /** The fragments of an entry whose short slot holds p. */
  function Fragments(units: seq<nat>, n: nat, raw: seq<nat>, p: seq<nat>): (r: seq<seq<nat>>)
    requires |units| == FatUtf.UNITS && 0 < n <= 20 && |raw| == 32 && |p| == 32
    ensures SlotsOk(r) && |r| == n + 1
  {
    seq(n, i requires 0 <= i < n => EntrySlot(units, n, raw, i)) + [p]
  }

  /** A long name whose short slot alone was erased attaches to the next short entry of the same alias that is put
      there without fragments: the directory lists it under the old long name. */
  lemma OrphansAttach(units: seq<nat>, n: nat, raw: seq<nat>)
    requires |units| == FatUtf.UNITS && 0 < n <= 20 && EntryRaw(raw) && FatUtf.NameFrom(units, n * 13, 0, []).Ok?
    ensures Records(Fragments(units, n, raw, Deleted()), 0) == []
    ensures Records(Fragments(units, n, raw, raw), 0) == [NewRecord(units, n, raw, 0)]
    ensures Added(Fragments(units, n, raw, Deleted()), Fragments(units, n, raw, raw), n, units, 0, raw, false)
    ensures PendingAt(Fragments(units, n, raw, Deleted()), 0, n).Some?
    ensures !Harmless(PendingAt(Fragments(units, n, raw, Deleted()), 0, n).value, 0, raw)
  {
    hide Fragments, Records, Added, PendingAt, Harmless, FatUtf.NameFrom, NewRecord;
    OrphansListed(units, n, raw);
    OrphansAdded(units, n, raw);
    OrphansPending(units, n, raw);
  }

  lemma OrphansListed(units: seq<nat>, n: nat, raw: seq<nat>)
    requires |units| == FatUtf.UNITS && 0 < n <= 20 && EntryRaw(raw) && FatUtf.NameFrom(units, n * 13, 0, []).Ok?
    ensures Records(Fragments(units, n, raw, Deleted()), 0) == []
    ensures Records(Fragments(units, n, raw, raw), 0) == [NewRecord(units, n, raw, 0)]
  {
    hide EntrySlot, MakeRecord, Gathered, Checksum, ReadFrom;
    var dir, dir' := Fragments(units, n, raw, Deleted()), Fragments(units, n, raw, raw);
    LastSlot(units, n, raw);
    assert Holds(dir', 0, units, n, raw) by {
      forall i | 0 <= i <= n ensures dir'[0 + i] == EntrySlot(units, n, raw, i) {}
    }
    ReadFragments(dir', 0, CLEAN, units, n, raw, 0);
    LongRecord(units, n, raw, 0);
    EndsThere(dir', n + 1);
    RecordsCons(dir', 0, ReadFrom(dir', 0, CLEAN).value);
    assert dir[..n] == dir'[..n];
    ReachOrphans(dir, units, n, raw, 0, CLEAN);
    DeletedLast(dir, n, Gathered(units, n, Checksum(raw), 0, n));
  }

  lemma OrphansAdded(units: seq<nat>, n: nat, raw: seq<nat>)
    requires |units| == FatUtf.UNITS && 0 < n <= 20 && EntryRaw(raw)
    ensures Added(Fragments(units, n, raw, Deleted()), Fragments(units, n, raw, raw), n, units, 0, raw, false)
  {
    hide EntrySlot;
    var dir, dir' := Fragments(units, n, raw, Deleted()), Fragments(units, n, raw, raw);
    LastSlot(units, 0, raw);
    forall k | 0 <= k < n ensures dir[k][0] != 0 {
      EntryFields(units, n, raw, k);
    }
    assert dir'[..n] == dir[..n] && dir'[n + 1..] == dir[n + 1..];
  }

  /** The fragments are complete and pending when the scan comes to the free slot. */
  lemma OrphansPending(units: seq<nat>, n: nat, raw: seq<nat>)
    requires |units| == FatUtf.UNITS && 0 < n <= 20 && EntryRaw(raw) && FatUtf.NameFrom(units, n * 13, 0, []).Ok?
    ensures PendingAt(Fragments(units, n, raw, Deleted()), 0, n).Some?
    ensures !Harmless(PendingAt(Fragments(units, n, raw, Deleted()), 0, n).value, 0, raw)
  {
    hide EntrySlot, Checksum, Gathered, FatUtf.NameFrom, Reach;
    var dir, st := Fragments(units, n, raw, Deleted()), Gathered(units, n, Checksum(raw), 0, n);
    ReachPending(dir, units, n, raw, 0, CLEAN);
    GatheredPrefix(units, n, Checksum(raw), 0);
    NamePrefix(st.units, units, n * 13, 0, []);
  }

  lemma {:induction false} ReachPending(dir: seq<seq<nat>>, units: seq<nat>, n: nat, raw: seq<nat>, i: nat, st: Pending)
    requires |units| == FatUtf.UNITS && 0 < n <= 20 && |raw| == 32 && SlotsOk(dir) && |dir| == n + 1 && i <= n
              && PendingOk(st)
    requires forall k :: 0 <= k < n ==> dir[k] == EntrySlot(units, n, raw, k)
    requires (st.total > 0 ==> st.first < i) && (i > 0 ==> st == Gathered(units, n, Checksum(raw), 0, i))
    ensures Reach(dir, i, n, st) == Open(Gathered(units, n, Checksum(raw), 0, n))
    decreases n - i
  {
    hide EntrySlot, MakeRecord, Gathered, Checksum, Absorb;
    if i < n {
      EntryFields(units, n, raw, i);
      AbsorbNext(st, units, n, raw, 0, i);
      AbsorbFirst(st, dir[i], i);
      ReachPending(dir, units, n, raw, i + 1, Absorb(st, dir[i], i));
    }
  }

  lemma {:induction false} ReachOrphans(dir: seq<seq<nat>>, units: seq<nat>, n: nat, raw: seq<nat>, i: nat, st: Pending)
    requires |units| == FatUtf.UNITS && 0 < n <= 20 && |raw| == 32 && SlotsOk(dir) && |dir| == n + 1 && i <= n
              && PendingOk(st)
    requires forall k :: 0 <= k < n ==> dir[k] == EntrySlot(units, n, raw, k)
    requires i > 0 ==> st == Gathered(units, n, Checksum(raw), 0, i)
    ensures ReadFrom(dir, i, st) == ReadFrom(dir, n, Gathered(units, n, Checksum(raw), 0, n))
    decreases n - i
  {
    hide EntrySlot, MakeRecord, Gathered, Checksum, Absorb;
    if i < n {
      EntryFields(units, n, raw, i);
      AbsorbNext(st, units, n, raw, 0, i);
      ReachOrphans(dir, units, n, raw, i + 1, Absorb(st, dir[i], i));
    }
  }

  lemma DeletedLast(dir: seq<seq<nat>>, n: nat, st: Pending)
    requires SlotsOk(dir) && |dir| == n + 1 && dir[n][0] == 0xe5 && PendingOk(st)
    ensures ReadFrom(dir, n, st) == None
    ensures ReadFrom(dir, 0, CLEAN) == None ==> Records(dir, 0) == []
  {}
}
