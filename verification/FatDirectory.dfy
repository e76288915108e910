/** Directories in fs/fat32.c: 32-byte slots, long-name fragments in front of a short entry, the scan that
    reads records back, and adding an entry. A directory is the sequence of its slots. */
module FatDirectory {
  import opened Wrappers
  import FatUtf

  const MAX_SLOTS: nat := 65536

  /** Where the thirteen units of a fragment lie. */
  const OFFSETS: seq<nat> := [1, 3, 5, 7, 9, 14, 16, 18, 20, 22, 24, 28, 30]

  function Get16(p: seq<nat>, i: nat): nat
    requires i + 1 < |p|
  {
    p[i] + 256 * p[i + 1]
  }

  /** Unit k of a fragment. */
  function Unit(p: seq<nat>, k: nat): nat
    requires |p| == 32 && k < 13
  {
    Get16(p, OFFSETS[k])
  }

  function Lo(w: nat): nat { w % 256 }
  function Hi(w: nat): nat { w / 256 }

  /** A long-name fragment with tag byte, checksum and thirteen units. */
  function Fragment(tag: nat, sum: nat, w: seq<nat>): (r: seq<nat>)
    requires |w| == 13
    ensures |r| == 32
  {
    [tag, Lo(w[0]), Hi(w[0]), Lo(w[1]), Hi(w[1]), Lo(w[2]), Hi(w[2]), Lo(w[3]), Hi(w[3]), Lo(w[4]), Hi(w[4]),
     15, 0, sum,
     Lo(w[5]), Hi(w[5]), Lo(w[6]), Hi(w[6]), Lo(w[7]), Hi(w[7]), Lo(w[8]), Hi(w[8]), Lo(w[9]), Hi(w[9]),
     Lo(w[10]), Hi(w[10]),
     0, 0,
     Lo(w[11]), Hi(w[11]), Lo(w[12]), Hi(w[12])]
  }

  lemma LoHi(w: nat)
    ensures Lo(w) + 256 * Hi(w) == w
  {}

  lemma FragmentUnit(tag: nat, sum: nat, w: seq<nat>, k: nat)
    requires |w| == 13 && k < 13
    ensures Unit(Fragment(tag, sum, w), k) == w[k]
  {
    LoHi(w[k]);
    hide Lo, Hi;
  }

  lemma FragmentUnits(tag: nat, sum: nat, w: seq<nat>)
    requires |w| == 13
    ensures UnitsOf(Fragment(tag, sum, w)) == w
  {
    var u := UnitsOf(Fragment(tag, sum, w));
    forall k | 0 <= k < 13 ensures u[k] == w[k] {
      FragmentUnit(tag, sum, w, k);
    }
  }

  lemma FragmentFields(tag: nat, sum: nat, w: seq<nat>)
    requires |w| == 13
    ensures var p := Fragment(tag, sum, w);
            p[0] == tag && p[11] == 15 && p[12] == 0 && p[13] == sum && Get16(p, 26) == 0
  {
    hide Lo, Hi;
  }

  /** `short_checksum` after j bytes, in eight bits. */
  function ChecksumTo(p: seq<nat>, j: nat): nat
    requires j <= |p|
  {
    if j == 0 then 0
    else
      var s := ChecksumTo(p, j - 1);
      (s % 2 * 128 + s / 2 + p[j - 1]) % 256
  }

  function Checksum(p: seq<nat>): nat
    requires |p| >= 11
  {
    ChecksumTo(p, 11)
  }

  // ---------------------------------------------------------------- read_record

  datatype Record = Record(name: seq<nat>, slots: nat, entry: nat, first: nat, next: nat, raw: seq<nat>)

  /** The fragments gathered so far; nothing is pending while total is 0. */
  datatype Pending = Pending(expected: nat, total: nat, sum: nat, first: nat, units: seq<nat>)

  const CLEAN := Pending(0, 0, 0, 0, [])

  predicate PendingOk(st: Pending) {
    st.expected <= st.total <= 20 && (st.total > 0 ==> |st.units| == FatUtf.UNITS)
  }

  function Blank(): (r: seq<nat>)
    ensures |r| == FatUtf.UNITS
  {
    seq(FatUtf.UNITS, _ => 0xffff)
  }

  function UnitsOf(p: seq<nat>): (r: seq<nat>)
    requires |p| == 32
    ensures |r| == 13
  {
    [Unit(p, 0), Unit(p, 1), Unit(p, 2), Unit(p, 3), Unit(p, 4), Unit(p, 5), Unit(p, 6),
     Unit(p, 7), Unit(p, 8), Unit(p, 9), Unit(p, 10), Unit(p, 11), Unit(p, 12)]
  }

  /** The units with those of fragment number q put in place. */
  function Gather(units: seq<nat>, q: nat, p: seq<nat>): (r: seq<nat>)
    requires |units| == FatUtf.UNITS && 1 <= q <= 20 && |p| == 32
    ensures |r| == FatUtf.UNITS
  {
    units[..(q - 1) * 13] + UnitsOf(p) + units[q * 13..]
  }

  function Restarted(st: Pending, p: seq<nat>, slot: nat): Pending
    requires |p| == 32
  {
    var q := p[0] % 32;
    if p[0] / 64 % 2 == 1 && 0 < q <= 20 then Pending(q, q, p[13], slot, Blank()) else st
  }

  /** What a fragment at the given slot does to the gathering. */
  function Absorb(st: Pending, p: seq<nat>, slot: nat): (r: Pending)
    requires |p| == 32 && PendingOk(st)
    ensures PendingOk(r)
  {
    var q, s := p[0] % 32, Restarted(st, p, slot);
    if s.expected == 0 || q != s.expected || p[13] != s.sum || p[12] != 0 || Get16(p, 26) != 0 then CLEAN
    else Pending(s.expected - 1, s.total, s.sum, s.first, Gather(s.units, q, p))
  }

  function Lower(c: nat): nat { if 0x41 <= c <= 0x5a then c + 32 else c }

  /** Bytes from j up to the first space or to stop. */
  function Field(raw: seq<nat>, j: nat, stop: nat, lower: bool): seq<nat>
    requires stop <= |raw|
    decreases stop - j
  {
    if j >= stop || raw[j] == 0x20 then []
    else
      var c := if j == 0 && raw[j] == 5 then 0xe5 else raw[j];
      [if lower then Lower(c) else c] + Field(raw, j + 1, stop, lower)
  }

  /** `short_name` */
  function ShortName(raw: seq<nat>): seq<nat>
    requires |raw| == 32
  {
    Field(raw, 0, 8, raw[12] / 8 % 2 == 1)
    + (if raw[8] != 0x20 then [0x2e] else [])
    + Field(raw, 8, 11, raw[12] / 16 % 2 == 1)
  }

  /** The pending long name belongs to this short entry. */
  predicate Attaches(st: Pending, p: seq<nat>)
    requires |p| == 32 && PendingOk(st)
  {
    st.total > 0 && st.expected == 0 && Checksum(p) == st.sum && FatUtf.NameFrom(st.units, st.total * 13, 0, []).Ok?
  }

  function MakeRecord(st: Pending, p: seq<nat>, slot: nat): Record
    requires |p| == 32 && PendingOk(st)
  {
    if Attaches(st, p) then
      Record(FatUtf.NameFrom(st.units, st.total * 13, 0, []).value, st.total + 1, slot, st.first, slot + 1, p)
    else Record(ShortName(p), 1, slot, slot, slot + 1, p)
  }

  predicate SlotsOk(dir: seq<seq<nat>>) {
    forall i :: 0 <= i < |dir| ==> |dir[i]| == 32
  }

  /** `read_record` from a slot, with the fragments gathered so far. */
  function ReadFrom(dir: seq<seq<nat>>, slot: nat, st: Pending): (r: Option<Record>)
    requires SlotsOk(dir) && PendingOk(st)
    ensures r.Some? ==> slot < r.value.next <= |dir| && r.value.entry == r.value.next - 1
    decreases |dir| - slot
  {
    if slot >= |dir| || slot >= MAX_SLOTS then None
    else
      var p := dir[slot];
      if p[0] == 0 then None
      else if p[0] == 0xe5 then ReadFrom(dir, slot + 1, CLEAN)
      else if p[11] == 15 then ReadFrom(dir, slot + 1, Absorb(st, p, slot))
      else if p[11] / 8 % 2 == 1 then ReadFrom(dir, slot + 1, CLEAN)
      else Some(MakeRecord(st, p, slot))
  }

  /** All records from a slot on, each read where the one before it ended. */
  function Records(dir: seq<seq<nat>>, from: nat): seq<Record>
    requires SlotsOk(dir)
    decreases |dir| - from
  {
    var r := ReadFrom(dir, from, CLEAN);
    if r.None? then [] else [r.value] + Records(dir, r.value.next)
  }

  /** The loop of `read_record`. */
  method ReadRecord(dir: seq<seq<nat>>, from: nat) returns (r: Option<Record>)
    requires SlotsOk(dir)
    ensures r == ReadFrom(dir, from, CLEAN)
  {
    var slot, st := from, CLEAN;
    while slot < |dir| && slot < MAX_SLOTS
      invariant PendingOk(st) && ReadFrom(dir, from, CLEAN) == ReadFrom(dir, slot, st)
      decreases |dir| - slot
    {
      var p := dir[slot];
      if p[0] == 0 {
        return None;
      }
      if p[0] == 0xe5 {
        st := CLEAN;
      } else if p[11] == 15 {
        st := Absorb(st, p, slot);
      } else if p[11] / 8 % 2 == 1 {
        st := CLEAN;
      } else {
        return Some(MakeRecord(st, p, slot));
      }
      slot := slot + 1;
    }
    return None;
  }

  // ---------------------------------------------------------------- a new entry

  /** The slots of an entry with n fragments: the last fragment first, then the short entry. */
  function EntrySlot(units: seq<nat>, n: nat, raw: seq<nat>, i: nat): (r: seq<nat>)
    requires |units| == FatUtf.UNITS && n <= 20 && i <= n && |raw| == 32
    ensures |r| == 32
  {
    if i == n then raw
    else Fragment(n - i + (if i == 0 then 64 else 0), Checksum(raw), units[(n - i - 1) * 13..(n - i) * 13])
  }

  /** A short entry that the scan takes for one. */
  predicate EntryRaw(raw: seq<nat>) {
    |raw| == 32 && raw[0] != 0 && raw[0] != 0xe5 && raw[11] != 15 && raw[11] / 8 % 2 == 0
  }

  /** The gathering after the first i fragments of the entry at start. */
  function Gathered(units: seq<nat>, n: nat, sum: nat, start: nat, i: nat): (r: Pending)
    requires |units| == FatUtf.UNITS && 0 < n <= 20 && i <= n
    ensures PendingOk(r)
  {
    Pending(n - i, n, sum, start, Blank()[..(n - i) * 13] + units[(n - i) * 13..n * 13] + Blank()[n * 13..])
  }

  lemma GatherNext(units: seq<nat>, n: nat, i: nat, w: seq<nat>, p: seq<nat>)
    requires |units| == FatUtf.UNITS && 0 < n <= 20 && i < n && |p| == 32
    requires w == units[(n - i - 1) * 13..(n - i) * 13] && UnitsOf(p) == w
    ensures Gather(Gathered(units, n, 0, 0, i).units, n - i, p) == Gathered(units, n, 0, 0, i + 1).units
  {
    var a := Blank()[..(n - i) * 13] + units[(n - i) * 13..n * 13] + Blank()[n * 13..];
    var q := n - i;
    hide Blank, UnitsOf;
    assert a[..(q - 1) * 13] == Blank()[..(q - 1) * 13];
    assert a[q * 13..] == units[q * 13..n * 13] + Blank()[n * 13..];
    assert w + units[q * 13..n * 13] == units[(q - 1) * 13..n * 13];
  }

  lemma GatheredNone(units: seq<nat>, n: nat, sum: nat, start: nat)
    requires |units| == FatUtf.UNITS && 0 < n <= 20
    ensures Gathered(units, n, sum, start, 0) == Pending(n, n, sum, start, Blank())
  {
    hide Blank;
    assert units[n * 13..n * 13] == [];
    assert Blank()[..n * 13] + [] + Blank()[n * 13..] == Blank();
  }

  lemma GatheredSome(units: seq<nat>, n: nat, sum: nat, start: nat, i: nat)
    requires |units| == FatUtf.UNITS && 0 < n <= 20 && i <= n
    ensures Gathered(units, n, sum, start, i) == Pending(n - i, n, sum, start, Gathered(units, n, 0, 0, i).units)
  {}

  lemma Tags(n: nat, i: nat)
    requires i < n <= 20
    ensures var tag := n - i + (if i == 0 then 64 else 0); tag % 32 == n - i && tag / 64 % 2 == if i == 0 then 1 else 0
  {}

  /** Absorbing fragment i of the entry, whatever was pending before the first. */
  lemma AbsorbNext(st: Pending, units: seq<nat>, n: nat, raw: seq<nat>, start: nat, i: nat)
    requires |units| == FatUtf.UNITS && 0 < n <= 20 && i < n && |raw| == 32 && PendingOk(st)
    requires i > 0 ==> st == Gathered(units, n, Checksum(raw), start, i)
    ensures Absorb(st, EntrySlot(units, n, raw, i), start + i) == Gathered(units, n, Checksum(raw), start, i + 1)
  {
    hide Fragment, UnitsOf, Checksum, Gather, Gathered, Blank;
    var p, w := EntrySlot(units, n, raw, i), units[(n - i - 1) * 13..(n - i) * 13];
    var tag, sum := n - i + (if i == 0 then 64 else 0), Checksum(raw);
    FragmentFields(tag, sum, w);
    FragmentUnits(tag, sum, w);
    Tags(n, i);
    GatheredNone(units, n, sum, start);
    GatheredSome(units, n, sum, start, i);
    GatheredSome(units, n, sum, start, i + 1);
    assert Restarted(st, p, start + i) == Gathered(units, n, sum, start, i);
    GatherNext(units, n, i, w, p);
  }
}
