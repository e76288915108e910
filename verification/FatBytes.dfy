/** The byte layer of fs/fat32.c: arbitrary byte ranges over a sector device with a one-sector cache, and
    the same over a cluster chain with coalesced runs. The device may fail any transfer, and a failed write
    may have stored a prefix. */
module FatBytes {
  import opened Arithmetic
  import opened Wrappers

  const TRANSFER_BYTES: nat := 131072

  /** What the device does with the next transfer. */
  datatype Outcome = Good | Bad(stored: nat)

  /** d with x stored at position at. */
  function Overwrite(d: seq<int>, at: nat, x: seq<int>): seq<int>
    requires at + |x| <= |d|
  {
    d[..at] + x + d[at + |x|..]
  }

  lemma OverwriteAt(d: seq<int>, at: nat, x: seq<int>, i: nat)
    requires at + |x| <= |d| && i < |d|
    ensures |Overwrite(d, at, x)| == |d| && Overwrite(d, at, x)[i] == if at <= i < at + |x| then x[i - at] else d[i]
  {}

  lemma SameLength(d: seq<int>, at: nat, x: seq<int>)
    requires at + |x| <= |d|
    ensures |Overwrite(d, at, x)| == |d|
  {}

  lemma OverwriteTwice(d: seq<int>, at: nat, x: seq<int>, y: seq<int>)
    requires at + |x| + |y| <= |d|
    ensures |Overwrite(d, at, x)| == |d|
    ensures Overwrite(Overwrite(d, at, x), at + |x|, y) == Overwrite(d, at, x + y)
  {}

  /** Storing a whole sector that differs from the disk in one piece stores that piece. */
  lemma OverwriteSector(d: seq<int>, base: nat, sector: seq<int>, start: nat, x: seq<int>)
    requires base + |sector| <= |d| && sector == d[base..base + |sector|] && start + |x| <= |sector|
    ensures Overwrite(d, base, Overwrite(sector, start, x)) == Overwrite(d, base + start, x)
  {}

  /** Only bytes of the range changed, each to the byte meant for it. */
  ghost predicate Touched(d: seq<int>, d': seq<int>, at: nat, x: seq<int>) {
    && |d'| == |d| && at + |x| <= |d|
    && forall i :: 0 <= i < |d| ==> d'[i] == d[i] || (at <= i < at + |x| && d'[i] == x[i - at])
  }

  lemma TouchedPrefix(d: seq<int>, at: nat, x: seq<int>, k: nat)
    requires at + |x| <= |d| && k <= |x|
    ensures Touched(d, Overwrite(d, at, x[..k]), at, x)
  {}

  lemma TouchedSector(d: seq<int>, base: nat, sector: seq<int>, start: nat, x: seq<int>, k: nat)
    requires base + |sector| <= |d| && sector == d[base..base + |sector|] && start + |x| <= |sector| && k <= |sector|
    ensures |Overwrite(sector, start, x)| == |sector|
    ensures Touched(d, Overwrite(d, base, Overwrite(sector, start, x)[..k]), base + start, x)
  {}

  lemma TouchedMore(d: seq<int>, at: nat, x: seq<int>, y: seq<int>, d': seq<int>)
    requires at + |x| + |y| <= |d| && |Overwrite(d, at, x)| == |d| && Touched(Overwrite(d, at, x), d', at + |x|, y)
    ensures Touched(d, d', at, x + y)
  {
    forall i | 0 <= i < |d| ensures d'[i] == d[i] || (at <= i < at + |x| + |y| && d'[i] == (x + y)[i - at]) {
      OverwriteAt(d, at, x, i);
    }
  }

  lemma TouchedWider(d: seq<int>, d': seq<int>, at: nat, x: seq<int>, y: seq<int>)
    requires Touched(d, d', at, x) && at + |x| + |y| <= |d|
    ensures Touched(d, d', at, x + y)
  {}

  /** Sector addresses are a sector apart. */
  lemma SectorsApart(a: nat, b: nat, m: nat)
    requires m > 0 && a % m == 0 && b % m == 0 && a < b
    ensures a + m <= b
  {
    DivMod(a, m);
    DivMod(b, m);
    if a / m >= b / m {
      MulLe(b / m, a / m, m);
    } else {
      Distribute(a / m, 1, m);
      MulLe(a / m + 1, b / m, m);
    }
  }

  lemma SectorBase(at: nat, m: nat)
    requires m > 0
    ensures at % m <= at && (at - at % m) % m == 0
  {
    DivMod(at, m);
    ModIs(at - at % m, at / m, 0, m);
  }

  /** A cached sector clear of a stored run stays right. */
  lemma CacheClear(d: seq<int>, at: nat, x: seq<int>, v: nat, m: nat)
    requires at + |x| <= |d| && v + m <= |d| && (v + m <= at || at + |x| <= v)
    ensures Overwrite(d, at, x)[v..v + m] == d[v..v + m]
  {}

  /** What is left of the outcomes after some were used. */
  ghost predicate Used(before: seq<Outcome>, after: seq<Outcome>) {
    |after| <= |before| && after == before[|before| - |after|..]
  }

  /** None of the outcomes used was a failure. */
  ghost predicate Smooth(before: seq<Outcome>, after: seq<Outcome>) {
    Used(before, after) && forall j :: 0 <= j < |before| - |after| ==> before[j].Good?
  }

  lemma UsedTwice(a: seq<Outcome>, b: seq<Outcome>, c: seq<Outcome>)
    requires Used(a, b) && Used(b, c)
    ensures Used(a, c) && (Smooth(a, c) <==> Smooth(a, b) && Smooth(b, c))
  {
    var m, n := |a| - |b|, |a| - |c|;
    assert forall j :: 0 <= j < |b| ==> b[j] == a[m + j];
    if Smooth(a, c) {
      forall j | 0 <= j < |b| - |c| ensures b[j].Good? {
        assert a[m + j].Good?;
      }
    }
    if Smooth(a, b) && Smooth(b, c) {
      forall j | 0 <= j < n ensures a[j].Good? {
        if j >= m {
          assert b[j - m].Good?;
        }
      }
    }
  }

  lemma NoneUsed(a: seq<Outcome>)
    ensures Used(a, a) && Smooth(a, a)
  {}

  class Layer {
    var disk: seq<int>
    var sectorSize: nat
    var sectorAt: Option<nat>
    var sector: seq<int>
    var script: seq<Outcome>

    /** The cached sector is the device's sector whenever its address is set. */
    ghost predicate Valid()
      reads this
    {
      && sectorSize > 0 && |disk| % sectorSize == 0 && |sector| == sectorSize
      && (sectorAt.Some? ==>
            && sectorAt.value % sectorSize == 0 && sectorAt.value + sectorSize <= |disk|
            && sector == disk[sectorAt.value..sectorAt.value + sectorSize])
    }

    constructor (image: seq<int>, size: nat, outcomes: seq<Outcome>)
      requires size > 0 && |image| % size == 0
      ensures Valid() && disk == image && sectorSize == size && sectorAt.None?
    {
      disk, sectorSize, sectorAt, script := image, size, None, outcomes;
      sector := seq(size, _ => 0);
    }

    method Outcome() returns (o: Outcome)
      modifies this`script
      ensures Used(old(script), script) && (o.Good? <==> Smooth(old(script), script))
    {
      if script == [] {
        return Good;
      }
      o := script[0];
      script := script[1..];
    }

    method DeviceRead(at: nat, n: nat) returns (ok: bool, data: seq<int>)
      requires at + n <= |disk|
      modifies this`script
      ensures |data| == n && (ok ==> data == disk[at..at + n])
      ensures Used(old(script), script) && (ok <==> Smooth(old(script), script))
    {
      hide Used, Smooth;
      var o := Outcome();
      ok := o.Good?;
      data := if ok then disk[at..at + n] else seq(n, _ => 0);
    }

    /** k bytes were stored, all of them on success. */
    method DeviceWrite(at: nat, data: seq<int>) returns (ok: bool, ghost k: nat)
      requires at + |data| <= |disk|
      modifies this`script, this`disk
      ensures k <= |data| && disk == Overwrite(old(disk), at, data[..k]) && (ok ==> data[..k] == data)
      ensures Used(old(script), script) && (ok <==> Smooth(old(script), script))
    {
      hide Used, Smooth;
      var o := Outcome();
      ok := o.Good?;
      var stored := if o.Good? || o.stored > |data| then |data| else o.stored;
      disk := Overwrite(disk, at, data[..stored]);
      k := stored;
    }

    /** The cached path of `bytes` for reading part of one sector. */
    method ReadPart(base: nat, start: nat, n: nat) returns (ok: bool, data: seq<int>)
      requires Valid() && base % sectorSize == 0 && base + sectorSize <= |disk| && start + n <= sectorSize
      modifies this`script, this`sector, this`sectorAt
      ensures Valid() && |data| == n && (ok ==> data == disk[base + start..base + start + n])
      ensures Used(old(script), script) && (ok <==> Smooth(old(script), script))
    {
      hide Used, Smooth;
      ok := Load(base);
      data := if ok then sector[start..start + n] else seq(n, _ => 0);
    }

    /** Makes the sector at base the cached one. */
    method Load(base: nat) returns (ok: bool)
      requires Valid() && base % sectorSize == 0 && base + sectorSize <= |disk|
      modifies this`script, this`sector, this`sectorAt
      ensures Valid() && (ok ==> sectorAt == Some(base)) && (!ok ==> sectorAt.None?)
      ensures Used(old(script), script) && (ok <==> Smooth(old(script), script))
    {
      ok := true;
      if sectorAt != Some(base) {
        ok, sector := DeviceRead(base, sectorSize);
        sectorAt := if ok then Some(base) else None;
      }
    }

    /** The cached path of `bytes` for writing part of one sector. */
    method WritePart(base: nat, start: nat, data: seq<int>) returns (ok: bool)
      requires Valid() && base % sectorSize == 0 && base + sectorSize <= |disk| && start + |data| <= sectorSize
      modifies this`script, this`sector, this`sectorAt, this`disk
      ensures Valid() && |disk| == |old(disk)|
      ensures ok ==> disk == Overwrite(old(disk), base + start, data)
      ensures !ok ==> Touched(old(disk), disk, base + start, data)
      ensures Used(old(script), script) && (ok <==> Smooth(old(script), script))
    {
      hide Used, Smooth;
      ok := Load(base);
      if !ok {
        return;
      }
      ghost var loaded := script;
      ghost var was := sector;
      sector := Overwrite(sector, start, data);
      OverwriteSector(disk, base, was, start, data);
      ghost var k;
      ok, k := DeviceWrite(base, sector);
      UsedTwice(old(script), loaded, script);
      if !ok {
        TouchedSector(old(disk), base, was, start, data, k);
        sectorAt := None;
      }
    }

    /** A run of whole sectors written past the cache; the cached image is dropped if the run meets it. */
    method WriteRun(at: nat, data: seq<int>) returns (ok: bool)
      requires Valid() && at % sectorSize == 0 && at + |data| <= |disk|
      modifies this`script, this`sectorAt, this`disk
      ensures Valid() && |disk| == |old(disk)|
      ensures ok ==> disk == Overwrite(old(disk), at, data)
      ensures !ok ==> Touched(old(disk), disk, at, data)
      ensures Used(old(script), script) && (ok <==> Smooth(old(script), script))
    {
      hide Used, Smooth;
      ghost var k;
      ok, k := DeviceWrite(at, data);
      TouchedPrefix(old(disk), at, data, k);
      SameLength(old(disk), at, data[..k]);
      hide Overwrite, Touched;
      if sectorAt.Some? {
        if at <= sectorAt.value < at + |data| {
          sectorAt := None;
        } else {
          if sectorAt.value < at {
            SectorsApart(sectorAt.value, at, sectorSize);
          }
          CacheClear(old(disk), at, data[..k], sectorAt.value, sectorSize);
        }
      }
    }

    /** `sector_write` from another buffer, as clearing a new cluster does. */
    method SectorWrite(at: nat, data: seq<int>) returns (ok: bool)
      requires Valid() && at % sectorSize == 0 && at + sectorSize <= |disk| && |data| == sectorSize
      modifies this`script, this`sectorAt, this`disk
      ensures Valid() && |disk| == |old(disk)|
      ensures ok ==> disk == Overwrite(old(disk), at, data)
      ensures !ok ==> Touched(old(disk), disk, at, data) && sectorAt.None?
      ensures Used(old(script), script) && (ok <==> Smooth(old(script), script))
    {
      hide Used, Smooth;
      ghost var k;
      ok, k := DeviceWrite(at, data);
      TouchedPrefix(old(disk), at, data, k);
      SameLength(old(disk), at, data[..k]);
      hide Overwrite, Touched;
      if !ok || sectorAt == Some(at) {
        sectorAt := None;
      } else if sectorAt.Some? {
        if sectorAt.value < at {
          SectorsApart(sectorAt.value, at, sectorSize);
        } else {
          SectorsApart(at, sectorAt.value, sectorSize);
        }
        CacheClear(old(disk), at, data[..k], sectorAt.value, sectorSize);
      }
    }

    /** One round of `bytes`, writing: the length stored is that of the next part or run. */
    method WriteNext(at: nat, data: seq<int>) returns (ok: bool, n: nat)
      requires Valid() && 0 < |data| && at + |data| <= |disk|
      modifies this`script, this`sector, this`sectorAt, this`disk
      ensures Valid() && |disk| == |old(disk)| && 0 < n <= |data|
      ensures ok ==> disk == Overwrite(old(disk), at, data[..n])
      ensures !ok ==> Touched(old(disk), disk, at, data[..n])
      ensures Used(old(script), script) && (ok <==> Smooth(old(script), script))
    {
      hide Used, Smooth;
      var start := at % sectorSize;
      SectorBase(at, sectorSize);
      var base := at - start;
      n := sectorSize - start;
      if n > |data| {
        n := |data|;
      }
      if start != 0 || n != sectorSize {
        SectorsApart(base, |disk|, sectorSize);
        ok := WritePart(base, start, data[..n]);
      } else {
        n := |data| - |data| % sectorSize;
        WholeSectors(|data|, sectorSize);
        if n > TRANSFER_BYTES {
          n := TRANSFER_BYTES;
        }
        ok := WriteRun(at, data[..n]);
      }
    }

    method ReadNext(at: nat, size: nat) returns (ok: bool, n: nat, data: seq<int>)
      requires Valid() && 0 < size && at + size <= |disk|
      modifies this`script, this`sector, this`sectorAt
      ensures Valid() && 0 < n <= size && |data| == n && (ok ==> data == disk[at..at + n])
      ensures Used(old(script), script) && (ok <==> Smooth(old(script), script))
    {
      hide Used, Smooth;
      var start := at % sectorSize;
      SectorBase(at, sectorSize);
      var base := at - start;
      n := sectorSize - start;
      if n > size {
        n := size;
      }
      if start != 0 || n != sectorSize {
        SectorsApart(base, |disk|, sectorSize);
        ok, data := ReadPart(base, start, n);
      } else {
        n := size - size % sectorSize;
        WholeSectors(size, sectorSize);
        if n > TRANSFER_BYTES {
          n := TRANSFER_BYTES;
        }
        ok, data := DeviceRead(at, n);
      }
    }

    method WriteAll(at: nat, data: seq<int>) returns (ok: bool)
      requires Valid() && at + |data| <= |disk|
      modifies this`script, this`sector, this`sectorAt, this`disk
      ensures Valid() && |disk| == |old(disk)|
      ensures ok ==> disk == Overwrite(old(disk), at, data)
      ensures !ok ==> Touched(old(disk), disk, at, data)
      ensures Used(old(script), script) && (ok <==> Smooth(old(script), script))
    {
      var done := 0;
      assert Overwrite(disk, at, data[..0]) == disk;
      NoneUsed(script);
      hide Overwrite, Touched, Used, Smooth;
      while done < |data|
        invariant done <= |data| && Valid() && |disk| == |old(disk)| && Smooth(old(script), script)
        invariant Used(old(script), script)
        invariant disk == Overwrite(old(disk), at, data[..done])
      {
        var n;
        ghost var before, left := disk, script;
        ok, n := WriteNext(at + done, data[done..]);
        UsedTwice(old(script), left, script);
        Pieces(data, done, n);
        if !ok {
          TouchedMore(old(disk), at, data[..done], data[done..][..n], disk);
          TouchedWider(old(disk), disk, at, data[..done + n], data[done + n..]);
          return;
        }
        OverwriteTwice(old(disk), at, data[..done], data[done..][..n]);
        done := done + n;
      }
      assert data[..done] == data;
      return true;
    }

    method ReadAll(at: nat, size: nat) returns (ok: bool, out: seq<int>)
      requires Valid() && at + size <= |disk|
      modifies this`script, this`sector, this`sectorAt
      ensures Valid() && (ok ==> out == disk[at..at + size])
      ensures Used(old(script), script) && (ok <==> Smooth(old(script), script))
    {
      hide Used, Smooth;
      var done := 0;
      out := [];
      NoneUsed(script);
      while done < size
        invariant done <= size && Valid() && out == disk[at..at + done]
        invariant Used(old(script), script) && Smooth(old(script), script)
      {
        var n, piece;
        ghost var left := script;
        ok, n, piece := ReadNext(at + done, size - done);
        UsedTwice(old(script), left, script);
        if !ok {
          return;
        }
        Slices(disk, at, at + done, at + done + n);
        out := out + piece;
        done := done + n;
      }
      ok := true;
    }

    /** `bytes`: a success has moved exactly the range; a failure has left the cache right and changed no byte
        outside the range. It succeeds if and only if every device request that it made did. */
    method Bytes(at: nat, data: seq<int>, write: bool) returns (ok: bool, out: seq<int>)
      requires Valid() && at + |data| <= |disk|
      modifies this`script, this`sector, this`sectorAt, this`disk
      ensures Valid() && |disk| == |old(disk)|
      ensures !write ==> disk == old(disk) && (ok ==> out == disk[at..at + |data|])
      ensures write && ok ==> disk == Overwrite(old(disk), at, data)
      ensures write && !ok ==> Touched(old(disk), disk, at, data)
      ensures Used(old(script), script) && (ok <==> Smooth(old(script), script))
    {
      hide Used, Smooth;
      out := data;
      if write {
        ok := WriteAll(at, data);
      } else {
        ok, out := ReadAll(at, |data|);
      }
    }
  }

  lemma Pieces(data: seq<int>, done: nat, n: nat)
    requires done + n <= |data|
    ensures data[..done] + data[done..][..n] == data[..done + n]
    ensures data[..done + n] + data[done + n..] == data
  {}

  lemma Slices(d: seq<int>, a: nat, b: nat, c: nat)
    requires a <= b <= c <= |d|
    ensures d[a..b] + d[b..c] == d[a..c]
  {}

  lemma WholeSectors(size: nat, m: nat)
    requires m > 0 && size >= m
    ensures 0 < size - size % m <= size
  {
    DivMod(size, m);
  }
}
