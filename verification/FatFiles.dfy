/** Bytes of a file: the chain's clusters one after another, read and written by `chain_bytes` of
    fs/fat32.c in runs of consecutive clusters. */
module FatFiles {
  import opened Arithmetic
  import opened FatBytes

  datatype Layout = Layout(dataStart: nat, clusterSize: nat)

  /** `cluster_at` */
  function ClusterAt(l: Layout, c: nat): nat
    requires c >= 2
  {
    l.dataStart + (c - 2) * l.clusterSize
  }

  /** Clusters of the data area, none twice. */
  ghost predicate ChainFits(l: Layout, chain: seq<nat>, size: nat) {
    && l.clusterSize > 0
    && (forall i :: 0 <= i < |chain| ==> 2 <= chain[i] && ClusterAt(l, chain[i]) + l.clusterSize <= size)
    && (forall i, j :: 0 <= i < j < |chain| ==> chain[i] != chain[j])
  }

  /** The chain position of byte p, and the byte's place in its cluster. */
  function Index(l: Layout, p: nat): nat
    requires l.clusterSize > 0
  {
    p / l.clusterSize
  }

  function Offset(l: Layout, p: nat): (r: nat)
    requires l.clusterSize > 0
    ensures r < l.clusterSize
  {
    p % l.clusterSize
  }

  /** The chain has a cluster for byte p. */
  ghost predicate InFile(l: Layout, chain: seq<nat>, p: nat)
    requires l.clusterSize > 0
  {
    Index(l, p) < |chain| && chain[Index(l, p)] >= 2
  }

  /** Where byte p of the file lies on the device. */
  ghost function Address(l: Layout, chain: seq<nat>, p: nat): nat
    requires l.clusterSize > 0 && InFile(l, chain, p)
  {
    ClusterAt(l, chain[Index(l, p)]) + Offset(l, p)
  }

  lemma ClustersApart(l: Layout, c: nat, d: nat)
    requires 2 <= c < d
    ensures ClusterAt(l, c) + l.clusterSize <= ClusterAt(l, d)
    ensures d == c + 1 ==> ClusterAt(l, d) == ClusterAt(l, c) + l.clusterSize
  {
    MulLe(c - 2 + 1, d - 2, l.clusterSize);
    Distribute(c - 2, 1, l.clusterSize);
  }

  /** Different bytes of a file lie at different places. */
  lemma AddressDistinct(l: Layout, chain: seq<nat>, size: nat, p: nat, q: nat)
    requires ChainFits(l, chain, size) && p != q && InFile(l, chain, p) && InFile(l, chain, q)
    ensures Address(l, chain, p) != Address(l, chain, q)
  {
    var m := l.clusterSize;
    var i, j := p / m, q / m;
    DivMod(p, m);
    DivMod(q, m);
    if i != j {
      var c, d := chain[i], chain[j];
      assert c != d;
      if c < d {
        ClustersApart(l, c, d);
      } else {
        ClustersApart(l, d, c);
      }
    }
  }

  lemma AddressBound(l: Layout, chain: seq<nat>, size: nat, p: nat)
    requires ChainFits(l, chain, size) && Index(l, p) < |chain|
    ensures InFile(l, chain, p) && Address(l, chain, p) < size
  {
    DivMod(p, l.clusterSize);
  }

  /** The bytes at to end - 1 of the file lie next to each other on the device. */
  ghost predicate Run(l: Layout, chain: seq<nat>, at: nat, end: nat)
    requires l.clusterSize > 0
  {
    InFile(l, chain, at)
        && forall p: nat ::
           at <= p < end ==> InFile(l, chain, p) && Address(l, chain, p) == Address(l, chain, at) + (p - at)
  }

  lemma WithinCluster(at: nat, p: nat, m: nat)
    requires m > 0 && at <= p && at % m + (p - at) < m
    ensures p / m == at / m && p % m == at % m + (p - at)
  {
    DivMod(at, m);
    Distribute(at / m, 1, m);
    BlockOf(p, at / m, m);
    ModIs(p, at / m, at % m + (p - at), m);
  }

  lemma SameCluster(l: Layout, chain: seq<nat>, at: nat, p: nat)
    requires l.clusterSize > 0 && InFile(l, chain, at) && p / l.clusterSize == at / l.clusterSize
    requires p % l.clusterSize == at % l.clusterSize + (p - at)
    ensures InFile(l, chain, p) && Address(l, chain, p) == Address(l, chain, at) + (p - at)
  {
    hide ClusterAt;
  }

  /** A run inside one cluster. */
  lemma ClusterRun(l: Layout, chain: seq<nat>, at: nat, end: nat)
    requires l.clusterSize > 0 && InFile(l, chain, at) && at <= end && Offset(l, at) + (end - at) <= l.clusterSize
    ensures Run(l, chain, at, end)
  {
    hide InFile, Address;
    var r, m := at % l.clusterSize, l.clusterSize;
    forall p: nat | at <= p < end
        ensures InFile(l, chain, p) && Address(l, chain, p) == Address(l, chain, at) + (p - at) {
      ClusterRunAt(l, chain, at, p, r);
    }
  }

  lemma ClusterRunAt(l: Layout, chain: seq<nat>, at: nat, p: nat, r: nat)
    requires l.clusterSize > 0 && InFile(l, chain, at) && at <= p && r == at % l.clusterSize
              && r + (p - at) < l.clusterSize
    ensures InFile(l, chain, p) && Address(l, chain, p) == Address(l, chain, at) + (p - at)
  {
    hide InFile, Address;
    WithinCluster(at, p, l.clusterSize);
    SameCluster(l, chain, at, p);
  }

  /** The next cluster on the device continues the run. */
  lemma ExtendRun(l: Layout, chain: seq<nat>, at: nat, mid: nat, end: nat)
    requires l.clusterSize > 0 && at < mid <= end <= mid + l.clusterSize && Run(l, chain, at, mid)
              && Offset(l, mid) == 0
    requires InFile(l, chain, mid) && InFile(l, chain, mid - 1) && chain[Index(l, mid)] == chain[Index(l, mid - 1)] + 1
    ensures Run(l, chain, at, end)
  {
    NextAddress(l, chain, mid);
    hide InFile, Address;
    ClusterRun(l, chain, mid, end);
    assert InFile(l, chain, mid - 1) && Address(l, chain, mid - 1) == Address(l, chain, at) + (mid - 1 - at);
  }

  lemma NextAddress(l: Layout, chain: seq<nat>, mid: nat)
    requires l.clusterSize > 0 && mid > 0 && mid % l.clusterSize == 0 && InFile(l, chain, mid)
              && InFile(l, chain, mid - 1)
    requires chain[mid / l.clusterSize] == chain[(mid - 1) / l.clusterSize] + 1
    ensures Address(l, chain, mid) == Address(l, chain, mid - 1) + 1
  {
    BoundaryBefore(mid, l.clusterSize);
    ClustersApart(l, chain[(mid - 1) / l.clusterSize], chain[mid / l.clusterSize]);
    hide ClusterAt;
  }

  lemma BoundaryBefore(p: nat, m: nat)
    requires m > 0 && p > 0 && p % m == 0
    ensures p >= m && (p - 1) / m == p / m - 1 && (p - 1) % m == m - 1
  {
    DivMod(p, m);
    assert p / m > 0;
    Distribute(p / m - 1, 1, m);
    BlockOf(p - 1, p / m - 1, m);
    ModIs(p - 1, p / m - 1, m - 1, m);
  }

  // ---------------------------------------------------------------- what a write leaves behind

  /** The bytes at to end - 1 of the file are those of data, and nothing else of the device changed. */
  ghost predicate Placed(d: seq<int>, d': seq<int>, l: Layout, chain: seq<nat>, at: nat, end: nat, data: seq<int>)
    requires l.clusterSize > 0
  {
    && |d'| == |d| && at <= end <= at + |data|
    && (forall p: nat ::
       at <= p < end ==> InFile(l, chain, p) && Address(l, chain, p) < |d| && d'[Address(l, chain, p)] == data[p - at])
    && (forall x ::
       0 <= x < |d| && (forall p: nat :: at <= p < end && InFile(l, chain, p) ==> Address(l, chain, p) != x) ==>
           d'[x] == d[x])
  }

  lemma PlacedMore(d: seq<int>, d1: seq<int>, l: Layout, chain: seq<nat>, at: nat, mid: nat, end: nat, data: seq<int>)
    requires ChainFits(l, chain, |d|) && Placed(d, d1, l, chain, at, mid, data) && Run(l, chain, mid, end)
    requires mid <= end <= at + |data| && Address(l, chain, mid) + (end - mid) <= |d1|
    ensures Placed(d, Overwrite(d1, Address(l, chain, mid), data[mid - at..end - at]), l, chain, at, end, data)
  {
    var base, x := Address(l, chain, mid), data[mid - at..end - at];
    var d2 := Overwrite(d1, base, x);
    forall p: nat | at <= p < end
        ensures InFile(l, chain, p) && Address(l, chain, p) < |d| && d2[Address(l, chain, p)] == data[p - at] {
      PlacedAt(d, d1, l, chain, at, mid, end, data, p);
    }
    forall y: nat | y < |d| && (forall p: nat :: at <= p < end && InFile(l, chain, p) ==> Address(l, chain, p) != y)
        ensures d2[y] == d[y] {
      OverwriteAt(d1, base, x, y);
      if base <= y < base + (end - mid) {
        RunCovers(l, chain, mid, end, y);
      }
    }
    SameLength(d1, base, x);
  }

  lemma RunCovers(l: Layout, chain: seq<nat>, mid: nat, end: nat, y: nat)
    requires l.clusterSize > 0 && Run(l, chain, mid, end)
              && Address(l, chain, mid) <= y < Address(l, chain, mid) + (end - mid)
    ensures exists p: nat :: mid <= p < end && InFile(l, chain, p) && Address(l, chain, p) == y
  {
    hide Address, InFile;
    assert InFile(l, chain, mid + (y - Address(l, chain, mid)));
  }

  lemma PlacedAt(d: seq<int>, d1: seq<int>, l: Layout, chain: seq<nat>, at: nat, mid: nat, end: nat, data: seq<int>,
                 p: nat)
    requires ChainFits(l, chain, |d|) && Placed(d, d1, l, chain, at, mid, data) && Run(l, chain, mid, end)
    requires mid <= end <= at + |data| && Address(l, chain, mid) + (end - mid) <= |d1| && at <= p < end
    ensures InFile(l, chain, p) && Address(l, chain, p) < |d|
    ensures |Overwrite(d1, Address(l, chain, mid), data[mid - at..end - at])| == |d|
    ensures Overwrite(d1, Address(l, chain, mid), data[mid - at..end - at])[Address(l, chain, p)] == data[p - at]
  {
    var base, x := Address(l, chain, mid), data[mid - at..end - at];
    if p < mid {
      var a := Address(l, chain, p);
      if base <= a < base + (end - mid) {
        var q := mid + (a - base);
        assert InFile(l, chain, q) && Address(l, chain, q) == a;
        AddressDistinct(l, chain, |d|, p, q);
      }
      hide Address, InFile;
      OverwriteAt(d1, base, x, a);
    } else {
      assert InFile(l, chain, p) && Address(l, chain, p) == base + (p - mid);
      hide Address, InFile;
      OverwriteAt(d1, base, x, Address(l, chain, p));
    }
  }

  /** Changed bytes belong to the range and have their new value. */
  ghost predicate Within(d: seq<int>, d': seq<int>, l: Layout, chain: seq<nat>, at: nat, data: seq<int>)
    requires l.clusterSize > 0
  {
    && |d'| == |d|
    && forall x: nat :: x < |d| ==>
         d'[x] == d[x]
             || exists p: nat ::
                at <= p < at + |data| && InFile(l, chain, p) && Address(l, chain, p) == x && d'[x] == data[p - at]
  }

  lemma FailedWithin(d: seq<int>, d1: seq<int>, d2: seq<int>, l: Layout, chain: seq<nat>, at: nat, mid: nat, end: nat,
                     data: seq<int>)
    requires l.clusterSize > 0 && Placed(d, d1, l, chain, at, mid, data) && Run(l, chain, mid, end)
              && at <= mid <= end <= at + |data|
    requires Touched(d1, d2, Address(l, chain, mid), data[mid - at..end - at])
    ensures Within(d, d2, l, chain, at, data)
  {
    hide Address, InFile;
    forall x: nat | x < |d| && d2[x] != d[x]
      ensures exists p: nat ::
                at <= p < at + |data| && InFile(l, chain, p) && Address(l, chain, p) == x && d2[x] == data[p - at]
    {
      var base := Address(l, chain, mid);
      if d2[x] != d1[x] {
        RunCovers(l, chain, mid, end, x);
        var p: nat :| mid <= p < end && InFile(l, chain, p) && Address(l, chain, p) == x;
      } else {
        assert exists p: nat :: at <= p < mid && InFile(l, chain, p) && Address(l, chain, p) == x;
      }
    }
  }

  // ---------------------------------------------------------------- chain_bytes

  /** The inner loop of `chain_bytes`: as many bytes from position at as lie together on the device, up to the
      request and the transfer limit. */
  method FindRun(l: Layout, chain: seq<nat>, at: nat, count: nat, ghost size: nat) returns (n: nat, ended: bool)
    requires ChainFits(l, chain, size) && Index(l, at) < |chain| && count > 0
    ensures 0 < n <= count && InFile(l, chain, at) && Run(l, chain, at, at + n)
    ensures ended ==> n < count && !InFile(l, chain, at + n)
  {
    hide Run, Address, InFile, Index, Offset, ClusterAt;
    var into := Offset(l, at);
    n := l.clusterSize - into;
    if n > count {
      n := count;
    }
    if n > TRANSFER_BYTES {
      n := TRANSFER_BYTES;
    }
    AddressBound(l, chain, size, at);
    ClusterRun(l, chain, at, at + n);
    ended := false;
    var last := chain[Index(l, at)];
    LastOfRun(l, at, n);
    while n < count && n < TRANSFER_BYTES && Offset(l, into + n) == 0
      invariant 0 < n <= count && Run(l, chain, at, at + n) && InFile(l, chain, at)
      invariant Index(l, at + n - 1) < |chain| && last == chain[Index(l, at + n - 1)]
      invariant !ended
    {
      BoundaryShift(l, at, n);
      if Index(l, at + n) >= |chain| {
        ended := true;
        NotInFile(l, chain, at + n);
        break;
      }
      var next := chain[Index(l, at + n)];
      if next != last + 1 {
        break;
      }
      var take := l.clusterSize;
      if take > count - n {
        take := count - n;
      }
      if take > TRANSFER_BYTES - n {
        take := TRANSFER_BYTES - n;
      }
      AddressBound(l, chain, size, at + n);
      AddressBound(l, chain, size, at + n - 1);
      ExtendRun(l, chain, at, at + n, at + n + take);
      LastOfRun(l, at + n, take);
      n, last := n + take, next;
    }
  }

  lemma NotInFile(l: Layout, chain: seq<nat>, p: nat)
    requires l.clusterSize > 0 && Index(l, p) >= |chain|
    ensures !InFile(l, chain, p)
  {}

  lemma LastOfRun(l: Layout, at: nat, n: nat)
    requires l.clusterSize > 0 && 0 < n && Offset(l, at) + n <= l.clusterSize
    ensures Index(l, at + n - 1) == Index(l, at)
  {
    WithinCluster(at, at + n - 1, l.clusterSize);
  }

  lemma BoundaryShift(l: Layout, at: nat, n: nat)
    requires l.clusterSize > 0 && Offset(l, Offset(l, at) + n) == 0
    ensures Offset(l, at + n) == 0
  {
    var m := l.clusterSize;
    var q, r := at / m, at % m;
    DivMod(at, m);
    DivMod(r + n, m);
    Distribute(q, (r + n) / m, m);
    ModIs(at + n, q + (r + n) / m, 0, m);
  }

  /** A run ends inside the device. */
  lemma RunBound(l: Layout, chain: seq<nat>, size: nat, at: nat, end: nat)
    requires ChainFits(l, chain, size) && at < end && Run(l, chain, at, end)
    ensures Address(l, chain, at) + (end - at) <= size
  {
    assert InFile(l, chain, end - 1) && Address(l, chain, end - 1) == Address(l, chain, at) + (end - 1 - at);
    AddressBound(l, chain, size, end - 1);
  }

  /** The file's bytes at to end - 1 are in out. */
  ghost predicate ReadBack(d: seq<int>, l: Layout, chain: seq<nat>, at: nat, end: nat, out: seq<int>)
    requires l.clusterSize > 0
  {
    at <= end && |out| == end - at
    && forall p: nat ::
       at <= p < end ==> InFile(l, chain, p) && Address(l, chain, p) < |d| && out[p - at] == d[Address(l, chain, p)]
  }

  lemma ReadMore(d: seq<int>, l: Layout, chain: seq<nat>, at: nat, mid: nat, end: nat, out: seq<int>)
    requires l.clusterSize > 0 && ReadBack(d, l, chain, at, mid, out) && mid <= end && Run(l, chain, mid, end)
    requires Address(l, chain, mid) + (end - mid) <= |d|
    ensures ReadBack(d, l, chain, at, end, out + d[Address(l, chain, mid)..Address(l, chain, mid) + (end - mid)])
  {
    hide Address, InFile;
  }

  /** `chain_bytes`: moves the addressed bytes of the file and no others. It stops early only where a device request
      has failed or the chain ends, and then the part already moved is right. */
  method ChainBytes(layer: Layer, l: Layout, chain: seq<nat>, at: nat, data: seq<int>, write: bool)
    returns (ok: bool, done: nat, out: seq<int>, failed: bool)
    requires layer.Valid() && ChainFits(l, chain, |layer.disk|)
    modifies layer
    ensures layer.Valid() && |layer.disk| == |old(layer.disk)| && done <= |data| && (ok ==> done == |data|)
    ensures !write ==> layer.disk == old(layer.disk) && ReadBack(layer.disk, l, chain, at, at + done, out)
    ensures write && !failed ==> Placed(old(layer.disk), layer.disk, l, chain, at, at + done, data)
    ensures write && failed ==> Within(old(layer.disk), layer.disk, l, chain, at, data)
    ensures !ok && !failed ==> done < |data| && !InFile(l, chain, at + done)
    ensures failed ==> !ok
    ensures Used(old(layer.script), layer.script) && (failed <==> !Smooth(old(layer.script), layer.script))
  {
    hide InFile, Address, Index, Run, Placed, Within, ReadBack, Overwrite, Touched, Used, Smooth;
    ghost var size := |layer.disk|;
    done, out, failed, ok := 0, [], false, true;
    NothingYet(layer.disk, l, chain, at, data);
    NoneUsed(layer.script);
    while done < |data|
      invariant layer.Valid() && |layer.disk| == size == |old(layer.disk)| && done <= |data| && !failed && ok
      invariant !write ==> layer.disk == old(layer.disk) && ReadBack(layer.disk, l, chain, at, at + done, out)
      invariant write ==> Placed(old(layer.disk), layer.disk, l, chain, at, at + done, data)
      invariant Used(old(layer.script), layer.script) && Smooth(old(layer.script), layer.script)
    {
      var p := at + done;
      if Index(l, p) >= |chain| {
        NotInFile(l, chain, p);
        ok := false;
        return;
      }
      var n, ended := FindRun(l, chain, p, |data| - done, size);
      RunBound(l, chain, size, p, p + n);
      var from := ClusterAt(l, chain[Index(l, p)]) + Offset(l, p);
      AddressIs(l, chain, p);
      ghost var before, left := layer.disk, layer.script;
      var moved, piece := layer.Bytes(from, data[done..done + n], write);
      UsedTwice(old(layer.script), left, layer.script);
      if !moved {
        if write {
          FailedWithin(old(layer.disk), before, layer.disk, l, chain, at, p, p + n, data);
        }
        ok, failed := false, true;
        return;
      }
      if write {
        PlacedMore(old(layer.disk), before, l, chain, at, p, p + n, data);
      } else {
        ReadMore(layer.disk, l, chain, at, p, p + n, out);
        out := out + piece;
      }
      done := done + n;
      if ended {
        ok := false;
        return;
      }
    }
  }

  lemma AddressIs(l: Layout, chain: seq<nat>, p: nat)
    requires l.clusterSize > 0 && InFile(l, chain, p)
    ensures Index(l, p) < |chain| && chain[Index(l, p)] >= 2
              && Address(l, chain, p) == ClusterAt(l, chain[Index(l, p)]) + Offset(l, p)
  {}

  lemma NothingYet(d: seq<int>, l: Layout, chain: seq<nat>, at: nat, data: seq<int>)
    requires l.clusterSize > 0
    ensures Placed(d, d, l, chain, at, at, data) && ReadBack(d, l, chain, at, at, [])
  {}

  /** Reading back what was written gives it back. */
  lemma WriteThenRead(d: seq<int>, d': seq<int>, l: Layout, chain: seq<nat>, at: nat, data: seq<int>, out: seq<int>)
    requires l.clusterSize > 0 && Placed(d, d', l, chain, at, at + |data|, data)
              && ReadBack(d', l, chain, at, at + |data|, out)
    ensures out == data
  {
    hide Address, InFile;
    forall i | 0 <= i < |data| ensures out[i] == data[i] {
      assert InFile(l, chain, at + i);
    }
  }
}
