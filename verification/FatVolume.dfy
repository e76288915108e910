/** The cluster operations of fs/fat32.c on a mounted volume, free of media errors: measuring, finding,
    allocating, growing, trimming and freeing chains. Files never share a cluster and the free count is
    the number of zero entries. */
module FatVolume {
  import opened Arithmetic
  import opened Wrappers
  import opened FatChains

  /** `measure`: succeeds exactly on a well-formed chain that is long enough, whatever the table holds. The
      two extra walkers are the cycle test. */
  method Measure(fat: seq<nat>, first: nat, clusterSize: nat, size: nat) returns (ok: bool, count: nat, tail: nat)
    requires |fat| > 2
    ensures ok <==> exists s :: IsChain(fat, first, s) && size <= |s| * clusterSize
    ensures ok ==> exists s :: IsChain(fat, first, s) && count == |s| && tail == Last(s)
  {
    var c, slow, fast := first, first, first;
    ok, count, tail := false, 0, 0;
    while c != 0
      invariant Walk(fat, first, count) == Some(c) && Walk(fat, first, count) == Some(slow)
      invariant Walk(fat, first, 2 * count) == Some(fast)
      invariant count <= |fat| - 2
      invariant count > 0 ==> tail != 0 && Walk(fat, first, count - 1) == Some(tail)
      invariant count == 0 ==> tail == 0
      decreases |fat| - 2 - count
    {
      if !(2 <= c < |fat|) || count + 1 > |fat| - 2 {
        NoChainHere(fat, first, count, c);
        return;
      }
      tail := c;
      var n := Next(fat, c);
      if n.None? {
        NoChainHere(fat, first, count, c);
        return;
      }
      ghost var was := count;
      count := count + 1;
      c := n.value;
      if slow != 0 {
        slow := n.value;
      }
      var ahead := StepFast(fat, first, fast, 2 * was);
      if ahead.None? {
        NoWalk(fat, first, 2 * count);
        return;
      }
      fast := ahead.value;
      if slow != 0 && slow == fast {
        NoCycle(fat, first, count, slow);
        return;
      }
    }
    ghost var s := WalkMakes(fat, first, count);
    MeasuredChain(fat, first, s, count, tail);
    ok := size <= count * clusterSize;
    forall t | IsChain(fat, first, t) ensures t == s {
      ChainUnique(fat, first, s, t);
    }
  }

  /** Two steps of the fast walker. */
  method StepFast(fat: seq<nat>, ghost first: nat, fast: nat, ghost k: nat) returns (r: Option<nat>)
    requires Walk(fat, first, k) == Some(fast)
    ensures r == Walk(fat, first, k + 2)
  {
    r := Some(fast);
    if r.value != 0 {
      if !(2 <= fast < |fat|) {
        r := None;
      } else {
        r := Next(fat, fast);
      }
    }
    assert r == Walk(fat, first, k + 1);
    if r.Some? && r.value != 0 {
      if !(2 <= r.value < |fat|) {
        r := None;
      } else {
        r := Next(fat, r.value);
      }
    }
  }

  lemma WalkInChain(fat: seq<nat>, first: nat, s: seq<nat>, k: nat, c: nat)
    requires |fat| > 2 && IsChain(fat, first, s) && Walk(fat, first, k) == Some(c) && c != 0
    ensures k < |s| <= |fat| - 2 && s[k] == c && ValidCluster(fat, c) && Next(fat, c).Some?
  {
    ChainWalk(fat, first, s, k);
    ChainBound(fat, first, s);
    ChainEntry(fat, first, s, k);
  }

  /** A walk that stands on no cluster, or on too many, or on a bad link, is no chain's. */
  lemma NoChainHere(fat: seq<nat>, first: nat, k: nat, c: nat)
    requires |fat| > 2 && Walk(fat, first, k) == Some(c) && c != 0
    requires !ValidCluster(fat, c) || k + 1 > |fat| - 2 || Next(fat, c).None?
    ensures forall s :: !IsChain(fat, first, s)
  {
    forall s ensures !IsChain(fat, first, s) {
      if IsChain(fat, first, s) {
        WalkInChain(fat, first, s, k, c);
      }
    }
  }

  lemma NoWalk(fat: seq<nat>, first: nat, k: nat)
    requires Walk(fat, first, k).None?
    ensures forall s :: !IsChain(fat, first, s)
  {
    forall s ensures !IsChain(fat, first, s) {
      if IsChain(fat, first, s) {
        ChainWalk(fat, first, s, k);
      }
    }
  }

  lemma NoCycle(fat: seq<nat>, first: nat, k: nat, c: nat)
    requires k > 0 && c != 0 && Walk(fat, first, k) == Some(c) && Walk(fat, first, 2 * k) == Some(c)
    ensures forall s :: !IsChain(fat, first, s)
  {
    forall s ensures !IsChain(fat, first, s) {
      if IsChain(fat, first, s) {
        ChainWalk(fat, first, s, k);
        ChainWalk(fat, first, s, 2 * k);
        if 2 * k < |s| {
          ChainDistinct(fat, first, s, k, 2 * k);
        }
      }
    }
  }

  lemma MeasuredChain(fat: seq<nat>, first: nat, s: seq<nat>, count: nat, tail: nat)
    requires IsChain(fat, first, s) && |s| <= count
    requires if count > 0 then tail != 0 && Walk(fat, first, count - 1) == Some(tail) else tail == 0
    ensures count == |s| && tail == Last(s)
  {
    if count > 0 {
      ChainWalk(fat, first, s, count - 1);
    }
  }

  // ---------------------------------------------------------------- the volume

  /** The chain fields of struct fat_inode. */
  datatype File = File(first: nat, tail: nat, clusters: nat, measured: bool, cursor: nat, cursorIndex: nat)

  /** f describes chain s: the measured fields, and a cursor that is 0 or stands on the cluster it names. */
  predicate FileOk(fat: seq<nat>, f: File, s: seq<nat>) {
    && IsChain(fat, f.first, s)
    && (f.measured ==> f.clusters == |s| && f.tail == Last(s))
    && (f.cursor != 0 ==> f.cursorIndex < |s| && f.cursor == s[f.cursorIndex])
  }

  /** Every file has its chain, and no two files share a cluster. */
  ghost predicate FilesOk(fat: seq<nat>, files: map<nat, File>, chains: map<nat, seq<nat>>) {
    && files.Keys == chains.Keys
    && (forall id :: id in files ==> FileOk(fat, files[id], chains[id]))
    && (forall a, b, c :: a in chains && b in chains && a != b && c in chains[a] ==> c !in chains[b])
  }

  /** A change outside the other files' chains leaves them alone. */
  lemma OthersKept(fat: seq<nat>, fat': seq<nat>, files: map<nat, File>, chains: map<nat, seq<nat>>, id: nat, f: File,
                   s: seq<nat>)
    requires FilesOk(fat, files, chains) && id in files && |fat'| == |fat| && FileOk(fat', f, s)
    requires forall c: nat :: ValidCluster(fat, c) && fat'[c] != fat[c] ==> c in chains[id] || c in s
    requires forall c :: c in s ==> c in chains[id] || (ValidCluster(fat, c) && fat[c] == 0)
    ensures FilesOk(fat', files[id := f], chains[id := s])
  {
    forall b | b in files && b != id ensures FileOk(fat', files[b], chains[b]) {
      var t := chains[b];
      forall i | 0 <= i < |t| ensures t[i] < |fat| && fat'[t[i]] == fat[t[i]] {
        ChainEntry(fat, files[b].first, t, i);
        assert t[i] in t;
      }
      ChainFrame(fat, fat', files[b].first, t);
    }
    forall b, c | b in chains && b != id && c in s ensures c !in chains[b] {
      if c in chains[b] {
        var i :| 0 <= i < |chains[b]| && chains[b][i] == c;
        ChainEntry(fat, files[b].first, chains[b], i);
      }
    }
  }

  lemma NextPosition(start: nat, k: nat, n: nat)
    requires start < n && k < n
    ensures Ahead(start, k + 1, n) == if Ahead(start, k, n) + 1 == n then 0 else Ahead(start, k, n) + 1
  {
    AheadTwice(start, k, 1, n);
    var p := Ahead(start, k, n);
    AheadIs(p, 1, n, if p + 1 == n then 0 else p + 1);
  }

  /** A scan of all positions from any start misses none. */
  lemma AllTried(fat: seq<nat>, start: nat, n: nat)
    requires n > 0 && |fat| == n + 2 && start < n
    requires forall k: nat :: k < n ==> fat[2 + Ahead(start, k, n)] != 0
    ensures forall x: nat :: ValidCluster(fat, x) ==> fat[x] != 0
  {
    forall x: nat | ValidCluster(fat, x) ensures fat[x] != 0 {
      var k := if x - 2 >= start then x - 2 - start else x - 2 + n - start;
      AheadIs(start, k, n, x - 2);
      assert fat[2 + Ahead(start, k, n)] != 0;
    }
  }

  /** Marking a free cluster touches no chain. */
  lemma MarkKeepsFiles(fat: seq<nat>, x: nat, v: nat, files: map<nat, File>, chains: map<nat, seq<nat>>)
    requires FilesOk(fat, files, chains) && ValidCluster(fat, x) && fat[x] == 0
    ensures FilesOk(fat[x := v], files, chains)
  {
    forall b | b in files ensures FileOk(fat[x := v], files[b], chains[b]) {
      var t := chains[b];
      forall i | 0 <= i < |t| ensures t[i] < |fat| && fat[x := v][t[i]] == fat[t[i]] {
        ChainEntry(fat, files[b].first, t, i);
      }
      ChainFrame(fat, fat[x := v], files[b].first, t);
    }
  }

  /** A table that differs only on the clusters of s, which grew out of s0 by free clusters. */
  ghost predicate GrownOnly(fat0: seq<nat>, fat: seq<nat>, s0: seq<nat>, s: seq<nat>) {
    && |fat| == |fat0| && (forall x: nat :: x < |fat| && x !in s ==> fat[x] == fat0[x])
    && forall x: nat :: x < |fat| && x in s ==> x in s0 || fat0[x] == 0
  }

  lemma NotGrown(fat: seq<nat>, s: seq<nat>)
    ensures GrownOnly(fat, fat, s, s)
  {}

  lemma GrownMore(fat0: seq<nat>, fat: seq<nat>, fat': seq<nat>, s0: seq<nat>, s: seq<nat>, c: nat)
    requires GrownOnly(fat0, fat, s0, s) && c < |fat| && fat[c] == 0 && |fat'| == |fat|
    requires forall x: nat :: x < |fat| && x !in s && x != c ==> fat'[x] == fat[x]
    ensures GrownOnly(fat0, fat', s0, s + [c])
  {}

  lemma MeasuredLength(fat: seq<nat>, files: map<nat, File>, chains: map<nat, seq<nat>>, id: nat)
    requires FilesOk(fat, files, chains) && id in files && files[id].measured
    ensures id in chains && files[id].clusters == |chains[id]|
  {}

  lemma FewerFiles(fat: seq<nat>, files: map<nat, File>, chains: map<nat, seq<nat>>, id: nat)
    requires FilesOk(fat, files, chains) && id in files
    ensures id in chains && FilesOk(fat, files - {id}, chains - {id})
  {
    hide FileOk;
  }

  class Volume {
    var fat: seq<nat>
    var freeClusters: nat
    var nextFree: nat
    var files: map<nat, File>
    ghost var chains: map<nat, seq<nat>>

    ghost predicate Valid()
      reads this
    {
      Geometry(fat) && freeClusters == Zeros(fat) && FilesOk(fat, files, chains)
    }

    /** Mounting counts the zero entries. */
    constructor (table: seq<nat>)
      requires Geometry(table)
      ensures Valid() && fat == table && files == map[]
    {
      fat, files, chains, nextFree := table, map[], map[], 0;
      var free, c := 0, 2;
      while c < |table|
        invariant 2 <= c <= |table| && free == Zeros(table[..c])
      {
        assert table[..c + 1][..c] == table[..c];
        if table[c] == 0 {
          free := free + 1;
        }
        c := c + 1;
      }
      assert table[..c] == table;
      freeClusters := free;
    }

    /** `measure` on a file of the volume, which cannot fail when the chain is long enough. */
    method MeasureFile(id: nat, clusterSize: nat, size: nat) returns (ok: bool)
      requires Valid() && id in files
      modifies this`files
      ensures Valid() && files.Keys == old(files.Keys)
      ensures !old(files[id].measured) ==> (ok <==> size <= |chains[id]| * clusterSize)
      ensures ok ==>
                files[id].measured && files == old(files)[id := files[id]] && files[id].cursor == old(files[id]).cursor
      ensures !ok ==> files == old(files)
    {
      var f := files[id];
      if f.measured {
        return true;
      }
      var count, tail;
      ok, count, tail := Measure(fat, f.first, clusterSize, size);
      forall t | IsChain(fat, f.first, t) ensures t == chains[id] {
        ChainUnique(fat, f.first, chains[id], t);
      }
      if ok {
        files := files[id := File(f.first, tail, count, true, f.cursor, f.cursorIndex)];
      }
    }

    /** `cluster_index`: the cluster at a position, found from the cursor when it is not past it. */
    method ClusterIndex(id: nat, index: nat) returns (c: Option<nat>)
      requires Valid() && id in files && files[id].measured
      modifies this`files
      ensures Valid() && c == (if index < |chains[id]| then Some(chains[id][index]) else None)
      ensures files == old(files)[id := files[id]] && files[id].measured
      ensures files[id].first == old(files[id]).first && files[id].tail == old(files[id]).tail
                && files[id].clusters == old(files[id]).clusters
    {
      var f := files[id];
      if index >= f.clusters {
        return None;
      }
      ghost var s := chains[id];
      var at, x := 0, f.first;
      if f.cursor != 0 && f.cursorIndex <= index {
        x, at := f.cursor, f.cursorIndex;
      }
      while at < index
        invariant at <= index < |s| && x == s[at] && files == old(files)
      {
        ChainEntry(fat, f.first, s, at);
        x := Next(fat, x).value;
        at := at + 1;
      }
      ChainEntry(fat, f.first, s, index);
      files := files[id := File(f.first, f.tail, f.clusters, true, x, index)];
      return Some(x);
    }

    /** `allocate_cluster`: a free cluster marked as an end, or nothing exactly when the table is full. */
    method Allocate() returns (c: Option<nat>)
      requires Valid()
      modifies this`fat, this`freeClusters, this`nextFree
      ensures Valid()
      ensures c.None? ==>
                fat == old(fat) && freeClusters == old(freeClusters)
                    && forall x: nat :: ValidCluster(fat, x) ==> fat[x] != 0
      ensures c.Some? ==> ValidCluster(old(fat), c.value) && old(fat)[c.value] == 0
      ensures c.Some? ==> fat == old(fat)[c.value := END_OF_CHAIN] && freeClusters == old(freeClusters) - 1
    {
      var x := nextFree;
      if !(2 <= x < |fat|) {
        x := 2;
      }
      ghost var start, n := x - 2, |fat| - 2;
      AheadIs(start, 0, n, start);
      var tried := 0;
      while tried < |fat| - 2
        invariant tried <= n && fat == old(fat) && freeClusters == old(freeClusters) && Valid()
        invariant x == 2 + Ahead(start, tried, n)
        invariant forall k: nat :: k < tried ==> fat[2 + Ahead(start, k, n)] != 0
      {
        hide Ahead;
        if fat[x] == 0 {
          ZerosPositive(fat, x);
          ZerosUpdate(fat, x, END_OF_CHAIN);
          MarkKeepsFiles(fat, x, END_OF_CHAIN, files, chains);
          fat := fat[x := END_OF_CHAIN];
          freeClusters, nextFree := freeClusters - 1, x + 1;
          return Some(x);
        }
        NextPosition(start, tried, n);
        x := x + 1;
        if x == |fat| {
          x := 2;
        }
        tried := tried + 1;
      }
      AllTried(fat, start, n);
      return None;
    }

    /** One round of `grow_chain`: link the allocated cluster behind the tail. */
    method LinkTail(id: nat, c: nat, ghost before: seq<nat>)
      requires Geometry(before) && FilesOk(before, files, chains) && id in files && files[id].measured
      requires ValidCluster(before, c) && before[c] == 0 && fat == before[c := END_OF_CHAIN]
                && freeClusters == Zeros(fat)
      modifies this`fat, this`files, this`chains
      ensures Valid() && chains == old(chains)[id := old(chains[id]) + [c]]
      ensures files == old(files)[id := files[id]] && files[id].measured
                && files[id].clusters == old(files[id]).clusters + 1
      ensures |fat| == |old(fat)| && forall x: nat :: x < |fat| && x !in old(chains[id]) ==> fat[x] == old(fat)[x]
    {
      var f := files[id];
      ghost var s := chains[id];
      ghost var marked := fat;
      LinkFacts(before, marked, f, s, c);
      if f.tail != 0 {
        ZerosUpdate(fat, f.tail, c);
        fat := fat[f.tail := c];
      } else {
        f := f.(first := c);
      }
      f := f.(tail := c, clusters := f.clusters + 1);
      OthersKept(before, fat, files, chains, id, f, s + [c]);
      files := files[id := f];
      chains := chains[id := s + [c]];
    }

    /** `grow_chain`: adds clusters at the end until there are count of them or none is free. */
    method Grow(id: nat, count: nat) returns (ok: bool)
      requires Valid() && id in files && files[id].measured
      modifies this`fat, this`freeClusters, this`nextFree, this`files, this`chains
      ensures Valid() && files.Keys == old(files.Keys) && files[id].measured
      ensures old(chains[id]) <= chains[id] && chains == old(chains)[id := chains[id]]
      ensures freeClusters + |chains[id]| == old(freeClusters) + |old(chains[id])|
      ensures ok ==> |chains[id]| == if count > |old(chains[id])| then count else |old(chains[id])|
      ensures !ok ==> |chains[id]| < count && freeClusters == 0
      ensures GrownOnly(old(fat), fat, old(chains[id]), chains[id])
    {
      hide IsChain, Zeros, FilesOk, GrownOnly;
      MeasuredLength(fat, files, chains, id);
      NotGrown(fat, chains[id]);
      while files[id].clusters < count
        invariant Valid() && files.Keys == old(files.Keys) && files[id].measured
        invariant id in chains && files[id].clusters == |chains[id]|
        invariant old(chains[id]) <= chains[id] && chains == old(chains)[id := chains[id]]
        invariant freeClusters + |chains[id]| == old(freeClusters) + |old(chains[id])|
        invariant |chains[id]| == |old(chains[id])| || |chains[id]| <= count
        invariant GrownOnly(old(fat), fat, old(chains[id]), chains[id])
        decreases count - files[id].clusters
      {
        ghost var before, s := fat, chains[id];
        var c := Allocate();
        if c.None? {
          NoneFree(fat);
          return false;
        }
        LinkTail(id, c.value, before);
        GrownMore(old(fat), before, fat, old(chains[id]), s, c.value);
      }
      return true;
    }

    /** One round of `free_chain`. */
    method FreeOne(c: nat, ghost t: seq<nat>) returns (next: nat)
      requires Valid() && c != 0 && IsChain(fat, c, t) && forall id :: id in chains ==> c !in chains[id]
      modifies this`fat, this`freeClusters, this`nextFree
      ensures Valid() && freeClusters == old(freeClusters) + 1
      ensures t != [] && t[0] == c && c < |old(fat)| && fat == old(fat)[c := 0]
      ensures IsChain(fat, next, t[1..])
    {
      FreeFacts(fat, c, t);
      ZerosUpdate(fat, c, 0);
      FreeKeepsFiles(fat, c, files, chains);
      next := Next(fat, c).value;
      fat := fat[c := 0];
      freeClusters := freeClusters + 1;
      if c < nextFree {
        nextFree := c;
      }
    }

    /** `free_chain`: every cluster of the chain becomes free, and no other. */
    method FreeChain(first: nat, ghost s: seq<nat>)
      requires Valid() && IsChain(fat, first, s)
      requires forall id, c :: id in chains && c in s ==> c !in chains[id]
      modifies this`fat, this`freeClusters, this`nextFree
      ensures Valid() && |fat| == |old(fat)| && freeClusters == old(freeClusters) + |s|
      ensures forall x: nat :: x < |fat| ==> fat[x] == if x in s then 0 else old(fat)[x]
    {
      hide IsChain, FilesOk, Zeros;
      var c: nat, n: nat := first, 0;
      ghost var t := s;
      ChainBound(fat, first, s);
      while c != 0
        invariant Valid() && |fat| == |old(fat)| && n <= |s| <= |fat| - 2 && t == s[n..] && IsChain(fat, c, t)
        invariant freeClusters == old(freeClusters) + n
        invariant forall x: nat :: x < |fat| ==> fat[x] == if x in s[..n] then 0 else old(fat)[x]
        invariant forall id, c :: id in chains && c in s ==> c !in chains[id]
        decreases |s| - n
      {
        StartOfChain(fat, c, t);
        assert s[n] == c && c in s;
        c := FreeOne(c, t);
        assert s[..n + 1] == s[..n] + [s[n]];
        t, n := t[1..], n + 1;
      }
      EndOfChain(fat, t);
      assert s[..n] == s;
    }

    /** The first part of `trim_chain`: the chain ends after count clusters and the rest belongs to no file. */
    method Cut(id: nat, count: nat) returns (rest: nat)
      requires Valid() && id in files && files[id].measured && count < |chains[id]|
      modifies this`fat, this`files, this`chains
      ensures Valid() && files.Keys == old(files.Keys) && files[id].measured
                && chains == old(chains)[id := old(chains[id])[..count]]
      ensures IsChain(fat, rest, old(chains[id])[count..]) && freeClusters == old(freeClusters)
      ensures |fat| == |old(fat)| && forall x: nat :: x < |fat| && x !in old(chains[id]) ==> fat[x] == old(fat)[x]
    {
      ghost var s := chains[id];
      if count > 0 {
        var c := ClusterIndex(id, count - 1);
        var tail := c.value;
        CutFacts(fat, files[id].first, s, count);
        hide IsChain, Zeros, FilesOk;
        rest := Next(fat, tail).value;
        ZerosUpdate(fat, tail, END_OF_CHAIN);
        var f := File(files[id].first, tail, count, true, 0, files[id].cursorIndex);
        assert FileOk(fat[tail := END_OF_CHAIN], f, s[..count]);
        Keep(id, f, fat[tail := END_OF_CHAIN], s[..count]);
      } else {
        hide IsChain, Zeros;
        NothingKept(fat);
        rest := files[id].first;
        assert s[..0] == [] && s[0..] == s;
        Keep(id, File(0, 0, 0, true, 0, files[id].cursorIndex), fat, []);
      }
    }

    /** `trim_chain`: keeps the first count clusters and frees the others. */
    method Trim(id: nat, count: nat)
      requires Valid() && id in files && files[id].measured
      modifies this`fat, this`freeClusters, this`nextFree, this`files, this`chains
      ensures Valid() && files.Keys == old(files.Keys) && files[id].measured && id in chains
      ensures chains
                == old(chains)[id := if count < |old(chains[id])| then old(chains[id])[..count] else old(chains[id])]
      ensures freeClusters + |chains[id]| == old(freeClusters) + |old(chains[id])|
      ensures |fat| == |old(fat)| && forall x: nat :: x < |fat| && x !in old(chains[id]) ==> fat[x] == old(fat)[x]
    {
      ghost var s := chains[id];
      if count >= files[id].clusters {
        return;
      }
      RestIsLoose(fat, files, chains, id, count, chains[id := s[..count]]);
      hide IsChain, Zeros, FilesOk;
      var rest := Cut(id, count);
      FreeChain(rest, s[count..]);
    }

    /** A file goes on with a part of its chain. */
    method Keep(id: nat, f: File, table: seq<nat>, ghost t: seq<nat>)
      requires Valid() && id in files && |table| == |fat| && Zeros(table) == Zeros(fat) && FileOk(table, f, t)
      requires forall c: nat :: ValidCluster(fat, c) && table[c] != fat[c] ==> c in chains[id]
      requires forall c :: c in t ==> c in chains[id]
      modifies this`fat, this`files, this`chains
      ensures Valid() && fat == table && files == old(files)[id := f] && chains == old(chains)[id := t]
    {
      OthersKept(fat, table, files, chains, id, f, t);
      fat, files, chains := table, files[id := f], chains[id := t];
    }

    /** A file that a directory record names comes into view, with the chain it has on the disk, not yet measured. */
    method Enter(id: nat, first: nat, ghost s: seq<nat>)
      requires Valid() && id !in files && IsChain(fat, first, s)
      requires forall b, c :: b in chains && c in s ==> c !in chains[b]
      modifies this`files, this`chains
      ensures Valid() && files == old(files)[id := File(first, 0, 0, false, 0, 0)] && chains == old(chains)[id := s]
    {
      hide IsChain;
      files, chains := files[id := File(first, 0, 0, false, 0, 0)], chains[id := s];
    }

    /** A new empty file. */
    method Create(id: nat)
      requires Valid() && id !in files
      modifies this`files, this`chains
      ensures Valid() && files.Keys == old(files.Keys) + {id} && chains == old(chains)[id := []]
    {
      files, chains := files[id := File(0, 0, 0, true, 0, 0)], chains[id := []];
    }

    /** A file goes away with all its clusters. */
    method Remove(id: nat)
      requires Valid() && id in files && files[id].measured
      modifies this`fat, this`freeClusters, this`nextFree, this`files, this`chains
      ensures Valid() && files.Keys == old(files.Keys) - {id} && chains == old(chains) - {id}
      ensures freeClusters == old(freeClusters) + |old(chains[id])|
      ensures |fat| == |old(fat)| && forall x: nat :: x < |fat| && x !in old(chains[id]) ==> fat[x] == old(fat)[x]
    {
      hide IsChain, Zeros, FilesOk;
      FewerFiles(fat, files, chains, id);
      Trim(id, 0);
      FewerFiles(fat, files, chains, id);
      files, chains := files - {id}, chains - {id};
    }
  }

  lemma {:induction false} NoneFree(fat: seq<nat>)
    requires forall x: nat :: ValidCluster(fat, x) ==> fat[x] != 0
    ensures Zeros(fat) == 0
    decreases |fat|
  {
    if |fat| > 2 {
      assert ValidCluster(fat, |fat| - 1);
      var rest := fat[..|fat| - 1];
      forall x: nat | ValidCluster(rest, x) ensures rest[x] != 0 {
        assert ValidCluster(fat, x);
      }
      NoneFree(rest);
    }
  }

  /** The file after linking cluster c, free before, behind its tail. */
  lemma LinkFacts(before: seq<nat>, marked: seq<nat>, f: File, s: seq<nat>, c: nat)
    requires Geometry(before) && FileOk(before, f, s) && f.measured
    requires ValidCluster(before, c) && before[c] == 0 && marked == before[c := END_OF_CHAIN]
    ensures c !in s && (f.tail == 0 <==> s == [])
    ensures f.tail != 0 ==> ValidCluster(marked, f.tail) && marked[f.tail] != 0 && f.tail in s
    ensures f.tail == 0 ==> FileOk(marked, f.(first := c, tail := c, clusters := f.clusters + 1), s + [c])
    ensures f.tail != 0 ==> FileOk(marked[f.tail := c], f.(tail := c, clusters := f.clusters + 1), s + [c])
  {
    forall i | 0 <= i < |s|
        ensures ValidCluster(before, s[i]) && before[s[i]] != 0 && s[i] != c && marked[s[i]] == before[s[i]] {
      ChainEntry(before, f.first, s, i);
    }
    ChainFrame(before, marked, f.first, s);
    ChainAppend(marked, f.first, s, c);
    assert s == [] ==> s + [c] == [c];
  }

  lemma StartOfChain(fat: seq<nat>, c: nat, t: seq<nat>)
    requires IsChain(fat, c, t) && c != 0
    ensures t != [] && t[0] == c
  {}

  lemma EndOfChain(fat: seq<nat>, t: seq<nat>)
    requires IsChain(fat, 0, t)
    ensures t == []
  {}

  /** The first cluster of a chain being freed. */
  lemma FreeFacts(fat: seq<nat>, c: nat, t: seq<nat>)
    requires c != 0 && IsChain(fat, c, t)
    ensures t != [] && t[0] == c && ValidCluster(fat, c) && fat[c] != 0 && Next(fat, c).Some?
    ensures IsChain(fat[c := 0], Next(fat, c).value, t[1..])
  {
    ChainEntry(fat, c, t, 0);
    var u := t[1..];
    forall i | 0 <= i < |u| ensures u[i] < |fat| && fat[c := 0][u[i]] == fat[u[i]] {
      ChainEntry(fat, c, t, i + 1);
      ChainDistinct(fat, c, t, 0, i + 1);
    }
    ChainFrame(fat, fat[c := 0], Next(fat, c).value, u);
  }

  /** Freeing a cluster that no file owns touches no chain. */
  lemma FreeKeepsFiles(fat: seq<nat>, x: nat, files: map<nat, File>, chains: map<nat, seq<nat>>)
    requires FilesOk(fat, files, chains) && ValidCluster(fat, x) && forall id :: id in chains ==> x !in chains[id]
    ensures FilesOk(fat[x := 0], files, chains)
  {
    forall b | b in files ensures FileOk(fat[x := 0], files[b], chains[b]) {
      var t := chains[b];
      forall i | 0 <= i < |t| ensures t[i] < |fat| && fat[x := 0][t[i]] == fat[t[i]] {
        ChainEntry(fat, files[b].first, t, i);
        assert t[i] in t;
      }
      ChainFrame(fat, fat[x := 0], files[b].first, t);
    }
  }

  lemma NothingKept(fat: seq<nat>)
    ensures IsChain(fat, 0, [])
  {}

  /** What cutting behind position count - 1 leaves of a chain, and what it cuts off. */
  lemma CutFacts(fat: seq<nat>, first: nat, s: seq<nat>, count: nat)
    requires Geometry(fat) && IsChain(fat, first, s) && 0 < count < |s|
    ensures ValidCluster(fat, s[count - 1]) && fat[s[count - 1]] != 0 && Next(fat, s[count - 1]) == Some(s[count])
    ensures IsChain(fat[s[count - 1] := END_OF_CHAIN], first, s[..count])
    ensures IsChain(fat[s[count - 1] := END_OF_CHAIN], s[count], s[count..])
  {
    ChainEntry(fat, first, s, count - 1);
    ChainCut(fat, first, s, count);
  }

  /** The clusters behind the cut belong to no file. */
  lemma RestIsLoose(fat: seq<nat>, files: map<nat, File>, chains: map<nat, seq<nat>>, id: nat, count: nat,
                    kept: map<nat, seq<nat>>)
    requires FilesOk(fat, files, chains) && id in files && count <= |chains[id]|
              && kept == chains[id := chains[id][..count]]
    ensures forall b, c :: b in kept && c in chains[id][count..] ==> c !in kept[b]
  {
    var s := chains[id];
    var rest := s[count..];
    forall b, c | b in kept && c in rest ensures c !in kept[b] {
      var j :| 0 <= j < |rest| && rest[j] == c;
      assert s[count + j] == c && c in s;
      if b == id && c in s[..count] {
        var i :| 0 <= i < count && s[i] == c;
        ChainDistinct(fat, files[id].first, s, i, count + j);
      }
    }
  }
}
