/** Cluster chains in the file allocation table of fs/fat32.c: what a well-formed chain is, and what
    allocating, linking, cutting and freeing do to it. The table is the sequence of its masked entries. */
module FatChains {
  import opened Wrappers

  const END_OF_CHAIN: nat := 0x0fff_ffff
  const FIRST_END: nat := 0x0fff_fff8

  /** The mounted range of cluster counts, so that a cluster number is never an end mark. */
  predicate Geometry(fat: seq<nat>) {
    2 < |fat| && |fat| - 2 < 0x0fff_fff5
  }

  /** `valid_cluster` */
  predicate ValidCluster(fat: seq<nat>, c: nat) {
    2 <= c < |fat|
  }

  /** `next_cluster`: 0 after the last cluster, None for a link that is no cluster. */
  function Next(fat: seq<nat>, c: nat): Option<nat> {
    if c >= |fat| then None
    else if fat[c] >= FIRST_END then Some(0)
    else if ValidCluster(fat, fat[c]) then Some(fat[c])
    else None
  }

  /** s is the whole chain that starts at c; 0 starts the empty one. */
  predicate IsChain(fat: seq<nat>, c: nat, s: seq<nat>)
    decreases |s|
  {
    if c == 0 then s == []
    else s != [] && s[0] == c && ValidCluster(fat, c) && Next(fat, c).Some? && IsChain(fat, Next(fat, c).value, s[1..])
  }

  function Last(s: seq<nat>): nat { if s == [] then 0 else s[|s| - 1] }

  /** k steps along the chain from c, staying at 0; None on the way out of the table. */
  function Walk(fat: seq<nat>, c: nat, k: nat): Option<nat> {
    if k == 0 then Some(c)
    else
      var p := Walk(fat, c, k - 1);
      if p.None? || p.value == 0 then p
      else if !ValidCluster(fat, p.value) then None
      else Next(fat, p.value)
  }

  // ---------------------------------------------------------------- chains

  lemma {:induction false} ChainUnique(fat: seq<nat>, c: nat, s: seq<nat>, t: seq<nat>)
    requires IsChain(fat, c, s) && IsChain(fat, c, t)
    ensures s == t
    decreases |s|
  {
    if c != 0 {
      ChainUnique(fat, Next(fat, c).value, s[1..], t[1..]);
      assert s == [c] + s[1..] && t == [c] + t[1..];
    }
  }

  lemma {:induction false} ChainSuffix(fat: seq<nat>, c: nat, s: seq<nat>, i: nat)
    requires IsChain(fat, c, s) && i <= |s|
    ensures IsChain(fat, if i < |s| then s[i] else 0, s[i..])
    decreases |s|
  {
    if i == 0 {
      assert s[0..] == s;
    } else {
      ChainSuffix(fat, Next(fat, c).value, s[1..], i - 1);
      assert s[1..][i - 1..] == s[i..];
    }
  }

  /** What a chain's entries look like. */
  lemma ChainEntry(fat: seq<nat>, c: nat, s: seq<nat>, i: nat)
    requires IsChain(fat, c, s) && i < |s|
    ensures ValidCluster(fat, s[i]) && fat[s[i]] != 0
    ensures i + 1 < |s| ==> fat[s[i]] == s[i + 1] && fat[s[i]] < FIRST_END
    ensures i + 1 == |s| ==> fat[s[i]] >= FIRST_END
    ensures Next(fat, s[i]) == Some(if i + 1 < |s| then s[i + 1] else 0)
  {
    ChainSuffix(fat, c, s, i);
    var t := s[i..];
    assert t[0] == s[i];
    assert IsChain(fat, Next(fat, s[i]).value, t[1..]);
    if i + 1 < |s| {
      assert t[1..][0] == s[i + 1];
    }
  }

  /** No cluster occurs twice: a chain that ends is acyclic. */
  lemma ChainDistinct(fat: seq<nat>, c: nat, s: seq<nat>, i: nat, j: nat)
    requires IsChain(fat, c, s) && i < j < |s|
    ensures s[i] != s[j]
  {
    if s[i] == s[j] {
      ChainSuffix(fat, c, s, i);
      ChainSuffix(fat, c, s, j);
      ChainUnique(fat, s[i], s[i..], s[j..]);
    }
  }

  lemma {:induction false} ChainFrame(fat: seq<nat>, fat': seq<nat>, c: nat, s: seq<nat>)
    requires IsChain(fat, c, s) && |fat'| == |fat|
              && forall i :: 0 <= i < |s| ==> s[i] < |fat| && fat'[s[i]] == fat[s[i]]
    ensures IsChain(fat', c, s)
    decreases |s|
  {
    if c != 0 {
      assert s[0] == c;
      forall i | 0 <= i < |s| - 1 ensures s[1..][i] < |fat| && fat'[s[1..][i]] == fat[s[1..][i]] {
        assert s[1..][i] == s[i + 1];
      }
      ChainFrame(fat, fat', Next(fat, c).value, s[1..]);
    }
  }

  /** Built from its links. */
  lemma {:induction false} ChainMade(fat: seq<nat>, s: seq<nat>)
    requires Geometry(fat) && forall i :: 0 <= i < |s| ==> 2 <= s[i] < |fat|
    requires forall i :: 0 <= i < |s| - 1 ==> fat[s[i]] == s[i + 1]
    requires |s| > 0 ==> fat[s[|s| - 1]] >= FIRST_END
    ensures IsChain(fat, if s == [] then 0 else s[0], s)
    decreases |s|
  {
    if |s| > 0 {
      var t := s[1..];
      assert forall i :: 0 <= i < |t| ==> t[i] == s[i + 1];
      ChainMade(fat, t);
      if |t| > 0 {
        assert fat[s[0]] == s[1];
      }
    }
  }

  /** Linking a fresh end cluster behind the tail extends the chain. */
  lemma ChainAppend(fat: seq<nat>, c: nat, s: seq<nat>, x: nat)
    requires Geometry(fat) && IsChain(fat, c, s) && ValidCluster(fat, x) && fat[x] >= FIRST_END && x !in s
    ensures s == [] ==> IsChain(fat, x, [x])
    ensures s != [] ==> s[|s| - 1] < |fat| && IsChain(fat[s[|s| - 1] := x], c, s + [x])
  {
    if s == [] {
      ChainMade(fat, [x]);
    } else {
      var n := |s| - 1;
      ChainEntry(fat, c, s, n);
      var fat', t := fat[s[n] := x], s + [x];
      forall i | 0 <= i < |t| ensures ValidCluster(fat', t[i]) {
        if i < |s| {
          ChainEntry(fat, c, s, i);
        }
      }
      forall i | 0 <= i < |t| - 1 ensures fat'[t[i]] == t[i + 1] {
        ChainEntry(fat, c, s, i);
        if i < n {
          ChainDistinct(fat, c, s, i, n);
        }
      }
      assert t[|t| - 1] == x && x != s[n];
      ChainMade(fat', t);
    }
  }

  /** An end mark at position k - 1 cuts the chain there. */
  lemma ChainCut(fat: seq<nat>, c: nat, s: seq<nat>, k: nat)
    requires Geometry(fat) && IsChain(fat, c, s) && 0 < k <= |s|
    ensures s[k - 1] < |fat| && IsChain(fat[s[k - 1] := END_OF_CHAIN], c, s[..k])
    ensures IsChain(fat[s[k - 1] := END_OF_CHAIN], if k < |s| then s[k] else 0, s[k..])
  {
    ChainEntry(fat, c, s, k - 1);
    var fat', t := fat[s[k - 1] := END_OF_CHAIN], s[..k];
    forall i | 0 <= i < k ensures ValidCluster(fat', t[i]) {
      ChainEntry(fat, c, s, i);
    }
    forall i | 0 <= i < k - 1 ensures fat'[t[i]] == t[i + 1] {
      ChainEntry(fat, c, s, i);
      ChainDistinct(fat, c, s, i, k - 1);
    }
    ChainMade(fat', t);
    ChainSuffix(fat, c, s, k);
    forall i | 0 <= i < |s[k..]| ensures s[k..][i] < |fat| && fat'[s[k..][i]] == fat[s[k..][i]] {
      ChainEntry(fat, c, s, k + i);
      ChainDistinct(fat, c, s, k - 1, k + i);
    }
    ChainFrame(fat, fat', if k < |s| then s[k] else 0, s[k..]);
  }

  lemma {:induction false} SeqBound(s: seq<nat>, lo: nat, hi: nat)
    requires (forall i :: 0 <= i < |s| ==> lo <= s[i] < hi) && (forall i, j :: 0 <= i < j < |s| ==> s[i] != s[j])
              && lo <= hi
    ensures |s| <= hi - lo
    decreases hi - lo
  {
    if s != [] {
      assert lo <= s[0] < hi;
      if i :| 0 <= i < |s| && s[i] == hi - 1 {
        var t := s[..i] + s[i + 1..];
        assert forall j :: 0 <= j < |t| ==> t[j] == s[if j < i then j else j + 1];
        SeqBound(t, lo, hi - 1);
      } else {
        SeqBound(s, lo, hi - 1);
      }
    }
  }

  /** A chain is no longer than the number of clusters. */
  lemma ChainBound(fat: seq<nat>, c: nat, s: seq<nat>)
    requires IsChain(fat, c, s) && |fat| > 2
    ensures |s| <= |fat| - 2
  {
    forall i | 0 <= i < |s| ensures 2 <= s[i] < |fat| {
      ChainEntry(fat, c, s, i);
    }
    forall i, j | 0 <= i < j < |s| ensures s[i] != s[j] {
      ChainDistinct(fat, c, s, i, j);
    }
    SeqBound(s, 2, |fat|);
  }

  // ---------------------------------------------------------------- walking

  lemma {:induction false} ChainWalk(fat: seq<nat>, c: nat, s: seq<nat>, k: nat)
    requires IsChain(fat, c, s)
    ensures Walk(fat, c, k) == Some(if k < |s| then s[k] else 0)
  {
    if k > 0 {
      ChainWalk(fat, c, s, k - 1);
      if k - 1 < |s| {
        ChainEntry(fat, c, s, k - 1);
      }
    }
  }

  lemma {:induction false} WalkMakes(fat: seq<nat>, c: nat, k: nat) returns (s: seq<nat>)
    requires Walk(fat, c, k) == Some(0)
    ensures IsChain(fat, c, s) && |s| <= k
    decreases k
  {
    if c == 0 {
      s := [];
    } else {
      WalkShift(fat, c, k - 1);
      var t := WalkMakes(fat, Next(fat, c).value, k - 1);
      s := [c] + t;
      assert s[1..] == t;
    }
  }

  lemma {:induction false} WalkShift(fat: seq<nat>, c: nat, k: nat)
    requires c != 0 && Walk(fat, c, k + 1).Some?
    ensures ValidCluster(fat, c) && Next(fat, c).Some? && Walk(fat, Next(fat, c).value, k) == Walk(fat, c, k + 1)
  {
    if k == 0 {
      assert Walk(fat, c, 0) == Some(c);
    } else {
      WalkShift(fat, c, k - 1);
    }
  }

  // ---------------------------------------------------------------- counting

  /** The number of free clusters: zero entries from cluster 2 on. */
  function Zeros(fat: seq<nat>): nat {
    if |fat| <= 2 then 0 else Zeros(fat[..|fat| - 1]) + if fat[|fat| - 1] == 0 then 1 else 0
  }

  lemma {:induction false} ZerosUpdate(fat: seq<nat>, c: nat, v: nat)
    requires ValidCluster(fat, c)
    ensures Zeros(fat[c := v]) == Zeros(fat) - (if fat[c] == 0 then 1 else 0) + if v == 0 then 1 else 0
    decreases |fat|
  {
    var n := |fat| - 1;
    if c == n {
      assert fat[c := v][..n] == fat[..n];
    } else {
      assert fat[c := v][..n] == fat[..n][c := v];
      ZerosUpdate(fat[..n], c, v);
    }
  }

  lemma {:induction false} ZerosPositive(fat: seq<nat>, c: nat)
    requires ValidCluster(fat, c) && fat[c] == 0
    ensures Zeros(fat) > 0
    decreases |fat|
  {
    if c < |fat| - 1 {
      ZerosPositive(fat[..|fat| - 1], c);
    }
  }
}
