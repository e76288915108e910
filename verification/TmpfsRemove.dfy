/** Names and inodes that go: `remove_path`, `unlink_inode`, `collect_inode` and `close_node` of fs/tmpfs.c. */
module TmpfsRemove {
  import opened TmpfsTree

  // ---------------------------------------------------------------- what goes

  /** The directory loses an entry, and the inode a name: a directory loses all its links. */
  function Unlinked(ns: map<nat, Inode>, i: nat, p: nat): map<nat, Inode>
    requires i in ns && p in ns
  {
    var x, y := ns[i], ns[p];
    ns[p := Inode(y.dir, y.parent, if x.dir && y.links > 0 then y.links - 1 else y.links,
                  if y.size >= DIRENT_SIZE then y.size - DIRENT_SIZE else 0, y.handles)]
      [i := Inode(x.dir, x.parent, if x.dir || x.links == 0 then 0 else x.links - 1, x.size, x.handles)]
  }

  predicate Unused(ns: map<nat, Inode>, i: nat) {
    i in ns && ns[i].links == 0 && ns[i].handles == 0
  }

  /** `collect_inode` traps: the inode is unused, but names are listed under it or the count is spent. */
  predicate CollectTraps(ns: map<nat, Inode>, es: map<Key, nat>, count: nat, i: nat) {
    Unused(ns, i) && (count == 0 || Listing(es, i) != {})
  }

  function Collected(ns: map<nat, Inode>, i: nat): map<nat, Inode> {
    if Unused(ns, i) then ns - {i} else ns
  }

  function Removed(ns: map<nat, Inode>, i: nat, p: nat): map<nat, Inode>
    requires i in ns && p in ns
  {
    Collected(Unlinked(ns, i, p), i)
  }

  /** A name that may be removed: a file's, or that of an empty directory. */
  predicate Removable(ns: map<nat, Inode>, es: map<Key, nat>, k: Key) {
    k in es && k.0 in ns && es[k] in ns && (ns[es[k]].dir ==> Listing(es, es[k]) == {})
  }

  // ---------------------------------------------------------------- the inode behind a name

  lemma OnlyMember(a: set<Key>, k: Key)
    requires k in a
    ensures |a| > 0 && (|a| == 1 ==> a == {k})
  {
    if |a| == 1 {
      assert |a - {k}| == 0;
      assert a == {k};
    }
  }

  lemma IsNamed(es: map<Key, nat>, k: Key)
    requires k in es
    ensures k in Naming(es, es[k]) && k in Listing(es, k.0)
  {}

  lemma NamesOf(ns: map<nat, Inode>, es: map<Key, nat>, k: Key)
    requires EntriesOk(ns, es) && InodesOk(ns, es) && k in es
    ensures Live(ns, k.0) && es[k] in ns && es[k] != ROOT && ns[es[k]].links > 0
    ensures ns[es[k]].dir ==> Naming(es, es[k]) == {k} && ns[es[k]].parent == k.0
    ensures !ns[es[k]].dir ==> ns[es[k]].links == |Naming(es, es[k])|
    ensures ns[k.0].size == DIRENT_SIZE * (2 + |Listing(es, k.0)|) && |Listing(es, k.0)| > 0
  {
    hide Naming, Listing, Subdirs;
    var i := es[k];
    IsNamed(es, k);
    OnlyMember(Naming(es, i), k);
    OnlyMember(Listing(es, k.0), k);
    assert InodeOk(ns, es, i) && InodeOk(ns, es, k.0);
  }

  lemma NotItself(ns: map<nat, Inode>, es: map<Key, nat>, k: Key)
    requires EntriesOk(ns, es) && Removable(ns, es, k)
    ensures es[k] != k.0
  {
    IsNamed(es, k);
  }

  /** Another name leads to an inode that stays. */
  lemma OtherNamed(ns: map<nat, Inode>, es: map<Key, nat>, k: Key, q: Key)
    requires EntriesOk(ns, es) && InodesOk(ns, es) && Removable(ns, es, k) && q in es && q != k
    ensures es[q] in ns && es[q] in Removed(ns, es[k], k.0) && Removed(ns, es[k], k.0)[es[q]].dir == ns[es[q]].dir
    ensures es[q] == es[k] ==> !ns[es[k]].dir && ns[es[k]].links > 1
  {
    hide Naming, Listing, Subdirs, InodesOk, EntriesOk, Removed;
    NamesOf(ns, es, k);
    NamesOf(ns, es, q);
    IsNamed(es, k);
    IsNamed(es, q);
    OnlyMember(Naming(es, es[k]), k);
    RemovedStays(ns, es[k], k.0, es[q]);
  }

  lemma RemovedStays(ns: map<nat, Inode>, i: nat, p: nat, j: nat)
    requires i in ns && p in ns && j in ns && (i == j ==> !ns[i].dir && ns[i].links > 1)
    ensures j in Removed(ns, i, p) && Removed(ns, i, p)[j].dir == ns[j].dir
  {}

  // ---------------------------------------------------------------- what a removal keeps

  lemma RemoveInode(ns: map<nat, Inode>, es: map<Key, nat>, k: Key, j: nat)
    requires EntriesOk(ns, es) && InodesOk(ns, es) && Removable(ns, es, k) && j in Removed(ns, es[k], k.0)
    ensures InodeOk(Removed(ns, es[k], k.0), es - {k}, j)
  {
    hide Naming, Subdirs, Listing, EntriesOk, InodeIs, Removed;
    var i, es', ns' := es[k], es - {k}, Removed(ns, es[k], k.0);
    NamesOf(ns, es, k);
    NotItself(ns, es, k);
    RemoveAdd(es, k);
    forall q | q in es' ensures es'[q] in ns && es'[q] in ns' && ns'[es'[q]].dir == ns[es'[q]].dir {
      OtherNamed(ns, es, k, q);
    }
    SubdirsFrame(ns, ns', es', j);
    AddNaming(es', k, i, j);
    AddListing(es', k, i, j);
    AddSubdirs(ns, es', k, i, j);
    RemovedIn(ns, i, k.0, j);
    assert InodeOk(ns, es, j);
    RemoveIs(ns, i, k, j, Naming(es, j), Listing(es, j), |Subdirs(ns, es, j)|, Naming(es', j), Listing(es', j),
             |Subdirs(ns, es', j)|);
  }

  lemma RemovedIn(ns: map<nat, Inode>, i: nat, p: nat, j: nat)
    requires i in ns && p in ns && j in Removed(ns, i, p)
    ensures j in ns
  {}

  /** The fields of an inode that stays, against its names before (a, b, c) and afterwards (a', b', c'). */
  lemma RemoveIs(ns: map<nat, Inode>, i: nat, k: Key, j: nat, a: set<Key>, b: set<Key>, c: nat, a': set<Key>,
                 b': set<Key>, c': nat)
    requires i in ns && k.0 in ns && i != k.0 && i != ROOT && ns[i].links > 0 && Live(ns, k.0) && j in ns
              && j in Removed(ns, i, k.0)
    requires InodeIs(ns[j], j, a, b, c)
    requires a == (if i == j then a' + {k} else a') && |a| == |a'| + if i == j then 1 else 0
    requires b == (if k.0 == j then b' + {k} else b') && |b| == |b'| + if k.0 == j then 1 else 0
    requires c == c' + if k.0 == j && ns[i].dir then 1 else 0
    requires i == j && ns[i].dir ==> b == {}
    ensures InodeIs(Removed(ns, i, k.0)[j], j, a', b', c')
  {}

  lemma RemoveInodes(ns: map<nat, Inode>, es: map<Key, nat>, k: Key)
    requires EntriesOk(ns, es) && InodesOk(ns, es) && Removable(ns, es, k)
    ensures InodesOk(Removed(ns, es[k], k.0), es - {k})
  {
    hide InodeOk, EntriesOk, Removed;
    forall j | j in Removed(ns, es[k], k.0) ensures InodeOk(Removed(ns, es[k], k.0), es - {k}, j) {
      RemoveInode(ns, es, k, j);
    }
  }

  lemma RemoveEntries(ns: map<nat, Inode>, es: map<Key, nat>, k: Key)
    requires EntriesOk(ns, es) && InodesOk(ns, es) && Removable(ns, es, k)
    ensures EntriesOk(Removed(ns, es[k], k.0), es - {k})
  {
    var ns', es' := Removed(ns, es[k], k.0), es - {k};
    forall q | q in es' ensures Live(ns', q.0) && es'[q] in ns' {
      OtherNamed(ns, es, k, q);
      RemovedLive(ns, es, k, q);
    }
  }

  /** The directory of a name that stays is live afterwards. */
  lemma RemovedLive(ns: map<nat, Inode>, es: map<Key, nat>, k: Key, q: Key)
    requires EntriesOk(ns, es) && InodesOk(ns, es) && Removable(ns, es, k) && q in es
    ensures Live(Removed(ns, es[k], k.0), q.0)
  {
    hide Naming, Listing, Subdirs, InodesOk, EntriesOk, Removed;
    NamesOf(ns, es, k);
    NamesOf(ns, es, q);
    IsNamed(es, q);
    NotItself(ns, es, k);
    SubdirLinks(ns, es, k);
    RemovedKeeps(ns, es[k], k.0);
  }

  /** A directory with a subdirectory has at least three links. */
  lemma SubdirLinks(ns: map<nat, Inode>, es: map<Key, nat>, k: Key)
    requires EntriesOk(ns, es) && InodesOk(ns, es) && k in es
    ensures k.0 in ns && es[k] in ns && (ns[es[k]].dir ==> ns[k.0].links > 2) && ns[k.0].links >= 2
  {
    assert InodeOk(ns, es, k.0);
    if ns[es[k]].dir {
      assert k in Subdirs(ns, es, k.0);
      hide Naming, Listing, Subdirs;
      OnlyMember(Subdirs(ns, es, k.0), k);
    }
  }

  /** Every directory above another lists something. */
  lemma AboveLists(ns: map<nat, Inode>, es: map<Key, nat>, s: seq<nat>, j: nat)
    requires EntriesOk(ns, es) && InodesOk(ns, es) && PathOk(ns, s) && 0 < j < |s|
    ensures Listing(es, s[j]) != {}
  {
    var d := s[j - 1];
    assert Live(ns, d) && d != ROOT && ns[d].parent == s[j];
    assert InodeOk(ns, es, d);
    var k :| k in Naming(es, d);
    assert k in Listing(es, s[j]);
  }

  lemma RemoveTree(ns: map<nat, Inode>, es: map<Key, nat>, k: Key)
    requires EntriesOk(ns, es) && InodesOk(ns, es) && TreeOk(ns) && Removable(ns, es, k)
    ensures TreeOk(Removed(ns, es[k], k.0))
  {
    hide Removed, InodesOk, EntriesOk, Listing, Naming, Subdirs;
    var i, ns' := es[k], Removed(ns, es[k], k.0);
    NamesOf(ns, es, k);
    NotItself(ns, es, k);
    SubdirLinks(ns, es, k);
    RemovedKeeps(ns, i, k.0);
    forall d | Live(ns', d) ensures Rooted(ns', d) {
      RemovedWas(ns, i, k.0, d);
      assert Rooted(ns, d);
      var s :| PathOk(ns, s) && s[0] == d;
      forall j | 0 <= j < |s| ensures Live(ns', s[j]) && ns'[s[j]].parent == ns[s[j]].parent {
        if j > 0 {
          AboveLists(ns, es, s, j);
        }
      }
      PathFrame(ns, ns', s);
    }
  }

  lemma RemovedKeeps(ns: map<nat, Inode>, i: nat, p: nat)
    requires i in ns && Live(ns, p) && i != p && ns[i].links > 0 && (ns[i].dir ==> ns[p].links > 1) && i != ROOT
    ensures forall d ::
              Live(ns, d) && d != i ==> Live(Removed(ns, i, p), d) && Removed(ns, i, p)[d].parent == ns[d].parent
    ensures ROOT in ns ==> ROOT in Removed(ns, i, p)
  {}

  lemma RemovedWas(ns: map<nat, Inode>, i: nat, p: nat, d: nat)
    requires i in ns && p in ns && Live(Removed(ns, i, p), d)
    ensures Live(ns, d) && (d == i ==> !ns[i].dir || i == p) && Removed(ns, i, p)[d].parent == ns[d].parent
  {}

  /** What the code takes from the inode count. */
  function Released(ns: map<nat, Inode>, i: nat, p: nat): nat
    requires i in ns && p in ns
  {
    (if !ns[i].dir && ns[i].links > 1 then 1 else 0) + if Unused(Unlinked(ns, i, p), i) then 1 else 0
  }

  lemma RemovedKeys(ns: map<nat, Inode>, i: nat, p: nat)
    requires i in ns && p in ns
    ensures Removed(ns, i, p) == if Unused(Unlinked(ns, i, p), i) then Unlinked(ns, i, p) - {i} else Unlinked(ns, i, p)
    ensures Unlinked(ns, i, p).Keys == ns.Keys
    ensures i != p ==> (Unused(Unlinked(ns, i, p), i) <==> (ns[i].dir || ns[i].links <= 1) && ns[i].handles == 0)
  {}

  lemma CollectTotal(ns: map<nat, Inode>, es: map<Key, nat>, n: nat, i: nat)
    requires i in ns && i < n && Naming(es, i) == {}
    ensures Total(ns - {i}, es, n) == Total(ns, es, n) - 1
  {
    hide Naming;
    TotalChange(ns, es, ns - {i}, es, n, i);
  }

  lemma RemoveTotal(ns: map<nat, Inode>, es: map<Key, nat>, next: nat, k: Key)
    requires EntriesOk(ns, es) && InodesOk(ns, es) && Numbered(ns, next) && Removable(ns, es, k)
    ensures Total(ns, es, next) == Total(Removed(ns, es[k], k.0), es - {k}, next) + Released(ns, es[k], k.0)
  {
    hide Naming, Listing, Subdirs, InodesOk, EntriesOk, Removed, Total, Unlinked;
    var i, es', u := es[k], es - {k}, Unlinked(ns, es[k], k.0);
    NamesOf(ns, es, k);
    NotItself(ns, es, k);
    RemoveAdd(es, k);
    AddNaming(es', k, i, i);
    RemovedKeys(ns, i, k.0);
    TotalName(u, es', ns, next, k, i);
    LastName(ns, es, k);
    if Unused(u, i) {
      CollectTotal(u, es', next, i);
    }
  }

  /** Names are left exactly when a file has more than one link. */
  lemma LastName(ns: map<nat, Inode>, es: map<Key, nat>, k: Key)
    requires EntriesOk(ns, es) && InodesOk(ns, es) && k in es
    ensures es[k] in ns && (|Naming(es - {k}, es[k])| > 0 <==> !ns[es[k]].dir && ns[es[k]].links > 1)
    ensures Naming(es - {k}, es[k]) == {} <==> ns[es[k]].dir || ns[es[k]].links <= 1
  {
    hide Naming, Listing, Subdirs, InodesOk, EntriesOk;
    NamesOf(ns, es, k);
    RemoveAdd(es, k);
    AddNaming(es - {k}, k, es[k], es[k]);
  }

  lemma RemovedNumbers(ns: map<nat, Inode>, i: nat, p: nat, next: nat)
    requires i in ns && p in ns && Numbered(ns, next)
    ensures Numbered(Removed(ns, i, p), next)
  {}

  /** Removing a file's name or an empty directory keeps the namespace, with what the code takes from the count. */
  lemma RemoveKeeps(ns: map<nat, Inode>, es: map<Key, nat>, next: nat, count: nat, k: Key)
    requires NamespaceOk(ns, es, next, count) && Removable(ns, es, k)
    ensures count >= Released(ns, es[k], k.0)
    ensures NamespaceOk(Removed(ns, es[k], k.0), es - {k}, next, count - Released(ns, es[k], k.0))
  {
    hide EntriesOk, TreeOk, InodesOk, Total, Removed, Released, Numbered, Listing;
    RemovedNumbers(ns, es[k], k.0, next);
    RemoveTotal(ns, es, next, k);
    RemoveTree(ns, es, k);
    RemoveEntries(ns, es, k);
    RemoveInodes(ns, es, k);
  }

  // ---------------------------------------------------------------- handles

  function Opened(ns: map<nat, Inode>, i: nat): map<nat, Inode>
    requires i in ns
  {
    var x := ns[i];
    ns[i := Inode(x.dir, x.parent, x.links, x.size, x.handles + 1)]
  }

  function Closed(ns: map<nat, Inode>, i: nat): map<nat, Inode>
    requires i in ns && ns[i].handles > 0
  {
    var x := ns[i];
    ns[i := Inode(x.dir, x.parent, x.links, x.size, x.handles - 1)]
  }

  /** Inodes that differ from before in handles only. */
  predicate HandlesDiffer(ns: map<nat, Inode>, ns': map<nat, Inode>) {
    forall j ::
        j in ns' ==> j in ns && ns'[j] == Inode(ns[j].dir, ns[j].parent, ns[j].links, ns[j].size, ns'[j].handles)
  }

  lemma HandlesInode(ns: map<nat, Inode>, es: map<Key, nat>, ns': map<nat, Inode>, j: nat)
    requires EntriesOk(ns, es) && InodesOk(ns, es) && HandlesDiffer(ns, ns') && j in ns'
              && (ns'[j].links == 0 ==> ns'[j].handles > 0)
    requires forall q :: q in es ==> es[q] in ns'
    ensures InodeOk(ns', es, j)
  {
    hide Naming, Listing, Subdirs;
    SubdirsFrame(ns, ns', es, j);
    assert InodeOk(ns, es, j);
  }

  lemma HandlesInodes(ns: map<nat, Inode>, es: map<Key, nat>, ns': map<nat, Inode>)
    requires EntriesOk(ns, es) && InodesOk(ns, es) && HandlesDiffer(ns, ns') && forall q :: q in es ==> es[q] in ns'
    requires forall j :: j in ns' && ns'[j].links == 0 ==> ns'[j].handles > 0
    ensures InodesOk(ns', es)
  {
    hide InodeOk, EntriesOk, HandlesDiffer;
    forall j | j in ns' ensures InodeOk(ns', es, j) {
      HandlesInode(ns, es, ns', j);
    }
  }

  lemma HandlesTree(ns: map<nat, Inode>, ns': map<nat, Inode>)
    requires TreeOk(ns) && HandlesDiffer(ns, ns') && ROOT in ns' && forall j :: Live(ns, j) ==> j in ns'
    ensures TreeOk(ns')
  {
    TreeFrame(ns, ns');
  }

  /** A name keeps its inode linked, and so does being the root. */
  lemma NamedIsLinked(ns: map<nat, Inode>, es: map<Key, nat>, i: nat)
    requires EntriesOk(ns, es) && InodesOk(ns, es) && i in ns && ns[i].links == 0
    ensures Naming(es, i) == {} && i != ROOT
  {
    hide Naming, Listing, Subdirs;
    assert InodeOk(ns, es, i);
  }

  lemma OpenKeeps(ns: map<nat, Inode>, es: map<Key, nat>, next: nat, count: nat, i: nat)
    requires NamespaceOk(ns, es, next, count) && i in ns
    ensures NamespaceOk(Opened(ns, i), es, next, count)
  {
    hide InodesOk, Naming, Total;
    var ns' := Opened(ns, i);
    LinkedOrHeld(ns, es);
    HandlesInodes(ns, es, ns');
    HandlesTree(ns, ns');
    TotalFrame(ns, es, ns', es, next);
  }

  lemma LinkedOrHeld(ns: map<nat, Inode>, es: map<Key, nat>)
    requires InodesOk(ns, es)
    ensures forall j :: j in ns && ns[j].links == 0 ==> ns[j].handles > 0
  {
    hide Naming, Listing, Subdirs;
    forall j | j in ns && ns[j].links == 0 ensures ns[j].handles > 0 {
      assert InodeOk(ns, es, j);
    }
  }

  function LastHandle(ns: map<nat, Inode>, i: nat): nat
    requires i in ns && ns[i].handles > 0
  {
    if Unused(Closed(ns, i), i) then 1 else 0
  }

  lemma CloseTotal(ns: map<nat, Inode>, es: map<Key, nat>, next: nat, i: nat)
    requires EntriesOk(ns, es) && InodesOk(ns, es) && Numbered(ns, next) && i in ns && ns[i].handles > 0
    ensures Total(ns, es, next) == Total(Collected(Closed(ns, i), i), es, next) + LastHandle(ns, i)
  {
    hide Naming, InodesOk, EntriesOk, Total;
    var ns' := Closed(ns, i);
    TotalFrame(ns, es, ns', es, next);
    if Unused(ns', i) {
      NamedIsLinked(ns, es, i);
      CollectTotal(ns', es, next, i);
    }
  }

  lemma ClosedDiffers(ns: map<nat, Inode>, es: map<Key, nat>, i: nat)
    requires EntriesOk(ns, es) && InodesOk(ns, es) && TreeOk(ns) && i in ns && ns[i].handles > 0
    ensures var ns' := Collected(Closed(ns, i), i);
            && HandlesDiffer(ns, ns') && (forall q :: q in es ==> es[q] in ns')
            && (forall j :: Live(ns, j) ==> Live(ns', j))
            && ROOT in ns' && (forall j :: j in ns' && ns'[j].links == 0 ==> ns'[j].handles > 0)
  {
    hide InodesOk, Naming, Rooted;
    LinkedOrHeld(ns, es);
    if ns[i].links == 0 {
      NamedIsLinked(ns, es, i);
    }
    var ns' := Collected(Closed(ns, i), i);
    forall q | q in es ensures es[q] in ns' {
      IsNamed(es, q);
    }
  }

  lemma ClosedEntries(ns: map<nat, Inode>, es: map<Key, nat>, ns': map<nat, Inode>)
    requires EntriesOk(ns, es) && (forall q :: q in es ==> es[q] in ns') && (forall j :: Live(ns, j) ==> Live(ns', j))
    ensures EntriesOk(ns', es)
  {}

  /** Closing keeps the namespace; the last close of an inode without names is what frees it. */
  lemma CloseKeeps(ns: map<nat, Inode>, es: map<Key, nat>, next: nat, count: nat, i: nat)
    requires NamespaceOk(ns, es, next, count) && i in ns && ns[i].handles > 0
    ensures count >= LastHandle(ns, i)
    ensures NamespaceOk(Collected(Closed(ns, i), i), es, next, count - LastHandle(ns, i))
  {
    hide EntriesOk, InodesOk, TreeOk, Total, LastHandle, HandlesDiffer;
    var ns' := Collected(Closed(ns, i), i);
    CloseTotal(ns, es, next, i);
    ClosedDiffers(ns, es, i);
    ClosedEntries(ns, es, ns');
    HandlesInodes(ns, es, ns');
    HandlesTree(ns, ns');
  }

  // ---------------------------------------------------------------- what the traps test

  lemma {:induction false} TotalPositive(ns: map<nat, Inode>, es: map<Key, nat>, next: nat, i: nat)
    requires Numbered(ns, next) && i in ns
    ensures Total(ns, es, next) > 0
  {
    hide Naming;
    TotalAbove(ns, es, next, i);
  }

  lemma {:induction false} TotalAbove(ns: map<nat, Inode>, es: map<Key, nat>, n: nat, i: nat)
    requires i in ns && i < n
    ensures Total(ns, es, n) > 0
  {
    hide Naming;
    if i != n - 1 {
      TotalAbove(ns, es, n - 1, i);
    }
  }

  /** Nothing is listed below a file, a removable directory or a directory without links. */
  lemma NotListed(ns: map<nat, Inode>, es: map<Key, nat>, k: Key)
    requires EntriesOk(ns, es) && Removable(ns, es, k)
    ensures Listing(es, es[k]) == {} && Listing(es - {k}, es[k]) == {}
  {}

  lemma DeadIsEmpty(ns: map<nat, Inode>, es: map<Key, nat>, i: nat)
    requires EntriesOk(ns, es) && i in ns
    ensures ns[i].links == 0 ==> Listing(es, i) == {}
  {}

  lemma NewUnlisted(ns: map<nat, Inode>, es: map<Key, nat>, c: nat, k: Key)
    requires EntriesOk(ns, es) && c !in ns && k !in es
    ensures Listing(es, c) == {} && es[k := c] - {k} == es
  {}

  /** A number may be skipped. */
  lemma SkipNumber(ns: map<nat, Inode>, es: map<Key, nat>, next: nat, count: nat)
    requires NamespaceOk(ns, es, next, count)
    ensures NamespaceOk(ns, es, next + 1, count)
  {
    hide InodesOk, EntriesOk, TreeOk;
    TotalBeyond(ns, es, next, next + 1);
  }
}
