/** `unmount` of fs/tmpfs.c on the namespace: taking every name and then every inode leaves a count of zero. */
module TmpfsUnmount {
  import opened TmpfsTree
  import opened TmpfsRemove

  function RootOnly(): map<nat, Inode> {
    map[ROOT := Inode(true, ROOT, 2, 2 * DIRENT_SIZE, 0)]
  }

  lemma RootKeeps()
    ensures NamespaceOk(RootOnly(), map[], 2, 1)
  {
    var ns: map<nat, Inode>, es: map<Key, nat> := RootOnly(), map[];
    NewUnnamedRoot(ns, es);
    assert PathOk(ns, [ROOT]);
    forall i | Live(ns, i) ensures Rooted(ns, i) {
      assert [ROOT][0] == i;
    }
    assert Total(ns, es, 2) == 1 by {
      assert Total(ns, es, 0) == 0;
      assert Total(ns, es, 1) == 0;
    }
  }

  lemma NewUnnamedRoot(ns: map<nat, Inode>, es: map<Key, nat>)
    requires es == map[]
    ensures Naming(es, ROOT) == {} && Listing(es, ROOT) == {} && Subdirs(ns, es, ROOT) == {}
  {}

  /** What holds while names are taken: no handles, and links that are the names left, or one. */
  ghost predicate Draining(ns: map<nat, Inode>, es: map<Key, nat>) {
    EntriesOk(ns, es) && forall i :: i in ns ==> DrainingInode(ns[i], Naming(es, i), Listing(es, i))
  }

  ghost predicate DrainingInode(x: Inode, names: set<Key>, listed: set<Key>) {
    && x.handles == 0
    && (if x.dir then |names| <= 1 && x.size == DIRENT_SIZE * (2 + |listed|) else x.links == Max(1, |names|))
  }

  lemma StartDraining(ns: map<nat, Inode>, es: map<Key, nat>)
    requires EntriesOk(ns, es) && InodesOk(ns, es) && forall i :: i in ns ==> ns[i].handles == 0
    ensures Draining(ns, es)
  {
    hide Naming, Listing, Subdirs, EntriesOk;
    forall i | i in ns ensures DrainingInode(ns[i], Naming(es, i), Listing(es, i)) {
      assert InodeOk(ns, es, i);
    }
  }

  /** One name goes; a file with further names loses a link. */
  function Drained(ns: map<nat, Inode>, i: nat, p: nat): map<nat, Inode>
    requires i in ns && p in ns
  {
    var x := ns[i];
    var ns1 := if !x.dir && x.links > 1 then ns[i := x.(links := x.links - 1)] else ns;
    var y := ns1[p];
    ns1[p := y.(size := if y.size >= DIRENT_SIZE then y.size - DIRENT_SIZE else 0)]
  }

  lemma DrainInode(ns: map<nat, Inode>, es: map<Key, nat>, k: Key, j: nat)
    requires Draining(ns, es) && k in es && k.0 in ns && es[k] in ns && j in ns
    ensures DrainingInode(Drained(ns, es[k], k.0)[j], Naming(es - {k}, j), Listing(es - {k}, j))
  {
    hide Naming, Listing, EntriesOk;
    var i, es' := es[k], es - {k};
    RemoveAdd(es, k);
    AddNaming(es', k, i, j);
    AddListing(es', k, i, j);
    assert DrainingInode(ns[j], Naming(es, j), Listing(es, j));
    EntryLive(ns, es, k);
  }

  lemma EntryLive(ns: map<nat, Inode>, es: map<Key, nat>, k: Key)
    requires EntriesOk(ns, es) && k in es
    ensures Live(ns, k.0) && es[k] in ns
  {}

  lemma DrainEntries(ns: map<nat, Inode>, es: map<Key, nat>, k: Key)
    requires EntriesOk(ns, es) && k in es && k.0 in ns && es[k] in ns
    ensures EntriesOk(Drained(ns, es[k], k.0), es - {k})
  {}

  lemma DrainKeeps(ns: map<nat, Inode>, es: map<Key, nat>, next: nat, k: Key)
    requires Draining(ns, es) && Numbered(ns, next) && k in es
    ensures k.0 in ns && es[k] in ns && Draining(Drained(ns, es[k], k.0), es - {k})
              && Numbered(Drained(ns, es[k], k.0), next)
    ensures Drained(ns, es[k], k.0).Keys == ns.Keys
    ensures Total(ns, es, next)
              == Total(Drained(ns, es[k], k.0), es - {k}, next) + if !ns[es[k]].dir && ns[es[k]].links > 1 then 1 else 0
    ensures ns[k.0].size >= 3 * DIRENT_SIZE
  {
    hide Naming, Listing, EntriesOk, Total, DrainingInode;
    EntryLive(ns, es, k);
    var i, ns', es' := es[k], Drained(ns, es[k], k.0), es - {k};
    DrainEntries(ns, es, k);
    forall j | j in ns' ensures DrainingInode(ns'[j], Naming(es', j), Listing(es', j)) {
      DrainInode(ns, es, k, j);
    }
    RemoveAdd(es, k);
    TotalName(ns', es', ns, next, k, i);
    AddNaming(es', k, i, i);
    IsNamed(es, k);
    OnlyMember(Listing(es, k.0), k);
    DrainFacts(ns[i], Naming(es, i), Listing(es, i));
    DrainFacts(ns[k.0], Naming(es, k.0), Listing(es, k.0));
  }

  lemma DrainFacts(x: Inode, names: set<Key>, listed: set<Key>)
    requires DrainingInode(x, names, listed)
    ensures x.dir ==> |names| <= 1 && x.size == DIRENT_SIZE * (2 + |listed|)
    ensures !x.dir ==> x.links == Max(1, |names|)
    ensures x.handles == 0
  {}

  lemma NoneLeft(es: map<Key, nat>, n: nat)
    ensures Total(map[], es, n) == 0
  {
    TotalBeyond(map[], es, 0, n);
  }

  /** Without names, an inode's share of the total is one. */
  lemma TakeInode(ns: map<nat, Inode>, next: nat, i: nat)
    requires Numbered(ns, next) && i in ns
    ensures Total(ns, map[], next) == Total(ns - {i}, map[], next) + 1 && Numbered(ns - {i}, next)
  {
    var es: map<Key, nat> := map[];
    assert Naming(es, i) == {};
    CollectTotal(ns, es, next, i);
  }

  lemma EntriesBelow(ns: map<nat, Inode>, es: map<Key, nat>, next: nat)
    requires Draining(ns, es) && Numbered(ns, next) && forall k :: k in es ==> k.0 >= next
    ensures es == map[] && forall i :: i in ns ==> ns[i].handles == 0
  {
    forall k | k in es ensures false {
      EntryLive(ns, es, k);
    }
    forall i | i in ns ensures ns[i].handles == 0 {
      DrainFacts(ns[i], Naming(es, i), Listing(es, i));
    }
  }

  lemma Fewer(es: map<Key, nat>, k: Key)
    requires k in es
    ensures |es - {k}| < |es|
  {
    assert (es - {k}).Keys == es.Keys - {k};
    assert |(es - {k}).Keys| < |es.Keys|;
  }

  lemma FewerInodes(ns: map<nat, Inode>, i: nat)
    requires i in ns
    ensures |ns - {i}| < |ns|
  {
    assert (ns - {i}).Keys == ns.Keys - {i};
    assert |(ns - {i}).Keys| < |ns.Keys|;
  }
}
