/** Moving a name: the commit of `rename_inode` in fs/tmpfs.c, and why it walks up from the new directory first. */
module TmpfsRename {
  import opened TmpfsTree
  import opened TmpfsRemove

  /** Directory i is d or lies above it. */
  ghost predicate Within(ns: map<nat, Inode>, i: nat, d: nat) {
    exists s :: PathOk(ns, s) && s[0] == d && i in s
  }

  /** The walk up from d that `rename_inode` makes: along parents to the root, to i, or to an inode whose parent is
      missing. */
  ghost predicate Climb(ns: map<nat, Inode>, i: nat, d: nat, s: seq<nat>) {
    && |s| > 0 && s[0] == d && (forall j :: 0 <= j < |s| ==> s[j] in ns)
    && (forall j :: 0 <= j < |s| - 1 ==> s[j] != ROOT && s[j] != i && ns[s[j]].parent == s[j + 1])
    && (s[|s| - 1] == ROOT || s[|s| - 1] == i || ns[s[|s| - 1]].parent !in ns)
  }

  /** The walk comes to an end. */
  ghost predicate Climbs(ns: map<nat, Inode>, i: nat, d: nat) {
    exists s :: Climb(ns, i, d, s)
  }

  /** The walk meets i. */
  ghost predicate Meets(ns: map<nat, Inode>, i: nat, d: nat) {
    exists s :: Climb(ns, i, d, s) && s[|s| - 1] == i
  }

  /** The walk meets a missing parent, where the source traps. */
  ghost predicate Falls(ns: map<nat, Inode>, i: nat, d: nat) {
    exists s :: Climb(ns, i, d, s) && s[|s| - 1] != i && s[|s| - 1] != ROOT
  }

  function MovedInode(x: Inode, j: nat, i: nat, op: nat, np: nat, turn: bool): Inode {
    Inode(x.dir, if turn && j == i then np else x.parent,
          (if turn && j == op && x.links > 0 then x.links - 1 else x.links) + (if turn && j == np then 1 else 0),
          (if j == op && x.size >= DIRENT_SIZE then x.size - DIRENT_SIZE else x.size)
              + (if j == np then DIRENT_SIZE else 0), x.handles)
  }

  function Moved(ns: map<nat, Inode>, i: nat, op: nat, np: nat): map<nat, Inode>
    requires i in ns
  {
    map j | j in ns :: MovedInode(ns[j], j, i, op, np, ns[i].dir && op != np)
  }

  // ---------------------------------------------------------------- fields against names

  /** An inode's names before the move, between, and afterwards. */
  lemma MoveIs(ns: map<nat, Inode>, i: nat, k1: Key, k2: Key, j: nat, a: set<Key>, b: set<Key>, c: nat,
               a1: set<Key>, b1: set<Key>, c1: nat, a2: set<Key>, b2: set<Key>, c2: nat)
    requires i in ns && i != ROOT && ns[i].links > 0 && Live(ns, k1.0) && Live(ns, k2.0) && j in ns
    requires InodeIs(ns[j], j, a, b, c)
    requires a == (if i == j then a1 + {k1} else a1) && |a| == |a1| + if i == j then 1 else 0
    requires b == (if k1.0 == j then b1 + {k1} else b1) && |b| == |b1| + if k1.0 == j then 1 else 0
    requires c == c1 + if k1.0 == j && ns[i].dir then 1 else 0
    requires a2 == (if i == j then a1 + {k2} else a1) && |a2| == |a1| + if i == j then 1 else 0
    requires b2 == (if k2.0 == j then b1 + {k2} else b1) && |b2| == |b1| + if k2.0 == j then 1 else 0
    requires c2 == c1 + if k2.0 == j && ns[i].dir then 1 else 0
    ensures InodeIs(Moved(ns, i, k1.0, k2.0)[j], j, a2, b2, c2)
  {
    if j == i && ns[i].dir {
      assert k1 in a && a1 == {};
    }
  }

  lemma MoveInode(ns: map<nat, Inode>, es: map<Key, nat>, k1: Key, k2: Key, j: nat)
    requires EntriesOk(ns, es) && InodesOk(ns, es) && k1 in es && k2 !in es && Live(ns, k2.0) && es[k1] in ns && j in ns
    ensures InodeOk(Moved(ns, es[k1], k1.0, k2.0), (es - {k1})[k2 := es[k1]], j)
  {
    hide Naming, Subdirs, Listing, InodeIs, MovedInode;
    var i, es1, ns' := es[k1], es - {k1}, Moved(ns, es[k1], k1.0, k2.0);
    var es' := es1[k2 := i];
    NamesOf(ns, es, k1);
    RemoveAdd(es, k1);
    AddNaming(es1, k1, i, j);
    AddListing(es1, k1, i, j);
    AddSubdirs(ns, es1, k1, i, j);
    AddNaming(es1, k2, i, j);
    AddListing(es1, k2, i, j);
    AddSubdirs(ns, es1, k2, i, j);
    MovedSame(ns, i, k1.0, k2.0);
    SubdirsFrame(ns, ns', es', j);
    assert InodeOk(ns, es, j);
    MoveIs(ns, i, k1, k2, j, Naming(es, j), Listing(es, j), |Subdirs(ns, es, j)|,
           Naming(es1, j), Listing(es1, j), |Subdirs(ns, es1, j)|, Naming(es', j), Listing(es', j),
               |Subdirs(ns, es', j)|);
  }

  lemma MovedSame(ns: map<nat, Inode>, i: nat, op: nat, np: nat)
    requires i in ns
    ensures forall j :: j in ns ==> Moved(ns, i, op, np)[j].dir == ns[j].dir
    ensures Moved(ns, i, op, np).Keys == ns.Keys
  {}

  lemma MoveInodes(ns: map<nat, Inode>, es: map<Key, nat>, k1: Key, k2: Key)
    requires EntriesOk(ns, es) && InodesOk(ns, es) && k1 in es && k2 !in es && Live(ns, k2.0) && es[k1] in ns
    ensures InodesOk(Moved(ns, es[k1], k1.0, k2.0), (es - {k1})[k2 := es[k1]])
  {
    hide InodeOk, EntriesOk, MovedInode;
    forall j | j in Moved(ns, es[k1], k1.0, k2.0)
        ensures InodeOk(Moved(ns, es[k1], k1.0, k2.0), (es - {k1})[k2 := es[k1]], j) {
      MoveInode(ns, es, k1, k2, j);
    }
  }

  // ---------------------------------------------------------------- names lead from live directories

  lemma MovedLive(ns: map<nat, Inode>, es: map<Key, nat>, k1: Key, np: nat, d: nat)
    requires EntriesOk(ns, es) && InodesOk(ns, es) && k1 in es && es[k1] in ns && np in ns
    ensures Live(ns, d) ==> Live(Moved(ns, es[k1], k1.0, np), d)
    ensures Live(Moved(ns, es[k1], k1.0, np), d) && (d != np || !ns[es[k1]].dir || k1.0 == np) ==> Live(ns, d)
  {
    hide Naming, Subdirs, Listing, EntriesOk, InodesOk;
    SubdirLinks(ns, es, k1);
  }

  lemma MoveEntries(ns: map<nat, Inode>, es: map<Key, nat>, k1: Key, k2: Key)
    requires EntriesOk(ns, es) && InodesOk(ns, es) && k1 in es && k2 !in es && Live(ns, k2.0) && es[k1] in ns
    ensures EntriesOk(Moved(ns, es[k1], k1.0, k2.0), (es - {k1})[k2 := es[k1]])
  {
    hide InodesOk, Live, MovedInode;
    var ns', es' := Moved(ns, es[k1], k1.0, k2.0), (es - {k1})[k2 := es[k1]];
    MovedSame(ns, es[k1], k1.0, k2.0);
    LiveIn(ns, k2.0);
    forall q | q in es' ensures Live(ns', q.0) && es'[q] in ns' {
      MovedLive(ns, es, k1, k2.0, q.0);
    }
  }

  lemma LiveIn(ns: map<nat, Inode>, d: nat)
    requires Live(ns, d)
    ensures d in ns
  {}

  lemma MoveTotal(ns: map<nat, Inode>, es: map<Key, nat>, k1: Key, k2: Key, next: nat)
    requires k1 in es && k2 !in es && es[k1] in ns && es[k1] < next
    ensures Total(Moved(ns, es[k1], k1.0, k2.0), (es - {k1})[k2 := es[k1]], next) == Total(ns, es, next)
  {
    hide Naming, Total, MovedInode;
    var i, es1, ns' := es[k1], es - {k1}, Moved(ns, es[k1], k1.0, k2.0);
    RemoveAdd(es, k1);
    MovedSame(ns, i, k1.0, k2.0);
    TotalName(ns', es1, ns, next, k1, i);
    TotalName(ns', es1, ns', next, k2, i);
  }

  // ---------------------------------------------------------------- the tree of directories

  /** There is one way up. */
  lemma {:induction false} PathUnique(ns: map<nat, Inode>, s: seq<nat>, t: seq<nat>)
    requires PathOk(ns, s) && PathOk(ns, t) && s[0] == t[0]
    ensures s == t
  {
    if s[0] == ROOT {
      assert |s| == 1 && |t| == 1;
    } else {
      PathTail(ns, s, 1);
      PathTail(ns, t, 1);
      PathUnique(ns, s[1..], t[1..]);
      assert s == [s[0]] + s[1..] && t == [t[0]] + t[1..];
    }
  }

  lemma FirstAt(s: seq<nat>, i: nat) returns (m: nat)
    requires i in s
    ensures m < |s| && s[m] == i && forall j :: 0 <= j < m ==> s[j] != i
  {
    m := 0;
    while s[m] != i
      invariant m < |s| && forall j :: 0 <= j < m ==> s[j] != i
      invariant exists j :: m <= j < |s| && s[j] == i
      decreases |s| - m
    {
      m := m + 1;
    }
  }

  /** The way up from what was below i: to i as before, and on from the new parent. */
  lemma PathJoin(ns: map<nat, Inode>, s: seq<nat>, m: nat, t: seq<nat>)
    requires PathOk(ns, t) && m < |s|
    requires forall j ::
              0 <= j <= m ==> Live(ns, s[j]) && s[j] != ROOT && ns[s[j]].parent == if j < m then s[j + 1] else t[0]
    ensures PathOk(ns, s[..m + 1] + t)
  {
    var u := s[..m + 1] + t;
    forall j | 0 <= j < |u| ensures Live(ns, u[j]) {}
    forall j | 0 <= j < |u| - 1 ensures ns[u[j]].parent == u[j + 1] && u[j] != ROOT {
      if j > m {
        assert u[j] == t[j - m - 1] && u[j + 1] == t[j - m];
      } else {
        assert u[j] == s[j] && u[j + 1] == if j < m then s[j + 1] else t[0];
      }
    }
  }

  /** Parents and liveness after a move, as the tree sees them. */
  ghost predicate Reparented(ns: map<nat, Inode>, ns': map<nat, Inode>, i: nat, np: nat, turn: bool) {
    && (forall d :: Live(ns, d) ==> Live(ns', d) && ns'[d].parent == if turn && d == i then np else ns[d].parent)
    && (forall d :: Live(ns', d) ==> Live(ns, d))
  }

  lemma MoveReparents(ns: map<nat, Inode>, es: map<Key, nat>, k1: Key, np: nat)
    requires EntriesOk(ns, es) && InodesOk(ns, es) && k1 in es && es[k1] in ns && Live(ns, np)
    ensures Reparented(ns, Moved(ns, es[k1], k1.0, np), es[k1], np, ns[es[k1]].dir && k1.0 != np)
  {
    hide EntriesOk, InodesOk;
    var i, ns', turn := es[k1], Moved(ns, es[k1], k1.0, np), ns[es[k1]].dir && k1.0 != np;
    forall d
        ensures (Live(ns, d) <==> Live(ns', d))
                  && (Live(ns, d) ==> ns'[d].parent == if turn && d == i then np else ns[d].parent) {
      MovedLive(ns, es, k1, np, d);
    }
  }

  lemma TurnedPath(ns: map<nat, Inode>, ns': map<nat, Inode>, i: nat, np: nat, d: nat)
    requires TreeOk(ns) && Reparented(ns, ns', i, np, true) && Live(ns, d) && Live(ns, np) && i != ROOT
              && !Within(ns, i, np)
    ensures Rooted(ns', d)
  {
    assert Rooted(ns, np) && Rooted(ns, d);
    var t :| PathOk(ns, t) && t[0] == np;
    var s :| PathOk(ns, s) && s[0] == d;
    PathFrame(ns, ns', t);
    if i in s {
      var m := FirstAt(s, i);
      PathJoin(ns', s, m, t);
      assert (s[..m + 1] + t)[0] == d;
    } else {
      PathFrame(ns, ns', s);
    }
  }

  lemma MoveTree(ns: map<nat, Inode>, ns': map<nat, Inode>, i: nat, np: nat, turn: bool)
    requires TreeOk(ns) && Reparented(ns, ns', i, np, turn) && ROOT in ns' && i != ROOT && Live(ns, np)
    requires turn ==> !Within(ns, i, np)
    ensures TreeOk(ns')
  {
    if turn {
      hide Reparented, Within, Rooted;
      forall d | Live(ns', d) ensures Rooted(ns', d) {
        WasLive(ns, ns', i, np, turn, d);
        TurnedPath(ns, ns', i, np, d);
      }
    } else {
      TreeFrame(ns, ns');
    }
  }

  lemma WasLive(ns: map<nat, Inode>, ns': map<nat, Inode>, i: nat, np: nat, turn: bool, d: nat)
    requires Reparented(ns, ns', i, np, turn) && Live(ns', d)
    ensures Live(ns, d)
  {}

  // ---------------------------------------------------------------- the check against cycles

  /** t[..m + 1] is a ring of parents. */
  ghost predicate Ring(ns: map<nat, Inode>, t: seq<nat>, m: nat) {
    && m < |t| && (forall j :: 0 <= j <= m ==> t[j] in ns && t[j] != ROOT)
    && (forall j :: 0 <= j < m ==> ns[t[j]].parent == t[j + 1]) && ns[t[m]].parent == t[0]
  }

  lemma {:induction false} Follow(ns: map<nat, Inode>, t: seq<nat>, m: nat, s: seq<nat>, j: nat)
    requires Ring(ns, t, m) && PathOk(ns, s) && s[0] == t[0] && j <= m
    ensures j < |s| - 1 && s[j] == t[j]
  {
    if j > 0 {
      Follow(ns, t, m, s, j - 1);
      assert ns[s[j - 1]].parent == s[j] && ns[t[j - 1]].parent == t[j];
    }
    assert t[j] != ROOT;
  }

  /** There is no way up from a ring. */
  lemma {:induction false} NoWayUp(ns: map<nat, Inode>, t: seq<nat>, m: nat, s: seq<nat>)
    requires Ring(ns, t, m) && |s| > 0 && s[0] == t[0]
    ensures !PathOk(ns, s)
    decreases |s|
  {
    if PathOk(ns, s) {
      Follow(ns, t, m, s, m);
      assert ns[s[m]].parent == s[m + 1] && ns[t[m]].parent == t[0];
      PathTail(ns, s, m + 1);
      NoWayUp(ns, t, m, s[m + 1..]);
    }
  }

  /** A directory moved below itself is lost to the root. */
  lemma CycleIsLost(ns: map<nat, Inode>, ns': map<nat, Inode>, i: nat, np: nat)
    requires Reparented(ns, ns', i, np, true) && Within(ns, i, np) && i != ROOT
    ensures Live(ns', np) && !Rooted(ns', np)
  {
    var t :| PathOk(ns, t) && t[0] == np && i in t;
    var m := FirstAt(t, i);
    assert Ring(ns', t, m);
    forall s | |s| > 0 && s[0] == np ensures !PathOk(ns', s) {
      NoWayUp(ns', t, m, s);
    }
  }

  lemma ChildNotAbove(ns: map<nat, Inode>, i: nat, np: nat)
    requires TreeOk(ns) && Live(ns, i) && i != ROOT && ns[i].parent == np
    ensures !Within(ns, i, np)
  {
    forall s | PathOk(ns, s) && s[0] == np ensures i !in s {
      PathCons(ns, i, s);
      forall j | 0 <= j < |s| ensures s[j] != i {
        if s[j] == i {
          PathTail(ns, s, j);
          PathUnique(ns, s[j..], [i] + s);
        }
      }
    }
  }

  lemma MoveForward(ns: map<nat, Inode>, es: map<Key, nat>, next: nat, count: nat, k1: Key, k2: Key)
    requires NamespaceOk(ns, es, next, count) && k1 in es && k2 !in es && es[k1] in ns
    requires Live(ns, k2.0) && (ns[es[k1]].dir ==> !Within(ns, es[k1], k2.0))
    ensures NamespaceOk(Moved(ns, es[k1], k1.0, k2.0), (es - {k1})[k2 := es[k1]], next, count)
  {
    hide EntriesOk, TreeOk, InodesOk, Total, MovedInode, Reparented, Within;
    NamesOf(ns, es, k1);
    MovedSame(ns, es[k1], k1.0, k2.0);
    MoveInodes(ns, es, k1, k2);
    MoveEntries(ns, es, k1, k2);
    MoveTotal(ns, es, k1, k2, next);
    MoveReparents(ns, es, k1, k2.0);
    RootIn(ns);
    MoveTree(ns, Moved(ns, es[k1], k1.0, k2.0), es[k1], k2.0, ns[es[k1]].dir && k1.0 != k2.0);
  }

  lemma RootIn(ns: map<nat, Inode>)
    requires TreeOk(ns)
    ensures ROOT in ns
  {}

  lemma NeedsLive(ns: map<nat, Inode>, es: map<Key, nat>, k1: Key, k2: Key)
    requires k1 in es && es[k1] in ns && k2.0 in ns && InodesOk(ns, es) && k2 !in es
    requires EntriesOk(Moved(ns, es[k1], k1.0, k2.0), (es - {k1})[k2 := es[k1]])
    requires InodesOk(Moved(ns, es[k1], k1.0, k2.0), (es - {k1})[k2 := es[k1]])
    ensures Live(ns, k2.0)
  {
    hide Naming, Listing, Subdirs;
    var ns', es' := Moved(ns, es[k1], k1.0, k2.0), (es - {k1})[k2 := es[k1]];
    assert k2 in es' && Live(ns', k2.0);
    assert InodeOk(ns', es', k2.0);
  }

  lemma NeedsOutside(ns: map<nat, Inode>, es: map<Key, nat>, k1: Key, np: nat)
    requires EntriesOk(ns, es) && InodesOk(ns, es) && TreeOk(ns) && k1 in es && es[k1] in ns && Live(ns, np)
              && ns[es[k1]].dir
    requires TreeOk(Moved(ns, es[k1], k1.0, np))
    ensures !Within(ns, es[k1], np)
  {
    hide EntriesOk, InodesOk, Naming, Rooted, PathOk;
    var i, ns' := es[k1], Moved(ns, es[k1], k1.0, np);
    NamesOf(ns, es, k1);
    MoveReparents(ns, es, k1, np);
    if k1.0 == np {
      ChildNotAbove(ns, i, np);
    } else if Within(ns, i, np) {
      CycleIsLost(ns, ns', i, np);
    }
  }

  /** Moving a name keeps the namespace exactly when the new directory is live and, for a directory, not below it. */
  lemma MoveKeeps(ns: map<nat, Inode>, es: map<Key, nat>, next: nat, count: nat, k1: Key, k2: Key)
    requires NamespaceOk(ns, es, next, count) && k1 in es && k2 !in es && es[k1] in ns && k2.0 in ns
    ensures NamespaceOk(Moved(ns, es[k1], k1.0, k2.0), (es - {k1})[k2 := es[k1]], next, count) <==>
            Live(ns, k2.0) && (ns[es[k1]].dir ==> !Within(ns, es[k1], k2.0))
  {
    hide EntriesOk, TreeOk, InodesOk, Total, Moved, Within, Numbered;
    if Live(ns, k2.0) && (ns[es[k1]].dir ==> !Within(ns, es[k1], k2.0)) {
      MoveForward(ns, es, next, count, k1, k2);
    }
    if NamespaceOk(Moved(ns, es[k1], k1.0, k2.0), (es - {k1})[k2 := es[k1]], next, count) {
      NeedsLive(ns, es, k1, k2);
      if ns[es[k1]].dir {
        NeedsOutside(ns, es, k1, k2.0);
      }
    }
  }

  // ---------------------------------------------------------------- walking up, and a name in the way

  /** The walk is determined by where it starts. */
  lemma {:induction false} ClimbUnique(ns: map<nat, Inode>, i: nat, d: nat, s: seq<nat>, t: seq<nat>)
    requires Climb(ns, i, d, s) && Climb(ns, i, d, t)
    ensures s == t
    decreases |s|
  {
    assert s[0] == d && t[0] == d && d in ns;
    if d == ROOT || d == i || ns[d].parent !in ns {
      ClimbEnds(ns, i, d, s);
      ClimbEnds(ns, i, d, t);
    } else {
      ClimbTail(ns, i, d, s);
      ClimbTail(ns, i, d, t);
      ClimbUnique(ns, i, ns[d].parent, s[1..], t[1..]);
      assert s == [s[0]] + s[1..] && t == [t[0]] + t[1..];
    }
  }

  lemma ClimbEnds(ns: map<nat, Inode>, i: nat, d: nat, s: seq<nat>)
    requires Climb(ns, i, d, s) && d in ns && (d == ROOT || d == i || ns[d].parent !in ns)
    ensures |s| == 1
  {
    if |s| > 1 {
      ClimbSecond(ns, i, d, s);
    }
  }

  lemma ClimbSecond(ns: map<nat, Inode>, i: nat, d: nat, s: seq<nat>)
    requires Climb(ns, i, d, s) && |s| > 1
    ensures d in ns && d != ROOT && d != i && ns[d].parent in ns
  {
    assert s[1] in ns && ns[s[0]].parent == s[1];
  }

  lemma ClimbTail(ns: map<nat, Inode>, i: nat, d: nat, s: seq<nat>)
    requires Climb(ns, i, d, s) && d in ns && d != ROOT && d != i && ns[d].parent in ns
    ensures |s| > 1 && Climb(ns, i, ns[d].parent, s[1..])
  {
    assert |s| > 1;
    assert s[0] == d;
    var t := s[1..];
    forall j | 0 <= j < |t| ensures t[j] in ns {
      assert t[j] == s[j + 1];
    }
    forall j | 0 <= j < |t| - 1 ensures t[j] != ROOT && t[j] != i && ns[t[j]].parent == t[j + 1] {
      assert t[j] == s[j + 1] && t[j + 1] == s[j + 2];
    }
  }

  /** The walk up from a live directory never meets a missing parent, and it decides whether i lies above. */
  lemma LiveClimbs(ns: map<nat, Inode>, i: nat, d: nat)
    requires TreeOk(ns) && Live(ns, d)
    ensures Climbs(ns, i, d) && !Falls(ns, i, d) && (Meets(ns, i, d) <==> Within(ns, i, d))
  {
    assert Rooted(ns, d);
    var s :| PathOk(ns, s) && s[0] == d;
    var m := |s| - 1;
    if i in s {
      m := FirstAt(s, i);
    }
    var t := s[..m + 1];
    assert Climb(ns, i, d, t);
    ClimbIs(ns, i, d, t);
    assert t[|t| - 1] == s[m];
    if Within(ns, i, d) {
      var u :| PathOk(ns, u) && u[0] == d && i in u;
      PathUnique(ns, s, u);
    }
  }

  /** One walk settles where every walk ends. */
  lemma ClimbIs(ns: map<nat, Inode>, i: nat, d: nat, s: seq<nat>)
    requires Climb(ns, i, d, s)
    ensures Meets(ns, i, d) <==> s[|s| - 1] == i
    ensures Falls(ns, i, d) <==> s[|s| - 1] != i && s[|s| - 1] != ROOT
  {
    if Meets(ns, i, d) {
      var t :| Climb(ns, i, d, t) && t[|t| - 1] == i;
      ClimbUnique(ns, i, d, s, t);
    }
    if Falls(ns, i, d) {
      var t :| Climb(ns, i, d, t) && t[|t| - 1] != i && t[|t| - 1] != ROOT;
      ClimbUnique(ns, i, d, s, t);
    }
  }

  lemma ClimbStep(ns: map<nat, Inode>, i: nat, d: nat, s: seq<nat>, m: nat)
    requires Climb(ns, i, d, s) && m < |s|
    ensures s[m] in ns
    ensures s[m] == ROOT || s[m] == i || ns[s[m]].parent !in ns ==> m == |s| - 1
    ensures s[m] != ROOT && s[m] != i && ns[s[m]].parent in ns ==> m + 1 < |s| && ns[s[m]].parent == s[m + 1]
  {
    if m < |s| - 1 {
      assert s[m + 1] in ns;
    }
  }

  /** Paths after a removal were paths before. */
  lemma ReplacedPath(ns: map<nat, Inode>, es: map<Key, nat>, k: Key, s: seq<nat>)
    requires EntriesOk(ns, es) && InodesOk(ns, es) && Removable(ns, es, k) && PathOk(Removed(ns, es[k], k.0), s)
    ensures PathOk(ns, s)
  {
    hide Removed, InodesOk, EntriesOk, Listing;
    var ns' := Removed(ns, es[k], k.0);
    forall j | 0 <= j < |s| ensures Live(ns, s[j]) && ns'[s[j]].parent == ns[s[j]].parent {
      assert Live(ns', s[j]);
      RemovedWas(ns, es[k], k.0, s[j]);
    }
  }

  lemma ReplacedTree(ns: map<nat, Inode>, es: map<Key, nat>, k1: Key, k2: Key)
    requires EntriesOk(ns, es) && InodesOk(ns, es) && Removable(ns, es, k2) && k1 in es && !Within(ns, es[k1], k2.0)
    ensures !Within(Removed(ns, es[k2], k2.0), es[k1], k2.0)
  {
    hide Removed, InodesOk, EntriesOk, Listing;
    var ns' := Removed(ns, es[k2], k2.0);
    if Within(ns', es[k1], k2.0) {
      var s :| PathOk(ns', s) && s[0] == k2.0 && es[k1] in s;
      ReplacedPath(ns, es, k2, s);
    }
  }

  /** The updates one by one, for a directory that changes parents and for any other move. */
  lemma MovedBySteps(ns: map<nat, Inode>, i: nat, op: nat, np: nat)
    requires i in ns && op in ns && np in ns && ns[op].size >= DIRENT_SIZE && ns[op].links > 0
    ensures var ns1 := ns[op := ns[op].(size := ns[op].size - DIRENT_SIZE)];
            var ns2 := ns1[np := ns1[np].(size := ns1[np].size + DIRENT_SIZE)];
            if ns[i].dir && op != np then
              var ns3 := ns2[op := ns2[op].(links := ns2[op].links - 1)];
              var ns4 := ns3[np := ns3[np].(links := ns3[np].links + 1)];
              ns4[i := ns4[i].(parent := np)] == Moved(ns, i, op, np)
            else ns2 == Moved(ns, i, op, np)
  {}

  /** The inodes once a name in the way is gone. */
  function Without(ns: map<nat, Inode>, es: map<Key, nat>, k: Key): map<nat, Inode> {
    if k in es && es[k] in ns && k.0 in ns then Removed(ns, es[k], k.0) else ns
  }

  /** What the name in the way takes from the inode count. */
  function Freed(ns: map<nat, Inode>, es: map<Key, nat>, k: Key): nat {
    if k in es && es[k] in ns && k.0 in ns then Released(ns, es[k], k.0) else 0
  }

  function Renamed(ns: map<nat, Inode>, es: map<Key, nat>, k1: Key, k2: Key): map<nat, Inode> {
    var ns' := Without(ns, es, k2);
    if k1 in es && es[k1] in ns' then Moved(ns', es[k1], k1.0, k2.0) else ns'
  }

  /** A name to move, and another inode's name in its way that is not to be kept. */
  ghost predicate Replaces(ns: map<nat, Inode>, es: map<Key, nat>, k1: Key, k2: Key, keep: bool) {
    k1 in es && es[k1] in ns && k2 in es && es[k2] in ns && !keep && es[k1] != es[k2]
  }

  /** There is a name to move, and nothing in the way but another inode's name of the same kind that may go. */
  ghost predicate Clear(ns: map<nat, Inode>, es: map<Key, nat>, k1: Key, k2: Key, keep: bool) {
    && k1 in es && es[k1] in ns && k2.0 in ns
    && (k2 in es ==> !keep && es[k1] != es[k2] && Removable(ns, es, k2) && ns[es[k1]].dir == ns[es[k2]].dir)
  }

  /** What a rename needs besides memory: a clear way, and for a directory a walk up that reaches the root. */
  ghost predicate MayRename(ns: map<nat, Inode>, es: map<Key, nat>, k1: Key, k2: Key, keep: bool) {
    && Clear(ns, es, k1, k2, keep)
    && (ns[es[k1]].dir ==> !Meets(ns, es[k1], k2.0) && !Falls(ns, es[k1], k2.0))
  }

  /** The directory of the name in the way stays live. */
  lemma OtherDirectory(ns: map<nat, Inode>, es: map<Key, nat>, k2: Key, k1: Key)
    requires EntriesOk(ns, es) && InodesOk(ns, es) && Removable(ns, es, k2) && k1 in es
    ensures Live(Removed(ns, es[k2], k2.0), k2.0)
  {
    RemovedLive(ns, es, k2, k2);
  }

  /** The replaced inode's names are those it had besides k2. */
  lemma MovedNames(es: map<Key, nat>, k1: Key, k2: Key)
    requires k1 in es && k2 in es && es[k1] != es[k2]
    ensures (es - {k2} - {k1})[k2 := es[k1]] == (es - {k1})[k2 := es[k1]]
    ensures Naming((es - {k1})[k2 := es[k1]], es[k2]) == Naming(es - {k2}, es[k2])
  {}
}
