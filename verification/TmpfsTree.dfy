/** The namespace of fs/tmpfs.c as data: inodes by number, and names by (directory, name). What every
    operation keeps: link counts, directory sizes, the inode count, and a tree of directories under inode 1. */
module TmpfsTree {

  const ROOT: nat := 1
  const DIRENT_SIZE: nat := 20

  datatype Inode = Inode(dir: bool, parent: nat, links: nat, size: nat, handles: nat)

  type Key = (nat, string)

  /** The names of inode i, the names in directory p, and those of p's subdirectories. */
  function Naming(es: map<Key, nat>, i: nat): set<Key> {
    set k | k in es && es[k] == i
  }

  function Listing(es: map<Key, nat>, p: nat): set<Key> {
    set k | k in es && k.0 == p
  }

  function Subdirs(ns: map<nat, Inode>, es: map<Key, nat>, p: nat): set<Key> {
    set k | k in es && k.0 == p && es[k] in ns && ns[es[k]].dir
  }

  /** A directory that still has its name (or is the root). */
  predicate Live(ns: map<nat, Inode>, i: nat) {
    i in ns && ns[i].dir && ns[i].links > 0
  }

  /** What an inode's fields say about its names, the names in it, and its subdirectories. */
  ghost predicate InodeIs(x: Inode, i: nat, names: set<Key>, listed: set<Key>, subs: nat) {
    && (x.links == 0 ==> x.handles > 0)
    && (!x.dir ==> x.links == |names| && i != ROOT)
    && (x.dir && x.links == 0 ==> names == {} && listed == {} && i != ROOT)
    && (x.dir && x.links > 0 ==>
          && x.links == 2 + subs && x.size == DIRENT_SIZE * (2 + |listed|)
          && (if i == ROOT then names == {} else |names| == 1 && forall k :: k in names ==> k.0 == x.parent))
  }

  ghost predicate InodeOk(ns: map<nat, Inode>, es: map<Key, nat>, i: nat)
    requires i in ns
  {
    InodeIs(ns[i], i, Naming(es, i), Listing(es, i), |Subdirs(ns, es, i)|)
  }

  /** Names lead from live directories to inodes. */
  ghost predicate EntriesOk(ns: map<nat, Inode>, es: map<Key, nat>) {
    forall k :: k in es ==> Live(ns, k.0) && es[k] in ns
  }

  /** The way up from a directory to the root. */
  ghost predicate PathOk(ns: map<nat, Inode>, s: seq<nat>) {
    && |s| > 0 && s[|s| - 1] == ROOT
    && (forall j :: 0 <= j < |s| ==> Live(ns, s[j]))
    && (forall j :: 0 <= j < |s| - 1 ==> ns[s[j]].parent == s[j + 1] && s[j] != ROOT)
  }

  ghost predicate Rooted(ns: map<nat, Inode>, i: nat) {
    exists s :: PathOk(ns, s) && s[0] == i
  }

  ghost predicate TreeOk(ns: map<nat, Inode>) {
    ROOT in ns && forall i :: Live(ns, i) ==> Rooted(ns, i)
  }

  function Max(a: nat, b: nat): nat { if a > b then a else b }

  /** The sum over inodes below n of max(1, names). */
  function Total(ns: map<nat, Inode>, es: map<Key, nat>, n: nat): nat {
    if n == 0 then 0 else Total(ns, es, n - 1) + if n - 1 in ns then Max(1, |Naming(es, n - 1)|) else 0
  }

  ghost predicate NamespaceOk(ns: map<nat, Inode>, es: map<Key, nat>, next: nat, count: nat) {
    EntriesOk(ns, es) && TreeOk(ns) && InodesOk(ns, es) && Numbered(ns, next) && count == Total(ns, es, next)
  }

  ghost predicate InodesOk(ns: map<nat, Inode>, es: map<Key, nat>) {
    forall i :: i in ns ==> InodeOk(ns, es, i)
  }

  ghost predicate Numbered(ns: map<nat, Inode>, next: nat) {
    forall i :: i in ns ==> 0 < i < next
  }

  lemma NamespaceParts(ns: map<nat, Inode>, es: map<Key, nat>, next: nat, count: nat)
    requires NamespaceOk(ns, es, next, count)
    ensures EntriesOk(ns, es) && TreeOk(ns) && InodesOk(ns, es) && Numbered(ns, next) && count == Total(ns, es, next)
  {}

  // ---------------------------------------------------------------- adding and removing a name

  lemma AddNaming(es: map<Key, nat>, k: Key, c: nat, i: nat)
    requires k !in es
    ensures Naming(es[k := c], i) == if c == i then Naming(es, i) + {k} else Naming(es, i)
    ensures |Naming(es[k := c], i)| == |Naming(es, i)| + if c == i then 1 else 0
  {
    assert Naming(es[k := c], i) == if c == i then Naming(es, i) + {k} else Naming(es, i);
    assert k !in Naming(es, i);
  }

  lemma AddListing(es: map<Key, nat>, k: Key, c: nat, p: nat)
    requires k !in es
    ensures Listing(es[k := c], p) == if k.0 == p then Listing(es, p) + {k} else Listing(es, p)
    ensures |Listing(es[k := c], p)| == |Listing(es, p)| + if k.0 == p then 1 else 0
  {
    assert Listing(es[k := c], p) == if k.0 == p then Listing(es, p) + {k} else Listing(es, p);
    assert k !in Listing(es, p);
  }

  lemma AddSubdirs(ns: map<nat, Inode>, es: map<Key, nat>, k: Key, c: nat, p: nat)
    requires k !in es && c in ns
    ensures |Subdirs(ns, es[k := c], p)| == |Subdirs(ns, es, p)| + if k.0 == p && ns[c].dir then 1 else 0
  {
    var es', a := es[k := c], Subdirs(ns, es, p);
    var b := Subdirs(ns, es', p);
    assert k !in a;
    if k.0 == p && ns[c].dir {
      forall q ensures q in b <==> q in a + {k} {
        assert q != k ==> (q in es' <==> q in es);
      }
      assert b == a + {k};
    } else {
      forall q ensures q in b <==> q in a {
        assert q != k ==> (q in es' <==> q in es);
      }
      assert b == a;
    }
  }

  /** Removing is the inverse of adding. */
  lemma RemoveAdd(es: map<Key, nat>, k: Key)
    requires k in es
    ensures k !in es - {k} && (es - {k})[k := es[k]] == es
  {}

  /** Subdirectories are counted alike while the same inodes are directories. */
  lemma SubdirsFrame(ns: map<nat, Inode>, ns': map<nat, Inode>, es: map<Key, nat>, p: nat)
    requires forall k :: k in es ==> es[k] in ns && es[k] in ns' && ns'[es[k]].dir == ns[es[k]].dir
    ensures Subdirs(ns', es, p) == Subdirs(ns, es, p)
  {}

  lemma {:induction false} TotalFrame(ns: map<nat, Inode>, es: map<Key, nat>, ns': map<nat, Inode>, es': map<Key, nat>,
                                      n: nat)
    requires forall i: nat ::
              i < n ==> (i in ns <==> i in ns') && (i in ns ==> Max(1, |Naming(es', i)|) == Max(1, |Naming(es, i)|))
    ensures Total(ns', es', n) == Total(ns, es, n)
  {
    hide Naming, Max;
    if n > 0 {
      TotalFrame(ns, es, ns', es', n - 1);
    }
  }

  /** One inode's share of the total changes. */
  lemma {:induction false} TotalChange(ns: map<nat, Inode>, es: map<Key, nat>, ns': map<nat, Inode>, es': map<Key, nat>,
                                       n: nat, c: nat)
    requires c < n
              && forall i: nat ::
                 i < n && i != c ==>
                     (i in ns <==> i in ns') && (i in ns ==> Max(1, |Naming(es', i)|) == Max(1, |Naming(es, i)|))
    ensures Total(ns', es', n)
              == Total(ns, es, n) - (if c in ns then Max(1, |Naming(es, c)|) else 0)
                  + if c in ns' then Max(1, |Naming(es', c)|) else 0
  {
    hide Naming, Max;
    if c == n - 1 {
      TotalFrame(ns, es, ns', es', n - 1);
    } else {
      TotalChange(ns, es, ns', es', n - 1, c);
    }
  }

  lemma {:induction false} TotalBeyond(ns: map<nat, Inode>, es: map<Key, nat>, n: nat, m: nat)
    requires n <= m && forall i: nat :: n <= i < m ==> i !in ns
    ensures Total(ns, es, m) == Total(ns, es, n)
    decreases m - n
  {
    if n < m {
      TotalBeyond(ns, es, n, m - 1);
    }
  }

  /** A further name counts unless it is the first. */
  lemma TotalName(ns: map<nat, Inode>, es: map<Key, nat>, ns': map<nat, Inode>, n: nat, k: Key, i: nat)
    requires k !in es && i in ns && i < n && ns'.Keys == ns.Keys
    ensures Total(ns', es[k := i], n) == Total(ns, es, n) + if |Naming(es, i)| > 0 then 1 else 0
  {
    hide Naming;
    var es' := es[k := i];
    AddNaming(es, k, i, i);
    forall j: nat | j < n && j != i ensures Naming(es', j) == Naming(es, j) {
      AddNaming(es, k, i, j);
    }
    TotalChange(ns, es, ns', es', n, i);
  }

  // ---------------------------------------------------------------- paths

  lemma PathFrame(ns: map<nat, Inode>, ns': map<nat, Inode>, s: seq<nat>)
    requires PathOk(ns, s) && forall j :: 0 <= j < |s| ==> Live(ns', s[j]) && ns'[s[j]].parent == ns[s[j]].parent
    ensures PathOk(ns', s)
  {}

  lemma PathCons(ns: map<nat, Inode>, i: nat, s: seq<nat>)
    requires PathOk(ns, s) && Live(ns, i) && i != ROOT && ns[i].parent == s[0]
    ensures PathOk(ns, [i] + s)
  {
    var t := [i] + s;
    forall j | 0 <= j < |t| ensures Live(ns, t[j]) {}
    forall j | 0 <= j < |t| - 1 ensures ns[t[j]].parent == t[j + 1] && t[j] != ROOT {
      if j > 0 {
        assert t[j] == s[j - 1] && t[j + 1] == s[j];
      }
    }
  }

  lemma PathTail(ns: map<nat, Inode>, s: seq<nat>, j: nat)
    requires PathOk(ns, s) && j < |s|
    ensures PathOk(ns, s[j..]) && s[j..][0] == s[j]
  {
    var t := s[j..];
    forall a | 0 <= a < |t| ensures Live(ns, t[a]) {
      assert t[a] == s[j + a];
    }
    forall a | 0 <= a < |t| - 1 ensures ns[t[a]].parent == t[a + 1] && t[a] != ROOT {
      assert t[a] == s[j + a] && t[a + 1] == s[j + a + 1];
    }
  }

  // ---------------------------------------------------------------- directories that an operation does not touch

  /** Live directories keep their way up when parents and liveness stay. */
  lemma TreeFrame(ns: map<nat, Inode>, ns': map<nat, Inode>)
    requires TreeOk(ns) && ROOT in ns'
    requires forall i :: Live(ns, i) ==> Live(ns', i) && ns'[i].parent == ns[i].parent
    requires forall i :: Live(ns', i) ==> Live(ns, i)
    ensures TreeOk(ns')
  {
    forall i | Live(ns', i) ensures Rooted(ns', i) {
      var s :| PathOk(ns, s) && s[0] == i;
      PathFrame(ns, ns', s);
    }
  }

  // ---------------------------------------------------------------- create_child

  function Created(ns: map<nat, Inode>, p: nat, c: nat, dir: bool): map<nat, Inode>
    requires p in ns
  {
    var x := ns[p];
    ns[c := Inode(dir, p, if dir then 2 else 1, if dir then 2 * DIRENT_SIZE else 0, 0)]
      [p := Inode(x.dir, x.parent, if dir then x.links + 1 else x.links, x.size + DIRENT_SIZE, x.handles)]
  }

  lemma NewUnnamed(ns: map<nat, Inode>, es: map<Key, nat>, c: nat)
    requires EntriesOk(ns, es) && c !in ns
    ensures Naming(es, c) == {} && Listing(es, c) == {} && Subdirs(ns, es, c) == {}
  {}

  /** An inode's fields against its names before (a, b, c) and afterwards (a2, b2, c2). */
  lemma CreateIs(ns: map<nat, Inode>, k: Key, c: nat, dir: bool, i: nat,
                 a: set<Key>, b: set<Key>, n: nat, a2: set<Key>, b2: set<Key>, n2: nat)
    requires Live(ns, k.0) && c !in ns && c != ROOT && (i in ns || i == c)
    requires if i == c then a == {} && b == {} && n == 0 else InodeIs(ns[i], i, a, b, n)
    requires a2 == (if c == i then a + {k} else a) && |a2| == |a| + if c == i then 1 else 0
    requires b2 == (if k.0 == i then b + {k} else b) && |b2| == |b| + if k.0 == i then 1 else 0
    requires n2 == n + if k.0 == i && dir then 1 else 0
    ensures InodeIs(Created(ns, k.0, c, dir)[i], i, a2, b2, n2)
  {}

  lemma CreateInode(ns: map<nat, Inode>, es: map<Key, nat>, p: nat, name: string, c: nat, dir: bool, i: nat)
    requires EntriesOk(ns, es) && Live(ns, p) && (p, name) !in es && c !in ns && c != ROOT && InodesOk(ns, es)
    requires i in ns || i == c
    ensures InodeOk(Created(ns, p, c, dir), es[(p, name) := c], i)
  {
    hide Naming, Subdirs, Listing, InodeIs;
    var k, ns', es' := (p, name), Created(ns, p, c, dir), es[(p, name) := c];
    NewUnnamed(ns, es, c);
    AddNaming(es, k, c, i);
    AddListing(es, k, c, i);
    SubdirsFrame(ns, ns', es, i);
    AddSubdirs(ns', es, k, c, i);
    if i == c {
      NoSubdirs(ns, es, c);
    } else {
      assert InodeOk(ns, es, i);
    }
    CreateIs(ns, k, c, dir, i, Naming(es, i), Listing(es, i), |Subdirs(ns, es, i)|, Naming(es', i), Listing(es', i),
             |Subdirs(ns', es', i)|);
  }

  lemma NoSubdirs(ns: map<nat, Inode>, es: map<Key, nat>, i: nat)
    requires Listing(es, i) == {}
    ensures Subdirs(ns, es, i) == {}
  {
    assert Subdirs(ns, es, i) <= Listing(es, i);
  }

  lemma CreateKeeps(ns: map<nat, Inode>, es: map<Key, nat>, next: nat, count: nat, p: nat, name: string, dir: bool)
    requires NamespaceOk(ns, es, next, count) && Live(ns, p) && (p, name) !in es && next > ROOT
    ensures NamespaceOk(Created(ns, p, next, dir), es[(p, name) := next], next + 1, count + 1)
  {
    hide EntriesOk, TreeOk, InodesOk, Total, Created;
    FreshNumber(ns, next);
    CreatedKeys(ns, p, next, dir);
    CreateTree(ns, p, next, dir);
    CreateEntries(ns, es, p, name, next, dir);
    CreateTotal(ns, es, next, (p, name), Created(ns, p, next, dir));
    CreateInodes(ns, es, p, name, next, dir);
  }

  lemma CreatedKeys(ns: map<nat, Inode>, p: nat, c: nat, dir: bool)
    requires p in ns
    ensures Created(ns, p, c, dir).Keys == ns.Keys + {c}
  {}

  lemma FreshNumber(ns: map<nat, Inode>, next: nat)
    requires Numbered(ns, next)
    ensures next !in ns
  {}

  lemma CreateInodes(ns: map<nat, Inode>, es: map<Key, nat>, p: nat, name: string, c: nat, dir: bool)
    requires EntriesOk(ns, es) && Live(ns, p) && (p, name) !in es && c !in ns && c != ROOT && InodesOk(ns, es)
    ensures InodesOk(Created(ns, p, c, dir), es[(p, name) := c])
  {
    hide InodeOk, EntriesOk;
    forall i | i in Created(ns, p, c, dir) ensures InodeOk(Created(ns, p, c, dir), es[(p, name) := c], i) {
      CreateInode(ns, es, p, name, c, dir, i);
    }
  }

  lemma CreateEntries(ns: map<nat, Inode>, es: map<Key, nat>, p: nat, name: string, c: nat, dir: bool)
    requires EntriesOk(ns, es) && Live(ns, p) && c !in ns
    ensures EntriesOk(Created(ns, p, c, dir), es[(p, name) := c])
  {}

  lemma CreateTree(ns: map<nat, Inode>, p: nat, c: nat, dir: bool)
    requires TreeOk(ns) && Live(ns, p) && c !in ns && c != ROOT
    ensures TreeOk(Created(ns, p, c, dir))
  {
    var ns' := Created(ns, p, c, dir);
    forall i | Live(ns', i) ensures Rooted(ns', i) {
      var q := if i == c then p else i;
      assert Rooted(ns, q);
      var s :| PathOk(ns, s) && s[0] == q;
      PathFrame(ns, ns', s);
      if i == c {
        PathCons(ns', c, s);
      }
    }
  }

  lemma CreateTotal(ns: map<nat, Inode>, es: map<Key, nat>, next: nat, k: Key, ns': map<nat, Inode>)
    requires k !in es && next !in ns && ns'.Keys == ns.Keys + {next} && EntriesOk(ns, es)
    ensures Total(ns', es[k := next], next + 1) == Total(ns, es, next) + 1
  {
    var es' := es[k := next];
    NewUnnamed(ns, es, next);
    AddNaming(es, k, next, next);
    forall i: nat | i < next ensures Naming(es', i) == Naming(es, i) {
      AddNaming(es, k, next, i);
    }
    TotalFrame(ns, es, ns', es', next);
  }

  // ---------------------------------------------------------------- link_inode

  function Linked(ns: map<nat, Inode>, i: nat, p: nat): map<nat, Inode>
    requires i in ns && p in ns
  {
    var y := ns[p];
    var ns' := ns[p := Inode(y.dir, y.parent, y.links, y.size + DIRENT_SIZE, y.handles)];
    var x := ns'[i];
    ns'[i := Inode(x.dir, x.parent, x.links + 1, x.size, x.handles)]
  }

  lemma LinkIs(ns: map<nat, Inode>, k: Key, i: nat, j: nat, a: set<Key>, b: set<Key>, n: nat, a2: set<Key>,
               b2: set<Key>)
    requires Live(ns, k.0) && i in ns && !ns[i].dir && j in ns && InodeIs(ns[j], j, a, b, n)
    requires a2 == (if i == j then a + {k} else a) && |a2| == |a| + if i == j then 1 else 0
    requires b2 == (if k.0 == j then b + {k} else b) && |b2| == |b| + if k.0 == j then 1 else 0
    ensures InodeIs(Linked(ns, i, k.0)[j], j, a2, b2, n)
  {}

  lemma LinkInode(ns: map<nat, Inode>, es: map<Key, nat>, i: nat, p: nat, name: string, j: nat)
    requires EntriesOk(ns, es) && Live(ns, p) && i in ns && !ns[i].dir && (p, name) !in es && InodesOk(ns, es)
              && j in ns
    ensures InodeOk(Linked(ns, i, p), es[(p, name) := i], j)
  {
    hide Naming, Subdirs, Listing, InodeIs;
    var k, ns', es' := (p, name), Linked(ns, i, p), es[(p, name) := i];
    AddNaming(es, k, i, j);
    AddListing(es, k, i, j);
    SubdirsFrame(ns, ns', es, j);
    AddSubdirs(ns', es, k, i, j);
    assert InodeOk(ns, es, j);
    LinkIs(ns, k, i, j, Naming(es, j), Listing(es, j), |Subdirs(ns, es, j)|, Naming(es', j), Listing(es', j));
  }

  lemma LinkInodes(ns: map<nat, Inode>, es: map<Key, nat>, i: nat, p: nat, name: string)
    requires EntriesOk(ns, es) && Live(ns, p) && i in ns && !ns[i].dir && (p, name) !in es && InodesOk(ns, es)
    ensures InodesOk(Linked(ns, i, p), es[(p, name) := i])
  {
    hide InodeOk, EntriesOk;
    forall j | j in Linked(ns, i, p) ensures InodeOk(Linked(ns, i, p), es[(p, name) := i], j) {
      LinkInode(ns, es, i, p, name, j);
    }
  }

  lemma LinkEntries(ns: map<nat, Inode>, es: map<Key, nat>, i: nat, p: nat, name: string)
    requires EntriesOk(ns, es) && i in ns && p in ns && !ns[i].dir && (p, name) !in es
    ensures EntriesOk(Linked(ns, i, p), es[(p, name) := i]) <==> Live(ns, p)
  {
    var es' := es[(p, name) := i];
    assert (p, name) in es';
  }

  lemma LinkTree(ns: map<nat, Inode>, i: nat, p: nat)
    requires TreeOk(ns) && i in ns && !ns[i].dir && p in ns
    ensures TreeOk(Linked(ns, i, p))
  {
    TreeFrame(ns, Linked(ns, i, p));
  }

  lemma LinkedKeys(ns: map<nat, Inode>, i: nat, p: nat)
    requires i in ns && p in ns
    ensures Linked(ns, i, p).Keys == ns.Keys
  {}

  lemma HasName(ns: map<nat, Inode>, es: map<Key, nat>, i: nat)
    requires InodesOk(ns, es) && i in ns && !ns[i].dir
    ensures |Naming(es, i)| == ns[i].links
  {
    hide Naming, Listing, Subdirs;
    assert InodeOk(ns, es, i);
  }

  /** A further name for a file keeps the namespace exactly when the directory is live. */
  lemma LinkKeeps(ns: map<nat, Inode>, es: map<Key, nat>, next: nat, count: nat, i: nat, p: nat, name: string)
    requires NamespaceOk(ns, es, next, count) && i in ns && !ns[i].dir && ns[i].links > 0 && p in ns && (p, name) !in es
    ensures NamespaceOk(Linked(ns, i, p), es[(p, name) := i], next, count + 1) <==> Live(ns, p)
  {
    hide EntriesOk, TreeOk, InodesOk, Total, Linked;
    LinkEntries(ns, es, i, p, name);
    LinkedKeys(ns, i, p);
    if Live(ns, p) {
      LinkInodes(ns, es, i, p, name);
      LinkTree(ns, i, p);
      HasName(ns, es, i);
      TotalName(ns, es, Linked(ns, i, p), next, (p, name), i);
    }
  }
}
