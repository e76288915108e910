/** Every run of the namespace operations of fs/tmpfs.c from the empty mount: how long it stays sound, and what breaks
    it. */
module TmpfsRuns {
  import opened TmpfsTree
  import opened TmpfsRemove
  import opened TmpfsRename
  import opened TmpfsUnmount

  datatype State = State(inodes: map<nat, Inode>, entries: map<Key, nat>, next: nat, count: nat)

  datatype Event =
    | Create(p: nat, name: string, dir: bool)
    | Link(i: nat, p: nat, name: string)
    | Remove(k: Key)
    | Rename(k1: Key, k2: Key)
    | Open(i: nat)
    | Close(i: nat)

  /** What the code tests before it changes anything. `link_inode` asks nothing of its target but that it exists, and
      neither does the VFS; for rename the VFS has tested that the new directory is linked. */
  ghost predicate Enabled(s: State, ev: Event) {
    match ev
    case Create(p, name, _) => Live(s.inodes, p) && (p, name) !in s.entries
    case Link(i, p, name) =>
      i in s.inodes && p in s.inodes && !s.inodes[i].dir && s.inodes[i].links > 0 && (p, name) !in s.entries
    case Remove(k) => Removable(s.inodes, s.entries, k) && s.inodes[k.0].links > 0
    case Rename(k1, k2) => MayRename(s.inodes, s.entries, k1, k2, false) && Live(s.inodes, k2.0)
    case Open(i) => i in s.inodes
    case Close(i) => i in s.inodes && s.inodes[i].handles > 0
  }

  /** Taking a name traps: the directory's size is too small, the inode has no link left, or its collection traps. */
  ghost predicate RemoveTraps(ns: map<nat, Inode>, es: map<Key, nat>, count: nat, k: Key)
    requires k in es && k.0 in ns && es[k] in ns
  {
    var i := es[k];
    || ns[k.0].size < 3 * DIRENT_SIZE || ns[i].links == 0 || (!ns[i].dir && ns[i].links > 1 && count == 0)
    || CollectTraps(Unlinked(ns, i, k.0), es - {k}, count, i)
  }

  /** The step runs into a trap of the source. */
  ghost predicate Traps(s: State, ev: Event)
    requires Enabled(s, ev)
  {
    match ev
    case Remove(k) => RemoveTraps(s.inodes, s.entries, s.count, k)
    case Rename(k1, k2) =>
      || (k2 in s.entries && RemoveTraps(s.inodes, s.entries, s.count, k2))
      || !MoveFits(Without(s.inodes, s.entries, k2), k1.0)
    case Close(i) => CollectTraps(Closed(s.inodes, i), s.entries, s.count, i)
    case _ => false
  }

  /** The directory that loses the name is there and large enough. */
  predicate MoveFits(ns: map<nat, Inode>, op: nat) {
    op in ns && ns[op].size >= 3 * DIRENT_SIZE
  }

  /** A step that traps is the end: nothing changes any more. */
  ghost function Step(s: State, ev: Event): State {
    if !Enabled(s, ev) || Traps(s, ev) then s else
    match ev
    case Create(p, name, dir) =>
      State(Created(s.inodes, p, s.next, dir), s.entries[(p, name) := s.next], s.next + 1, s.count + 1)
    case Link(i, p, name) => State(Linked(s.inodes, i, p), s.entries[(p, name) := i], s.next, s.count + 1)
    case Remove(k) =>
      var i := s.entries[k];
      State(Removed(s.inodes, i, k.0), s.entries - {k}, s.next, Less(s.count, Released(s.inodes, i, k.0)))
    case Rename(k1, k2) =>
      State(Renamed(s.inodes, s.entries, k1, k2), (s.entries - {k1})[k2 := s.entries[k1]], s.next,
            Less(s.count, Freed(s.inodes, s.entries, k2)))
    case Open(i) => s.(inodes := Opened(s.inodes, i))
    case Close(i) => s.(inodes := Collected(Closed(s.inodes, i), i), count := Less(s.count, LastHandle(s.inodes, i)))
  }

  function Less(a: nat, b: nat): nat { if a >= b then a - b else 0 }

  ghost function Run(evs: seq<Event>): State {
    if evs == [] then State(RootOnly(), map[], 2, 1) else Step(Run(evs[..|evs| - 1]), evs[|evs| - 1])
  }

  ghost predicate Ok(s: State) {
    s.next > ROOT && NamespaceOk(s.inodes, s.entries, s.next, s.count)
  }

  /** The step does not link a file into something that is no live directory. */
  ghost predicate Sound(s: State, ev: Event) {
    ev.Link? && Enabled(s, ev) ==> Live(s.inodes, ev.p)
  }

  /** Every link of the run went into a directory that was live then. */
  ghost predicate AllSound(evs: seq<Event>) {
    forall n :: 0 <= n < |evs| ==> Sound(Run(evs[..n]), evs[n])
  }

  /** A rename over an existing name is a removal and a move. */
  lemma RenameKeeps(ns: map<nat, Inode>, es: map<Key, nat>, next: nat, count: nat, k1: Key, k2: Key)
    requires NamespaceOk(ns, es, next, count) && MayRename(ns, es, k1, k2, false) && Live(ns, k2.0)
    ensures count >= Freed(ns, es, k2)
    ensures NamespaceOk(Renamed(ns, es, k1, k2), (es - {k1})[k2 := es[k1]], next, count - Freed(ns, es, k2))
  {
    hide EntriesOk, InodesOk, TreeOk, Total, Listing, Naming, Numbered, Within, Meets, Falls, Climbs, Removed,
         Moved, Released;
    LiveClimbs(ns, es[k1], k2.0);
    if k2 in es {
      RemoveKeeps(ns, es, next, count, k2);
      OtherNamed(ns, es, k2, k1);
      OtherDirectory(ns, es, k2, k1);
      if ns[es[k1]].dir {
        ReplacedTree(ns, es, k1, k2);
      }
      MoveForward(Removed(ns, es[k2], k2.0), es - {k2}, next, count - Released(ns, es[k2], k2.0), k1, k2);
      MovedNames(es, k1, k2);
    } else {
      MoveForward(ns, es, next, count, k1, k2);
    }
  }

  lemma RemoveNeverTraps(ns: map<nat, Inode>, es: map<Key, nat>, next: nat, count: nat, k: Key)
    requires NamespaceOk(ns, es, next, count) && Removable(ns, es, k)
    ensures !RemoveTraps(ns, es, count, k)
  {
    hide InodesOk, TreeOk, Total, Listing, Naming, EntriesOk;
    NamesOf(ns, es, k);
    NotListed(ns, es, k);
    TotalPositive(ns, es, next, es[k]);
  }

  /** In a sound state no step traps. */
  lemma NeverTraps(s: State, ev: Event)
    requires Ok(s) && Enabled(s, ev)
    ensures !Traps(s, ev)
  {
    hide InodesOk, TreeOk, Total, Listing, Naming, EntriesOk, Removed, Released, NamespaceOk, RemoveTraps;
    NamespaceParts(s.inodes, s.entries, s.next, s.count);
    match ev
    case Remove(k) => RemoveNeverTraps(s.inodes, s.entries, s.next, s.count, k);
    case Rename(k1, k2) =>
      if k2 in s.entries {
        RemoveNeverTraps(s.inodes, s.entries, s.next, s.count, k2);
        RemoveKeeps(s.inodes, s.entries, s.next, s.count, k2);
        var ns, es := Removed(s.inodes, s.entries[k2], k2.0), s.entries - {k2};
        NamespaceParts(ns, es, s.next, s.count - Released(s.inodes, s.entries[k2], k2.0));
        NamesOf(ns, es, k1);
      } else {
        NamesOf(s.inodes, s.entries, k1);
      }
    case Close(i) =>
      DeadIsEmpty(s.inodes, s.entries, i);
      TotalPositive(s.inodes, s.entries, s.next, i);
    case _ =>
  }

  /** A sound state stays sound exactly when the step does not link into something that is no live directory. */
  lemma StepKeeps(s: State, ev: Event)
    requires Ok(s)
    ensures Ok(Step(s, ev)) <==> Sound(s, ev)
  {
    hide NamespaceOk, Created, Linked, Removed, Renamed, Released, Freed, Collected, Opened, Closed, LastHandle,
         MayRename, Listing, Traps;
    if Enabled(s, ev) {
      NeverTraps(s, ev);
      match ev
      case Create(p, name, dir) => CreateKeeps(s.inodes, s.entries, s.next, s.count, p, name, dir);
      case Link(i, p, name) => LinkKeeps(s.inodes, s.entries, s.next, s.count, i, p, name);
      case Remove(k) => RemoveKeeps(s.inodes, s.entries, s.next, s.count, k);
      case Rename(k1, k2) => RenameKeeps(s.inodes, s.entries, s.next, s.count, k1, k2);
      case Open(i) => OpenKeeps(s.inodes, s.entries, s.next, s.count, i);
      case Close(i) => CloseKeeps(s.inodes, s.entries, s.next, s.count, i);
    }
  }

  /** A run stays sound as long as every link goes into a live directory. */
  lemma {:induction false} RunKeeps(evs: seq<Event>)
    requires AllSound(evs)
    ensures Ok(Run(evs))
  {
    hide NamespaceOk, Step, Sound;
    if evs == [] {
      RootKeeps();
    } else {
      var short := evs[..|evs| - 1];
      forall n | 0 <= n < |short| ensures Sound(Run(short[..n]), short[n]) {
        assert short[..n] == evs[..n] && short[n] == evs[n];
      }
      RunKeeps(short);
      StepKeeps(Run(short), evs[|evs| - 1]);
    }
  }

  /** The first link into something that is no live directory makes the first state of a run that is not sound: all
      states of a run are sound if and only if every link went into a live directory. */
  lemma {:induction false} RunIsSound(evs: seq<Event>)
    ensures (forall n :: 0 <= n <= |evs| ==> Ok(Run(evs[..n]))) <==> AllSound(evs)
  {
    hide NamespaceOk, Step, Sound, Ok;
    if AllSound(evs) {
      forall n | 0 <= n <= |evs| ensures Ok(Run(evs[..n])) {
        forall m | 0 <= m < n ensures Sound(Run(evs[..n][..m]), evs[..n][m]) {
          assert evs[..n][..m] == evs[..m];
        }
        RunKeeps(evs[..n]);
      }
    }
    if forall n :: 0 <= n <= |evs| ==> Ok(Run(evs[..n])) {
      forall n | 0 <= n < |evs| ensures Sound(Run(evs[..n]), evs[n]) {
        assert evs[..n + 1] == evs[..n] + [evs[n]];
        RunStep(evs[..n], evs[n]);
        StepKeeps(Run(evs[..n]), evs[n]);
      }
    }
  }

  /** In every run that stays sound: a file has as many links as names, a directory with a name two and one for each
      subdirectory, its size tells its entries, and inode_count is the sum over inodes of max(1, names). */
  lemma AccountsAreRight(evs: seq<Event>, i: nat)
    requires AllSound(evs)
    ensures var s := Run(evs);
            && s.count == Total(s.inodes, s.entries, s.next)
            && (i in s.inodes && !s.inodes[i].dir ==> s.inodes[i].links == |Naming(s.entries, i)|)
            && (Live(s.inodes, i) ==> s.inodes[i].links == 2 + |Subdirs(s.inodes, s.entries, i)|
                                      && s.inodes[i].size == DIRENT_SIZE * (2 + |Listing(s.entries, i)|))
            && (i in s.inodes ==> s.inodes[i].links > 0 || (s.inodes[i].handles > 0 && Naming(s.entries, i) == {}))
  {
    hide Naming, Listing, Subdirs, Total, TreeOk, EntriesOk;
    var s := Run(evs);
    RunKeeps(evs);
    if i in s.inodes {
      assert InodeOk(s.inodes, s.entries, i);
      if s.inodes[i].links == 0 {
        NamedIsLinked(s.inodes, s.entries, i);
      }
    }
  }

  /** In every run that stays sound there is exactly one way up from a directory with a name, and it ends at
      the root. */
  lemma DirectoriesAreATree(evs: seq<Event>, i: nat) returns (up: seq<nat>)
    requires AllSound(evs) && Live(Run(evs).inodes, i)
    ensures PathOk(Run(evs).inodes, up) && up[0] == i
    ensures forall s :: PathOk(Run(evs).inodes, s) && s[0] == i ==> s == up
  {
    RunKeeps(evs);
    var ns := Run(evs).inodes;
    assert Rooted(ns, i);
    up :| PathOk(ns, up) && up[0] == i;
    forall s | PathOk(ns, s) && s[0] == i ensures s == up {
      PathUnique(ns, s, up);
    }
  }

  // ---------------------------------------------------------------- a target directory that is gone

  /** A directory that is opened and removed, and a file. */
  const REMOVED_TARGET: seq<Event> := [Create(1, "d", true), Open(2), Remove((1, "d")), Create(1, "f", false)]

  lemma RunStep(evs: seq<Event>, ev: Event)
    ensures Run(evs + [ev]) == Step(Run(evs), ev)
  {
    hide Step;
    assert (evs + [ev])[..|evs|] == evs;
  }

  lemma FirstSteps() returns (s: State)
    ensures s == Run([Create(1, "d", true), Open(2)])
    ensures s.inodes == map[1 := Inode(true, 1, 3, 60, 0), 2 := Inode(true, 1, 2, 40, 1)]
    ensures s.entries == map[(1, "d") := 2] && s.next == 3 && s.count == 2 && Ok(s)
  {
    hide NamespaceOk;
    RootKeeps();
    StepKeeps(Run([]), Create(1, "d", true));
    StepKeeps(Step(Run([]), Create(1, "d", true)), Open(2));
    RunStep([], Create(1, "d", true));
    RunStep([Create(1, "d", true)], Open(2));
    assert [] + [Create(1, "d", true)] == [Create(1, "d", true)];
    assert [Create(1, "d", true)] + [Open(2)] == [Create(1, "d", true), Open(2)];
    s := Run([Create(1, "d", true), Open(2)]);
  }

  /** The removed directory is still there, without links, as long as it is open. */
  lemma TargetIsGone() returns (s: State)
    ensures s == Run(REMOVED_TARGET)
    ensures s.inodes == map[1 := Inode(true, 1, 2, 60, 0), 2 := Inode(true, 1, 0, 40, 1), 3 := Inode(false, 1, 1, 0, 0)]
    ensures s.entries == map[(1, "f") := 3] && Ok(s)
  {
    hide NamespaceOk;
    var t := FirstSteps();
    assert Listing(t.entries, 2) == {};
    StepKeeps(t, Remove((1, "d")));
    StepKeeps(Step(t, Remove((1, "d"))), Create(1, "f", false));
    NeverTraps(t, Remove((1, "d")));
    var evs := [Create(1, "d", true), Open(2)];
    RunStep(evs, Remove((1, "d")));
    RunStep(evs + [Remove((1, "d"))], Create(1, "f", false));
    assert evs + [Remove((1, "d"))] + [Create(1, "f", false)] == REMOVED_TARGET;
    s := Run(REMOVED_TARGET);
  }

  /** From there, `link_inode` and `rename_inode` put a name into the removed directory and break the accounts. Link
      is let through, and the close that ends the directory then traps. */
  lemma RemovedTargetBreaks()
    ensures var s := Run(REMOVED_TARGET);
            && Ok(s) && 2 in s.inodes && !Live(s.inodes, 2)
            && 3 in s.inodes && (1, "f") in s.entries && s.entries[(1, "f")] == 3
            && Enabled(s, Link(3, 2, "x")) && !Sound(s, Link(3, 2, "x")) && !Ok(Step(s, Link(3, 2, "x")))
            && Enabled(Step(s, Link(3, 2, "x")), Close(2)) && Traps(Step(s, Link(3, 2, "x")), Close(2))
            && !NamespaceOk(Moved(s.inodes, 3, 1, 2), (s.entries - {(1, "f")})[(2, "x") := 3], s.next, s.count)
  {
    hide Run, Total, EntriesOk, InodesOk, TreeOk, Moved;
    var s := TargetIsGone();
    StepKeeps(s, Link(3, 2, "x"));
    LinkThenClose(s, 3, 2, "x");
    MoveKeeps(s.inodes, s.entries, s.next, s.count, (1, "f"), (2, "x"));
  }

  /** After a link, the next close of the target traps if and only if the target has no links and one handle. */
  lemma LinkThenClose(s: State, i: nat, p: nat, name: string)
    requires Ok(s) && Enabled(s, Link(i, p, name)) && s.inodes[p].handles > 0
    ensures var t := Step(s, Link(i, p, name));
            Enabled(t, Close(p)) && (Traps(t, Close(p)) <==> s.inodes[p].links == 0 && s.inodes[p].handles == 1)
  {
    hide NamespaceOk, Listing;
    LinkLists(s.entries, i, p, name);
  }

  lemma LinkLists(es: map<Key, nat>, i: nat, p: nat, name: string)
    ensures Listing(es[(p, name) := i], p) != {}
  {
    assert (p, name) in Listing(es[(p, name) := i], p);
  }

  ghost function CloseTimes(s: State, p: nat, n: nat): State
    decreases n
  {
    if n == 0 then s else CloseTimes(Step(s, Close(p)), p, n - 1)
  }

  /** However many handles a removed directory with a name in it has: when all but one are closed, the last close
      traps. */
  lemma {:induction false} LastCloseTraps(s: State, p: nat)
    requires p in s.inodes && s.inodes[p].links == 0 && s.inodes[p].handles > 0 && Listing(s.entries, p) != {}
    ensures var t := CloseTimes(s, p, s.inodes[p].handles - 1); Enabled(t, Close(p)) && Traps(t, Close(p))
    decreases s.inodes[p].handles
  {
    hide Listing;
    if s.inodes[p].handles > 1 {
      LastCloseTraps(Step(s, Close(p)), p);
    }
  }
}
