/** The mounted file system of fs/tmpfs.c as an object: every namespace operation keeps `TmpfsTree.NamespaceOk`. */
module Tmpfs {
  import opened Wrappers
  import opened TmpfsTree
  import opened TmpfsRemove
  import opened TmpfsRename
  import opened TmpfsUnmount

  const MAX_LINKS: nat := 0xFFFF_FFFF
  const MAX_NUMBER: nat := 0xFFFF_FFFF_FFFF_FFFF

  datatype Status = Ok | ReadOnly | NoSpace | NoEntry | NotDirectory | IsDirectory | Exists | NotEmpty
                  | NotPermitted | TooManyLinks | Invalid | NoMemory | Overflow | Busy | Trapped

  /** The inode has a name, and the target is there. */
  predicate Named(ns: map<nat, Inode>, i: nat, p: nat) {
    i in ns && p in ns && ns[i].links > 0
  }

  /** A file that may get a further name. */
  predicate Linkable(ns: map<nat, Inode>, i: nat, p: nat) {
    Named(ns, i, p) && !ns[i].dir && ns[i].links != MAX_LINKS
  }

  class TmpMount {
    var inodes: map<nat, Inode>
    var entries: map<Key, nat>
    var inodeCount: nat
    var nextInode: nat
    const inodeLimit: nat
    const readOnly: bool

    /** The namespace is sound and no more inodes and names are in use than the mount allows. */
    ghost predicate Valid()
      reads this
    {
      && nextInode > ROOT && NamespaceOk(inodes, entries, nextInode, inodeCount)
      && (inodeLimit == 0 || inodeCount <= inodeLimit)
    }

    constructor (limit: nat, ro: bool)
      ensures Valid() && inodeLimit == limit && readOnly == ro && entries == map[]
      ensures inodes.Keys == {ROOT} && inodeCount == 1
    {
      inodeLimit, readOnly := limit, ro;
      inodes, entries, inodeCount, nextInode := RootOnly(), map[], 1, 2;
      RootKeeps();
    }

    predicate Full()
      reads this
    {
      inodeLimit > 0 && inodeCount >= inodeLimit
    }

    // -------------------------------------------------------------- entries and inodes

    method PublishEntry(k: Key, i: nat)
      requires k !in entries && k.0 in inodes
      modifies `inodes, `entries
      ensures entries == old(entries)[k := i]
      ensures k.0 in inodes && inodes == old(inodes)[k.0 := inodes[k.0]]
      ensures inodes[k.0] == old(inodes[k.0]).(size := old(inodes[k.0]).size + DIRENT_SIZE)
    {
      var p := inodes[k.0];
      inodes := inodes[k.0 := p.(size := p.size + DIRENT_SIZE)];
      entries := entries[k := i];
    }

    method RemoveEntry(k: Key)
      requires k in entries && k.0 in inodes && inodes[k.0].size >= 3 * DIRENT_SIZE
      modifies `inodes, `entries
      ensures entries == old(entries) - {k}
      ensures k.0 in inodes && inodes == old(inodes)[k.0 := inodes[k.0]]
      ensures inodes[k.0] == old(inodes[k.0]).(size := old(inodes[k.0]).size - DIRENT_SIZE)
    {
      var p := inodes[k.0];
      inodes := inodes[k.0 := p.(size := p.size - DIRENT_SIZE)];
      entries := entries - {k};
    }

    /** Frees an inode that nothing refers to; the source traps when names are still listed under it. */
    method CollectInode(i: nat) returns (trapped: bool)
      requires i in inodes
      modifies `inodes, `inodeCount
      ensures trapped <==> CollectTraps(old(inodes), entries, old(inodeCount), i)
      ensures trapped ==> inodes == old(inodes) && inodeCount == old(inodeCount)
      ensures !trapped ==> inodes == Collected(old(inodes), i)
      ensures !trapped ==> inodeCount == old(inodeCount) - if Unused(old(inodes), i) then 1 else 0
    {
      if inodes[i].links > 0 || inodes[i].handles > 0 { return false; }
      if inodeCount == 0 || Listing(entries, i) != {} { return true; }
      inodes := inodes - {i};
      inodeCount := inodeCount - 1;
      return false;
    }

    /** An inode loses one name, a directory all its links. */
    method UnlinkInode(i: nat)
      requires i in inodes && inodes[i].links > 0 && Listing(entries, i) == {} && inodeCount > 0
      modifies `inodes, `inodeCount
      ensures inodes
                == Collected(old(inodes)[i := old(inodes[i]).(links := if old(inodes[i]).dir then 0
                    else old(inodes[i]).links - 1)], i)
      ensures inodeCount == old(inodeCount) - (if !old(inodes[i]).dir && old(inodes[i]).links > 1 then 1 else 0)
                            - if (old(inodes[i]).dir || old(inodes[i]).links == 1)
                                && old(inodes[i]).handles == 0 then 1 else 0
    {
      var x := inodes[i];
      if x.dir {
        inodes := inodes[i := x.(links := 0)];
      } else {
        if x.links > 1 { inodeCount := inodeCount - 1; }
        inodes := inodes[i := x.(links := x.links - 1)];
      }
      var trapped := CollectInode(i);
    }

    /** A name goes with all that depends on it. */
    method DropName(k: Key)
      requires Valid() && Removable(inodes, entries, k)
      modifies `inodes, `entries, `inodeCount
      ensures Valid() && entries == old(entries) - {k}
      ensures inodes == Removed(old(inodes), old(entries[k]), k.0)
      ensures inodeCount == old(inodeCount) - Released(old(inodes), old(entries[k]), k.0)
    {
      hide EntriesOk, InodesOk, TreeOk, Total, Listing, Naming, Numbered;
      var i, p := entries[k], k.0;
      ghost var ns, es := inodes, entries;
      NamesOf(ns, es, k);
      NotItself(ns, es, k);
      SubdirLinks(ns, es, k);
      NotListed(ns, es, k);
      RemoveKeeps(ns, es, nextInode, inodeCount, k);
      TotalPositive(ns, es, nextInode, i);
      RemoveEntry(k);
      if inodes[i].dir {
        inodes := inodes[p := inodes[p].(links := inodes[p].links - 1)];
      }
      UnlinkInode(i);
      assert inodes == Removed(ns, i, p);
    }

    // -------------------------------------------------------------- operations

    /** `create_child`: memory says whether the allocations succeed. */
    method Create(p: nat, name: string, dir: bool, memory: bool) returns (status: Status)
      requires Valid()
      modifies `inodes, `entries, `inodeCount, `nextInode
      ensures Valid()
      ensures status == Ok <==>
                !readOnly && !old(Full()) && Live(old(inodes), p) && (p, name) !in old(entries) && memory
                    && old(nextInode) != MAX_NUMBER
      ensures status == ReadOnly <==> readOnly
      ensures status == NoSpace <==> !readOnly && old(Full())
      ensures status == NoEntry <==> !readOnly && !old(Full()) && (p !in old(inodes) || old(inodes[p]).links == 0)
      ensures status == NotDirectory <==>
                !readOnly && !old(Full()) && p in old(inodes) && old(inodes[p]).links > 0 && !old(inodes[p]).dir
      ensures status == Exists <==> !readOnly && !old(Full()) && (p, name) in old(entries)
      ensures status == NoMemory <==>
                !readOnly && !old(Full()) && Live(old(inodes), p) && (p, name) !in old(entries) && !memory
      ensures status == Overflow <==>
                !readOnly && !old(Full()) && Live(old(inodes), p) && (p, name) !in old(entries) && memory
                    && old(nextInode) == MAX_NUMBER
      ensures status != Ok ==>
                inodes == old(inodes) && entries == old(entries) && inodeCount == old(inodeCount)
                    && nextInode == old(nextInode)
      ensures status == Ok ==> old(nextInode) !in old(inodes) && entries == old(entries)[(p, name) := old(nextInode)]
      ensures status == Ok ==> inodes == Created(old(inodes), p, old(nextInode), dir)
      ensures status == Ok ==> inodeCount == old(inodeCount) + 1 && nextInode == old(nextInode) + 1
    {
      hide InodesOk, TreeOk, Total;
      if readOnly { return ReadOnly; }
      if Full() { return NoSpace; }
      if p !in inodes || inodes[p].links == 0 { return NoEntry; }
      if !inodes[p].dir { return NotDirectory; }
      if (p, name) in entries { return Exists; }
      if !memory { return NoMemory; }
      if nextInode == MAX_NUMBER { return Overflow; }
      CreateKeeps(inodes, entries, nextInode, inodeCount, p, name, dir);
      FreshNumber(inodes, nextInode);
      ghost var ns := inodes;
      var c := nextInode;
      nextInode := nextInode + 1;
      inodes := inodes[c := Inode(dir, p, if dir then 2 else 1, if dir then 2 * DIRENT_SIZE else 0, 0)];
      inodeCount := inodeCount + 1;
      PublishEntry((p, name), c);
      if dir {
        inodes := inodes[p := inodes[p].(links := inodes[p].links + 1)];
      }
      assert inodes == Created(ns, p, c, dir);
      status := Ok;
    }

    method Open(i: nat, memory: bool) returns (status: Status)
      requires Valid()
      modifies `inodes
      ensures Valid() && (status == Ok <==> i in old(inodes) && memory) && (status == NoEntry <==> i !in old(inodes))
      ensures inodes == if status == Ok then Opened(old(inodes), i) else old(inodes)
    {
      hide EntriesOk, InodesOk, TreeOk, Total;
      if i !in inodes { return NoEntry; }
      if !memory { return NoMemory; }
      OpenKeeps(inodes, entries, nextInode, inodeCount, i);
      inodes := inodes[i := inodes[i].(handles := inodes[i].handles + 1)];
      status := Ok;
    }

    /** `close_node`: the caller holds one of the handles. In a sound namespace the traps cannot fire. */
    method Close(i: nat) returns (trapped: bool)
      requires i in inodes && inodes[i].handles > 0
      modifies `inodes, `inodeCount
      ensures trapped <==> CollectTraps(Closed(old(inodes), i), entries, old(inodeCount), i)
      ensures old(Valid()) ==> Valid() && !trapped
      ensures !trapped ==> inodes == Collected(Closed(old(inodes), i), i)
      ensures !trapped ==> inodeCount == old(inodeCount) - LastHandle(old(inodes), i)
      ensures old(Valid()) ==> (i !in inodes <==>
                Naming(entries, i) == {} && i != ROOT && old(inodes[i]).handles == 1 && old(inodes[i]).links == 0)
    {
      hide EntriesOk, InodesOk, TreeOk, Total, Naming, Listing;
      if Valid() {
        CloseKeeps(inodes, entries, nextInode, inodeCount, i);
        if inodes[i].links == 0 {
          NamedIsLinked(inodes, entries, i);
        }
        DeadIsEmpty(inodes, entries, i);
        TotalPositive(inodes, entries, nextInode, i);
      }
      inodes := inodes[i := inodes[i].(handles := inodes[i].handles - 1)];
      trapped := CollectInode(i);
    }

    /** `create`: a file whose handle cannot be made is taken back; only its number stays used. */
    method CreateFile(p: nat, name: string, memory: bool, handle: bool) returns (status: Status)
      requires Valid()
      modifies `inodes, `entries, `inodeCount, `nextInode
      ensures Valid()
      ensures status == Ok <==>
                !readOnly && !old(Full()) && Live(old(inodes), p) && (p, name) !in old(entries) && memory && handle
                                && old(nextInode) != MAX_NUMBER
      ensures status != Ok ==> inodes == old(inodes) && entries == old(entries) && inodeCount == old(inodeCount)
      ensures status == Ok ==>
                p in old(inodes) && inodes == Opened(Created(old(inodes), p, old(nextInode), false), old(nextInode))
      ensures status == Ok ==> entries == old(entries)[(p, name) := old(nextInode)] && inodeCount == old(inodeCount) + 1
    {
      hide EntriesOk, InodesOk, TreeOk, Total;
      ghost var ns, es, next := inodes, entries, nextInode;
      var c := nextInode;
      status := Create(p, name, false, memory);
      if status != Ok { return; }
      status := Open(c, handle);
      if status != Ok {
        NewUnlisted(ns, es, c, (p, name));
        SkipNumber(ns, es, next, old(inodeCount));
        NamesOf(inodes, entries, (p, name));
        RemoveEntry((p, name));
        inodes := inodes[c := inodes[c].(links := 0)];
        var trapped := CollectInode(c);
        assert inodes == ns;
        assert entries == es;
      }
    }

    /** `remove_path`: unlink for files, rmdir for directories. */
    method Remove(p: nat, name: string, directory: bool) returns (status: Status)
      requires Valid()
      modifies `inodes, `entries, `inodeCount
      ensures Valid()
      ensures status == Ok <==>
                Removable(old(inodes), old(entries), (p, name)) && directory == old(inodes)[old(entries)[(p, name)]].dir
      ensures status == NoEntry <==> (p, name) !in old(entries)
      ensures status == NotDirectory <==>
                (p, name) in old(entries) && directory && !old(inodes)[old(entries)[(p, name)]].dir
      ensures status == IsDirectory <==>
                (p, name) in old(entries) && !directory && old(inodes)[old(entries)[(p, name)]].dir
      ensures status == NotEmpty <==>
                && (p, name) in old(entries) && directory && old(inodes)[old(entries)[(p, name)]].dir
                && Listing(old(entries), old(entries)[(p, name)]) != {}
      ensures status != Ok ==> inodes == old(inodes) && entries == old(entries) && inodeCount == old(inodeCount)
      ensures status == Ok ==>
                entries == old(entries) - {(p, name)} && inodes == Removed(old(inodes), old(entries)[(p, name)], p)
      ensures status == Ok ==> inodeCount == old(inodeCount) - Released(old(inodes), old(entries)[(p, name)], p)
    {
      hide InodesOk, TreeOk, Total;
      if p !in inodes || inodes[p].links == 0 { return NoEntry; }
      if (p, name) !in entries { return NoEntry; }
      var i := entries[(p, name)];
      if directory != inodes[i].dir { return if directory then NotDirectory else IsDirectory; }
      if inodes[i].dir && Listing(entries, i) != {} { return NotEmpty; }
      DropName((p, name));
      status := Ok;
    }

    /** `link_inode`: keeps the namespace exactly when the directory is live, which the caller is to see to. */
    method Link(i: nat, p: nat, name: string, memory: bool) returns (status: Status)
      requires Valid()
      modifies `inodes, `entries, `inodeCount
      ensures Valid() <==> status != Ok || Live(old(inodes), p)
      ensures status == NoEntry <==> i !in old(inodes) || p !in old(inodes) || old(inodes[i]).links == 0
      ensures status == NoEntry && i in old(inodes) && p in old(inodes) ==> Naming(old(entries), i) == {}
      ensures status == NotPermitted <==> Named(old(inodes), i, p) && old(inodes[i]).dir
      ensures status == TooManyLinks <==>
                Named(old(inodes), i, p) && !old(inodes[i]).dir && old(inodes[i]).links == MAX_LINKS
      ensures status == NoSpace <==> Linkable(old(inodes), i, p) && old(Full())
      ensures status == Exists <==> Linkable(old(inodes), i, p) && !old(Full()) && (p, name) in old(entries)
      ensures status == NoMemory <==>
                Linkable(old(inodes), i, p) && !old(Full()) && (p, name) !in old(entries) && !memory
      ensures status == Ok <==> Linkable(old(inodes), i, p) && !old(Full()) && (p, name) !in old(entries) && memory
      ensures status != Ok ==> inodes == old(inodes) && entries == old(entries) && inodeCount == old(inodeCount)
      ensures status == Ok ==>
                entries == old(entries)[(p, name) := i] && inodes == Linked(old(inodes), i, p)
                    && inodeCount == old(inodeCount) + 1
    {
      hide EntriesOk, InodesOk, TreeOk, Total, Naming;
      if i !in inodes || p !in inodes { return NoEntry; }
      if inodes[i].links == 0 {
        NamedIsLinked(inodes, entries, i);
        return NoEntry;
      }
      if inodes[i].dir { return NotPermitted; }
      if inodes[i].links == MAX_LINKS { return TooManyLinks; }
      if Full() { return NoSpace; }
      if (p, name) in entries { return Exists; }
      if !memory { return NoMemory; }
      LinkKeeps(inodes, entries, nextInode, inodeCount, i, p, name);
      ghost var ns := inodes;
      PublishEntry((p, name), i);
      inodeCount := inodeCount + 1;
      inodes := inodes[i := inodes[i].(links := inodes[i].links + 1)];
      assert inodes == Linked(ns, i, p);
      status := Ok;
    }

    // -------------------------------------------------------------- rename

    /** The walk up from d: does it meet i, or a missing parent, where the source traps? */
    method Above(i: nat, d: nat) returns (found: Option<bool>)
      requires Climbs(inodes, i, d)
      ensures found.None? <==> Falls(inodes, i, d)
      ensures found == Some(true) <==> Meets(inodes, i, d)
    {
      ghost var s :| Climb(inodes, i, d, s);
      ClimbIs(inodes, i, d, s);
      ghost var m := 0;
      var p := d;
      ClimbStep(inodes, i, d, s, 0);
      while p != i && p != ROOT
        invariant m < |s| && p == s[m] && p in inodes
        decreases |s| - m
      {
        ClimbStep(inodes, i, d, s, m);
        if inodes[p].parent !in inodes { return None; }
        p, m := inodes[p].parent, m + 1;
        ClimbStep(inodes, i, d, s, m);
      }
      ClimbStep(inodes, i, d, s, m);
      return Some(p == i);
    }

    /** The commit: the name moves, and a directory's new parent gains what the former loses. */
    method MoveName(k1: Key, k2: Key)
      requires Valid() && k1 in entries && k2 !in entries && entries[k1] in inodes && k2.0 in inodes
      modifies `inodes, `entries
      ensures Valid() <==>
                Live(old(inodes), k2.0)
                    && (old(inodes[entries[k1]]).dir ==> !Within(old(inodes), old(entries[k1]), k2.0))
      ensures entries == (old(entries) - {k1})[k2 := old(entries[k1])]
      ensures inodes == Moved(old(inodes), old(entries[k1]), k1.0, k2.0)
    {
      hide EntriesOk, InodesOk, TreeOk, Total, Listing, Naming, Numbered, Within, Moved, NamespaceOk;
      var i, op, np := entries[k1], k1.0, k2.0;
      NamespaceParts(inodes, entries, nextInode, inodeCount);
      NamesOf(inodes, entries, k1);
      SubdirLinks(inodes, entries, k1);
      MoveKeeps(inodes, entries, nextInode, inodeCount, k1, k2);
      MovedBySteps(inodes, i, op, np);
      RemoveEntry(k1);
      PublishEntry(k2, i);
      if inodes[i].dir && op != np {
        inodes := inodes[op := inodes[op].(links := inodes[op].links - 1)];
        inodes := inodes[np := inodes[np].(links := inodes[np].links + 1)];
        inodes := inodes[i := inodes[i].(parent := np)];
      }
    }

    /** `rename_inode`: keeps the namespace exactly when the new directory is live, which the caller is to see to. For
        a directory the walk up from the new one must come to an end: at the root, as it always does from a live one,
        at the directory itself, or at a missing parent. */
    method Rename(k1: Key, k2: Key, keep: bool, memory: bool)
        returns (status: Status, changed: bool, replaced: Option<nat>, lastLink: bool)
      requires Valid()
      requires k1 in entries && k2.0 in inodes && entries[k1] in inodes && inodes[entries[k1]].dir ==>
                 Climbs(inodes, entries[k1], k2.0)
      modifies `inodes, `entries, `inodeCount
      ensures Valid() <==> !changed || Live(old(inodes), k2.0)
      ensures status == NoEntry <==> k1 !in old(entries) || k2.0 !in old(inodes)
      ensures status == Exists <==> k1 in old(entries) && k2 in old(entries) && keep
      ensures status == NotDirectory <==>
                && Replaces(old(inodes), old(entries), k1, k2, keep)
                && old(inodes[entries[k1]]).dir && !old(inodes[entries[k2]]).dir
      ensures status == IsDirectory <==>
                && Replaces(old(inodes), old(entries), k1, k2, keep)
                && !old(inodes[entries[k1]]).dir && old(inodes[entries[k2]]).dir
      ensures status == NotEmpty <==>
                && Replaces(old(inodes), old(entries), k1, k2, keep) && old(inodes[entries[k1]]).dir
                && old(inodes[entries[k2]]).dir && Listing(old(entries), old(entries[k2])) != {}
      ensures status == Invalid <==>
                && Clear(old(inodes), old(entries), k1, k2, keep) && old(inodes[entries[k1]]).dir
                && Meets(old(inodes), old(entries[k1]), k2.0)
      ensures status == Trapped <==>
                && Clear(old(inodes), old(entries), k1, k2, keep) && old(inodes[entries[k1]]).dir
                && Falls(old(inodes), old(entries[k1]), k2.0)
      ensures status == NoMemory <==> MayRename(old(inodes), old(entries), k1, k2, keep) && !memory
      ensures !changed ==>
                inodes == old(inodes) && entries == old(entries) && inodeCount == old(inodeCount) && replaced == None
      ensures status == Ok && !changed <==>
                k1 in old(entries) && k2 in old(entries) && !keep && old(entries[k1]) == old(entries[k2])
      ensures changed <==> memory && MayRename(old(inodes), old(entries), k1, k2, keep)
      ensures changed ==> status == Ok && entries == (old(entries) - {k1})[k2 := old(entries[k1])]
      ensures changed ==> inodes == Renamed(old(inodes), old(entries), k1, k2)
      ensures changed ==> inodeCount == old(inodeCount) - Freed(old(inodes), old(entries), k2)
      ensures changed ==> replaced == if k2 in old(entries) then Some(old(entries[k2])) else None
      ensures changed && replaced.Some? ==> (lastLink <==> Naming(entries, replaced.value) == {})
    {
      hide InodesOk, TreeOk, Total, Listing, Naming, Numbered, Within, Meets, Falls, Climbs, PathOk;
      status, changed, replaced, lastLink := Ok, false, None, false;
      if k2.0 !in inodes || k1.0 !in inodes { return NoEntry, false, None, false; }
      if k1 !in entries { return NoEntry, false, None, false; }
      if k2 in entries && keep { return Exists, false, None, false; }
      if k2 in entries && entries[k2] == entries[k1] { return; }
      var i := entries[k1];
      if k2 in entries {
        var d := entries[k2];
        if inodes[i].dir != inodes[d].dir {
          return if inodes[i].dir then NotDirectory else IsDirectory, false, None, false;
        }
        if inodes[d].dir && Listing(entries, d) != {} { return NotEmpty, false, None, false; }
      }
      if inodes[i].dir {
        var above := Above(i, k2.0);
        if above.None? { return Trapped, false, None, false; }
        if above.value { return Invalid, false, None, false; }
      }
      if !memory { return NoMemory, false, None, false; }
      if Live(inodes, k2.0) {
        LiveClimbs(inodes, i, k2.0);
      }
      if k2 in entries {
        replaced := Some(entries[k2]);
        lastLink := inodes[i].dir || inodes[entries[k2]].links == 1;
        Replace(k1, k2);
      } else {
        MoveName(k1, k2);
      }
      changed := true;
    }

    /** The name in the way goes first. */
    method Replace(k1: Key, k2: Key)
      requires Valid() && k1 in entries && Removable(inodes, entries, k2) && entries[k1] != entries[k2]
                && entries[k1] in inodes
      requires inodes[entries[k1]].dir == inodes[entries[k2]].dir
      requires inodes[entries[k1]].dir ==> !Within(inodes, entries[k1], k2.0)
      modifies `inodes, `entries, `inodeCount
      ensures Valid() && entries == (old(entries) - {k1})[k2 := old(entries[k1])]
      ensures inodes == Renamed(old(inodes), old(entries), k1, k2)
      ensures inodeCount == old(inodeCount) - Freed(old(inodes), old(entries), k2)
      ensures Naming(entries, old(entries[k2])) == {} <==>
                old(inodes[entries[k2]]).dir || old(inodes[entries[k2]]).links == 1
    {
      hide EntriesOk, InodesOk, TreeOk, Total, Listing, Naming, Numbered, Within, Removed, Moved;
      ghost var ns, es, d := inodes, entries, entries[k2];
      NamesOf(ns, es, k2);
      NamesOf(ns, es, k1);
      LastName(ns, es, k2);
      OtherNamed(ns, es, k2, k1);
      if ns[es[k1]].dir {
        ReplacedTree(ns, es, k1, k2);
      }
      DropName(k2);
      OtherDirectory(ns, es, k2, k1);
      MoveName(k1, k2);
      MovedNames(es, k1, k2);
    }

    // -------------------------------------------------------------- unmount

    /** `unmount`: busy stands for open files, mounts on top and nodes in use. */
    method Unmount(busy: bool) returns (status: Status)
      requires Valid() && (!busy ==> forall i :: i in inodes ==> inodes[i].handles == 0)
      modifies this
      ensures status == (if busy then Busy else Ok)
      ensures busy ==> Valid() && inodes == old(inodes) && entries == old(entries) && inodeCount == old(inodeCount)
      ensures !busy ==> inodes == map[] && entries == map[] && inodeCount == 0
    {
      if busy { return Busy; }
      hide EntriesOk, InodesOk, TreeOk, Total, Naming;
      StartDraining(inodes, entries);
      var parent := 0;
      while parent < nextInode
        invariant nextInode == old(nextInode) && parent <= nextInode && Draining(inodes, entries)
                  && Numbered(inodes, nextInode)
        invariant inodeCount == Total(inodes, entries, nextInode)
        invariant forall k :: k in entries ==> k.0 >= parent
      {
        DrainDirectory(parent);
        parent := parent + 1;
      }
      EntriesBelow(inodes, entries, nextInode);
      TakeInodes();
      status := Ok;
    }

    /** Frees every inode once no names are left. */
    method TakeInodes()
      requires Numbered(inodes, nextInode) && entries == map[] && inodeCount == Total(inodes, map[], nextInode)
      requires forall i :: i in inodes ==> inodes[i].handles == 0
      modifies `inodes, `inodeCount
      ensures inodes == map[] && inodeCount == 0
    {
      hide Total, Numbered;
      while inodes != map[]
        invariant Numbered(inodes, nextInode) && inodeCount == Total(inodes, map[], nextInode)
        invariant forall i :: i in inodes ==> inodes[i].handles == 0
        decreases |inodes|
      {
        var i :| i in inodes;
        TakeInode(inodes, nextInode, i);
        FewerInodes(inodes, i);
        ghost var ns := inodes;
        inodes := inodes[i := inodes[i].(links := 0)];
        var trapped := CollectInode(i);
        assert inodes == ns - {i};
      }
      NoneLeft(map[], nextInode);
    }

    /** Takes every name in one directory. */
    method DrainDirectory(parent: nat)
      requires Draining(inodes, entries) && Numbered(inodes, nextInode)
                && inodeCount == Total(inodes, entries, nextInode)
      requires forall k :: k in entries ==> k.0 >= parent
      modifies `inodes, `entries, `inodeCount
      ensures Draining(inodes, entries) && Numbered(inodes, nextInode)
                && inodeCount == Total(inodes, entries, nextInode)
      ensures forall k :: k in entries ==> k.0 > parent
    {
      hide Draining, Numbered, Total, Naming;
      while exists k :: k in entries && k.0 == parent
        invariant Draining(inodes, entries) && Numbered(inodes, nextInode)
                  && inodeCount == Total(inodes, entries, nextInode)
        invariant forall k :: k in entries ==> k.0 >= parent
        decreases |entries|
      {
        var k :| k in entries && k.0 == parent;
        Fewer(entries, k);
        DrainName(k);
      }
    }

    method DrainName(k: Key)
      requires k in entries && Draining(inodes, entries) && Numbered(inodes, nextInode)
                && inodeCount == Total(inodes, entries, nextInode)
      modifies `inodes, `entries, `inodeCount
      ensures entries == old(entries) - {k}
      ensures Draining(inodes, entries) && Numbered(inodes, nextInode)
                && inodeCount == Total(inodes, entries, nextInode)
    {
      hide Draining, Numbered, Total;
      ghost var ns := inodes;
      DrainKeeps(inodes, entries, nextInode, k);
      var i := entries[k];
      if !inodes[i].dir && inodes[i].links > 1 {
        inodes := inodes[i := inodes[i].(links := inodes[i].links - 1)];
        inodeCount := inodeCount - 1;
      }
      RemoveEntry(k);
      assert inodes == Drained(ns, i, k.0);
    }
  }
}
