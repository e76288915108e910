/** Every run of fs/record_lock.c against the simplest description of POSIX advisory locks: the last
    accepted request that covers a byte decides what its owner holds there. */
module LockRuns {
  import opened LockTree
  import opened LockSearch
  import opened Wrappers
  import opened LockRanges

  /** One operation on an inode, by its effect: a refused `set` changes nothing. */
  datatype Event =
    | Refused
    | Accepted(owner: Owner, req: Request, start: int, end: int)
    | Released(owner: Owner)

  ghost predicate Step(S: set<Lock>, ev: Event, S': set<Lock>) {
    match ev
    case Refused => S' == S
    case Accepted(owner, req, start, end) =>
      exists e :: EditOk(S, e, start, end) && e.owner == owner && e.req == req && S' == Committed(S, e)
    case Released(owner) => S' == set y | y in S && y.owner != owner
  }

  ghost predicate IsRun(states: seq<set<Lock>>, evs: seq<Event>) {
    && |states| == |evs| + 1 && states[0] == {}
    && forall i :: 0 <= i < |evs| ==> Step(states[i], evs[i], states[i + 1])
  }

  /** The map (owner, byte) -> type that the accepted requests describe. */
  function Replay(evs: seq<Event>, o: Owner, b: int): Option<LockType> {
    if evs == [] then None
    else
      var n := |evs| - 1;
      match evs[n]
      case Refused => Replay(evs[..n], o, b)
      case Accepted(owner, req, start, end) =>
        if owner == o && start <= b <= end
        then (match req case Unlock => None case Acquire(t) => Some(t))
        else Replay(evs[..n], o, b)
      case Released(owner) => if owner == o then None else Replay(evs[..n], o, b)
  }

  lemma StepKeepsLocks(S: set<Lock>, ev: Event, S': set<Lock>)
    requires LocksOk(S) && Step(S, ev, S')
    ensures LocksOk(S')
  {
    match ev {
      case Refused =>
      case Accepted(owner, req, start, end) =>
        var e :| EditOk(S, e, start, end) && e.owner == owner && e.req == req && S' == Committed(S, e);
        CommittedOk(S, e, start, end);
      case Released(owner) =>
    }
  }

  lemma StepIsReplayed(S: set<Lock>, evs: seq<Event>, ev: Event, S': set<Lock>, o: Owner, b: int, t: LockType)
    requires LocksOk(S) && Step(S, ev, S')
    requires HoldsType(S, o, b, t) <==> Replay(evs, o, b) == Some(t)
    ensures HoldsType(S', o, b, t) <==> Replay(evs + [ev], o, b) == Some(t)
  {
    hide Committed, EditOk, LocksOk;
    assert (evs + [ev])[..|evs|] == evs;
    match ev {
      case Refused =>
      case Accepted(owner, req, start, end) =>
        var e :| EditOk(S, e, start, end) && e.owner == owner && e.req == req && S' == Committed(S, e);
        SetIsExact(S, e, start, end, o, b, t);
      case Released(owner) =>
    }
  }

  /** In every run from the empty inode the lock table is the replayed map, each owner's locks are
      disjoint and merged, and owners that share a byte both hold it for reading. */
  lemma {:induction false} RunIsReplay(states: seq<set<Lock>>, evs: seq<Event>)
    requires IsRun(states, evs)
    ensures LocksOk(states[|evs|])
    ensures forall o, b, t :: HoldsType(states[|evs|], o, b, t) <==> Replay(evs, o, b) == Some(t)
    decreases |evs|
  {
    if evs != [] {
      var n := |evs| - 1;
      RunIsReplay(states[..n + 1], evs[..n]);
      assert evs == evs[..n] + [evs[n]];
      StepKeepsLocks(states[n], evs[n], states[n + 1]);
      forall o, b, t ensures HoldsType(states[n + 1], o, b, t) <==> Replay(evs, o, b) == Some(t) {
        StepIsReplayed(states[n], evs[..n], evs[n], states[n + 1], o, b, t);
      }
    }
  }

  /** Safety of whole runs, on the replayed map: no byte is write-locked by one owner and locked by another. */
  lemma RunIsSafe(states: seq<set<Lock>>, evs: seq<Event>, o1: Owner, o2: Owner, b: int)
    requires IsRun(states, evs) && o1 != o2
    requires Replay(evs, o1, b).Some? && Replay(evs, o2, b).Some?
    ensures Replay(evs, o1, b) == Some(ReadLock) && Replay(evs, o2, b) == Some(ReadLock)
  {
    RunIsReplay(states, evs);
    var S := states[|evs|];
    var t1, t2 := Replay(evs, o1, b).value, Replay(evs, o2, b).value;
    assert HoldsType(S, o1, b, t1) && HoldsType(S, o2, b, t2);
  }
}
