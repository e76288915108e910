/** What one committed edit of fs/record_lock.c does to the set of locks of an inode, and why it
    keeps the promises of POSIX advisory record locks: per owner a partial map from bytes to lock
    types, and no byte held by two owners unless both hold it for reading. */
module LockRanges {
  import opened LockTree
  import opened LockSearch

  ghost predicate DistinctAddresses(S: set<Lock>) {
    forall y, z :: y in S && z in S && y.addr == z.addr ==> y == z
  }

  /** Locks of different owners that share a byte are both read locks. */
  ghost predicate Compatible(S: set<Lock>) {
    forall y, z :: y in S && z in S && y.owner != z.owner && y.start <= z.end && z.start <= y.end
      ==> y.ltype.ReadLock? && z.ltype.ReadLock?
  }

  ghost predicate LocksOk(S: set<Lock>) {
    && (forall y :: y in S ==> WellFormed(y))
    && DistinctAddresses(S) && Disjoint(S) && Coalesced(S) && Compatible(S)
  }

  /** The owner holds byte b with type t; pid is the one recorded with it. */
  ghost predicate Holds(S: set<Lock>, owner: Owner, b: int, t: LockType, pid: int) {
    exists y :: y in S && y.owner == owner && y.start <= b <= y.end && y.ltype == t && y.pid == pid
  }

  ghost predicate HoldsType(S: set<Lock>, owner: Owner, b: int, t: LockType) {
    exists y :: y in S && y.owner == owner && y.start <= b <= y.end && y.ltype == t
  }

  /** The byte view is a map: a byte has one type and one pid per owner. */
  lemma HoldsIsFunctional(S: set<Lock>, owner: Owner, b: int, t: LockType, pid: int, t': LockType, pid': int)
    requires LocksOk(S) && Holds(S, owner, b, t, pid) && Holds(S, owner, b, t', pid')
    ensures t == t' && pid == pid'
  {}

  // ---------------------------------------------------------------- the committed set

  /** One edit after planning: the widened range, and the addresses of the two reserved nodes. */
  datatype Edit = Edit(state: nat, owner: Owner, req: Request, pid: int, plan: Plan, tailAddr: nat, newAddr: nat)

  ghost function Removed(S: set<Lock>, owner: Owner, p: Plan): set<Lock> {
    set y | y in S && Owned(y, owner, p.start, p.end)
  }

  function LeftPiece(y: Lock, p: Plan): Lock {
    y.(end := p.start - 1)
  }

  /** The part behind the edit; it needs a node of its own when the part before it kept the old one. */
  function RightPiece(y: Lock, p: Plan, tail: nat): Lock {
    (if y.start < p.start then y.(addr := tail) else y).(start := p.end + 1)
  }

  ghost function LeftPieces(R: set<Lock>, p: Plan): set<Lock> {
    set y | y in R && y.start < p.start :: LeftPiece(y, p)
  }

  ghost function RightPieces(R: set<Lock>, p: Plan, tail: nat): set<Lock> {
    set y | y in R && y.end > p.end :: RightPiece(y, p, tail)
  }

  ghost function NewLocks(e: Edit): set<Lock> {
    if e.req.Acquire? then {Lock(e.newAddr, e.state, e.owner, e.pid, e.req.ltype, e.plan.start, e.plan.end)} else {}
  }

  ghost function Committed(S: set<Lock>, e: Edit): set<Lock> {
    var R := Removed(S, e.owner, e.plan);
    (S - R) + LeftPieces(R, e.plan) + RightPieces(R, e.plan, e.tailAddr) + NewLocks(e)
  }

  /** x is a surviving piece of y, clear of the edited range. */
  ghost predicate PieceOf(x: Lock, y: Lock, e: Edit) {
    && x.owner == y.owner && x.ltype == y.ltype && x.pid == y.pid && x.state == y.state
    && y.start <= x.start <= x.end <= y.end
    && (x.owner == e.owner ==> x.end < e.plan.start || x.start > e.plan.end)
    && (x.end == y.end || x.end == e.plan.start - 1) && (x.start == y.start || x.start == e.plan.end + 1)
    && (x.addr == y.addr || (x.addr == e.tailAddr && x.start == e.plan.end + 1 && y.start < e.plan.start))
    && (x.addr == y.addr && x.start == e.plan.end + 1 && x.start != y.start ==> y.start >= e.plan.start)
    && (x == y || y.owner == e.owner)
  }

  lemma SurvivorsArePieces(S: set<Lock>, e: Edit, x: Lock)
    requires forall y :: y in S ==> WellFormed(y) && y.addr != e.tailAddr
    requires x in Committed(S, e)
    requires x !in NewLocks(e)
    ensures exists y :: y in S && PieceOf(x, y, e)
  {
    var R := Removed(S, e.owner, e.plan);
    if x in S - R {
      assert PieceOf(x, x, e);
    } else if x in LeftPieces(R, e.plan) {
      var y :| y in R && y.start < e.plan.start && x == LeftPiece(y, e.plan);
      assert PieceOf(x, y, e);
    } else {
      var y :| y in R && y.end > e.plan.end && x == RightPiece(y, e.plan, e.tailAddr);
      assert PieceOf(x, y, e);
    }
  }

  /** The facts about S and the plan that the commit relies on. */
  ghost predicate EditOk(S: set<Lock>, e: Edit, start: int, end: int) {
    && LocksOk(S) && PlanOk(e.plan) && INT64_MIN <= start <= end <= INT64_MAX
    && PlanFor(S, e.owner, e.req, start, end, if e.req.Acquire? then 1 else 0, e.plan)
    && (forall y :: y in S ==> y.addr != e.tailAddr)
    && (e.req.Acquire? ==>
          && e.newAddr != e.tailAddr && (forall y :: y in S ==> y.addr != e.newAddr)
          && (forall y :: y in S ==> !Conflicts(y, e.owner, start, end, e.req.ltype)))
  }

  lemma SamePiece(S: set<Lock>, e: Edit, x1: Lock, y1: Lock, x2: Lock, y2: Lock)
    requires DistinctAddresses(S) && Disjoint(S) && y1 in S && y2 in S && PieceOf(x1, y1, e) && PieceOf(x2, y2, e)
    requires y1.addr != e.tailAddr && y2.addr != e.tailAddr && WellFormed(y1) && WellFormed(y2)
    requires x1.addr == x2.addr && PlanOk(e.plan)
    ensures x1 == x2
  {}

  lemma ApartPieces(S: set<Lock>, e: Edit, x1: Lock, y1: Lock, x2: Lock, y2: Lock)
    requires Disjoint(S) && y1 in S && y2 in S && PieceOf(x1, y1, e) && PieceOf(x2, y2, e)
    requires y1.addr != e.tailAddr && y2.addr != e.tailAddr && PlanOk(e.plan)
    requires x1 != x2 && x1.owner == x2.owner
    ensures x1.end < x2.start || x2.end < x1.start
  {}

  lemma CommittedDistinct(S: set<Lock>, e: Edit, start: int, end: int)
    requires EditOk(S, e, start, end)
    ensures DistinctAddresses(Committed(S, e))
  {
    hide Committed, PieceOf, Disjoint, Coalesced, Compatible, PlanFor;
    var S' := Committed(S, e);
    var N := NewLocks(e);
    forall x1, x2 | x1 in S' && x2 in S' && x1.addr == x2.addr ensures x1 == x2 {
      if x1 !in N && x2 !in N {
        SurvivorsArePieces(S, e, x1);
        SurvivorsArePieces(S, e, x2);
        var y1 :| y1 in S && PieceOf(x1, y1, e);
        var y2 :| y2 in S && PieceOf(x2, y2, e);
        SamePiece(S, e, x1, y1, x2, y2);
      } else if x1 !in N {
        SurvivorsArePieces(S, e, x1);
        var y1 :| y1 in S && PieceOf(x1, y1, e);
        PieceAddress(x1, y1, e);
      } else if x2 !in N {
        SurvivorsArePieces(S, e, x2);
        var y2 :| y2 in S && PieceOf(x2, y2, e);
        PieceAddress(x2, y2, e);
      }
    }
  }

  lemma PieceAddress(x: Lock, y: Lock, e: Edit)
    requires PieceOf(x, y, e)
    ensures x.addr == y.addr || x.addr == e.tailAddr
    ensures x.owner == e.owner ==> x.end < e.plan.start || x.start > e.plan.end
  {}

  lemma CommittedDisjoint(S: set<Lock>, e: Edit, start: int, end: int)
    requires EditOk(S, e, start, end)
    ensures Disjoint(Committed(S, e))
  {
    hide Committed, PieceOf, DistinctAddresses, Coalesced, Compatible, PlanFor;
    var S' := Committed(S, e);
    var N := NewLocks(e);
    forall x1, x2 | x1 in S' && x2 in S' && x1 != x2 && x1.owner == x2.owner
      ensures x1.end < x2.start || x2.end < x1.start
    {
      if x1 !in N && x2 !in N {
        SurvivorsArePieces(S, e, x1);
        SurvivorsArePieces(S, e, x2);
        var y1 :| y1 in S && PieceOf(x1, y1, e);
        var y2 :| y2 in S && PieceOf(x2, y2, e);
        ApartPieces(S, e, x1, y1, x2, y2);
      } else if x1 !in N {
        SurvivorsArePieces(S, e, x1);
        var y1 :| y1 in S && PieceOf(x1, y1, e);
        PieceAddress(x1, y1, e);
      } else if x2 !in N {
        SurvivorsArePieces(S, e, x2);
        var y2 :| y2 in S && PieceOf(x2, y2, e);
        PieceAddress(x2, y2, e);
      }
    }
  }

  lemma StartsBefore(S: set<Lock>, y: Lock, z: Lock)
    requires Disjoint(S) && Coalesced(S) && y in S && z in S && y.owner == z.owner && y.ltype == z.ltype
    requires y.start <= z.end + 1 && y.start <= y.end
    ensures y.start <= z.start
  {}

  lemma EndsBehind(S: set<Lock>, y: Lock, z: Lock)
    requires Disjoint(S) && Coalesced(S) && y in S && z in S && y.owner == z.owner && y.ltype == z.ltype
    requires y.end >= z.start - 1 && y.start <= y.end
    ensures y.end >= z.end
  {}

  /** The new lock never meets a surviving lock of the same owner and type. */
  lemma NewIsMerged(S: set<Lock>, e: Edit, start: int, end: int, y: Lock)
    requires EditOk(S, e, start, end) && e.req.Acquire?
    requires y in S && y.owner == e.owner && y.ltype == e.req.ltype
    requires y.start <= e.plan.end + 1 && y.end >= e.plan.start - 1
    ensures e.plan.start <= y.start && y.end <= e.plan.end
  {
    hide Disjoint, Coalesced, Compatible, DistinctAddresses;
    if e.plan.end > end {
      var z :| z in S && Mergeable(z, e.owner, e.req, start, end) && z.end == e.plan.end;
      StartsBefore(S, y, z);
    }
    if e.plan.start < start {
      var z :| z in S && Mergeable(z, e.owner, e.req, start, end) && z.start == e.plan.start;
      EndsBehind(S, y, z);
    }
    assert Mergeable(y, e.owner, e.req, start, end);
  }

  lemma PiecesCoalesced(S: set<Lock>, e: Edit, x1: Lock, x2: Lock)
    requires Disjoint(S) && Coalesced(S) && (forall y :: y in S ==> WellFormed(y) && y.addr != e.tailAddr)
              && PlanOk(e.plan)
    requires forall y ::
               y in S && y.owner == e.owner && e.req == Acquire(y.ltype) && y.start <= e.plan.end + 1
                   && y.end >= e.plan.start - 1
               ==> e.plan.start <= y.start && y.end <= e.plan.end
    requires x1 in Committed(S, e) && x2 in Committed(S, e) && x1.owner == x2.owner && x1.ltype == x2.ltype
    ensures x1.end + 1 != x2.start
  {
    if x1 !in NewLocks(e) {
      SurvivorsArePieces(S, e, x1);
    }
    if x2 !in NewLocks(e) {
      SurvivorsArePieces(S, e, x2);
    }
  }

  lemma CommittedCoalesced(S: set<Lock>, e: Edit, start: int, end: int)
    requires EditOk(S, e, start, end)
    ensures Coalesced(Committed(S, e))
  {
    forall y | y in S && y.owner == e.owner && e.req == Acquire(y.ltype)
               && y.start <= e.plan.end + 1 && y.end >= e.plan.start - 1
      ensures e.plan.start <= y.start && y.end <= e.plan.end
    {
      NewIsMerged(S, e, start, end, y);
    }
    forall x1, x2 | x1 in Committed(S, e) && x2 in Committed(S, e) && x1.owner == x2.owner && x1.ltype == x2.ltype
      ensures x1.end + 1 != x2.start
    {
      PiecesCoalesced(S, e, x1, x2);
    }
  }

  lemma NewIsCompatible(S: set<Lock>, e: Edit, start: int, end: int, z: Lock)
    requires EditOk(S, e, start, end) && e.req.Acquire?
    requires z in S && z.owner != e.owner && z.start <= e.plan.end && e.plan.start <= z.end
    ensures e.req.ltype.ReadLock? && z.ltype.ReadLock?
  {
    assert !Conflicts(z, e.owner, start, end, e.req.ltype);
    if e.plan.end > end && z.start > end {
      var y :| y in S && Mergeable(y, e.owner, e.req, start, end) && y.end == e.plan.end;
      assert y.start <= z.end && z.start <= y.end;
    } else if e.plan.start < start && z.end < start {
      var y :| y in S && Mergeable(y, e.owner, e.req, start, end) && y.start == e.plan.start;
      assert y.start <= z.end && z.start <= y.end;
    }
  }

  lemma PiecesCompatible(S: set<Lock>, e: Edit, x1: Lock, x2: Lock)
    requires Compatible(S) && forall y :: y in S ==> WellFormed(y) && y.addr != e.tailAddr
    requires forall z ::
               z in S && e.req.Acquire? && z.owner != e.owner && z.start <= e.plan.end && e.plan.start <= z.end
               ==> e.req.ltype.ReadLock? && z.ltype.ReadLock?
    requires x1 in Committed(S, e) && x2 in Committed(S, e) && x1 !in NewLocks(e)
    requires x1.owner != x2.owner && x1.start <= x2.end && x2.start <= x1.end
    ensures x1.ltype.ReadLock? && x2.ltype.ReadLock?
  {
    SurvivorsArePieces(S, e, x1);
    var y1 :| y1 in S && PieceOf(x1, y1, e);
    if x2 !in NewLocks(e) {
      SurvivorsArePieces(S, e, x2);
    }
  }

  lemma CommittedCompatible(S: set<Lock>, e: Edit, start: int, end: int)
    requires EditOk(S, e, start, end)
    ensures Compatible(Committed(S, e))
  {
    forall z | z in S && e.req.Acquire? && z.owner != e.owner && z.start <= e.plan.end && e.plan.start <= z.end
      ensures e.req.ltype.ReadLock? && z.ltype.ReadLock?
    {
      NewIsCompatible(S, e, start, end, z);
    }
    hide Committed, Disjoint, Coalesced, DistinctAddresses, PlanFor;
    forall x1, x2 | x1 in Committed(S, e) && x2 in Committed(S, e) && x1.owner != x2.owner
                    && x1.start <= x2.end && x2.start <= x1.end
      ensures x1.ltype.ReadLock? && x2.ltype.ReadLock?
    {
      if x1 !in NewLocks(e) {
        PiecesCompatible(S, e, x1, x2);
      } else {
        PiecesCompatible(S, e, x2, x1);
      }
    }
  }

  lemma CommittedWellFormed(S: set<Lock>, e: Edit)
    requires forall y :: y in S ==> WellFormed(y) && y.addr != e.tailAddr
    requires PlanOk(e.plan)
    ensures forall x :: x in Committed(S, e) ==> WellFormed(x)
  {
    forall x | x in Committed(S, e) ensures WellFormed(x) {
      if x !in NewLocks(e) {
        SurvivorsArePieces(S, e, x);
      }
    }
  }

  /** A committed edit keeps every promise about the inode's locks. */
  lemma CommittedOk(S: set<Lock>, e: Edit, start: int, end: int)
    requires EditOk(S, e, start, end)
    ensures LocksOk(Committed(S, e))
  {
    CommittedWellFormed(S, e);
    CommittedDistinct(S, e, start, end);
    CommittedDisjoint(S, e, start, end);
    CommittedCoalesced(S, e, start, end);
    CommittedCompatible(S, e, start, end);
  }

  // ---------------------------------------------------------------- exact effect

  lemma SurvivorCovers(S: set<Lock>, e: Edit, y: Lock, b: int)
    requires y in S && WellFormed(y) && y.start <= b <= y.end
    requires y.owner == e.owner ==> !(e.plan.start <= b <= e.plan.end)
    ensures Holds(Committed(S, e), y.owner, b, y.ltype, y.pid)
  {
    var R := Removed(S, e.owner, e.plan);
    var S' := Committed(S, e);
    if y !in R {
      assert y in S';
    } else if b < e.plan.start {
      assert LeftPiece(y, e.plan) in LeftPieces(R, e.plan);
      assert LeftPiece(y, e.plan) in S';
    } else {
      assert RightPiece(y, e.plan, e.tailAddr) in RightPieces(R, e.plan, e.tailAddr);
      assert RightPiece(y, e.plan, e.tailAddr) in S';
    }
  }

  /** Per byte: the planned range carries the request, every other byte of every owner is as before,
      including the pid recorded with it. */
  lemma CommittedHolds(S: set<Lock>, e: Edit, o: Owner, b: int, t: LockType, q: int)
    requires (forall y :: y in S ==> WellFormed(y) && y.addr != e.tailAddr) && PlanOk(e.plan)
    ensures Holds(Committed(S, e), o, b, t, q)
            <==> if o == e.owner && e.plan.start <= b <= e.plan.end then e.req == Acquire(t) && q == e.pid
                 else Holds(S, o, b, t, q)
  {
    var S' := Committed(S, e);
    var N := NewLocks(e);
    var inside := o == e.owner && e.plan.start <= b <= e.plan.end;
    if Holds(S', o, b, t, q) {
      var x :| x in S' && x.owner == o && x.start <= b <= x.end && x.ltype == t && x.pid == q;
      if x !in N {
        SurvivorsArePieces(S, e, x);
      }
    }
    if inside && e.req == Acquire(t) && q == e.pid {
      assert Lock(e.newAddr, e.state, e.owner, e.pid, e.req.ltype, e.plan.start, e.plan.end) in S';
    }
    if !inside && Holds(S, o, b, t, q) {
      var y :| y in S && y.owner == o && y.start <= b <= y.end && y.ltype == t && y.pid == q;
      SurvivorCovers(S, e, y, b);
    }
  }

  /** The bytes the plan adds to the request already had the requested type. */
  lemma WidenedBytesHeld(S: set<Lock>, owner: Owner, req: Request, start: int, end: int, needed: nat, p: Plan, b: int)
    requires PlanFor(S, owner, req, start, end, needed, p)
    requires p.start <= b <= p.end && !(start <= b <= end)
    ensures req.Acquire? && HoldsType(S, owner, b, req.ltype)
  {
    if b < start {
      assert p.start < start;
    } else {
      assert p.end > end;
    }
  }

  lemma HoldsTypeByPid(S: set<Lock>, o: Owner, b: int, t: LockType)
    ensures HoldsType(S, o, b, t) <==> exists q :: Holds(S, o, b, t, q)
  {
    if HoldsType(S, o, b, t) {
      var y :| y in S && y.owner == o && y.start <= b <= y.end && y.ltype == t;
      assert Holds(S, o, b, t, y.pid);
    }
  }

  lemma CommittedHoldsType(S: set<Lock>, e: Edit, o: Owner, b: int, t: LockType)
    requires (forall y :: y in S ==> WellFormed(y) && y.addr != e.tailAddr) && PlanOk(e.plan)
    ensures HoldsType(Committed(S, e), o, b, t)
            <==> if o == e.owner && e.plan.start <= b <= e.plan.end then e.req == Acquire(t) else HoldsType(S, o, b, t)
  {
    forall q ensures Holds(Committed(S, e), o, b, t, q)
                     <==> if o == e.owner && e.plan.start <= b <= e.plan.end then e.req == Acquire(t) && q == e.pid
                          else Holds(S, o, b, t, q)
    {
      CommittedHolds(S, e, o, b, t, q);
    }
    HoldsTypeByPid(Committed(S, e), o, b, t);
    HoldsTypeByPid(S, o, b, t);
  }

  lemma HoldsTypeIsFunctional(S: set<Lock>, owner: Owner, b: int, t: LockType, t': LockType)
    requires Disjoint(S) && HoldsType(S, owner, b, t) && HoldsType(S, owner, b, t')
    ensures t == t'
  {}

  /** `kernel_record_lock_set` changes the map (owner, byte) -> type exactly on the requested owner
      and range, although the lock it stores may be wider. */
  lemma SetIsExact(S: set<Lock>, e: Edit, start: int, end: int, o: Owner, b: int, t: LockType)
    requires EditOk(S, e, start, end)
    ensures HoldsType(Committed(S, e), o, b, t)
            <==> if o == e.owner && start <= b <= end then e.req == Acquire(t) else HoldsType(S, o, b, t)
  {
    CommittedHoldsType(S, e, o, b, t);
    if o == e.owner && e.plan.start <= b <= e.plan.end && !(start <= b <= end) {
      WidenedBytesHeld(S, e.owner, e.req, start, end, if e.req.Acquire? then 1 else 0, e.plan, b);
      if HoldsType(S, o, b, t) {
        HoldsTypeIsFunctional(S, o, b, t, e.req.ltype);
      }
    }
  }
}
