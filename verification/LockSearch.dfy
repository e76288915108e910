/** The pruned walks of fs/record_lock.c over the interval tree: conflict search, edit
    planning and range extraction, each proved against its unpruned meaning on the
    in-order sequence of locks. */
module LockSearch {
  import opened LockTree
  import opened Wrappers

  /** What `kernel_record_lock_set` is asked for: type 2 is an unlock. */
  datatype Request = Unlock | Acquire(ltype: LockType)

  ghost predicate WellFormed(y: Lock) {
    INT64_MIN <= y.start <= y.end <= INT64_MAX
  }

  /** The cached maximum bounds every end below it, which is what pruning relies on. */
  lemma {:induction false} MaxEndBounds(t: Tree)
    requires Cached(t) && t.Node?
    ensures forall y :: y in Elems(t) ==> y.end <= t.maxEnd
    ensures exists y :: y in Elems(t) && y.end == t.maxEnd
  {
    var l, r := Elems(t.left), Elems(t.right);
    assert Elems(t) == l + [t.lock] + r;
    assert t.lock in Elems(t);
    if t.left.Node? {
      MaxEndBounds(t.left);
      var y :| y in l && y.end == t.left.maxEnd;
      assert y in Elems(t);
    }
    if t.right.Node? {
      MaxEndBounds(t.right);
      var y :| y in r && y.end == t.right.maxEnd;
      assert y in Elems(t);
    }
  }

  // ---------------------------------------------------------------- conflict

  predicate Conflicts(y: Lock, owner: Owner, start: int, end: int, ltype: LockType) {
    y.start <= end && y.end >= start && y.owner != owner && (ltype.WriteLock? || y.ltype.WriteLock?)
  }

  function Conflict(t: Tree, owner: Owner, start: int, end: int, ltype: LockType): Option<Lock> {
    if t.Leaf? || t.maxEnd < start then None
    else
      var found := if t.left.Node? && t.left.maxEnd >= start
                   then Conflict(t.left, owner, start, end, ltype) else None;
      if found.Some? then found
      else if Conflicts(t.lock, owner, start, end, ltype) then Some(t.lock)
      else if t.lock.start <= end then Conflict(t.right, owner, start, end, ltype)
      else None
  }

  /** r is the first lock of s that conflicts, or None when there is none. */
  ghost predicate FirstConflict(s: seq<Lock>, owner: Owner, start: int, end: int, ltype: LockType, r: Option<Lock>) {
    match r
    case None => forall y :: y in s ==> !Conflicts(y, owner, start, end, ltype)
    case Some(x) =>
      exists i :: 0 <= i < |s| && s[i] == x && Conflicts(x, owner, start, end, ltype)
        && forall j :: 0 <= j < i ==> !Conflicts(s[j], owner, start, end, ltype)
  }

  lemma FirstConflictConcat(a: seq<Lock>, b: seq<Lock>, owner: Owner, start: int, end: int, ltype: LockType,
                            r: Option<Lock>, q: Option<Lock>)
    requires FirstConflict(a, owner, start, end, ltype, r)
    requires FirstConflict(b, owner, start, end, ltype, q)
    ensures FirstConflict(a + b, owner, start, end, ltype, if r.Some? then r else q)
  {
    if r.Some? {
      var i :| 0 <= i < |a| && a[i] == r.value && Conflicts(r.value, owner, start, end, ltype)
        && forall j :: 0 <= j < i ==> !Conflicts(a[j], owner, start, end, ltype);
      assert (a + b)[i] == r.value;
      assert forall j :: 0 <= j < i ==> (a + b)[j] == a[j];
    } else if q.Some? {
      var i :| 0 <= i < |b| && b[i] == q.value && Conflicts(q.value, owner, start, end, ltype)
        && forall j :: 0 <= j < i ==> !Conflicts(b[j], owner, start, end, ltype);
      assert (a + b)[|a| + i] == q.value;
      assert forall j :: 0 <= j < |a| + i ==> (a + b)[j] == if j < |a| then a[j] else b[j - |a|];
    }
  }

  lemma FirstConflictNode(l: seq<Lock>, x: Lock, r: seq<Lock>, owner: Owner, start: int, end: int, ltype: LockType,
                          found: Option<Lock>, right: Option<Lock>)
    requires FirstConflict(l, owner, start, end, ltype, found) && FirstConflict(r, owner, start, end, ltype, right)
    ensures FirstConflict(l + [x] + r, owner, start, end, ltype,
                          if found.Some? then found
                              else if Conflicts(x, owner, start, end, ltype) then Some(x) else right)
  {
    var mid := if Conflicts(x, owner, start, end, ltype) then Some(x) else None;
    assert FirstConflict([x], owner, start, end, ltype, mid) by {
      assert [x][0] == x;
    }
    hide FirstConflict;
    FirstConflictConcat(l, [x], owner, start, end, ltype, found, mid);
    FirstConflictConcat(l + [x], r, owner, start, end, ltype, if found.Some? then found else mid, right);
  }

  /** A subtree that ends before the request has no conflict. */
  lemma PrunedLeft(t: Tree, owner: Owner, start: int, end: int, ltype: LockType)
    requires Cached(t) && (t.Node? ==> t.maxEnd < start)
    ensures FirstConflict(Elems(t), owner, start, end, ltype, None)
  {
    if t.Node? {
      MaxEndBounds(t);
    }
  }

  lemma PrunedRight(r: seq<Lock>, owner: Owner, start: int, end: int, ltype: LockType)
    requires forall y :: y in r ==> y.start > end
    ensures FirstConflict(r, owner, start, end, ltype, None)
  {}

  /** `conflict` finds the in-order first conflicting lock, and finds none only when there is none. */
  lemma {:induction false} ConflictCorrect(t: Tree, owner: Owner, start: int, end: int, ltype: LockType)
    requires Cached(t) && Sorted(Elems(t))
    ensures FirstConflict(Elems(t), owner, start, end, ltype, Conflict(t, owner, start, end, ltype))
  {
    if t.Leaf? || t.maxEnd < start {
      PrunedLeft(t, owner, start, end, ltype);
    } else {
      var l, r := Elems(t.left), Elems(t.right);
      SortedParts(l, t.lock, r);
      hide FirstConflict, Sorted;
      var found := if t.left.Node? && t.left.maxEnd >= start
                   then Conflict(t.left, owner, start, end, ltype) else None;
      if t.left.Node? && t.left.maxEnd >= start {
        ConflictCorrect(t.left, owner, start, end, ltype);
      } else {
        PrunedLeft(t.left, owner, start, end, ltype);
      }
      var right := if t.lock.start <= end then Conflict(t.right, owner, start, end, ltype) else None;
      if t.lock.start <= end {
        ConflictCorrect(t.right, owner, start, end, ltype);
      } else {
        PrunedRight(r, owner, start, end, ltype);
      }
      FirstConflictNode(l, t.lock, r, owner, start, end, ltype, found, right);
    }
  }

  // ---------------------------------------------------------------- prepare_edit

  predicate Touching(y: Lock, start: int, end: int) {
    y.start <= end && y.end >= start
  }

  predicate Adjacent(y: Lock, start: int, end: int) {
    (y.end != INT64_MAX && y.end + 1 == start) || (end != INT64_MAX && end + 1 == y.start)
  }

  /** The walk's accumulator: the bounds it widens and the nodes it will need. */
  datatype Plan = Plan(start: int, end: int, needed: nat)

  /** What the walk does at one node. */
  function PlanStep(y: Lock, owner: Owner, req: Request, p: Plan): Plan {
    if y.owner != owner then p
    else if req == Acquire(y.ltype) && (Touching(y, p.start, p.end) || Adjacent(y, p.start, p.end)) then
      Plan(if y.start < p.start then y.start else p.start, if y.end > p.end then y.end else p.end, p.needed)
    else if y.start < p.start && y.end > p.end then p.(needed := p.needed + 1)
    else p
  }

  /** `prepare_edit`, with its two prunings. */
  function PrepareEdit(t: Tree, owner: Owner, req: Request, p: Plan): Plan {
    if t.Leaf? then p
    else
      var first := if req.Acquire? && p.start != INT64_MIN then p.start - 1 else p.start;
      if t.maxEnd < first then p
      else
        var p1 := PrepareEdit(t.left, owner, req, p);
        var last := if req.Acquire? && p1.end != INT64_MAX then p1.end + 1 else p1.end;
        if t.lock.start > last then p1
        else PrepareEdit(t.right, owner, req, PlanStep(t.lock, owner, req, p1))
  }

  /** The same walk without pruning: every lock, in order. */
  function PlanFold(s: seq<Lock>, owner: Owner, req: Request, p: Plan): Plan {
    if s == [] then p else PlanFold(s[1..], owner, req, PlanStep(s[0], owner, req, p))
  }

  lemma {:induction false} PlanFoldConcat(a: seq<Lock>, b: seq<Lock>, owner: Owner, req: Request, p: Plan)
    ensures PlanFold(a + b, owner, req, p) == PlanFold(b, owner, req, PlanFold(a, owner, req, p))
    decreases |a|
  {
    if a == [] {
      assert a + b == b;
    } else {
      assert (a + b)[1..] == a[1..] + b;
      PlanFoldConcat(a[1..], b, owner, req, PlanStep(a[0], owner, req, p));
    }
  }

  lemma {:induction false} PlanFoldIdle(s: seq<Lock>, owner: Owner, req: Request, p: Plan)
    requires forall y :: y in s ==> PlanStep(y, owner, req, p) == p
    ensures PlanFold(s, owner, req, p) == p
    decreases |s|
  {
    if s != [] {
      assert s[0] in s;
      PlanFoldIdle(s[1..], owner, req, p);
    }
  }

  ghost predicate PlanOk(p: Plan) {
    INT64_MIN <= p.start <= p.end <= INT64_MAX
  }

  lemma {:induction false} PlanFoldOk(s: seq<Lock>, owner: Owner, req: Request, p: Plan)
    requires PlanOk(p) && forall y :: y in s ==> WellFormed(y)
    ensures PlanOk(PlanFold(s, owner, req, p))
    decreases |s|
  {
    if s != [] {
      assert s[0] in s;
      PlanFoldOk(s[1..], owner, req, PlanStep(s[0], owner, req, p));
    }
  }

  lemma BelowIsIdle(s: seq<Lock>, owner: Owner, req: Request, p: Plan, first: int)
    requires PlanOk(p) && forall y :: y in s ==> WellFormed(y) && y.end < first
    requires first == if req.Acquire? && p.start != INT64_MIN then p.start - 1 else p.start
    ensures PlanFold(s, owner, req, p) == p
  {
    PlanFoldIdle(s, owner, req, p);
  }

  lemma BeyondIsIdle(s: seq<Lock>, owner: Owner, req: Request, p: Plan, last: int)
    requires PlanOk(p) && forall y :: y in s ==> WellFormed(y) && y.start > last
    requires last == if req.Acquire? && p.end != INT64_MAX then p.end + 1 else p.end
    ensures PlanFold(s, owner, req, p) == p
  {
    PlanFoldIdle(s, owner, req, p);
  }

  /** Pruning loses nothing: the walk with moving bounds visits every lock that matters. */
  lemma {:induction false} PrepareEditIsFold(t: Tree, owner: Owner, req: Request, p: Plan)
    requires Cached(t) && Sorted(Elems(t)) && PlanOk(p)
    requires forall y :: y in Elems(t) ==> WellFormed(y)
    ensures PrepareEdit(t, owner, req, p) == PlanFold(Elems(t), owner, req, p)
  {
    if t.Node? {
      var l, r := Elems(t.left), Elems(t.right);
      assert forall y :: y in Elems(t) <==> y in l || y == t.lock || y in r;
      var first := if req.Acquire? && p.start != INT64_MIN then p.start - 1 else p.start;
      if t.maxEnd < first {
        MaxEndBounds(t);
        BelowIsIdle(Elems(t), owner, req, p, first);
      } else {
        SortedParts(l, t.lock, r);
        PrepareEditIsFold(t.left, owner, req, p);
        var p1 := PlanFold(l, owner, req, p);
        PlanFoldOk(l, owner, req, p);
        PlanFoldConcat(l, [t.lock] + r, owner, req, p);
        assert l + ([t.lock] + r) == Elems(t);
        var last := if req.Acquire? && p1.end != INT64_MAX then p1.end + 1 else p1.end;
        if t.lock.start > last {
          BeyondIsIdle([t.lock] + r, owner, req, p1, last);
        } else {
          assert ([t.lock] + r)[1..] == r;
          var p2 := PlanStep(t.lock, owner, req, p1);
          PlanFoldOk([t.lock], owner, req, p1);
          assert PlanFold([t.lock], owner, req, p1) == p2;
          PrepareEditIsFold(t.right, owner, req, p2);
        }
      }
    }
  }

  // ---------------------------------------------------------------- meaning of the plan

  /** One owner's locks are disjoint, and equal types that meet have been merged. */
  ghost predicate Disjoint(S: set<Lock>) {
    forall y, z :: y in S && z in S && y != z && y.owner == z.owner ==> y.end < z.start || z.end < y.start
  }

  ghost predicate Coalesced(S: set<Lock>) {
    forall y, z :: y in S && z in S && y.owner == z.owner && y.ltype == z.ltype ==> y.end + 1 != z.start
  }

  /** y is the owner's lock of the requested type and meets the request [start, end]. */
  predicate Mergeable(y: Lock, owner: Owner, req: Request, start: int, end: int) {
    y.owner == owner && req == Acquire(y.ltype) && y.start <= end + 1 && y.end >= start - 1
  }

  /** y is the owner's lock, keeps its type, and sticks out on both sides of the request. */
  predicate Splits(y: Lock, owner: Owner, req: Request, start: int, end: int) {
    y.owner == owner && req != Acquire(y.ltype) && y.start < start && y.end > end
  }

  /** p is the plan for request [start, end] over the locks S: the request merged with exactly
      the mergeable locks, and one more node when some lock has to be split. */
  ghost predicate PlanFor(S: set<Lock>, owner: Owner, req: Request, start: int, end: int, needed: nat, p: Plan) {
    && p.start <= start && end <= p.end
    && (p.start < start ==> exists y :: y in S && Mergeable(y, owner, req, start, end) && y.start == p.start)
    && (p.end > end ==> exists y :: y in S && Mergeable(y, owner, req, start, end) && y.end == p.end)
    && (forall y :: y in S && Mergeable(y, owner, req, start, end) ==> p.start <= y.start && y.end <= p.end)
    && (p.needed == needed + if exists y :: y in S && Splits(y, owner, req, start, end) then 1 else 0)
  }

  lemma PlanStepMeans(S: set<Lock>, x: Lock, owner: Owner, req: Request, start: int, end: int, needed: nat, p: Plan)
    requires Disjoint(S + {x}) && Coalesced(S + {x}) && x !in S
    requires forall y :: y in S + {x} ==> WellFormed(y)
    requires forall y :: y in S ==> y.start <= x.start
    requires INT64_MIN <= start <= end <= INT64_MAX
    requires PlanFor(S, owner, req, start, end, needed, p) && PlanOk(p)
    ensures PlanFor(S + {x}, owner, req, start, end, needed, PlanStep(x, owner, req, p))
  {
    if x.owner == owner && req == Acquire(x.ltype) {
      StepMerges(S, x, owner, req, start, end, needed, p);
    } else if x.owner == owner {
      StepSplits(S, x, owner, req, start, end, needed, p);
    }
    PlanGrows(S, x, owner, req, start, end, needed, p);
  }

  lemma PlanGrows(S: set<Lock>, x: Lock, owner: Owner, req: Request, start: int, end: int, needed: nat, p: Plan)
    requires PlanFor(S, owner, req, start, end, needed, p)
    requires x.owner == owner && req == Acquire(x.ltype) ==>
               && ((Touching(x, p.start, p.end) || Adjacent(x, p.start, p.end)) <==>
                  Mergeable(x, owner, req, start, end))
               && (!Mergeable(x, owner, req, start, end) ==> !(x.start < p.start && x.end > p.end))
    requires x.owner == owner && req != Acquire(x.ltype) ==>
               && (x.start < p.start && x.end > p.end <==> Splits(x, owner, req, start, end))
               && (Splits(x, owner, req, start, end) ==> !exists y :: y in S && Splits(y, owner, req, start, end))
    ensures PlanFor(S + {x}, owner, req, start, end, needed, PlanStep(x, owner, req, p))
  {
    var q := PlanStep(x, owner, req, p);
    assert x in S + {x};
    assert forall y :: y in S ==> y in S + {x};
    if Mergeable(x, owner, req, start, end) {
      GrowMerge(S, x, owner, req, start, end, needed, p);
    }
    if !Splits(x, owner, req, start, end) {
      StepNoSplit(S, x, owner, req, start, end);
    }
  }

  lemma GrowMerge(S: set<Lock>, x: Lock, owner: Owner, req: Request, start: int, end: int, needed: nat, p: Plan)
    requires PlanFor(S, owner, req, start, end, needed, p) && Mergeable(x, owner, req, start, end)
    ensures var q := Plan(if x.start < p.start then x.start
              else p.start, if x.end > p.end then x.end else p.end, p.needed);
            PlanFor(S + {x}, owner, req, start, end, needed, q)
  {
    assert x in S + {x};
    assert forall y :: y in S ==> y in S + {x};
    StepNoSplit(S, x, owner, req, start, end);
  }

  lemma StepNoSplit(S: set<Lock>, x: Lock, owner: Owner, req: Request, start: int, end: int)
    requires !Splits(x, owner, req, start, end)
    ensures (exists y :: y in S + {x} && Splits(y, owner, req, start, end))
            <==> (exists y :: y in S && Splits(y, owner, req, start, end))
  {}

  lemma StepMerges(S: set<Lock>, x: Lock, owner: Owner, req: Request, start: int, end: int, needed: nat, p: Plan)
    requires Disjoint(S + {x}) && Coalesced(S + {x}) && x !in S
    requires forall y :: y in S + {x} ==> WellFormed(y)
    requires forall y :: y in S ==> y.start <= x.start
    requires INT64_MIN <= start <= end <= INT64_MAX
    requires PlanFor(S, owner, req, start, end, needed, p) && PlanOk(p)
    requires x.owner == owner && req == Acquire(x.ltype)
    ensures (Touching(x, p.start, p.end) || Adjacent(x, p.start, p.end)) <==> Mergeable(x, owner, req, start, end)
    ensures !(Touching(x, p.start, p.end) || Adjacent(x, p.start, p.end)) ==> !(x.start < p.start && x.end > p.end)
  {
    assert x in S + {x};
    if !Mergeable(x, owner, req, start, end) && (Touching(x, p.start, p.end) || Adjacent(x, p.start, p.end)) {
      assert false;
    }
  }

  lemma StepSplits(S: set<Lock>, x: Lock, owner: Owner, req: Request, start: int, end: int, needed: nat, p: Plan)
    requires Disjoint(S + {x}) && x !in S
    requires forall y :: y in S + {x} ==> WellFormed(y)
    requires INT64_MIN <= start <= end <= INT64_MAX
    requires PlanFor(S, owner, req, start, end, needed, p) && PlanOk(p)
    requires x.owner == owner && req != Acquire(x.ltype)
    ensures (x.start < p.start && x.end > p.end) <==> Splits(x, owner, req, start, end)
    ensures Splits(x, owner, req, start, end) ==> !exists y :: y in S && Splits(y, owner, req, start, end)
  {
    assert x in S + {x};
    if Splits(x, owner, req, start, end) {
      assert p.start == start && p.end == end;
      forall y | y in S ensures !Splits(y, owner, req, start, end) {
        assert y in S + {x};
      }
    }
  }

  function SetOf(s: seq<Lock>): set<Lock> {
    set y | y in s
  }

  lemma {:induction false} PlanFoldMeans(s: seq<Lock>, owner: Owner, req: Request, start: int, end: int, needed: nat)
    requires Sorted(s) && Disjoint(SetOf(s)) && Coalesced(SetOf(s))
    requires forall y :: y in s ==> WellFormed(y)
    requires INT64_MIN <= start <= end <= INT64_MAX
    ensures var p := PlanFold(s, owner, req, Plan(start, end, needed));
            PlanOk(p) && PlanFor(SetOf(s), owner, req, start, end, needed, p)
    decreases |s|
  {
    var p0 := Plan(start, end, needed);
    PlanFoldOk(s, owner, req, p0);
    if s != [] {
      var n := |s| - 1;
      var a, x := s[..n], s[n];
      assert s == a + [x];
      assert SetOf(s) == SetOf(a) + {x};
      assert x !in a;
      PlanFoldMeans(a, owner, req, start, end, needed);
      PlanFoldConcat(a, [x], owner, req, p0);
      PlanStepMeans(SetOf(a), x, owner, req, start, end, needed, PlanFold(a, owner, req, p0));
    }
  }

  /** The plan `prepare_edit` computes on a tree in which every owner's locks are disjoint and merged. */
  lemma {:induction false} PrepareEditCorrect(t: Tree, owner: Owner, req: Request, start: int, end: int, needed: nat)
    requires Cached(t) && Sorted(Elems(t)) && Disjoint(SetOf(Elems(t))) && Coalesced(SetOf(Elems(t)))
    requires forall y :: y in Elems(t) ==> WellFormed(y)
    requires INT64_MIN <= start <= end <= INT64_MAX
    ensures var p := PrepareEdit(t, owner, req, Plan(start, end, needed));
            PlanOk(p) && PlanFor(SetOf(Elems(t)), owner, req, start, end, needed, p)
  {
    PrepareEditIsFold(t, owner, req, Plan(start, end, needed));
    PlanFoldMeans(Elems(t), owner, req, start, end, needed);
  }

  // ---------------------------------------------------------------- extract_owned

  predicate Owned(y: Lock, owner: Owner, start: int, end: int) {
    y.owner == owner && y.start <= end && y.end >= start
  }

  /** `extract_owned`: the remaining tree, and the extracted locks pushed on `removed`. */
  function ExtractOwned(t: Tree, owner: Owner, start: int, end: int, removed: seq<Lock>): (r: (Tree, seq<Lock>))
    requires Cached(t)
    ensures Cached(r.0)
  {
    if t.Leaf? then (Leaf, removed)
    else if t.maxEnd < start then (t, removed)
    else
      var (l, rem) := ExtractOwned(t.left, owner, start, end, removed);
      if t.lock.start > end then (JoinRoot(l, t.lock, t.right), rem)
      else
        var (r, rem') := ExtractOwned(t.right, owner, start, end, rem);
        if t.lock.owner != owner || t.lock.end < start then (JoinRoot(l, t.lock, r), rem')
        else (JoinTrees(l, r), [t.lock] + rem')
  }

  function Keep(s: seq<Lock>, owner: Owner, start: int, end: int): seq<Lock> {
    if s == [] then []
    else (if Owned(s[0], owner, start, end) then [] else [s[0]]) + Keep(s[1..], owner, start, end)
  }

  lemma {:induction false} KeepConcat(a: seq<Lock>, b: seq<Lock>, owner: Owner, start: int, end: int)
    ensures Keep(a + b, owner, start, end) == Keep(a, owner, start, end) + Keep(b, owner, start, end)
    decreases |a|
  {
    if a == [] {
      assert a + b == b;
    } else {
      assert (a + b)[1..] == a[1..] + b;
      KeepConcat(a[1..], b, owner, start, end);
    }
  }

  lemma {:induction false} KeepAll(s: seq<Lock>, owner: Owner, start: int, end: int)
    requires forall y :: y in s ==> !Owned(y, owner, start, end)
    ensures Keep(s, owner, start, end) == s
    decreases |s|
  {
    if s != [] {
      assert s[0] in s;
      KeepAll(s[1..], owner, start, end);
    }
  }

  lemma {:induction false} KeepMembers(s: seq<Lock>, owner: Owner, start: int, end: int)
    requires Sorted(s)
    ensures forall y :: y in Keep(s, owner, start, end) <==> y in s && !Owned(y, owner, start, end)
    ensures Sorted(Keep(s, owner, start, end))
    decreases |s|
  {
    if s != [] {
      assert Sorted(s[1..]);
      KeepMembers(s[1..], owner, start, end);
      var k := Keep(s[1..], owner, start, end);
      assert forall y :: y in s[1..] ==> Before(s[0], y);
      assert s == [s[0]] + s[1..];
      SortedJoin([], s[0], k);
      assert [] + [s[0]] + k == [s[0]] + k;
    }
  }

  lemma KeepNode(l: seq<Lock>, x: Lock, r: seq<Lock>, owner: Owner, start: int, end: int)
    ensures Keep(l + [x] + r, owner, start, end)
            == Keep(l, owner, start, end) + (if Owned(x, owner, start, end) then [] else [x])
                + Keep(r, owner, start, end)
  {
    KeepConcat(l + [x], r, owner, start, end);
    KeepConcat(l, [x], owner, start, end);
  }

  /** Putting a node back between two extracted subtrees, or dropping it. */
  lemma {:induction false} RejoinKeeps(l: Tree, x: Lock, r: Tree, a: seq<Lock>, b: seq<Lock>,
                                       owner: Owner, start: int, end: int)
    requires Avl(l) && Elems(l) == Keep(a, owner, start, end)
    requires Avl(r) && Elems(r) == Keep(b, owner, start, end)
    ensures var t := if Owned(x, owner, start, end) then JoinTrees(l, r) else JoinRoot(l, x, r);
            Avl(t) && Elems(t) == Keep(a + [x] + b, owner, start, end)
  {
    KeepNode(a, x, b, owner, start, end);
    if Owned(x, owner, start, end) {
      JoinTreesCorrect(l, r);
      assert Elems(l) + [] + Elems(r) == Elems(l) + Elems(r);
    } else {
      JoinRootCorrect(l, x, r);
    }
  }

  /** Extraction leaves an AVL tree with exactly the other locks, in the old order, however many
      levels a subtree loses. */
  lemma {:induction false} ExtractOwnedCorrect(t: Tree, owner: Owner, start: int, end: int, removed: seq<Lock>)
    requires Avl(t) && Sorted(Elems(t))
    ensures var r := ExtractOwned(t, owner, start, end, removed);
            Avl(r.0) && Elems(r.0) == Keep(Elems(t), owner, start, end)
  {
    if t.Node? {
      var a, b := Elems(t.left), Elems(t.right);
      if t.maxEnd < start {
        MaxEndBounds(t);
        KeepAll(Elems(t), owner, start, end);
      } else {
        SortedParts(a, t.lock, b);
        ExtractOwnedCorrect(t.left, owner, start, end, removed);
        var (l, rem) := ExtractOwned(t.left, owner, start, end, removed);
        if t.lock.start > end {
          KeepAll(b, owner, start, end);
          RejoinKeeps(l, t.lock, t.right, a, b, owner, start, end);
        } else {
          ExtractOwnedCorrect(t.right, owner, start, end, rem);
          var (r, rem') := ExtractOwned(t.right, owner, start, end, rem);
          RejoinKeeps(l, t.lock, r, a, b, owner, start, end);
        }
      }
    }
  }

  ghost predicate NoDup(s: seq<Lock>) {
    forall i, j :: 0 <= i < j < |s| ==> s[i] != s[j]
  }

  /** The extraction list holds each extracted lock exactly once. */
  lemma {:induction false} ExtractOwnedList(t: Tree, owner: Owner, start: int, end: int, removed: seq<Lock>)
    requires Cached(t) && Sorted(Elems(t)) && NoDup(removed)
    requires forall y :: y in removed ==> y !in Elems(t)
    ensures var r := ExtractOwned(t, owner, start, end, removed).1;
            && NoDup(r)
            && forall y :: y in r <==> y in removed || (y in Elems(t) && Owned(y, owner, start, end))
  {
    if t.Node? {
      var a, b := Elems(t.left), Elems(t.right);
      assert forall y :: y in Elems(t) <==> y in a || y == t.lock || y in b;
      if t.maxEnd < start {
        MaxEndBounds(t);
      } else {
        SortedParts(a, t.lock, b);
        ExtractOwnedList(t.left, owner, start, end, removed);
        var (l, rem) := ExtractOwned(t.left, owner, start, end, removed);
        if t.lock.start <= end {
          forall y | y in b ensures y !in rem {
            assert !Before(y, y);
          }
          ExtractOwnedList(t.right, owner, start, end, rem);
          var (r, rem') := ExtractOwned(t.right, owner, start, end, rem);
          assert t.lock !in rem' by {
            assert !Before(t.lock, t.lock);
          }
        }
      }
    }
  }
}
