/** The request set of one I/O context, updated in place by the loops of fs/lwext4_port.c. Each method takes
    the steps of ResourceOrder for its context, with every mutex granted when asked for. */
module ResourceSets {
  import opened Wrappers
  import opened ResourceOrder
  import opened ResourceOrderProof

  lemma HeldAt(list: seq<Request>, i: nat)
    requires Ascending(list) && i < |list|
    ensures Held(list, list[i].key) == list[i := Request(list[i].key, true, list[i].unpublished)]
  {
    var k, t := list[i].key, list[i := Request(list[i].key, true, list[i].unpublished)];
    forall j | 0 <= j < |list| && j != i ensures list[j].key != k {
      if j < i {
        assert Less(list[j].key, list[i].key);
      } else {
        assert Less(list[i].key, list[j].key);
      }
    }
    assert |Held(list, k)| == |t|;
    forall j | 0 <= j < |list| ensures Held(list, k)[j] == t[j] {}
  }

  lemma {:induction false} PositionFound(list: seq<Request>, k: Key, i: nat)
    requires i <= |list| && (forall j :: 0 <= j < i ==> Less(list[j].key, k)) && (i < |list| ==> !Less(list[i].key, k))
    ensures Position(list, k) == i
    decreases |list|
  {
    if i > 0 {
      PositionFound(list[1..], k, i - 1);
    }
  }

  /** What an acquisition answers; it is refused for want of memory. */
  datatype Answer = Done | Again | Refused

  class RequestSet {
    var list: seq<Request>
    var running: bool
    var retry: bool
    var heldLast: Option<Key>
    ghost var replays: nat

    ghost function View(at: Point): Context
      reads this
    {
      Context(list, running, heldLast, retry, at, replays)
    }

    ghost predicate Valid()
      reads this
    {
      ContextOk(View(Outside))
    }

    constructor ()
      ensures Valid() && list == [] && !running && !retry
    {
      list, running, retry, heldLast, replays := [], false, false, None, 0;
    }

    /** `resource_request_get`: the kept request for k, or a new one in its sorted place if there is memory for it. */
    method RequestGet(k: Key, unpublished: bool, memory: bool) returns (i: nat, created: bool, ok: bool)
      requires Ascending(list)
      modifies this`list
      ensures i == Position(old(list), k) && (ok <==> Has(old(list), k) || memory)
                && (created <==> ok && !Has(old(list), k))
      ensures list == if created then Insert(old(list), Request(k, false, unpublished)) else old(list)
    {
      i := 0;
      while i < |list| && Less(list[i].key, k)
        invariant i <= |list| && forall j :: 0 <= j < i ==> Less(list[j].key, k)
      {
        i := i + 1;
      }
      PositionFound(list, k, i);
      if i < |list| && list[i].key == k {
        return i, false, true;
      }
      if !memory {
        return i, false, false;
      }
      list := list[..i] + [Request(k, false, unpublished)] + list[i..];
      return i, true, true;
    }

    /** `resource_begin` of a new attempt: locks every kept key, lowest first. */
    method Relock(ghost goal: Goal)
      requires Valid() && !running && !retry
      modifies this`list, this`running, this`heldLast
      ensures ContextOk(View(Relocking(goal, |list|))) && running && |list| == |old(list)|
      ensures forall i :: 0 <= i < |list| ==> list[i].held && list[i].key == old(list)[i].key
    {
      CallKeeps(View(Outside), Call(0, goal));
      running := true;
      var i := 0;
      while i < |list|
        invariant i <= |list| == |old(list)| && running && !retry && replays == old(replays)
        invariant ContextOk(View(Relocking(goal, i)))
        invariant forall j :: 0 <= j < |list| ==> list[j].key == old(list)[j].key && (j < i ==> list[j].held)
      {
        ghost var x := View(Relocking(goal, i));
        RelockKeeps(x, Lock(0));
        assert Ascending(list);
        hide ContextOk, Ascending, Less;
        HeldAt(list, i);
        var r := list[i];
        list := list[i := Request(r.key, true, r.unpublished)];
        heldLast := Some(r.key);
        i := i + 1;
        assert View(Relocking(goal, i)) == StepContext(x, Lock(0));
      }
    }

    /** `resource_begin`: goes on with a running attempt, or relocks. */
    method Begin(ghost goal: Goal) returns (ghost at: Point)
      requires Valid() && !retry
      modifies this`list, this`running, this`heldLast
      ensures ContextOk(View(at)) && (at == Asking(goal) || at == Relocking(goal, |list|)) && running
      ensures old(running) ==> list == old(list)
      ensures !old(running) ==> forall i :: 0 <= i < |list| ==> list[i].held
      ensures |list| == |old(list)| && forall i :: 0 <= i < |list| ==> list[i].key == old(list)[i].key
    {
      hide ContextOk;
      if !running {
        Relock(goal);
        at := Relocking(goal, |list|);
      } else {
        CallKeeps(View(Outside), Call(0, goal));
        at := Asking(goal);
      }
    }

    /** The key lies below one that this attempt holds, or will hold once it has relocked. */
    ghost predicate Below(k: Key)
      reads this
    {
      exists i :: 0 <= i < |list| && (list[i].held || !running) && Less(k, list[i].key)
    }

    /** `resource_acquire`: asks for a replay if and only if one is due already or a new key lies below a held one, and
        then the list has grown by that key. Otherwise the key is held, or its inode is unpublished. */
    method Acquire(k: Key, memory: bool) returns (answer: Answer)
      requires Valid()
      modifies this
      ensures Valid()
      ensures answer == Refused <==> !old(retry) && !Has(old(list), k) && !memory
      ensures answer == Again <==> old(retry) || (!Has(old(list), k) && memory && old(Below(k)))
      ensures answer == Again ==> retry
      ensures answer == Again && !old(retry) ==>
                |list| == |old(list)| + 1 && Has(list, k) && replays == old(replays) + 1
      ensures answer != Again ==> running && !retry && replays == old(replays)
      ensures answer == Done ==> exists i :: 0 <= i < |list| && list[i].key == k && Covered(list[i])
      ensures answer == Refused || (answer == Done && Has(old(list), k)) ==>
                |list| == |old(list)| && forall i :: 0 <= i < |list| ==> list[i].key == old(list)[i].key
    {
      hide ContextOk, Insert, Has, Position, Less, Ascending;
      if retry {
        return Again;
      }
      ghost var goal := Goal.Acquire(k);
      ghost var at := Begin(goal);
      ghost var x := View(at);
      SameKeys(old(list), list, k);
      AskedKeeps(x);
      AskFacts(x);
      BelowLast(x, k);
      BelowKept(old(list), old(running), list, k);
      var i, created, ok := RequestGet(k, false, memory);
      if !ok {
        NoMemoryKeeps(x);
        return Refused;
      }
      if !created {
        CoveredAt(x, k);
        return Done;
      }
      InsertAt(x.list, Request(k, false, false));
      InsertHas(x.list, Request(k, false, false));
      if heldLast.Some? && Less(k, heldLast.value) {
        retry := true;
        replays := replays + 1;
        assert View(Outside) == Asked(x, goal);
        return Again;
      }
      assert View(Locking(k)) == Asked(x, goal);
      LockNew(k, i);
      return Done;
    }

    /** The new key's mutex. */
    method LockNew(k: Key, i: nat)
      requires ContextOk(View(Locking(k))) && i < |list| && list[i] == Request(k, false, false)
      modifies this`list, this`heldLast
      ensures Valid() && i < |list| && list[i].key == k && Covered(list[i])
    {
      hide ContextOk, Has, Less, Ascending;
      ghost var y := View(Locking(k));
      LockNewKeeps(y, Lock(0));
      AscendingOf(y);
      HeldAt(list, i);
      list := list[i := Request(k, true, false)];
      heldLast := Some(k);
      assert View(Outside) == StepContext(y, Lock(0));
      CoveredHere(list[i]);
    }

    /** `resource_claim_inode`: a new key counts as owned by the reservation of its unpublished inode. */
    method ClaimInode(k: Key, memory: bool) returns (answer: Answer)
      requires Valid()
      modifies this
      ensures Valid()
      ensures answer == Again <==> old(retry)
      ensures answer == Refused <==> !old(retry) && !Has(old(list), k) && !memory
      ensures answer == Done ==>
                running && !retry && exists i :: 0 <= i < |list| && list[i].key == k && Covered(list[i])
      ensures replays == old(replays) && |list| == |old(list)| + if answer == Done && !Has(old(list), k) then 1 else 0
    {
      hide ContextOk, Insert, Has, Position, Less, Ascending;
      if retry {
        return Again;
      }
      ghost var goal := Goal.Claim(k);
      ghost var at := Begin(goal);
      ghost var x := View(at);
      SameKeys(old(list), list, k);
      AskedKeeps(x);
      AskFacts(x);
      var i, created, ok := RequestGet(k, true, memory);
      if !ok {
        NoMemoryKeeps(x);
        return Refused;
      }
      if !created {
        CoveredAt(x, k);
        return Done;
      }
      InsertAt(x.list, Request(k, false, true));
      assert View(Outside) == Asked(x, goal);
      ClaimCovered(list[i]);
      return Done;
    }

    /** `resource_release`: guards are dropped from the tail; the keys are kept for a replay only. */
    method Release()
      requires Valid()
      modifies this
      ensures Valid() && !running && heldLast.None?
      ensures forall i :: 0 <= i < |list| ==> !list[i].held
      ensures old(retry) ==>
                retry && |list| == |old(list)| && forall i :: 0 <= i < |list| ==> list[i].key == old(list)[i].key
      ensures !old(retry) ==> list == [] && !retry
    {
      ReleaseKeeps(View(Outside), ResourceOrder.Release(0));
      var i := |list|;
      while i > 0
        invariant 0 <= i <= |list| == |old(list)| && retry == old(retry) && replays == old(replays)
        invariant forall j ::
                  0 <= j < |list| ==> list[j] == if j < i then old(list)[j] else Request(old(list)[j].key, false, false)
      {
        i := i - 1;
        list := list[i := Request(list[i].key, false, false)];
      }
      assert list == AllFree(old(list));
      heldLast, running := None, false;
      if !retry {
        list, replays := [], 0;
      }
      assert View(Outside) == StepContext(old(View(Outside)), ResourceOrder.Release(0));
    }

    /** `resource_retry` */
    method Retry() returns (again: bool)
      requires Valid() && !running
      modifies this`retry
      ensures Valid() && again == old(retry) && !retry
    {
      ReleaseKeeps(View(Outside), ResourceOrder.Retry(0));
      again := retry;
      retry := false;
    }
  }

  lemma SameKeys(a: seq<Request>, b: seq<Request>, k: Key)
    requires |a| == |b| && forall i :: 0 <= i < |a| ==> a[i].key == b[i].key
    ensures Has(a, k) <==> Has(b, k)
    decreases |a|
  {
    SamePosition(a, b, k);
  }

  lemma {:induction false} SamePosition(a: seq<Request>, b: seq<Request>, k: Key)
    requires |a| == |b| && forall i :: 0 <= i < |a| ==> a[i].key == b[i].key
    ensures Position(a, k) == Position(b, k)
    decreases |a|
  {
    if a != [] {
      SamePosition(a[1..], b[1..], k);
    }
  }

  lemma AskFacts(x: Context)
    requires ContextOk(x) && (x.at.Asking? || (x.at.Relocking? && x.at.next >= |x.list|))
    ensures Ascending(x.list) && x.running && !x.retry
  {
    AllCovered(x);
  }

  lemma AscendingOf(x: Context)
    requires ContextOk(x)
    ensures Ascending(x.list)
  {}

  lemma CoveredAt(x: Context, k: Key)
    requires ContextOk(x) && (x.at.Asking? || (x.at.Relocking? && x.at.next >= |x.list|)) && Has(x.list, k)
    ensures exists i :: 0 <= i < |x.list| && x.list[i].key == k && Covered(x.list[i])
    ensures ContextOk(x.(at := Outside))
  {
    AllCovered(x);
    var i := Position(x.list, k);
    assert x.list[i].key == k;
    SameLast(x, x.(at := Outside));
    hide LastOk;
  }

  /** `held_last` decides whether a key lies below a held one. */
  lemma BelowLast(x: Context, k: Key)
    requires ContextOk(x)
    ensures x.heldLast.Some? && Less(k, x.heldLast.value) <==>
            exists i :: 0 <= i < |x.list| && x.list[i].held && Less(k, x.list[i].key)
  {
    assert LastOk(x);
    if i :| 0 <= i < |x.list| && x.list[i].held && Less(k, x.list[i].key) {
      assert !Less(x.heldLast.value, x.list[i].key);
    }
  }

  lemma BelowKept(a: seq<Request>, running: bool, b: seq<Request>, k: Key)
    requires |a| == |b| && forall i :: 0 <= i < |b| ==> b[i].key == a[i].key
    requires if running then b == a else forall i :: 0 <= i < |b| ==> b[i].held
    ensures (exists i :: 0 <= i < |a| && (a[i].held || !running) && Less(k, a[i].key)) <==>
            exists i :: 0 <= i < |b| && b[i].held && Less(k, b[i].key)
  {
    hide Less;
    if i :| 0 <= i < |b| && b[i].held && Less(k, b[i].key) {
      assert Less(k, a[i].key);
    }
    if i :| 0 <= i < |a| && (a[i].held || !running) && Less(k, a[i].key) {
      assert b[i].held && Less(k, b[i].key);
    }
  }

  lemma NoMemoryKeeps(x: Context)
    requires ContextOk(x) && (x.at.Asking? || (x.at.Relocking? && x.at.next >= |x.list|))
    ensures ContextOk(x.(at := Outside))
  {
    AllCovered(x);
    SameLast(x, x.(at := Outside));
    hide LastOk;
  }

  lemma CoveredHere(r: Request)
    requires r.held
    ensures Covered(r)
  {}
}
