/** Locks are taken upwards only, so no run deadlocks, and every replay knows one more key. */
module ResourceOrderProof {
  import opened Wrappers
  import opened ResourceOrder

  // ---------------------------------------------------------------- the sorted list

  lemma {:induction false} PositionIs(list: seq<Request>, k: Key)
    requires Ascending(list)
    ensures forall i :: 0 <= i < Position(list, k) ==> Less(list[i].key, k)
    ensures forall i :: Position(list, k) <= i < |list| ==> !Less(list[i].key, k)
    decreases |list|
  {
    if list != [] {
      if Less(list[0].key, k) {
        assert Ascending(list[1..]) by {
          forall i, j | 0 <= i < j < |list| - 1 ensures Less(list[1..][i].key, list[1..][j].key) {
            assert Less(list[i + 1].key, list[j + 1].key);
          }
        }
        PositionIs(list[1..], k);
        var p := Position(list[1..], k);
        forall i | 0 <= i < p + 1 ensures Less(list[i].key, k) {
          if i > 0 {
            assert list[1..][i - 1] == list[i];
          }
        }
        forall i | p + 1 <= i < |list| ensures !Less(list[i].key, k) {
          assert list[1..][i - 1] == list[i];
        }
      } else {
        forall i | 0 <= i < |list| ensures !Less(list[i].key, k) {
          if i > 0 {
            assert Less(list[0].key, list[i].key);
          }
        }
      }
    }
  }

  lemma HasIs(list: seq<Request>, k: Key)
    requires Ascending(list)
    ensures Has(list, k) <==> exists i :: 0 <= i < |list| && list[i].key == k
  {
    PositionIs(list, k);
    var p := Position(list, k);
    if i :| 0 <= i < |list| && list[i].key == k {
      assert i >= p;
      if i > p {
        assert Less(list[p].key, list[i].key);
      }
    }
  }

  /** Where everything is after an insertion. */
  lemma InsertAt(list: seq<Request>, r: Request)
    ensures var p, t := Position(list, r.key), Insert(list, r);
            && |t| == |list| + 1 && t[p] == r
            && (forall i :: 0 <= i < |t| ==> t[i] == if i < p then list[i] else if i == p then r else list[i - 1])
            && (forall i :: 0 <= i < |list| ==> list[i] == t[if i < p then i else i + 1])
  {}

  lemma InsertAscends(list: seq<Request>, r: Request)
    requires Ascending(list) && !Has(list, r.key)
    ensures Ascending(Insert(list, r))
  {
    var p, t := Position(list, r.key), Insert(list, r);
    PositionIs(list, r.key);
    HasIs(list, r.key);
    forall i, j | 0 <= i < j < |t| ensures Less(t[i].key, t[j].key) {
      assert t[i] == if i < p then list[i] else if i == p then r else list[i - 1];
      assert t[j] == if j < p then list[j] else if j == p then r else list[j - 1];
      if j == p {
      } else if i == p {
        assert list[j - 1].key != r.key;
      }
    }
  }

  lemma HeldOk(list: seq<Request>, k: Key)
    requires Ascending(list)
    ensures Ascending(Held(list, k)) && |Held(list, k)| == |list|
    ensures forall q :: Has(Held(list, k), q) <==> Has(list, q)
  {
    var t := Held(list, k);
    forall q ensures Has(t, q) <==> Has(list, q) {
      HasIs(list, q);
      HasIs(t, q);
      forall i | 0 <= i < |list| ensures t[i].key == list[i].key {}
    }
  }

  lemma FreeOk(list: seq<Request>)
    requires Ascending(list)
    ensures Ascending(AllFree(list)) && |AllFree(list)| == |list|
    ensures forall q :: Has(AllFree(list), q) <==> Has(list, q)
  {
    var t := AllFree(list);
    forall q ensures Has(t, q) <==> Has(list, q) {
      HasIs(list, q);
      HasIs(t, q);
      forall i | 0 <= i < |list| ensures t[i].key == list[i].key {}
    }
  }

  // ---------------------------------------------------------------- one context

  lemma CallKeeps(x: Context, ev: Event)
    requires ContextOk(x) && ev.Call? && x.at.Outside?
    ensures ContextOk(StepContext(x, ev))
  {}

  lemma ReleaseKeeps(x: Context, ev: Event)
    requires ContextOk(x) && (ev.Release? || ev.Retry?) && x.at.Outside? && (ev.Retry? ==> !x.running)
    ensures ContextOk(StepContext(x, ev))
  {
    if ev.Release? {
      FreeOk(x.list);
    }
  }

  lemma LockNewKeeps(x: Context, ev: Event)
    requires ContextOk(x) && ev.Lock? && x.at.Locking?
    ensures ContextOk(StepContext(x, ev))
  {
    var k := x.at.key;
    HeldOk(x.list, k);
    HasIs(x.list, k);
    var t := Held(x.list, k);
    var p :| 0 <= p < |x.list| && x.list[p].key == k;
    assert t[p].held && t[p].key == k;
  }

  lemma RelockKeeps(x: Context, ev: Event)
    requires ContextOk(x) && ev.Lock? && x.at.Relocking? && x.at.next < |x.list|
    ensures ContextOk(StepContext(x, ev))
  {
    var n := x.at.next;
    var k := x.list[n].key;
    HeldOk(x.list, k);
    var t := Held(x.list, k);
    assert t[n].held && t[n].key == k;
    forall i | 0 <= i < |x.list| ensures (x.list[i].key == k) == (i == n) {
      if i < n {
        assert Less(x.list[i].key, x.list[n].key);
      } else if n < i {
        assert Less(x.list[n].key, x.list[i].key);
      }
    }
  }

  /** A new request that is not held leaves `held_last` right. */
  lemma InsertLast(x: Context, r: Request, y: Context)
    requires LastOk(x) && !r.held && y.list == Insert(x.list, r) && y.heldLast == x.heldLast
    ensures LastOk(y)
  {
    InsertAt(x.list, r);
    hide Insert, Position, Less;
    var p := Position(x.list, r.key);
    if x.heldLast.Some? {
      var i :| 0 <= i < |x.list| && x.list[i].held && x.list[i].key == x.heldLast.value;
      var j := if i < p then i else i + 1;
      assert y.list[j] == x.list[i];
    }
    forall j | 0 <= j < |y.list| && y.list[j].held
      ensures x.heldLast.Some? && !Less(x.heldLast.value, y.list[j].key)
    {
      var i := if j < p then j else j - 1;
      assert j != p && x.list[i] == y.list[j];
    }
  }

  lemma AboveLast(x: Context, k: Key)
    requires LastOk(x) && Ascending(x.list) && !Has(x.list, k) && x.heldLast.Some? && !Less(k, x.heldLast.value)
    ensures Less(x.heldLast.value, k)
  {
    HasIs(x.list, k);
    var i :| 0 <= i < |x.list| && x.list[i].held && x.list[i].key == x.heldLast.value;
  }

  lemma InsertCovered(list: seq<Request>, r: Request)
    requires forall i :: 0 <= i < |list| ==> Covered(list[i])
    ensures forall i :: 0 <= i < |Insert(list, r)| ==> Covered(Insert(list, r)[i]) || Insert(list, r)[i] == r
  {
    InsertAt(list, r);
    hide Insert, Position;
    var p, t := Position(list, r.key), Insert(list, r);
    forall i | 0 <= i < |t| && i != p ensures Covered(t[i]) {
      assert t[i] == list[if i < p then i else i - 1];
    }
  }

  lemma AllCovered(x: Context)
    requires PointOk(x) && (x.at.Asking? || (x.at.Relocking? && x.at.next >= |x.list|))
    ensures x.running && !x.retry && forall i :: 0 <= i < |x.list| ==> Covered(x.list[i])
  {}

  lemma AskedKeeps(x: Context)
    requires ContextOk(x) && (x.at.Asking? || (x.at.Relocking? && x.at.next >= |x.list|))
    ensures ContextOk(Asked(x, x.at.goal))
  {
    hide Ascending, LastOk, Less, Insert, Has, Position, Covered;
    AllCovered(x);
    var k, t := x.at.goal.key, Asked(x, x.at.goal);
    if !Has(x.list, k) {
      var r := Request(k, false, x.at.goal.Claim?);
      InsertAscends(x.list, r);
      InsertLast(x, r, t);
      InsertHas(x.list, r);
      InsertCovered(x.list, r);
      InsertLength(x.list, r);
      if x.heldLast.Some? {
        HeldNonEmpty(x);
        if !Less(k, x.heldLast.value) {
          AboveLast(x, k);
        }
      }
      if x.at.goal.Claim? {
        ClaimCovered(r);
      }
    } else {
      SameLast(x, t);
    }
  }

  lemma InsertLength(list: seq<Request>, r: Request)
    ensures |Insert(list, r)| == |list| + 1
  {}

  lemma ClaimCovered(r: Request)
    requires r.unpublished
    ensures Covered(r)
  {}

  lemma SameLast(x: Context, y: Context)
    requires LastOk(x) && y.list == x.list && y.heldLast == x.heldLast
    ensures LastOk(y)
  {
    if x.heldLast.Some? {
      var i :| 0 <= i < |x.list| && x.list[i].held && x.list[i].key == x.heldLast.value;
      assert y.list[i].held;
    }
  }

  lemma InsertHas(list: seq<Request>, r: Request)
    requires Ascending(list) && !Has(list, r.key)
    ensures Has(Insert(list, r), r.key)
  {
    InsertAscends(list, r);
    InsertAt(list, r);
    HasIs(Insert(list, r), r.key);
  }

  lemma HeldNonEmpty(x: Context)
    requires LastOk(x) && x.heldLast.Some?
    ensures |x.list| > 0
  {}

  lemma ContextKeeps(s: State, ev: Event)
    requires Enabled(s, ev) && ContextOk(s.contexts[ev.c])
    ensures ContextOk(StepContext(s.contexts[ev.c], ev))
  {
    var x := s.contexts[ev.c];
    hide Ascending, LastOk, Less, Insert, Has, Position, Covered, Asked, Held;
    match ev
    case Call(_, _) => CallKeeps(x, ev);
    case Lock(_) =>
      if x.at.Locking? {
        LockNewKeeps(x, ev);
      } else {
        RelockKeeps(x, ev);
      }
    case Get(_) => AskedKeeps(x);
    case NoMemory(_) =>
      AllCovered(x);
      SameLast(x, StepContext(x, ev));
    case Release(_) => ReleaseKeeps(x, ev);
    case Retry(_) => ReleaseKeeps(x, ev);
  }

  // ---------------------------------------------------------------- mutual exclusion

  lemma LockedHold(x: Context, y: Context, q: Key, k: Key)
    requires y.list == Held(x.list, q) && HoldsKey(y, k)
    ensures HoldsKey(x, k) || k == q
  {
    var i :| 0 <= i < |y.list| && y.list[i].held && y.list[i].key == k;
    assert x.list[i].key == k;
  }

  lemma InsertedHold(x: Context, y: Context, r: Request, k: Key)
    requires y.list == Insert(x.list, r) && !r.held && HoldsKey(y, k)
    ensures HoldsKey(x, k)
  {
    InsertAt(x.list, r);
    hide Insert, Position;
    var i :| 0 <= i < |y.list| && y.list[i].held && y.list[i].key == k;
    var p := Position(x.list, r.key);
    assert x.list[if i < p then i else i - 1] == y.list[i];
  }

  lemma SameHold(x: Context, y: Context, k: Key)
    requires y.list == x.list && HoldsKey(y, k)
    ensures HoldsKey(x, k)
  {
    var i :| 0 <= i < |y.list| && y.list[i].held && y.list[i].key == k;
    assert x.list[i].held;
  }

  lemma NoneHold(y: Context, k: Key)
    requires forall i :: 0 <= i < |y.list| ==> !y.list[i].held
    ensures !HoldsKey(y, k)
  {}

  /** A step makes a context hold no key but the one whose mutex it takes. */
  lemma NewHold(x: Context, ev: Event, k: Key)
    requires HoldsKey(StepContext(x, ev), k)
    ensures HoldsKey(x, k) || (ev.Lock? && Wants(x) == Some(k))
  {
    hide HoldsKey, Insert, Has, Less, Held;
    var t := StepContext(x, ev);
    if t.list == x.list {
      SameHold(x, t, k);
    } else {
      match ev
      case Lock(_) => LockedHold(x, t, Wants(x).value, k);
      case Get(_) => InsertedHold(x, t, Request(x.at.goal.key, false, x.at.goal.Claim?), k);
      case Release(_) => NoneHold(t, k);
      case _ =>
    }
  }

  lemma ExclusiveKeeps(s: State, ev: Event)
    requires Exclusive(s) && Enabled(s, ev)
    ensures Exclusive(Step(s, ev))
  {
    var t := Step(s, ev);
    hide StepContext, StepReferences, HoldsKey, Wants;
    forall c, d, k | 0 <= c < d < |t.contexts| && HoldsKey(t.contexts[c], k) ensures !HoldsKey(t.contexts[d], k) {
      if HoldsKey(t.contexts[d], k) {
        if c == ev.c {
          NewHold(s.contexts[c], ev, k);
        }
        if d == ev.c {
          NewHold(s.contexts[d], ev, k);
        }
        assert false;
      }
    }
  }

  // ---------------------------------------------------------------- references

  lemma {:induction false} UsersUpdate(xs: seq<Context>, c: nat, x: Context, k: Key)
    requires c < |xs|
    ensures Users(xs[c := x], k)
              == Users(xs, k) - (if Has(xs[c].list, k) then 1 else 0) + if Has(x.list, k) then 1 else 0
  {
    hide Has;
    var n, xs' := |xs| - 1, xs[c := x];
    if c == n {
      assert xs'[..n] == xs[..n];
    } else {
      assert xs'[..n] == xs[..n][c := x];
      UsersUpdate(xs[..n], c, x, k);
    }
  }

  lemma {:induction false} UsersAtLeast(xs: seq<Context>, c: nat, k: Key)
    requires c < |xs| && Has(xs[c].list, k)
    ensures Users(xs, k) > 0
  {
    hide Has;
    if c < |xs| - 1 {
      UsersAtLeast(xs[..|xs| - 1], c, k);
    }
  }

  lemma InsertHasAll(list: seq<Request>, r: Request, q: Key)
    requires Ascending(list) && !Has(list, r.key)
    ensures Has(Insert(list, r), q) <==> Has(list, q) || q == r.key
  {
    InsertAscends(list, r);
    InsertAt(list, r);
    HasIs(list, q);
    HasIs(Insert(list, r), q);
    hide Insert, Position, Has, Less, Ascending;
    var p, t := Position(list, r.key), Insert(list, r);
    if i :| 0 <= i < |list| && list[i].key == q {
      assert t[if i < p then i else i + 1].key == q;
    }
    if i :| 0 <= i < |t| && t[i].key == q {
      if i != p {
        assert list[if i < p then i else i - 1].key == q;
      }
    }
  }

  /** How the keys a context keeps change. */
  lemma KeptKeys(x: Context, ev: Event, q: Key)
    requires ContextOk(x)
    ensures Has(StepContext(x, ev).list, q) <==>
              if ev.Release? && !x.retry then false
              else Has(x.list, q) || (ev.Get? && (x.at.Asking? || x.at.Relocking?) && q == x.at.goal.key)
  {
    hide LastOk, PointOk, Ascending;
    match ev
    case Lock(_) =>
      if x.at.Locking? {
        HeldOk(x.list, x.at.key);
      } else if x.at.Relocking? && x.at.next < |x.list| {
        HeldOk(x.list, x.list[x.at.next].key);
      }
    case Get(_) =>
      if (x.at.Asking? || x.at.Relocking?) && !Has(x.list, x.at.goal.key) {
        InsertHasAll(x.list, Request(x.at.goal.key, false, x.at.goal.Claim?), q);
      }
    case Release(_) =>
      FreeOk(x.list);
    case _ =>
  }

  function Value(m: map<Key, nat>, k: Key): nat { if k in m then m[k] else 0 }

  ghost predicate Positive(m: map<Key, nat>) { forall k :: k in m ==> m[k] > 0 }

  lemma {:induction false} PutAllIs(m: map<Key, nat>, list: seq<Request>, q: Key)
    requires Ascending(list) && Positive(m) && forall i :: 0 <= i < |list| ==> list[i].key in m
    ensures Positive(PutAll(m, list))
    ensures Value(PutAll(m, list), q) == Value(m, q) - if Has(list, q) then 1 else 0
    decreases |list|
  {
    HasIs(list, q);
    if list != [] {
      var rest, m' := list[1..], Put(m, list[0].key);
      forall i | 0 <= i < |rest| ensures rest[i].key in m' && rest[i].key != list[0].key {
        assert Less(list[0].key, list[i + 1].key);
      }
      assert Ascending(rest) by {
        forall i, j | 0 <= i < j < |rest| ensures Less(rest[i].key, rest[j].key) {
          assert Less(list[i + 1].key, list[j + 1].key);
        }
      }
      PutAllIs(m', rest, q);
      HasIs(rest, q);
      hide Has, Less, Ascending;
      assert (exists i :: 0 <= i < |list| && list[i].key == q) <==>
          list[0].key == q || exists i :: 0 <= i < |rest| && rest[i].key == q by {
        if i :| 0 <= i < |list| && list[i].key == q {
          if i > 0 {
            assert rest[i - 1].key == q;
          }
        }
        if i :| 0 <= i < |rest| && rest[i].key == q {
          assert list[i + 1].key == q;
        }
      }
    }
  }

  lemma CountedIs(s: State)
    requires Counted(s)
    ensures Positive(s.references) && forall k :: Value(s.references, k) == Users(s.contexts, k)
  {}

  lemma CountedMade(s: State)
    requires Positive(s.references) && forall k :: Value(s.references, k) == Users(s.contexts, k)
    ensures Counted(s)
  {
    hide Users;
    forall k
        ensures (k in s.references <==> Users(s.contexts, k) > 0)
                  && (k in s.references ==> s.references[k] == Users(s.contexts, k)) {
      assert Value(s.references, k) == Users(s.contexts, k);
    }
  }

  lemma ReferencesStep(s: State, ev: Event, q: Key)
    requires Inv(s) && Enabled(s, ev)
    ensures Positive(StepReferences(s.references, s.contexts[ev.c], ev))
    ensures Value(StepReferences(s.references, s.contexts[ev.c], ev), q) == Users(Step(s, ev).contexts, q)
  {
    var x := s.contexts[ev.c];
    assert ContextOk(x);
    assert Ascending(x.list);
    CountedIs(s);
    UsersUpdate(s.contexts, ev.c, StepContext(x, ev), q);
    KeptKeys(x, ev, q);
    hide ContextOk, Exclusive, Counted, StepContext, Users, Less, HoldsKey, Wants;
    if ev.Release? && !x.retry {
      forall i | 0 <= i < |x.list| ensures x.list[i].key in s.references {
        HasIs(x.list, x.list[i].key);
        UsersAtLeast(s.contexts, ev.c, x.list[i].key);
        assert Value(s.references, x.list[i].key) > 0;
      }
      PutAllIs(s.references, x.list, q);
    }
  }

  /** Every step keeps the invariant. */
  lemma StepKeeps(s: State, ev: Event)
    requires Inv(s)
    ensures Inv(Step(s, ev))
  {
    if Enabled(s, ev) {
      var t := Step(s, ev);
      ContextKeeps(s, ev);
      ExclusiveKeeps(s, ev);
      ReferencesStep(s, ev, Key(0, 0));
      forall q ensures Value(t.references, q) == Users(t.contexts, q) {
        ReferencesStep(s, ev, q);
      }
      hide ContextOk, Exclusive, Counted, StepContext, Users, StepReferences, Enabled;
      CountedMade(t);
    }
  }
}
