/** Every step of the notification list keeps borrow accounting, the list and each walker's progress. */
module FileMappingProof {
  import opened FileMappings
  import opened Wrappers

  // ---------------------------------------------------------------- frames

  /** Stamps stay, and no mapping becomes listed. */
  ghost predicate SameMarks(ns: seq<Mapping>, ns': seq<Mapping>) {
    && |ns| <= |ns'|
    && (forall m :: 0 <= m < |ns| ==> ns'[m].stamp == ns[m].stamp && (ns'[m].listed ==> ns[m].listed))
    && (forall m :: |ns| <= m < |ns'| ==> !ns'[m].listed)
  }

  lemma MarksRetired(ns: seq<Mapping>, ns': seq<Mapping>, x: Mapping)
    requires SameMarks(ns, ns') && RetiredOk(ns, x)
    ensures RetiredOk(ns', x)
  {}

  lemma MarksComplete(ns: seq<Mapping>, ns': seq<Mapping>, k: Walker, bound: nat)
    requires SameMarks(ns, ns') && Complete(ns, k, bound)
    ensures Complete(ns', k, bound)
  {}

  lemma MarksAhead(ns: seq<Mapping>, ns': seq<Mapping>, k: Walker, o: Option<nat>)
    requires SameMarks(ns, ns') && AheadOf(ns, k, o)
    ensures AheadOf(ns', k, o)
  {
    hide Complete;
    MarksComplete(ns, ns', k, if o.Some? then ns[o.value].stamp + 1 else 0);
  }

  lemma MarksWalker(ns: seq<Mapping>, ns': seq<Mapping>, k: Walker)
    requires SameMarks(ns, ns') && WalkerOk(ns, k)
    ensures WalkerOk(ns', k)
  {
    hide Complete, AheadOf;
    assert History(ns', k);
    hide History;
    match k.phase
    case At(o) => MarksAhead(ns, ns', k, o);
    case Called(m) => MarksComplete(ns, ns', k, ns[m].stamp);
    case Leaving(_, o) => MarksAhead(ns, ns', k, o);
  }

  // ---------------------------------------------------------------- accounting

  lemma {:induction false} WalkerHolds(ws: seq<Walker>, i: nat, m: nat)
    requires i < |ws|
    ensures WalkerRefs(ws, m) >= WalkerRef(ws[i], m)
  {
    if i < |ws| - 1 {
      WalkerHolds(ws[..|ws| - 1], i, m);
    }
  }

  lemma {:induction false} RetiredHolds(ns: seq<Mapping>, i: nat, m: nat)
    requires i < |ns|
    ensures RetiredRefs(ns, m) >= Ref(ns[i].retired, m)
  {
    if i < |ns| - 1 {
      RetiredHolds(ns[..|ns| - 1], i, m);
    }
  }

  lemma {:induction false} SumAtLeast(ns: seq<Mapping>, i: nat)
    requires i < |ns|
    ensures SumBorrows(ns) >= ns[i].borrows
  {
    if i < |ns| - 1 {
      SumAtLeast(ns[..|ns| - 1], i);
    }
  }

  lemma BorrowAccount(ns: seq<Mapping>, ws: seq<Walker>, total: nat, o: Option<nat>)
    requires AccountOk(ns, ws, total, None) && (o.Some? ==> o.value < |ns|)
    ensures AccountOk(Borrowed(ns, o), ws, total + Extra(o), o)
  {
    if o.Some? {
      var x := Bump(ns, o.value)[o.value];
      hide WalkerRefs, RetiredRefs, SumBorrows;
      SumBorrowsUpdate(ns, o.value, x);
      forall m: nat | m < |ns| ensures RetiredRefs(Bump(ns, o.value), m) == RetiredRefs(ns, m) {
        RetiredRefsUpdate(ns, o.value, x, m);
      }
    }
  }

  /** Walker w takes over the held reference. */
  lemma WalkerTakes(ns: seq<Mapping>, ws: seq<Walker>, total: nat, o: Option<nat>, w: nat, k: Walker)
    requires AccountOk(ns, ws, total, o) && w < |ws|
    requires forall m: nat :: WalkerRef(k, m) == WalkerRef(ws[w], m) + Ref(o, m)
    ensures AccountOk(ns, ws[w := k], total, None)
  {
    hide WalkerRefs, RetiredRefs, SumBorrows, WalkerRef;
    forall m: nat | m < |ns| ensures WalkerRefs(ws[w := k], m) == WalkerRefs(ws, m) + Ref(o, m) {
      WalkerRefsUpdate(ws, w, k, m);
    }
  }

  /** Walker w hands its reference o over to be put. */
  lemma WalkerGives(ns: seq<Mapping>, ws: seq<Walker>, total: nat, o: Option<nat>, w: nat, k: Walker)
    requires AccountOk(ns, ws, total, None) && w < |ws|
    requires forall m: nat :: WalkerRef(k, m) + Ref(o, m) == WalkerRef(ws[w], m)
    ensures AccountOk(ns, ws[w := k], total, o)
  {
    hide WalkerRefs, RetiredRefs, SumBorrows, WalkerRef;
    forall m: nat | m < |ns| ensures WalkerRefs(ws[w := k], m) + Ref(o, m) == WalkerRefs(ws, m) {
      WalkerRefsUpdate(ws, w, k, m);
    }
  }

  // ---------------------------------------------------------------- put

  /** Lowering the borrows of one mapping, or clearing it, keeps the retired links sound. */
  lemma LowerRetired(ns: seq<Mapping>, i: nat, x: Mapping)
    requires Retireds(ns) && i < |ns| && x.listed == ns[i].listed && x.stamp == ns[i].stamp
    requires x.borrows < ns[i].borrows && (x.retired == ns[i].retired || x.retired.None?)
    requires x.borrows == 0 ==> x.retired.None?
    requires x.borrows > 0 ==> x.retired == ns[i].retired
    ensures Retireds(ns[i := x]) && SameMarks(ns, ns[i := x])
  {
    var ns' := ns[i := x];
    forall m | 0 <= m < |ns'| ensures RetiredOk(ns', ns'[m]) {
      assert RetiredOk(ns, ns[m]);
      if m != i {
        MarksRetired(ns, ns', ns[m]);
      }
    }
  }

  lemma DropAccount(ns: seq<Mapping>, ws: seq<Walker>, total: nat, m: nat, x: Mapping)
    requires AccountOk(ns, ws, total, Some(m)) && m < |ns| && x.borrows + 1 == ns[m].borrows
    requires x.retired == ns[m].retired || x.retired.None?
    ensures total > 0
    ensures AccountOk(ns[m := x], ws, total - 1, if x.retired == ns[m].retired then None else ns[m].retired)
  {
    hide WalkerRefs, RetiredRefs, SumBorrows;
    SumAtLeast(ns, m);
    SumBorrowsUpdate(ns, m, x);
    forall q: nat | q < |ns|
      ensures RetiredRefs(ns[m := x], q) == RetiredRefs(ns, q) - Ref(ns[m].retired, q) + Ref(x.retired, q)
    {
      RetiredRefsUpdate(ns, m, x, q);
    }
  }

  lemma HeldNode(ns: seq<Mapping>, ws: seq<Walker>, total: nat, m: nat)
    requires AccountOk(ns, ws, total, Some(m)) && Retireds(ns) && m < |ns|
    ensures ns[m].borrows > 0 && total > 0
    ensures ns[m].listed ==> ns[m].retired.None?
    ensures ns[m].retired.Some? ==> ns[m].retired.value < |ns|
  {
    SumAtLeast(ns, m);
    assert RetiredOk(ns, ns[m]);
  }

  /** What a segment of put may change. */
  ghost predicate Lowered(ns: seq<Mapping>, ns': seq<Mapping>) {
    && |ns'| == |ns|
    && (forall q ::
       0 <= q < |ns| ==>
           ns'[q].listed == ns[q].listed && ns'[q].stamp == ns[q].stamp && ns'[q].borrows <= ns[q].borrows)
  }

  lemma LowerOne(ns: seq<Mapping>, i: nat, x: Mapping)
    requires i < |ns| && x.listed == ns[i].listed && x.stamp == ns[i].stamp && x.borrows <= ns[i].borrows
    ensures Lowered(ns, ns[i := x])
  {}

  lemma LowerTwice(a: seq<Mapping>, b: seq<Mapping>, c: seq<Mapping>)
    requires Lowered(a, b) && Lowered(b, c)
    ensures Lowered(a, c)
  {}

  /** A segment of put gives one borrow back, follows retired links while it removes the last borrow of an
      unlinked mapping, and leaves exactly the returned mapping still to be put. */
  lemma {:induction false} DropKeeps(ns: seq<Mapping>, ws: seq<Walker>, total: nat, o: Option<nat>, n: nat)
    requires AccountOk(ns, ws, total, o) && Retireds(ns) && (o.Some? ==> o.value < |ns|)
    ensures var (ns', total', rest) := Drop(ns, total, o, n);
            && AccountOk(ns', ws, total', rest) && Retireds(ns') && Lowered(ns, ns')
            && (rest.Some? ==> rest.value < |ns'|) && (o.Some? && n > 0 ==> total' < total)
    decreases n
  {
    hide AccountOk, Retireds, Lowered;
    if o.Some? && n > 0 {
      var m := o.value;
      var x := ns[m];
      HeldNode(ns, ws, total, m);
      var y := Mapping(x.listed, if x.borrows > 1 || x.listed then x.retired else None, x.borrows - 1, x.stamp);
      DropAccount(ns, ws, total, m, y);
      LowerRetired(ns, m, y);
      LowerOne(ns, m, y);
      if !(x.borrows > 1 || x.listed) {
        DropKeeps(ns[m := y], ws, total - 1, x.retired, n - 1);
        LowerTwice(ns, ns[m := y], Drop(ns, total, o, n).0);
      }
    } else {
      LowerNone(ns);
    }
  }

  lemma LowerNone(ns: seq<Mapping>)
    ensures Lowered(ns, ns)
  {}

  // ---------------------------------------------------------------- steps

  lemma BorrowRetired(ns: seq<Mapping>, o: Option<nat>)
    requires Retireds(ns) && (o.Some? ==> o.value < |ns| && Live(ns[o.value]))
    ensures Retireds(Borrowed(ns, o)) && SameMarks(ns, Borrowed(ns, o))
    ensures |Borrowed(ns, o)| == |ns|
    ensures forall m :: 0 <= m < |ns| ==>
              Borrowed(ns, o)[m].listed == ns[m].listed && Borrowed(ns, o)[m].stamp == ns[m].stamp
              && Live(Borrowed(ns, o)[m]) == Live(ns[m])
  {
    if o.Some? {
      var ns', x := Bump(ns, o.value), ns[o.value];
      forall m | 0 <= m < |ns'| ensures RetiredOk(ns', ns'[m]) {
        assert RetiredOk(ns, ns[m]);
        if m != o.value {
          MarksRetired(ns, ns', ns[m]);
        }
      }
    }
  }

  /** Frame for steps that change borrows, walkers and retired links only. */
  lemma ListFrame(s: State, t: State)
    requires ListOk(s) && t.list == s.list && t.clock == s.clock && |t.nodes| == |s.nodes|
    requires forall m :: 0 <= m < |s.nodes| ==>
               t.nodes[m].listed == s.nodes[m].listed && t.nodes[m].stamp == s.nodes[m].stamp
               && (Live(t.nodes[m]) ==> Live(s.nodes[m]))
    ensures ListOk(t)
  {}

  lemma WalkersFrame(s: State, t: State)
    requires Inv(s) && SameMarks(s.nodes, t.nodes)
    ensures forall w :: 0 <= w < |s.walkers| ==> WalkerOk(t.nodes, s.walkers[w])
  {
    hide WalkerOk, AccountOk, ListOk, Retireds;
    forall w | 0 <= w < |s.walkers| ensures WalkerOk(t.nodes, s.walkers[w]) {
      MarksWalker(s.nodes, t.nodes, s.walkers[w]);
    }
  }

  lemma WalkerIsLive(s: State, w: nat, m: nat)
    requires AccountOk(s.nodes, s.walkers, s.total, None) && w < |s.walkers| && m < |s.nodes|
              && WalkerRef(s.walkers[w], m) > 0
    ensures s.nodes[m].borrows > 0
  {
    WalkerHolds(s.walkers, w, m);
  }

  /** Where a walker on m goes: an older live mapping, with no older listed mapping in between. */
  ghost predicate GoesTo(ns: seq<Mapping>, m: nat, o: Option<nat>)
    requires m < |ns|
  {
    && (o.Some? ==> o.value < |ns| && Live(ns[o.value]) && ns[o.value].stamp < ns[m].stamp)
    && (forall z :: 0 <= z < |ns| && ns[z].listed && ns[z].stamp < ns[m].stamp ==>
          o.Some? && ns[z].stamp <= ns[o.value].stamp)
  }

  lemma FollowingGoesTo(s: State, i: nat)
    requires ListOk(s) && i < |s.list|
    ensures GoesTo(s.nodes, s.list[i], Following(s.list, i))
  {
    forall z | 0 <= z < |s.nodes| && s.nodes[z].listed && s.nodes[z].stamp < s.nodes[s.list[i]].stamp
      ensures i + 1 < |s.list| && s.nodes[z].stamp <= s.nodes[s.list[i + 1]].stamp
    {
      var j :| 0 <= j < |s.list| && s.list[j] == z;
      assert j > i;
    }
  }

  lemma SuccessorGoesTo(s: State, m: nat)
    requires AccountOk(s.nodes, s.walkers, s.total, None) && ListOk(s) && Retireds(s.nodes)
    requires m < |s.nodes| && Live(s.nodes[m])
    ensures GoesTo(s.nodes, m, Successor(s, m))
  {
    if m in s.list {
      FollowingGoesTo(s, IndexOf(s.list, m));
    } else {
      assert RetiredOk(s.nodes, s.nodes[m]);
      var o := s.nodes[m].retired;
      if o.Some? {
        RetiredHolds(s.nodes, m, o.value);
      }
    }
  }

  lemma AdvancedWalker(ns: seq<Mapping>, k: Walker, m: nat, o: Option<nat>)
    requires k.phase == Called(m) && WalkerOk(ns, k) && GoesTo(ns, m, o)
    ensures WalkerOk(ns, Walker(Leaving(Some(m), o), k.start, k.seen, k.called))
  {}

  lemma CalledWithin(ns: seq<Mapping>, k: Walker)
    requires WalkerOk(ns, k)
    ensures k.phase.Called? ==> k.phase.on < |ns|
    ensures k.phase.Leaving? && k.phase.put.Some? ==> k.phase.put.value < |ns|
  {}

  lemma LiveIfBorrowed(x: Mapping)
    requires x.borrows > 0
    ensures Live(x)
  {}

  lemma GoesToLive(ns: seq<Mapping>, m: nat, o: Option<nat>)
    requires m < |ns| && GoesTo(ns, m, o)
    ensures o.Some? ==> o.value < |ns| && Live(ns[o.value])
  {}

  lemma AdvanceKeeps(s: State, w: nat)
    requires Inv(s) && Enabled(s, Advance(w))
    ensures Inv(Step(s, Advance(w)))
  {
    hide AccountOk, ListOk, Retireds, WalkerOk, Borrowed, SameMarks, GoesTo, Live;
    var t, k := Step(s, Advance(w)), s.walkers[w];
    assert WalkerOk(s.nodes, k);
    CalledWithin(s.nodes, k);
    var m := k.phase.on;
    var o := Successor(s, m);
    var k' := Walker(Leaving(Some(m), o), k.start, k.seen, k.called);
    WalkerIsLive(s, w, m);
    LiveIfBorrowed(s.nodes[m]);
    SuccessorGoesTo(s, m);
    GoesToLive(s.nodes, m, o);
    AdvancedWalker(s.nodes, k, m, o);
    BorrowRetired(s.nodes, o);
    ListFrame(s, t);
    WalkersFrame(s, t);
    MarksWalker(s.nodes, t.nodes, k');
    BorrowAccount(s.nodes, s.walkers, s.total, o);
    WalkerTakes(t.nodes, s.walkers, t.total, o, w, k');
  }

  function Checked(x: Mapping, m: nat, k: Walker): Walker {
    if x.listed then Walker(Called(m), k.start, k.seen + [x.stamp], k.called + [m])
        else Walker(Called(m), k.start, k.seen, k.called)
  }

  lemma CheckedHistory(ns: seq<Mapping>, k: Walker, m: nat)
    requires m < |ns| && k.phase == At(Some(m)) && WalkerOk(ns, k)
    ensures History(ns, Checked(ns[m], m, k))
  {}

  lemma CheckedComplete(ns: seq<Mapping>, clock: nat, k: Walker, m: nat)
    requires Stamped(ns, clock) && m < |ns| && Live(ns[m]) && Complete(ns, k, ns[m].stamp + 1)
    ensures Complete(ns, Checked(ns[m], m, k), ns[m].stamp)
  {
    var k' := Checked(ns[m], m, k);
    forall z | 0 <= z < |ns| && ns[z].listed && ns[z].stamp < k.start
      ensures z in k'.called || ns[z].stamp < ns[m].stamp
    {
      if ns[z].stamp == ns[m].stamp {
        assert z == m;
        assert k'.called[|k.called|] == m;
      } else if z in k.called {
        var j :| 0 <= j < |k.called| && k.called[j] == z;
        assert k'.called[j] == z;
      }
    }
  }

  lemma CheckedWalker(s: State, k: Walker, m: nat)
    requires ListOk(s) && m < |s.nodes| && k.phase == At(Some(m)) && WalkerOk(s.nodes, k) && Live(s.nodes[m])
    ensures WalkerOk(s.nodes, Checked(s.nodes[m], m, k))
  {
    CheckedHistory(s.nodes, k, m);
    hide History, Complete, Listing, Stamped, Live;
    CheckedComplete(s.nodes, s.clock, k, m);
  }

  lemma CheckKeeps(s: State, w: nat)
    requires Inv(s) && Enabled(s, Check(w))
    ensures Inv(Step(s, Check(w)))
  {
    hide ListOk, Retireds, WalkerOk;
    var t, k := Step(s, Check(w)), s.walkers[w];
    assert WalkerOk(s.nodes, k);
    var m := k.phase.at.value;
    WalkerIsLive(s, w, m);
    CheckedWalker(s, k, m);
    assert t.walkers[w] == Checked(s.nodes[m], m, k);
    ListFrame(s, t);
    WalkerTakes(s.nodes, s.walkers, s.total, None, w, t.walkers[w]);
  }

  lemma FirstLive(s: State)
    requires ListOk(s) && s.list != []
    ensures s.list[0] < |s.nodes| && Live(s.nodes[s.list[0]])
  {}

  lemma AppendWalker(ns: seq<Mapping>, ws: seq<Walker>, total: nat, o: Option<nat>, k: Walker)
    requires AccountOk(ns, ws, total, o) && k.phase == At(o)
    ensures AccountOk(ns, ws + [k], total, None)
  {
    hide RetiredRefs, SumBorrows;
    forall m: nat ensures WalkerRefs(ws + [k], m) == WalkerRefs(ws, m) + Ref(o, m) {
      assert (ws + [k])[..|ws|] == ws;
    }
  }

  lemma StartKeeps(s: State)
    requires Inv(s)
    ensures Inv(Step(s, Start))
  {
    hide AccountOk, ListOk, Retireds, WalkerOk, Borrowed, SameMarks, Live;
    var t, o := Step(s, Start), First(s.list);
    var k := t.walkers[|s.walkers|];
    if s.list != [] {
      FirstLive(s);
    }
    BorrowRetired(s.nodes, o);
    ListFrame(s, t);
    WalkersFrame(s, t);
    BorrowAccount(s.nodes, s.walkers, s.total, o);
    AppendWalker(t.nodes, s.walkers, t.total, o, k);
    StartedWalker(s, k);
    MarksWalker(s.nodes, t.nodes, k);
  }

  lemma StartedWalker(s: State, k: Walker)
    requires ListOk(s) && k == Walker(At(First(s.list)), s.clock, [], [])
    ensures WalkerOk(s.nodes, k)
  {
    forall z | 0 <= z < |s.nodes| && s.nodes[z].listed
      ensures s.list != [] && s.nodes[z].stamp <= s.nodes[s.list[0]].stamp
    {
      var j :| 0 <= j < |s.list| && s.list[j] == z;
    }
  }

  lemma PuttingWalker(ns: seq<Mapping>, k: Walker, rest: Option<nat>)
    requires WalkerOk(ns, k) && k.phase.Leaving? && (rest.Some? ==> rest.value < |ns|)
    ensures WalkerOk(ns,
                     Walker(if rest.Some? then Leaving(rest, k.phase.next)
                         else At(k.phase.next), k.start, k.seen, k.called))
  {
    var k' := Walker(if rest.Some? then Leaving(rest, k.phase.next) else At(k.phase.next), k.start, k.seen, k.called);
    assert AheadOf(ns, k', k.phase.next);
  }

  lemma LoweredMarks(s: State, t: State)
    requires ListOk(s) && Lowered(s.nodes, t.nodes) && t.list == s.list && t.clock == s.clock
    ensures SameMarks(s.nodes, t.nodes) && ListOk(t)
  {
    ListFrame(s, t);
  }

  lemma PutKeeps(s: State, w: nat)
    requires Inv(s) && Enabled(s, Put(w))
    ensures Inv(Step(s, Put(w)))
  {
    hide AccountOk, ListOk, Retireds, WalkerOk, Lowered, SameMarks, Live, Drop;
    var t, k := Step(s, Put(w)), s.walkers[w];
    var o, next := k.phase.put, k.phase.next;
    var k1 := Walker(Leaving(None, next), k.start, k.seen, k.called);
    var ws1 := s.walkers[w := k1];
    assert WalkerOk(s.nodes, k);
    CalledWithin(s.nodes, k);
    WalkerGives(s.nodes, s.walkers, s.total, o, w, k1);
    DropKeeps(s.nodes, ws1, s.total, o, SEGMENT);
    var (ns, total, rest) := Drop(s.nodes, s.total, o, SEGMENT);
    var k2 := Walker(if rest.Some? then Leaving(rest, next) else At(next), k.start, k.seen, k.called);
    assert ws1[w := k2] == s.walkers[w := k2];
    WalkerTakes(ns, ws1, total, rest, w, k2);
    LoweredMarks(s, t);
    WalkersFrame(s, t);
    PuttingWalker(ns, k, rest);
  }

  // ---------------------------------------------------------------- unlinking

  /** The mapping that stop leaves behind, before its successor is borrowed. */
  function Unlinked(s: State, m: nat): (x: Mapping)
    requires m < |s.nodes| && m in s.list
  {
    Mapping(false, if s.nodes[m].borrows > 0 then Following(s.list, IndexOf(s.list, m)) else None,
            s.nodes[m].borrows, s.nodes[m].stamp)
  }

  lemma WithoutList(ns: seq<Mapping>, ns': seq<Mapping>, list: seq<nat>, i: nat)
    requires Listing(ns, list) && i < |list| && |ns'| == |ns|
    requires forall q ::
              0 <= q < |ns| ==> ns'[q].stamp == ns[q].stamp && ns'[q].listed == (ns[q].listed && q != list[i])
    ensures Listing(ns', Without(list, i))
  {
    var list' := Without(list, i);
    forall j | 0 <= j < |list'| ensures list'[j] == list[if j < i then j else j + 1] && list'[j] != list[i] {
      var j' := if j < i then j else j + 1;
      assert j' < i || i < j';
    }
    forall q | 0 <= q < |ns'| && ns'[q].listed ensures q in list' {
      var j :| 0 <= j < |list| && list[j] == q;
      assert list'[if j < i then j else j - 1] == q;
    }
  }

  lemma StopRetired(s: State, m: nat)
    requires ListOk(s) && Retireds(s.nodes) && m in s.list
    ensures m < |s.nodes| && Retireds(s.nodes[m := Unlinked(s, m)]) && SameMarks(s.nodes, s.nodes[m := Unlinked(s, m)])
    ensures Unlinked(s, m).retired.Some? ==>
              && Unlinked(s, m).retired.value < |s.nodes| && Unlinked(s, m).retired.value != m
              && s.nodes[Unlinked(s, m).retired.value].listed
  {
    var i := IndexOf(s.list, m);
    var x := Unlinked(s, m);
    var ns := s.nodes[m := x];
    FollowingGoesTo(s, i);
    forall q | 0 <= q < |ns| ensures RetiredOk(ns, ns[q]) {
      assert RetiredOk(s.nodes, s.nodes[q]);
      if q != m {
        MarksRetired(s.nodes, ns, s.nodes[q]);
      }
    }
  }

  lemma StopAccount(s: State, m: nat, next: Option<nat>)
    requires AccountOk(s.nodes, s.walkers, s.total, None) && m < |s.nodes| && s.nodes[m].retired.None?
    requires next.Some? ==> next.value < |s.nodes| && next.value != m
    ensures AccountOk(Borrowed(s.nodes[m := Mapping(false, next, s.nodes[m].borrows, s.nodes[m].stamp)], next),
                      s.walkers, s.total + Extra(next), None)
  {
    hide WalkerRefs, RetiredRefs, SumBorrows;
    var x := Mapping(false, next, s.nodes[m].borrows, s.nodes[m].stamp);
    var n1 := s.nodes[m := x];
    SumBorrowsUpdate(s.nodes, m, x);
    forall q: nat | q < |n1| ensures RetiredRefs(n1, q) == RetiredRefs(s.nodes, q) + Ref(next, q) {
      RetiredRefsUpdate(s.nodes, m, x, q);
    }
    if next.Some? {
      var y := Bump(n1, next.value)[next.value];
      SumBorrowsUpdate(n1, next.value, y);
      forall q: nat | q < |n1| ensures RetiredRefs(Bump(n1, next.value), q) == RetiredRefs(n1, q) {
        RetiredRefsUpdate(n1, next.value, y, q);
      }
    }
  }

  lemma ListedRetiresNone(s: State, m: nat)
    requires ListOk(s) && Retireds(s.nodes) && m in s.list
    ensures m < |s.nodes| && s.nodes[m].listed && s.nodes[m].retired.None?
  {
    assert RetiredOk(s.nodes, s.nodes[s.list[IndexOf(s.list, m)]]);
  }

  lemma MarksTwice(a: seq<Mapping>, b: seq<Mapping>, c: seq<Mapping>)
    requires SameMarks(a, b) && SameMarks(b, c)
    ensures SameMarks(a, c)
  {}

  lemma StopKeeps(s: State, m: nat)
    requires Inv(s) && Enabled(s, Stop(m))
    ensures Inv(Step(s, Stop(m)))
  {
    hide AccountOk, Listing, Stamped, Retireds, WalkerOk, Borrowed, SameMarks, IndexOf, Following, Without, RetiredOk;
    var t, x := Step(s, Stop(m)), Unlinked(s, m);
    var n1 := s.nodes[m := x];
    ListedRetiresNone(s, m);
    StopRetired(s, m);
    BorrowRetired(n1, x.retired);
    MarksTwice(s.nodes, n1, t.nodes);
    StopAccount(s, m, x.retired);
    WithoutList(s.nodes, t.nodes, s.list, IndexOf(s.list, m));
    StampedFrame(s.nodes, t.nodes, s.clock);
    WalkersFrame(s, t);
  }

  lemma StampedFrame(ns: seq<Mapping>, ns': seq<Mapping>, clock: nat)
    requires Stamped(ns, clock) && |ns'| == |ns|
    requires forall m :: 0 <= m < |ns| ==> ns'[m].stamp == ns[m].stamp && (Live(ns'[m]) ==> Live(ns[m]))
    ensures Stamped(ns', clock)
  {}

  // ---------------------------------------------------------------- registering

  lemma {:induction false} NoWalkerRefs(ns: seq<Mapping>, ws: seq<Walker>, m: nat)
    requires |ns| <= m && forall w :: 0 <= w < |ws| ==> WalkerOk(ns, ws[w])
    ensures WalkerRefs(ws, m) == 0
  {
    if ws != [] {
      NoWalkerRefs(ns, ws[..|ws| - 1], m);
      assert WalkerOk(ns, ws[|ws| - 1]);
    }
  }

  lemma {:induction false} NoRetiredRefs(ns: seq<Mapping>, part: seq<Mapping>, m: nat)
    requires |ns| <= m && forall q :: 0 <= q < |part| ==> RetiredOk(ns, part[q])
    ensures RetiredRefs(part, m) == 0
  {
    if part != [] {
      NoRetiredRefs(ns, part[..|part| - 1], m);
      assert RetiredOk(ns, part[|part| - 1]);
    }
  }

  lemma CreateAccount(s: State, x: Mapping)
    requires Inv(s) && x.retired.None? && x.borrows == 0
    ensures AccountOk(s.nodes + [x], s.walkers, s.total, None)
  {
    hide AccountOk, WalkerOk, RetiredOk, ListOk;
    NoWalkerRefs(s.nodes, s.walkers, |s.nodes|);
    NoRetiredRefs(s.nodes, s.nodes, |s.nodes|);
    AppendAccount(s.nodes, s.walkers, s.total, x);
  }

  lemma AppendAccount(ns: seq<Mapping>, ws: seq<Walker>, total: nat, x: Mapping)
    requires AccountOk(ns, ws, total, None) && x.retired.None? && x.borrows == 0
    requires WalkerRefs(ws, |ns|) == 0 && RetiredRefs(ns, |ns|) == 0
    ensures AccountOk(ns + [x], ws, total, None)
  {
    hide WalkerRefs;
    var n, ns' := |ns|, ns + [x];
    assert ns'[..n] == ns;
    forall m: nat ensures RetiredRefs(ns', m) == RetiredRefs(ns, m) {}
    assert SumBorrows(ns') == SumBorrows(ns);
    hide RetiredRefs, SumBorrows;
  }

  lemma CreateKeeps(s: State)
    requires Inv(s)
    ensures Inv(Step(s, Create))
  {
    hide Complete, History, RetiredOk;
    var t := Step(s, Create);
    CreateAccount(s, Mapping(false, None, 0, 0));
    CreateRetired(s.nodes, Mapping(false, None, 0, 0));
    hide AccountOk, WalkerOk, RetiredOk, Retireds;
    WalkersFrame(s, t);
  }

  lemma CreateRetired(ns: seq<Mapping>, x: Mapping)
    requires Retireds(ns) && !Live(x) && x.retired.None?
    ensures Retireds(ns + [x])
  {
    var ns' := ns + [x];
    forall q | 0 <= q < |ns'| ensures RetiredOk(ns', ns'[q]) {
      if q < |ns| {
        assert RetiredOk(ns, ns[q]);
        MarksRetired(ns, ns', ns[q]);
      }
    }
  }

  /** A mapping without borrows is referred to by no walker and by no retired mapping. */
  lemma Unreachable(s: State, m: nat)
    requires AccountOk(s.nodes, s.walkers, s.total, None) && m < |s.nodes| && s.nodes[m].borrows == 0
    ensures forall w :: 0 <= w < |s.walkers| ==> WalkerRef(s.walkers[w], m) == 0
    ensures forall q :: 0 <= q < |s.nodes| ==> s.nodes[q].retired != Some(m)
  {
    forall w | 0 <= w < |s.walkers| ensures WalkerRef(s.walkers[w], m) == 0 {
      WalkerHolds(s.walkers, w, m);
    }
    forall q | 0 <= q < |s.nodes| ensures s.nodes[q].retired != Some(m) {
      RetiredHolds(s.nodes, q, m);
    }
  }

  lemma RegisteredComplete(s: State, m: nat, k: Walker, bound: nat)
    requires m < |s.nodes| && Complete(s.nodes, k, bound) && k.start <= s.clock
    ensures Complete(s.nodes[m := Mapping(true, None, 0, s.clock)], k, bound)
  {}

  lemma RegisteredWalker(s: State, m: nat, k: Walker)
    requires m < |s.nodes| && WalkerOk(s.nodes, k) && WalkerRef(k, m) == 0 && k.start <= s.clock
    ensures WalkerOk(s.nodes[m := Mapping(true, None, 0, s.clock)], k)
  {
    hide Complete;
    assert History(s.nodes[m := Mapping(true, None, 0, s.clock)], k);
    hide History;
    match k.phase
    case At(o) => RegisteredComplete(s, m, k, if o.Some? then s.nodes[o.value].stamp + 1 else 0);
    case Called(q) => RegisteredComplete(s, m, k, s.nodes[q].stamp);
    case Leaving(_, o) => RegisteredComplete(s, m, k, if o.Some? then s.nodes[o.value].stamp + 1 else 0);
  }

  lemma RegisteredRetired(s: State, m: nat, x: Mapping)
    requires m < |s.nodes| && RetiredOk(s.nodes, x) && x.retired != Some(m) && (Live(x) ==> x.stamp < s.clock)
    ensures RetiredOk(s.nodes[m := Mapping(true, None, 0, s.clock)], x)
  {}

  lemma RegisteredList(s: State, t: State, m: nat)
    requires ListOk(s) && m < |s.nodes| && !Live(s.nodes[m])
    requires t.nodes == s.nodes[m := Mapping(true, None, 0, s.clock)] && t.list == [m] + s.list
              && t.clock == s.clock + 1
    ensures ListOk(t)
  {
    assert forall j :: 0 < j < |t.list| ==> t.list[j] == s.list[j - 1];
    forall q | 0 <= q < |t.nodes| && t.nodes[q].listed ensures q in t.list {
      if q != m {
        assert q in s.list;
      }
    }
  }

  lemma RegisterAccount(s: State, m: nat)
    requires AccountOk(s.nodes, s.walkers, s.total, None) && m < |s.nodes| && s.nodes[m].borrows == 0
              && s.nodes[m].retired.None?
    ensures AccountOk(s.nodes[m := Mapping(true, None, 0, s.clock)], s.walkers, s.total, None)
  {
    hide WalkerRefs, RetiredRefs, SumBorrows;
    var x := Mapping(true, None, 0, s.clock);
    SumBorrowsUpdate(s.nodes, m, x);
    forall q: nat | q < |s.nodes| ensures RetiredRefs(s.nodes[m := x], q) == RetiredRefs(s.nodes, q) {
      RetiredRefsUpdate(s.nodes, m, x, q);
    }
  }

  lemma RegisterRetireds(s: State, m: nat)
    requires Retireds(s.nodes) && ListOk(s) && m < |s.nodes|
              && forall q :: 0 <= q < |s.nodes| ==> s.nodes[q].retired != Some(m)
    ensures Retireds(s.nodes[m := Mapping(true, None, 0, s.clock)])
  {
    var ns := s.nodes[m := Mapping(true, None, 0, s.clock)];
    assert Stamped(s.nodes, s.clock);
    hide RetiredOk, ListOk;
    forall q | 0 <= q < |ns| ensures RetiredOk(ns, ns[q]) {
      if q != m {
        RegisteredRetired(s, m, s.nodes[q]);
      } else {
        NewRetired(ns, ns[m]);
      }
    }
  }

  lemma RegisterKeeps(s: State, m: nat)
    requires Inv(s) && Enabled(s, Register(m)) && !s.closing
    ensures Inv(Step(s, Register(m)))
  {
    hide AccountOk, ListOk, Retireds, WalkerOk, WalkerRef;
    var t := Step(s, Register(m));
    IdleRetiresNone(s.nodes, m);
    Unreachable(s, m);
    RegisteredList(s, t, m);
    RegisterAccount(s, m);
    RegisterRetireds(s, m);
    forall w | 0 <= w < |t.walkers| ensures WalkerOk(t.nodes, t.walkers[w]) {
      RegisteredWalker(s, m, s.walkers[w]);
    }
  }

  lemma IdleRetiresNone(ns: seq<Mapping>, m: nat)
    requires Retireds(ns) && m < |ns| && ns[m].borrows == 0
    ensures ns[m].retired.None?
  {
    assert RetiredOk(ns, ns[m]);
  }

  lemma NewRetired(ns: seq<Mapping>, x: Mapping)
    requires x.listed && x.retired.None?
    ensures RetiredOk(ns, x)
  {}

  // ---------------------------------------------------------------- runs

  lemma GateKeeps(s: State, closing: bool)
    requires Inv(s)
    ensures Inv(Step(s, Gate(closing)))
  {
    hide AccountOk, Retireds, WalkerOk, Listing, Stamped;
  }

  /** Every step keeps the invariant. */
  lemma StepKeeps(s: State, ev: Event)
    requires Inv(s)
    ensures Inv(Step(s, ev))
  {
    hide Inv, Enabled, Step;
    if !Enabled(s, ev) {
      Disabled(s, ev);
    } else {
      match ev
      case Create => CreateKeeps(s);
      case Register(m) =>
        if s.closing {
          ClosedRegister(s, m);
        } else {
          RegisterKeeps(s, m);
        }
      case Stop(m) => StopKeeps(s, m);
      case Start => StartKeeps(s);
      case Check(w) => CheckKeeps(s, w);
      case Advance(w) => AdvanceKeeps(s, w);
      case Put(w) => PutKeeps(s, w);
      case Gate(closing) => GateKeeps(s, closing);
    }
  }

  lemma Disabled(s: State, ev: Event)
    requires !Enabled(s, ev)
    ensures Step(s, ev) == s
  {}

  lemma ClosedRegister(s: State, m: nat)
    requires s.closing
    ensures Step(s, Register(m)) == s
  {}

  function Run(s: State, evs: seq<Event>): State {
    if evs == [] then s else Step(Run(s, evs[..|evs| - 1]), evs[|evs| - 1])
  }

  const EMPTY := State([], [], [], 0, false, 0)

  lemma {:induction false} RunKeeps(s: State, evs: seq<Event>)
    requires Inv(s)
    ensures Inv(Run(s, evs))
  {
    hide Inv, Step;
    if evs != [] {
      RunKeeps(s, evs[..|evs| - 1]);
      StepKeeps(Run(s, evs[..|evs| - 1]), evs[|evs| - 1]);
    }
  }

  lemma PutLowers(s: State, w: nat)
    requires Inv(s) && Enabled(s, Put(w))
    ensures Lowered(s.nodes, Step(s, Put(w)).nodes) && Step(s, Put(w)).total < s.total
  {
    var k := s.walkers[w];
    var k1 := Walker(Leaving(None, k.phase.next), k.start, k.seen, k.called);
    hide AccountOk, ListOk, Retireds, WalkerOk, Lowered, Drop;
    assert WalkerOk(s.nodes, k);
    CalledWithin(s.nodes, k);
    WalkerGives(s.nodes, s.walkers, s.total, k.phase.put, w, k1);
    DropKeeps(s.nodes, s.walkers[w := k1], s.total, k.phase.put, SEGMENT);
  }

  /** A listed mapping stays listed in the same registration until it is stopped. */
  lemma StaysListed(s: State, ev: Event, z: nat)
    requires Inv(s) && z < |s.nodes| && s.nodes[z].listed && ev != Stop(z)
    ensures var t := Step(s, ev); z < |t.nodes| && t.nodes[z].listed && t.nodes[z].stamp == s.nodes[z].stamp
  {
    hide Inv, Drop, IndexOf, Without, Following;
    if ev.Put? && Enabled(s, ev) {
      PutLowers(s, ev.w);
    }
  }

  /** A walker keeps its start and only adds to what it called. */
  lemma WalkerStays(s: State, ev: Event, w: nat)
    requires w < |s.walkers|
    ensures var t := Step(s, ev); w < |t.walkers| && t.walkers[w].start == s.walkers[w].start
  {
    hide Drop, IndexOf, Without, Following, Borrowed;
  }

  lemma {:induction false} ListedThroughout(s: State, evs: seq<Event>, z: nat, w: nat)
    requires Inv(s) && z < |s.nodes| && s.nodes[z].listed && w < |s.walkers| && Stop(z) !in evs
    ensures var t := Run(s, evs);
            && z < |t.nodes| && t.nodes[z].listed && t.nodes[z].stamp == s.nodes[z].stamp
            && w < |t.walkers| && t.walkers[w].start == s.walkers[w].start
  {
    hide Inv, Step;
    if evs != [] {
      var short := evs[..|evs| - 1];
      assert Stop(z) !in short;
      ListedThroughout(s, short, z, w);
      RunKeeps(s, short);
      StaysListed(Run(s, short), evs[|evs| - 1], z);
      WalkerStays(Run(s, short), evs[|evs| - 1], w);
    }
  }

  lemma EmptyOk()
    ensures Inv(EMPTY)
  {}

  /** A mapping that is registered for the whole of a pass is called exactly once by it. */
  lemma CalledExactlyOnce(pre: seq<Event>, post: seq<Event>, z: nat)
    requires var s := Run(EMPTY, pre); z < |s.nodes| && s.nodes[z].listed
    requires Stop(z) !in post
    ensures var s := Run(EMPTY, pre);
            var t := Run(Step(s, Start), post);
            var w := |s.walkers|;
            && w < |t.walkers|
            && (t.walkers[w].phase == At(None) ==>
                  exists j :: 0 <= j < |t.walkers[w].called| && t.walkers[w].called[j] == z
                              && forall i :: 0 <= i < |t.walkers[w].called| && t.walkers[w].called[i] == z ==> i == j)
  {
    hide *;
    var s := Run(EMPTY, pre);
    var w := |s.walkers|;
    EmptyOk();
    RunKeeps(EMPTY, pre);
    StepKeeps(s, Start);
    StartedPass(s, z);
    StaysListed(s, Start, z);
    ListedThroughout(Step(s, Start), post, z, w);
    RunKeeps(Step(s, Start), post);
    var t := Run(Step(s, Start), post);
    if t.walkers[w].phase == At(None) {
      FinishedPass(t, w, z);
    }
  }

  lemma StartedPass(s: State, z: nat)
    requires Inv(s) && z < |s.nodes| && s.nodes[z].listed
    ensures |Step(s, Start).walkers| == |s.walkers| + 1
    ensures s.nodes[z].stamp < Step(s, Start).walkers[|s.walkers|].start
  {}

  lemma FinishedPass(t: State, w: nat, z: nat)
    requires Inv(t) && w < |t.walkers| && z < |t.nodes| && t.nodes[z].listed && t.nodes[z].stamp < t.walkers[w].start
    requires t.walkers[w].phase == At(None)
    ensures exists j :: 0 <= j < |t.walkers[w].called| && t.walkers[w].called[j] == z
              && forall i :: 0 <= i < |t.walkers[w].called| && t.walkers[w].called[i] == z ==> i == j
  {
    var k := t.walkers[w];
    assert WalkerOk(t.nodes, k);
    assert z in k.called;
    var j :| 0 <= j < |k.called| && k.called[j] == z;
    hide Inv;
    assert forall i :: 0 <= i < |k.called| && k.called[i] == z ==> i == j;
  }

  /** No pass calls a mapping twice, not even one that was unregistered and registered again. */
  lemma NeverCalledTwice(evs: seq<Event>, w: nat)
    requires w < |Run(EMPTY, evs).walkers|
    ensures var k := Run(EMPTY, evs).walkers[w]; forall i, j :: 0 <= i < j < |k.called| ==> k.called[i] != k.called[j]
  {
    EmptyOk();
    RunKeeps(EMPTY, evs);
    assert WalkerOk(Run(EMPTY, evs).nodes, Run(EMPTY, evs).walkers[w]);
  }

  /** Each mapping's borrows are the walkers on it plus the retired predecessors that point at it, and the
      total is their sum. */
  lemma BorrowsAreReferences(evs: seq<Event>)
    ensures var s := Run(EMPTY, evs);
            && (forall m ::
               0 <= m < |s.nodes| ==> s.nodes[m].borrows == WalkerRefs(s.walkers, m) + RetiredRefs(s.nodes, m))
            && s.total == SumBorrows(s.nodes)
  {
    hide *;
    EmptyOk();
    RunKeeps(EMPTY, evs);
    Accounts(Run(EMPTY, evs));
  }

  lemma Accounts(s: State)
    requires Inv(s)
    ensures forall m :: 0 <= m < |s.nodes| ==> s.nodes[m].borrows == WalkerRefs(s.walkers, m) + RetiredRefs(s.nodes, m)
    ensures s.total == SumBorrows(s.nodes)
  {
    hide WalkerRefs, RetiredRefs, SumBorrows, ListOk, Retireds, WalkerOk;
  }

  // ---------------------------------------------------------------- draining

  /** The condition drain waits for. */
  predicate Drained(s: State, m: nat) {
    m < |s.nodes| && !s.nodes[m].listed && s.nodes[m].borrows == 0
  }

  lemma BorrowsLive(ns: seq<Mapping>, o: Option<nat>, m: nat)
    requires m < |ns| && o != Some(m)
    ensures Borrowed(ns, o)[m] == ns[m]
  {}

  lemma NotInList(s: State, m: nat)
    requires ListOk(s) && m < |s.nodes| && !s.nodes[m].listed
    ensures m !in s.list
  {}

  lemma DrainedAdvance(s: State, w: nat, m: nat)
    requires Inv(s) && Drained(s, m) && Enabled(s, Advance(w))
    ensures Drained(Step(s, Advance(w)), m)
  {
    hide Drop, IndexOf, Without, AccountOk, Retireds, WalkerOk, Listing, Stamped, Successor, Following;
    var q := s.walkers[w].phase.on;
    WalkerIsLive(s, w, q);
    SuccessorGoesTo(s, q);
  }

  lemma DrainedStop(s: State, z: nat, m: nat)
    requires Inv(s) && Drained(s, m) && Enabled(s, Stop(z))
    ensures Drained(Step(s, Stop(z)), m)
  {
    hide Drop, IndexOf, Without, AccountOk, Retireds, WalkerOk, Listing, Stamped, Following, Borrowed;
    NotInList(s, m);
    ListedRetiresNone(s, z);
    StopRetired(s, z);
    BorrowsLive(s.nodes[z := Unlinked(s, z)], Unlinked(s, z).retired, m);
    SameNodes(s.nodes[z := Unlinked(s, z)], Unlinked(s, z).retired);
  }

  lemma SameNodes(ns: seq<Mapping>, o: Option<nat>)
    ensures |Borrowed(ns, o)| == |ns|
  {}

  lemma DrainedStep(s: State, ev: Event, m: nat)
    requires Inv(s) && Drained(s, m) && ev != Register(m)
    ensures Drained(Step(s, ev), m)
  {
    hide Drop, IndexOf, Without, AccountOk, Retireds, WalkerOk, Listing, Stamped, Successor, Following;
    if Enabled(s, ev) {
      NotInList(s, m);
      if ev.Put? {
        PutLowers(s, ev.w);
      } else if ev.Advance? {
        DrainedAdvance(s, ev.w, m);
      } else if ev.Stop? {
        DrainedStop(s, ev.m, m);
      }
    }
  }

  /** Once drain has returned, no walker, no list link and no retired link reaches the mapping, and that
      stays so until it is registered again: its owner may free it. */
  lemma {:induction false} DrainedIsUnreachable(pre: seq<Event>, post: seq<Event>, m: nat)
    requires Drained(Run(EMPTY, pre), m) && Register(m) !in post
    ensures var t := Run(Run(EMPTY, pre), post);
            && Inv(t) && Drained(t, m) && m !in t.list
            && (forall w :: 0 <= w < |t.walkers| ==> WalkerRef(t.walkers[w], m) == 0)
            && (forall q :: 0 <= q < |t.nodes| ==> t.nodes[q].retired != Some(m))
    decreases |post|
  {
    var s := Run(EMPTY, pre);
    EmptyOk();
    RunKeeps(EMPTY, pre);
    RunKeeps(s, post);
    hide Step;
    if post != [] {
      var short := post[..|post| - 1];
      assert Register(m) !in short;
      DrainedIsUnreachable(pre, short, m);
      DrainedStep(Run(s, short), post[|post| - 1], m);
    }
    Unreachable(Run(s, post), m);
  }
}
