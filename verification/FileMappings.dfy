/** The notification list of fs/file_mapping.c: walkers call mappings outside the lock while mappings
    register at the head and unlink anywhere. One step per lock scope, any interleaving. A mapping that is
    unlinked while borrowed keeps its successor in `retired`, and that link holds a borrow of its own. */
module FileMappings {
  import opened Wrappers

  /** `stamp` counts registrations; it is history and guards no step. */
  datatype Mapping = Mapping(listed: bool, retired: Option<nat>, borrows: nat, stamp: nat)

  datatype Phase =
    | At(at: Option<nat>)                              // before the activity check
    | Called(on: nat)                                  // checked, callback running or done
    | Leaving(put: Option<nat>, next: Option<nat>)     // successor borrowed, old borrow being put

  /** `start` is the registration count when the pass began; `called` are the mappings called so far and
      `seen` their registrations. */
  datatype Walker = Walker(phase: Phase, start: nat, seen: seq<nat>, called: seq<nat>)

  datatype State = State(
    nodes: seq<Mapping>,
    list: seq<nat>,
    walkers: seq<Walker>,
    total: nat,
    closing: bool,
    clock: nat)

  datatype Event =
    | Create                   // a mapping object comes into being
    | Register(m: nat)
    | Stop(m: nat)
    | Start                    // notify: first scope
    | Check(w: nat)            // notify: activity check and callback
    | Advance(w: nat)          // notify: successor
    | Put(w: nat)              // one raw segment of put
    | Gate(closing: bool)      // kernel_file_mapping_close and _open

  const SEGMENT: nat := 16

  // ---------------------------------------------------------------- steps

  function IndexOf(list: seq<nat>, m: nat): (i: nat)
    requires m in list
    ensures i < |list| && list[i] == m
  {
    if list[0] == m then 0 else 1 + IndexOf(list[1..], m)
  }

  function Without(list: seq<nat>, i: nat): seq<nat>
    requires i < |list|
  {
    list[..i] + list[i + 1..]
  }

  function Following(list: seq<nat>, i: nat): Option<nat> {
    if i + 1 < |list| then Some(list[i + 1]) else None
  }

  function First(list: seq<nat>): Option<nat> {
    if list == [] then None else Some(list[0])
  }

  function Bump(ns: seq<Mapping>, m: nat): seq<Mapping>
    requires m < |ns|
  {
    ns[m := Mapping(ns[m].listed, ns[m].retired, ns[m].borrows + 1, ns[m].stamp)]
  }

  /** `borrow` */
  function Borrowed(ns: seq<Mapping>, o: Option<nat>): seq<Mapping> {
    if o.Some? && o.value < |ns| then Bump(ns, o.value) else ns
  }

  function Extra(o: Option<nat>): nat { if o.Some? then 1 else 0 }

  /** `put_segment`: at most n links; the returned mapping still holds its borrow. */
  function Drop(ns: seq<Mapping>, total: nat, o: Option<nat>, n: nat): (seq<Mapping>, nat, Option<nat>)
    decreases n
  {
    if o.None? || n == 0 || o.value >= |ns| || ns[o.value].borrows == 0 || total == 0 then (ns, total, o)
    else
      var m, x := o.value, ns[o.value];
      if x.borrows > 1 || x.listed then (ns[m := Mapping(x.listed, x.retired, x.borrows - 1, x.stamp)], total - 1, None)
      else Drop(ns[m := Mapping(x.listed, None, 0, x.stamp)], total - 1, x.retired, n - 1)
  }

  predicate Enabled(s: State, ev: Event) {
    match ev
    case Create => true
    case Register(m) => m < |s.nodes| && !s.nodes[m].listed && s.nodes[m].borrows == 0
    case Stop(m) => m < |s.nodes| && m in s.list
    case Start => true
    case Check(w) => w < |s.walkers| && s.walkers[w].phase.At? && s.walkers[w].phase.at.Some?
                     && s.walkers[w].phase.at.value < |s.nodes|
    case Advance(w) => w < |s.walkers| && s.walkers[w].phase.Called? && s.walkers[w].phase.on < |s.nodes|
    case Put(w) => w < |s.walkers| && s.walkers[w].phase.Leaving? && s.walkers[w].phase.put.Some?
    case Gate(_) => true
  }

  /** The successor a walker on m takes. */
  function Successor(s: State, m: nat): Option<nat>
    requires m < |s.nodes|
  {
    if m in s.list then Following(s.list, IndexOf(s.list, m)) else s.nodes[m].retired
  }

  function Step(s: State, ev: Event): State {
    if !Enabled(s, ev) then s else
    match ev
    case Create => s.(nodes := s.nodes + [Mapping(false, None, 0, 0)])
    case Register(m) =>
      if s.closing then s
      else s.(nodes := s.nodes[m := Mapping(true, None, 0, s.clock)], list := [m] + s.list, clock := s.clock + 1)
    case Stop(m) =>
      var i, x := IndexOf(s.list, m), s.nodes[m];
      var next := if x.borrows > 0 then Following(s.list, i) else None;
      s.(list := Without(s.list, i),
         nodes := Borrowed(s.nodes[m := Mapping(false, next, x.borrows, x.stamp)], next),
         total := s.total + Extra(next))
    case Start =>
      s.(nodes := Borrowed(s.nodes, First(s.list)), total := s.total + Extra(First(s.list)),
         walkers := s.walkers + [Walker(At(First(s.list)), s.clock, [], [])])
    case Check(w) =>
      var k := s.walkers[w];
      var m := k.phase.at.value;
      s.(walkers := s.walkers[w := if s.nodes[m].listed
                                   then Walker(Called(m), k.start, k.seen + [s.nodes[m].stamp], k.called + [m])
                                   else Walker(Called(m), k.start, k.seen, k.called)])
    case Advance(w) =>
      var k := s.walkers[w];
      var next := Successor(s, k.phase.on);
      s.(nodes := Borrowed(s.nodes, next), total := s.total + Extra(next),
         walkers := s.walkers[w := Walker(Leaving(Some(k.phase.on), next), k.start, k.seen, k.called)])
    case Put(w) =>
      var k := s.walkers[w];
      var (ns, total, rest) := Drop(s.nodes, s.total, k.phase.put, SEGMENT);
      s.(nodes := ns, total := total,
         walkers := s.walkers[w := Walker(if rest.Some? then Leaving(rest, k.phase.next)
             else At(k.phase.next), k.start, k.seen, k.called)])
    case Gate(closing) => s.(closing := closing)
  }

  // ---------------------------------------------------------------- counting references

  function Ref(o: Option<nat>, m: nat): nat { if o == Some(m) then 1 else 0 }

  function WalkerRef(k: Walker, m: nat): nat {
    match k.phase
    case At(o) => Ref(o, m)
    case Called(x) => Ref(Some(x), m)
    case Leaving(p, n) => Ref(p, m) + Ref(n, m)
  }

  /** Borrows of m held by walkers. */
  function WalkerRefs(ws: seq<Walker>, m: nat): nat {
    if ws == [] then 0 else WalkerRefs(ws[..|ws| - 1], m) + WalkerRef(ws[|ws| - 1], m)
  }

  /** Borrows of m held by retired predecessors. */
  function RetiredRefs(ns: seq<Mapping>, m: nat): nat {
    if ns == [] then 0 else RetiredRefs(ns[..|ns| - 1], m) + Ref(ns[|ns| - 1].retired, m)
  }

  function SumBorrows(ns: seq<Mapping>): nat {
    if ns == [] then 0 else SumBorrows(ns[..|ns| - 1]) + ns[|ns| - 1].borrows
  }

  lemma {:induction false} WalkerRefsUpdate(ws: seq<Walker>, i: nat, k: Walker, m: nat)
    requires i < |ws|
    ensures WalkerRefs(ws[i := k], m) == WalkerRefs(ws, m) - WalkerRef(ws[i], m) + WalkerRef(k, m)
  {
    var n, ws' := |ws| - 1, ws[i := k];
    if i == n {
      assert ws'[..n] == ws[..n];
    } else {
      assert ws'[..n] == ws[..n][i := k];
      WalkerRefsUpdate(ws[..n], i, k, m);
    }
  }

  lemma {:induction false} RetiredRefsUpdate(ns: seq<Mapping>, i: nat, x: Mapping, m: nat)
    requires i < |ns|
    ensures RetiredRefs(ns[i := x], m) == RetiredRefs(ns, m) - Ref(ns[i].retired, m) + Ref(x.retired, m)
  {
    var n, ns' := |ns| - 1, ns[i := x];
    if i == n {
      assert ns'[..n] == ns[..n];
    } else {
      assert ns'[..n] == ns[..n][i := x];
      RetiredRefsUpdate(ns[..n], i, x, m);
    }
  }

  lemma {:induction false} SumBorrowsUpdate(ns: seq<Mapping>, i: nat, x: Mapping)
    requires i < |ns|
    ensures SumBorrows(ns[i := x]) == SumBorrows(ns) - ns[i].borrows + x.borrows
  {
    var n, ns' := |ns| - 1, ns[i := x];
    if i == n {
      assert ns'[..n] == ns[..n];
    } else {
      assert ns'[..n] == ns[..n][i := x];
      SumBorrowsUpdate(ns[..n], i, x);
    }
  }

  // ---------------------------------------------------------------- invariant

  /** Each mapping's borrows are its references, plus one on `held` that is about to be put. */
  ghost predicate AccountOk(ns: seq<Mapping>, ws: seq<Walker>, total: nat, held: Option<nat>) {
    && (forall m :: 0 <= m < |ns| ==> ns[m].borrows == WalkerRefs(ws, m) + RetiredRefs(ns, m) + Ref(held, m))
    && total == SumBorrows(ns)
  }

  /** The list holds the listed mappings, newest registration first. */
  ghost predicate Listing(ns: seq<Mapping>, list: seq<nat>) {
    && (forall i :: 0 <= i < |list| ==> list[i] < |ns| && ns[list[i]].listed)
    && (forall i, j :: 0 <= i < j < |list| ==> ns[list[i]].stamp > ns[list[j]].stamp)
    && (forall m :: 0 <= m < |ns| && ns[m].listed ==> m in list)
  }

  /** Live mappings have different stamps below the clock. */
  ghost predicate Stamped(ns: seq<Mapping>, clock: nat) {
    && (forall m :: 0 <= m < |ns| && Live(ns[m]) ==> ns[m].stamp < clock)
    && (forall m, q :: 0 <= m < q < |ns| && Live(ns[m]) && Live(ns[q]) ==> ns[m].stamp != ns[q].stamp)
  }

  ghost predicate ListOk(s: State) {
    Listing(s.nodes, s.list) && Stamped(s.nodes, s.clock)
  }

  predicate Live(x: Mapping) { x.listed || x.borrows > 0 }

  /** Following `retired` from an unlinked mapping misses no older listed mapping. */
  ghost predicate RetiredOk(ns: seq<Mapping>, x: Mapping) {
    && (x.listed || x.borrows == 0 ==> x.retired.None?)
    && (x.retired.Some? ==> x.retired.value < |ns| && ns[x.retired.value].stamp < x.stamp)
    && (!x.listed && x.borrows > 0 ==>
          forall z :: 0 <= z < |ns| && ns[z].listed && ns[z].stamp < x.stamp ==>
                      x.retired.Some? && ns[z].stamp <= ns[x.retired.value].stamp)
  }

  ghost predicate Retireds(ns: seq<Mapping>) {
    forall m :: 0 <= m < |ns| ==> RetiredOk(ns, ns[m])
  }

  ghost predicate Decreasing(q: seq<nat>) {
    forall i, j :: 0 <= i < j < |q| ==> q[i] > q[j]
  }

  /** Registrations before the pass that are still listed were called, or lie ahead (below `bound`). */
  ghost predicate Complete(ns: seq<Mapping>, k: Walker, bound: nat) {
    forall z :: 0 <= z < |ns| && ns[z].listed && ns[z].stamp < k.start ==> z in k.called || ns[z].stamp < bound
  }

  ghost predicate AheadOf(ns: seq<Mapping>, k: Walker, o: Option<nat>) {
    match o
    case None => Complete(ns, k, 0)
    case Some(m) =>
      && m < |ns| && ns[m].stamp < k.start && Complete(ns, k, ns[m].stamp + 1)
      && forall i :: 0 <= i < |k.seen| ==> k.seen[i] > ns[m].stamp
  }

  /** Each mapping was called once, in the registration it had when the pass began. */
  ghost predicate History(ns: seq<Mapping>, k: Walker) {
    && Decreasing(k.seen) && |k.called| == |k.seen|
    && (forall j :: 0 <= j < |k.called| ==>
          k.called[j] < |ns| && (ns[k.called[j]].stamp < k.start ==> k.seen[j] == ns[k.called[j]].stamp))
    && (forall i, j :: 0 <= i < j < |k.called| ==> k.called[i] != k.called[j])
  }

  ghost predicate WalkerOk(ns: seq<Mapping>, k: Walker) {
    && History(ns, k)
    && match k.phase
       case At(o) => AheadOf(ns, k, o)
       case Called(m) =>
         && m < |ns| && ns[m].stamp < k.start && Complete(ns, k, ns[m].stamp)
         && forall i :: 0 <= i < |k.seen| ==> k.seen[i] >= ns[m].stamp
       case Leaving(p, o) => (p.Some? ==> p.value < |ns|) && AheadOf(ns, k, o)
  }

  ghost predicate Inv(s: State) {
    && AccountOk(s.nodes, s.walkers, s.total, None)
    && ListOk(s)
    && Retireds(s.nodes)
    && (forall w :: 0 <= w < |s.walkers| ==> WalkerOk(s.nodes, s.walkers[w]))
    && (forall w :: 0 <= w < |s.walkers| ==> s.walkers[w].start <= s.clock)
  }
}
