/** Ordered resource acquisition of fs/lwext4_port.c: an operation keeps a sorted list of the keys it ever
    asked for, locks only upwards, and on a key below what it holds aborts and replays with the grown list
    locked from the bottom. One step per lock or per unlocked list change, any number of contexts. */
module ResourceOrder {
  import opened Wrappers

  /** Kind first, then number: `resource_order`. */
  datatype Key = Key(kind: nat, number: nat)

  predicate Less(a: Key, b: Key) {
    a.kind < b.kind || (a.kind == b.kind && a.number < b.number)
  }

  /** A request is held when its guard owns the resource's mutex, and unpublished when a bitmap reservation
      owns a new inode instead. */
  datatype Request = Request(key: Key, held: bool, unpublished: bool)

  datatype Goal = Acquire(key: Key) | Claim(key: Key)

  /** Where a context stands inside a call. */
  datatype Point =
    | Outside
    | Relocking(goal: Goal, next: nat)   // resource_begin: locking the kept keys in order
    | Asking(goal: Goal)                 // resource_request_get
    | Locking(key: Key)                  // the new key's mutex

  /** `replays` counts the attempts given up since the list was last empty. */
  datatype Context = Context(list: seq<Request>, running: bool, heldLast: Option<Key>, retry: bool, at: Point,
                             replays: nat)

  datatype State = State(contexts: seq<Context>, references: map<Key, nat>)

  datatype Event =
    | Call(c: nat, goal: Goal)
    | Lock(c: nat)          // the next kept key, or the new key, when its mutex is free
    | Get(c: nat)
    | NoMemory(c: nat)
    | Release(c: nat)       // resource_release
    | Retry(c: nat)         // resource_retry

  // ---------------------------------------------------------------- the sorted list

  /** The first position whose key is not below k. */
  function Position(list: seq<Request>, k: Key): (i: nat)
    ensures i <= |list|
  {
    if list == [] || !Less(list[0].key, k) then 0 else 1 + Position(list[1..], k)
  }

  function Insert(list: seq<Request>, r: Request): seq<Request> {
    var i := Position(list, r.key);
    list[..i] + [r] + list[i..]
  }

  predicate Has(list: seq<Request>, k: Key) {
    var i := Position(list, k);
    i < |list| && list[i].key == k
  }

  function AllFree(list: seq<Request>): seq<Request> {
    seq(|list|, i requires 0 <= i < |list| => Request(list[i].key, false, false))
  }

  // ---------------------------------------------------------------- reference counts

  function Borrow(m: map<Key, nat>, k: Key): map<Key, nat> {
    m[k := if k in m then m[k] + 1 else 1]
  }

  /** `resource_put`: the last reference removes the resource. */
  function Put(m: map<Key, nat>, k: Key): map<Key, nat> {
    if k !in m then m else if m[k] <= 1 then m - {k} else m[k := m[k] - 1]
  }

  function PutAll(m: map<Key, nat>, list: seq<Request>): map<Key, nat> {
    if list == [] then m else PutAll(Put(m, list[0].key), list[1..])
  }

  // ---------------------------------------------------------------- steps

  /** The key whose mutex the context is about to take. */
  function Wants(x: Context): Option<Key> {
    match x.at
    case Relocking(_, next) => if next < |x.list| then Some(x.list[next].key) else None
    case Locking(k) => Some(k)
    case _ => None
  }

  predicate HoldsKey(x: Context, k: Key) {
    exists i :: 0 <= i < |x.list| && x.list[i].held && x.list[i].key == k
  }

  predicate Free(s: State, k: Key) {
    forall c :: 0 <= c < |s.contexts| ==> !HoldsKey(s.contexts[c], k)
  }

  predicate Enabled(s: State, ev: Event) {
    && ev.c < |s.contexts|
    && var x := s.contexts[ev.c];
       match ev
       case Call(_, _) => x.at.Outside?
       case Lock(_) => Wants(x).Some? && Free(s, Wants(x).value)
       case Get(_) => x.at.Asking? || (x.at.Relocking? && x.at.next >= |x.list|)
       case NoMemory(_) => (x.at.Asking? || (x.at.Relocking? && x.at.next >= |x.list|)) && !Has(x.list, x.at.goal.key)
       case Release(_) => x.at.Outside?
       case Retry(_) => x.at.Outside? && !x.running
  }

  function Held(list: seq<Request>, k: Key): seq<Request> {
    seq(|list|,
        i requires 0 <= i < |list| => if list[i].key == k then Request(k, true, list[i].unpublished) else list[i])
  }

  function Asked(x: Context, goal: Goal): Context {
    var k := goal.key;
    if Has(x.list, k) then x.(at := Outside)
    else if goal.Claim? then x.(list := Insert(x.list, Request(k, false, true)), at := Outside)
    else if x.heldLast.Some? && Less(k, x.heldLast.value) then
      x.(list := Insert(x.list, Request(k, false, false)), retry := true, at := Outside, replays := x.replays + 1)
    else x.(list := Insert(x.list, Request(k, false, false)), at := Locking(k))
  }

  function StepContext(x: Context, ev: Event): Context {
    match ev
    case Call(_, goal) =>
      if x.retry then x
      else if x.running then x.(at := Asking(goal))
      else x.(running := true, at := Relocking(goal, 0))
    case Lock(_) =>
      if x.at.Locking? then x.(list := Held(x.list, x.at.key), heldLast := Some(x.at.key), at := Outside)
      else if x.at.Relocking? && x.at.next < |x.list| then
        var k := x.list[x.at.next].key;
        x.(list := Held(x.list, k), heldLast := Some(k), at := Relocking(x.at.goal, x.at.next + 1))
      else x
    case Get(_) => if x.at.Asking? || x.at.Relocking? then Asked(x, x.at.goal) else x
    case NoMemory(_) => x.(at := Outside)
    case Release(_) =>
      if x.retry then x.(list := AllFree(x.list), heldLast := None, running := false)
      else Context([], false, None, false, Outside, 0)
    case Retry(_) => x.(retry := false)
  }

  function StepReferences(m: map<Key, nat>, x: Context, ev: Event): map<Key, nat> {
    if ev.Get? && (x.at.Asking? || x.at.Relocking?) && !Has(x.list, x.at.goal.key) then Borrow(m, x.at.goal.key)
    else if ev.Release? && !x.retry then PutAll(m, x.list)
    else m
  }

  function Step(s: State, ev: Event): State {
    if !Enabled(s, ev) then s else
    var x := s.contexts[ev.c];
    State(s.contexts[ev.c := StepContext(x, ev)], StepReferences(s.references, x, ev))
  }

  // ---------------------------------------------------------------- invariant

  /** Keys strictly ascend. */
  ghost predicate Ascending(list: seq<Request>) {
    forall i, j :: 0 <= i < j < |list| ==> Less(list[i].key, list[j].key)
  }

  /** `held_last` is the greatest key held. */
  ghost predicate LastOk(x: Context) {
    && (x.heldLast.None? ==> forall i :: 0 <= i < |x.list| ==> !x.list[i].held)
    && (x.heldLast.Some? ==> HoldsKey(x, x.heldLast.value))
    && (x.heldLast.Some? ==> forall i :: 0 <= i < |x.list| && x.list[i].held ==> !Less(x.heldLast.value, x.list[i].key))
  }

  ghost predicate Covered(r: Request) { r.held || r.unpublished }

  /** Inside an attempt every kept key is held or unpublished, but for the one being asked for. */
  ghost predicate PointOk(x: Context) {
    match x.at
    case Outside => x.running && !x.retry ==> forall i :: 0 <= i < |x.list| ==> Covered(x.list[i])
    case Relocking(_, next) => x.running && !x.retry && next <= |x.list| &&
                               forall i ::
                                   0 <= i < |x.list| ==> !x.list[i].unpublished && (x.list[i].held <==> i < next)
    case Asking(_) => x.running && !x.retry && forall i :: 0 <= i < |x.list| ==> Covered(x.list[i])
    case Locking(k) =>
      && x.running && !x.retry && Has(x.list, k) && (x.heldLast.Some? ==> Less(x.heldLast.value, k))
      && forall i :: 0 <= i < |x.list| ==> Covered(x.list[i]) || x.list[i].key == k
  }

  ghost predicate ContextOk(x: Context) {
    && Ascending(x.list) && LastOk(x) && PointOk(x)
    && (!x.running ==> x.heldLast.None? && forall i :: 0 <= i < |x.list| ==> !x.list[i].unpublished)
    && (x.replays == 0 || x.replays < |x.list|)
  }

  /** No two contexts hold the same key. */
  ghost predicate Exclusive(s: State) {
    forall c, d, k :: 0 <= c < d < |s.contexts| && HoldsKey(s.contexts[c], k) ==> !HoldsKey(s.contexts[d], k)
  }

  /** Contexts whose list has k. */
  function Users(xs: seq<Context>, k: Key): nat {
    if xs == [] then 0 else Users(xs[..|xs| - 1], k) + if Has(xs[|xs| - 1].list, k) then 1 else 0
  }

  /** A resource's references are the contexts that keep its key. */
  ghost predicate Counted(s: State) {
    forall k ::
        (k in s.references <==> Users(s.contexts, k) > 0)
            && (k in s.references ==> s.references[k] == Users(s.contexts, k))
  }

  ghost predicate Inv(s: State) {
    (forall c :: 0 <= c < |s.contexts| ==> ContextOk(s.contexts[c])) && Exclusive(s) && Counted(s)
  }
}
