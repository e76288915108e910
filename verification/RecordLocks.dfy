/** fs/record_lock.c: the lock table. One in-place tree per inode, one owner list per owner over all
    inodes, and the heap that holds the nodes; `Set`, `Get` and `Release` perform the source's steps
    in the source's order, with the traps as assertions. */
module RecordLocks {
  import opened LockTree
  import opened LockSearch
  import opened Wrappers
  import opened LockRanges
  import opened LockHeap

  datatype Result = Ok | Again | NoLocks

  /** What `kernel_record_lock_get` reports. */
  datatype Report = NoConflict | Held(start: int, end: int, pid: int, ltype: LockType, owner: Owner)

  // ---------------------------------------------------------------- owner lists

  predicate NoDupAddrs(L: seq<nat>) {
    forall i, j :: 0 <= i < j < |L| ==> L[i] != L[j]
  }

  ghost function AddrSet(L: seq<nat>): set<nat> {
    set a | a in L
  }

  /** The first n addresses offered are there, not null, not in use and different. */
  ghost predicate Offered(m: Mem, offers: seq<nat>, n: nat) {
    && n <= |offers| && NoDupAddrs(offers[..n])
    && forall i :: 0 <= i < n ==> offers[i] != 0 && offers[i] !in m
  }

  /** The nodes that a request takes: one for a lock, and one more when it splits a lock of the owner. */
  ghost function Needed(S: set<Lock>, owner: Owner, req: Request, start: int, end: int): nat {
    (if req.Acquire? then 1 else 0) + if exists y :: y in S && Splits(y, owner, req, start, end) then 1 else 0
  }

  lemma OfferedMore(m: Mem, offers: seq<nat>, i: nat, needed: nat, spares: set<nat>)
    requires Offered(m, offers, i) && i < needed && spares == AddrSet(offers[..i])
    ensures i >= |offers| || offers[i] == 0 || offers[i] in m || offers[i] in spares ==> !Offered(m, offers, needed)
    ensures i < |offers| && offers[i] != 0 && offers[i] !in m && offers[i] !in spares ==>
              Offered(m, offers, i + 1) && AddrSet(offers[..i + 1]) == spares + {offers[i]}
  {
    if i < |offers| {
      assert offers[..i + 1] == offers[..i] + [offers[i]];
      if offers[i] in spares && needed <= |offers| {
        var j :| 0 <= j < i && offers[..i][j] == offers[i];
        assert offers[..needed][j] == offers[..needed][i];
      }
    }
  }

  /** Unlink a from an owner list. */
  function Unlinked(L: seq<nat>, a: nat): seq<nat> {
    if L == [] then [] else if L[0] == a then L[1..] else [L[0]] + Unlinked(L[1..], a)
  }

  lemma {:induction false} UnlinkedMembers(L: seq<nat>, a: nat)
    requires NoDupAddrs(L)
    ensures NoDupAddrs(Unlinked(L, a))
    ensures AddrSet(Unlinked(L, a)) == AddrSet(L) - {a}
    decreases |L|
  {
    if L != [] {
      assert L == [L[0]] + L[1..];
      assert L[0] !in L[1..];
      assert AddrSet(L) == {L[0]} + AddrSet(L[1..]);
      if L[0] != a {
        UnlinkedMembers(L[1..], a);
        assert AddrSet(Unlinked(L, a)) == {L[0]} + AddrSet(Unlinked(L[1..], a));
      }
    }
  }

  // ---------------------------------------------------------------- an edit in progress

  /** keys is the disjoint union of the four parts. */
  ghost predicate Parts(keys: set<nat>, rest: set<nat>, T: set<nat>, Q: set<nat>, loose: set<nat>) {
    && rest !! T && rest !! Q && rest !! loose && T !! Q && T !! loose && Q !! loose
    && keys == rest + T + Q + loose
  }

  lemma PartsInsert(keys: set<nat>, rest: set<nat>, T: set<nat>, Q: set<nat>, loose: set<nat>, n: nat)
    requires Parts(keys, rest, T, Q, loose) && n in loose
    ensures Parts(keys, rest, T + {n}, Q, loose - {n})
    ensures Parts(keys - {n}, rest, T, Q, loose - {n})
  {}

  lemma PartsTake(keys: set<nat>, rest: set<nat>, T: set<nat>, Q: set<nat>, loose: set<nat>, n: nat)
    requires Parts(keys, rest, T, Q, loose) && n in Q
    ensures Parts(keys, rest, T, Q - {n}, loose + {n})
  {}

  /** While one inode's tree is edited, m consists of four separate parts: the untouched nodes (those
      of m0 outside A0), the tree t, the extraction list, and loose nodes that are in neither. */
  ghost predicate Editing(m: Mem, m0: Mem, A0: set<nat>, t: Tree, head: nat, list: seq<Lock>, loose: set<nat>) {
    var rest := m0.Keys - A0;
    && Stores(m, t) && Avl(t) && Sorted(Elems(t)) && Distinct(Elems(t))
    && Chain(m, head, list) && Distinct(list) && 0 !in loose
    && Parts(m.Keys, rest, AddrsOf(Elems(t)), AddrsOf(list), loose)
    && forall a :: a in rest ==> m[a] == m0[a]
  }

  /** The head of the extraction list becomes a loose node. */
  lemma TakeHead(m: Mem, m0: Mem, A0: set<nat>, t: Tree, head: nat, list: seq<Lock>, loose: set<nat>)
    requires Editing(m, m0, A0, t, head, list, loose) && list != []
    ensures head == list[0].addr && head in m && m[head].lock == list[0] && head !in loose
    ensures Editing(m, m0, A0, t, m[head].left, list[1..], loose + {head})
  {
    assert list == [list[0]] + list[1..];
    AddrsHead(list[0], list[1..]);
    DistinctTail(list[0], list[1..]);
    PartsTake(m.Keys, m0.Keys - A0, AddrsOf(Elems(t)), AddrsOf(list), loose, head);
    assert AddrsOf(list) - {head} == AddrsOf(list[1..]);
  }

  /** Writing a loose node disturbs nothing else. */
  lemma WriteLoose(m: Mem, m0: Mem, A0: set<nat>, t: Tree, head: nat, list: seq<Lock>, loose: set<nat>, n: nat, r: Rec)
    requires Editing(m, m0, A0, t, head, list, loose) && n in loose
    ensures Editing(m[n := r], m0, A0, t, head, list, loose)
  {
    var m' := m[n := r];
    StoresFrame(m, m', {n}, t);
    ChainFrame(m, m', {n}, head, list);
  }

  lemma FreeLoose(m: Mem, m0: Mem, A0: set<nat>, t: Tree, head: nat, list: seq<Lock>, loose: set<nat>, n: nat)
    requires Editing(m, m0, A0, t, head, list, loose) && n in loose
    ensures Editing(m - {n}, m0, A0, t, head, list, loose - {n})
  {
    PartsInsert(m.Keys, m0.Keys - A0, AddrsOf(Elems(t)), AddrsOf(list), loose, n);
    StoresAgree(m, m - {n}, t);
    ChainShrink(m, n, head, list);
  }

  lemma {:induction false} ChainShrink(m: Mem, n: nat, head: nat, list: seq<Lock>)
    requires Chain(m, head, list) && n !in AddrsOf(list)
    ensures Chain(m - {n}, head, list)
    decreases |list|
  {
    if list != [] {
      assert list == [list[0]] + list[1..];
      AddrsHead(list[0], list[1..]);
      ChainShrink(m, n, m[head].left, list[1..]);
    }
  }

  lemma InsertKeeps(t: Tree, x: Lock)
    requires Avl(t) && Sorted(Elems(t)) && Distinct(Elems(t)) && x.addr != 0 && x.addr !in AddrsOf(Elems(t))
    ensures var t' := Insert(t, x);
            && Avl(t') && Sorted(Elems(t')) && Distinct(Elems(t'))
            && AddrsOf(Elems(t')) == AddrsOf(Elems(t)) + {x.addr} && SetOf(Elems(t')) == SetOf(Elems(t)) + {x}
  {
    AddrsOfInsert(t, x);
    forall y | y in Elems(t) ensures y.addr != x.addr {
      assert y.addr in AddrsOf(Elems(t));
    }
    InsertCorrect(t, x);
    DistinctMembers(Elems(t));
    DistinctBySet(Elems(Insert(t, x)));
  }

  /** Inserting a loose node moves it into the tree. */
  lemma InsertLoose(m: Mem, m': Mem, m0: Mem, A0: set<nat>, t: Tree, t': Tree, head: nat, list: seq<Lock>,
                    loose: set<nat>, x: Lock)
    requires Editing(m, m0, A0, t, head, list, loose) && x.addr in loose
    requires SameOutside(m, m', AddrsOf(Elems(t)) + {x.addr}) && Stores(m', t')
    requires Avl(t') && Sorted(Elems(t')) && Distinct(Elems(t')) && AddrsOf(Elems(t')) == AddrsOf(Elems(t)) + {x.addr}
    ensures Editing(m', m0, A0, t', head, list, loose - {x.addr})
  {
    PartsInsert(m.Keys, m0.Keys - A0, AddrsOf(Elems(t)), AddrsOf(list), loose, x.addr);
    ChainFrame(m, m', AddrsOf(Elems(t)) + {x.addr}, head, list);
  }

  // ---------------------------------------------------------------- owner lists against the tree

  ghost function OwnAddrs(S: set<Lock>, o: Owner): set<nat> {
    set y | y in S && y.owner == o :: y.addr
  }

  lemma OwnAddrsGrow(S: set<Lock>, x: Lock, o: Owner)
    ensures OwnAddrs(S + {x}, o) == OwnAddrs(S, o) + if x.owner == o then {x.addr} else {}
  {}

  ghost function RestAddrs(m0: Mem, A0: set<nat>, o: Owner): set<nat> {
    set a | a in m0 && a !in A0 && m0[a].lock.owner == o
  }

  /** An owner's list names its untouched nodes, its nodes in the tree and its extracted nodes. */
  ghost predicate ListOk(L: seq<nat>, o: Owner, m0: Mem, A0: set<nat>, T: set<Lock>, Q: set<Lock>) {
    NoDupAddrs(L) && AddrSet(L) == RestAddrs(m0, A0, o) + OwnAddrs(T, o) + OwnAddrs(Q, o)
  }

  function ListIn(lists: map<Owner, seq<nat>>, o: Owner): seq<nat> {
    if o in lists then lists[o] else []
  }

  ghost predicate ListsOk(lists: map<Owner, seq<nat>>, m0: Mem, A0: set<nat>, T: set<Lock>, Q: set<Lock>) {
    forall o :: ListOk(ListIn(lists, o), o, m0, A0, T, Q)
  }

  lemma ListPublished(L: seq<nat>, o: Owner, m0: Mem, A0: set<nat>, T: set<Lock>, Q: set<Lock>, x: Lock)
    requires ListOk(L, o, m0, A0, T, Q)
    requires x.addr !in m0.Keys - A0 && (forall y :: y in T + Q ==> y.addr != x.addr)
    ensures ListOk(if o == x.owner then [x.addr] + L else L, o, m0, A0, T + {x}, Q)
  {
    OwnAddrsGrow(T, x, o);
    if o == x.owner {
      assert AddrSet([x.addr] + L) == {x.addr} + AddrSet(L);
      assert x.addr !in AddrSet(L);
    }
  }

  lemma ListsAfterPublish(lists: map<Owner, seq<nat>>, m0: Mem, A0: set<nat>, T: set<Lock>, Q: set<Lock>, x: Lock)
    requires ListsOk(lists, m0, A0, T, Q)
    requires x.addr !in m0.Keys - A0 && (forall y :: y in T + Q ==> y.addr != x.addr)
    ensures ListsOk(lists[x.owner := [x.addr] + ListIn(lists, x.owner)], m0, A0, T + {x}, Q)
  {
    var lists' := lists[x.owner := [x.addr] + ListIn(lists, x.owner)];
    forall o ensures ListOk(ListIn(lists', o), o, m0, A0, T + {x}, Q) {
      ListPublished(ListIn(lists, o), o, m0, A0, T, Q, x);
    }
  }

  lemma ListUnlinked(L: seq<nat>, o: Owner, m0: Mem, A0: set<nat>, T: set<Lock>, Q: set<Lock>, y: Lock)
    requires ListOk(L, o, m0, A0, T, Q) && y in Q
    requires y.addr !in m0.Keys - A0 && (forall z :: z in T + Q && z != y ==> z.addr != y.addr) && y !in T
    ensures o == y.owner ==> y.addr in L
    ensures ListOk(if o == y.owner then Unlinked(L, y.addr) else L, o, m0, A0, T, Q - {y})
  {
    assert Q == (Q - {y}) + {y};
    OwnAddrsGrow(Q - {y}, y, o);
    if o == y.owner {
      assert y.addr in AddrSet(L);
      UnlinkedMembers(L, y.addr);
    }
  }

  lemma ListsAfterUnlink(lists: map<Owner, seq<nat>>, m0: Mem, A0: set<nat>, T: set<Lock>, Q: set<Lock>, y: Lock)
    requires ListsOk(lists, m0, A0, T, Q) && y in Q
    requires y.addr !in m0.Keys - A0 && (forall z :: z in T + Q && z != y ==> z.addr != y.addr) && y !in T
    ensures y.owner in lists && y.addr in lists[y.owner]
    ensures ListsOk(lists[y.owner := Unlinked(lists[y.owner], y.addr)], m0, A0, T, Q - {y})
  {
    ListUnlinked(ListIn(lists, y.owner), y.owner, m0, A0, T, Q, y);
    var lists' := lists[y.owner := Unlinked(lists[y.owner], y.addr)];
    forall o ensures ListOk(ListIn(lists', o), o, m0, A0, T, Q - {y}) {
      ListUnlinked(ListIn(lists, o), o, m0, A0, T, Q, y);
    }
  }

  /** A loose node's address belongs to no untouched, stored or extracted lock. */
  lemma LooseIsApart(m: Mem, m0: Mem, A0: set<nat>, t: Tree, head: nat, list: seq<Lock>, loose: set<nat>, n: nat)
    requires Editing(m, m0, A0, t, head, list, loose) && n in loose
    ensures n !in m0.Keys - A0 && n != 0 && n in m
    ensures forall y :: y in SetOf(Elems(t)) + SetOf(list) ==> y.addr != n
  {
    forall y | y in SetOf(Elems(t)) + SetOf(list) ensures y.addr != n {
      assert y in Elems(t) ==> y.addr in AddrsOf(Elems(t));
      assert y in list ==> y.addr in AddrsOf(list);
    }
  }

  lemma HeadIsApart(m: Mem, m0: Mem, A0: set<nat>, t: Tree, head: nat, list: seq<Lock>, loose: set<nat>)
    requires Editing(m, m0, A0, t, head, list, loose) && list != []
    ensures var y := list[0];
            && y.addr !in m0.Keys - A0 && y in SetOf(list) && y !in SetOf(Elems(t))
            && (forall z :: z in SetOf(Elems(t)) + SetOf(list) && z != y ==> z.addr != y.addr)
            && SetOf(list) - {y} == SetOf(list[1..])
  {
    var y := list[0];
    assert list == [y] + list[1..];
    assert y.addr in AddrsOf(list);
    DistinctMembers(list);
    DistinctTail(y, list[1..]);
    forall z | z in SetOf(Elems(t)) ensures z.addr != y.addr {
      assert z.addr in AddrsOf(Elems(t));
    }
    assert forall z :: z in list[1..] ==> z.addr in AddrsOf(list[1..]);
  }

  // ---------------------------------------------------------------- entering and leaving an edit

  ghost predicate TreeOk(t: Tree, state: nat) {
    && Avl(t) && Sorted(Elems(t)) && LocksOk(SetOf(Elems(t)))
    && forall y :: y in Elems(t) ==> y.state == state
  }

  /** The table at rest: every inode's tree is stored and in order, every node on the heap is some
      inode's lock, and every owner's list names exactly that owner's nodes. */
  ghost predicate TableOk(m: Mem, roots: map<nat, nat>, lists: map<Owner, seq<nat>>, trees: map<nat, Tree>) {
    && trees.Keys == roots.Keys
    && (forall s :: s in trees ==> roots[s] == Ptr(trees[s]) && Stores(m, trees[s]) && TreeOk(trees[s], s))
    && (forall a :: a in m ==> a != 0 && m[a].lock.addr == a && m[a].lock.state in trees
                               && m[a].lock in Elems(trees[m[a].lock.state]))
    && ListsOk(lists, m, {}, {}, {})
  }

  lemma TreeIsDistinct(m: Mem, roots: map<nat, nat>, lists: map<Owner, seq<nat>>, trees: map<nat, Tree>, st: nat)
    requires TableOk(m, roots, lists, trees) && st in trees
    ensures Distinct(Elems(trees[st])) && AddrsOf(Elems(trees[st])) <= m.Keys
    ensures forall a :: a in AddrsOf(Elems(trees[st])) ==> m[a].lock.state == st
  {
    var s := Elems(trees[st]);
    forall y | y in s ensures y.addr in m && m[y.addr].lock == y && y.addr != 0 && y.state == st {
      StoresMember(m, trees[st], y);
    }
    forall y, z | y in s && z in s && y.addr == z.addr ensures y == z {
      assert y in SetOf(s) && z in SetOf(s);
    }
    DistinctBySet(s);
  }

  /** In memory m, the owner's nodes are those of the stored tree t and the others. */
  lemma OwnNodes(m: Mem, t: Tree, o: Owner)
    requires Stores(m, t) && Distinct(Elems(t))
    ensures RestAddrs(m, {}, o) == RestAddrs(m, AddrsOf(Elems(t)), o) + OwnAddrs(SetOf(Elems(t)), o)
  {
    var A := AddrsOf(Elems(t));
    forall y | y in Elems(t) ensures y.addr in m && m[y.addr].lock == y {
      StoresMember(m, t, y);
    }
    forall a | a in A && a in m && m[a].lock.owner == o ensures a in OwnAddrs(SetOf(Elems(t)), o) {
      var y :| y in Elems(t) && y.addr == a;
      assert y in SetOf(Elems(t));
    }
  }

  lemma EnterLists(lists: map<Owner, seq<nat>>, m: Mem, t: Tree)
    requires ListsOk(lists, m, {}, {}, {}) && Stores(m, t) && Distinct(Elems(t))
    ensures ListsOk(lists, m, AddrsOf(Elems(t)), SetOf(Elems(t)), {})
  {
    forall o ensures ListOk(ListIn(lists, o), o, m, AddrsOf(Elems(t)), SetOf(Elems(t)), {}) {
      assert ListOk(ListIn(lists, o), o, m, {}, {}, {});
      OwnNodes(m, t, o);
    }
  }

  lemma EnterMem(m0: Mem, m: Mem, t: Tree, loose: set<nat>)
    requires Stores(m0, t) && Avl(t) && Sorted(Elems(t)) && Distinct(Elems(t)) && AddrsOf(Elems(t)) <= m0.Keys
    requires m.Keys == m0.Keys + loose && loose !! m0.Keys && 0 !in loose && forall a :: a in m0 ==> m[a] == m0[a]
    ensures Editing(m, m0, AddrsOf(Elems(t)), t, 0, [], loose)
  {
    StoresAgree(m0, m, t);
  }

  lemma TableTree(m: Mem, roots: map<nat, nat>, lists: map<Owner, seq<nat>>, trees: map<nat, Tree>, st: nat)
    requires TableOk(m, roots, lists, trees) && st in trees
    ensures st in roots && roots[st] == Ptr(trees[st]) && TreeOk(trees[st], st)
    ensures LocksOk(SetOf(Elems(trees[st]))) && Disjoint(SetOf(Elems(trees[st])))
    ensures forall y :: y in SetOf(Elems(trees[st])) ==> y.state == st && WellFormed(y) && y.addr in m
  {
    forall y | y in Elems(trees[st]) ensures y.addr in m {
      StoresMember(m, trees[st], y);
    }
  }

  lemma EnterEdit(m0: Mem, m: Mem, roots: map<nat, nat>, lists: map<Owner, seq<nat>>, trees: map<nat, Tree>, st: nat,
                  loose: set<nat>)
    requires TableOk(m0, roots, lists, trees) && st in trees && loose !! m0.Keys && 0 !in loose
    requires m.Keys == m0.Keys + loose && forall a :: a in m0 ==> m[a] == m0[a]
    ensures Editing(m, m0, AddrsOf(Elems(trees[st])), trees[st], 0, [], loose)
    ensures ListsOk(lists, m0, AddrsOf(Elems(trees[st])), SetOf(Elems(trees[st])), {})
  {
    hide Editing, ListsOk;
    TreeIsDistinct(m0, roots, lists, trees, st);
    EnterMem(m0, m, trees[st], loose);
    EnterLists(lists, m0, trees[st]);
  }

  lemma LeaveLists(lists: map<Owner, seq<nat>>, m0: Mem, m: Mem, A0: set<nat>, t: Tree)
    requires Editing(m, m0, A0, t, 0, [], {}) && ListsOk(lists, m0, A0, SetOf(Elems(t)), {})
    ensures ListsOk(lists, m, {}, {}, {})
  {
    forall o ensures ListOk(ListIn(lists, o), o, m, {}, {}, {}) {
      assert ListOk(ListIn(lists, o), o, m0, A0, SetOf(Elems(t)), {});
      OwnNodes(m, t, o);
      assert RestAddrs(m, AddrsOf(Elems(t)), o) == RestAddrs(m0, A0, o);
    }
  }

  /** After the edit every node is a lock of the new tree or an untouched node. */
  lemma LeaveNode(m0: Mem, m: Mem, A0: set<nat>, t: Tree, a: nat)
    requires Editing(m, m0, A0, t, 0, [], {}) && a in m
    ensures (a != 0 && m[a].lock.addr == a && m[a].lock in Elems(t)) || (a in m0 && a !in A0 && m[a] == m0[a])
  {
    if a in AddrsOf(Elems(t)) {
      var y :| y in Elems(t) && y.addr == a;
      StoresMember(m, t, y);
      DistinctMembers(Elems(t));
    }
  }

  lemma EditingStores(m: Mem, m0: Mem, A0: set<nat>, t: Tree, head: nat, list: seq<Lock>, loose: set<nat>)
    requires Editing(m, m0, A0, t, head, list, loose)
    ensures Stores(m, t) && Avl(t) && Sorted(Elems(t)) && Distinct(Elems(t))
  {}

  lemma LeaveTree(m0: Mem, m: Mem, A0: set<nat>, t: Tree, other: Tree)
    requires Editing(m, m0, A0, t, 0, [], {}) && Stores(m0, other) && AddrsOf(Elems(other)) <= m0.Keys
    requires AddrsOf(Elems(other)) !! A0
    ensures Stores(m, other)
  {
    StoresAgree(m0, m, other);
  }

  lemma TreeStates(t: Tree, st: nat, y: Lock)
    requires TreeOk(t, st) && y in Elems(t)
    ensures y.state == st
  {}

  lemma LeaveEdit(m0: Mem, m: Mem, roots0: map<nat, nat>, lists0: map<Owner, seq<nat>>, trees0: map<nat, Tree>, st: nat,
                  lists: map<Owner, seq<nat>>, t: Tree)
    requires TableOk(m0, roots0, lists0, trees0) && st in trees0
    requires Editing(m, m0, AddrsOf(Elems(trees0[st])), t, 0, [], {})
    requires ListsOk(lists, m0, AddrsOf(Elems(trees0[st])), SetOf(Elems(t)), {})
    requires TreeOk(t, st)
    ensures TableOk(m, roots0[st := Ptr(t)], lists, trees0[st := t])
  {
    hide ListsOk, Editing, TreeOk, Stores;
    var A0 := AddrsOf(Elems(trees0[st]));
    var trees := trees0[st := t];
    TreeIsDistinct(m0, roots0, lists0, trees0, st);
    LeaveLists(lists, m0, m, A0, t);
    EditingStores(m, m0, A0, t, 0, [], {});
    forall s | s in trees && s != st ensures Stores(m, trees[s]) {
      TreeIsDistinct(m0, roots0, lists0, trees0, s);
      LeaveTree(m0, m, A0, t, trees0[s]);
    }
    forall a | a in m
      ensures a != 0 && m[a].lock.addr == a && m[a].lock.state in trees && m[a].lock in Elems(trees[m[a].lock.state])
    {
      LeaveNode(m0, m, A0, t, a);
      if m[a].lock in Elems(t) {
        TreeStates(t, st, m[a].lock);
      }
    }
  }

  // ---------------------------------------------------------------- extraction and commit

  ghost predicate Sticks(y: Lock, p: Plan) {
    y.start < p.start && y.end > p.end
  }

  /** What is left of y around the edit. */
  ghost function Pieces(y: Lock, p: Plan, tail: nat): set<Lock> {
    (if y.start < p.start then {LeftPiece(y, p)} else {}) + (if y.end > p.end then {RightPiece(y, p, tail)} else {})
  }

  lemma LeftPiecesStep(D: set<Lock>, y: Lock, p: Plan)
    ensures LeftPieces(D + {y}, p) == LeftPieces(D, p) + if y.start < p.start then {LeftPiece(y, p)} else {}
  {
    forall x | x in D + {y} && x.start < p.start ensures LeftPiece(x, p) in LeftPieces(D + {y}, p) {}
    forall x | x in D && x.start < p.start ensures LeftPiece(x, p) in LeftPieces(D, p) {}
  }

  lemma RightPiecesStep(D: set<Lock>, y: Lock, p: Plan, tail: nat)
    ensures RightPieces(D + {y}, p, tail)
              == RightPieces(D, p, tail) + if y.end > p.end then {RightPiece(y, p, tail)} else {}
  {
    forall x | x in D + {y} && x.end > p.end ensures RightPiece(x, p, tail) in RightPieces(D + {y}, p, tail) {}
    forall x | x in D && x.end > p.end ensures RightPiece(x, p, tail) in RightPieces(D, p, tail) {}
  }

  lemma PiecesStep(D: set<Lock>, y: Lock, p: Plan, tail: nat)
    ensures LeftPieces(D + {y}, p) + RightPieces(D + {y}, p, tail)
            == LeftPieces(D, p) + RightPieces(D, p, tail) + Pieces(y, p, tail)
  {
    hide LeftPieces, RightPieces;
    LeftPiecesStep(D, y, p);
    RightPiecesStep(D, y, p, tail);
  }

  lemma PiecesTail(y: Lock, p: Plan, a: nat, b: nat)
    requires Sticks(y, p) ==> a == b
    ensures Pieces(y, p, a) == Pieces(y, p, b)
  {}

  lemma SetOfEmpty()
    ensures SetOf([]) == {}
  {}

  lemma NoPieces(p: Plan, tail: nat)
    ensures LeftPieces({}, p) + RightPieces({}, p, tail) == {}
  {}

  lemma QueueHead(list: seq<Lock>)
    requires list != [] && Distinct(list)
    ensures Distinct(list[1..]) && SetOf(list) == SetOf(list[1..]) + {list[0]}
    ensures list[0] in SetOf(list) && list[0] !in SetOf(list[1..])
  {
    assert list == [list[0]] + list[1..];
    DistinctTail(list[0], list[1..]);
    assert forall z :: z in list[1..] ==> z.addr in AddrsOf(list[1..]);
  }

  lemma OwnAddrsUnion(S: set<Lock>, Q: set<Lock>, o: Owner)
    ensures OwnAddrs(S + Q, o) == OwnAddrs(S, o) + OwnAddrs(Q, o)
  {}

  lemma ExtractSets(t: Tree, owner: Owner, p: Plan)
    requires Avl(t) && Sorted(Elems(t)) && Distinct(Elems(t))
    ensures var (t', list) := ExtractOwned(t, owner, p.start, p.end, []);
            var S := SetOf(Elems(t));
            && SetOf(Elems(t')) == S - Removed(S, owner, p) && SetOf(list) == Removed(S, owner, p)
            && AddrsOf(Elems(t')) + AddrsOf(list) == AddrsOf(Elems(t))
  {
    ExtractOwnedList(t, owner, p.start, p.end, []);
    ExtractOwnedCorrect(t, owner, p.start, p.end, []);
    KeepMembers(Elems(t), owner, p.start, p.end);
    var (t', list) := ExtractOwned(t, owner, p.start, p.end, []);
    assert forall y :: y in Elems(t) <==> y in Elems(t') || y in list;
  }

  lemma ExtractEditing(m: Mem, m': Mem, m0: Mem, A0: set<nat>, t: Tree, loose: set<nat>, owner: Owner, p: Plan,
                       head: nat)
    requires Editing(m, m0, A0, t, 0, [], loose) && SameOutside(m, m', AddrsOf(Elems(t)))
    requires var (t', list) := ExtractOwned(t, owner, p.start, p.end, []); Stores(m', t') && Chain(m', head, list)
    ensures var (t', list) := ExtractOwned(t, owner, p.start, p.end, []); Editing(m', m0, A0, t', head, list, loose)
  {
    ExtractSets(t, owner, p);
    ExtractFacts(t, owner, p.start, p.end, []);
  }

  lemma ExtractLists(lists: map<Owner, seq<nat>>, m0: Mem, A0: set<nat>, S: set<Lock>, T: set<Lock>, Q: set<Lock>)
    requires ListsOk(lists, m0, A0, S, {}) && S == T + Q
    ensures ListsOk(lists, m0, A0, T, Q)
  {
    forall o ensures ListOk(ListIn(lists, o), o, m0, A0, T, Q) {
      assert ListOk(ListIn(lists, o), o, m0, A0, S, {});
      OwnAddrsUnion(T, Q, o);
    }
  }

  // ---------------------------------------------------------------- the node count

  /** Of the removed locks at most one sticks out on both sides, and it is the one the plan counted. */
  lemma SticksIsPlanned(S: set<Lock>, owner: Owner, req: Request, start: int, end: int, needed: nat, p: Plan, y: Lock)
    requires Disjoint(S) && (forall x :: x in S ==> WellFormed(x)) && PlanFor(S, owner, req, start, end, needed, p)
              && start <= end
    requires y in S && y.owner == owner
    ensures Sticks(y, p) <==> Splits(y, owner, req, start, end)
    ensures Sticks(y, p) ==> Owned(y, owner, p.start, p.end)
  {
    if req == Acquire(y.ltype) && Sticks(y, p) {
      assert Mergeable(y, owner, req, start, end);
    } else if Splits(y, owner, req, start, end) {
      assert p.start == start && p.end == end;
    }
  }

  lemma NeededIs(S: set<Lock>, owner: Owner, req: Request, start: int, end: int, p: Plan)
    requires PlanFor(S, owner, req, start, end, if req.Acquire? then 1 else 0, p)
    ensures p.needed == Needed(S, owner, req, start, end)
  {}

  /** The nodes reserved are exactly the nodes the commit consumes. */
  lemma PlanCounts(S: set<Lock>, owner: Owner, req: Request, start: int, end: int, needed: nat, p: Plan)
    requires Disjoint(S) && (forall x :: x in S ==> WellFormed(x)) && PlanFor(S, owner, req, start, end, needed, p)
              && start <= end
    ensures var R := Removed(S, owner, p);
            && (forall y, z :: y in R && z in R && Sticks(y, p) && Sticks(z, p) ==> y == z)
            && p.needed == needed + if exists y :: y in R && Sticks(y, p) then 1 else 0
  {
    forall y | y in S && y.owner == owner
      ensures Sticks(y, p) <==> Splits(y, owner, req, start, end)
      ensures Sticks(y, p) ==> y in Removed(S, owner, p)
    {
      SticksIsPlanned(S, owner, req, start, end, needed, p, y);
    }
  }

  lemma RemovedInside(S: set<Lock>, owner: Owner, p: Plan)
    ensures Removed(S, owner, p) <= S
  {}

  lemma RightPiecesTail(R: set<Lock>, p: Plan, a: nat, b: nat)
    requires forall y :: y in R ==> !Sticks(y, p)
    ensures RightPieces(R, p, a) == RightPieces(R, p, b)
  {
    forall y | y in R && y.end > p.end ensures RightPiece(y, p, a) == RightPiece(y, p, b) {}
  }

  lemma CommittedStates(S: set<Lock>, e: Edit)
    requires forall y :: y in S ==> WellFormed(y) && y.addr != e.tailAddr && y.state == e.state
    ensures forall x :: x in Committed(S, e) ==> x.state == e.state
  {
    forall x | x in Committed(S, e) ensures x.state == e.state {
      if x !in NewLocks(e) {
        SurvivorsArePieces(S, e, x);
      }
    }
  }

  /** The edit that a request over the locks S with the reserved nodes `spares` performs. */
  ghost function EditOf(S: set<Lock>, st: nat, owner: Owner, req: Request, pid: int, p: Plan, spares: seq<nat>): Edit {
    var split := exists y :: y in Removed(S, owner, p) && Sticks(y, p);
    Edit(st, owner, req, pid, p,
         if split && spares != [] then spares[0] else 0,
         if req.Acquire? && spares != [] then spares[|spares| - 1] else 0)
  }

  // ---------------------------------------------------------------- the table

  class RecordLockTable {
    /** Lock nodes on the kernel heap. */
    const nodes: LockNodes
    /** state->root of every inode. */
    var roots: map<nat, nat>
    /** The owner lists, as node addresses from the head. */
    var lists: map<Owner, seq<nat>>
    ghost var trees: map<nat, Tree>

    constructor ()
      ensures Valid() && roots == map[] && nodes.mem == map[]
    {
      nodes := new LockNodes();
      roots, lists, trees := map[], map[], map[];
      new;
      forall o ensures ListOk(ListIn(lists, o), o, nodes.mem, {}, {}, {}) {
        assert OwnAddrs({}, o) == {} && RestAddrs(nodes.mem, {}, o) == {};
        assert AddrSet([]) == {};
      }
    }

    /** The table while the tree of st is being edited. */
    ghost predicate Mid(st: nat, m0: Mem, A0: set<nat>, head: nat, list: seq<Lock>, loose: set<nat>)
      reads this, nodes
    {
      && st in roots && st in trees && roots[st] == Ptr(trees[st])
      && Editing(nodes.mem, m0, A0, trees[st], head, list, loose)
      && ListsOk(lists, m0, A0, SetOf(Elems(trees[st])), SetOf(list))
    }

    /** Store the fields of x in the loose node n, then `publish` it: into the tree of st and at the head
        of its owner's list. */
    method Publish(st: nat, n: nat, x: Lock, ghost m0: Mem, ghost A0: set<nat>,
                   ghost head: nat, ghost list: seq<Lock>, ghost loose: set<nat>)
      requires Mid(st, m0, A0, head, list, loose) && n in loose && x.addr == n && x.state == st
      modifies this, nodes
      ensures Mid(st, m0, A0, head, list, loose - {n})
      ensures SetOf(Elems(trees[st])) == SetOf(Elems(old(trees[st]))) + {x}
      ensures trees == old(trees)[st := trees[st]] && roots == old(roots)[st := roots[st]]
    {
      LooseIsApart(nodes.mem, m0, A0, trees[st], head, list, loose, n);
      ListsAfterPublish(lists, m0, A0, SetOf(Elems(trees[st])), SetOf(list), x);
      WriteLoose(nodes.mem, m0, A0, trees[st], head, list, loose, n, Rec(0, 0, x, 1, x.end));
      nodes.mem := nodes.mem[n := Rec(0, 0, x, 1, x.end)];
      lists := lists[x.owner := [n] + ListIn(lists, x.owner)];
      ghost var m := nodes.mem;
      var root := nodes.InsertNode(roots[st], n, trees[st], x);
      InsertKeeps(trees[st], x);
      InsertLoose(m, nodes.mem, m0, A0, trees[st], Insert(trees[st], x), head, list, loose, x);
      roots := roots[st := root];
      trees := trees[st := Insert(trees[st], x)];
    }

    /** Take the head of the extraction list and unlink it from its owner's list. */
    method TakeOld(st: nat, old_: nat, ghost m0: Mem, ghost A0: set<nat>, ghost list: seq<Lock>, ghost loose: set<nat>)
      returns (next: nat, lock: Lock)
      requires Mid(st, m0, A0, old_, list, loose) && list != []
      modifies this
      ensures lock == list[0] && lock.addr == old_ && old_ !in loose
      ensures Mid(st, m0, A0, next, list[1..], loose + {old_}) && trees == old(trees) && roots == old(roots)
    {
      HeadIsApart(nodes.mem, m0, A0, trees[st], old_, list, loose);
      TakeHead(nodes.mem, m0, A0, trees[st], old_, list, loose);
      ListsAfterUnlink(lists, m0, A0, SetOf(Elems(trees[st])), SetOf(list), list[0]);
      next, lock := nodes.mem[old_].left, nodes.mem[old_].lock;
      assert lock.owner in lists && old_ in lists[lock.owner];
      lists := lists[lock.owner := Unlinked(lists[lock.owner], old_)];
    }

    method Free(st: nat, n: nat, ghost m0: Mem, ghost A0: set<nat>, ghost head: nat, ghost list: seq<Lock>,
                ghost loose: set<nat>)
      requires Mid(st, m0, A0, head, list, loose) && n in loose
      modifies nodes
      ensures Mid(st, m0, A0, head, list, loose - {n})
    {
      FreeLoose(nodes.mem, m0, A0, trees[st], head, list, loose, n);
      nodes.mem := nodes.mem - {n};
    }

    /** Both ends of the old lock stick out: its node keeps the part before the edit, a reserved node takes
        the part behind it. */
    method CommitSplit(st: nat, p: Plan, n: nat, lock: Lock, spares: seq<nat>,
                       ghost m0: Mem, ghost A0: set<nat>, ghost head: nat, ghost list: seq<Lock>)
      returns (spares': seq<nat>)
      requires Mid(st, m0, A0, head, list, AddrSet(spares) + {n}) && NoDupAddrs(spares) && spares != [] && n !in spares
      requires lock.addr == n && lock.state == st
      modifies this, nodes
      ensures spares' == spares[1..] && Mid(st, m0, A0, head, list, AddrSet(spares'))
      ensures SetOf(Elems(trees[st])) == SetOf(Elems(old(trees[st])))
                + {lock.(end := p.start - 1)} + {lock.(addr := spares[0], start := p.end + 1)}
      ensures trees == old(trees)[st := trees[st]] && roots == old(roots)[st := roots[st]]
    {
      hide Mid;
      Publish(st, n, lock.(end := p.start - 1), m0, A0, head, list, AddrSet(spares) + {n});
      assert AddrSet(spares) + {n} - {n} == AddrSet(spares);
      var tail := spares[0];
      spares' := spares[1..];
      assert spares == [tail] + spares' && AddrSet(spares) - {tail} == AddrSet(spares');
      Publish(st, tail, lock.(addr := tail, start := p.end + 1), m0, A0, head, list, AddrSet(spares));
    }

    /** One turn of the commit loop: the extracted node is trimmed, split over a reserved node, or released. */
    method CommitOne(st: nat, p: Plan, old_: nat, spares: seq<nat>,
                     ghost m0: Mem, ghost A0: set<nat>, ghost list: seq<Lock>)
      returns (next: nat, spares': seq<nat>)
      requires Mid(st, m0, A0, old_, list, AddrSet(spares)) && NoDupAddrs(spares) && list != [] && list[0].state == st
      requires list[0].start < p.start && list[0].end > p.end ==> spares != []
      modifies this, nodes
      ensures spares' == if list[0].start < p.start && list[0].end > p.end then spares[1..] else spares
      ensures Mid(st, m0, A0, next, list[1..], AddrSet(spares'))
      ensures SetOf(Elems(trees[st])) == SetOf(Elems(old(trees[st])))
                + Pieces(list[0], p, if spares == [] then 0 else spares[0])
      ensures trees == old(trees)[st := trees[st]] && roots == old(roots)[st := roots[st]]
    {
      hide Mid;
      var lock;
      next, lock := TakeOld(st, old_, m0, A0, list, AddrSet(spares));
      var left, right := lock.start < p.start, lock.end > p.end;
      spares' := spares;
      assert AddrSet(spares) + {old_} - {old_} == AddrSet(spares);
      if left && right {
        spares' := CommitSplit(st, p, old_, lock, spares, m0, A0, next, list[1..]);
      } else if left {
        Publish(st, old_, lock.(end := p.start - 1), m0, A0, next, list[1..], AddrSet(spares) + {old_});
      } else if right {
        Publish(st, old_, lock.(start := p.end + 1), m0, A0, next, list[1..], AddrSet(spares) + {old_});
      } else {
        Free(st, old_, m0, A0, next, list[1..], AddrSet(spares) + {old_});
      }
    }

    lemma MidIntro(st: nat, m0: Mem, A0: set<nat>, head: nat, list: seq<Lock>, loose: set<nat>)
      requires st in roots && st in trees && roots[st] == Ptr(trees[st])
      requires Editing(nodes.mem, m0, A0, trees[st], head, list, loose)
      requires ListsOk(lists, m0, A0, SetOf(Elems(trees[st])), SetOf(list))
      ensures Mid(st, m0, A0, head, list, loose)
    {}

    lemma MidElim(st: nat, m0: Mem, A0: set<nat>, head: nat, list: seq<Lock>, loose: set<nat>)
      requires Mid(st, m0, A0, head, list, loose)
      ensures st in roots && st in trees && roots[st] == Ptr(trees[st])
      ensures Editing(nodes.mem, m0, A0, trees[st], head, list, loose)
      ensures ListsOk(lists, m0, A0, SetOf(Elems(trees[st])), SetOf(list))
      ensures Avl(trees[st]) && Sorted(Elems(trees[st]))
    {}

    lemma MidHead(st: nat, m0: Mem, A0: set<nat>, head: nat, list: seq<Lock>, loose: set<nat>)
      requires Mid(st, m0, A0, head, list, loose)
      ensures st in trees && st in roots && (head == 0 <==> list == []) && Distinct(list)
    {}

    method Extract(st: nat, owner: Owner, p: Plan, ghost m0: Mem, ghost A0: set<nat>, ghost loose: set<nat>)
      returns (old_: nat, ghost list: seq<Lock>)
      requires Mid(st, m0, A0, 0, [], loose)
      modifies this, nodes
      ensures Mid(st, m0, A0, old_, list, loose)
      ensures var S := SetOf(Elems(old(trees[st])));
              var R := Removed(S, owner, p);
              SetOf(Elems(trees[st])) == S - R && SetOf(list) == R
      ensures trees == old(trees)[st := trees[st]] && roots == old(roots)[st := roots[st]]
    {
      ghost var t := trees[st];
      ghost var S := SetOf(Elems(t));
      assert SetOf([]) == {};
      ExtractSets(t, owner, p);
      var root;
      root, old_ := nodes.ExtractOwnedNode(roots[st], owner, p.start, p.end, 0, t, []);
      ghost var t';
      t', list := ExtractOwned(t, owner, p.start, p.end, []).0, ExtractOwned(t, owner, p.start, p.end, []).1;
      ExtractEditing(old(nodes.mem), nodes.mem, m0, A0, t, loose, owner, p, old_);
      ExtractLists(lists, m0, A0, S, SetOf(Elems(t')), SetOf(list));
      roots := roots[st := root];
      trees := trees[st := t'];
    }

    /** The commit loop over the extraction list. */
    method CommitAll(st: nat, p: Plan, old_: nat, spares: seq<nat>,
                     ghost m0: Mem, ghost A0: set<nat>, ghost list: seq<Lock>)
      returns (spares': seq<nat>)
      requires Mid(st, m0, A0, old_, list, AddrSet(spares)) && NoDupAddrs(spares)
      requires forall y :: y in SetOf(list) ==> y.state == st
      requires forall y, z :: y in SetOf(list) && z in SetOf(list) && Sticks(y, p) && Sticks(z, p) ==> y == z
      requires (exists y :: y in SetOf(list) && Sticks(y, p)) ==> spares != []
      modifies this, nodes
      ensures spares' == if exists y :: y in SetOf(list) && Sticks(y, p) then spares[1..] else spares
      ensures Mid(st, m0, A0, 0, [], AddrSet(spares'))
      ensures var tail := if spares == [] then 0 else spares[0];
              SetOf(Elems(trees[st]))
                  == SetOf(Elems(old(trees[st]))) + (LeftPieces(SetOf(list), p) + RightPieces(SetOf(list), p, tail))
      ensures trees == old(trees)[st := trees[st]] && roots == old(roots)[st := roots[st]]
    {
      hide Mid, LeftPieces, RightPieces, Pieces, SetOf, Elems, Distinct;
      ghost var tail := if spares == [] then 0 else spares[0];
      var cur := old_;
      spares' := spares;
      ghost var Q, D: set<Lock> := list, {};
      MidHead(st, m0, A0, cur, Q, AddrSet(spares));
      NoPieces(p, tail);
      while cur != 0
        invariant Mid(st, m0, A0, cur, Q, AddrSet(spares')) && NoDupAddrs(spares')
        invariant st in trees && st in roots && st in old(trees) && st in old(roots) && (cur == 0 <==> Q == [])
        invariant Distinct(Q) && D + SetOf(Q) == SetOf(list) && D !! SetOf(Q)
        invariant SetOf(Elems(trees[st])) == SetOf(Elems(old(trees[st]))) + (LeftPieces(D, p) + RightPieces(D, p, tail))
        invariant spares' == if exists y :: y in D && Sticks(y, p) then spares[1..] else spares
        invariant trees == old(trees)[st := trees[st]] && roots == old(roots)[st := roots[st]]
        decreases |Q|
      {
        ghost var y := Q[0];
        QueueHead(Q);
        assert y in SetOf(list);
        PiecesTail(y, p, tail, if spares' == [] then 0 else spares'[0]);
        PiecesStep(D, y, p, tail);
        cur, spares' := CommitOne(st, p, cur, spares', m0, A0, Q);
        D, Q := D + {y}, Q[1..];
        MidHead(st, m0, A0, cur, Q, AddrSet(spares'));
      }
      SetOfEmpty();
      assert D == SetOf(list);
    }

    ghost predicate Valid()
      reads this, nodes
    {
      TableOk(nodes.mem, roots, lists, trees)
    }

    ghost function Locks(st: nat): set<Lock>
      requires st in trees
      reads this
    {
      SetOf(Elems(trees[st]))
    }

    /** Reserve every node the edit will need, or none, when one of them is not to be had: `offers` is what the heap
          hands out, 0 for an empty heap. */
    method Reserve(needed: nat, offers: seq<nat>) returns (ok: bool, spares: seq<nat>)
      modifies nodes
      ensures ok <==> Offered(old(nodes.mem), offers, needed)
      ensures ok ==> |spares| == needed
      ensures NoDupAddrs(spares) && 0 !in AddrSet(spares) && AddrSet(spares) !! old(nodes.mem.Keys)
      ensures ok ==> nodes.mem.Keys == old(nodes.mem.Keys) + AddrSet(spares)
      ensures ok ==> forall a :: a in old(nodes.mem) ==> nodes.mem[a] == old(nodes.mem[a])
      ensures !ok ==> nodes.mem == old(nodes.mem)
    {
      spares := [];
      var i := 0;
      while i < needed
        invariant 0 <= i <= needed && |spares| == i && Offered(old(nodes.mem), offers, i)
                  && AddrSet(spares) == AddrSet(offers[..i])
        invariant NoDupAddrs(spares) && 0 !in AddrSet(spares) && AddrSet(spares) !! old(nodes.mem.Keys)
        invariant nodes.mem.Keys == old(nodes.mem.Keys) + AddrSet(spares)
        invariant forall a :: a in old(nodes.mem) ==> nodes.mem[a] == old(nodes.mem[a])
      {
        OfferedMore(old(nodes.mem), offers, i, needed, AddrSet(spares));
        if i >= |offers| || offers[i] == 0 || offers[i] in nodes.mem {
          ReleaseSpares(spares, old(nodes.mem));
          return false, [];
        }
        var node := offers[i];
        nodes.mem := nodes.mem[node := Rec(0, 0, Lock(node, 0, Owner(0, 0), 0, ReadLock, 0, 0), 0, 0)];
        assert AddrSet([node] + spares) == {node} + AddrSet(spares);
        spares := [node] + spares;
        i := i + 1;
      }
      return true, spares;
    }

    method ReleaseSpares(spares: seq<nat>, ghost m0: Mem)
      requires NoDupAddrs(spares) && AddrSet(spares) !! m0.Keys && nodes.mem.Keys == m0.Keys + AddrSet(spares)
      requires forall a :: a in m0 ==> nodes.mem[a] == m0[a]
      modifies nodes
      ensures nodes.mem == m0
    {
      var left := spares;
      while left != []
        invariant NoDupAddrs(left) && AddrSet(left) !! m0.Keys && nodes.mem.Keys == m0.Keys + AddrSet(left)
        invariant forall a :: a in m0 ==> nodes.mem[a] == m0[a]
        decreases |left|
      {
        assert left == [left[0]] + left[1..];
        assert AddrSet(left) == {left[0]} + AddrSet(left[1..]);
        nodes.mem := nodes.mem - {left[0]};
        left := left[1..];
      }
      assert AddrSet(left) == {};
    }

    /** Extraction and the commit loop: what is left of the old locks. */
    method Clear(st: nat, owner: Owner, p: Plan, spares: seq<nat>, ghost tail: nat, ghost m0: Mem, ghost A0: set<nat>)
      returns (spares': seq<nat>)
      requires st in trees && st in roots && Mid(st, m0, A0, 0, [], AddrSet(spares)) && NoDupAddrs(spares)
      requires forall y :: y in SetOf(Elems(trees[st])) ==> y.state == st
      requires var R := Removed(SetOf(Elems(trees[st])), owner, p);
               && (forall y, z :: y in R && z in R && Sticks(y, p) && Sticks(z, p) ==> y == z)
               && ((exists y :: y in R && Sticks(y, p)) ==> spares != [] && tail == spares[0])
      modifies this, nodes
      ensures var S := SetOf(Elems(old(trees[st])));
              var R := Removed(S, owner, p);
              && spares' == (if exists y :: y in R && Sticks(y, p) then spares[1..] else spares)
              && Mid(st, m0, A0, 0, [], AddrSet(spares'))
              && SetOf(Elems(trees[st])) == (S - R) + (LeftPieces(R, p) + RightPieces(R, p, tail))
      ensures trees == old(trees)[st := trees[st]] && roots == old(roots)[st := roots[st]]
    {
      hide *;
      ghost var R := Removed(SetOf(Elems(trees[st])), owner, p);
      RemovedInside(SetOf(Elems(trees[st])), owner, p);
      var old_; ghost var list;
      old_, list := Extract(st, owner, p, m0, A0, AddrSet(spares));
      MidHead(st, m0, A0, old_, list, AddrSet(spares));
      spares' := CommitAll(st, p, old_, spares, m0, A0, list);
      if !exists y :: y in R && Sticks(y, p) {
        RightPiecesTail(R, p, if spares == [] then 0 else spares[0], tail);
      }
    }

    /** Clear the range, then publish the new lock if there is one; the reserved nodes are used up. */
    method Apply(st: nat, owner: Owner, req: Request, pid: int, p: Plan, spares: seq<nat>, ghost m0: Mem,
                 ghost A0: set<nat>)
      requires st in trees && st in roots && Mid(st, m0, A0, 0, [], AddrSet(spares)) && NoDupAddrs(spares)
      requires forall y :: y in SetOf(Elems(trees[st])) ==> y.state == st
      requires var R := Removed(SetOf(Elems(trees[st])), owner, p);
               && (forall y, z :: y in R && z in R && Sticks(y, p) && Sticks(z, p) ==> y == z)
               && |spares| == (if req.Acquire? then 1 else 0) + if exists y :: y in R && Sticks(y, p) then 1 else 0
      modifies this, nodes
      ensures Mid(st, m0, A0, 0, [], {})
      ensures var S := SetOf(Elems(old(trees[st])));
              SetOf(Elems(trees[st])) == Committed(S, EditOf(S, st, owner, req, pid, p, spares))
      ensures trees == old(trees)[st := trees[st]] && roots == old(roots)[st := roots[st]]
    {
      hide Mid, LeftPieces, RightPieces, SetOf, Elems, AddrSet, Removed, Sticks, NoDupAddrs;
      ghost var e := EditOf(SetOf(Elems(trees[st])), st, owner, req, pid, p, spares);
      var rest := Clear(st, owner, p, spares, e.tailAddr, m0, A0);
      MidHead(st, m0, A0, 0, [], AddrSet(rest));
      if req.Acquire? {
        assert rest != [];
        var node := rest[0];
        AddrSetSingle(rest);
        Publish(st, node, Lock(node, st, owner, pid, req.ltype, p.start, p.end), m0, A0, 0, [], AddrSet(rest));
        rest := rest[1..];
      }
      AddrSetEmpty();
      assert rest == [];
    }

    /** The tree walk of `kernel_record_lock_get`: the node of the first conflicting lock, or 0. */
    method FindConflict(st: nat, owner: Owner, start: int, end: int, ltype: LockType) returns (found: nat)
      requires Valid() && st in roots
      ensures found == 0 <==> !exists y :: y in Locks(st) && Conflicts(y, owner, start, end, ltype)
      ensures found != 0 ==> found in nodes.mem
                             && FirstConflict(Elems(trees[st]), owner, start, end, ltype, Some(nodes.mem[found].lock))
    {
      ghost var t := trees[st];
      TreeIsDistinct(nodes.mem, roots, lists, trees, st);
      ConflictCorrect(t, owner, start, end, ltype);
      found := ConflictAt(nodes.mem, roots[st], owner, start, end, ltype, t);
    }

    method MakePlan(st: nat, owner: Owner, start: int, end: int, req: Request) returns (p: Plan)
      requires Valid() && st in roots && INT64_MIN <= start <= end <= INT64_MAX
      ensures PlanOk(p) && PlanFor(Locks(st), owner, req, start, end, if req.Acquire? then 1 else 0, p)
    {
      var base := if req.Acquire? then 1 else 0;
      TreeIsDistinct(nodes.mem, roots, lists, trees, st);
      forall y | y in Elems(trees[st]) ensures WellFormed(y) {
        assert y in SetOf(Elems(trees[st]));
      }
      PrepareEditCorrect(trees[st], owner, req, start, end, base);
      p := PrepareEditAt(nodes.mem, roots[st], owner, req, Plan(start, end, base), trees[st]);
    }

    /** The whole commit on reserved nodes: from one valid table to the next. */
    method Commit(st: nat, owner: Owner, pid: int, req: Request, p: Plan, spares: seq<nat>,
                  ghost m0: Mem, ghost start: int, ghost end: int)
      requires TableOk(m0, roots, lists, trees) && st in trees && NoDupAddrs(spares) && AddrSet(spares) !! m0.Keys
      requires 0 !in AddrSet(spares) && |spares| == p.needed
      requires nodes.mem.Keys == m0.Keys + AddrSet(spares) && forall a :: a in m0 ==> nodes.mem[a] == m0[a]
      requires PlanOk(p) && PlanFor(Locks(st), owner, req, start, end, if req.Acquire? then 1 else 0, p) && start <= end
      requires EditOk(Locks(st), EditOf(Locks(st), st, owner, req, pid, p, spares), start, end)
      modifies this, nodes
      ensures Valid() && roots.Keys == old(roots.Keys)
      ensures Locks(st) == Committed(old(Locks(st)), EditOf(old(Locks(st)), st, owner, req, pid, p, spares))
      ensures trees == old(trees)[st := trees[st]]
    {
      hide Mid, TableOk, Editing, ListsOk, SetOf, Elems, AddrsOf, AddrSet, PlanFor, EditOk, Committed, LocksOk,
           TreeOk, Removed, Sticks, Disjoint;
      ghost var t := trees[st];
      ghost var S := SetOf(Elems(t));
      ghost var A0 := AddrsOf(Elems(t));
      ghost var e := EditOf(S, st, owner, req, pid, p, spares);
      TableTree(m0, roots, lists, trees, st);
      EnterEdit(m0, nodes.mem, roots, lists, trees, st, AddrSet(spares));
      SetOfEmpty();
      MidIntro(st, m0, A0, 0, [], AddrSet(spares));
      PlanCounts(S, owner, req, start, end, if req.Acquire? then 1 else 0, p);
      ghost var roots0, lists0, trees0 := roots, lists, trees;
      Apply(st, owner, req, pid, p, spares, m0, A0);
      MidElim(st, m0, A0, 0, [], {});
      CommittedTree(trees[st], S, e, start, end);
      LeaveEdit(m0, nodes.mem, roots0, lists0, trees0, st, lists, trees[st]);
    }

    lemma AtRest()
      requires Valid()
      ensures TableOk(nodes.mem, roots, lists, trees) && trees.Keys == roots.Keys
    {}

    lemma ValidIntro()
      requires TableOk(nodes.mem, roots, lists, trees)
      ensures Valid()
    {}

    lemma LocksAre(st: nat)
      requires st in trees
      ensures Locks(st) == SetOf(Elems(trees[st]))
    {}

    /** `kernel_record_lock_set`. On success e describes the edit; otherwise nothing has changed. */
    method Set(st: nat, owner: Owner, pid: int, start: int, end: int, req: Request, offers: seq<nat>)
      returns (result: Result, ghost e: Edit)
      requires Valid() && st in roots && INT64_MIN <= start <= end <= INT64_MAX
      modifies this, nodes
      ensures Valid() && roots.Keys == old(roots.Keys)
      ensures result.Again? <==>
                req.Acquire? && exists y :: y in old(Locks(st)) && Conflicts(y, owner, start, end, req.ltype)
      ensures result.NoLocks? <==>
                && !Offered(old(nodes.mem), offers, Needed(old(Locks(st)), owner, req, start, end))
                && !(req.Acquire? && exists y :: y in old(Locks(st)) && Conflicts(y, owner, start, end, req.ltype))
      ensures !result.Ok? ==>
                nodes.mem == old(nodes.mem) && roots == old(roots) && lists == old(lists) && trees == old(trees)
      ensures result.Ok? ==> e.state == st && e.owner == owner && e.req == req && e.pid == pid
      ensures result.Ok? ==> EditOk(old(Locks(st)), e, start, end) && Locks(st) == Committed(old(Locks(st)), e)
      ensures result.Ok? ==>
                forall o, b, t :: HoldsType(Locks(st), o, b, t)
                  <==> if o == owner && start <= b <= end then req == Acquire(t) else HoldsType(old(Locks(st)), o, b, t)
      ensures forall s :: s in roots && s != st ==> trees[s] == old(trees[s])
    {
      hide *;
      AtRest();
      LocksAre(st);
      ghost var m0, S := nodes.mem, Locks(st);
      e := Edit(st, owner, req, pid, Plan(start, end, 0), 0, 0);
      if req.Acquire? {
        var found := FindConflict(st, owner, start, end, req.ltype);
        if found != 0 {
          result := Again;
          return;
        }
      }
      var p := MakePlan(st, owner, start, end, req);
      NeededIs(S, owner, req, start, end, p);
      var ok, spares := Reserve(p.needed, offers);
      if !ok {
        ValidIntro();
        result := NoLocks;
        return;
      }
      e := EditOf(S, st, owner, req, pid, p, spares);
      EditFields(S, st, owner, req, pid, p, spares);
      EditIsOk(m0, roots, lists, trees, st, owner, req, pid, start, end, p, spares);
      Commit(st, owner, pid, req, p, spares, m0, start, end);
      forall o, b, t
        ensures HoldsType(Locks(st), o, b, t)
                <==> if o == owner && start <= b <= end then req == Acquire(t) else HoldsType(S, o, b, t)
      {
        SetIsExact(S, e, start, end, o, b, t);
      }
      result := Ok;
    }

    /** `kernel_record_lock_get`: the in-order first conflicting lock; the pid of an open file description is -1. */
    method Get(st: nat, owner: Owner, start: int, end: int, ltype: LockType) returns (report: Report)
      requires Valid() && st in roots
      ensures report.NoConflict? <==> !exists y :: y in Locks(st) && Conflicts(y, owner, start, end, ltype)
      ensures report.Held? ==> exists y :: FirstConflict(Elems(trees[st]), owner, start, end, ltype, Some(y))
                                          && report
                                          == Held(y.start, y.end,
                                                  if y.owner.kind != 0 then -1 else y.pid, y.ltype, y.owner)
    {
      var found := FindConflict(st, owner, start, end, ltype);
      if found == 0 {
        return NoConflict;
      }
      var lock := nodes.mem[found].lock;
      report := Held(lock.start, lock.end, if lock.owner.kind != 0 then -1 else lock.pid, lock.ltype, lock.owner);
    }

    /** `kernel_record_lock_state_init` for a new inode. */
    method InitState(st: nat)
      requires Valid() && st !in roots
      modifies this
      ensures Valid() && roots == old(roots)[st := 0] && Locks(st) == {}
      ensures trees == old(trees)[st := Leaf]
    {
      roots := roots[st := 0];
      trees := trees[st := Leaf];
    }

    /** `tree_remove` of one lock: its node becomes loose. */
    method TakeLock(st: nat, n: nat, ghost x: Lock, ghost m0: Mem, ghost A0: set<nat>)
      requires Mid(st, m0, A0, 0, [], {}) && x in SetOf(Elems(trees[st])) && n == x.addr
      modifies this`roots, this`trees, nodes
      ensures st in roots && st in trees && roots[st] == Ptr(trees[st])
      ensures Editing(nodes.mem, m0, A0, trees[st], 0, [], {n})
      ensures trees == old(trees)[st := Remove(old(trees[st]), x)] && roots == old(roots)[st := roots[st]]
    {
      ghost var t := trees[st];
      RemoveKeeps(t, x);
      var root := nodes.RemoveNode(roots[st], n, t, x);
      RemoveEditing(old(nodes.mem), nodes.mem, m0, A0, t, Remove(t, x), x);
      roots := roots[st := root];
      trees := trees[st := Remove(t, x)];
    }

    /** Take one lock of the inode out of the tree and out of its owner's list, and free its node. */
    method DropLock(st: nat, n: nat, ghost x: Lock, ghost m0: Mem, ghost A0: set<nat>)
      requires st in trees && Mid(st, m0, A0, 0, [], {}) && x in SetOf(Elems(trees[st])) && n == x.addr
      modifies this, nodes
      ensures Mid(st, m0, A0, 0, [], {})
      ensures SetOf(Elems(trees[st])) == SetOf(Elems(old(trees[st]))) - {x}
      ensures trees == old(trees)[st := trees[st]] && roots == old(roots)[st := roots[st]]
    {
      hide *;
      ghost var t, S := trees[st], SetOf(Elems(trees[st]));
      MidMember(st, m0, A0, x);
      MidElim(st, m0, A0, 0, [], {});
      SetOfEmpty();
      var owner := nodes.mem[n].lock.owner;
      TakeLock(st, n, x, m0, A0);
      assert S == (S - {x}) + {x} && {x} - {x} == {} && {n} - {n} == {};
      ExtractLists(lists, m0, A0, S, S - {x}, {x});
      ListsAfterUnlink(lists, m0, A0, S - {x}, {x}, x);
      lists := lists[owner := Unlinked(lists[owner], n)];
      MidIntro(st, m0, A0, 0, [], {n});
      Free(st, n, m0, A0, 0, [], {n});
    }

    /** `kernel_record_lock_release`: walk the owner's list and drop its locks on this inode. */
    method Release(st: nat, owner: Owner)
      requires Valid() && st in roots
      modifies this, nodes
      ensures Valid() && roots.Keys == old(roots.Keys)
      ensures Locks(st) == set y | y in old(Locks(st)) && y.owner != owner
      ensures forall s :: s in roots && s != st ==> trees[s] == old(trees[s])
    {
      hide *;
      AtRest();
      LocksAre(st);
      ghost var m0, roots0, lists0, trees0 := nodes.mem, roots, lists, trees;
      ghost var t := trees[st];
      ghost var S, A0 := SetOf(Elems(t)), AddrsOf(Elems(t));
      TableTree(m0, roots, lists, trees, st);
      AddrSetEmpty();
      EnterEdit(m0, nodes.mem, roots, lists, trees, st, {});
      SetOfEmpty();
      MidIntro(st, m0, A0, 0, [], {});
      var list := ListIn(lists, owner);
      ListedOnce(m0, roots, lists, trees, owner);
      var i := 0;
      GoneNone(S, owner);
      assert list[..0] == [];
      while i < |list|
        invariant 0 <= i <= |list|
        invariant st in trees && st in roots && Mid(st, m0, A0, 0, [], {})
        invariant SetOf(Elems(trees[st])) == S - Gone(S, owner, AddrSet(list[..i]))
        invariant trees == trees0[st := trees[st]] && roots == roots0[st := roots[st]]
      {
        var n := list[i];
        ListedNode(m0, roots0, lists0, trees0, st, owner, n);
        AddrSetPrefix(list, i);
        GoneStep(S, owner, AddrSet(list[..i]), n, m0[n].lock);
        ListedNow(st, m0, A0, n);
        if nodes.mem[n].lock.state == st {
          DropLock(st, n, m0[n].lock, m0, A0);
          MidHead(st, m0, A0, 0, [], {});
        }
        i := i + 1;
      }
      assert list[..i] == list;
      AllListed(m0, roots0, lists0, trees0, st, owner);
      MidElim(st, m0, A0, 0, [], {});
      SubTree(t, trees[st], st);
      LeaveEdit(m0, nodes.mem, roots0, lists0, trees0, st, lists, trees[st]);
      ValidIntro();
      LocksAre(st);
    }

    /** A listed node that has not been dropped still holds its lock. */
    lemma ListedNow(st: nat, m0: Mem, A0: set<nat>, n: nat)
      requires st in trees && Mid(st, m0, A0, 0, [], {}) && n in m0 && m0[n].lock.addr == n
      requires n in A0 ==> m0[n].lock in SetOf(Elems(trees[st]))
      ensures n in nodes.mem && nodes.mem[n].lock == m0[n].lock
    {
      if n in A0 {
        StoresMember(nodes.mem, trees[st], m0[n].lock);
      }
    }

    lemma MidMember(st: nat, m0: Mem, A0: set<nat>, x: Lock)
      requires st in trees && Mid(st, m0, A0, 0, [], {}) && x in SetOf(Elems(trees[st]))
      ensures x.addr in nodes.mem && nodes.mem[x.addr].lock == x && x.addr !in m0.Keys - A0
      ensures forall z :: z in SetOf(Elems(trees[st])) && z != x ==> z.addr != x.addr
      ensures SetOf(Elems(Remove(trees[st], x))) == SetOf(Elems(trees[st])) - {x}
    {
      StoresMember(nodes.mem, trees[st], x);
      DistinctMembers(Elems(trees[st]));
      RemoveKeeps(trees[st], x);
      assert x.addr in AddrsOf(Elems(trees[st]));
    }
  }

  lemma RemoveKeeps(t: Tree, x: Lock)
    requires Avl(t) && Sorted(Elems(t)) && Distinct(Elems(t)) && x in Elems(t)
    ensures var t' := Remove(t, x);
            && Avl(t') && Sorted(Elems(t')) && Distinct(Elems(t')) && SetOf(Elems(t')) == SetOf(Elems(t)) - {x}
            && AddrsOf(Elems(t)) == AddrsOf(Elems(t')) + {x.addr} && x.addr !in AddrsOf(Elems(t'))
  {
    DistinctMembers(Elems(t));
    RemoveCorrect(t, x);
    DistinctBySet(Elems(Remove(t, x)));
  }

  lemma RemoveEditing(m: Mem, m': Mem, m0: Mem, A0: set<nat>, t: Tree, t': Tree, x: Lock)
    requires Editing(m, m0, A0, t, 0, [], {}) && SameOutside(m, m', AddrsOf(Elems(t))) && Stores(m', t')
    requires Avl(t') && Sorted(Elems(t')) && Distinct(Elems(t')) && x.addr != 0
    requires AddrsOf(Elems(t)) == AddrsOf(Elems(t')) + {x.addr} && x.addr !in AddrsOf(Elems(t'))
    ensures Editing(m', m0, A0, t', 0, [], {x.addr})
  {
    PartsRemove(m.Keys, m0.Keys - A0, AddrsOf(Elems(t')), x.addr);
  }

  lemma PartsRemove(keys: set<nat>, rest: set<nat>, T: set<nat>, n: nat)
    requires Parts(keys, rest, T + {n}, AddrsOf([]), {}) && n !in T
    ensures Parts(keys, rest, T, AddrsOf([]), {n})
  {}

  // ---------------------------------------------------------------- release

  ghost function Gone(S: set<Lock>, owner: Owner, done: set<nat>): set<Lock> {
    set y | y in S && y.owner == owner && y.addr in done
  }

  /** A listed node is the owner's, and belongs to the inode exactly when it is one of the inode's nodes. */
  lemma ListedNode(m0: Mem, roots: map<nat, nat>, lists: map<Owner, seq<nat>>, trees: map<nat, Tree>, st: nat,
                   owner: Owner, n: nat)
    requires TableOk(m0, roots, lists, trees) && st in trees && n in ListIn(lists, owner)
    ensures n in m0 && m0[n].lock.owner == owner && m0[n].lock.addr == n
    ensures m0[n].lock.state == st <==> n in AddrsOf(Elems(trees[st]))
    ensures n in AddrsOf(Elems(trees[st])) <==> m0[n].lock in SetOf(Elems(trees[st]))
    ensures forall y :: y in SetOf(Elems(trees[st])) && y.addr == n ==> y == m0[n].lock
  {
    forall y | y in SetOf(Elems(trees[st])) && y.addr == n ensures y == m0[n].lock {
      StoresMember(m0, trees[st], y);
    }
    assert ListOk(ListIn(lists, owner), owner, m0, {}, {}, {});
    assert n in AddrSet(ListIn(lists, owner));
    if n in AddrsOf(Elems(trees[st])) {
      var y :| y in Elems(trees[st]) && y.addr == n;
      StoresMember(m0, trees[st], y);
    }
  }

  lemma GoneStep(S: set<Lock>, owner: Owner, done: set<nat>, n: nat, x: Lock)
    requires x.addr == n && x.owner == owner && n !in done
    requires forall y :: y in S && y.addr == n ==> y == x
    ensures x in S ==>
              S - Gone(S, owner, done + {n}) == (S - Gone(S, owner, done)) - {x} && x in S - Gone(S, owner, done)
    ensures x !in S ==> Gone(S, owner, done + {n}) == Gone(S, owner, done)
  {}

  lemma GoneNone(S: set<Lock>, owner: Owner)
    ensures S - Gone(S, owner, AddrSet([])) == S
  {}

  lemma AddrSetPrefix(L: seq<nat>, i: nat)
    requires NoDupAddrs(L) && i < |L|
    ensures AddrSet(L[..i + 1]) == AddrSet(L[..i]) + {L[i]} && L[i] !in AddrSet(L[..i])
  {
    assert L[..i + 1] == L[..i] + [L[i]];
  }

  lemma ListedOnce(m0: Mem, roots: map<nat, nat>, lists: map<Owner, seq<nat>>, trees: map<nat, Tree>, owner: Owner)
    requires TableOk(m0, roots, lists, trees)
    ensures NoDupAddrs(ListIn(lists, owner))
  {
    assert ListOk(ListIn(lists, owner), owner, m0, {}, {}, {});
  }

  lemma GoneAll(S: set<Lock>, owner: Owner, A: set<nat>)
    requires forall y :: y in S && y.owner == owner ==> y.addr in A
    ensures S - Gone(S, owner, A) == set y | y in S && y.owner != owner
  {}

  lemma AllListed(m0: Mem, roots: map<nat, nat>, lists: map<Owner, seq<nat>>, trees: map<nat, Tree>, st: nat,
                  owner: Owner)
    requires TableOk(m0, roots, lists, trees) && st in trees
    ensures var S := SetOf(Elems(trees[st]));
            S - Gone(S, owner, AddrSet(ListIn(lists, owner))) == set y | y in S && y.owner != owner
  {
    var S := SetOf(Elems(trees[st]));
    assert ListOk(ListIn(lists, owner), owner, m0, {}, {}, {});
    forall y | y in S && y.owner == owner ensures y.addr in AddrSet(ListIn(lists, owner)) {
      StoresMember(m0, trees[st], y);
    }
    hide *;
    GoneAll(S, owner, AddrSet(ListIn(lists, owner)));
  }

  /** Fewer locks keep every promise. */
  lemma SubsetOk(S: set<Lock>, S': set<Lock>)
    requires LocksOk(S) && S' <= S
    ensures LocksOk(S')
  {}

  lemma SubTree(t: Tree, t': Tree, st: nat)
    requires TreeOk(t, st) && Avl(t') && Sorted(Elems(t')) && SetOf(Elems(t')) <= SetOf(Elems(t))
    ensures TreeOk(t', st)
  {
    SubsetOk(SetOf(Elems(t)), SetOf(Elems(t')));
    forall y | y in Elems(t') ensures y.state == st {
      assert y in SetOf(Elems(t'));
    }
  }

  lemma EditFields(S: set<Lock>, st: nat, owner: Owner, req: Request, pid: int, p: Plan, spares: seq<nat>)
    ensures var e := EditOf(S, st, owner, req, pid, p, spares);
            e.state == st && e.owner == owner && e.req == req && e.pid == pid && e.plan == p
  {}

  lemma EditIsOk(m: Mem, roots: map<nat, nat>, lists: map<Owner, seq<nat>>, trees: map<nat, Tree>, st: nat,
                 owner: Owner, req: Request, pid: int, start: int, end: int, p: Plan, spares: seq<nat>)
    requires TableOk(m, roots, lists, trees) && st in trees && INT64_MIN <= start <= end <= INT64_MAX
    requires var S := SetOf(Elems(trees[st]));
             && PlanOk(p) && PlanFor(S, owner, req, start, end, if req.Acquire? then 1 else 0, p)
             && (req.Acquire? ==> forall y :: y in S ==> !Conflicts(y, owner, start, end, req.ltype))
    requires NoDupAddrs(spares) && AddrSet(spares) !! m.Keys && 0 !in AddrSet(spares) && |spares| == p.needed
    ensures var S := SetOf(Elems(trees[st])); EditOk(S, EditOf(S, st, owner, req, pid, p, spares), start, end)
  {
    var S := SetOf(Elems(trees[st]));
    TableTree(m, roots, lists, trees, st);
    TreeIsDistinct(m, roots, lists, trees, st);
    PlanCounts(S, owner, req, start, end, if req.Acquire? then 1 else 0, p);
    DistinctMembers(Elems(trees[st]));
    assert spares != [] ==> spares[0] in AddrSet(spares) && spares[|spares| - 1] in AddrSet(spares);
  }

  lemma CommittedTree(t: Tree, S: set<Lock>, e: Edit, start: int, end: int)
    requires Avl(t) && Sorted(Elems(t)) && SetOf(Elems(t)) == Committed(S, e)
    requires EditOk(S, e, start, end) && forall y :: y in S ==> y.state == e.state
    ensures TreeOk(t, e.state)
  {
    CommittedOk(S, e, start, end);
    CommittedStates(S, e);
    forall y | y in Elems(t) ensures y.state == e.state {
      assert y in SetOf(Elems(t));
    }
  }

  lemma AddrSetSingle(L: seq<nat>)
    requires |L| == 1
    ensures AddrSet(L) == {L[0]} && AddrSet(L) - {L[0]} == AddrSet(L[1..])
  {}

  lemma AddrSetEmpty()
    ensures AddrSet([]) == {}
  {}
}
