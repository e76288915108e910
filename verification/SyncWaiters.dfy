/** fsync completion in fs/ext4_backend.c: requests wait in an index ordered by (target, address) until the
    published durable sequence reaches their target or an error is published. The index is relinked exactly
    as the lock tree is (same order, rotations and balancing), so a waiter is stored as the range
    [target, target] and the tree operations are those of LockHeap. */
module SyncWaiters {
  import opened LockTree
  import opened LockHeap

  /** A request at an address; `token` numbers the requests and is history only. */
  function Waiter(addr: nat, target: nat, token: nat): Lock {
    Lock(addr, 0, Owner(0, 0), token, ReadLock, target, target)
  }

  /** How a request was completed: with which error, at which published durable sequence. */
  datatype Outcome = Outcome(target: nat, error: int, durable: nat, indexed: bool)

  /** A request in the index may be completed. */
  predicate Due(y: Lock, durable: nat, error: int) {
    error != 0 || durable >= y.start
  }

  /** Every request is either waiting once or completed once. */
  ghost predicate Accounted(s: seq<Lock>, count: nat, done: map<int, Outcome>) {
    && (forall i :: 0 <= i < |s| ==> 0 <= s[i].start && 0 <= s[i].pid < count && s[i].pid !in done)
    && (forall i, j :: 0 <= i < j < |s| ==> s[i].pid != s[j].pid)
    && (forall k :: 0 <= k < count && k !in done ==> exists i :: 0 <= i < |s| && s[i].pid == k)
    && (forall k :: k in done ==> 0 <= k < count)
  }

  /** Requests leave the index only when they are due. */
  ghost predicate Justified(done: map<int, Outcome>) {
    forall k :: k in done && done[k].indexed ==> done[k].error != 0 || done[k].durable >= done[k].target
  }

  ghost predicate TreeOk(m: Mem, root: nat, t: Tree) {
    Avl(t) && Sorted(Elems(t)) && Distinct(Elems(t)) && Stores(m, t) && root == Ptr(t)
  }

  lemma FirstOfTree(s: seq<Lock>, durable: nat)
    requires Sorted(s) && s != [] && durable < s[0].start
    ensures forall i :: 0 <= i < |s| ==> durable < s[i].start
  {
    forall i | 0 <= i < |s| ensures durable < s[i].start {
      if i > 0 {
        assert Before(s[0], s[i]);
      }
    }
  }

  lemma AccountedAdd(s: seq<Lock>, s': seq<Lock>, count: nat, done: map<int, Outcome>, x: Lock)
    requires Accounted(s, count, done) && 0 <= x.start && x.pid == count
    requires Sorted(s') && (forall y :: y in s' <==> y in s || y == x)
    ensures Accounted(s', count + 1, done)
  {
    forall i | 0 <= i < |s'| ensures 0 <= s'[i].start && 0 <= s'[i].pid < count + 1 && s'[i].pid !in done {
      assert s'[i] in s';
      if s'[i] in s {
        var j :| 0 <= j < |s| && s[j] == s'[i];
      }
    }
    forall i, j | 0 <= i < j < |s'| ensures s'[i].pid != s'[j].pid {
      assert Before(s'[i], s'[j]) && s'[i] in s' && s'[j] in s';
      SameToken(s, count, done, x, s'[i], s'[j]);
    }
    forall k | 0 <= k < count + 1 && k !in done ensures exists i :: 0 <= i < |s'| && s'[i].pid == k {
      if k == count {
        assert x in s';
      } else {
        var i :| 0 <= i < |s| && s[i].pid == k;
        assert s[i] in s';
      }
    }
  }

  lemma DoneAtOnce(s: seq<Lock>, count: nat, done: map<int, Outcome>, o: Outcome)
    requires Accounted(s, count, done) && Justified(done) && !o.indexed
    ensures Accounted(s, count + 1, done[count := o]) && Justified(done[count := o]) && count !in done
  {}

  lemma SameToken(s: seq<Lock>, count: nat, done: map<int, Outcome>, x: Lock, y: Lock, z: Lock)
    requires Accounted(s, count, done) && x.pid == count && (y in s || y == x) && (z in s || z == x) && y != z
    ensures y.pid != z.pid
  {
    if y in s && z in s {
      var i :| 0 <= i < |s| && s[i] == y;
      var j :| 0 <= j < |s| && s[j] == z;
      assert i != j;
    } else if y in s {
      var i :| 0 <= i < |s| && s[i] == y;
    } else if z in s {
      var j :| 0 <= j < |s| && s[j] == z;
    }
  }

  lemma AccountedTake(s: seq<Lock>, count: nat, done: map<int, Outcome>, o: Outcome)
    requires Accounted(s, count, done) && s != []
    ensures Accounted(s[1..], count, done[s[0].pid := o])
  {
    var t, token := s[1..], s[0].pid;
    var done' := done[token := o];
    forall i | 0 <= i < |t| ensures t[i] == s[i + 1] && t[i].pid != token {}
    forall k | 0 <= k < count && k !in done' ensures exists i :: 0 <= i < |t| && t[i].pid == k {
      var i :| 0 <= i < |s| && s[i].pid == k;
      assert t[i - 1].pid == k;
    }
  }

  lemma NotIndexed(s: seq<Lock>, addr: nat)
    requires addr !in AddrsOf(s)
    ensures forall y :: y in s ==> y.addr != addr
  {
    forall y | y in s ensures y.addr != addr {
      assert y.addr in AddrsOf(s);
    }
  }

  lemma InsertKeepsDistinct(t: Tree, x: Lock)
    requires Avl(t) && Sorted(Elems(t)) && Distinct(Elems(t)) && x.addr != 0
              && forall y :: y in Elems(t) ==> y.addr != x.addr
    ensures Distinct(Elems(Insert(t, x)))
  {
    InsertCorrect(t, x);
    DistinctMembers(Elems(t));
    hide Insert, Elems, Sorted, Avl, Distinct;
    DistinctBySet(Elems(Insert(t, x)));
  }

  lemma IndexFacts(t: Tree, count: nat, done: map<int, Outcome>, addr: nat, target: nat)
    requires Avl(t) && Sorted(Elems(t)) && Distinct(Elems(t)) && Accounted(Elems(t), count, done) && addr != 0
              && addr !in AddrsOf(Elems(t))
    ensures var x := Waiter(addr, target, count);
            && Avl(Insert(t, x)) && Sorted(Elems(Insert(t, x))) && Distinct(Elems(Insert(t, x)))
            && Accounted(Elems(Insert(t, x)), count + 1, done)
            && (forall y :: y in Elems(Insert(t, x)) <==> y in Elems(t) || y == x)
            && (forall y :: y in Elems(t) ==> y.addr != addr)
  {
    hide Accounted, Insert, Cached, Balanced, Sorted, Elems, Distinct, AddrsOf;
    var x := Waiter(addr, target, count);
    NotIndexed(Elems(t), addr);
    InsertCorrect(t, x);
    InsertKeepsDistinct(t, x);
    AccountedAdd(Elems(t), Elems(Insert(t, x)), count, done, x);
  }

  lemma StoresElsewhere(m: Mem, addr: nat, r: Rec, t: Tree)
    requires Stores(m, t) && addr !in AddrsOf(Elems(t))
    ensures Stores(m[addr := r], t)
  {
    StoresAgree(m, m[addr := r], t);
  }

  /** What a request that need not wait is completed with: its own result, or the error of the journal. */
  ghost function AtOnce(target: nat, result: int, error: int, durable: nat): Outcome {
    Outcome(target, if result != 0 || target == 0 then result else error, durable, false)
  }

  class Queue {
    var nodes: LockNodes
    var root: nat
    var durable: nat
    var error: int
    ghost var tree: Tree
    var count: nat
    ghost var done: map<int, Outcome>

    ghost predicate Valid()
      reads this, nodes
    {
      TreeOk(nodes.mem, root, tree) && Accounted(Elems(tree), count, done) && Justified(done)
    }

    constructor ()
      ensures Valid() && fresh(nodes) && tree == Leaf && count == 0 && durable == 0 && error == 0
    {
      nodes := new LockNodes();
      root, durable, error, tree, count, done := 0, 0, 0, Leaf, 0, map[];
    }

    /** `journal_publish_locked`: the first error stays. */
    method Publish(sequence: nat, journalError: int)
      requires Valid()
      modifies this`durable, this`error
      ensures Valid() && durable == sequence && error == if old(error) != 0 then old(error) else journalError
    {
      durable := sequence;
      if error == 0 {
        error := journalError;
      }
    }

    /** `ext4_backend_sync_prepare` once metadata is prepared: the request is completed at once when there is
        nothing to wait for, and indexed otherwise. */
    method Prepare(addr: nat, target: nat, result: int) returns (waits: bool)
      requires Valid() && addr != 0 && addr !in AddrsOf(Elems(tree))
      modifies this`root, this`tree, this`count, this`done, nodes
      ensures Valid() && count == old(count) + 1
      ensures waits <==> result == 0 && target > 0 && error == 0 && durable < target
      ensures waits ==>
                done == old(done)
                    && forall y :: y in Elems(tree) <==> y in old(Elems(tree)) || y == Waiter(addr, target, old(count))
      ensures !waits ==> tree == old(tree) && done == old(done)[old(count) := AtOnce(target, result, error, durable)]
    {
      if result != 0 || target == 0 || error != 0 || durable >= target {
        DoneAtOnce(Elems(tree), count, done, AtOnce(target, result, error, durable));
        hide Accounted, Justified, TreeOk;
        done := done[count := AtOnce(target, result, error, durable)];
        count := count + 1;
        return false;
      }
      Index(addr, target);
      return true;
    }

    /** The request joins the index. */
    method Index(addr: nat, target: nat)
      requires Valid() && addr != 0 && addr !in AddrsOf(Elems(tree))
      modifies this`root, this`tree, this`count, nodes
      ensures Valid() && count == old(count) + 1
      ensures forall y :: y in Elems(tree) <==> y in old(Elems(tree)) || y == Waiter(addr, target, old(count))
    {
      hide Accounted, Justified, Insert, Cached, Balanced, Sorted, Elems, Distinct, Stores, AddrsOf;
      ghost var x := Waiter(addr, target, count);
      IndexFacts(tree, count, done, addr, target);
      StoresElsewhere(nodes.mem, addr, Rec(0, 0, Waiter(addr, target, count), 1, target), tree);
      nodes.mem := nodes.mem[addr := Rec(0, 0, Waiter(addr, target, count), 1, target)];
      root := nodes.InsertNode(root, addr, tree, x);
      tree, count := Insert(tree, x), count + 1;
    }

    /** One round of `complete_sync_waiters`: the first waiter leaves the index when it is due. */
    method CompleteFirst() returns (more: bool)
      requires Valid()
      modifies this`root, this`tree, this`done, nodes
      ensures Valid() && count == old(count)
      ensures more ==>
                old(Elems(tree)) != [] && Elems(tree) == old(Elems(tree))[1..]
                    && Due(old(Elems(tree))[0], durable, error)
      ensures more ==>
                var y := old(Elems(tree))[0];
                && y.start >= 0
                && done == old(done)[y.pid := Outcome(y.start, error, durable, true)]
      ensures !more ==>
                tree == old(tree) && done == old(done) && forall y :: y in Elems(tree) ==> !Due(y, durable, error)
    {
      hide Accounted, Justified, Avl, Sorted, Distinct, ExtractMin, Elems, Stores;
      TreeFacts(nodes.mem, root, tree);
      if root == 0 {
        return false;
      }
      var first := Leftmost();
      ghost var s := Elems(tree);
      ghost var x := s[0];
      WaiterFacts(s, count, done);
      if error == 0 && durable < nodes.mem[first].lock.start {
        FirstOfTree(s, durable);
        return false;
      }
      TakeFacts(nodes.mem, root, tree);
      AccountedTake(s, count, done, Outcome(x.start, error, durable, true));
      JustifiedTake(done, x.pid, Outcome(x.start, error, durable, true));
      var min;
      ghost var t := ExtractMin(tree).0;
      root, min := nodes.ExtractMinNode(root, tree);
      done := done[x.pid := Outcome(x.start, error, durable, true)];
      tree := t;
      return true;
    }

    /** The walk to the leftmost request. */
    method Leftmost() returns (at: nat)
      requires TreeOk(nodes.mem, root, tree) && root != 0
      ensures tree.Node? && Elems(tree) != [] && at in nodes.mem && nodes.mem[at].lock == Elems(tree)[0]
    {
      at := root;
      ghost var t := tree;
      HeightStored(nodes.mem, tree);
      while nodes.mem[at].left != 0
        invariant t.Node? && at == t.lock.addr && Stores(nodes.mem, t) && Distinct(Elems(t)) && Elems(t) != []
                  && tree.Node?
        invariant Elems(t)[0] == Elems(tree)[0] && Elems(tree) != []
        decreases t
      {
        DistinctParts(Elems(t.left), t.lock, Elems(t.right));
        HeightStored(nodes.mem, t.left);
        at := nodes.mem[at].left;
        t := t.left;
      }
      DistinctParts(Elems(t.left), t.lock, Elems(t.right));
      HeightStored(nodes.mem, t.left);
    }

    /** `complete_sync_waiters`: afterwards no request in the index is due, and exactly the due ones have left. */
    method CompleteAll()
      requires Valid()
      modifies this`root, this`tree, this`done, nodes
      ensures Valid() && count == old(count)
      ensures forall y :: y in Elems(tree) ==> !Due(y, durable, error)
      ensures forall y :: y in old(Elems(tree)) ==> (y in Elems(tree) <==> !Due(y, durable, error))
      ensures forall y :: y in Elems(tree) ==> y in old(Elems(tree))
      ensures forall k :: k in old(done) ==> k in done && done[k] == old(done)[k]
      ensures forall y :: y in old(Elems(tree)) && Due(y, durable, error) ==>
                y.start >= 0 && y.pid in done && done[y.pid] == Outcome(y.start, error, durable, true)
    {
      hide Accounted, Justified, TreeOk, Elems;
      ghost var s := Elems(tree);
      ghost var n := 0;
      var more := true;
      while more
        invariant Valid() && n <= |s| && Elems(tree) == s[n..] && nodes == old(nodes)
        invariant forall i :: 0 <= i < n ==> Due(s[i], durable, error)
        invariant forall i :: 0 <= i < n ==>
                    s[i].start >= 0 && s[i].pid in done && done[s[i].pid] == Outcome(s[i].start, error, durable, true)
        invariant forall k :: k in old(done) ==> k in done && done[k] == old(done)[k]
        invariant !more ==> forall y :: y in Elems(tree) ==> !Due(y, durable, error)
        decreases more, |s| - n
      {
        WaitingTokens(Elems(tree), count, done);
        more := CompleteFirst();
        if more {
          n := n + 1;
        }
      }
      forall y | y in s ensures y in Elems(tree) <==> !Due(y, durable, error) {
        var i :| 0 <= i < |s| && s[i] == y;
        if i >= n {
          assert s[n..][i - n] == y;
        }
      }
    }
  }

  lemma TreeFacts(m: Mem, root: nat, t: Tree)
    requires TreeOk(m, root, t)
    ensures root == 0 <==> t.Leaf?
    ensures t.Leaf? ==> Elems(t) == []
    ensures Avl(t)
  {
    HeightStored(m, t);
  }

  lemma WaiterFacts(s: seq<Lock>, count: nat, done: map<int, Outcome>)
    requires Accounted(s, count, done)
    ensures forall i :: 0 <= i < |s| ==> s[i].start >= 0
  {}

  lemma WaitingTokens(s: seq<Lock>, count: nat, done: map<int, Outcome>)
    requires Accounted(s, count, done)
    ensures s != [] ==> s[0].pid !in done
  {}

  lemma JustifiedTake(done: map<int, Outcome>, k: int, o: Outcome)
    requires Justified(done) && (o.error != 0 || o.durable >= o.target)
    ensures Justified(done[k := o])
  {}

  lemma TakeFacts(m: Mem, root: nat, t: Tree)
    requires TreeOk(m, root, t) && t.Node?
    ensures var (r, x) := ExtractMin(t);
            && Avl(r) && Elems(t) == [x] + Elems(r) && Elems(r) == Elems(t)[1..]
            && Sorted(Elems(r)) && Distinct(Elems(r))
  {
    hide Elems, Cached, Balanced, ExtractMin, Sorted, Distinct, Stores;
    ExtractMinCorrect(t);
    var (r, x) := ExtractMin(t);
    DistinctTail(x, Elems(r));
    SortedTail(x, Elems(r));
  }

  lemma SortedTail(x: Lock, s: seq<Lock>)
    requires Sorted([x] + s)
    ensures Sorted(s) && ([x] + s)[1..] == s
  {
    var t := [x] + s;
    forall i, j | 0 <= i < j < |s| ensures Before(s[i], s[j]) {
      assert t[i + 1] == s[i] && t[j + 1] == s[j];
    }
  }
}
