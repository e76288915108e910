/** The interval tree of fs/record_lock.c: an AVL tree of byte-range locks ordered by
    (start, address) and augmented with the largest end of each subtree.

    Heights and maxima are cached in the nodes, as in the source: every operation reads the
    cached fields, so `Avl` has to say that the cached fields are right. */
module LockTree {

  const INT64_MIN: int := -0x8000_0000_0000_0000
  const INT64_MAX: int := 0x7fff_ffff_ffff_ffff

  datatype LockType = ReadLock | WriteLock

  /** Owner identity is an address (file table or open file description) qualified by kind. */
  datatype Owner = Owner(id: nat, kind: nat)

  datatype Lock = Lock(addr: nat, state: nat, owner: Owner, pid: int, ltype: LockType, start: int, end: int)

  datatype Tree = Leaf | Node(left: Tree, lock: Lock, right: Tree, height: int, maxEnd: int)

  function Max(a: int, b: int): int { if a > b then a else b }

  function Height(t: Tree): int {
    if t.Leaf? then 0 else t.height
  }

  /** `update`: recompute the cached fields from the cached fields of the children. */
  function Update(l: Tree, x: Lock, r: Tree): Tree {
    var m := if l.Node? then Max(x.end, l.maxEnd) else x.end;
    Node(l, x, r, 1 + Max(Height(l), Height(r)), if r.Node? then Max(m, r.maxEnd) else m)
  }

  function RotateLeft(t: Tree): Tree
    requires t.Node? && t.right.Node?
  {
    Update(Update(t.left, t.lock, t.right.left), t.right.lock, t.right.right)
  }

  function RotateRight(t: Tree): Tree
    requires t.Node? && t.left.Node?
  {
    Update(t.left.left, t.left.lock, Update(t.left.right, t.lock, t.right))
  }

  /** Cached heights and maxima are right everywhere. */
  ghost predicate Cached(t: Tree) {
    t.Node? ==> Cached(t.left) && Cached(t.right) && t == Update(t.left, t.lock, t.right)
  }

  ghost predicate Balanced(t: Tree) {
    t.Node? ==> Balanced(t.left) && Balanced(t.right) && -1 <= Height(t.left) - Height(t.right) <= 1
  }

  ghost predicate Avl(t: Tree) {
    Cached(t) && Balanced(t)
  }

  lemma {:induction false} HeightBounds(t: Tree)
    requires Cached(t)
    ensures Height(t) >= 0 && (t.Node? <==> Height(t) > 0)
  {
    if t.Node? {
      HeightBounds(t.left);
      HeightBounds(t.right);
    }
  }

  /** `balance`, on the node with children l and r. */
  function Balance(l: Tree, x: Lock, r: Tree): Tree
    requires Cached(l) && Cached(r)
  {
    HeightBounds(l);
    HeightBounds(r);
    var root := Update(l, x, r);
    if Height(l) - Height(r) > 1 then
      HeightBounds(l.left);
      var l' := if Height(l.left) < Height(l.right) then RotateLeft(l) else l;
      RotateRight(Update(l', x, r))
    else if Height(r) - Height(l) > 1 then
      HeightBounds(r.right);
      var r' := if Height(r.right) < Height(r.left) then RotateRight(r) else r;
      RotateLeft(Update(l, x, r'))
    else
      root
  }

  function Before(a: Lock, b: Lock): bool {
    a.start < b.start || (a.start == b.start && a.addr < b.addr)
  }

  /** In-order contents. */
  function Elems(t: Tree): seq<Lock> {
    if t.Leaf? then [] else Elems(t.left) + [t.lock] + Elems(t.right)
  }

  ghost predicate Sorted(s: seq<Lock>) {
    forall i, j :: 0 <= i < j < |s| ==> Before(s[i], s[j])
  }

  // ---------------------------------------------------------------- balance

  lemma Assoc(a: seq<Lock>, x: Lock, b: seq<Lock>, y: Lock, c: seq<Lock>)
    ensures a + [x] + (b + [y] + c) == (a + [x] + b) + [y] + c
  {}

  lemma AssocHead(m: Lock, a: seq<Lock>, x: Lock, b: seq<Lock>)
    ensures ([m] + a) + [x] + b == [m] + (a + [x] + b)
  {}

  lemma {:induction false} RotateLeftElems(t: Tree)
    requires t.Node? && t.right.Node? && Cached(t.left) && Cached(t.right)
    ensures Cached(RotateLeft(t)) && Elems(RotateLeft(t)) == Elems(t)
  {
    Assoc(Elems(t.left), t.lock, Elems(t.right.left), t.right.lock, Elems(t.right.right));
    var inner := Update(t.left, t.lock, t.right.left);
    assert Elems(inner) == Elems(t.left) + [t.lock] + Elems(t.right.left);
    assert Cached(inner);
  }

  lemma {:induction false} RotateRightElems(t: Tree)
    requires t.Node? && t.left.Node? && Cached(t.left) && Cached(t.right)
    ensures Cached(RotateRight(t)) && Elems(RotateRight(t)) == Elems(t)
  {
    Assoc(Elems(t.left.left), t.left.lock, Elems(t.left.right), t.lock, Elems(t.right));
    var inner := Update(t.left.right, t.lock, t.right);
    assert Elems(inner) == Elems(t.left.right) + [t.lock] + Elems(t.right);
    assert Cached(inner);
  }

  /** Rebalancing keeps the in-order contents and the cached fields, for any cached children. */
  lemma {:induction false} BalanceElems(l: Tree, x: Lock, r: Tree)
    requires Cached(l) && Cached(r)
    ensures Cached(Balance(l, x, r))
    ensures Elems(Balance(l, x, r)) == Elems(l) + [x] + Elems(r)
    ensures Balance(l, x, r).Node?
  {
    HeightBounds(l);
    HeightBounds(r);
    if Height(l) - Height(r) > 1 {
      HeightBounds(l.left);
      if Height(l.left) < Height(l.right) {
        RotateLeftElems(l);
        RotateRightElems(Update(RotateLeft(l), x, r));
      } else {
        RotateRightElems(Update(l, x, r));
      }
    } else if Height(r) - Height(l) > 1 {
      HeightBounds(r.right);
      if Height(r.right) < Height(r.left) {
        RotateRightElems(r);
        RotateLeftElems(Update(l, x, RotateRight(r)));
      } else {
        RotateLeftElems(Update(l, x, r));
      }
    }
  }

  lemma {:induction false} BalanceAvlLeft(l: Tree, x: Lock, r: Tree)
    requires Avl(l) && Avl(r) && Height(l) == Height(r) + 2
    ensures Balanced(Balance(l, x, r))
    ensures Height(l) <= Height(Balance(l, x, r)) <= Height(l) + 1
  {
    HeightBounds(r);
    HeightBounds(l.left);
    HeightBounds(l.right);
    if Height(l.left) < Height(l.right) {
      var p := l.right;
      HeightBounds(p.left);
      HeightBounds(p.right);
      assert Avl(p);
      assert Balanced(Update(l.left, l.lock, p.left));
      assert Balanced(Update(p.right, x, r));
    } else {
      assert Balanced(Update(l.right, x, r));
    }
  }

  lemma {:induction false} BalanceAvlRight(l: Tree, x: Lock, r: Tree)
    requires Avl(l) && Avl(r) && Height(r) == Height(l) + 2
    ensures Balanced(Balance(l, x, r))
    ensures Height(r) <= Height(Balance(l, x, r)) <= Height(r) + 1
  {
    HeightBounds(l);
    HeightBounds(r.left);
    HeightBounds(r.right);
    if Height(r.right) < Height(r.left) {
      var p := r.left;
      HeightBounds(p.left);
      HeightBounds(p.right);
      assert Avl(p);
      assert Balanced(Update(l, x, p.left));
      assert Balanced(Update(p.right, r.lock, r.right));
    } else {
      assert Balanced(Update(l, x, r.left));
    }
  }

  /** One call of `balance` repairs any imbalance of two levels. */
  lemma {:induction false} BalanceAvl(l: Tree, x: Lock, r: Tree)
    requires Avl(l) && Avl(r)
    requires -2 <= Height(l) - Height(r) <= 2
    ensures Avl(Balance(l, x, r))
    ensures var m := Max(Height(l), Height(r)); m <= Height(Balance(l, x, r)) <= m + 1
    ensures -1 <= Height(l) - Height(r) <= 1 ==> Height(Balance(l, x, r)) == 1 + Max(Height(l), Height(r))
  {
    BalanceElems(l, x, r);
    if Height(l) - Height(r) > 1 {
      BalanceAvlLeft(l, x, r);
    } else if Height(r) - Height(l) > 1 {
      BalanceAvlRight(l, x, r);
    }
  }

  // ---------------------------------------------------------------- insert, remove, join

  function Insert(t: Tree, x: Lock): (r: Tree)
    requires Cached(t)
    ensures Cached(r) && r.Node?
  {
    if t.Leaf? then Update(Leaf, x, Leaf)
    else if Before(x, t.lock) then
      var l := Insert(t.left, x);
      BalanceElems(l, t.lock, t.right);
      Balance(l, t.lock, t.right)
    else
      var r := Insert(t.right, x);
      BalanceElems(t.left, t.lock, r);
      Balance(t.left, t.lock, r)
  }

  function ExtractMin(t: Tree): (r: (Tree, Lock))
    requires Cached(t) && t.Node?
    ensures Cached(r.0)
  {
    if t.left.Leaf? then (t.right, t.lock)
    else
      var (l, m) := ExtractMin(t.left);
      BalanceElems(l, t.lock, t.right);
      (Balance(l, t.lock, t.right), m)
  }

  /** `tree_remove`; the source traps when the walk falls off the tree. */
  function Remove(t: Tree, x: Lock): (r: Tree)
    requires Cached(t)
    ensures Cached(r)
  {
    if t.Leaf? then Leaf
    else if t.lock.addr != x.addr then
      if Before(x, t.lock) then
        var l := Remove(t.left, x);
        BalanceElems(l, t.lock, t.right);
        Balance(l, t.lock, t.right)
      else
        var r := Remove(t.right, x);
        BalanceElems(t.left, t.lock, r);
        Balance(t.left, t.lock, r)
    else if t.left.Leaf? then t.right
    else if t.right.Leaf? then t.left
    else
      var (r, next) := ExtractMin(t.right);
      BalanceElems(t.left, next, r);
      Balance(t.left, next, r)
  }

  /** `join_root`: the two trees may differ in height by any amount. */
  function JoinRoot(l: Tree, x: Lock, r: Tree): (t: Tree)
    requires Cached(l) && Cached(r)
    ensures Cached(t) && t.Node?
    decreases l, r
  {
    HeightBounds(l);
    HeightBounds(r);
    if Height(l) > Height(r) + 1 then
      var m := JoinRoot(l.right, x, r);
      BalanceElems(l.left, l.lock, m);
      Balance(l.left, l.lock, m)
    else if Height(r) > Height(l) + 1 then
      var m := JoinRoot(l, x, r.left);
      BalanceElems(m, r.lock, r.right);
      Balance(m, r.lock, r.right)
    else Update(l, x, r)
  }

  function JoinTrees(l: Tree, r: Tree): (t: Tree)
    requires Cached(l) && Cached(r)
    ensures Cached(t)
  {
    if l.Leaf? then r
    else if r.Leaf? then l
    else
      var (r', x) := ExtractMin(r);
      JoinRoot(l, x, r')
  }

  lemma {:induction false} ExtractMinCorrect(t: Tree)
    requires Avl(t) && t.Node?
    ensures var (r, m) := ExtractMin(t);
            && Avl(r) && Elems(t) == [m] + Elems(r)
            && Height(t) - 1 <= Height(r) <= Height(t)
  {
    hide Balance;
    if t.left.Node? {
      ExtractMinCorrect(t.left);
      var (l, m) := ExtractMin(t.left);
      BalanceElems(l, t.lock, t.right);
      BalanceAvl(l, t.lock, t.right);
      AssocHead(m, Elems(l), t.lock, Elems(t.right));
    } else {
      HeightBounds(t.right);
      assert Elems(t) == [] + [t.lock] + Elems(t.right);
    }
  }

  /** Joining concatenates, keeps the AVL shape, and grows the taller side by at most one. */
  lemma {:induction false} JoinRootCorrect(l: Tree, x: Lock, r: Tree)
    requires Avl(l) && Avl(r)
    ensures Avl(JoinRoot(l, x, r))
    ensures Elems(JoinRoot(l, x, r)) == Elems(l) + [x] + Elems(r)
    ensures var m := Max(Height(l), Height(r)); m <= Height(JoinRoot(l, x, r)) <= m + 1
    decreases l, r
  {
    hide Balance;
    HeightBounds(l);
    HeightBounds(r);
    if Height(l) > Height(r) + 1 {
      JoinRootCorrect(l.right, x, r);
      var m := JoinRoot(l.right, x, r);
      BalanceElems(l.left, l.lock, m);
      BalanceAvl(l.left, l.lock, m);
      Assoc(Elems(l.left), l.lock, Elems(l.right), x, Elems(r));
    } else if Height(r) > Height(l) + 1 {
      JoinRootCorrect(l, x, r.left);
      var m := JoinRoot(l, x, r.left);
      BalanceElems(m, r.lock, r.right);
      BalanceAvl(m, r.lock, r.right);
      Assoc(Elems(l), x, Elems(r.left), r.lock, Elems(r.right));
    }
  }

  lemma {:induction false} JoinTreesCorrect(l: Tree, r: Tree)
    requires Avl(l) && Avl(r)
    ensures Avl(JoinTrees(l, r))
    ensures Elems(JoinTrees(l, r)) == Elems(l) + Elems(r)
  {
    hide Balance;
    if l.Node? && r.Node? {
      ExtractMinCorrect(r);
      var (r', x) := ExtractMin(r);
      JoinRootCorrect(l, x, r');
      assert Elems(l) + [x] + Elems(r') == Elems(l) + ([x] + Elems(r'));
    }
  }

  /** Insertion adds exactly one lock and keeps order and balance. */
  lemma {:induction false} InsertCorrect(t: Tree, x: Lock)
    requires Avl(t) && Sorted(Elems(t))
    requires forall y :: y in Elems(t) ==> y.addr != x.addr
    ensures Avl(Insert(t, x)) && Sorted(Elems(Insert(t, x)))
    ensures forall y :: y in Elems(Insert(t, x)) <==> y in Elems(t) || y == x
    ensures Height(t) <= Height(Insert(t, x)) <= Height(t) + 1
  {
    hide Balance;
    if t.Leaf? {
      assert Elems(Insert(t, x)) == [x];
    } else {
      SortedParts(Elems(t.left), t.lock, Elems(t.right));
      assert t.lock in Elems(t);
      if Before(x, t.lock) {
        assert forall y :: y in Elems(t.left) ==> y in Elems(t);
        InsertCorrect(t.left, x);
        var l := Insert(t.left, x);
        BalanceElems(l, t.lock, t.right);
        BalanceAvl(l, t.lock, t.right);
        SortedJoin(Elems(l), t.lock, Elems(t.right));
      } else {
        assert forall y :: y in Elems(t.right) ==> y in Elems(t);
        InsertCorrect(t.right, x);
        var r := Insert(t.right, x);
        BalanceElems(t.left, t.lock, r);
        BalanceAvl(t.left, t.lock, r);
        SortedJoin(Elems(t.left), t.lock, Elems(r));
      }
    }
  }

  lemma SortedParts(a: seq<Lock>, x: Lock, b: seq<Lock>)
    requires Sorted(a + [x] + b)
    ensures Sorted(a) && Sorted(b)
    ensures forall y :: y in a ==> Before(y, x)
    ensures forall y :: y in b ==> Before(x, y)
    ensures forall y, z :: y in a && z in b ==> Before(y, z)
  {
    var s := a + [x] + b;
    assert forall i :: 0 <= i < |a| ==> a[i] == s[i];
    assert s[|a|] == x;
    assert forall i :: 0 <= i < |b| ==> b[i] == s[|a| + 1 + i];
  }

  lemma SortedSkip(a: seq<Lock>, x: Lock, b: seq<Lock>)
    requires Sorted(a + [x] + b)
    ensures Sorted(a + b)
  {
    var s := a + [x] + b;
    assert forall i :: 0 <= i < |a + b| ==> (a + b)[i] == s[if i < |a| then i else i + 1];
  }

  lemma SortedJoin(a: seq<Lock>, x: Lock, b: seq<Lock>)
    requires Sorted(a) && Sorted(b)
    requires forall y :: y in a ==> Before(y, x)
    requires forall y :: y in b ==> Before(x, y)
    ensures Sorted(a + [x] + b)
  {
    var s := a + [x] + b;
    forall i, j | 0 <= i < j < |s|
      ensures Before(s[i], s[j])
    {
      assert i < |a| ==> s[i] in a;
      assert i > |a| ==> s[i] == b[i - |a| - 1];
      assert j < |a| ==> s[j] in a;
      assert j > |a| ==> s[j] in b && s[j] == b[j - |a| - 1];
    }
  }

  /** `tree_remove` at the node itself: its successor takes its place. */
  lemma {:induction false} RemoveRootCorrect(t: Tree, x: Lock)
    requires Avl(t) && t.Node? && t.lock.addr == x.addr && Sorted(Elems(t.left) + [t.lock] + Elems(t.right))
    ensures Avl(Remove(t, x)) && Sorted(Elems(Remove(t, x)))
    ensures Elems(Remove(t, x)) == Elems(t.left) + Elems(t.right)
    ensures Height(t) - 1 <= Height(Remove(t, x)) <= Height(t)
  {
    hide Balance;
    HeightBounds(t.left);
    HeightBounds(t.right);
    var a, b := Elems(t.left), Elems(t.right);
    SortedSkip(a, t.lock, b);
    if t.left.Leaf? {
      assert a + b == b;
    } else if t.right.Leaf? {
      assert a + b == a;
    } else {
      ExtractMinCorrect(t.right);
      var (r, next) := ExtractMin(t.right);
      BalanceElems(t.left, next, r);
      BalanceAvl(t.left, next, r);
      assert a + [next] + Elems(r) == a + ([next] + Elems(r));
    }
  }

  lemma {:induction false} RemoveCorrect(t: Tree, x: Lock)
    requires Avl(t) && Sorted(Elems(t)) && x in Elems(t)
    requires forall y :: y in Elems(t) && y.addr == x.addr ==> y == x
    ensures Avl(Remove(t, x)) && Sorted(Elems(Remove(t, x)))
    ensures forall y :: y in Elems(Remove(t, x)) <==> y in Elems(t) && y != x
    ensures Height(t) - 1 <= Height(Remove(t, x)) <= Height(t)
  {
    hide Balance;
    var a, b := Elems(t.left), Elems(t.right);
    SortedParts(a, t.lock, b);
    assert forall y :: y in Elems(t) <==> y in a || y == t.lock || y in b;
    if t.lock.addr != x.addr {
      if Before(x, t.lock) {
        RemoveCorrect(t.left, x);
        var l := Remove(t.left, x);
        BalanceElems(l, t.lock, t.right);
        BalanceAvl(l, t.lock, t.right);
        SortedJoin(Elems(l), t.lock, b);
      } else {
        RemoveCorrect(t.right, x);
        var r := Remove(t.right, x);
        BalanceElems(t.left, t.lock, r);
        BalanceAvl(t.left, t.lock, r);
        SortedJoin(a, t.lock, Elems(r));
      }
    } else {
      RemoveRootCorrect(t, x);
    }
  }

  // ---------------------------------------------------------------- the height field

  function MinNodes(h: int): nat {
    if h <= 0 then 0 else if h == 1 then 1 else 1 + MinNodes(h - 1) + MinNodes(h - 2)
  }

  function Pow2(k: nat): nat {
    if k == 0 then 1 else 2 * Pow2(k - 1)
  }

  lemma {:induction false} MinNodesMonotone(h: int)
    ensures MinNodes(h) <= MinNodes(h + 1)
    decreases if h < 0 then 0 else h
  {
    if h > 1 {
      MinNodesMonotone(h - 1);
      MinNodesMonotone(h - 2);
    }
  }

  lemma {:induction false} AvlSize(t: Tree)
    requires Avl(t)
    ensures |Elems(t)| >= MinNodes(Height(t))
  {
    HeightBounds(t);
    if t.Node? {
      AvlSize(t.left);
      AvlSize(t.right);
      HeightBounds(t.left);
      HeightBounds(t.right);
      MinNodesMonotone(Height(t) - 2);
    }
  }

  lemma {:induction false} MinNodesGrow(k: nat)
    ensures MinNodes(2 * k) + 1 >= Pow2(k)
  {
    if k > 0 {
      MinNodesGrow(k - 1);
      MinNodesMonotone(2 * k - 2);
    }
  }

  lemma Pow2At64()
    ensures Pow2(64) == 0x1_0000_0000_0000_0000
  {
    assert Pow2(8) == 0x100;
    assert Pow2(16) == 0x1_0000;
    assert Pow2(24) == 0x100_0000;
    assert Pow2(32) == 0x1_0000_0000;
    assert Pow2(40) == 0x100_0000_0000;
    assert Pow2(48) == 0x1_0000_0000_0000;
    assert Pow2(56) == 0x100_0000_0000_0000;
  }

  lemma {:induction false} MinNodesFrom(h: int, k: int)
    requires h >= k
    ensures MinNodes(h) >= MinNodes(k)
    decreases h - k
  {
    if h > k {
      MinNodesMonotone(h - 1);
      MinNodesFrom(h - 1, k);
    }
  }

  /** The int8_t height field never truncates: a taller tree would need more nodes than a 64-bit
      address space has non-null addresses. */
  lemma HeightFitsInt8(t: Tree)
    requires Avl(t) && |Elems(t)| < 0xffff_ffff_ffff_ffff
    ensures 0 <= Height(t) <= 127
  {
    hide MinNodes, Pow2, Elems;
    HeightBounds(t);
    AvlSize(t);
    if Height(t) >= 128 {
      MinNodesFrom(Height(t), 128);
      MinNodesGrow(64);
      Pow2At64();
    }
  }
}
