/** The in-place tree surgery of fs/record_lock.c. Nodes live in a heap addressed by numbers, as
    `before` compares addresses; links are addresses, 0 is null. Each method relinks nodes exactly
    as the source does and is proved to turn the stored tree into the tree that the functions of
    LockTree and LockSearch compute, leaving every other node alone. */
module LockHeap {
  import opened LockTree
  import opened LockSearch
  import opened Wrappers

  datatype Rec = Rec(left: nat, right: nat, lock: Lock, height: int, maxEnd: int)

  type Mem = map<nat, Rec>

  ghost function AddrsOf(s: seq<Lock>): set<nat> {
    set y | y in s :: y.addr
  }

  /** No address is null or occurs twice. */
  ghost predicate Distinct(s: seq<Lock>) {
    && (forall i :: 0 <= i < |s| ==> s[i].addr != 0)
    && forall i, j :: 0 <= i < j < |s| ==> s[i].addr != s[j].addr
  }

  lemma AddrsConcat(a: seq<Lock>, x: Lock, b: seq<Lock>)
    ensures AddrsOf(a + [x] + b) == AddrsOf(a) + {x.addr} + AddrsOf(b)
  {
    assert forall y :: y in a + [x] + b <==> y in a || y == x || y in b;
  }

  lemma DistinctParts(a: seq<Lock>, x: Lock, b: seq<Lock>)
    requires Distinct(a + [x] + b)
    ensures Distinct(a) && Distinct(b) && x.addr != 0
    ensures AddrsOf(a + [x] + b) == AddrsOf(a) + {x.addr} + AddrsOf(b)
    ensures x.addr !in AddrsOf(a) && x.addr !in AddrsOf(b) && AddrsOf(a) !! AddrsOf(b)
  {
    var s := a + [x] + b;
    assert forall i :: 0 <= i < |a| ==> a[i] == s[i];
    assert s[|a|] == x;
    assert forall i :: 0 <= i < |b| ==> b[i] == s[|a| + 1 + i];
    AddrsConcat(a, x, b);
    forall i, j | 0 <= i < |a| && 0 <= j < |b| ensures a[i].addr != b[j].addr {
      assert s[i].addr != s[|a| + 1 + j].addr;
    }
  }

  /** Sorted contents with distinct addresses as a set have distinct addresses as a sequence. */
  lemma DistinctBySet(s: seq<Lock>)
    requires Sorted(s)
    requires forall y :: y in s ==> y.addr != 0
    requires forall y, z :: y in s && z in s && y.addr == z.addr ==> y == z
    ensures Distinct(s)
  {
    forall i, j | 0 <= i < j < |s| ensures s[i].addr != s[j].addr {
      assert Before(s[i], s[j]);
      assert s[i] in s && s[j] in s;
    }
  }

  ghost function Ptr(t: Tree): nat {
    if t.Leaf? then 0 else t.lock.addr
  }

  /** Memory m stores the tree t. */
  ghost predicate Stores(m: Mem, t: Tree) {
    t.Node? ==>
      && t.lock.addr in m && m[t.lock.addr] == Rec(Ptr(t.left), Ptr(t.right), t.lock, t.height, t.maxEnd)
      && Stores(m, t.left) && Stores(m, t.right)
  }

  /** m' differs from m at most at the addresses A, and allocates and frees nothing. */
  ghost predicate SameOutside(m: Mem, m': Mem, A: set<nat>) {
    m.Keys == m'.Keys && forall a :: a in m && a !in A ==> m'[a] == m[a]
  }

  /** A stored tree depends only on its own nodes. */
  lemma {:induction false} StoresAgree(m: Mem, m': Mem, t: Tree)
    requires Stores(m, t) && forall a :: a in m && a in AddrsOf(Elems(t)) ==> a in m' && m'[a] == m[a]
    ensures Stores(m', t)
  {
    if t.Node? {
      RootInside(t);
      StoresAgree(m, m', t.left);
      StoresAgree(m, m', t.right);
    }
  }

  lemma StoresFrame(m: Mem, m': Mem, A: set<nat>, t: Tree)
    requires Stores(m, t) && SameOutside(m, m', A) && A !! AddrsOf(Elems(t))
    ensures Stores(m', t)
  {
    StoresAgree(m, m', t);
  }

  /** The node of x has the subtrees l and r; its own cached fields may be stale. */
  ghost predicate Hangs(m: Mem, l: Tree, x: Lock, r: Tree) {
    && Distinct(Elems(l) + [x] + Elems(r)) && Stores(m, l) && Stores(m, r)
    && x.addr in m && m[x.addr].left == Ptr(l) && m[x.addr].right == Ptr(r) && m[x.addr].lock == x
  }

  lemma PtrInside(t: Tree)
    requires Distinct(Elems(t))
    ensures Ptr(t) == 0 <==> t.Leaf?
    ensures t.Node? ==> Ptr(t) in AddrsOf(Elems(t))
  {
    if t.Node? {
      var s := Elems(t);
      assert s[|Elems(t.left)|] == t.lock;
      assert t.lock in s;
    }
  }

  function HeightAt(m: Mem, a: nat): int
    requires a == 0 || a in m
  {
    if a == 0 then 0 else m[a].height
  }

  lemma HeightStored(m: Mem, t: Tree)
    requires Stores(m, t) && Distinct(Elems(t))
    ensures Ptr(t) == 0 <==> t.Leaf?
    ensures Ptr(t) == 0 || Ptr(t) in m
    ensures HeightAt(m, Ptr(t)) == Height(t)
  {
    PtrInside(t);
  }

  /** Memory after the left link of x is set to the root of l. */
  lemma RelinkLeft(m: Mem, l: Tree, x: Lock, r: Tree)
    requires x.addr in m && m[x.addr].lock == x && m[x.addr].right == Ptr(r) && Stores(m, l) && Stores(m, r)
    requires Distinct(Elems(l) + [x] + Elems(r))
    ensures Hangs(m[x.addr := m[x.addr].(left := Ptr(l))], l, x, r)
  {
    var m' := m[x.addr := m[x.addr].(left := Ptr(l))];
    DistinctParts(Elems(l), x, Elems(r));
    StoresFrame(m, m', {x.addr}, l);
    StoresFrame(m, m', {x.addr}, r);
  }

  lemma RelinkRight(m: Mem, l: Tree, x: Lock, r: Tree)
    requires x.addr in m && m[x.addr].lock == x && m[x.addr].left == Ptr(l) && Stores(m, l) && Stores(m, r)
    requires Distinct(Elems(l) + [x] + Elems(r))
    ensures Hangs(m[x.addr := m[x.addr].(right := Ptr(r))], l, x, r)
  {
    var m' := m[x.addr := m[x.addr].(right := Ptr(r))];
    DistinctParts(Elems(l), x, Elems(r));
    StoresFrame(m, m', {x.addr}, l);
    StoresFrame(m, m', {x.addr}, r);
  }

  lemma RootInside(t: Tree)
    requires t.Node?
    ensures t.lock.addr in AddrsOf(Elems(t))
    ensures AddrsOf(Elems(t.left)) <= AddrsOf(Elems(t)) && AddrsOf(Elems(t.right)) <= AddrsOf(Elems(t))
  {
    AddrsConcat(Elems(t.left), t.lock, Elems(t.right));
  }

  /** `conflict` over linked nodes: the address of the lock found, or 0. The ghost tree is what is stored at a. */
  function ConflictAt(m: Mem, a: nat, owner: Owner, start: int, end: int, ltype: LockType, ghost t: Tree): (r: nat)
    requires a == Ptr(t) && Stores(m, t) && Distinct(Elems(t))
    ensures r == 0 <==> Conflict(t, owner, start, end, ltype).None?
    ensures r != 0 ==> r in m && Conflict(t, owner, start, end, ltype) == Some(m[r].lock)
    decreases t
  {
    HeightStored(m, t);
    if a == 0 || m[a].maxEnd < start then 0
    else
      DistinctParts(Elems(t.left), t.lock, Elems(t.right));
      HeightStored(m, t.left);
      var found := if m[a].left != 0 && m[m[a].left].maxEnd >= start
                   then ConflictAt(m, m[a].left, owner, start, end, ltype, t.left) else 0;
      if found != 0 then found
      else if Conflicts(m[a].lock, owner, start, end, ltype) then a
      else if m[a].lock.start <= end then ConflictAt(m, m[a].right, owner, start, end, ltype, t.right)
      else 0
  }

  /** `prepare_edit` over linked nodes. */
  function PrepareEditAt(m: Mem, a: nat, owner: Owner, req: Request, p: Plan, ghost t: Tree): (q: Plan)
    requires a == Ptr(t) && Stores(m, t) && Distinct(Elems(t))
    ensures q == PrepareEdit(t, owner, req, p)
    decreases t
  {
    HeightStored(m, t);
    if a == 0 then p
    else
      DistinctParts(Elems(t.left), t.lock, Elems(t.right));
      var first := if req.Acquire? && p.start != INT64_MIN then p.start - 1 else p.start;
      if m[a].maxEnd < first then p
      else
        var p1 := PrepareEditAt(m, m[a].left, owner, req, p, t.left);
        var last := if req.Acquire? && p1.end != INT64_MAX then p1.end + 1 else p1.end;
        if m[a].lock.start > last then p1
        else PrepareEditAt(m, m[a].right, owner, req, PlanStep(m[a].lock, owner, req, p1), t.right)
  }

  class LockNodes {
    var mem: Mem

    constructor ()
      ensures mem == map[]
    {
      mem := map[];
    }

    method UpdateNode(n: nat, ghost l: Tree, ghost x: Lock, ghost r: Tree)
      requires n == x.addr && Hangs(mem, l, x, r)
      modifies this`mem
      ensures SameOutside(old(mem), mem, {n})
      ensures Stores(mem, Update(l, x, r))
    {
      DistinctParts(Elems(l), x, Elems(r));
      PtrInside(l);
      PtrInside(r);
      var node := mem[n];
      var lh, rh := HeightAt(mem, node.left), HeightAt(mem, node.right);
      var m := node.lock.end;
      if node.left != 0 {
        m := Max(m, mem[node.left].maxEnd);
      }
      if node.right != 0 {
        m := Max(m, mem[node.right].maxEnd);
      }
      mem := mem[n := node.(height := 1 + Max(lh, rh), maxEnd := m)];
      StoresFrame(old(mem), mem, {n}, l);
      StoresFrame(old(mem), mem, {n}, r);
    }

    method RotateNodeLeft(root: nat, ghost a: Tree, ghost x: Lock, ghost r: Tree) returns (next: nat)
      requires root == x.addr && r.Node? && Hangs(mem, a, x, r)
      modifies this`mem
      ensures next == r.lock.addr && SameOutside(old(mem), mem, {root, next})
      ensures Stores(mem, RotateLeft(Update(a, x, r)))
    {
      ghost var b, y, c := r.left, r.lock, r.right;
      DistinctParts(Elems(a), x, Elems(r));
      DistinctParts(Elems(b), y, Elems(c));
      Assoc(Elems(a), x, Elems(b), y, Elems(c));
      DistinctParts(Elems(a) + [x] + Elems(b), y, Elems(c));
      next := mem[root].right;
      mem := mem[root := mem[root].(right := mem[next].left)];
      mem := mem[next := mem[next].(left := root)];
      StoresFrame(old(mem), mem, {root, next}, a);
      StoresFrame(old(mem), mem, {root, next}, b);
      StoresFrame(old(mem), mem, {root, next}, c);
      ghost var m := mem;
      UpdateNode(root, a, x, b);
      StoresFrame(m, mem, {root}, c);
      UpdateNode(next, Update(a, x, b), y, c);
    }

    method RotateNodeRight(root: nat, ghost l: Tree, ghost x: Lock, ghost c: Tree) returns (next: nat)
      requires root == x.addr && l.Node? && Hangs(mem, l, x, c)
      modifies this`mem
      ensures next == l.lock.addr && SameOutside(old(mem), mem, {root, next})
      ensures Stores(mem, RotateRight(Update(l, x, c)))
    {
      ghost var a, y, b := l.left, l.lock, l.right;
      DistinctParts(Elems(l), x, Elems(c));
      DistinctParts(Elems(a), y, Elems(b));
      Assoc(Elems(a), y, Elems(b), x, Elems(c));
      DistinctParts(Elems(a), y, Elems(b) + [x] + Elems(c));
      next := mem[root].left;
      mem := mem[root := mem[root].(left := mem[next].right)];
      mem := mem[next := mem[next].(right := root)];
      StoresFrame(old(mem), mem, {root, next}, a);
      StoresFrame(old(mem), mem, {root, next}, b);
      StoresFrame(old(mem), mem, {root, next}, c);
      ghost var m := mem;
      UpdateNode(root, b, x, c);
      StoresFrame(m, mem, {root}, a);
      UpdateNode(next, a, y, Update(b, x, c));
    }

    /** Rotate the left child of root and hang the result back under root. */
    method RotateUnderLeft(root: nat, ghost l: Tree, ghost x: Lock, ghost r: Tree)
      requires root == x.addr && Hangs(mem, l, x, r) && l.Node? && l.right.Node? && Cached(l)
      modifies this`mem
      ensures Hangs(mem, RotateLeft(l), x, r)
      ensures SameOutside(old(mem), mem, AddrsOf(Elems(l) + [x] + Elems(r)))
    {
      DistinctParts(Elems(l), x, Elems(r));
      DistinctParts(Elems(l.left), l.lock, Elems(l.right));
      RotateLeftElems(l);
      RootInside(l);
      RootInside(l.right);
      var left := RotateNodeLeft(mem[root].left, l.left, l.lock, l.right);
      StoresFrame(old(mem), mem, AddrsOf(Elems(l)), r);
      RelinkLeft(mem, RotateLeft(l), x, r);
      mem := mem[root := mem[root].(left := left)];
    }

    method RotateUnderRight(root: nat, ghost l: Tree, ghost x: Lock, ghost r: Tree)
      requires root == x.addr && Hangs(mem, l, x, r) && r.Node? && r.left.Node? && Cached(r)
      modifies this`mem
      ensures Hangs(mem, l, x, RotateRight(r))
      ensures SameOutside(old(mem), mem, AddrsOf(Elems(l) + [x] + Elems(r)))
    {
      DistinctParts(Elems(l), x, Elems(r));
      DistinctParts(Elems(r.left), r.lock, Elems(r.right));
      RotateRightElems(r);
      RootInside(r);
      RootInside(r.left);
      var right := RotateNodeRight(mem[root].right, r.left, r.lock, r.right);
      StoresFrame(old(mem), mem, AddrsOf(Elems(r)), l);
      RelinkRight(mem, l, x, RotateRight(r));
      mem := mem[root := mem[root].(right := right)];
    }

    method BalanceLeft(root: nat, ghost l: Tree, ghost x: Lock, ghost r: Tree) returns (next: nat)
      requires root == x.addr && Hangs(mem, l, x, r) && Cached(l) && Cached(r)
      requires Height(l) - Height(r) > 1
      modifies this`mem
      ensures next == Ptr(Balance(l, x, r)) && Stores(mem, Balance(l, x, r))
      ensures SameOutside(old(mem), mem, AddrsOf(Elems(l) + [x] + Elems(r)))
    {
      hide AddrsOf, Distinct;
      HeightBounds(r);
      HeightBounds(l);
      HeightBounds(l.left);
      HeightBounds(l.right);
      DistinctParts(Elems(l), x, Elems(r));
      DistinctParts(Elems(l.left), l.lock, Elems(l.right));
      HeightStored(mem, l.left);
      HeightStored(mem, l.right);
      var left := mem[root].left;
      ghost var l' := l;
      if HeightAt(mem, mem[left].left) < HeightAt(mem, mem[left].right) {
        RotateUnderLeft(root, l, x, r);
        l' := RotateLeft(l);
        RotateLeftElems(l);
      }
      RootInside(l');
      next := RotateNodeRight(root, l', x, r);
    }

    method BalanceRight(root: nat, ghost l: Tree, ghost x: Lock, ghost r: Tree) returns (next: nat)
      requires root == x.addr && Hangs(mem, l, x, r) && Cached(l) && Cached(r)
      requires Height(r) - Height(l) > 1
      modifies this`mem
      ensures next == Ptr(Balance(l, x, r)) && Stores(mem, Balance(l, x, r))
      ensures SameOutside(old(mem), mem, AddrsOf(Elems(l) + [x] + Elems(r)))
    {
      hide AddrsOf, Distinct;
      HeightBounds(l);
      HeightBounds(r);
      HeightBounds(r.left);
      HeightBounds(r.right);
      DistinctParts(Elems(l), x, Elems(r));
      DistinctParts(Elems(r.left), r.lock, Elems(r.right));
      HeightStored(mem, r.left);
      HeightStored(mem, r.right);
      var right := mem[root].right;
      ghost var r' := r;
      if HeightAt(mem, mem[right].right) < HeightAt(mem, mem[right].left) {
        RotateUnderRight(root, l, x, r);
        r' := RotateRight(r);
        RotateRightElems(r);
      }
      RootInside(r');
      next := RotateNodeLeft(root, l, x, r');
    }

    method BalanceNode(root: nat, ghost l: Tree, ghost x: Lock, ghost r: Tree) returns (next: nat)
      requires root == x.addr && Hangs(mem, l, x, r) && Cached(l) && Cached(r)
      modifies this`mem
      ensures next == Ptr(Balance(l, x, r)) && Stores(mem, Balance(l, x, r))
      ensures SameOutside(old(mem), mem, AddrsOf(Elems(l) + [x] + Elems(r)))
    {
      DistinctParts(Elems(l), x, Elems(r));
      UpdateNode(root, l, x, r);
      HeightStored(mem, l);
      HeightStored(mem, r);
      next := root;
      if HeightAt(mem, mem[root].left) - HeightAt(mem, mem[root].right) > 1 {
        next := BalanceLeft(root, l, x, r);
      } else if HeightAt(mem, mem[root].right) - HeightAt(mem, mem[root].left) > 1 {
        next := BalanceRight(root, l, x, r);
      }
    }

    /** `root->left = child; return balance(root)`. */
    method HangLeft(root: nat, child: nat, ghost l: Tree, ghost x: Lock, ghost r: Tree) returns (next: nat)
      requires root == x.addr && child == Ptr(l) && Cached(l) && Cached(r) && Stores(mem, l) && Stores(mem, r)
      requires root in mem && mem[root].lock == x && mem[root].right == Ptr(r)
      requires Distinct(Elems(l) + [x] + Elems(r))
      modifies this`mem
      ensures next == Ptr(Balance(l, x, r)) && Stores(mem, Balance(l, x, r))
      ensures SameOutside(old(mem), mem, AddrsOf(Elems(l)) + {root} + AddrsOf(Elems(r)))
    {
      AddrsConcat(Elems(l), x, Elems(r));
      RelinkLeft(mem, l, x, r);
      mem := mem[root := mem[root].(left := child)];
      next := BalanceNode(root, l, x, r);
    }

    /** `root->right = child; return balance(root)`. */
    method HangRight(root: nat, child: nat, ghost l: Tree, ghost x: Lock, ghost r: Tree) returns (next: nat)
      requires root == x.addr && child == Ptr(r) && Cached(l) && Cached(r) && Stores(mem, l) && Stores(mem, r)
      requires root in mem && mem[root].lock == x && mem[root].left == Ptr(l)
      requires Distinct(Elems(l) + [x] + Elems(r))
      modifies this`mem
      ensures next == Ptr(Balance(l, x, r)) && Stores(mem, Balance(l, x, r))
      ensures SameOutside(old(mem), mem, AddrsOf(Elems(l)) + {root} + AddrsOf(Elems(r)))
    {
      AddrsConcat(Elems(l), x, Elems(r));
      RelinkRight(mem, l, x, r);
      mem := mem[root := mem[root].(right := child)];
      next := BalanceNode(root, l, x, r);
    }

    method InsertNode(root: nat, n: nat, ghost t: Tree, ghost x: Lock) returns (next: nat)
      requires root == Ptr(t) && Stores(mem, t) && Distinct(Elems(t)) && Avl(t) && Sorted(Elems(t))
      requires n == x.addr && n != 0 && n !in AddrsOf(Elems(t))
      requires n in mem && mem[n] == Rec(0, 0, x, 1, x.end)
      modifies this`mem
      ensures next == Ptr(Insert(t, x)) && Stores(mem, Insert(t, x))
      ensures SameOutside(old(mem), mem, AddrsOf(Elems(t)) + {n})
      decreases t
    {
      HeightStored(mem, t);
      if root == 0 {
        return n;
      }
      DistinctParts(Elems(t.left), t.lock, Elems(t.right));
      InsertDistinct(t, x);
      SortedParts(Elems(t.left), t.lock, Elems(t.right));
      if mem[n].lock.start < mem[root].lock.start || (mem[n].lock.start == mem[root].lock.start && n < root) {
        var l := InsertNode(mem[root].left, n, t.left, x);
        StoresFrame(old(mem), mem, AddrsOf(Elems(t.left)) + {n}, t.right);
        AddrsOfInsert(t.left, x);
        next := HangLeft(root, l, Insert(t.left, x), t.lock, t.right);
      } else {
        var r := InsertNode(mem[root].right, n, t.right, x);
        StoresFrame(old(mem), mem, AddrsOf(Elems(t.right)) + {n}, t.left);
        AddrsOfInsert(t.right, x);
        next := HangRight(root, r, t.left, t.lock, Insert(t.right, x));
      }
    }

    method ExtractMinNode(root: nat, ghost t: Tree) returns (rest: nat, min: nat)
      requires root == Ptr(t) && t.Node? && Stores(mem, t) && Distinct(Elems(t)) && Avl(t)
      modifies this`mem
      ensures var (r, m) := ExtractMin(t); rest == Ptr(r) && min == m.addr && Stores(mem, r)
      ensures min in mem && mem[min].lock == ExtractMin(t).1
      ensures SameOutside(old(mem), mem, AddrsOf(Elems(t)))
      decreases t
    {
      DistinctParts(Elems(t.left), t.lock, Elems(t.right));
      ExtractMinCorrect(t);
      HeightStored(mem, t.left);
      if mem[root].left == 0 {
        return mem[root].right, root;
      }
      ExtractMinCorrect(t.left);
      ghost var (l', m) := ExtractMin(t.left);
      AddrsHead(m, Elems(l'));
      AssocHead(m, Elems(l'), t.lock, Elems(t.right));
      DistinctTail(m, Elems(l') + [t.lock] + Elems(t.right));
      var l;
      l, min := ExtractMinNode(mem[root].left, t.left);
      StoresFrame(old(mem), mem, AddrsOf(Elems(t.left)), t.right);
      rest := HangLeft(root, l, l', t.lock, t.right);
    }

    method JoinRootNode(left: nat, root: nat, right: nat, ghost l: Tree, ghost x: Lock, ghost r: Tree)
        returns (next: nat)
      requires left == Ptr(l) && right == Ptr(r) && root == x.addr && Stores(mem, l) && Stores(mem, r) && Avl(l)
                && Avl(r)
      requires root in mem && mem[root].lock == x && Distinct(Elems(l) + [x] + Elems(r))
      modifies this`mem
      ensures next == Ptr(JoinRoot(l, x, r)) && Stores(mem, JoinRoot(l, x, r))
      ensures SameOutside(old(mem), mem, AddrsOf(Elems(l)) + {root} + AddrsOf(Elems(r)))
      decreases l, r
    {
      DistinctParts(Elems(l), x, Elems(r));
      HeightStored(mem, l);
      HeightStored(mem, r);
      HeightBounds(l);
      HeightBounds(r);
      if HeightAt(mem, left) > HeightAt(mem, right) + 1 {
        next := JoinIntoLeft(left, root, right, l, x, r);
      } else if HeightAt(mem, right) > HeightAt(mem, left) + 1 {
        next := JoinIntoRight(left, root, right, l, x, r);
      } else {
        mem := mem[root := mem[root].(left := left, right := right)];
        StoresFrame(old(mem), mem, {root}, l);
        StoresFrame(old(mem), mem, {root}, r);
        UpdateNode(root, l, x, r);
        next := root;
      }
    }

    method JoinIntoLeft(left: nat, root: nat, right: nat, ghost l: Tree, ghost x: Lock, ghost r: Tree)
        returns (next: nat)
      requires left == Ptr(l) && right == Ptr(r) && root == x.addr && Stores(mem, l) && Stores(mem, r) && Avl(l)
                && Avl(r)
      requires root in mem && mem[root].lock == x && Distinct(Elems(l) + [x] + Elems(r))
      requires l.Node? && Height(l) > Height(r) + 1
      modifies this`mem
      ensures next == Ptr(JoinRoot(l, x, r)) && Stores(mem, JoinRoot(l, x, r))
      ensures SameOutside(old(mem), mem, AddrsOf(Elems(l)) + {root} + AddrsOf(Elems(r)))
      decreases l, r, 0
    {
      DistinctParts(Elems(l), x, Elems(r));
      DistinctParts(Elems(l.left), l.lock, Elems(l.right));
      Assoc(Elems(l.left), l.lock, Elems(l.right), x, Elems(r));
      DistinctParts(Elems(l.left), l.lock, Elems(l.right) + [x] + Elems(r));
      AddrsConcat(Elems(l.right), x, Elems(r));
      JoinRootCorrect(l.right, x, r);
      var m := JoinRootNode(mem[left].right, root, right, l.right, x, r);
      StoresFrame(old(mem), mem, AddrsOf(Elems(l.right)) + {root} + AddrsOf(Elems(r)), l.left);
      next := HangRight(left, m, l.left, l.lock, JoinRoot(l.right, x, r));
    }

    method JoinIntoRight(left: nat, root: nat, right: nat, ghost l: Tree, ghost x: Lock, ghost r: Tree)
        returns (next: nat)
      requires left == Ptr(l) && right == Ptr(r) && root == x.addr && Stores(mem, l) && Stores(mem, r) && Avl(l)
                && Avl(r)
      requires root in mem && mem[root].lock == x && Distinct(Elems(l) + [x] + Elems(r))
      requires r.Node? && Height(r) > Height(l) + 1
      modifies this`mem
      ensures next == Ptr(JoinRoot(l, x, r)) && Stores(mem, JoinRoot(l, x, r))
      ensures SameOutside(old(mem), mem, AddrsOf(Elems(l)) + {root} + AddrsOf(Elems(r)))
      decreases l, r, 0
    {
      DistinctParts(Elems(l), x, Elems(r));
      DistinctParts(Elems(r.left), r.lock, Elems(r.right));
      Assoc(Elems(l), x, Elems(r.left), r.lock, Elems(r.right));
      DistinctParts(Elems(l) + [x] + Elems(r.left), r.lock, Elems(r.right));
      AddrsConcat(Elems(l), x, Elems(r.left));
      JoinRootCorrect(l, x, r.left);
      var m := JoinRootNode(left, root, mem[right].left, l, x, r.left);
      StoresFrame(old(mem), mem, AddrsOf(Elems(l)) + {root} + AddrsOf(Elems(r.left)), r.right);
      next := HangLeft(right, m, JoinRoot(l, x, r.left), r.lock, r.right);
    }

    method JoinTreesNode(left: nat, right: nat, ghost l: Tree, ghost r: Tree) returns (next: nat)
      requires left == Ptr(l) && right == Ptr(r) && Stores(mem, l) && Stores(mem, r) && Avl(l) && Avl(r)
      requires Distinct(Elems(l) + Elems(r))
      modifies this`mem
      ensures next == Ptr(JoinTrees(l, r)) && Stores(mem, JoinTrees(l, r))
      ensures SameOutside(old(mem), mem, AddrsOf(Elems(l)) + AddrsOf(Elems(r)))
    {
      DistinctSides(Elems(l), Elems(r));
      HeightStored(mem, l);
      HeightStored(mem, r);
      if left == 0 {
        return right;
      }
      if right == 0 {
        return left;
      }
      ExtractMinCorrect(r);
      ghost var (r', x) := ExtractMin(r);
      AddrsHead(x, Elems(r'));
      assert Elems(l) + [x] + Elems(r') == Elems(l) + Elems(r);
      var rest, root := ExtractMinNode(right, r);
      StoresFrame(old(mem), mem, AddrsOf(Elems(r)), l);
      next := JoinRootNode(left, root, rest, l, x, r');
    }

    method RemoveNode(root: nat, n: nat, ghost t: Tree, ghost x: Lock) returns (next: nat)
      requires root == Ptr(t) && Stores(mem, t) && Distinct(Elems(t)) && Avl(t) && Sorted(Elems(t))
      requires x in Elems(t) && n == x.addr
      modifies this`mem
      ensures next == Ptr(Remove(t, x)) && Stores(mem, Remove(t, x))
      ensures SameOutside(old(mem), mem, AddrsOf(Elems(t)))
      decreases t
    {
      HeightStored(mem, t);
      StoresMember(mem, t, x);
      ghost var a, b := Elems(t.left), Elems(t.right);
      DistinctParts(a, t.lock, b);
      SortedParts(a, t.lock, b);
      DistinctMembers(Elems(t));
      assert forall y :: y in Elems(t) <==> y in a || y == t.lock || y in b;
      if root == n {
        next := RemoveHere(root, t, x);
      } else if mem[n].lock.start < mem[root].lock.start || (mem[n].lock.start == mem[root].lock.start && n < root) {
        RemoveDistinct(t, x);
        RemoveAddrs(t.left, x);
        var l := RemoveNode(mem[root].left, n, t.left, x);
        StoresFrame(old(mem), mem, AddrsOf(a), t.right);
        next := HangLeft(root, l, Remove(t.left, x), t.lock, t.right);
      } else {
        RemoveDistinct(t, x);
        RemoveAddrs(t.right, x);
        var r := RemoveNode(mem[root].right, n, t.right, x);
        StoresFrame(old(mem), mem, AddrsOf(b), t.left);
        next := HangRight(root, r, t.left, t.lock, Remove(t.right, x));
      }
    }

    method RemoveHere(root: nat, ghost t: Tree, ghost x: Lock) returns (next: nat)
      requires root == Ptr(t) && Stores(mem, t) && Distinct(Elems(t)) && Avl(t) && t.Node? && t.lock.addr == x.addr
      modifies this`mem
      ensures next == Ptr(Remove(t, x)) && Stores(mem, Remove(t, x))
      ensures SameOutside(old(mem), mem, AddrsOf(Elems(t)))
    {
      DistinctParts(Elems(t.left), t.lock, Elems(t.right));
      HeightStored(mem, t.left);
      HeightStored(mem, t.right);
      if mem[root].left == 0 {
        return mem[root].right;
      }
      if mem[root].right == 0 {
        return mem[root].left;
      }
      ExtractMinCorrect(t.right);
      ghost var (r, m) := ExtractMin(t.right);
      AddrsHead(m, Elems(r));
      DistinctTail(m, Elems(r));
      DistinctReplace(Elems(t.left), t.lock, m, Elems(r));
      var right, min := ExtractMinNode(mem[root].right, t.right);
      StoresFrame(old(mem), mem, AddrsOf(Elems(t.right)), t.left);
      RelinkBoth(mem, t.left, m, r);
      mem := mem[min := mem[min].(left := mem[root].left, right := right)];
      AddrsConcat(Elems(t.left), m, Elems(r));
      next := BalanceNode(min, t.left, m, r);
    }

    /** Put the node of x back between l and r; the extraction list is elsewhere. */
    method KeepNode(left: nat, root: nat, right: nat, removed: nat,
                    ghost l: Tree, ghost x: Lock, ghost r: Tree, ghost list: seq<Lock>) returns (next: nat)
      requires left == Ptr(l) && right == Ptr(r) && root == x.addr && Stores(mem, l) && Stores(mem, r) && Avl(l)
                && Avl(r)
      requires root in mem && mem[root].lock == x && Distinct(Elems(l) + [x] + Elems(r))
      requires Chain(mem, removed, list) && AddrsOf(list) !! AddrsOf(Elems(l)) + {root} + AddrsOf(Elems(r))
      modifies this`mem
      ensures next == Ptr(JoinRoot(l, x, r)) && Stores(mem, JoinRoot(l, x, r)) && Chain(mem, removed, list)
      ensures SameOutside(old(mem), mem, AddrsOf(Elems(l)) + {root} + AddrsOf(Elems(r)))
    {
      next := JoinRootNode(left, root, right, l, x, r);
      ChainFrame(old(mem), mem, AddrsOf(Elems(l)) + {root} + AddrsOf(Elems(r)), removed, list);
    }

    /** Push the node of x on the extraction list and join what is left of its subtrees. */
    method DropNode(left: nat, root: nat, right: nat, removed: nat,
                    ghost l: Tree, ghost x: Lock, ghost r: Tree, ghost list: seq<Lock>) returns (next: nat)
      requires left == Ptr(l) && right == Ptr(r) && root == x.addr && Stores(mem, l) && Stores(mem, r) && Avl(l)
                && Avl(r)
      requires root in mem && mem[root].lock == x && Distinct(Elems(l) + [x] + Elems(r))
                && Distinct(Elems(l) + Elems(r))
      requires Chain(mem, removed, list) && AddrsOf(list) !! AddrsOf(Elems(l)) + {root} + AddrsOf(Elems(r))
      modifies this`mem
      ensures next == Ptr(JoinTrees(l, r)) && Stores(mem, JoinTrees(l, r)) && Chain(mem, root, [x] + list)
      ensures SameOutside(old(mem), mem, AddrsOf(Elems(l)) + {root} + AddrsOf(Elems(r)))
    {
      DistinctParts(Elems(l), x, Elems(r));
      mem := mem[root := mem[root].(left := removed)];
      StoresFrame(old(mem), mem, {root}, l);
      StoresFrame(old(mem), mem, {root}, r);
      ChainFrame(old(mem), mem, {root}, removed, list);
      assert ([x] + list)[1..] == list;
      AddrsHead(x, list);
      ghost var m := mem;
      next := JoinTreesNode(left, right, l, r);
      ChainFrame(m, mem, AddrsOf(Elems(l)) + AddrsOf(Elems(r)), root, [x] + list);
    }

    method ExtractOwnedNode(root: nat, owner: Owner, start: int, end: int, removed: nat, ghost t: Tree,
                            ghost list: seq<Lock>)
      returns (next: nat, removed': nat)
      requires root == Ptr(t) && Stores(mem, t) && Distinct(Elems(t)) && Avl(t) && Sorted(Elems(t))
      requires Chain(mem, removed, list) && Distinct(list) && AddrsOf(list) !! AddrsOf(Elems(t))
      modifies this`mem
      ensures var r := ExtractOwned(t, owner, start, end, list);
              next == Ptr(r.0) && Stores(mem, r.0) && Chain(mem, removed', r.1)
      ensures SameOutside(old(mem), mem, AddrsOf(Elems(t)))
      decreases t, 0
    {
      HeightStored(mem, t);
      if root == 0 {
        return 0, removed;
      }
      if mem[root].maxEnd < start {
        return root, removed;
      }
      ghost var l, rem := ExtractOwned(t.left, owner, start, end, list).0,
          ExtractOwned(t.left, owner, start, end, list).1;
      var left;
      left, removed' := ExtractLeft(root, owner, start, end, removed, t, list);
      ghost var m := mem;
      if mem[root].lock.start > end {
        next := KeepNode(left, root, mem[root].right, removed', l, t.lock, t.right, rem);
      } else {
        next, removed' := ExtractRest(left, root, owner, start, end, removed', l, t.lock, t.right, rem);
      }
      assert SameOutside(m, mem, AddrsOf(Elems(t)));
    }

    /** The first step of `extract_owned` at a node: its left subtree, the rest of the node untouched. */
    method ExtractLeft(root: nat, owner: Owner, start: int, end: int, removed: nat, ghost t: Tree,
                       ghost list: seq<Lock>)
      returns (left: nat, removed': nat)
      requires t.Node? && root == t.lock.addr && Stores(mem, t) && Distinct(Elems(t)) && Avl(t) && Sorted(Elems(t))
      requires Chain(mem, removed, list) && Distinct(list) && AddrsOf(list) !! AddrsOf(Elems(t))
      modifies this`mem
      ensures var r := ExtractOwned(t.left, owner, start, end, list);
              && left == Ptr(r.0) && Stores(mem, r.0) && Avl(r.0) && Chain(mem, removed', r.1) && Distinct(r.1)
              && Distinct(Elems(r.0) + [t.lock] + Elems(t.right)) && Sorted(Elems(r.0) + [t.lock] + Elems(t.right))
              && AddrsOf(r.1) !! AddrsOf(Elems(r.0)) + {root} + AddrsOf(Elems(t.right))
              && AddrsOf(Elems(r.0)) + {root} + AddrsOf(Elems(t.right)) <= AddrsOf(Elems(t))
      ensures root in mem && mem[root].lock == t.lock && mem[root].right == Ptr(t.right) && Stores(mem, t.right)
      ensures SameOutside(old(mem), mem, AddrsOf(Elems(t)))
      decreases t.left, 1
    {
      ghost var a, b := Elems(t.left), Elems(t.right);
      DistinctParts(a, t.lock, b);
      SortedParts(a, t.lock, b);
      ExtractFacts(t.left, owner, start, end, list);
      KeptSorted(Elems(ExtractOwned(t.left, owner, start, end, list).0), a, t.lock, b);
      left, removed' := ExtractOwnedNode(mem[root].left, owner, start, end, removed, t.left, list);
      StoresFrame(old(mem), mem, AddrsOf(a), t.right);
    }

    /** The rest of `extract_owned` at the node of x, once its left subtree has become l. */
    method ExtractRest(left: nat, root: nat, owner: Owner, start: int, end: int, removed: nat,
                       ghost l: Tree, ghost x: Lock, ghost t: Tree, ghost list: seq<Lock>)
      returns (next: nat, removed': nat)
      requires left == Ptr(l) && Stores(mem, l) && Avl(l) && Stores(mem, t) && Avl(t)
      requires root == x.addr && root in mem && mem[root].lock == x && mem[root].right == Ptr(t)
      requires Distinct(Elems(l) + [x] + Elems(t)) && Sorted(Elems(l) + [x] + Elems(t))
      requires Chain(mem, removed, list) && Distinct(list)
      requires AddrsOf(list) !! AddrsOf(Elems(l)) + {root} + AddrsOf(Elems(t)) && x.start <= end
      modifies this`mem
      ensures var (r, list') := ExtractOwned(t, owner, start, end, list);
              if Owned(x, owner, start, end)
              then next == Ptr(JoinTrees(l, r)) && Stores(mem, JoinTrees(l, r)) && Chain(mem, removed', [x] + list')
              else next == Ptr(JoinRoot(l, x, r)) && Stores(mem, JoinRoot(l, x, r)) && Chain(mem, removed', list')
      ensures SameOutside(old(mem), mem, AddrsOf(Elems(l)) + {root} + AddrsOf(Elems(t)))
      decreases t, 1
    {
      DistinctParts(Elems(l), x, Elems(t));
      SortedParts(Elems(l), x, Elems(t));
      ghost var (r, list') := ExtractOwned(t, owner, start, end, list);
      ExtractFacts(t, owner, start, end, list);
      KeptDistinct(Elems(l), Elems(r), Elems(l), x, Elems(t));
      var right;
      right, removed' := ExtractOwnedNode(mem[root].right, owner, start, end, removed, t, list);
      StoresFrame(old(mem), mem, AddrsOf(Elems(t)), l);
      if mem[root].lock.owner != owner || mem[root].lock.end < start {
        next := KeepNode(left, root, right, removed', l, x, r, list');
      } else {
        next := DropNode(left, root, right, removed', l, x, r, list');
        removed' := root;
      }
    }
  }

  /** The extraction list: extracted nodes, linked through their left links. */
  ghost predicate Chain(m: Mem, head: nat, list: seq<Lock>)
    decreases |list|
  {
    if list == [] then head == 0
    else head == list[0].addr && head != 0 && head in m && m[head].lock == list[0] && Chain(m, m[head].left, list[1..])
  }

  lemma {:induction false} ChainFrame(m: Mem, m': Mem, A: set<nat>, head: nat, list: seq<Lock>)
    requires Chain(m, head, list) && SameOutside(m, m', A) && A !! AddrsOf(list)
    ensures Chain(m', head, list)
    decreases |list|
  {
    if list != [] {
      assert list == [list[0]] + list[1..];
      AddrsHead(list[0], list[1..]);
      ChainFrame(m, m', A, m[head].left, list[1..]);
    }
  }

  /** Kept parts of a node's contents stay distinct, with or without the node. */
  lemma KeptDistinct(a': seq<Lock>, b': seq<Lock>, a: seq<Lock>, x: Lock, b: seq<Lock>)
    requires Distinct(a + [x] + b) && Sorted(a + [x] + b) && Sorted(a') && Sorted(b')
    requires forall y :: y in a' ==> y in a
    requires forall y :: y in b' ==> y in b
    ensures Distinct(a' + [x] + b') && Distinct(a' + b')
  {
    SortedParts(a, x, b);
    SortedJoin(a', x, b');
    DistinctMembers(a + [x] + b);
    assert forall y :: y in a' + [x] + b' ==> y in a + [x] + b;
    DistinctBySet(a' + [x] + b');
    SortedSkip(a', x, b');
    assert forall y :: y in a' + b' ==> y in a + [x] + b;
    DistinctBySet(a' + b');
  }

  lemma KeptSorted(a': seq<Lock>, a: seq<Lock>, x: Lock, b: seq<Lock>)
    requires Distinct(a + [x] + b) && Sorted(a + [x] + b) && Sorted(a')
    requires forall y :: y in a' ==> y in a
    ensures Distinct(a' + [x] + b) && Sorted(a' + [x] + b)
  {
    SortedParts(a, x, b);
    SortedJoin(a', x, b);
    KeptDistinct(a', b, a, x, b);
  }

  /** What extraction leaves and what it lists are separate parts of the old nodes. */
  lemma ExtractFacts(t: Tree, owner: Owner, start: int, end: int, list: seq<Lock>)
    requires Avl(t) && Sorted(Elems(t)) && Distinct(Elems(t)) && Distinct(list) && AddrsOf(list) !! AddrsOf(Elems(t))
    ensures var (t', list') := ExtractOwned(t, owner, start, end, list);
            && Avl(t') && Sorted(Elems(t')) && Distinct(Elems(t')) && Distinct(list')
            && (forall y :: y in Elems(t') ==> y in Elems(t))
            && AddrsOf(Elems(t')) <= AddrsOf(Elems(t))
            && AddrsOf(list') <= AddrsOf(list) + AddrsOf(Elems(t))
            && AddrsOf(list') !! AddrsOf(Elems(t'))
  {
    var (t', list') := ExtractOwned(t, owner, start, end, list);
    forall y | y in list ensures y !in Elems(t) {
      assert y.addr in AddrsOf(list);
    }
    ExtractOwnedList(t, owner, start, end, list);
    ExtractOwnedCorrect(t, owner, start, end, list);
    KeepMembers(Elems(t), owner, start, end);
    DistinctMembers(Elems(t));
    DistinctMembers(list);
    DistinctBySet(Elems(t'));
    ListDistinct(list', list, Elems(t));
    forall y, z | y in list' && z in Elems(t') ensures y.addr != z.addr {
      assert z in Elems(t);
      if y in list {
        assert y.addr in AddrsOf(list) && z.addr in AddrsOf(Elems(t));
      }
    }
  }

  lemma ListDistinct(list': seq<Lock>, list: seq<Lock>, s: seq<Lock>)
    requires Distinct(list) && Distinct(s) && AddrsOf(list) !! AddrsOf(s) && NoDup(list')
    requires forall y :: y in list' ==> y in list || y in s
    ensures Distinct(list')
  {
    DistinctMembers(list);
    DistinctMembers(s);
    forall i, j | 0 <= i < j < |list'| ensures list'[i].addr != list'[j].addr {
      var y, z := list'[i], list'[j];
      assert y in list' && z in list';
      assert y in list ==> y.addr in AddrsOf(list);
      assert z in list ==> z.addr in AddrsOf(list);
      assert y in s ==> y.addr in AddrsOf(s);
      assert z in s ==> z.addr in AddrsOf(s);
    }
  }

  lemma RelinkBoth(m: Mem, l: Tree, x: Lock, r: Tree)
    requires x.addr in m && m[x.addr].lock == x && Stores(m, l) && Stores(m, r)
    requires Distinct(Elems(l) + [x] + Elems(r))
    ensures Hangs(m[x.addr := m[x.addr].(left := Ptr(l), right := Ptr(r))], l, x, r)
  {
    var m' := m[x.addr := m[x.addr].(left := Ptr(l), right := Ptr(r))];
    DistinctParts(Elems(l), x, Elems(r));
    StoresFrame(m, m', {x.addr}, l);
    StoresFrame(m, m', {x.addr}, r);
  }

  lemma DistinctReplace(a: seq<Lock>, x: Lock, m: Lock, b: seq<Lock>)
    requires Distinct(a + [x] + ([m] + b))
    ensures Distinct(a + [m] + b)
  {
    var s := a + [x] + ([m] + b);
    assert forall i :: 0 <= i < |a + [m] + b| ==> (a + [m] + b)[i] == s[if i < |a| then i else i + 1];
  }

  lemma DistinctSides(a: seq<Lock>, b: seq<Lock>)
    requires Distinct(a + b)
    ensures Distinct(a) && Distinct(b) && AddrsOf(a) !! AddrsOf(b)
  {
    var s := a + b;
    assert forall i :: 0 <= i < |a| ==> a[i] == s[i];
    assert forall i :: 0 <= i < |b| ==> b[i] == s[|a| + i];
    forall i, j | 0 <= i < |a| && 0 <= j < |b| ensures a[i].addr != b[j].addr {
      assert s[i].addr != s[|a| + j].addr;
    }
  }

  lemma {:induction false} StoresMember(m: Mem, t: Tree, x: Lock)
    requires Stores(m, t) && x in Elems(t)
    ensures x.addr in m && m[x.addr].lock == x
  {
    assert x in Elems(t.left) || x == t.lock || x in Elems(t.right);
    if x in Elems(t.left) {
      StoresMember(m, t.left, x);
    } else if x in Elems(t.right) {
      StoresMember(m, t.right, x);
    }
  }

  lemma RemoveAddrs(t: Tree, x: Lock)
    requires Avl(t) && Sorted(Elems(t)) && x in Elems(t) && Distinct(Elems(t))
    ensures AddrsOf(Elems(Remove(t, x))) <= AddrsOf(Elems(t))
  {
    DistinctMembers(Elems(t));
    RemoveCorrect(t, x);
  }

  lemma RemoveDistinct(t: Tree, x: Lock)
    requires t.Node? && Avl(t) && Sorted(Elems(t)) && Distinct(Elems(t)) && x in Elems(t) && t.lock.addr != x.addr
    ensures Before(x, t.lock) ==> x in Elems(t.left) && Distinct(Elems(Remove(t.left, x)) + [t.lock] + Elems(t.right))
    ensures !Before(x, t.lock) ==> x in Elems(t.right) && Distinct(Elems(t.left) + [t.lock] + Elems(Remove(t.right, x)))
  {
    var a, b := Elems(t.left), Elems(t.right);
    SortedParts(a, t.lock, b);
    assert forall y :: y in Elems(t) <==> y in a || y == t.lock || y in b;
    DistinctMembers(Elems(t));
    if Before(x, t.lock) {
      RemoveCorrect(t.left, x);
      SortedJoin(Elems(Remove(t.left, x)), t.lock, b);
      DistinctBySet(Elems(Remove(t.left, x)) + [t.lock] + b);
    } else {
      RemoveCorrect(t.right, x);
      SortedJoin(a, t.lock, Elems(Remove(t.right, x)));
      DistinctBySet(a + [t.lock] + Elems(Remove(t.right, x)));
    }
  }

  lemma AddrsHead(m: Lock, s: seq<Lock>)
    ensures AddrsOf([m] + s) == {m.addr} + AddrsOf(s)
  {
    AddrsConcat([], m, s);
    assert [] + [m] + s == [m] + s;
  }

  lemma DistinctTail(m: Lock, s: seq<Lock>)
    requires Distinct([m] + s)
    ensures Distinct(s) && m.addr !in AddrsOf(s) && m.addr != 0
  {
    assert [] + [m] + s == [m] + s;
    DistinctParts([], m, s);
  }

  lemma AddrsOfInsert(t: Tree, x: Lock)
    requires Avl(t) && Sorted(Elems(t)) && x.addr !in AddrsOf(Elems(t))
    ensures AddrsOf(Elems(Insert(t, x))) == AddrsOf(Elems(t)) + {x.addr}
  {
    forall y | y in Elems(t) ensures y.addr != x.addr {
      assert y.addr in AddrsOf(Elems(t));
    }
    InsertCorrect(t, x);
    assert x in Elems(Insert(t, x));
    assert forall y :: y in Elems(t) ==> y in Elems(Insert(t, x));
  }

  /** The contents of the subtree that received x, next to the rest of the node, stay distinct. */
  lemma InsertDistinct(t: Tree, x: Lock)
    requires t.Node? && Avl(t) && Sorted(Elems(t)) && Distinct(Elems(t))
    requires x.addr != 0 && x.addr !in AddrsOf(Elems(t))
    ensures Before(x, t.lock) ==> Distinct(Elems(Insert(t.left, x)) + [t.lock] + Elems(t.right))
    ensures !Before(x, t.lock) ==> Distinct(Elems(t.left) + [t.lock] + Elems(Insert(t.right, x)))
  {
    var a, b := Elems(t.left), Elems(t.right);
    SortedParts(a, t.lock, b);
    AddrsConcat(a, t.lock, b);
    forall y | y in Elems(t) ensures y.addr != x.addr {
      assert y.addr in AddrsOf(Elems(t));
    }
    assert forall y :: y in Elems(t) <==> y in a || y == t.lock || y in b;
    DistinctMembers(Elems(t));
    if Before(x, t.lock) {
      InsertCorrect(t.left, x);
      SortedJoin(Elems(Insert(t.left, x)), t.lock, b);
      DistinctBySet(Elems(Insert(t.left, x)) + [t.lock] + b);
    } else {
      InsertCorrect(t.right, x);
      SortedJoin(a, t.lock, Elems(Insert(t.right, x)));
      DistinctBySet(a + [t.lock] + Elems(Insert(t.right, x)));
    }
  }

  lemma DistinctMembers(s: seq<Lock>)
    requires Distinct(s)
    ensures forall y :: y in s ==> y.addr != 0
    ensures forall y, z :: y in s && z in s && y.addr == z.addr ==> y == z
  {}
}
