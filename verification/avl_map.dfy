/** The pointer code of avl_map::map (map_demo.h), proved against `AvlTree`. */
module AvlMap {
  import opened AvlTree
  import opened AvlRuns
  import opened Options

  class AvlNode {
    var key: int
    var value: int
    var height: int
    var left: AvlNode?
    var right: AvlNode?
    ghost var tree: Tree<int>
    ghost var repr: set<AvlNode>

    constructor (k: int, v: int)
      ensures Valid() && fresh(repr) && tree == Node(Leaf, k, v, 1, Leaf)
    {
      key, value, height := k, v, 1;
      left, right := null, null;
      tree, repr := Node(Leaf, k, v, 1, Leaf), {this};
    }

    /** The nodes below form the tree `tree`, share nothing, and lead nowhere else. */
    ghost predicate Valid()
      reads this, repr
      decreases repr
    {
      && this in repr
      && (left != null ==> left in repr && left.repr <= repr && this !in left.repr && left.Valid())
      && (right != null ==> right in repr && right.repr <= repr && this !in right.repr && right.Valid())
      && ReprOf(left) !! ReprOf(right)
      && repr == {this} + ReprOf(left) + ReprOf(right)
      && tree == Node(TreeOf(left), key, value, height, TreeOf(right))
    }
  }

  ghost function TreeOf(n: AvlNode?): Tree<int>
    reads n
  {
    if n == null then Leaf else n.tree
  }

  ghost function ReprOf(n: AvlNode?): set<AvlNode>
    reads n
  {
    if n == null then {} else n.repr
  }

  ghost predicate ValidTree(n: AvlNode?)
    reads n, ReprOf(n)
  {
    n != null ==> n.Valid()
  }

  /** The two subtrees that `n` is about to be made of. */
  ghost predicate Separate(n: AvlNode, l: AvlNode?, r: AvlNode?)
    reads l, r, ReprOf(l), ReprOf(r)
  {
    && ValidTree(l) && ValidTree(r)
    && n !in ReprOf(l) && n !in ReprOf(r) && ReprOf(l) !! ReprOf(r)
  }

  function GetHeight(n: AvlNode?): int
    reads n
  {
    if n == null then 0 else n.height
  }

  function GetBalance(n: AvlNode?): int
    reads n, if n == null then {} else {n.left, n.right}
  {
    if n == null then 0 else GetHeight(n.left) - GetHeight(n.right)
  }

  lemma HeightsAgree(n: AvlNode?)
    requires ValidTree(n)
    ensures GetHeight(n) == Height(TreeOf(n)) && GetBalance(n) == Balance(TreeOf(n))
  {
    if n != null {
      assert ValidTree(n.left) && ValidTree(n.right);
      assert n.left != null ==> n.left.tree.height == n.left.height;
      assert n.right != null ==> n.right.tree.height == n.right.height;
    }
  }

  /** Stores the children of `n` and recomputes its height. */
  method Rebuild(n: AvlNode, l: AvlNode?, r: AvlNode?)
    requires Separate(n, l, r)
    modifies n
    ensures n.Valid()
    ensures n.tree == Join(TreeOf(l), old(n.key), old(n.value), TreeOf(r))
    ensures n.repr == {n} + ReprOf(l) + ReprOf(r)
    ensures n.left == l && n.right == r && n.key == old(n.key)
  {
    n.left, n.right := l, r;
    HeightsAgree(l);
    HeightsAgree(r);
    n.height := 1 + Max(GetHeight(n.left), GetHeight(n.right));
    n.repr := {n} + ReprOf(l) + ReprOf(r);
    n.tree := Node(TreeOf(l), n.key, n.value, n.height, TreeOf(r));
  }

  lemma Below(n: AvlNode)
    requires n.Valid()
    ensures ValidTree(n.left) && ValidTree(n.right)
    ensures n.tree == Node(TreeOf(n.left), n.key, n.value, n.height, TreeOf(n.right))
    ensures n !in ReprOf(n.left) && n !in ReprOf(n.right) && ReprOf(n.left) !! ReprOf(n.right)
    ensures n.repr == {n} + ReprOf(n.left) + ReprOf(n.right)
    ensures n.left != null ==> n.left in n.left.repr
    ensures n.right != null ==> n.right in n.right.repr
  {
  }

  /** Three subtrees and two nodes with nothing in common. */
  ghost predicate Apart(x: AvlNode, y: AvlNode, a: AvlNode?, b: AvlNode?, c: AvlNode?)
    reads a, b, c, ReprOf(a), ReprOf(b), ReprOf(c)
  {
    && x != y
    && Separate(x, a, b) && Separate(y, b, c) && Separate(x, a, c) && y !in ReprOf(a)
    && (a != null ==> a in ReprOf(a)) && (b != null ==> b in ReprOf(b)) && (c != null ==> c in ReprOf(c))
  }

  lemma LeftParts(y: AvlNode)
    requires y.Valid() && y.left != null
    ensures Apart(y.left, y, y.left.left, y.left.right, y.right)
    ensures y.repr == {y, y.left} + ReprOf(y.left.left) + ReprOf(y.left.right) + ReprOf(y.right)
    ensures RotateRight(y.tree) ==
            Join(TreeOf(y.left.left), y.left.key, y.left.value,
                 Join(TreeOf(y.left.right), y.key, y.value, TreeOf(y.right)))
  {
    var x := y.left;
    Below(y);
    Below(x);
    assert forall n :: n in ReprOf(x.left) || n in ReprOf(x.right) ==> n in x.repr;
  }

  lemma RightParts(y: AvlNode)
    requires y.Valid() && y.right != null
    ensures Apart(y, y.right, y.left, y.right.left, y.right.right)
    ensures y.repr == {y, y.right} + ReprOf(y.left) + ReprOf(y.right.left) + ReprOf(y.right.right)
    ensures RotateLeft(y.tree) ==
            Join(Join(TreeOf(y.left), y.key, y.value, TreeOf(y.right.left)),
                 y.right.key, y.right.value, TreeOf(y.right.right))
  {
    var x := y.right;
    Below(y);
    Below(x);
    assert forall n :: n in ReprOf(x.left) || n in ReprOf(x.right) ==> n in x.repr;
  }

  /** The first half of a right rotation: `y` takes over the middle subtree. */
  method LowerRight(x: AvlNode, y: AvlNode, ghost a: AvlNode?, b: AvlNode?, c: AvlNode?)
    requires Apart(x, y, a, b, c)
    modifies y
    ensures y.Valid() && y.tree == Join(TreeOf(b), old(y.key), old(y.value), TreeOf(c))
    ensures y.repr == {y} + ReprOf(b) + ReprOf(c)
    ensures Separate(x, a, y) && TreeOf(a) == old(TreeOf(a)) && ReprOf(a) == old(ReprOf(a))
  {
    hide AvlNode.Valid, Join;
    Rebuild(y, b, c);
  }

  method LowerLeft(x: AvlNode, y: AvlNode, a: AvlNode?, b: AvlNode?, ghost c: AvlNode?)
    requires Apart(y, x, a, b, c)
    modifies y
    ensures y.Valid() && y.tree == Join(TreeOf(a), old(y.key), old(y.value), TreeOf(b))
    ensures y.repr == {y} + ReprOf(a) + ReprOf(b)
    ensures Separate(x, y, c) && TreeOf(c) == old(TreeOf(c)) && ReprOf(c) == old(ReprOf(c))
  {
    hide AvlNode.Valid, Join;
    Rebuild(y, a, b);
  }

  method RightRotate(y: AvlNode) returns (x: AvlNode)
    requires y.Valid() && y.left != null
    modifies y, y.left
    ensures x.Valid() && x in x.repr && x.tree == RotateRight(old(y.tree)) && x.repr == old(y.repr)
  {
    x := y.left;
    LeftParts(y);
    hide AvlNode.Valid, Join, RotateRight, Separate;
    LowerRight(x, y, x.left, x.right, y.right);
    Rebuild(x, x.left, y);
  }

  method LeftRotate(y: AvlNode) returns (x: AvlNode)
    requires y.Valid() && y.right != null
    modifies y, y.right
    ensures x.Valid() && x in x.repr && x.tree == RotateLeft(old(y.tree)) && x.repr == old(y.repr)
  {
    x := y.right;
    RightParts(y);
    hide AvlNode.Valid, Join, RotateLeft, Separate;
    LowerLeft(x, y, y.left, x.left, x.right);
    Rebuild(x, y, x.right);
  }

  /** `node->_left = l`, the height not yet recomputed. */
  method SetLeft(n: AvlNode, l: AvlNode?)
    requires Separate(n, l, n.right)
    modifies n
    ensures n.Valid() && n.tree == Node(TreeOf(l), old(n.key), old(n.value), old(n.height), TreeOf(n.right))
    ensures n.repr == {n} + ReprOf(l) + ReprOf(n.right) && n.left == l && n.right == old(n.right)
  {
    n.left := l;
    n.repr := {n} + ReprOf(l) + ReprOf(n.right);
    n.tree := Node(TreeOf(l), n.key, n.value, n.height, TreeOf(n.right));
  }

  method SetRight(n: AvlNode, r: AvlNode?)
    requires Separate(n, r, n.left)
    modifies n
    ensures n.Valid() && n.tree == Node(TreeOf(n.left), old(n.key), old(n.value), old(n.height), TreeOf(r))
    ensures n.repr == {n} + ReprOf(n.left) + ReprOf(r) && n.right == r && n.left == old(n.left)
  {
    n.right := r;
    n.repr := {n} + ReprOf(n.left) + ReprOf(r);
    n.tree := Node(TreeOf(n.left), n.key, n.value, n.height, TreeOf(r));
  }

  /** Rotating one child of `n` leaves its other child `o` alone. */
  method TurnLeft(x: AvlNode, ghost n: AvlNode, ghost o: AvlNode?) returns (r: AvlNode)
    requires Separate(n, x, o) && x in x.repr && x.right != null && x.right in x.repr
    requires o != null ==> o in o.repr
    modifies x.repr
    ensures Separate(n, r, o) && r in r.repr && r.repr == old(x.repr) && r.tree == RotateLeft(old(x.tree))
    ensures TreeOf(o) == old(TreeOf(o)) && ReprOf(o) == old(ReprOf(o))
  {
    hide AvlNode.Valid, RotateLeft;
    r := LeftRotate(x);
  }

  method TurnRight(x: AvlNode, ghost n: AvlNode, ghost o: AvlNode?) returns (r: AvlNode)
    requires Separate(n, x, o) && x in x.repr && x.left != null && x.left in x.repr
    requires o != null ==> o in o.repr
    modifies x.repr
    ensures Separate(n, r, o) && r in r.repr && r.repr == old(x.repr) && r.tree == RotateRight(old(x.tree))
    ensures TreeOf(o) == old(TreeOf(o)) && ReprOf(o) == old(ReprOf(o))
  {
    hide AvlNode.Valid, RotateRight;
    r := RightRotate(x);
  }

  lemma ChildIn(n: AvlNode)
    requires n.Valid()
    ensures n in n.repr && Separate(n, n.left, n.right) && Separate(n, n.right, n.left)
    ensures n.left != null ==> n.left in n.repr && n.left in n.left.repr && n.left.repr <= n.repr
    ensures n.right != null ==> n.right in n.repr && n.right in n.right.repr && n.right.repr <= n.repr
    ensures n.tree == Node(TreeOf(n.left), n.key, n.value, n.height, TreeOf(n.right))
    ensures n.repr == {n} + ReprOf(n.left) + ReprOf(n.right)
  {
  }

  /** `node->_left = left_rotate(node->_left)`. */
  method RotateLeftChild(n: AvlNode)
    requires n.Valid() && n.tree.left.Node? && n.tree.left.right.Node?
    modifies n.repr
    ensures n.Valid() && n.repr == old(n.repr) && n.left != null && n.left in n.repr
    ensures n.tree == old(n.tree.(left := RotateLeft(n.tree.left)))
  {
    ChildIn(n);
    ChildIn(n.left);
    hide AvlNode.Valid, RotateLeft, Separate;
    var l := TurnLeft(n.left, n, n.right);
    SetLeft(n, l);
  }

  method RotateRightChild(n: AvlNode)
    requires n.Valid() && n.tree.right.Node? && n.tree.right.left.Node?
    modifies n.repr
    ensures n.Valid() && n.repr == old(n.repr) && n.right != null && n.right in n.repr
    ensures n.tree == old(n.tree.(right := RotateRight(n.tree.right)))
  {
    ChildIn(n);
    ChildIn(n.right);
    hide AvlNode.Valid, RotateRight, Separate;
    var r := TurnRight(n.right, n, n.left);
    SetRight(n, r);
  }

  /** The four cases that end `insert`; not ok where a null pointer would be read. */
  method FixInsert(n: AvlNode, k: int) returns (ok: bool, r: AvlNode)
    requires n.Valid()
    modifies n.repr
    ensures ok <==> FixRun(old(n.tree), k).Some?
    ensures ok ==> r.Valid() && r.repr == old(n.repr) && r.tree == FixRun(old(n.tree), k).value
  {
    Below(n);
    HeightsAgree(n);
    TreeKey(n.left);
    TreeKey(n.right);
    if n.left != null {
      Below(n.left);
      TreeKey(n.left.right);
    }
    if n.right != null {
      Below(n.right);
      TreeKey(n.right.left);
    }
    hide AvlNode.Valid, RotateRight, RotateLeft;
    ok, r := true, n;
    var balance := GetBalance(n);
    if (balance > 1 && n.left == null) || (balance < -1 && n.right == null) {
      ok := false;
    } else if balance > 1 && k < n.left.key {
      r := RightRotate(n);
    } else if balance < -1 && k > n.right.key {
      r := LeftRotate(n);
    } else if balance > 1 && k > n.left.key {
      ok := n.left.right != null;
      if ok {
        RotateLeftChild(n);
        r := RightRotate(n);
      }
    } else if balance < -1 && k < n.right.key {
      ok := n.right.left != null;
      if ok {
        RotateRightChild(n);
        r := LeftRotate(n);
      }
    }
  }

  lemma TreeKey(n: AvlNode?)
    requires ValidTree(n)
    ensures n != null <==> TreeOf(n).Node?
    ensures n != null ==> n.key == n.tree.key && n.value == n.tree.value
  {
  }

  /** Overwrites key and value in place. */
  method SetData(n: AvlNode, k: int, v: int)
    requires n.Valid()
    modifies n
    ensures n.Valid() && n.repr == old(n.repr) && n.left == old(n.left) && n.right == old(n.right)
    ensures n.tree == old(n.tree).(key := k, value := v) && n.key == k
  {
    n.key, n.value := k, v;
    n.tree := n.tree.(key := k, value := v);
  }

  /** `insert`; not ok where a null pointer would be read. */
  method InsertAt(n: AvlNode?, k: int, v: int) returns (ok: bool, r: AvlNode?)
    requires ValidTree(n)
    modifies ReprOf(n)
    ensures ok <==> InsertRun(old(TreeOf(n)), k, v).Some?
    ensures ok ==> r != null && r.Valid() && fresh(r.repr - old(ReprOf(n)))
    ensures ok ==> r.tree == InsertRun(old(TreeOf(n)), k, v).value
    decreases TreeOf(n)
  {
    if n == null {
      r := new AvlNode(k, v);
      return true, r;
    }
    ghost var t, L, R := n.tree, ReprOf(n.left), ReprOf(n.right);
    Below(n);
    hide AvlNode.Valid, FixRun, Join;
    if k < n.key {
      ok, r := InsertAt(n.left, k, v);
      if ok {
        assert ValidTree(n.right) && ReprOf(n.right) == R && TreeOf(n.right) == t.right;
        Rebuild(n, r, n.right);
        ok, r := FixInsert(n, k);
      }
    } else if k > n.key {
      ok, r := InsertAt(n.right, k, v);
      if ok {
        assert ValidTree(n.left) && ReprOf(n.left) == L && TreeOf(n.left) == t.left;
        Rebuild(n, n.left, r);
        ok, r := FixInsert(n, k);
      }
    } else {
      SetData(n, k, v);
      ok, r := true, n;
    }
  }

  /** The cases that end `erase`. */
  method FixErase(n: AvlNode) returns (r: AvlNode)
    requires n.Valid() && Exact(n.tree)
    modifies n.repr
    ensures r.Valid() && r.repr == old(n.repr) && r.tree == EraseFix(old(n.tree))
  {
    Below(n);
    HeightsAgree(n);
    HeightsAgree(n.left);
    HeightsAgree(n.right);
    TreeKey(n.left);
    TreeKey(n.right);
    EraseRotatesSafely(n.tree);
    hide AvlNode.Valid, RotateRight, RotateLeft, Exact;
    var balance := GetBalance(n);
    if balance > 1 && GetBalance(n.left) >= 0 {
      r := RightRotate(n);
    } else if balance > 1 && GetBalance(n.left) < 0 {
      RotateLeftChild(n);
      r := RightRotate(n);
    } else if balance < -1 && GetBalance(n.right) < 0 {
      r := LeftRotate(n);
    } else if balance < -1 && GetBalance(n.right) >= 0 {
      RotateRightChild(n);
      r := LeftRotate(n);
    } else {
      r := n;
    }
  }

  /** `get_min`. */
  method GetMin(n: AvlNode) returns (m: AvlNode)
    requires n.Valid()
    ensures m.key == Min(n.tree).key && m.value == Min(n.tree).value
  {
    m := n;
    while m.left != null
      invariant m.Valid() && Min(m.tree) == Min(n.tree)
      decreases m.tree
    {
      Below(m);
      m := m.left;
    }
    Below(m);
  }

  /** `node->_left = erase(node->_left, key)` and the rebalancing that follows. */
  method EraseLeft(n: AvlNode, k: int) returns (r: AvlNode)
    requires n.Valid() && Exact(n.tree)
    modifies n.repr
    ensures r.Valid() && r.repr <= old(n.repr)
    ensures r.tree == EraseFix(old(Join(AvlTree.Erase(n.tree.left, k), n.tree.key, n.tree.value, n.tree.right)))
    decreases n.tree, 0
  {
    ghost var t, R := n.tree, ReprOf(n.right);
    Below(n);
    ExactParts(t);
    EraseExact(t.left, k);
    JoinExact(AvlTree.Erase(t.left, k), t.key, t.value, t.right);
    hide AvlNode.Valid, Exact, EraseFix, Join, AvlTree.Erase;
    var l := EraseAt(n.left, k);
    assert ValidTree(n.right) && ReprOf(n.right) == R && TreeOf(n.right) == t.right;
    Rebuild(n, l, n.right);
    r := FixErase(n);
  }

  method EraseRight(n: AvlNode, k: int) returns (r: AvlNode)
    requires n.Valid() && Exact(n.tree)
    modifies n.repr
    ensures r.Valid() && r.repr <= old(n.repr)
    ensures r.tree == EraseFix(old(Join(n.tree.left, n.tree.key, n.tree.value, AvlTree.Erase(n.tree.right, k))))
    decreases n.tree, 0
  {
    ghost var t, L := n.tree, ReprOf(n.left);
    Below(n);
    ExactParts(t);
    EraseExact(t.right, k);
    JoinExact(t.left, t.key, t.value, AvlTree.Erase(t.right, k));
    hide AvlNode.Valid, Exact, EraseFix, Join, AvlTree.Erase;
    var x := EraseAt(n.right, k);
    assert ValidTree(n.left) && ReprOf(n.left) == L && TreeOf(n.left) == t.left;
    Rebuild(n, n.left, x);
    r := FixErase(n);
  }

  /** The root takes over the data of its in-order successor, which is then erased. */
  method EraseRoot(n: AvlNode) returns (r: AvlNode)
    requires n.Valid() && Exact(n.tree) && n.tree.right.Node?
    modifies n.repr
    ensures r.Valid() && r.repr <= old(n.repr)
    ensures r.tree == old(var s := Min(n.tree.right);
                          EraseFix(Join(n.tree.left, s.key, s.value, AvlTree.Erase(n.tree.right, s.key))))
    decreases n.tree, 0
  {
    Below(n);
    ExactParts(n.tree);
    ghost var t, L := n.tree, ReprOf(n.left);
    EraseExact(t.right, Min(t.right).key);
    JoinExact(t.left, Min(t.right).key, Min(t.right).value, AvlTree.Erase(t.right, Min(t.right).key));
    TreeKey(n.right);
    hide AvlNode.Valid, Exact, EraseFix, Join, AvlTree.Erase;
    var m := GetMin(n.right);
    SetData(n, m.key, m.value);
    Below(n);
    var x := EraseAt(n.right, n.key);
    assert ValidTree(n.left) && ReprOf(n.left) == L && TreeOf(n.left) == t.left;
    Rebuild(n, n.left, x);
    r := FixErase(n);
  }

  /** `erase`; the removed node is dropped. */
  method EraseAt(n: AvlNode?, k: int) returns (r: AvlNode?)
    requires ValidTree(n) && Exact(TreeOf(n))
    modifies ReprOf(n)
    ensures ValidTree(r) && ReprOf(r) <= old(ReprOf(n))
    ensures TreeOf(r) == AvlTree.Erase(old(TreeOf(n)), k)
    decreases TreeOf(n), 1
  {
    if n == null {
      return null;
    }
    Below(n);
    TreeKey(n.left);
    TreeKey(n.right);
    ExactParts(n.tree);
    hide AvlNode.Valid, Exact, EraseFix, Join;
    if k < n.key {
      r := EraseLeft(n, k);
    } else if k > n.key {
      r := EraseRight(n, k);
    } else if n.left == null || n.right == null {
      var c := if n.left != null then n.left else n.right;
      if c == null {
        return null;
      }
      r := Shortcut(c);
    } else {
      r := EraseRoot(n);
    }
  }

  /** The only child of an erased node takes its place. */
  method Shortcut(c: AvlNode) returns (r: AvlNode)
    requires c.Valid() && Exact(c.tree)
    modifies c.repr
    ensures r.Valid() && r.repr == old(c.repr)
    ensures r.tree == EraseFix(old(Join(c.tree.left, c.tree.key, c.tree.value, c.tree.right)))
  {
    Below(c);
    ExactParts(c.tree);
    JoinExact(c.tree.left, c.tree.key, c.tree.value, c.tree.right);
    hide AvlNode.Valid, Exact, EraseFix, Join;
    Rebuild(c, c.left, c.right);
    r := FixErase(c);
  }

  /** `find`: the node that holds the key, or null. */
  method Find(n: AvlNode?, k: int) returns (r: AvlNode?)
    requires ValidTree(n)
    ensures r == null <==> AvlTree.Get(TreeOf(n), k) == None
    ensures r != null ==> r in ReprOf(n) && r.key == k && AvlTree.Get(TreeOf(n), k) == Some(r.value)
    decreases TreeOf(n)
  {
    if n == null {
      return null;
    }
    Below(n);
    if k == n.key {
      return n;
    } else if k < n.key {
      r := Find(n.left, k);
    } else {
      r := Find(n.right, k);
    }
  }

  /** `inorder_helper`. */
  method InorderHelper(n: AvlNode?, before: seq<(int, int)>) returns (res: seq<(int, int)>)
    requires ValidTree(n)
    ensures res == before + Inorder(TreeOf(n))
    decreases TreeOf(n)
  {
    res := before;
    if n != null {
      Below(n);
      res := InorderHelper(n.left, res);
      res := res + [(n.key, n.value)];
      res := InorderHelper(n.right, res);
    }
  }

  class Map {
    var root: AvlNode?

    /** The root leads to a tree in strict key order with exact heights. */
    ghost predicate Valid()
      reads this, root, ReprOf(root)
    {
      ValidTree(root) && Ordered(TreeOf(root)) && Exact(TreeOf(root))
    }

    constructor ()
      ensures Valid() && TreeOf(root) == Leaf
    {
      root := null;
    }

    /** `put`; not ok exactly where a rotation lacks its pivot and the source reads a null pointer. */
    method Put(k: int, v: int) returns (ok: bool)
      requires Valid()
      modifies this, ReprOf(root)
      ensures ok <==> InsertRun(old(TreeOf(root)), k, v).Some?
      ensures ok <==> !old(Trapped(TreeOf(root), k, v))
      ensures ok ==> Valid() && IsUpdate(old(TreeOf(root)), k, v, TreeOf(root))
      ensures ok ==> TreeOf(root) == InsertRun(old(TreeOf(root)), k, v).value
      ensures old(Balanced(TreeOf(root))) ==> ok && Balanced(TreeOf(root))
      ensures ok ==> fresh(ReprOf(root) - old(ReprOf(root)))
    {
      ghost var t := TreeOf(root);
      FailsExactlyWhenTrapped(t, k, v);
      InsertRunIs(t, k, v);
      if InsertSafe(t, k, v) {
        InsertIsUpdate(t, k, v);
        InsertExact(t, k, v);
      }
      if Balanced(t) {
        InsertKeepsAvl(t, k, v);
        BalancedIsSafe(t, k, v);
      }
      hide Ordered, Exact, Balanced, IsUpdate, AvlNode.Valid, InsertRun;
      var r: AvlNode?;
      ok, r := InsertAt(root, k, v);
      if ok {
        root := r;
      }
    }

    method Get(k: int) returns (r: Option<int>)
      requires Valid()
      ensures r == AvlTree.Get(TreeOf(root), k)
    {
      var n := Find(root, k);
      r := if n == null then None else Some(n.value);
    }

    method Remove(k: int)
      requires Valid()
      modifies this, ReprOf(root)
      ensures Valid() && IsRemoval(old(TreeOf(root)), k, TreeOf(root))
      ensures TreeOf(root) == AvlTree.Erase(old(TreeOf(root)), k)
      ensures ReprOf(root) <= old(ReprOf(root))
    {
      EraseIsRemoval(TreeOf(root), k);
      EraseExact(TreeOf(root), k);
      hide Ordered, Exact, Balanced, IsRemoval, AvlNode.Valid;
      root := EraseAt(root, k);
    }

    method InorderTraversal() returns (res: seq<(int, int)>)
      requires Valid()
      ensures res == Inorder(TreeOf(root)) && Ascending(res)
      ensures forall k, v :: (k, v) in res <==> AvlTree.Get(TreeOf(root), k) == Some(v)
    {
      res := InorderHelper(root, []);
      InorderAscends(TreeOf(root));
      forall k, v
        ensures (k, v) in res <==> AvlTree.Get(TreeOf(root), k) == Some(v)
      {
        InorderLists(TreeOf(root), k, v);
      }
    }
  }

  /** Any run of calls on an empty map: as long as no put fails it behaves as the map the calls
      describe, and it gets to the end exactly when the run has a tree to end in. */
  method Drive(calls: seq<Call<int>>) returns (ok: bool, m: Map)
    ensures ok <==> Run(Leaf, calls).Some?
    ensures ok ==> fresh(m) && fresh(ReprOf(m.root)) && m.Valid() && TreeOf(m.root) == Run(Leaf, calls).value
    ensures ok ==> IsMap(TreeOf(m.root), Meant(map[], calls))
    ensures Unflawed(Leaf, calls) ==> ok
    decreases |calls|
  {
    ghost var start: Tree<int> := Leaf;
    if Unflawed(start, calls) {
      UnflawedRunsAreSafe(start, calls);
    }
    if calls == [] {
      m := new Map();
      return true, m;
    }
    ok, m := Drive(calls[..|calls| - 1]);
    if ok {
      match calls[|calls| - 1]
      case Put(k, v) =>
        ok := m.Put(k, v);
      case Remove(k) =>
        m.Remove(k);
    }
    if ok {
      RunIsMap(calls);
    }
  }
}
