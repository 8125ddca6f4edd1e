/** The AVL tree of map_demo.h (namespace avl_map) as a value: the shape its pointers describe and
    what rotations, `insert` and `erase` make of it.  Keys are integers; values are of any type. */
module AvlTree {

  import opened Options

  datatype Tree<V> = Leaf | Node(left: Tree<V>, key: int, value: V, height: int, right: Tree<V>)

  function Max(a: int, b: int): int {
    if a > b then a else b
  }

  /** `get_height`: the stored height. */
  function Height<V>(t: Tree<V>): int {
    if t.Leaf? then 0 else t.height
  }

  /** `get_balance`: left minus right. */
  function Balance<V>(t: Tree<V>): int {
    if t.Leaf? then 0 else Height(t.left) - Height(t.right)
  }

  /** A node with its height recomputed. */
  function Join<V>(l: Tree<V>, k: int, v: V, r: Tree<V>): Tree<V> {
    Node(l, k, v, 1 + Max(Height(l), Height(r)), r)
  }

  /** `right_rotate`; the pointer code may only be called when the left child is not null. */
  function RotateRight<V>(y: Tree<V>): Tree<V> {
    if y.Node? && y.left.Node? then
      var x := y.left;
      Join(x.left, x.key, x.value, Join(x.right, y.key, y.value, y.right))
    else y
  }

  /** `left_rotate`; the pointer code may only be called when the right child is not null. */
  function RotateLeft<V>(y: Tree<V>): Tree<V> {
    if y.Node? && y.right.Node? then
      var x := y.right;
      Join(Join(y.left, y.key, y.value, x.left), x.key, x.value, x.right)
    else y
  }

  /** The four rotation cases that end `insert`. */
  function InsertFix<V>(t: Tree<V>, k: int): Tree<V>
    requires t.Node?
  {
    var b := Balance(t);
    if b > 1 && t.left.Node? && k < t.left.key then RotateRight(t)
    else if b < -1 && t.right.Node? && k > t.right.key then RotateLeft(t)
    else if b > 1 && t.left.Node? && k > t.left.key then RotateRight(t.(left := RotateLeft(t.left)))
    else if b < -1 && t.right.Node? && k < t.right.key then RotateLeft(t.(right := RotateRight(t.right)))
    else t
  }

  function Insert<V>(t: Tree<V>, k: int, v: V): Tree<V> {
    match t
    case Leaf => Node(Leaf, k, v, 1, Leaf)
    case Node(l, key, value, h, r) =>
      if k < key then InsertFix(Join(Insert(l, k, v), key, value, r), k)
      else if k > key then InsertFix(Join(l, key, value, Insert(r, k, v)), k)
      else Node(l, key, v, h, r)
  }

  /** The rotation cases that end `erase`. */
  function EraseFix<V>(t: Tree<V>): Tree<V>
    requires t.Node?
  {
    var b := Balance(t);
    if b > 1 && Balance(t.left) >= 0 then RotateRight(t)
    else if b > 1 && Balance(t.left) < 0 then RotateRight(t.(left := RotateLeft(t.left)))
    else if b < -1 && Balance(t.right) < 0 then RotateLeft(t)
    else if b < -1 && Balance(t.right) >= 0 then RotateLeft(t.(right := RotateRight(t.right)))
    else t
  }

  /** `get_min`. */
  function Min<V>(t: Tree<V>): Tree<V>
    requires t.Node?
    ensures Min(t).Node?
  {
    if t.left.Leaf? then t else Min(t.left)
  }

  function Erase<V>(t: Tree<V>, k: int): Tree<V> {
    match t
    case Leaf => Leaf
    case Node(l, key, value, h, r) =>
      if k < key then EraseFix(Join(Erase(l, k), key, value, r))
      else if k > key then EraseFix(Join(l, key, value, Erase(r, k)))
      else if l.Leaf? && r.Leaf? then Leaf
      else if l.Leaf? || r.Leaf? then
        var c := if l.Node? then l else r;
        EraseFix(Join(c.left, c.key, c.value, c.right))
      else
        var s := Min(r);
        EraseFix(Join(l, s.key, s.value, Erase(r, s.key)))
  }

  /** `inorder_traversal`. */
  function Inorder<V>(t: Tree<V>): seq<(int, V)> {
    if t.Leaf? then [] else Inorder(t.left) + [(t.key, t.value)] + Inorder(t.right)
  }

  // ----- what a tree means

  function Keys<V>(t: Tree<V>): set<int> {
    if t.Leaf? then {} else Keys(t.left) + {t.key} + Keys(t.right)
  }

  /** `get`: what `find` points to. */
  function Get<V>(t: Tree<V>, k: int): Option<V> {
    if t.Leaf? then None
    else if k == t.key then Some(t.value)
    else if k < t.key then Get(t.left, k)
    else Get(t.right, k)
  }

  ghost predicate Ordered<V>(t: Tree<V>) {
    t.Leaf? ||
    (&& Ordered(t.left) && Ordered(t.right)
     && (forall x :: x in Keys(t.left) ==> x < t.key)
     && (forall x :: x in Keys(t.right) ==> t.key < x))
  }

  /** The two trees are the same map. */
  ghost predicate SameMap<V(!new)>(t: Tree<V>, u: Tree<V>) {
    Keys(t) == Keys(u) && forall k :: Get(t, k) == Get(u, k)
  }

  /** The stored heights are the real ones. */
  ghost predicate Exact<V>(t: Tree<V>) {
    t.Leaf? ||
    (Exact(t.left) && Exact(t.right) && t.height == 1 + Max(Height(t.left), Height(t.right)))
  }

  ghost predicate Balanced<V>(t: Tree<V>) {
    t.Leaf? || (Balanced(t.left) && Balanced(t.right) && -1 <= Balance(t) <= 1)
  }

  ghost predicate Avl<V>(t: Tree<V>) {
    Ordered(t) && Exact(t) && Balanced(t)
  }

  lemma {:induction false} HeightNatural<V>(t: Tree<V>)
    requires Exact(t)
    ensures Height(t) >= 0 && (Height(t) == 0 <==> t.Leaf?)
  {
    if t.Node? {
      HeightNatural(t.left);
      HeightNatural(t.right);
    }
  }

  // ----- rotations

  lemma RotateRightKeeps<V(!new)>(y: Tree<V>)
    requires Ordered(y)
    ensures Ordered(RotateRight(y)) && SameMap(RotateRight(y), y)
  {
    if y.Node? && y.left.Node? {
      var x := y.left;
      assert x.key in Keys(x);
      assert Ordered(Join(x.right, y.key, y.value, y.right));
    }
  }

  lemma RotateLeftKeeps<V(!new)>(y: Tree<V>)
    requires Ordered(y)
    ensures Ordered(RotateLeft(y)) && SameMap(RotateLeft(y), y)
  {
    if y.Node? && y.right.Node? {
      var x := y.right;
      assert x.key in Keys(x);
      assert Ordered(Join(y.left, y.key, y.value, x.left));
    }
  }

  /** A rotation recomputes the two heights it disturbs. */
  lemma RotateRightExact<V>(y: Tree<V>)
    requires y.Node? && y.left.Node? && Exact(y.left) && Exact(y.right)
    ensures Exact(RotateRight(y)) && RotateRight(y).Node?
  {
  }

  lemma RotateLeftExact<V>(y: Tree<V>)
    requires y.Node? && y.right.Node? && Exact(y.left) && Exact(y.right)
    ensures Exact(RotateLeft(y)) && RotateLeft(y).Node?
  {
  }

  /** Replacing a child by one with the same keys and values. */
  lemma SameChildren<V(!new)>(t: Tree<V>, l: Tree<V>, r: Tree<V>)
    requires t.Node? && Ordered(t)
    requires Ordered(l) && Ordered(r) && SameMap(l, t.left) && SameMap(r, t.right)
    ensures Ordered(t.(left := l, right := r)) && SameMap(t.(left := l, right := r), t)
  {
  }

  lemma SameMapRules<V(!new)>(t: Tree<V>)
    ensures SameMap(t, t)
    ensures forall u, w :: SameMap(u, w) && SameMap(w, t) ==> SameMap(u, t)
  {
  }

  lemma InsertFixKeeps<V(!new)>(t: Tree<V>, k: int)
    requires t.Node? && Ordered(t)
    ensures Ordered(InsertFix(t, k)) && SameMap(InsertFix(t, k), t)
  {
    hide Ordered, SameMap;
    SameMapRules(t);
    RotateRightKeeps(t);
    RotateLeftKeeps(t);
    ChildrenOrdered(t);
    RotateLeftKeeps(t.left);
    RotateRightKeeps(t.right);
    SameChildren(t, RotateLeft(t.left), t.right);
    SameChildren(t, t.left, RotateRight(t.right));
    RotateRightKeeps(t.(left := RotateLeft(t.left)));
    RotateLeftKeeps(t.(right := RotateRight(t.right)));
  }

  lemma ChildrenOrdered<V>(t: Tree<V>)
    requires t.Node? && Ordered(t)
    ensures Ordered(t.left) && Ordered(t.right)
  {
  }

  lemma EraseFixKeeps<V(!new)>(t: Tree<V>)
    requires t.Node? && Ordered(t)
    ensures Ordered(EraseFix(t)) && SameMap(EraseFix(t), t)
  {
    hide Ordered, SameMap;
    SameMapRules(t);
    RotateRightKeeps(t);
    RotateLeftKeeps(t);
    ChildrenOrdered(t);
    RotateLeftKeeps(t.left);
    RotateRightKeeps(t.right);
    SameChildren(t, RotateLeft(t.left), t.right);
    SameChildren(t, t.left, RotateRight(t.right));
    RotateRightKeeps(t.(left := RotateLeft(t.left)));
    RotateLeftKeeps(t.(right := RotateRight(t.right)));
  }

  // ----- insert and erase as map operations, on any strictly ordered tree

  ghost predicate IsUpdate<V(!new)>(t: Tree<V>, k: int, v: V, u: Tree<V>) {
    && Keys(u) == Keys(t) + {k}
    && forall x :: Get(u, x) == if x == k then Some(v) else Get(t, x)
  }

  /** `insert`, wherever it meets no null pivot, is a map update. */
  lemma {:induction false} InsertIsUpdate<V(!new)>(t: Tree<V>, k: int, v: V)
    requires Ordered(t) && InsertSafe(t, k, v)
    ensures Ordered(Insert(t, k, v)) && IsUpdate(t, k, v, Insert(t, k, v))
  {
    if t.Node? {
      if k < t.key {
        InsertIsUpdate(t.left, k, v);
        var j := Join(Insert(t.left, k, v), t.key, t.value, t.right);
        assert Ordered(j) && IsUpdate(t, k, v, j);
        InsertFixKeeps(j, k);
      } else if k > t.key {
        InsertIsUpdate(t.right, k, v);
        var j := Join(t.left, t.key, t.value, Insert(t.right, k, v));
        assert Ordered(j) && IsUpdate(t, k, v, j);
        InsertFixKeeps(j, k);
      }
    }
  }

  ghost predicate IsRemoval<V(!new)>(t: Tree<V>, k: int, u: Tree<V>) {
    && Keys(u) == Keys(t) - {k}
    && forall x :: Get(u, x) == if x == k then None else Get(t, x)
  }

  lemma {:induction false} GetFindsKeys<V>(t: Tree<V>, k: int)
    requires Ordered(t)
    ensures Get(t, k).Some? <==> k in Keys(t)
  {
    if t.Node? {
      GetFindsKeys(t.left, k);
      GetFindsKeys(t.right, k);
    }
  }

  lemma {:induction false} MinIsLeast<V>(t: Tree<V>)
    requires t.Node? && Ordered(t)
    ensures Min(t).key in Keys(t) && Get(t, Min(t).key) == Some(Min(t).value)
    ensures forall x :: x in Keys(t) ==> Min(t).key <= x
  {
    if t.left.Node? {
      MinIsLeast(t.left);
      assert Min(t).key in Keys(t.left);
    }
  }

  /** Joining the two sides of an erased root under the least key of the right side. */
  lemma SpliceIsRemoval<V(!new)>(t: Tree<V>, r: Tree<V>)
    requires Ordered(t) && t.Node? && t.right.Node?
    requires Ordered(r) && IsRemoval(t.right, Min(t.right).key, r)
    ensures var s := Min(t.right);
            var j := Join(t.left, s.key, s.value, r);
            Ordered(j) && IsRemoval(t, t.key, j)
  {
    var s := Min(t.right);
    MinIsLeast(t.right);
    var j := Join(t.left, s.key, s.value, r);
    assert t.key < s.key;
    forall x
      ensures Get(j, x) == if x == t.key then None else Get(t, x)
    {
      GetFindsKeys(t.left, x);
      GetFindsKeys(t.right, x);
    }
  }

  /** `erase` removes exactly its key from any strictly ordered tree with exact heights, balanced or not. */
  lemma {:induction false} EraseIsRemoval<V(!new)>(t: Tree<V>, k: int)
    requires Ordered(t) && Exact(t)
    ensures Ordered(Erase(t, k)) && IsRemoval(t, k, Erase(t, k))
  {
    if t.Node? {
      GetFindsKeys(t.left, k);
      GetFindsKeys(t.right, k);
      if k < t.key {
        EraseIsRemoval(t.left, k);
        var j := Join(Erase(t.left, k), t.key, t.value, t.right);
        assert Ordered(j) && IsRemoval(t, k, j);
        EraseFixKeeps(j);
      } else if k > t.key {
        EraseIsRemoval(t.right, k);
        var j := Join(t.left, t.key, t.value, Erase(t.right, k));
        assert Ordered(j) && IsRemoval(t, k, j);
        EraseFixKeeps(j);
      } else if t.left.Leaf? || t.right.Leaf? {
        EraseNearLeaf(t);
      } else {
        var s := Min(t.right);
        EraseIsRemoval(t.right, s.key);
        SpliceIsRemoval(t, Erase(t.right, s.key));
        EraseFixKeeps(Join(t.left, s.key, s.value, Erase(t.right, s.key)));
      }
    }
  }

  lemma EraseNearLeaf<V(!new)>(t: Tree<V>)
    requires Ordered(t) && t.Node? && (t.left.Leaf? || t.right.Leaf?)
    ensures Ordered(Erase(t, t.key)) && IsRemoval(t, t.key, Erase(t, t.key))
  {
    if t.left.Node? || t.right.Node? {
      var c := if t.left.Node? then t.left else t.right;
      var j := Join(c.left, c.key, c.value, c.right);
      forall x
        ensures Get(j, x) == if x == t.key then None else Get(t, x)
      {
        GetFindsKeys(c, x);
      }
      assert Ordered(j) && IsRemoval(t, t.key, j);
      EraseFixKeeps(j);
    }
  }

  // ----- heights

  /** A step of `insert` after which the tree at hand holds the new key on the side that is two
      levels higher: no rotation meets a null pivot. */
  lemma InsertFixExact<V>(t: Tree<V>, k: int)
    requires t.Node? && Exact(t)
    requires Balance(t) > 1 && t.left.Node? && k > t.left.key ==> t.left.right.Node?
    requires Balance(t) < -1 && t.right.Node? && k < t.right.key ==> t.right.left.Node?
    ensures Exact(InsertFix(t, k)) && InsertFix(t, k).Node?
  {
    hide Exact;
    var b := Balance(t);
    assert Exact(t.left) && Exact(t.right) by { ExactParts(t); }
    if b > 1 && t.left.Node? {
      if k > t.left.key {
        ExactParts(t.left);
        RotateLeftExact(t.left);
        RotateRightExact(t.(left := RotateLeft(t.left)));
      } else {
        RotateRightExact(t);
      }
    } else if b < -1 && t.right.Node? {
      if k < t.right.key {
        ExactParts(t.right);
        RotateRightExact(t.right);
        RotateLeftExact(t.(right := RotateRight(t.right)));
      } else {
        RotateLeftExact(t);
      }
    }
  }

  lemma ExactParts<V>(t: Tree<V>)
    requires t.Node? && Exact(t)
    ensures Exact(t.left) && Exact(t.right)
  {
  }

  lemma EraseFixExact<V>(t: Tree<V>)
    requires t.Node? && Exact(t)
    ensures Exact(EraseFix(t)) && EraseFix(t).Node?
  {
    EraseRotatesSafely(t);
    ExactParts(t);
    hide Exact;
    if Balance(t) > 1 {
      if Balance(t.left) < 0 {
        ExactParts(t.left);
        RotateLeftExact(t.left);
        RotateRightExact(t.(left := RotateLeft(t.left)));
      } else {
        RotateRightExact(t);
      }
    } else if Balance(t) < -1 {
      if Balance(t.right) >= 0 {
        ExactParts(t.right);
        RotateRightExact(t.right);
        RotateLeftExact(t.(right := RotateRight(t.right)));
      } else {
        RotateLeftExact(t);
      }
    }
  }

  /** `erase` keeps the stored heights exact on any tree whose heights are exact. */
  lemma {:induction false} EraseExact<V>(t: Tree<V>, k: int)
    requires Exact(t)
    ensures Exact(Erase(t, k))
  {
    if t.Node? {
      if k < t.key {
        EraseExact(t.left, k);
        EraseFixExact(Join(Erase(t.left, k), t.key, t.value, t.right));
      } else if k > t.key {
        EraseExact(t.right, k);
        EraseFixExact(Join(t.left, t.key, t.value, Erase(t.right, k)));
      } else if t.left.Node? && t.right.Node? {
        var s := Min(t.right);
        EraseExact(t.right, s.key);
        EraseFixExact(Join(t.left, s.key, s.value, Erase(t.right, s.key)));
      } else if t.left.Node? || t.right.Node? {
        var c := if t.left.Node? then t.left else t.right;
        EraseFixExact(Join(c.left, c.key, c.value, c.right));
      }
    }
  }

  lemma JoinExact<V>(l: Tree<V>, k: int, v: V, r: Tree<V>)
    requires Exact(l) && Exact(r)
    ensures Exact(Join(l, k, v, r))
  {
  }

  /** With exact heights, `erase` never rotates through a null child. */
  lemma EraseRotatesSafely<V>(t: Tree<V>)
    requires t.Node? && Exact(t)
    ensures Balance(t) > 1 ==> t.left.Node?
    ensures Balance(t) > 1 && Balance(t.left) < 0 ==> t.left.right.Node?
    ensures Balance(t) < -1 ==> t.right.Node?
    ensures Balance(t) < -1 && Balance(t.right) >= 0 ==> t.right.left.Node?
  {
    HeightNatural(t.left);
    HeightNatural(t.right);
    if t.left.Node? {
      HeightNatural(t.left.left);
      HeightNatural(t.left.right);
    }
    if t.right.Node? {
      HeightNatural(t.right.left);
      HeightNatural(t.right.right);
    }
  }

  // ----- what the rotations do to balance

  lemma JoinBalances<V>(l: Tree<V>, k: int, v: V, r: Tree<V>)
    requires Exact(l) && Exact(r) && Balanced(l) && Balanced(r)
    requires -1 <= Height(l) - Height(r) <= 1
    ensures Exact(Join(l, k, v, r)) && Balanced(Join(l, k, v, r))
  {
  }

  /** A left side two levels higher whose root does not lean right. */
  lemma RightRotationBalances<V>(t: Tree<V>)
    requires t.Node? && Exact(t) && Balanced(t.left) && Balanced(t.right)
    requires Balance(t) == 2 && 0 <= Balance(t.left)
    ensures t.left.Node? && Balanced(RotateRight(t)) && Exact(RotateRight(t))
    ensures Height(RotateRight(t)) == Height(t) - Balance(t.left)
  {
    HeightNatural(t.right);
    HeightNatural(t.left);
    var x := t.left;
    JoinBalances(x.right, t.key, t.value, t.right);
    JoinBalances(x.left, x.key, x.value, Join(x.right, t.key, t.value, t.right));
  }

  lemma LeftRotationBalances<V>(t: Tree<V>)
    requires t.Node? && Exact(t) && Balanced(t.left) && Balanced(t.right)
    requires Balance(t) == -2 && Balance(t.right) <= 0
    ensures t.right.Node? && Balanced(RotateLeft(t)) && Exact(RotateLeft(t))
    ensures Height(RotateLeft(t)) == Height(t) + Balance(t.right)
  {
    HeightNatural(t.right);
    HeightNatural(t.left);
    var x := t.right;
    JoinBalances(t.left, t.key, t.value, x.left);
    JoinBalances(Join(t.left, t.key, t.value, x.left), x.key, x.value, x.right);
  }

  /** A left side two levels higher whose root leans right: the double rotation. */
  lemma DoubleRightBalances<V>(t: Tree<V>)
    requires t.Node? && Exact(t) && Balanced(t.left) && Balanced(t.right)
    requires Balance(t) == 2 && Balance(t.left) == -1
    ensures t.left.Node? && t.left.right.Node?
    ensures var u := RotateRight(t.(left := RotateLeft(t.left)));
            Balanced(u) && Exact(u) && Height(u) == Height(t) - 1
  {
    HeightNatural(t.right);
    HeightNatural(t.left);
    HeightNatural(t.left.left);
    HeightNatural(t.left.right);
    var x, z := t.left, t.left.right;
    JoinBalances(x.left, x.key, x.value, z.left);
    JoinBalances(z.right, t.key, t.value, t.right);
    JoinBalances(Join(x.left, x.key, x.value, z.left), z.key, z.value, Join(z.right, t.key, t.value, t.right));
  }

  lemma DoubleLeftBalances<V>(t: Tree<V>)
    requires t.Node? && Exact(t) && Balanced(t.left) && Balanced(t.right)
    requires Balance(t) == -2 && Balance(t.right) == 1
    ensures t.right.Node? && t.right.left.Node?
    ensures var u := RotateLeft(t.(right := RotateRight(t.right)));
            Balanced(u) && Exact(u) && Height(u) == Height(t) - 1
  {
    HeightNatural(t.right);
    HeightNatural(t.left);
    HeightNatural(t.right.left);
    HeightNatural(t.right.right);
    var x, z := t.right, t.right.left;
    JoinBalances(z.right, x.key, x.value, x.right);
    JoinBalances(t.left, t.key, t.value, z.left);
    JoinBalances(Join(t.left, t.key, t.value, z.left), z.key, z.value, Join(z.right, x.key, x.value, x.right));
  }

  // ----- insert keeps the balance

  /** What an insertion of `k` may do to a balanced tree: at most one level more, and then the
      side of the new key is the higher one. */
  ghost predicate Grown<V>(t: Tree<V>, k: int, u: Tree<V>) {
    && Exact(u) && Balanced(u) && u.Node? && Height(t) <= Height(u) <= Height(t) + 1
    && (t.Leaf? ==> Height(u) == 1)
    && (t.Node? && Height(u) > Height(t) ==>
          u.key == t.key && k != t.key && Balance(u) == if k < t.key then 1 else -1)
  }

  /** The left subtree has become `l` by an insertion of `k`. */
  lemma GrownLeft<V>(t: Tree<V>, k: int, l: Tree<V>)
    requires t.Node? && Exact(t) && Balanced(t) && k < t.key
    requires Grown(t.left, k, l)
    ensures Grown(t, k, InsertFix(Join(l, t.key, t.value, t.right), k))
  {
    var j := Join(l, t.key, t.value, t.right);
    HeightNatural(t.left);
    HeightNatural(t.right);
    assert Exact(j) && Balanced(j.left) && Balanced(j.right);
    if Balance(j) > 1 {
      assert t.left.Node? && l.key == t.left.key && Balance(l) == if k < l.key then 1 else -1;
      hide Balanced, Exact;
      if k < l.key {
        RightRotationBalances(j);
      } else {
        DoubleRightBalances(j);
      }
    }
  }

  lemma GrownRight<V>(t: Tree<V>, k: int, r: Tree<V>)
    requires t.Node? && Exact(t) && Balanced(t) && k > t.key
    requires Grown(t.right, k, r)
    ensures Grown(t, k, InsertFix(Join(t.left, t.key, t.value, r), k))
  {
    var j := Join(t.left, t.key, t.value, r);
    HeightNatural(t.left);
    HeightNatural(t.right);
    assert Exact(j) && Balanced(j.left) && Balanced(j.right);
    if Balance(j) < -1 {
      assert t.right.Node? && r.key == t.right.key && Balance(r) == if k < r.key then 1 else -1;
      hide Balanced, Exact;
      if k > r.key {
        LeftRotationBalances(j);
      } else {
        DoubleLeftBalances(j);
      }
    }
  }

  /** The nodes `insert` rotates through are there. */
  ghost predicate Pivots<V>(j: Tree<V>, k: int) {
    && j.Node?
    && (Balance(j) > 1 ==> j.left.Node? && (k > j.left.key ==> j.left.right.Node?))
    && (Balance(j) < -1 ==> j.right.Node? && (k < j.right.key ==> j.right.left.Node?))
  }

  /** `insert` into a balanced tree never rotates through a null child. */
  lemma InsertPivots<V>(t: Tree<V>, k: int, v: V)
    requires t.Node? && Exact(t) && Balanced(t)
    ensures k < t.key ==> Pivots(Join(Insert(t.left, k, v), t.key, t.value, t.right), k)
    ensures k > t.key ==> Pivots(Join(t.left, t.key, t.value, Insert(t.right, k, v)), k)
  {
    InsertGrown(t.left, k, v);
    InsertGrown(t.right, k, v);
    HeightNatural(t.left);
    HeightNatural(t.right);
    var l, r := Insert(t.left, k, v), Insert(t.right, k, v);
    HeightNatural(l.left);
    HeightNatural(l.right);
    HeightNatural(r.left);
    HeightNatural(r.right);
    hide Insert;
  }

  /** No rotation on the way back from the insertion of `k` meets a null pivot. */
  ghost predicate InsertSafe<V>(t: Tree<V>, k: int, v: V) {
    t.Leaf? || k == t.key
    || (k < t.key && InsertSafe(t.left, k, v) && Pivots(Join(Insert(t.left, k, v), t.key, t.value, t.right), k))
    || (k > t.key && InsertSafe(t.right, k, v) && Pivots(Join(t.left, t.key, t.value, Insert(t.right, k, v)), k))
  }

  lemma {:induction false} BalancedIsSafe<V>(t: Tree<V>, k: int, v: V)
    requires Exact(t) && Balanced(t)
    ensures InsertSafe(t, k, v)
  {
    if t.Node? {
      InsertPivots(t, k, v);
      hide Pivots, Insert;
      if k < t.key {
        BalancedIsSafe(t.left, k, v);
      } else if k > t.key {
        BalancedIsSafe(t.right, k, v);
      }
    }
  }

  /** Wherever `insert` is safe it keeps the stored heights exact, balanced or not. */
  lemma {:induction false} InsertExact<V>(t: Tree<V>, k: int, v: V)
    requires Exact(t) && InsertSafe(t, k, v)
    ensures Exact(Insert(t, k, v))
  {
    if t.Node? {
      if k < t.key {
        InsertExact(t.left, k, v);
        JoinExact(Insert(t.left, k, v), t.key, t.value, t.right);
        InsertFixExact(Join(Insert(t.left, k, v), t.key, t.value, t.right), k);
      } else if k > t.key {
        InsertExact(t.right, k, v);
        JoinExact(t.left, t.key, t.value, Insert(t.right, k, v));
        InsertFixExact(Join(t.left, t.key, t.value, Insert(t.right, k, v)), k);
      }
    }
  }

  lemma {:induction false} InsertGrown<V>(t: Tree<V>, k: int, v: V)
    requires Exact(t) && Balanced(t)
    ensures Grown(t, k, Insert(t, k, v))
  {
    if t.Node? {
      HeightNatural(t);
      if k < t.key {
        InsertGrown(t.left, k, v);
        GrownLeft(t, k, Insert(t.left, k, v));
      } else if k > t.key {
        InsertGrown(t.right, k, v);
        GrownRight(t, k, Insert(t.right, k, v));
      }
    }
  }

  /** `put` on an AVL tree gives an AVL tree that is the old map updated at the key, at most one
      level higher. */
  lemma InsertKeepsAvl<V(!new)>(t: Tree<V>, k: int, v: V)
    requires Avl(t)
    ensures Avl(Insert(t, k, v)) && IsUpdate(t, k, v, Insert(t, k, v))
    ensures Height(t) <= Height(Insert(t, k, v)) <= Height(t) + 1
  {
    BalancedIsSafe(t, k, v);
    InsertIsUpdate(t, k, v);
    InsertGrown(t, k, v);
  }

  // ----- erase from a balanced tree

  /** How many nodes lean by more than one level. */
  function Off<V>(t: Tree<V>): nat {
    if t.Leaf? then 0
    else Off(t.left) + Off(t.right) + if -1 <= Balance(t) <= 1 then 0 else 1
  }

  /** Every node that leans too far leans right by two. */
  ghost predicate LeansRightByTwo<V>(t: Tree<V>) {
    t.Leaf? || (LeansRightByTwo(t.left) && LeansRightByTwo(t.right) && -2 <= Balance(t) <= 1)
  }

  lemma {:induction false} OffZero<V>(t: Tree<V>)
    ensures Off(t) == 0 <==> Balanced(t)
    ensures Balanced(t) ==> LeansRightByTwo(t)
  {
    if t.Node? {
      OffZero(t.left);
      OffZero(t.right);
    }
  }

  /** Whether erasing a key of a balanced tree lowers it, read off the balances on the way down. */
  function Shrinks<V>(t: Tree<V>, k: int): bool {
    if t.Leaf? then false
    else if k < t.key then
      Shrinks(t.left, k) && (Balance(t) == 1 || (Balance(t) == -1 && Balance(t.right) != 0))
    else if k == t.key && (t.left.Leaf? || t.right.Leaf?) then true
    else
      Shrinks(t.right, if k == t.key then Min(t.right).key else k)
      && (Balance(t) == -1 || (Balance(t) == 1 && Balance(t.left) != 0))
  }

  /** Whether the erasure meets line 383 with a right child of balance 0 whose left child leans
      left: the double rotation that does not restore balance. */
  function Flawed<V>(t: Tree<V>, k: int): bool {
    if t.Leaf? then false
    else if k < t.key then
      Flawed(t.left, k)
      || (&& Shrinks(t.left, k) && Balance(t) == -1
          && t.right.Node? && Balance(t.right) == 0 && Balance(t.right.left) == 1)
    else if k == t.key && (t.left.Leaf? || t.right.Leaf?) then false
    else Flawed(t.right, if k == t.key then Min(t.right).key else k)
  }

  ghost predicate Outcome<V>(t: Tree<V>, shrinks: bool, flawed: bool, u: Tree<V>) {
    && Exact(u)
    && Height(u) == Height(t) - (if shrinks then 1 else 0)
    && (if flawed then !shrinks && Off(u) == 1 && LeansRightByTwo(u) else Balanced(u))
  }

  /** The double rotation of line 383 on a right child of balance 0: the height stays, and the node
      that was the right child leans right by two exactly if its left child leant left. */
  lemma FlawedRotation<V>(t: Tree<V>)
    requires t.Node? && Exact(t) && Balanced(t.left) && Balanced(t.right)
    requires Balance(t) == -2 && Balance(t.right) == 0
    ensures t.right.Node? && t.right.left.Node?
    ensures Outcome(t, false, Balance(t.right.left) == 1, RotateLeft(t.(right := RotateRight(t.right))))
  {
    HeightNatural(t.right);
    HeightNatural(t.left);
    HeightNatural(t.right.left);
    HeightNatural(t.right.right);
    var x, z := t.right, t.right.left;
    JoinBalances(t.left, t.key, t.value, z.left);
    if Balance(z) != 1 {
      JoinBalances(z.right, x.key, x.value, x.right);
      JoinBalances(Join(t.left, t.key, t.value, z.left), z.key, z.value, Join(z.right, x.key, x.value, x.right));
    } else {
      OffZero(Join(t.left, t.key, t.value, z.left));
      OffZero(z.right);
      OffZero(x.right);
    }
  }

  /** One step of `erase` after its left subtree has become `l`. */
  lemma LeftErased<V>(t: Tree<V>, k: int, l: Tree<V>)
    requires t.Node? && Exact(t) && Balanced(t) && k < t.key
    requires Outcome(t.left, Shrinks(t.left, k), Flawed(t.left, k), l)
    ensures Outcome(t, Shrinks(t, k), Flawed(t, k), EraseFix(Join(l, t.key, t.value, t.right)))
  {
    var j := Join(l, t.key, t.value, t.right);
    OffZero(t.right);
    OffZero(l);
    assert Exact(j) && Balanced(j.right);
    if Balance(j) == -2 {
      assert Balanced(l) && Height(j) == Height(t);
      HeightNatural(t.left);
      HeightNatural(t.right);
      hide Balanced, Exact, Off, LeansRightByTwo;
      if Balance(j.right) < 0 {
        LeftRotationBalances(j);
      } else if Balance(j.right) == 1 {
        DoubleLeftBalances(j);
      } else {
        FlawedRotation(j);
      }
    }
  }

  /** ... and after its right subtree has become `r`, under whichever key the root then has. */
  lemma RightErased<V>(t: Tree<V>, k: int, v: V, r: Tree<V>, shrinks: bool, flawed: bool)
    requires t.Node? && Exact(t) && Balanced(t)
    requires Outcome(t.right, shrinks, flawed, r)
    ensures Outcome(t, shrinks && (Balance(t) == -1 || (Balance(t) == 1 && Balance(t.left) != 0)), flawed,
                    EraseFix(Join(t.left, k, v, r)))
  {
    var j := Join(t.left, k, v, r);
    OffZero(t.left);
    OffZero(r);
    assert Exact(j) && Balanced(j.left);
    if Balance(j) == 2 {
      assert Balanced(r) && Height(j) == Height(t) + 1 - 1;
      HeightNatural(t.left);
      HeightNatural(t.right);
      hide Balanced, Exact, Off, LeansRightByTwo;
      if Balance(j.left) >= 0 {
        RightRotationBalances(j);
      } else {
        DoubleRightBalances(j);
      }
    }
  }

  lemma {:induction false} EraseOutcome<V>(t: Tree<V>, k: int)
    requires Exact(t) && Balanced(t)
    ensures Outcome(t, Shrinks(t, k), Flawed(t, k), Erase(t, k))
  {
    if t.Node? {
      if k < t.key {
        EraseOutcome(t.left, k);
        LeftErased(t, k, Erase(t.left, k));
      } else if k > t.key {
        EraseOutcome(t.right, k);
        RightErased(t, t.key, t.value, Erase(t.right, k), Shrinks(t.right, k), Flawed(t.right, k));
      } else if t.left.Node? && t.right.Node? {
        var s := Min(t.right);
        EraseOutcome(t.right, s.key);
        RightErased(t, s.key, s.value, Erase(t.right, s.key), Shrinks(t.right, s.key), Flawed(t.right, s.key));
      } else {
        HeightNatural(t.left);
        HeightNatural(t.right);
        if t.left.Node? {
          HeightNatural(t.left.left);
          HeightNatural(t.left.right);
        }
        if t.right.Node? {
          HeightNatural(t.right.left);
          HeightNatural(t.right.right);
        }
      }
    }
  }

  /** `remove` from an AVL tree: exactly that key goes, order and exact heights stay, the height
      stays or falls by one -- and the result is an AVL tree if and only if the erasure is not
      flawed.  A flawed one leaves exactly one node out of balance, leaning right by two. */
  lemma EraseFromAvl<V(!new)>(t: Tree<V>, k: int)
    requires Avl(t)
    ensures Ordered(Erase(t, k)) && Exact(Erase(t, k)) && IsRemoval(t, k, Erase(t, k))
    ensures Height(Erase(t, k)) == Height(t) - if Shrinks(t, k) then 1 else 0
    ensures Avl(Erase(t, k)) <==> !Flawed(t, k)
    ensures Flawed(t, k) ==> Off(Erase(t, k)) == 1 && LeansRightByTwo(Erase(t, k))
  {
    EraseIsRemoval(t, k);
    EraseOutcome(t, k);
    OffZero(Erase(t, k));
  }

  lemma JoinAvl<V>(l: Tree<V>, k: int, v: V, r: Tree<V>)
    requires Avl(l) && Avl(r) && -1 <= Height(l) - Height(r) <= 1
    requires (forall x :: x in Keys(l) ==> x < k) && (forall x :: x in Keys(r) ==> k < x)
    ensures Avl(Join(l, k, v, r)) && Keys(Join(l, k, v, r)) == Keys(l) + {k} + Keys(r)
  {
    JoinBalances(l, k, v, r);
  }

  function One<V>(k: int, v: V): Tree<V> {
    Join(Leaf, k, v, Leaf)
  }

  lemma OneAvl<V>(k: int, v: V)
    ensures Avl(One(k, v)) && Keys(One(k, v)) == {k} && Height(One(k, v)) == 1
  {
    var l: Tree<V> := Leaf;
    JoinAvl(l, k, v, l);
  }

  /** An AVL tree from which `remove(1)` leaves a node out of balance. */
  lemma EraseCanUnbalance<V(!new)>(v: V)
    ensures var a, b, left := Join(One(4, v), 5, v, Leaf), Join(Leaf, 7, v, One(8, v)), Join(One(1, v), 2, v, Leaf);
            var t := Join(left, 3, v, Join(a, 6, v, b));
            Avl(t) && Flawed(t, 1) && !Balanced(Erase(t, 1))
  {
    OneAvl(1, v);
    OneAvl(4, v);
    OneAvl(8, v);
    var a, b, left := Join(One(4, v), 5, v, Leaf), Join(Leaf, 7, v, One(8, v)), Join(One(1, v), 2, v, Leaf);
    var nil: Tree<V> := Leaf;
    assert Avl(nil) && Keys(nil) == {};
    JoinAvl(One(4, v), 5, v, nil);
    JoinAvl(nil, 7, v, One(8, v));
    JoinAvl(One(1, v), 2, v, nil);
    JoinAvl(a, 6, v, b);
    var right := Join(a, 6, v, b);
    var t := Join(left, 3, v, right);
    JoinAvl(left, 3, v, right);
    assert Shrinks(left, 1) && Balance(t) == -1 && Balance(right) == 0 && Balance(a) == 1;
    EraseFromAvl(t, 1);
  }

  // ----- listing and size

  ghost predicate Ascending<V>(s: seq<(int, V)>) {
    forall i, j :: 0 <= i < j < |s| ==> s[i].0 < s[j].0
  }

  /** `inorder_traversal` lists exactly the bindings of the map ... */
  lemma {:induction false} InorderLists<V>(t: Tree<V>, k: int, v: V)
    requires Ordered(t)
    ensures (k, v) in Inorder(t) <==> Get(t, k) == Some(v)
  {
    if t.Node? {
      InorderLists(t.left, k, v);
      InorderLists(t.right, k, v);
      GetFindsKeys(t.left, k);
      GetFindsKeys(t.right, k);
    }
  }

  lemma ListedKey<V>(t: Tree<V>, p: (int, V))
    requires Ordered(t) && p in Inorder(t)
    ensures p.0 in Keys(t)
  {
    InorderLists(t, p.0, p.1);
    GetFindsKeys(t, p.0);
  }

  /** ... in strictly ascending key order, so each exactly once. */
  lemma {:induction false} InorderAscends<V>(t: Tree<V>)
    requires Ordered(t)
    ensures Ascending(Inorder(t))
  {
    if t.Node? {
      InorderAscends(t.left);
      InorderAscends(t.right);
      var l, r := Inorder(t.left), Inorder(t.right);
      forall p | p in l
        ensures p.0 < t.key
      {
        ListedKey(t.left, p);
      }
      forall p | p in r
        ensures t.key < p.0
      {
        ListedKey(t.right, p);
      }
      AscendingAround(l, (t.key, t.value), r);
    }
  }

  lemma AscendingAround<V>(l: seq<(int, V)>, x: (int, V), r: seq<(int, V)>)
    requires Ascending(l) && Ascending(r)
    requires (forall p :: p in l ==> p.0 < x.0) && (forall p :: p in r ==> x.0 < p.0)
    ensures Ascending(l + [x] + r)
  {
    var s := l + [x] + r;
    forall i, j | 0 <= i < j < |s|
      ensures s[i].0 < s[j].0
    {
      assert i < |l| ==> s[i] in l;
      assert j < |l| ==> s[j] in l;
      assert i > |l| ==> s[i] in r && s[i] == r[i - |l| - 1];
      assert j > |l| ==> s[j] in r && s[j] == r[j - |l| - 1];
    }
  }

  function Fib(n: nat): nat {
    if n < 2 then n else Fib(n - 1) + Fib(n - 2)
  }

  lemma {:induction false} FibMonotone(m: nat, n: nat)
    requires m <= n
    ensures Fib(m) <= Fib(n)
    decreases n
  {
    if m < n {
      FibMonotone(m, n - 1);
    }
  }

  lemma AroundCount(a: set<int>, k: int, b: set<int>)
    requires (forall x :: x in a ==> x < k) && (forall x :: x in b ==> k < x)
    ensures |a + {k} + b| == |a| + 1 + |b|
  {
    assert a * {k} == {} && |a + {k}| == |a| + 1;
    forall x | x in a + {k}
      ensures x !in b
    {
      assert x <= k;
    }
    assert (a + {k}) * b == {};
  }

  lemma KeysCount<V>(t: Tree<V>)
    requires Ordered(t) && t.Node?
    ensures |Keys(t)| == |Keys(t.left)| + 1 + |Keys(t.right)|
  {
    AroundCount(Keys(t.left), t.key, Keys(t.right));
  }

  /** An AVL tree of height h holds at least Fib(h + 2) - 1 keys. */
  lemma {:induction false} AvlIsBig<V>(t: Tree<V>)
    requires Avl(t)
    ensures Height(t) >= 0
    ensures |Keys(t)| >= Fib(Height(t) + 2) - 1
  {
    HeightNatural(t);
    if t.Leaf? {
      assert Fib(2) == 1;
    } else {
      assert t.height == 1 + Max(Height(t.left), Height(t.right)) && -1 <= Balance(t) <= 1;
      assert Avl(t.left) && Avl(t.right);
      KeysCount(t);
      hide Fib, Keys, Ordered, Exact, Balanced, Avl;
      AvlIsBig(t.left);
      AvlIsBig(t.right);
      FibStep(Height(t), Height(t.left), Height(t.right));
    }
  }

  lemma Fib31()
    ensures Fib(31) == 1346269
  {
    assert Fib(12) == 144 && Fib(13) == 233;
    assert Fib(22) == 17711 && Fib(23) == 28657;
  }

  /** So a tree of a million keys is at most 28 levels high. */
  lemma MillionKeys<V>(t: Tree<V>)
    requires Avl(t) && |Keys(t)| <= 1_000_000
    ensures Height(t) <= 28
  {
    hide *;
    AvlIsBig(t);
    Fib31();
    if Height(t) > 28 {
      FibMonotone(31, Height(t) + 2);
    }
  }

  lemma FibStep(h: nat, a: nat, b: nat)
    requires h == 1 + Max(a, b) && -1 <= a - b <= 1
    ensures Fib(a + 2) + Fib(b + 2) >= Fib(h + 2)
  {
    FibMonotone(h, if a == h - 1 then b + 2 else a + 2);
  }

  // ----- runs

  function PutAll<V>(t: Tree<V>, puts: seq<(int, V)>): Tree<V>
    decreases |puts|
  {
    if puts == [] then t else PutAll(Insert(t, puts[0].0, puts[0].1), puts[1..])
  }

  /** Every run of `put`s gives an AVL tree, hence one of logarithmic height. */
  lemma {:induction false} PutsBuildAvl<V(!new)>(t: Tree<V>, puts: seq<(int, V)>)
    requires Avl(t)
    ensures Avl(PutAll(t, puts)) && Height(PutAll(t, puts)) >= 0
    ensures |Keys(PutAll(t, puts))| >= Fib(Height(PutAll(t, puts)) + 2) - 1
    decreases |puts|
  {
    hide Avl, Fib, Insert, Keys;
    if puts == [] {
      AvlIsBig(t);
    } else {
      InsertKeepsAvl(t, puts[0].0, puts[0].1);
      PutsBuildAvl(Insert(t, puts[0].0, puts[0].1), puts[1..]);
    }
  }
}
