/** bst_map::map (map_demo.h): a binary search tree with parent links and a successor iterator.

    Every node knows, as ghost state, its place `pos` in the in-order sequence of the map and the
    interval `[lo, hi)` of places its subtree covers.  All facts about the links are then local. */
module BstMap {

  /** A place and the interval of the subtree around it. */
  datatype Span = Span(lo: int, pos: int, hi: int)

  class BstNode {
    var key: int
    var value: int
    var left: BstNode?
    var right: BstNode?
    var parent: BstNode?
    ghost var span: Span

    constructor (k: int, v: int, p: BstNode?)
      ensures key == k && value == v && left == null && right == null && parent == p
    {
      key, value, left, right, parent := k, v, null, null, p;
    }
  }

  /** A node's fields. */
  datatype Info = Info(key: int, value: int, left: BstNode?, right: BstNode?, parent: BstNode?,
                       lo: int, pos: int, hi: int)

  type Snapshot = map<BstNode, Info>

  /** The subtree of `n` covers `[lo, hi)`, its left part up to `pos`, its right part from there on;
      links down and up agree. */
  ghost predicate Linked(S: Snapshot, root: BstNode?, n: BstNode)
    requires n in S
  {
    var x := S[n];
    && 0 <= x.lo <= x.pos < x.hi <= |S|
    && (x.left == null <==> x.lo == x.pos)
    && (x.left != null ==>
          x.left in S && S[x.left].parent == n && S[x.left].lo == x.lo && S[x.left].hi == x.pos)
    && (x.right == null <==> x.pos + 1 == x.hi)
    && (x.right != null ==>
          x.right in S && S[x.right].parent == n && S[x.right].lo == x.pos + 1 && S[x.right].hi == x.hi)
    && (x.parent == null <==> n == root)
    && (x.parent != null ==> x.parent in S && (S[x.parent].left == n || S[x.parent].right == n))
  }

  /** A tree whose nodes are, from left to right, `nodes`. */
  ghost predicate Shape(S: Snapshot, root: BstNode?, nodes: seq<BstNode>) {
    && |S| == |nodes|
    && (forall n :: n in S ==> 0 <= S[n].pos < |nodes| && nodes[S[n].pos] == n)
    && (forall i :: 0 <= i < |nodes| ==> nodes[i] in S && S[nodes[i]].pos == i)
    && (forall n {:trigger Linked(S, root, n)} :: n in S ==> Linked(S, root, n))
    && (root == null <==> nodes == [])
    && (root != null ==> root in S && S[root].lo == 0 && S[root].hi == |nodes|)
  }

  ghost predicate Ascending(s: seq<(int, int)>) {
    forall i, j :: 0 <= i < j < |s| ==> s[i].0 < s[j].0
  }

  /** A search tree. */
  ghost predicate SearchTree(S: Snapshot, root: BstNode?, nodes: seq<BstNode>) {
    Shape(S, root, nodes) && Ascending(BindingsOf(S, nodes))
  }

  /** The map: its bindings in key order. */
  ghost function BindingsOf(S: Snapshot, nodes: seq<BstNode>): (s: seq<(int, int)>)
    requires forall i :: 0 <= i < |nodes| ==> nodes[i] in S
    ensures |s| == |nodes|
    ensures forall i :: 0 <= i < |s| ==> s[i] == (S[nodes[i]].key, S[nodes[i]].value)
  {
    seq(|nodes|, i requires 0 <= i < |nodes| => (S[nodes[i]].key, S[nodes[i]].value))
  }

  ghost function InfoOf(n: BstNode): Info
    reads n
  {
    Info(n.key, n.value, n.left, n.right, n.parent, n.span.lo, n.span.pos, n.span.hi)
  }

  ghost function StateOf(nodes: seq<BstNode>): Snapshot
    reads nodes
  {
    map n | n in nodes :: InfoOf(n)
  }

  lemma SameState(S: Snapshot, nodes: seq<BstNode>)
    requires forall n :: n in S <==> n in nodes
    requires forall n :: n in nodes ==> S[n] == InfoOf(n)
    ensures StateOf(nodes) == S
  {
  }

  lemma SameMembers(nodes: seq<BstNode>, q: int, leaf: BstNode)
    requires 0 <= q <= |nodes|
    ensures forall n :: n in InsertAt(nodes, q, leaf) <==> n in nodes || n == leaf
  {
  }

  // ----- the map as a finite map

  ghost function Contents(s: seq<(int, int)>): (m: map<int, int>)
    requires Ascending(s)
    ensures forall k :: k in m ==> (k, m[k]) in s
    ensures forall b :: b in s ==> b.0 in m && m[b.0] == b.1
  {
    map b <- s :: b.0 := b.1
  }

  /** A new key `k` belongs in front of place `q`. */
  ghost predicate KeysFit(s: seq<(int, int)>, k: int, q: int) {
    forall i :: 0 <= i < |s| ==> if i < q then s[i].0 < k else k < s[i].0
  }

  lemma InsertAscends(s: seq<(int, int)>, q: int, k: int, v: int)
    requires Ascending(s) && 0 <= q <= |s| && KeysFit(s, k, q)
    ensures Ascending(InsertAt(s, q, (k, v)))
  {
    var r := InsertAt(s, q, (k, v));
    hide InsertAt;
    forall i, j | 0 <= i < j < |r|
      ensures r[i].0 < r[j].0
    {
      assert i < q ==> r[i] == s[i];
      assert q < j ==> r[j] == s[j - 1];
      assert q < i ==> r[i] == s[i - 1];
    }
  }

  lemma RemovalAscends(s: seq<(int, int)>, q: int)
    requires Ascending(s) && 0 <= q < |s|
    ensures Ascending(RemoveAt(s, q))
  {
    var r := RemoveAt(s, q);
    hide RemoveAt;
    forall i, j | 0 <= i < j < |r|
      ensures r[i].0 < r[j].0
    {
      assert r[i] == s[if i < q then i else i + 1];
      assert r[j] == s[if j < q then j else j + 1];
    }
  }

  lemma RemovalMembers(s: seq<(int, int)>, q: int, b: (int, int))
    requires Ascending(s) && 0 <= q < |s|
    ensures b in RemoveAt(s, q) <==> b in s && b.0 != s[q].0
  {
    var r := RemoveAt(s, q);
    hide RemoveAt;
    if b in r {
      var i :| 0 <= i < |r| && r[i] == b;
      assert r[i] == s[if i < q then i else i + 1];
    }
    if b in s && b.0 != s[q].0 {
      var i :| 0 <= i < |s| && s[i] == b;
      assert r[if i < q then i else i - 1] == b;
    }
  }

  lemma Updated(s: seq<(int, int)>, r: seq<(int, int)>, k: int, v: int)
    requires Ascending(s) && Ascending(r)
    requires forall b :: b in s && b.0 != k ==> b in r
    requires forall b :: b in r ==> (b in s && b.0 != k) || b == (k, v)
    requires (k, v) in r
    ensures Contents(r) == Contents(s)[k := v]
  {
    hide Ascending, Contents;
    var x, y := Contents(s), Contents(r);
    assert y[k] == v;
    forall j | j in y && j != k
      ensures j in x && x[j] == y[j]
    {
      assert (j, y[j]) in s;
    }
    forall j | j in x && j != k
      ensures j in y
    {
      assert (j, x[j]) in r;
    }
  }

  lemma Removed(s: seq<(int, int)>, r: seq<(int, int)>, k: int)
    requires Ascending(s) && Ascending(r)
    requires forall b :: b in s && b.0 != k ==> b in r
    requires forall b :: b in r ==> b in s && b.0 != k
    ensures Contents(r) == Contents(s) - {k}
  {
    hide Ascending, Contents;
    var x, y := Contents(s), Contents(r);
    forall j | j in y
      ensures j != k && j in x && x[j] == y[j]
    {
      assert (j, y[j]) in s;
    }
    forall j | j in x && j != k
      ensures j in y
    {
      assert (j, x[j]) in r;
    }
  }

  lemma InsertUpdates(s: seq<(int, int)>, q: int, k: int, v: int)
    requires Ascending(s) && 0 <= q <= |s| && KeysFit(s, k, q)
    ensures Ascending(InsertAt(s, q, (k, v)))
    ensures Contents(InsertAt(s, q, (k, v))) == Contents(s)[k := v]
  {
    var r := InsertAt(s, q, (k, v));
    InsertAscends(s, q, k, v);
    assert forall b :: b in r <==> b in s || b == (k, v);
    assert forall b :: b in s ==> b.0 != k;
    hide *;
    Updated(s, r, k, v);
  }

  lemma OverwriteUpdates(s: seq<(int, int)>, q: int, k: int, v: int)
    requires Ascending(s) && 0 <= q < |s| && s[q].0 == k
    ensures Ascending(s[q := (k, v)])
    ensures Contents(s[q := (k, v)]) == Contents(s)[k := v]
  {
    var r := s[q := (k, v)];
    assert Ascending(r);
    assert r[q] == (k, v);
    forall b | b in s && b.0 != k
      ensures b in r
    {
      var i :| 0 <= i < |s| && s[i] == b;
      assert r[i] == b;
    }
    hide Contents;
    assert forall b :: b in r ==> (b in s && b.0 != k) || b == (k, v);
    Updated(s, r, k, v);
  }

  lemma RemovalStays<T>(s: seq<T>, q: int)
    requires 0 <= q < |s|
    ensures forall x :: x in RemoveAt(s, q) ==> x in s
  {
  }

  /** Moving the binding behind `q` forward and removing its old place removes place `q`. */
  lemma Overtakes(s: seq<(int, int)>, q: int)
    requires 0 <= q < |s| - 1
    ensures RemoveAt(s[q := s[q + 1]], q + 1) == RemoveAt(s, q)
  {
  }

  lemma RemovalRemoves(s: seq<(int, int)>, q: int)
    requires Ascending(s) && 0 <= q < |s|
    ensures Ascending(RemoveAt(s, q))
    ensures Contents(RemoveAt(s, q)) == Contents(s) - {s[q].0}
  {
    hide *;
    RemovalAscends(s, q);
    forall b
      ensures b in RemoveAt(s, q) <==> b in s && b.0 != s[q].0
    {
      RemovalMembers(s, q, b);
    }
    Removed(s, RemoveAt(s, q), s[q].0);
  }

  function RemoveAt<T>(s: seq<T>, q: int): (r: seq<T>)
    requires 0 <= q < |s|
    ensures |r| == |s| - 1
    ensures forall i {:trigger r[i]} :: 0 <= i < q ==> r[i] == s[i]
    ensures forall i {:trigger r[i]} :: q <= i < |r| ==> r[i] == s[i + 1]
  {
    s[..q] + s[q + 1..]
  }

  // ----- hanging a new leaf under a node

  function Shift(x: int, t: int): int {
    if x >= t then x + 1 else x
  }

  /** `leaf` becomes the left or right child of `p`.  In the in-order sequence it takes place `q`,
      in front of or behind `p`; the intervals of its ancestors grow by one. */
  ghost function Hung(S: Snapshot, p: BstNode, leaf: BstNode, k: int, v: int, asLeft: bool): Snapshot
    requires p in S
  {
    var t := S[p].pos + 1;
    var q := if asLeft then t - 1 else t;
    (map n | n in S :: Info(S[n].key, S[n].value,
                            if n == p && asLeft then leaf else S[n].left,
                            if n == p && !asLeft then leaf else S[n].right,
                            S[n].parent, Shift(S[n].lo, t), Shift(S[n].pos, q), Shift(S[n].hi, t)))
    [leaf := Info(k, v, null, null, p, q, q, q + 1)]
  }

  lemma HungSize(S: Snapshot, p: BstNode, leaf: BstNode, k: int, v: int, asLeft: bool)
    requires p in S && leaf !in S
    ensures |Hung(S, p, leaf, k, v, asLeft)| == |S| + 1
  {
    assert Hung(S, p, leaf, k, v, asLeft).Keys == S.Keys + {leaf};
  }

  lemma HungAt(S: Snapshot, p: BstNode, leaf: BstNode, k: int, v: int, asLeft: bool, n: BstNode)
    requires p in S && leaf !in S && n in S
    ensures n in Hung(S, p, leaf, k, v, asLeft)
    ensures var x, t := Hung(S, p, leaf, k, v, asLeft)[n], S[p].pos + 1;
            && x.key == S[n].key && x.value == S[n].value && x.parent == S[n].parent
            && x.left == (if n == p && asLeft then leaf else S[n].left)
            && x.right == (if n == p && !asLeft then leaf else S[n].right)
            && x.lo == Shift(S[n].lo, t) && x.hi == Shift(S[n].hi, t)
            && x.pos == Shift(S[n].pos, if asLeft then t - 1 else t)
  {
  }

  lemma HungLeaf(S: Snapshot, p: BstNode, leaf: BstNode, k: int, v: int, asLeft: bool)
    requires p in S && leaf !in S
    ensures var H, q := Hung(S, p, leaf, k, v, asLeft), if asLeft then S[p].pos else S[p].pos + 1;
            leaf in H && H[leaf] == Info(k, v, null, null, p, q, q, q + 1)
    ensures Hung(S, p, leaf, k, v, asLeft).Keys == S.Keys + {leaf}
  {
  }

  lemma HungLinks(S: Snapshot, root: BstNode?, p: BstNode, leaf: BstNode, k: int, v: int, asLeft: bool, n: BstNode)
    requires p in S && leaf !in S && n in S
    requires Linked(S, root, n) && (S[n].pos == S[p].pos ==> n == p)
    requires if asLeft then S[p].left == null else S[p].right == null
    ensures n in Hung(S, p, leaf, k, v, asLeft) && Linked(Hung(S, p, leaf, k, v, asLeft), root, n)
  {
    HungSize(S, p, leaf, k, v, asLeft);
    HungLeaf(S, p, leaf, k, v, asLeft);
    HungAt(S, p, leaf, k, v, asLeft, n);
    if S[n].left != null {
      HungAt(S, p, leaf, k, v, asLeft, S[n].left);
    }
    if S[n].right != null {
      HungAt(S, p, leaf, k, v, asLeft, S[n].right);
    }
    if S[n].parent != null {
      HungAt(S, p, leaf, k, v, asLeft, S[n].parent);
    }
    hide Hung;
  }

  function InsertAt<T>(s: seq<T>, q: int, x: T): (r: seq<T>)
    requires 0 <= q <= |s|
    ensures |r| == |s| + 1 && r[q] == x
    ensures forall i {:trigger r[i]} :: 0 <= i < q ==> r[i] == s[i]
    ensures forall i {:trigger r[i]} :: q < i <= |s| ==> r[i] == s[i - 1]
  {
    s[..q] + [x] + s[q..]
  }

  lemma HungPlace(S: Snapshot, nodes: seq<BstNode>, p: BstNode, leaf: BstNode,
                  k: int, v: int, asLeft: bool, q: int, i: int)
    requires p in S && leaf !in S && 0 <= q <= |nodes| && 0 <= i <= |nodes|
    requires q == if asLeft then S[p].pos else S[p].pos + 1
    requires i < q ==> nodes[i] in S && S[nodes[i]].pos == i
    requires i > q ==> nodes[i - 1] in S && S[nodes[i - 1]].pos == i - 1
    ensures var H, n := Hung(S, p, leaf, k, v, asLeft), (InsertAt(nodes, q, leaf))[i];
            && n in H && H[n].pos == i
            && (H[n].key, H[n].value) ==
               if i < q then (S[nodes[i]].key, S[nodes[i]].value) else if i == q then (k, v)
               else (S[nodes[i - 1]].key, S[nodes[i - 1]].value)
  {
    HungLeaf(S, p, leaf, k, v, asLeft);
    if i < q {
      HungAt(S, p, leaf, k, v, asLeft, nodes[i]);
    } else if i > q {
      HungAt(S, p, leaf, k, v, asLeft, nodes[i - 1]);
    }
    hide Hung;
  }

  lemma HungNode(S: Snapshot, root: BstNode?, nodes: seq<BstNode>, p: BstNode, leaf: BstNode,
                 k: int, v: int, asLeft: bool, q: int, n: BstNode)
    requires Shape(S, root, nodes) && p in S && leaf !in S && n in S
    requires q == if asLeft then S[p].pos else S[p].pos + 1
    requires if asLeft then S[p].left == null else S[p].right == null
    ensures var H, nodes' := Hung(S, p, leaf, k, v, asLeft), InsertAt(nodes, q, leaf);
            n in H && Linked(H, root, n) && 0 <= H[n].pos < |nodes'| && nodes'[H[n].pos] == n
  {
    assert Linked(S, root, n) && 0 <= S[p].pos < |nodes| && nodes[S[n].pos] == n;
    assert S[n].pos == S[p].pos ==> n == p;
    hide Shape, Linked;
    HungLinks(S, root, p, leaf, k, v, asLeft, n);
    HungAt(S, p, leaf, k, v, asLeft, n);
    hide Hung;
  }

  lemma HungShape(S: Snapshot, root: BstNode?, nodes: seq<BstNode>, p: BstNode, leaf: BstNode,
                  k: int, v: int, asLeft: bool, q: int)
    requires Shape(S, root, nodes) && p in S && leaf !in S && 0 <= q <= |nodes|
    requires q == if asLeft then S[p].pos else S[p].pos + 1
    requires if asLeft then S[p].left == null else S[p].right == null
    ensures Shape(Hung(S, p, leaf, k, v, asLeft), root, InsertAt(nodes, q, leaf))
    ensures BindingsOf(Hung(S, p, leaf, k, v, asLeft), InsertAt(nodes, q, leaf))
         == InsertAt(BindingsOf(S, nodes), q, (k, v))
  {
    hide Hung, Linked, InsertAt, BindingsOf;
    HungSize(S, p, leaf, k, v, asLeft);
    HungBindings(S, root, nodes, p, leaf, k, v, asLeft, q);
    HungRoot(S, root, nodes, p, leaf, k, v, asLeft, q);
    HungAll(S, root, nodes, p, leaf, k, v, asLeft, q);
  }

  lemma HungAll(S: Snapshot, root: BstNode?, nodes: seq<BstNode>, p: BstNode, leaf: BstNode,
                k: int, v: int, asLeft: bool, q: int)
    requires Shape(S, root, nodes) && p in S && leaf !in S && 0 <= q <= |nodes|
    requires q == if asLeft then S[p].pos else S[p].pos + 1
    requires if asLeft then S[p].left == null else S[p].right == null
    ensures var H, nodes' := Hung(S, p, leaf, k, v, asLeft), InsertAt(nodes, q, leaf);
            forall n :: n in H ==> Linked(H, root, n) && 0 <= H[n].pos < |nodes'| && nodes'[H[n].pos] == n
  {
    HungLeaf(S, p, leaf, k, v, asLeft);
    HungRoot(S, root, nodes, p, leaf, k, v, asLeft, q);
    var H, nodes' := Hung(S, p, leaf, k, v, asLeft), InsertAt(nodes, q, leaf);
    hide Hung, Shape, Linked, InsertAt;
    forall n | n in H
      ensures Linked(H, root, n) && 0 <= H[n].pos < |nodes'| && nodes'[H[n].pos] == n
    {
      if n != leaf {
        HungNode(S, root, nodes, p, leaf, k, v, asLeft, q, n);
      }
    }
  }

  lemma HungBindings(S: Snapshot, root: BstNode?, nodes: seq<BstNode>, p: BstNode, leaf: BstNode,
                     k: int, v: int, asLeft: bool, q: int)
    requires Shape(S, root, nodes) && p in S && leaf !in S && 0 <= q <= |nodes|
    requires q == if asLeft then S[p].pos else S[p].pos + 1
    ensures var H, nodes' := Hung(S, p, leaf, k, v, asLeft), InsertAt(nodes, q, leaf);
            && (forall i :: 0 <= i < |nodes'| ==> nodes'[i] in H && H[nodes'[i]].pos == i)
            && BindingsOf(H, nodes') == InsertAt(BindingsOf(S, nodes), q, (k, v))
  {
    var H, nodes' := Hung(S, p, leaf, k, v, asLeft), InsertAt(nodes, q, leaf);
    hide Hung, Linked, InsertAt, BindingsOf;
    forall i | 0 <= i < |nodes'|
      ensures nodes'[i] in H && H[nodes'[i]].pos == i
      ensures (H[nodes'[i]].key, H[nodes'[i]].value) == InsertAt(BindingsOf(S, nodes), q, (k, v))[i]
    {
      HungPlace(S, nodes, p, leaf, k, v, asLeft, q, i);
    }
  }

  lemma HungRoot(S: Snapshot, root: BstNode?, nodes: seq<BstNode>, p: BstNode, leaf: BstNode,
                 k: int, v: int, asLeft: bool, q: int)
    requires Shape(S, root, nodes) && p in S && leaf !in S && 0 <= q <= |nodes|
    requires q == if asLeft then S[p].pos else S[p].pos + 1
    requires if asLeft then S[p].left == null else S[p].right == null
    ensures var H, nodes' := Hung(S, p, leaf, k, v, asLeft), InsertAt(nodes, q, leaf);
            && 0 <= q <= |nodes| && leaf in H && H[leaf].pos == q && Linked(H, root, leaf)
            && root != null && root in H && H[root].lo == 0 && H[root].hi == |nodes'|
  {
    HungSize(S, p, leaf, k, v, asLeft);
    HungLeaf(S, p, leaf, k, v, asLeft);
    HungAt(S, p, leaf, k, v, asLeft, p);
    HungAt(S, p, leaf, k, v, asLeft, root);
    assert Linked(S, root, p) && Linked(S, root, root);
    hide Hung;
  }

  // ----- overwriting a binding

  lemma Revalued(S: Snapshot, root: BstNode?, nodes: seq<BstNode>, n: BstNode, k: int, v: int)
    requires Shape(S, root, nodes) && n in S && 0 <= S[n].pos < |nodes|
    ensures var S' := S[n := S[n].(key := k, value := v)];
            Shape(S', root, nodes) && BindingsOf(S', nodes) == BindingsOf(S, nodes)[S[n].pos := (k, v)]
  {
    var S' := S[n := S[n].(key := k, value := v)];
    assert S'.Keys == S.Keys;
    forall x | x in S
      ensures Linked(S', root, x)
    {
      assert Linked(S, root, x);
    }
    hide Linked;
  }

  // ----- taking out a node with at most one child

  function Drop(x: int, q: int): int {
    if x > q then x - 1 else x
  }

  ghost function ChildOf(S: Snapshot, m: BstNode): BstNode?
    requires m in S
  {
    if S[m].left != null then S[m].left else S[m].right
  }

  /** A node's fields once `m`, at place `q`, has given its place under `g` to its child `c`. */
  ghost function Spliced(x: Info, n: BstNode, m: BstNode, c: BstNode?, g: BstNode?, q: int): Info {
    Info(x.key, x.value, if n == g && x.left == m then c else x.left,
         if n == g && x.left != m then c else x.right, if n == c then g else x.parent,
         Drop(x.lo, q), Drop(x.pos, q), Drop(x.hi, q))
  }

  ghost function Cut(S: Snapshot, m: BstNode): Snapshot
    requires m in S
  {
    map n | n in S && n != m :: Spliced(S[n], n, m, ChildOf(S, m), S[m].parent, S[m].pos)
  }

  ghost function CutRoot(S: Snapshot, root: BstNode?, m: BstNode): BstNode?
    requires m in S
  {
    if S[m].parent == null then ChildOf(S, m) else root
  }

  lemma CutSize(S: Snapshot, m: BstNode)
    requires m in S
    ensures |Cut(S, m)| == |S| - 1
    ensures Cut(S, m).Keys == S.Keys - {m}
  {
    assert Cut(S, m).Keys == S.Keys - {m};
  }

  lemma CutAt(S: Snapshot, m: BstNode, n: BstNode)
    requires m in S && n in S && n != m
    ensures n in Cut(S, m)
    ensures Cut(S, m)[n] == Spliced(S[n], n, m, ChildOf(S, m), S[m].parent, S[m].pos)
  {
  }

  /** A child that covers a single place is the node of that place. */
  lemma OnlyChild(S: Snapshot, root: BstNode?, nodes: seq<BstNode>, m: BstNode, n: BstNode)
    requires Shape(S, root, nodes) && m in S && n in S
    requires S[n].lo == S[m].pos && S[n].hi == S[m].pos + 1
    ensures n == m
  {
    assert Linked(S, root, n);
  }

  lemma CutSpan(S: Snapshot, root: BstNode?, nodes: seq<BstNode>, m: BstNode, n: BstNode)
    requires Shape(S, root, nodes) && m in S && n in S && n != m
    requires S[m].left == null || S[m].right == null
    ensures var C, x := Cut(S, m), Cut(S, m)[n];
            && 0 <= x.lo <= x.pos < x.hi <= |C|
            && (x.left == null <==> x.lo == x.pos)
            && (x.right == null <==> x.pos + 1 == x.hi)
  {
    CutSize(S, m);
    CutAt(S, m, n);
    assert Linked(S, root, n) && Linked(S, root, m) && S[n].pos != S[m].pos;
    if S[n].left != null && S[n].left != m && S[n].lo == S[m].pos && S[n].pos == S[m].pos + 1 {
      OnlyChild(S, root, nodes, m, S[n].left);
    }
    if S[n].right != null && S[n].right != m && S[n].pos + 1 == S[m].pos && S[n].hi == S[m].pos + 1 {
      OnlyChild(S, root, nodes, m, S[n].right);
    }
    hide Cut, Shape;
  }

  lemma CutChildren(S: Snapshot, root: BstNode?, nodes: seq<BstNode>, m: BstNode, n: BstNode)
    requires Shape(S, root, nodes) && m in S && n in S && n != m
    requires S[m].left == null || S[m].right == null
    ensures var C, x := Cut(S, m), Cut(S, m)[n];
            && (x.left != null ==>
                  x.left in C && C[x.left].parent == n && C[x.left].lo == x.lo && C[x.left].hi == x.pos)
            && (x.right != null ==>
                  x.right in C && C[x.right].parent == n && C[x.right].lo == x.pos + 1 && C[x.right].hi == x.hi)
  {
    CutAt(S, m, n);
    var C, x := Cut(S, m), Cut(S, m)[n];
    assert Linked(S, root, n) && Linked(S, root, m) && S[n].pos != S[m].pos;
    hide Cut, Shape;
    if x.left != null {
      CutAt(S, m, x.left);
    }
    if x.right != null {
      CutAt(S, m, x.right);
    }
  }

  lemma CutParent(S: Snapshot, root: BstNode?, nodes: seq<BstNode>, m: BstNode, n: BstNode)
    requires Shape(S, root, nodes) && m in S && n in S && n != m
    requires S[m].left == null || S[m].right == null
    ensures var C, x := Cut(S, m), Cut(S, m)[n];
            && (x.parent == null <==> n == CutRoot(S, root, m))
            && (x.parent != null ==> x.parent in C && (C[x.parent].left == n || C[x.parent].right == n))
  {
    CutAt(S, m, n);
    var C, x := Cut(S, m), Cut(S, m)[n];
    assert Linked(S, root, n) && Linked(S, root, m);
    hide Cut, Shape;
    if x.parent != null {
      CutAt(S, m, x.parent);
    }
  }

  lemma CutPlace(S: Snapshot, root: BstNode?, nodes: seq<BstNode>, m: BstNode, i: int)
    requires Shape(S, root, nodes) && m in S && 0 <= i < |nodes| - 1
    ensures var C, q := Cut(S, m), S[m].pos;
            && 0 <= q < |nodes|
            && var n := RemoveAt(nodes, q)[i];
            && n in C && C[n].pos == i
            && (C[n].key, C[n].value) == RemoveAt(BindingsOf(S, nodes), q)[i]
  {
    var q := S[m].pos;
    var n := RemoveAt(nodes, q)[i];
    assert n == if i < q then nodes[i] else nodes[i + 1];
    CutAt(S, m, n);
    hide Cut, RemoveAt, Linked;
  }

  lemma CutLinks(S: Snapshot, root: BstNode?, nodes: seq<BstNode>, m: BstNode, n: BstNode)
    requires Shape(S, root, nodes) && m in S && n in Cut(S, m)
    requires S[m].left == null || S[m].right == null
    ensures Linked(Cut(S, m), CutRoot(S, root, m), n)
  {
    hide Shape, CutRoot;
    CutSpan(S, root, nodes, m, n);
    CutChildren(S, root, nodes, m, n);
    CutParent(S, root, nodes, m, n);
    hide Cut;
  }

  lemma CutPos(S: Snapshot, root: BstNode?, nodes: seq<BstNode>, m: BstNode, n: BstNode)
    requires Shape(S, root, nodes) && m in S && n in Cut(S, m)
    ensures var C, q := Cut(S, m), S[m].pos;
            && 0 <= q < |nodes| && 0 <= C[n].pos < |nodes| - 1
            && RemoveAt(nodes, q)[C[n].pos] == n
  {
    assert S[n].pos != S[m].pos && nodes[S[n].pos] == n;
    hide Shape, RemoveAt;
  }

  lemma CutRootSpan(S: Snapshot, root: BstNode?, nodes: seq<BstNode>, m: BstNode)
    requires Shape(S, root, nodes) && m in S
    requires S[m].left == null || S[m].right == null
    ensures var C, r := Cut(S, m), CutRoot(S, root, m);
            && (r == null <==> |nodes| == 1)
            && (r != null ==> r in C && C[r].lo == 0 && C[r].hi == |nodes| - 1)
  {
    assert Linked(S, root, m) && Linked(S, root, root);
    var r := CutRoot(S, root, m);
    if r != null {
      CutAt(S, m, r);
    }
    hide Cut;
  }

  lemma CutBindings(S: Snapshot, root: BstNode?, nodes: seq<BstNode>, m: BstNode, q: int)
    requires Shape(S, root, nodes) && m in S && q == S[m].pos && 0 <= q < |nodes|
    ensures var C, nodes' := Cut(S, m), RemoveAt(nodes, q);
            && (forall i :: 0 <= i < |nodes'| ==> nodes'[i] in C && C[nodes'[i]].pos == i)
            && BindingsOf(C, nodes') == RemoveAt(BindingsOf(S, nodes), q)
  {
    var C, nodes' := Cut(S, m), RemoveAt(nodes, q);
    hide Cut, Linked, RemoveAt, BindingsOf;
    forall i | 0 <= i < |nodes'|
      ensures nodes'[i] in C && C[nodes'[i]].pos == i
      ensures (C[nodes'[i]].key, C[nodes'[i]].value) == RemoveAt(BindingsOf(S, nodes), q)[i]
    {
      CutPlace(S, root, nodes, m, i);
    }
  }

  /** Taking out a node with at most one child leaves a tree; only its own binding goes. */
  lemma CutShape(S: Snapshot, root: BstNode?, nodes: seq<BstNode>, m: BstNode, q: int)
    requires Shape(S, root, nodes) && m in S && q == S[m].pos && 0 <= q < |nodes|
    requires S[m].left == null || S[m].right == null
    ensures Shape(Cut(S, m), CutRoot(S, root, m), RemoveAt(nodes, q))
    ensures BindingsOf(Cut(S, m), RemoveAt(nodes, q)) == RemoveAt(BindingsOf(S, nodes), q)
  {
    hide Cut, CutRoot, RemoveAt, BindingsOf, Linked;
    CutSize(S, m);
    CutRootSpan(S, root, nodes, m);
    CutBindings(S, root, nodes, m, q);
    forall n | n in Cut(S, m)
      ensures Linked(Cut(S, m), CutRoot(S, root, m), n)
      ensures 0 <= Cut(S, m)[n].pos < |nodes| - 1 && RemoveAt(nodes, q)[Cut(S, m)[n].pos] == n
    {
      CutLinks(S, root, nodes, m, n);
      CutPos(S, root, nodes, m, n);
    }
  }

  class Map {
    var root: BstNode?
    ghost var nodes: seq<BstNode>   // in key order

    ghost predicate Mine(n: BstNode)
      reads this, n
    {
      0 <= n.span.pos < |nodes| && nodes[n.span.pos] == n
    }

    ghost function State(): Snapshot
      reads this, nodes
    {
      StateOf(nodes)
    }

    ghost predicate Valid()
      reads this, nodes
    {
      SearchTree(State(), root, nodes)
    }

    ghost function Bindings(): seq<(int, int)>
      reads this, nodes
    {
      BindingsOf(State(), nodes)
    }

    ghost function Model(): map<int, int>
      requires Valid()
      reads this, nodes
    {
      Contents(Bindings())
    }

    /** `Linked`, read off the heap. */
    ghost predicate Local(n: BstNode)
      requires n in nodes
      reads this, nodes
    {
      && Mine(n) && 0 <= n.span.lo <= n.span.pos < n.span.hi <= |nodes|
      && (n.left == null <==> n.span.lo == n.span.pos)
      && (n.left != null ==>
            n.left in nodes && n.left.parent == n && n.left.span.lo == n.span.lo && n.left.span.hi == n.span.pos)
      && (n.right == null <==> n.span.pos + 1 == n.span.hi)
      && (n.right != null ==>
            n.right in nodes && n.right.parent == n && n.right.span.lo == n.span.pos + 1 && n.right.span.hi == n.span.hi)
      && (n.parent == null <==> n == root)
      && (n.parent != null ==> n.parent in nodes && (n.parent.left == n || n.parent.right == n))
    }

    lemma PosOf(n: BstNode)
      requires Valid() && n in nodes
      ensures Local(n)
    {
      assert n in State() && Linked(State(), root, n);
    }

    /** The way down from a node. */
    lemma Down(n: BstNode)
      requires Valid() && n in nodes
      ensures 0 <= n.span.lo <= n.span.pos < n.span.hi <= |nodes| && nodes[n.span.pos] == n
      ensures n.left == null <==> n.span.lo == n.span.pos
      ensures n.right == null <==> n.span.pos + 1 == n.span.hi
      ensures n.left != null ==> n.left in nodes && n.left.span.lo == n.span.lo && n.left.span.hi == n.span.pos
      ensures n.right != null ==> n.right in nodes && n.right.span.lo == n.span.pos + 1 && n.right.span.hi == n.span.hi
    {
      PosOf(n);
    }

    /** The way up from a node. */
    lemma Up(n: BstNode)
      requires Valid() && n in nodes
      ensures n.parent == null <==> n == root
      ensures n.parent != null ==> n.parent in nodes && (n.parent.left == n || n.parent.right == n)
      ensures n.left != null ==> n.left.parent == n
      ensures n.right != null ==> n.right.parent == n
    {
      PosOf(n);
    }

    /** Where the whole tree starts and ends. */
    lemma Whole()
      requires Valid()
      ensures root == null <==> nodes == []
      ensures root != null ==> root in nodes && root.span.lo == 0 && root.span.hi == |nodes|
    {
      assert root != null ==> root in State();
    }

    lemma Place(i: int)
      requires Valid() && 0 <= i < |nodes|
      ensures nodes[i].span.pos == i
    {
      assert nodes[i] in State();
    }

    /** The keys on the two sides of a node. */
    lemma Around(n: BstNode)
      requires Valid() && n in nodes
      ensures Mine(n)
      ensures forall i :: 0 <= i < n.span.pos ==> nodes[i].key < n.key
      ensures forall i :: n.span.pos < i < |nodes| ==> n.key < nodes[i].key
    {
      PosOf(n);
      hide Local, Shape, State;
      forall i | 0 <= i < n.span.pos
        ensures nodes[i].key < n.key
      {
        KeysAscend(i, n.span.pos);
      }
      forall i | n.span.pos < i < |nodes|
        ensures n.key < nodes[i].key
      {
        KeysAscend(n.span.pos, i);
      }
    }

    lemma KeysAscend(i: int, j: int)
      requires Valid() && 0 <= i < j < |nodes|
      ensures nodes[i].key < nodes[j].key
    {
      assert nodes[i] in State() && nodes[j] in State();
    }

    constructor ()
      ensures Valid() && nodes == []
    {
      root, nodes := null, [];
    }

    /** `minium`: the first place of a subtree. */
    method Minimum(n: BstNode?) returns (m: BstNode?)
      requires Valid() && (n != null ==> n in nodes)
      ensures n == null ==> m == null
      ensures n != null ==> m != null && m in nodes && m.span.pos == n.span.lo && m.left == null
    {
      hide Shape, Ascending, State;
      m := n;
      if m == null {
        return;
      }
      while m.left != null
        invariant m != null && m in nodes && m.span.lo == n.span.lo
        decreases if m == null then 0 else m.span.hi - m.span.lo
      {
        PosOf(m);
        PosOf(m.left);
        m := m.left;
      }
      PosOf(m);
    }

    /** `successor`: the next place, or null at the end. */
    method Successor(n: BstNode) returns (r: BstNode?)
      requires Valid() && n in nodes
      ensures r == if n.span.pos + 1 < |nodes| then nodes[n.span.pos + 1] else null
      ensures n.right != null ==> r != null && r.left == null
    {
      hide *;
      Whole();
      Down(n);
      if n.right != null {
        r := Minimum(n.right);
        Down(r);
        return;
      }
      Up(n);
      var node := n;
      r := n.parent;
      while r != null && node == r.right
        invariant node in nodes && node.span.hi == n.span.pos + 1 && r == node.parent && (r != null ==> r in nodes)
        invariant r != null ==> r.left == node || r.right == node
        invariant r == null ==> node == root
        decreases |nodes| - (node.span.hi - node.span.lo)
      {
        Down(node);
        Down(r);
        node := r;
        r := r.parent;
        Up(node);
        Down(node);
      }
      if r != null {
        Down(r);
      }
    }

    lemma BindingAt(i: int)
      requires Valid() && 0 <= i < |nodes|
      ensures |Bindings()| == |nodes| && Bindings()[i] == (nodes[i].key, nodes[i].value) && nodes[i].span.pos == i
    {
      assert nodes[i] in State();
    }

    lemma ValidSaysShape()
      requires Valid()
      ensures Shape(State(), root, nodes) && Ascending(Bindings()) && Model() == Contents(Bindings())
    {
    }

    lemma ShapeIsValid()
      requires Shape(State(), root, nodes) && Ascending(Bindings())
      ensures Valid() && Model() == Contents(Bindings())
    {
    }

    lemma Listing()
      requires Valid()
      ensures |Bindings()| == |nodes| && Ascending(Bindings())
    {
    }

    /** A loop from begin() to end() visits every binding exactly once, in ascending key order. */
    method Iterate() returns (visited: seq<(int, int)>)
      requires Valid()
      ensures visited == Bindings() && Ascending(visited)
    {
      hide *;
      Listing();
      Whole();
      ghost var all := Bindings();
      visited := [];
      var it := Minimum(root);
      if it != null {
        First(it);
      }
      while it != null
        invariant |visited| <= |nodes| && visited == all[..|visited|]
        invariant it == if |visited| < |nodes| then nodes[|visited|] else null
        decreases |nodes| - |visited|
      {
        BindingAt(|visited|);
        visited := visited + [(it.key, it.value)];
        it := Successor(it);
      }
      assert all[..|visited|] == all;
    }

    lemma First(n: BstNode)
      requires Valid() && n in nodes && n.span.pos == 0
      ensures n == nodes[0]
    {
      PosOf(n);
    }

    lemma Reads(n: BstNode)
      requires Valid() && n in nodes
      ensures n.key in Model() && Model()[n.key] == n.value
    {
      assert n in State();
      assert Bindings()[n.span.pos] == (n.key, n.value);
    }

    lemma Has(k: int) returns (i: int)
      requires Valid() && k in Model()
      ensures 0 <= i < |nodes| && nodes[i].key == k
    {
      i :| 0 <= i < |Bindings()| && Bindings()[i] == (k, Model()[k]);
      assert nodes[i] in State();
    }

    /** `find`. */
    method Find(k: int) returns (r: BstNode?)
      requires Valid()
      ensures r != null ==> r in nodes && r.key == k && k in Model() && r.value == Model()[k]
      ensures r == null ==> k !in Model()
    {
      hide Shape, Ascending, State, Model;
      Whole();
      r := root;
      while r != null
        invariant r != null ==> r in nodes
        invariant forall i :: 0 <= i < |nodes| && nodes[i].key == k ==> r != null && r.span.lo <= i < r.span.hi
        decreases if r == null then 0 else r.span.hi - r.span.lo
      {
        PosOf(r);
        Around(r);
        if k < r.key {
          r := r.left;
        } else if k > r.key {
          r := r.right;
        } else {
          Reads(r);
          return;
        }
        if r != null {
          PosOf(r);
        }
      }
      if k in Model() {
        var _ := Has(k);
      }
    }

    // ----- insert

    /** A node's fields once a leaf hangs at place `q` under `p`. */
    static ghost function Beside(x: Info, n: BstNode, p: BstNode, leaf: BstNode, asLeft: bool, q: int): Info {
      var t := if asLeft then q + 1 else q;
      Info(x.key, x.value, if n == p && asLeft then leaf else x.left,
           if n == p && !asLeft then leaf else x.right, x.parent, Shift(x.lo, t), Shift(x.pos, q), Shift(x.hi, t))
    }

    /** The field updates of hanging a new leaf under `p`. */
    method Link(p: BstNode, k: int, v: int, asLeft: bool, ghost q: int) returns (leaf: BstNode)
      requires p in nodes
      modifies nodes
      ensures fresh(leaf) && InfoOf(leaf) == Info(k, v, null, null, p, q, q, q + 1)
      ensures forall n :: n in nodes ==> InfoOf(n) == Beside(old(InfoOf(n)), n, p, leaf, asLeft, q)
    {
      ghost var t := if asLeft then q + 1 else q;
      leaf := new BstNode(k, v, p);
      if asLeft {
        p.left := leaf;
      } else {
        p.right := leaf;
      }
      leaf.span := Span(q, q, q + 1);
      forall n | n in nodes {
        n.span := Span(Shift(n.span.lo, t), Shift(n.span.pos, q), Shift(n.span.hi, t));
      }
      hide Shift;
    }

    method Hang(p: BstNode, k: int, v: int, asLeft: bool, ghost q: int) returns (leaf: BstNode)
      requires p in nodes && q == (if asLeft then p.span.pos else p.span.pos + 1) && 0 <= q <= |nodes|
      modifies this`nodes, nodes
      ensures fresh(leaf) && nodes == InsertAt(old(nodes), q, leaf)
      ensures State() == Hung(old(State()), p, leaf, k, v, asLeft)
    {
      ghost var S := State();
      leaf := Link(p, k, v, asLeft, q);
      ghost var H := Hung(S, p, leaf, k, v, asLeft);
      HungLeaf(S, p, leaf, k, v, asLeft);
      hide Shift, Hung, InsertAt;
      forall n | n in nodes
        ensures n in H && H[n] == InfoOf(n)
      {
        HungAt(S, p, leaf, k, v, asLeft, n);
      }
      SameMembers(nodes, q, leaf);
      nodes := InsertAt(nodes, q, leaf);
      SameState(H, nodes);
    }

    /** A new leaf under `p`. */
    method Attach(p: BstNode, k: int, v: int, asLeft: bool, ghost q: int)
      requires Valid() && p in nodes && 0 <= q <= |nodes|
      requires q == if asLeft then p.span.pos else p.span.pos + 1
      requires if asLeft then p.left == null else p.right == null
      requires KeysFit(Bindings(), k, q)
      modifies this`nodes, nodes
      ensures Valid() && Model() == old(Model())[k := v]
      ensures fresh(set n | n in nodes && n !in old(nodes))
    {
      ghost var S, ns := State(), nodes;
      assert p in S && S[p].pos == p.span.pos && S[p].left == p.left && S[p].right == p.right;
      hide Shape, Linked, Hung, State, Ascending, BindingsOf, InsertAt, KeysFit;
      var leaf := Hang(p, k, v, asLeft, q);
      HungShape(S, root, ns, p, leaf, k, v, asLeft, q);
      InsertUpdates(BindingsOf(S, ns), q, k, v);
      SameMembers(ns, q, leaf);
    }

    /** Overwrites the binding of `n`. */
    method Store(n: BstNode, k: int, v: int)
      requires Shape(State(), root, nodes) && n in nodes
      modifies n`key, n`value
      ensures Shape(State(), root, nodes) && n.key == k && n.value == v
      ensures n.span == old(n.span) && 0 <= n.span.pos < |nodes| && |old(Bindings())| == |nodes|
      ensures Bindings() == old(Bindings())[n.span.pos := (k, v)]
    {
      ghost var S := State();
      assert 0 <= S[n].pos < |nodes| && nodes[S[n].pos] == n;
      n.key, n.value := k, v;
      hide Shape, State;
      Revalued(S, root, nodes, n, k, v);
      SameState(S[n := S[n].(key := k, value := v)], nodes);
    }

    /** The descent of `insert`: stops at the node of key `k`, or runs off the tree below `parent`. */
    method Descend(k: int) returns (curr: BstNode?, parent: BstNode, ghost q: int)
      requires Valid() && root != null
      ensures parent in nodes && 0 <= q <= |nodes|
      ensures curr != null ==> curr in nodes && curr.key == k
      ensures curr == null ==> KeysFit(Bindings(), k, q)
      ensures curr == null && k < parent.key ==> parent.left == null && q == parent.span.pos
      ensures curr == null && k >= parent.key ==> parent.right == null && q == parent.span.pos + 1
    {
      hide *;
      Whole();
      curr, parent := root, root;
      ghost var hi := |nodes|;
      q := 0;
      while curr != null
        invariant parent in nodes && 0 <= q <= hi <= |nodes|
        invariant forall i :: 0 <= i < q ==> nodes[i].key < k
        invariant forall i :: hi <= i < |nodes| ==> k < nodes[i].key
        invariant curr != null ==> curr in nodes && curr.span.lo == q && curr.span.hi == hi
        invariant curr == null ==> q == hi
        invariant curr == null && k < parent.key ==> parent.left == null && q == parent.span.pos
        invariant curr == null && k >= parent.key ==> parent.right == null && q == parent.span.pos + 1
        decreases if curr == null then 0 else 1 + hi - q
      {
        parent := curr;
        Down(curr);
        Around(curr);
        if k < curr.key {
          hi := curr.span.pos;
          curr := curr.left;
        } else if k > curr.key {
          q := curr.span.pos + 1;
          curr := curr.right;
        } else {
          return;
        }
      }
      Fits(k, q);
    }

    /** `insert`. */
    method Insert(k: int, v: int)
      requires Valid()
      modifies this, nodes
      ensures Valid() && Model() == old(Model())[k := v]
      ensures fresh(set n | n in nodes && n !in old(nodes))
    {
      hide *;
      Whole();
      if root == null {
        Plant(k, v);
        return;
      }
      var curr, parent, q := Descend(k);
      if curr != null {
        Overwrite(curr, k, v);
      } else if k < parent.key {
        Attach(parent, k, v, true, q);
      } else {
        Attach(parent, k, v, false, q);
      }
    }

    lemma Fits(k: int, q: int)
      requires Valid() && 0 <= q <= |nodes|
      requires forall i :: 0 <= i < q ==> nodes[i].key < k
      requires forall i :: q <= i < |nodes| ==> k < nodes[i].key
      ensures KeysFit(Bindings(), k, q)
    {
      hide Shape, Ascending, State, Bindings;
      forall i | 0 <= i < |Bindings()|
        ensures if i < q then Bindings()[i].0 < k else k < Bindings()[i].0
      {
        Listing();
        BindingAt(i);
      }
    }

    /** The first node. */
    method Plant(k: int, v: int)
      requires Valid() && nodes == []
      modifies this
      ensures Valid() && Model() == old(Model())[k := v]
      ensures fresh(set n | n in nodes)
    {
      root := new BstNode(k, v, null);
      root.span := Span(0, 0, 1);
      nodes := [root];
      assert Bindings() == [(k, v)];
      assert State() == map[root := InfoOf(root)];
    }

    method Overwrite(n: BstNode, k: int, v: int)
      requires Valid() && n in nodes && n.key == k
      modifies n
      ensures Valid() && Model() == old(Model())[k := v] && nodes == old(nodes)
    {
      hide *;
      Down(n);
      BindingAt(n.span.pos);
      ValidSaysShape();
      OverwriteUpdates(Bindings(), n.span.pos, k, v);
      Store(n, k, v);
      ShapeIsValid();
    }

    // ----- erase

    /** The field updates of taking out `m`. */
    method Unlink(m: BstNode)
      requires m in nodes && (m.left != null ==> m.left in nodes) && (m.right != null ==> m.right in nodes)
      requires m.parent != null ==> m.parent in nodes
      modifies this`root, nodes
      ensures root == old(if m.parent != null then root else if m.left != null then m.left else m.right)
      ensures forall n :: n in nodes && n != m ==>
                InfoOf(n) == Spliced(old(InfoOf(n)), n, m, old(if m.left != null then m.left else m.right),
                                     old(m.parent), old(m.span.pos))
    {
      ghost var q := m.span.pos;
      var child := if m.left != null then m.left else m.right;
      if child != null {
        child.parent := m.parent;
      }
      if m.parent == null {
        root := child;
      } else if m == m.parent.left {
        m.parent.left := child;
      } else {
        m.parent.right := child;
      }
      forall n | n in nodes {
        n.span := Span(Drop(n.span.lo, q), Drop(n.span.pos, q), Drop(n.span.hi, q));
      }
      hide Drop;
    }

    lemma Neighbours(m: BstNode)
      requires Shape(State(), root, nodes) && m in nodes
      ensures m in State() && State()[m] == InfoOf(m) && 0 <= m.span.pos < |nodes| && nodes[m.span.pos] == m
      ensures (m.left != null ==> m.left in nodes) && (m.right != null ==> m.right in nodes)
      ensures m.parent != null ==> m.parent in nodes
      ensures |Bindings()| == |nodes|
    {
      assert m in State() && Linked(State(), root, m);
    }

    lemma CutInfo(S: Snapshot, m: BstNode, n: BstNode)
      requires m in S && S[m] == InfoOf(m)
      ensures CutRoot(S, root, m)
           == if m.parent != null then root else if m.left != null then m.left else m.right
      ensures n in S && n != m ==>
                && n in Cut(S, m)
                && Cut(S, m)[n] == Spliced(S[n], n, m, if m.left != null then m.left else m.right, m.parent, m.span.pos)
    {
    }

    /** The nodes that stay, and their number. */
    static lemma Stay(S: Snapshot, root: BstNode?, nodes: seq<BstNode>, m: BstNode, q: int)
      requires Shape(S, root, nodes) && m in S && q == S[m].pos && 0 <= q < |nodes|
      ensures forall n :: n in RemoveAt(nodes, q) <==> n in Cut(S, m)
      ensures forall n :: n in Cut(S, m) <==> n in S && n != m
      ensures forall n :: n in nodes <==> n in S
    {
      hide Linked, RemoveAt, Cut;
      CutSize(S, m);
      CutBindings(S, root, nodes, m, q);
      forall n | n in Cut(S, m)
        ensures n in RemoveAt(nodes, q)
      {
        CutPos(S, root, nodes, m, n);
      }
      forall n | n in S
        ensures n in nodes
      {
        assert nodes[S[n].pos] == n;
      }
    }

    method Cleave(m: BstNode, ghost q: int)
      requires Shape(State(), root, nodes) && m in nodes && q == m.span.pos && 0 <= q < |nodes|
      modifies this, nodes
      ensures m in old(State()) && nodes == RemoveAt(old(nodes), q) && State() == Cut(old(State()), m)
      ensures root == CutRoot(old(State()), old(root), m)
    {
      hide Shape, Linked, Cut, CutRoot, RemoveAt, Spliced, BindingsOf, StateOf, Drop;
      Neighbours(m);
      ghost var S, ns := State(), nodes;
      ghost var r := root;
      forall n | n in ns
        ensures n in S && S[n] == InfoOf(n)
        ensures n != m ==>
                  && n in Cut(S, m)
                  && Cut(S, m)[n] == Spliced(S[n], n, m, if m.left != null then m.left else m.right, m.parent, m.span.pos)
      {
        Neighbours(n);
        CutInfo(S, m, n);
      }
      CutInfo(S, m, m);
      Unlink(m);
      nodes := RemoveAt(ns, q);
      Stay(S, r, ns, m, q);
      SameState(Cut(S, m), nodes);
    }

    /** Takes out a node with at most one child. */
    method Splice(m: BstNode, ghost q: int)
      requires Shape(State(), root, nodes) && m in nodes && (m.left == null || m.right == null) && q == m.span.pos
      modifies this, nodes
      ensures Shape(State(), root, nodes) && 0 <= q < |old(nodes)| == |old(Bindings())|
      ensures Bindings() == RemoveAt(old(Bindings()), q)
      ensures nodes == RemoveAt(old(nodes), q)
    {
      Neighbours(m);
      ghost var S, ns, r := State(), nodes, root;
      assert BindingsOf(S, ns) == Bindings();
      assert S[m].left == m.left && S[m].right == m.right && S[m].pos == q;
      hide Shape, State, Cut, CutRoot, RemoveAt, BindingsOf;
      CutShape(S, r, ns, m, q);
      Cleave(m, q);
    }

    /** `erase` from the found node on. */
    method Unbind(n: BstNode, ghost q: int)
      requires Valid() && n in nodes && q == n.span.pos
      modifies this, nodes
      ensures Shape(State(), root, nodes) && 0 <= q < |old(nodes)| == |old(Bindings())|
      ensures Bindings() == RemoveAt(old(Bindings()), q)
      ensures forall x :: x in nodes ==> x in old(nodes)
    {
      hide *;
      Down(n);
      ValidSaysShape();
      BindingAt(q);
      if n.left != null && n.right != null {
        var succ := Successor(n);
        BindingAt(q + 1);
        Overtakes(Bindings(), q);
        Store(n, succ.key, succ.value);
        RemovalStays(nodes, q + 1);
        Splice(succ, q + 1);
      } else {
        RemovalStays(nodes, q);
        Splice(n, q);
      }
    }

    /** `erase`. */
    method Erase(k: int)
      requires Valid()
      modifies this, nodes
      ensures Valid() && Model() == old(Model()) - {k}
      ensures forall n :: n in nodes ==> n in old(nodes)
    {
      hide *;
      var node := Find(k);
      if node == null {
        return;
      }
      Down(node);
      ValidSaysShape();
      BindingAt(node.span.pos);
      RemovalRemoves(Bindings(), node.span.pos);
      Unbind(node, node.span.pos);
      ShapeIsValid();
    }
  }
  // ----- runs

  datatype Call = Put(key: int, value: int) | Remove(key: int)

  /** The map after a run of calls. */
  function After(calls: seq<Call>): map<int, int>
    decreases |calls|
  {
    if calls == [] then map[]
    else
      var m := After(calls[..|calls| - 1]);
      match calls[|calls| - 1]
      case Put(k, v) => m[k := v]
      case Remove(k) => m - {k}
  }

  /** A map driven by any calls of insert and erase. */
  method Drive(calls: seq<Call>) returns (t: Map)
    ensures fresh(t) && fresh(set n | n in t.nodes)
    ensures t.Valid() && t.Model() == After(calls)
    decreases |calls|
  {
    if calls == [] {
      t := new Map();
    } else {
      t := Drive(calls[..|calls| - 1]);
      hide *;
      match calls[|calls| - 1] {
        case Put(k, v) => t.Insert(k, v);
        case Remove(k) => t.Erase(k);
      }
      AfterStep(calls);
    }
  }

  lemma AfterStep(calls: seq<Call>)
    requires calls != []
    ensures var m, c := After(calls[..|calls| - 1]), calls[|calls| - 1];
            After(calls) == if c.Put? then m[c.key := c.value] else m - {c.key}
  {
  }

  /** After any run of insert and erase, a loop from begin() to end() lists the resulting map in
      ascending key order. */
  method DriveAndList(calls: seq<Call>) returns (listing: seq<(int, int)>)
    ensures Ascending(listing) && Contents(listing) == After(calls)
  {
    var t := Drive(calls);
    t.ValidSaysShape();
    hide *;
    listing := t.Iterate();
  }
}
