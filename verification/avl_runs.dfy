/** Runs of `put` and `remove` on the AVL map of map_demo.h: which of them end in a rotation that reads
    through a null pointer, and how a caller can tell. */
module AvlRuns {

  import opened Options
  import opened AvlTree

  // ----- put, as the pointers run it

  /** The rotation cases that end `insert`; none when one of them reads through a null child. */
  function FixRun<V>(j: Tree<V>, k: int): Option<Tree<V>>
    requires j.Node?
  {
    var b := Balance(j);
    if b > 1 && j.left.Leaf? then None
    else if b < -1 && j.right.Leaf? then None
    else if b > 1 && k > j.left.key && j.left.right.Leaf? then None
    else if b < -1 && k < j.right.key && j.right.left.Leaf? then None
    else Some(InsertFix(j, k))
  }

  /** `insert`; none when it reads through a null pointer. */
  function InsertRun<V>(t: Tree<V>, k: int, v: V): Option<Tree<V>> {
    match t
    case Leaf => Some(Node(Leaf, k, v, 1, Leaf))
    case Node(l, key, value, h, r) =>
      if k < key then
        match InsertRun(l, k, v)
        case Some(u) => FixRun(Join(u, key, value, r), k)
        case None => None
      else if k > key then
        match InsertRun(r, k, v)
        case Some(u) => FixRun(Join(l, key, value, u), k)
        case None => None
      else Some(Node(l, key, v, h, r))
  }

  /** It is `Insert` wherever no pivot is missing. */
  lemma {:induction false} InsertRunIs<V>(t: Tree<V>, k: int, v: V)
    ensures InsertRun(t, k, v) == if InsertSafe(t, k, v) then Some(Insert(t, k, v)) else None
  {
    if t.Node? {
      if k < t.key {
        InsertRunIs(t.left, k, v);
      } else if k > t.key {
        InsertRunIs(t.right, k, v);
      }
    }
  }

  // ----- exactly when a put fails

  /** On the way to `k` there is a node whose other side has no child to turn on, and stands two levels
      or more above the side `k` went to. */
  ghost predicate Trapped<V>(t: Tree<V>, k: int, v: V) {
    t.Node?
    && if k < t.key then
         Trapped(t.left, k, v)
         || (t.right.Node? && t.right.left.Leaf? && Height(t.right) >= 2 + Height(Insert(t.left, k, v)))
       else
         k > t.key
         && (Trapped(t.right, k, v)
             || (t.left.Node? && t.left.right.Leaf? && Height(t.left) >= 2 + Height(Insert(t.right, k, v))))
  }

  lemma {:induction false} FailsExactlyWhenTrapped<V(!new)>(t: Tree<V>, k: int, v: V)
    requires Ordered(t) && Exact(t)
    ensures InsertRun(t, k, v) == None <==> Trapped(t, k, v)
  {
    InsertRunIs(t, k, v);
    if t.Node? {
      if k < t.key {
        FailsExactlyWhenTrapped(t.left, k, v);
        InsertRunIs(t.left, k, v);
        if InsertSafe(t.left, k, v) {
          InsertIsUpdate(t.left, k, v);
          InsertExact(t.left, k, v);
          TurnsLeftOrMisses(t, k, Insert(t.left, k, v));
        }
      } else if k > t.key {
        FailsExactlyWhenTrapped(t.right, k, v);
        InsertRunIs(t.right, k, v);
        if InsertSafe(t.right, k, v) {
          InsertIsUpdate(t.right, k, v);
          InsertExact(t.right, k, v);
          TurnsRightOrMisses(t, k, Insert(t.right, k, v));
        }
      }
    }
  }

  /** The left side has become `l`, which holds `k`: a turn to the right finds its pivots. */
  lemma TurnsLeftOrMisses<V>(t: Tree<V>, k: int, l: Tree<V>)
    requires t.Node? && Ordered(t) && Exact(t) && k < t.key
    requires Ordered(l) && Exact(l) && k in Keys(l)
    ensures Pivots(Join(l, t.key, t.value, t.right), k) <==>
              !(t.right.Node? && t.right.left.Leaf? && Height(t.right) >= 2 + Height(l))
  {
    HeightNatural(l);
    HeightNatural(t.right);
    if t.right.Node? {
      assert t.right.key in Keys(t.right);
    }
  }

  lemma TurnsRightOrMisses<V>(t: Tree<V>, k: int, r: Tree<V>)
    requires t.Node? && Ordered(t) && Exact(t) && k > t.key
    requires Ordered(r) && Exact(r) && k in Keys(r)
    ensures Pivots(Join(t.left, t.key, t.value, r), k) <==>
              !(t.left.Node? && t.left.right.Leaf? && Height(t.left) >= 2 + Height(r))
  {
    HeightNatural(r);
    HeightNatural(t.left);
    if t.left.Node? {
      assert t.left.key in Keys(t.left);
    }
  }

  // ----- what a caller can check before the call

  /** Beside the way to `k`, a node without a child to turn on is at most two levels high. */
  ghost predicate LowBeside<V>(t: Tree<V>, k: int) {
    t.Leaf? || k == t.key
    || (k < t.key && LowBeside(t.left, k) && (t.right.Node? && t.right.left.Leaf? ==> Height(t.right) <= 2))
    || (k > t.key && LowBeside(t.right, k) && (t.left.Node? && t.left.right.Leaf? ==> Height(t.left) <= 2))
  }

  /** Then the put succeeds, whatever the balances. */
  lemma {:induction false} LowIsSafe<V(!new)>(t: Tree<V>, k: int, v: V)
    requires Ordered(t) && Exact(t) && LowBeside(t, k)
    ensures InsertRun(t, k, v).Some? && !Trapped(t, k, v)
  {
    FailsExactlyWhenTrapped(t, k, v);
    if t.Node? {
      if k < t.key {
        LowIsSafe(t.left, k, v);
        InsertRunIs(t.left, k, v);
        InsertExact(t.left, k, v);
        InsertIsUpdate(t.left, k, v);
        HeightNatural(Insert(t.left, k, v));
      } else if k > t.key {
        LowIsSafe(t.right, k, v);
        InsertRunIs(t.right, k, v);
        InsertExact(t.right, k, v);
        InsertIsUpdate(t.right, k, v);
        HeightNatural(Insert(t.right, k, v));
      }
    }
  }

  /** No node leans by more than two levels. */
  ghost predicate LeansByTwo<V>(t: Tree<V>) {
    t.Leaf? || (LeansByTwo(t.left) && LeansByTwo(t.right) && -2 <= Balance(t) <= 2)
  }

  predicate Single<V>(t: Tree<V>, k: int) {
    t.Node? && t.key == k && t.left.Leaf? && t.right.Leaf?
  }

  /** The way to `k` ends at a childless node of that key; its parent's other child is three levels high
      and has no child on the near side. */
  predicate Snare<V>(t: Tree<V>, k: int) {
    t.Node?
    && if k < t.key then
         Snare(t.left, k) || (Single(t.left, k) && t.right.Node? && t.right.left.Leaf? && Height(t.right) == 3)
       else
         k > t.key
         && (Snare(t.right, k) || (Single(t.right, k) && t.left.Node? && t.left.right.Leaf? && Height(t.left) == 3))
  }

  /** A subtree of one level holds one key. */
  lemma LowSubtree<V(!new)>(t: Tree<V>, k: int, v: V)
    requires Ordered(t) && Exact(t) && InsertSafe(t, k, v)
    ensures Height(Insert(t, k, v)) <= 1 ==> t.Leaf? || Single(t, k)
    ensures Single(t, k) ==> Height(Insert(t, k, v)) == 1
    ensures Height(Insert(t, k, v)) >= 1
  {
    InsertIsUpdate(t, k, v);
    InsertExact(t, k, v);
    var u := Insert(t, k, v);
    HeightNatural(u);
    assert k in Keys(u) && u.Node?;
    HeightNatural(u.left);
    HeightNatural(u.right);
    if Height(u) <= 1 {
      assert Keys(u) == {u.key};
      if t.Node? {
        assert t.key in Keys(u);
        NoKeys(t.left);
        NoKeys(t.right);
        assert forall x :: x in Keys(t.left) || x in Keys(t.right) ==> x in Keys(u);
      }
    }
  }

  lemma NoKeys<V>(t: Tree<V>)
    ensures t.Node? ==> t.key in Keys(t)
  {
  }

  /** While no node leans by more than two levels, a put fails exactly when it overwrites the key of such
      a childless node. */
  lemma {:induction false} FailsExactlyWhenSnared<V(!new)>(t: Tree<V>, k: int, v: V)
    requires Ordered(t) && Exact(t) && LeansByTwo(t)
    ensures InsertRun(t, k, v) == None <==> Snare(t, k)
  {
    FailsExactlyWhenTrapped(t, k, v);
    if t.Node? {
      HeightNatural(t.left);
      HeightNatural(t.right);
      if k < t.key {
        FailsExactlyWhenSnared(t.left, k, v);
        FailsExactlyWhenTrapped(t.left, k, v);
        InsertRunIs(t.left, k, v);
        if InsertSafe(t.left, k, v) {
          LowSubtree(t.left, k, v);
          if t.right.Node? {
            HeightNatural(t.right.right);
          }
        }
      } else if k > t.key {
        FailsExactlyWhenSnared(t.right, k, v);
        FailsExactlyWhenTrapped(t.right, k, v);
        InsertRunIs(t.right, k, v);
        if InsertSafe(t.right, k, v) {
          LowSubtree(t.right, k, v);
          if t.left.Node? {
            HeightNatural(t.left.left);
          }
        }
      }
    }
  }

  /** A tree with at most one node out of balance, by two levels, has no snare. */
  lemma {:induction false} OneOffIsFree<V>(t: Tree<V>, k: int)
    requires Exact(t) && LeansByTwo(t) && Off(t) <= 1
    ensures !Snare(t, k)
  {
    if t.Node? {
      HeightNatural(t.left);
      HeightNatural(t.right);
      OneOffIsFree(t.left, k);
      OneOffIsFree(t.right, k);
      if t.right.Node? {
        HeightNatural(t.right.right);
      }
      if t.left.Node? {
        HeightNatural(t.left.left);
      }
    }
  }

  lemma {:induction false} RightByTwo<V>(t: Tree<V>)
    requires LeansRightByTwo(t)
    ensures LeansByTwo(t)
  {
    if t.Node? {
      RightByTwo(t.left);
      RightByTwo(t.right);
    }
  }

  // ----- runs

  datatype Call<V> = Put(key: int, value: V) | Remove(key: int)

  /** One call; none when it reads through a null pointer.  With exact heights `erase` never does. */
  function Do<V>(t: Tree<V>, c: Call<V>): Option<Tree<V>> {
    match c
    case Put(k, v) => InsertRun(t, k, v)
    case Remove(k) => Some(Erase(t, k))
  }

  /** The tree after a run of calls; none once a call has failed. */
  function Run<V>(t: Tree<V>, calls: seq<Call<V>>): Option<Tree<V>>
    decreases |calls|
  {
    if calls == [] then Some(t)
    else match Run(t, calls[..|calls| - 1])
         case None => None
         case Some(u) => Do(u, calls[|calls| - 1])
  }

  /** The map a run of calls describes. */
  function Meant<V>(m: map<int, V>, calls: seq<Call<V>>): map<int, V>
    decreases |calls|
  {
    if calls == [] then m
    else
      var r := Meant(m, calls[..|calls| - 1]);
      match calls[|calls| - 1]
      case Put(k, v) => r[k := v]
      case Remove(k) => r - {k}
  }

  ghost predicate IsMap<V(!new)>(t: Tree<V>, m: map<int, V>) {
    forall k :: Get(t, k) == if k in m then Some(m[k]) else None
  }

  /** As long as no call fails, a run gives the map it describes, in order and with exact heights. */
  lemma {:induction false} RunIsMap<V(!new)>(calls: seq<Call<V>>)
    requires Run(Leaf, calls).Some?
    ensures var u := Run(Leaf, calls).value; Ordered(u) && Exact(u) && IsMap(u, Meant(map[], calls))
    decreases |calls|
  {
    if calls != [] {
      var before := calls[..|calls| - 1];
      RunIsMap(before);
      var t := Run(Leaf, before).value;
      match calls[|calls| - 1]
      case Put(k, v) =>
        InsertRunIs(t, k, v);
        InsertIsUpdate(t, k, v);
        InsertExact(t, k, v);
      case Remove(k) =>
        EraseIsRemoval(t, k);
        EraseExact(t, k);
    }
  }

  /** Which runs fail: those with a put that is trapped in the tree it finds. */
  lemma FailsAtATrap<V(!new)>(calls: seq<Call<V>>, c: Call<V>)
    requires Run(Leaf, calls).Some?
    ensures Run(Leaf, calls + [c]) == None <==> c.Put? && Trapped(Run(Leaf, calls).value, c.key, c.value)
  {
    RunIsMap(calls);
    assert (calls + [c])[..|calls|] == calls;
    if c.Put? {
      FailsExactlyWhenTrapped(Run(Leaf, calls).value, c.key, c.value);
    }
  }

  /** Every erasure in the run is one that restores balance, judged by the tree it finds. */
  ghost predicate Unflawed<V>(t: Tree<V>, calls: seq<Call<V>>)
    decreases |calls|
  {
    calls == []
    || (&& Unflawed(t, calls[..|calls| - 1])
        && match calls[|calls| - 1]
           case Put(_, _) => true
           case Remove(k) => Run(t, calls[..|calls| - 1]).Some? ==> !Flawed(Run(t, calls[..|calls| - 1]).value, k))
  }

  /** Runs that mix puts and unflawed removes never fail and keep the tree an AVL tree. */
  lemma {:induction false} UnflawedRunsAreSafe<V(!new)>(t: Tree<V>, calls: seq<Call<V>>)
    requires Avl(t) && Unflawed(t, calls)
    ensures Run(t, calls).Some? && Avl(Run(t, calls).value)
    decreases |calls|
  {
    if calls != [] {
      var before := calls[..|calls| - 1];
      UnflawedRunsAreSafe(t, before);
      var u := Run(t, before).value;
      match calls[|calls| - 1]
      case Put(k, v) =>
        InsertRunIs(u, k, v);
        BalancedIsSafe(u, k, v);
        InsertKeepsAvl(u, k, v);
      case Remove(k) =>
        EraseFromAvl(u, k);
    }
  }

  /** After the first flawed remove the next put still succeeds. */
  lemma FirstPutAfterAFlaw<V(!new)>(t: Tree<V>, k: int, key: int, v: V)
    requires Avl(t)
    ensures InsertRun(Erase(t, k), key, v).Some?
  {
    var u := Erase(t, k);
    EraseFromAvl(t, k);
    OffZero(u);
    RightByTwo(u);
    OneOffIsFree(u, key);
    FailsExactlyWhenSnared(u, key, v);
  }

  // ----- a run that fails

  /** A run of one call more, from `t` to `w`. */
  lemma Longer<V>(t: Tree<V>, calls: seq<Call<V>>, u: Tree<V>, c: Call<V>, w: Tree<V>) returns (more: seq<Call<V>>)
    requires Run(t, calls) == Some(u) && Do(u, c) == Some(w)
    ensures more == calls + [c] && Run(t, more) == Some(w)
  {
    more := calls + [c];
    assert more[..|calls|] == calls;
  }

  function One(k: int): Call<int> {
    Put(k, 0)
  }

  function Fork(l: Tree<int>, k: int, h: int, r: Tree<int>): Tree<int> {
    Node(l, k, 0, h, r)
  }

  function Tip(k: int): Tree<int> {
    Node(Leaf, k, 0, 1, Leaf)
  }

  /** What the flawed remove leaves: no left child, and two levels on the right. */
  function Bent(): Tree<int> {
    Fork(Leaf, 9, 3, Fork(Leaf, 10, 2, Tip(11)))
  }

  /** ... and what becomes of it when the root turns. */
  function Upright(): Tree<int> {
    Fork(Tip(7), 8, 3, Fork(Tip(9), 10, 2, Tip(11)))
  }

  // The steps of the run in `InsertCanMissItsPivot`, a few calls at a time.

  lemma FivePuts() returns (c: seq<Call<int>>)
    ensures c == [One(6), One(2), One(9), One(5), One(8)]
    ensures Run(Leaf, c)
         == Some(Fork(Fork(Leaf, 2, 2, Tip(5)), 6, 3, Fork(Tip(8), 9, 2, Leaf)))
  {
    c := [];
    c := Longer(Leaf, c, Leaf, One(6),
                Tip(6));
    c := Longer(Leaf, c, Tip(6), One(2),
                Fork(Tip(2), 6, 2, Leaf));
    c := Longer(Leaf, c, Fork(Tip(2), 6, 2, Leaf), One(9),
                Fork(Tip(2), 6, 2, Tip(9)));
    c := Longer(Leaf, c, Fork(Tip(2), 6, 2, Tip(9)), One(5),
                Fork(Fork(Leaf, 2, 2, Tip(5)), 6, 3, Tip(9)));
    c := Longer(Leaf, c, Fork(Fork(Leaf, 2, 2, Tip(5)), 6, 3, Tip(9)), One(8),
                Fork(Fork(Leaf, 2, 2, Tip(5)), 6, 3, Fork(Tip(8), 9, 2, Leaf)));
  }

  lemma FlawedRemove() returns (c: seq<Call<int>>)
    ensures c == [One(6), One(2), One(9), One(5), One(8), One(10), One(7), One(11), Remove(2)]
    ensures Run(Leaf, c)
         == Some(Fork(Fork(Tip(5), 6, 2, Tip(7)), 8, 4, Bent()))
  {
    c := FivePuts();
    c := Longer(Leaf, c, Fork(Fork(Leaf, 2, 2, Tip(5)), 6, 3, Fork(Tip(8), 9, 2, Leaf)), One(10),
                Fork(Fork(Leaf, 2, 2, Tip(5)), 6, 3, Fork(Tip(8), 9, 2, Tip(10))));
    c := Longer(Leaf, c, Fork(Fork(Leaf, 2, 2, Tip(5)), 6, 3, Fork(Tip(8), 9, 2, Tip(10))), One(7),
                Fork(Fork(Leaf, 2, 2, Tip(5)), 6, 4, Fork(Fork(Tip(7), 8, 2, Leaf), 9, 3, Tip(10))));
    c := Longer(Leaf, c,
                Fork(Fork(Leaf, 2, 2, Tip(5)), 6, 4, Fork(Fork(Tip(7), 8, 2, Leaf), 9, 3, Tip(10))), One(11),
                Fork(Fork(Leaf, 2, 2, Tip(5)), 6, 4, Fork(Fork(Tip(7), 8, 2, Leaf), 9, 3, Fork(Leaf, 10, 2, Tip(11)))));
    c := Longer(Leaf, c,
                Fork(Fork(Leaf, 2, 2, Tip(5)), 6, 4, Fork(Fork(Tip(7), 8, 2, Leaf), 9, 3, Fork(Leaf, 10, 2, Tip(11)))),
                Remove(2),
                Fork(Fork(Tip(5), 6, 2, Tip(7)), 8, 4, Bent()));
  }

  lemma ThreeMorePuts() returns (c: seq<Call<int>>)
    ensures c == [One(6), One(2), One(9), One(5), One(8), One(10), One(7), One(11), Remove(2),
                  One(3), One(2), One(4)]
    ensures Run(Leaf, c)
         == Some(Fork(Fork(Fork(Tip(2), 3, 2, Tip(4)), 5, 3, Fork(Leaf, 6, 2, Tip(7))), 8, 4, Bent()))
  {
    c := FlawedRemove();
    c := Longer(Leaf, c, Fork(Fork(Tip(5), 6, 2, Tip(7)), 8, 4, Bent()), One(3),
                Fork(Fork(Fork(Tip(3), 5, 2, Leaf), 6, 3, Tip(7)), 8, 4, Bent()));
    c := Longer(Leaf, c, Fork(Fork(Fork(Tip(3), 5, 2, Leaf), 6, 3, Tip(7)), 8, 4, Bent()), One(2),
                Fork(Fork(Fork(Tip(2), 3, 2, Tip(5)), 6, 3, Tip(7)), 8, 4, Bent()));
    c := Longer(Leaf, c, Fork(Fork(Fork(Tip(2), 3, 2, Tip(5)), 6, 3, Tip(7)), 8, 4, Bent()), One(4),
                Fork(Fork(Fork(Tip(2), 3, 2, Tip(4)), 5, 3, Fork(Leaf, 6, 2, Tip(7))), 8, 4, Bent()));
  }

  lemma SnareIsLaid() returns (c: seq<Call<int>>)
    ensures c == [One(6), One(2), One(9), One(5), One(8), One(10), One(7), One(11), Remove(2),
                  One(3), One(2), One(4), One(1), One(11), One(4)]
    ensures Run(Leaf, c)
         == Some(Fork(Fork(Fork(Fork(Tip(1), 2, 2, Leaf), 3, 3, Leaf), 4, 4, Tip(5)), 6, 5, Upright()))
  {
    c := ThreeMorePuts();
    c := Longer(Leaf, c,
                Fork(Fork(Fork(Tip(2), 3, 2, Tip(4)), 5, 3, Fork(Leaf, 6, 2, Tip(7))), 8, 4, Bent()), One(1),
                Fork(Fork(Fork(Fork(Tip(1), 2, 2, Leaf), 3, 3, Tip(4)), 5, 4, Fork(Leaf, 6, 2, Tip(7))), 8, 5, Bent()));
    c := Longer(Leaf, c,
                Fork(Fork(Fork(Fork(Tip(1), 2, 2, Leaf), 3, 3, Tip(4)), 5, 4, Fork(Leaf, 6, 2, Tip(7))), 8, 5, Bent()),
                One(11),
                Fork(Fork(Fork(Fork(Tip(1), 2, 2, Leaf), 3, 3, Tip(4)), 5, 4, Leaf), 6, 5, Upright()));
    c := Longer(Leaf, c,
                Fork(Fork(Fork(Fork(Tip(1), 2, 2, Leaf), 3, 3, Tip(4)), 5, 4, Leaf), 6, 5, Upright()), One(4),
                Fork(Fork(Fork(Fork(Tip(1), 2, 2, Leaf), 3, 3, Leaf), 4, 4, Tip(5)), 6, 5, Upright()));
  }

  /** Puts and a single remove on the empty map, none of which fails, and then a put that does: on
      the way back from node 5, node 4 finds no right child of node 3 to turn on. */
  lemma InsertCanMissItsPivot()
    ensures var calls := [One(6), One(2), One(9), One(5), One(8), One(10), One(7), One(11), Remove(2),
                         One(3), One(2), One(4), One(1), One(11), One(4)];
            Run(Leaf, calls).Some? && Run(Leaf, calls + [One(5)]) == None
  {
    var c := SnareIsLaid();
    assert (c + [One(5)])[..|c|] == c;
  }
}
