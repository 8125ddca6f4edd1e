/** The bucket chains of `unordered_map` (umap_demo.h), as sequences of nodes.

    A node's key never changes, so where it belongs and whether keys repeat are facts about these
    sequences alone; only `next`, `value` and the bucket array live on the heap. */
module HashChains {

  class HashNode {
    const key: int
    var value: int
    var next: HashNode?

    constructor (k: int, v: int)
      ensures key == k && value == v && next == null
    {
      key, value, next := k, v, null;
    }
  }

  type Chains = seq<seq<HashNode>>

  /** `_hash_func(key) % count`. */
  function Slot(hash: int -> nat, key: int, count: nat): (i: nat)
    requires count > 0
    ensures i < count
  {
    hash(key) % count
  }

  ghost predicate Belongs(ns: seq<HashNode>, hash: int -> nat, count: nat, i: nat)
    requires count > 0
  {
    forall n :: n in ns ==> Slot(hash, n.key, count) == i
  }

  /** Each node sits in bucket `hash % count`. */
  ghost predicate Placed(chains: Chains, hash: int -> nat) {
    forall i {:trigger chains[i]} :: 0 <= i < |chains| ==> Belongs(chains[i], hash, |chains|, i)
  }

  /** The nodes in iteration order. */
  ghost function Flat(chains: Chains): (r: seq<HashNode>)
    ensures forall i, n :: 0 <= i < |chains| && n in chains[i] ==> n in r
  {
    if chains == [] then [] else
      assert forall i :: 1 <= i < |chains| ==> chains[1..][i - 1] == chains[i];
      chains[0] + Flat(chains[1..])
  }

  ghost function Nodes(chains: Chains): multiset<HashNode> {
    multiset(Flat(chains))
  }

  ghost function NodeSet(chains: Chains): (s: set<HashNode>)
    ensures forall n :: n in s ==> n in Flat(chains) && n in Nodes(chains)
    ensures forall n :: n in Flat(chains) ==> n in s
    ensures forall n :: n in Nodes(chains) ==> n in s
  {
    set n | n in Flat(chains)
  }

  /** No node twice, no key twice. */
  ghost predicate KeysApart(M: multiset<HashNode>) {
    && (forall n :: n in M ==> M[n] == 1)
    && (forall n, n' :: n in M && n' in M && n.key == n'.key ==> n == n')
  }

  /** The nodes `ns` are linked in this order from `head` to a null link. */
  ghost predicate Links(ns: seq<HashNode>, head: HashNode?)
    reads ns`next
  {
    && head == (if ns == [] then null else ns[0])
    && forall j {:trigger ns[j].next} :: 0 <= j < |ns| ==> ns[j].next == if j + 1 < |ns| then ns[j + 1] else null
  }

  lemma {:induction false} FlatAt(chains: Chains, i: nat)
    requires i < |chains|
    ensures Flat(chains) == Flat(chains[..i]) + chains[i] + Flat(chains[i + 1..])
  {
    if i > 0 {
      FlatAt(chains[1..], i - 1);
      assert chains[1..][..i - 1] == chains[..i][1..];
      assert chains[1..][i..] == chains[i + 1..];
    }
  }

  lemma NodesUpdate(chains: Chains, i: nat, c: seq<HashNode>)
    requires i < |chains|
    ensures multiset(chains[i]) <= Nodes(chains)
    ensures Nodes(chains[i := c]) == Nodes(chains) - multiset(chains[i]) + multiset(c)
  {
    FlatAt(chains, i);
    FlatAt(chains[i := c], i);
    assert chains[i := c][..i] == chains[..i] && chains[i := c][i + 1..] == chains[i + 1..];
  }

  lemma {:induction false} FlatFind(chains: Chains, n: HashNode) returns (i: nat)
    requires n in Nodes(chains)
    ensures i < |chains| && n in chains[i]
  {
    if n in chains[0] {
      i := 0;
    } else {
      i := FlatFind(chains[1..], n);
      i := i + 1;
    }
  }

  /** A key can only be in its own bucket. */
  lemma Home(chains: Chains, hash: int -> nat, n: HashNode)
    requires |chains| > 0 && Placed(chains, hash)
    ensures n in Nodes(chains) <==> n in chains[Slot(hash, n.key, |chains|)]
  {
    var i := Slot(hash, n.key, |chains|);
    if n in Nodes(chains) {
      var j := FlatFind(chains, n);
      assert Belongs(chains[j], hash, |chains|, j);
    }
    if n in chains[i] {
      FlatAt(chains, i);
    }
    hide Slot;
  }

  // ----- the chain operations

  /** A new node goes to the front of its chain. */
  ghost function Push(chains: Chains, hash: int -> nat, n: HashNode): (r: Chains)
    requires |chains| > 0
    ensures |r| == |chains|
  {
    var i := Slot(hash, n.key, |chains|);
    chains[i := [n] + chains[i]]
  }

  lemma PushKeeps(chains: Chains, hash: int -> nat, n: HashNode)
    requires |chains| > 0 && Placed(chains, hash)
    ensures Placed(Push(chains, hash, n), hash)
    ensures Nodes(Push(chains, hash, n)) == Nodes(chains) + multiset{n}
  {
    var i := Slot(hash, n.key, |chains|);
    NodesUpdate(chains, i, [n] + chains[i]);
    assert multiset([n] + chains[i]) == multiset{n} + multiset(chains[i]);
    assert Belongs(chains[i], hash, |chains|, i);
    hide Slot;
  }

  /** Unlinks the node at place `j` of chain `i`. */
  ghost function Pull(chains: Chains, i: nat, j: nat): (r: Chains)
    requires i < |chains| && j < |chains[i]|
    ensures |r| == |chains|
  {
    chains[i := chains[i][..j] + chains[i][j + 1..]]
  }

  lemma TakeOut(c: seq<HashNode>, j: nat)
    requires j < |c|
    ensures multiset(c[..j] + c[j + 1..]) == multiset(c) - multiset{c[j]}
  {
    assert c == c[..j] + [c[j]] + c[j + 1..];
  }

  lemma PullKeeps(chains: Chains, hash: int -> nat, i: nat, j: nat)
    requires i < |chains| && j < |chains[i]| && Placed(chains, hash)
    ensures Placed(Pull(chains, i, j), hash)
    ensures chains[i][j] in Nodes(chains)
    ensures Nodes(Pull(chains, i, j)) == Nodes(chains) - multiset{chains[i][j]}
  {
    var c := chains[i];
    var c' := c[..j] + c[j + 1..];
    assert Belongs(c, hash, |chains|, i);
    assert Belongs(c', hash, |chains|, i);
    hide Slot, Nodes, Belongs;
    assert c[j] in multiset(c);
    NodesUpdate(chains, i, c');
    TakeOut(c, j);
  }

  /** Empty buckets. */
  ghost function Empty(count: nat): (r: Chains)
    ensures |r| == count && forall i :: 0 <= i < count ==> r[i] == []
  {
    seq(count, _ => [])
  }

  lemma {:induction false} EmptyFlat(chains: Chains)
    requires forall i :: 0 <= i < |chains| ==> chains[i] == []
    ensures Flat(chains) == []
  {
    if chains != [] {
      EmptyFlat(chains[1..]);
    }
  }

  /** `rehash` pushes the nodes, in iteration order, into `count` empty buckets. */
  ghost function Relink(flat: seq<HashNode>, hash: int -> nat, count: nat): (r: Chains)
    requires count > 0
    ensures |r| == count
    decreases |flat|
  {
    if flat == [] then Empty(count) else Push(Relink(flat[..|flat| - 1], hash, count), hash, flat[|flat| - 1])
  }

  /** Rehashing changes no node and puts every node where the new count wants it. */
  lemma {:induction false} RelinkKeeps(flat: seq<HashNode>, hash: int -> nat, count: nat)
    requires count > 0
    ensures Placed(Relink(flat, hash, count), hash) && Nodes(Relink(flat, hash, count)) == multiset(flat)
    decreases |flat|
  {
    if flat == [] {
      EmptyFlat(Empty(count));
    } else {
      var rest := flat[..|flat| - 1];
      RelinkKeeps(rest, hash, count);
      PushKeeps(Relink(rest, hash, count), hash, flat[|flat| - 1]);
      assert flat == rest + [flat[|flat| - 1]];
    }
  }

  /** A new node for `key` is the first of chain `i`, and nothing else has changed. */
  ghost predicate PushedAt(was: Chains, now: Chains, i: int, key: int) {
    && 0 <= i < |was| == |now| && now == was[i := now[i]]
    && now[i] != [] && now[i][0].key == key && now[i][1..] == was[i]
  }

  /** The nodes of a chain but those of `key`, in their order. */
  ghost function WithoutKey(ns: seq<HashNode>, key: int): seq<HashNode> {
    if ns == [] then [] else (if ns[0].key == key then [] else [ns[0]]) + WithoutKey(ns[1..], key)
  }

  /** The node of `key` is out of chain `i`, and nothing else has changed. */
  ghost predicate PulledAt(was: Chains, now: Chains, i: int, key: int) {
    0 <= i < |was| && now == was[i := WithoutKey(was[i], key)]
  }

  lemma {:induction false} NoneOfKey(ns: seq<HashNode>, key: int)
    requires forall n :: n in ns ==> n.key != key
    ensures WithoutKey(ns, key) == ns
  {
    if ns != [] {
      NoneOfKey(ns[1..], key);
    }
  }

  lemma {:induction false} PullIsWithoutKey(ns: seq<HashNode>, j: nat)
    requires j < |ns| && forall x :: 0 <= x < |ns| && x != j ==> ns[x].key != ns[j].key
    ensures WithoutKey(ns, ns[j].key) == ns[..j] + ns[j + 1..]
  {
    if j == 0 {
      NoneOfKey(ns[1..], ns[0].key);
    } else {
      PullIsWithoutKey(ns[1..], j - 1);
      assert ns[1..][..j - 1] == ns[1..j] && ns[..j] == [ns[0]] + ns[1..j];
    }
  }

  // ----- where the hash puts a node, in numbers

  /** Each node is in the bucket of its hash modulo the bucket count. */
  lemma PlacedByHash(chains: Chains, hash: int -> nat)
    requires Placed(chains, hash) && |chains| > 0
    ensures forall i, n :: 0 <= i < |chains| && n in chains[i] ==> hash(n.key) % |chains| == i
  {
    forall i, n | 0 <= i < |chains| && n in chains[i]
      ensures hash(n.key) % |chains| == i
    {
      assert Belongs(chains[i], hash, |chains|, i);
    }
  }

  /** The nodes come bucket by bucket, in ascending order of what the hash leaves. */
  ghost predicate Ascending(flat: seq<HashNode>, hash: int -> nat, count: nat)
    requires count > 0
  {
    forall a, b :: 0 <= a < b < |flat| ==> hash(flat[a].key) % count <= hash(flat[b].key) % count
  }

  lemma {:induction false} FlatAscends(chains: Chains, hash: int -> nat, count: nat, first: nat)
    requires count > 0
    requires forall i, n :: 0 <= i < |chains| && n in chains[i] ==> hash(n.key) % count == first + i
    ensures Ascending(Flat(chains), hash, count)
    ensures forall n :: n in Flat(chains) ==> first <= hash(n.key) % count
  {
    if chains != [] {
      var later := chains[1..];
      assert forall i :: 0 <= i < |later| ==> later[i] == chains[i + 1];
      FlatAscends(later, hash, count, first + 1);
      var flat := chains[0] + Flat(later);
      forall n | n in flat
        ensures first <= hash(n.key) % count
      {
        assert n in chains[0] || n in Flat(later);
      }
      forall a, b | 0 <= a < b < |flat|
        ensures hash(flat[a].key) % count <= hash(flat[b].key) % count
      {
        assert flat[b] in flat;
        if b < |chains[0]| {
          assert flat[b] in chains[0];
        }
        if a < |chains[0]| {
          assert flat[a] in chains[0];
        }
      }
    }
  }

  /** Those of the nodes that the hash puts in bucket `i`, the last one first. */
  ghost function Chosen(flat: seq<HashNode>, hash: int -> nat, count: nat, i: nat): seq<HashNode>
    requires count > 0
    decreases |flat|
  {
    if flat == [] then []
    else
      var last := flat[|flat| - 1];
      (if hash(last.key) % count == i then [last] else []) + Chosen(flat[..|flat| - 1], hash, count, i)
  }

  /** After a rehash each bucket holds its nodes in the reverse of the order they had. */
  lemma {:induction false} RelinkOrder(flat: seq<HashNode>, hash: int -> nat, count: nat, i: nat)
    requires count > 0 && i < count
    ensures Relink(flat, hash, count)[i] == Chosen(flat, hash, count, i)
    decreases |flat|
  {
    if flat != [] {
      RelinkOrder(flat[..|flat| - 1], hash, count, i);
    }
  }

  // ----- the map the nodes hold

  ghost predicate Injective(s: set<HashNode>) {
    forall n, n' :: n in s && n' in s && n.key == n'.key ==> n == n'
  }

  /** The map from keys to values, given the nodes' values. */
  ghost function Bindings(V: map<HashNode, int>): (m: map<int, int>)
    requires Injective(V.Keys)
    ensures forall n :: n in V ==> n.key in m && m[n.key] == V[n]
    ensures forall k :: k in m ==> exists n :: n in V && n.key == k
  {
    map n <- V :: n.key := V[n]
  }

  /** A stored value goes to its key. */
  lemma Stored(V: map<HashNode, int>, n: HashNode, v: int)
    requires Injective(V.Keys) && (n in V || forall x :: x in V ==> x.key != n.key)
    ensures Injective(V[n := v].Keys) && Bindings(V[n := v]) == Bindings(V)[n.key := v]
  {
    var b, b' := Bindings(V), Bindings(V[n := v]);
    forall k | k in b'
      ensures k in b[n.key := v] && b'[k] == b[n.key := v][k]
    {
      var x :| x in V[n := v] && x.key == k;
    }
    forall k | k in b
      ensures k in b'
    {
      var x :| x in V && x.key == k;
      assert x in V[n := v];
    }
  }

  /** A node taken out takes its key with it. */
  lemma Dropped(V: map<HashNode, int>, n: HashNode)
    requires Injective(V.Keys) && n in V
    ensures Injective((V - {n}).Keys) && Bindings(V - {n}) == Bindings(V) - {n.key}
  {
    var b, b' := Bindings(V), Bindings(V - {n});
    forall k | k in b'
      ensures k in b && k != n.key && b'[k] == b[k]
    {
      var x :| x in V - {n} && x.key == k;
    }
    forall k | k in b && k != n.key
      ensures k in b'
    {
      var x :| x in V && x.key == k;
      assert x in V - {n};
    }
  }

  lemma ApartLess(rest: seq<HashNode>, last: HashNode)
    requires KeysApart(multiset(rest + [last]))
    ensures KeysApart(multiset(rest))
    ensures forall n :: n in rest ==> n.key != last.key
  {
    var M := multiset(rest + [last]);
    assert M == multiset(rest) + multiset{last};
    assert last in M && M[last] == 1;
    forall n | n in rest
      ensures n in M && multiset(rest)[n] == 1 && n.key != last.key
    {
      assert n in multiset(rest);
    }
    assert forall n :: n in multiset(rest) ==> n in rest;
  }

  ghost function KeySet(ns: seq<HashNode>): (r: set<int>)
    ensures forall k :: k in r <==> exists n :: n in ns && n.key == k
  {
    set n | n in ns :: n.key
  }

  lemma {:induction false} CountKeys(ns: seq<HashNode>)
    requires KeysApart(multiset(ns))
    ensures |KeySet(ns)| == |ns|
    decreases |ns|
  {
    if ns != [] {
      var last, rest := ns[|ns| - 1], ns[..|ns| - 1];
      assert ns == rest + [last];
      ApartLess(rest, last);
      CountKeys(rest);
      assert KeySet(ns) == KeySet(rest) + {last.key};
      hide KeysApart, KeySet;
    }
  }

  ghost function Values(s: set<HashNode>): (m: map<HashNode, int>)
    reads s`value
    ensures m.Keys == s && forall n :: n in s ==> m[n] == n.value
  {
    map n <- s :: n.value
  }

  /** The map held by the nodes of a table. */
  ghost function Model(s: set<HashNode>): map<int, int>
    requires Injective(s)
    reads s`value
  {
    Bindings(Values(s))
  }

  /** A table holds as many bindings as nodes. */
  lemma CountBindings(chains: Chains, V: map<HashNode, int>)
    requires KeysApart(Nodes(chains)) && V.Keys == NodeSet(chains)
    ensures Injective(V.Keys) && |Bindings(V)| == |Flat(chains)|
  {
    CountKeys(Flat(chains));
    assert Bindings(V).Keys == KeySet(Flat(chains));
  }
}
