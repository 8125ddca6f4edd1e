/** unordered_map (umap_demo.h): an array of singly linked bucket chains that grows and shrinks. */
module HashTable {

  import opened HashChains

  const MIN_BUCKETS: nat := 8

  // ----- the resizing rule

  /** The bucket count after an insertion left `e` elements in `m` buckets. */
  function Grown(e: nat, m: nat, maxLoad: real): nat
    requires m > 0
  {
    if e as real / m as real > maxLoad then m * 2 else m
  }

  lemma GrownIs(e: nat, m: nat, maxLoad: real)
    requires m > 0
    ensures Grown(e, m, maxLoad) == if e as real / m as real > maxLoad then m * 2 else m
  {
  }

  /** The bucket count after a removal left `e` elements in `m` buckets. */
  function Shrunk(e: nat, m: nat, maxLoad: real): nat
    requires m > 0
  {
    var c := if m / 2 < MIN_BUCKETS then MIN_BUCKETS else m / 2;
    if e > 0 && e as real / m as real < maxLoad / 4.0 && c < m then c else m
  }

  lemma ShrunkIs(e: nat, m: nat, maxLoad: real)
    requires m > 0
    ensures var c := if m / 2 < MIN_BUCKETS then MIN_BUCKETS else m / 2;
            c > 0 && Shrunk(e, m, maxLoad) == if e > 0 && e as real / m as real < maxLoad / 4.0 && c < m then c else m
  {
  }

  // ----- link surgery on one chain

  lemma LinksPush(c: seq<HashNode>, head: HashNode?, n: HashNode)
    requires Links(c, head) && n.next == head
    ensures Links([n] + c, n)
  {
    var ns := [n] + c;
    forall j | 0 <= j < |ns|
      ensures ns[j].next == if j + 1 < |ns| then ns[j + 1] else null
    {
      assert j > 0 ==> ns[j] == c[j - 1] && c[j - 1].next == if j < |c| then c[j] else null;
    }
  }

  lemma LinksPop(c: seq<HashNode>, head: HashNode)
    requires Links(c, head)
    ensures c != [] && c[0] == head && Links(c[1..], head.next)
  {
    assert c[0].next == if 1 < |c| then c[1] else null;
    forall j | 0 <= j < |c| - 1
      ensures c[1..][j].next == if j + 1 < |c| - 1 then c[1..][j + 1] else null
    {
      assert c[j + 1].next == if j + 2 < |c| then c[j + 2] else null;
    }
  }

  lemma SameNodes(chains: Chains, was: Chains)
    requires Nodes(chains) == multiset(Flat(was))
    ensures Nodes(chains) == Nodes(was) && NodeSet(chains) == NodeSet(was) && |Flat(chains)| == |Flat(was)|
  {
    assert |Nodes(chains)| == |Nodes(was)|;
  }

  lemma SameValues(s: set<HashNode>, V: map<HashNode, int>)
    requires V.Keys == s && forall n :: n in s ==> V[n] == n.value
    ensures Values(s) == V
  {
  }

  lemma Added(s: set<HashNode>, V: map<HashNode, int>, n: HashNode)
    requires V.Keys == s && Injective(s) && forall x :: x in s ==> V[x] == x.value
    requires forall x :: x in s ==> x.key != n.key
    ensures Injective(s + {n}) && Model(s + {n}) == Bindings(V)[n.key := n.value]
  {
    Stored(V, n, n.value);
    hide Injective, Bindings;
    assert V[n := n.value].Keys == s + {n};
    SameValues(s + {n}, V[n := n.value]);
  }

  lemma Removed(s: set<HashNode>, V: map<HashNode, int>, n: HashNode)
    requires V.Keys == s && Injective(s) && n in s && forall x :: x in s ==> V[x] == x.value
    ensures Injective(s - {n}) && Model(s - {n}) == Bindings(V) - {n.key}
  {
    Dropped(V, n);
    hide Injective, Bindings;
    assert (V - {n}).Keys == s - {n};
    SameValues(s - {n}, V - {n});
  }

  lemma ModelIs(s: set<HashNode>)
    requires Injective(s)
    ensures Injective(Values(s).Keys) && Model(s) == Bindings(Values(s))
  {
  }

  lemma LinksEnd(c: seq<HashNode>)
    requires Links(c, null)
    ensures c == []
  {
  }

  lemma RelinkStep(done: seq<HashNode>, n: HashNode, hash: int -> nat, count: nat)
    requires count > 0
    ensures Relink(done + [n], hash, count) == Push(Relink(done, hash, count), hash, n)
  {
    assert (done + [n])[..|done|] == done;
  }

  lemma FlatStep(chains: Chains, i: nat, done: seq<HashNode>)
    requires i < |chains|
    ensures done + Flat(chains[i..]) == (done + chains[i]) + Flat(chains[i + 1..])
  {
    assert chains[i..][1..] == chains[i + 1..];
  }

  /** Looks for `key` along one chain. */
  method Walk(key: int, ghost c: seq<HashNode>, head: HashNode?) returns (node: HashNode?)
    requires Links(c, head)
    ensures node != null ==> node in c && node.key == key
    ensures node == null ==> forall n :: n in c ==> n.key != key
  {
    node := head;
    ghost var j := 0;
    while node != null
      invariant 0 <= j <= |c| && node == if j < |c| then c[j] else null
      invariant forall n :: n in c[..j] ==> n.key != key
      decreases |c| - j
    {
      if node.key == key {
        return;
      }
      node := node.next;
      j := j + 1;
    }
  }

  /** Pushes `node` onto its new chain. */
  method MoveFront(node: HashNode, buckets: array<HashNode?>, hash: int -> nat, ghost chains: Chains)
    requires |chains| == buckets.Length > 0 && node !in Flat(chains)
    requires forall i {:trigger chains[i]} :: 0 <= i < |chains| ==> Links(chains[i], buckets[i])
    modifies node`next, buckets
    ensures forall i {:trigger Push(chains, hash, node)[i]} :: 0 <= i < |chains| ==>
              Links(Push(chains, hash, node)[i], buckets[i])
  {
    var i := Slot(hash, node.key, buckets.Length);
    node.next := buckets[i];
    LinksPush(chains[i], buckets[i], node);
    buckets[i] := node;
  }

  /** In a run of distinct nodes, one node is in no other place. */
  lemma Apart(done: seq<HashNode>, x: HashNode, rest: seq<HashNode>, later: Chains)
    requires KeysApart(multiset(done + [x] + rest + Flat(later)))
    ensures x !in done && x !in rest
    ensures forall j {:trigger later[j]} :: 0 <= j < |later| ==> x !in later[j]
  {
    var M := multiset(done + [x] + rest + Flat(later));
    assert M == multiset(done) + multiset{x} + multiset(rest) + multiset(Flat(later));
    assert x in M && M[x] == 1;
    assert multiset(done)[x] == 0 && multiset(rest)[x] == 0 && multiset(Flat(later))[x] == 0;
    assert x !in Flat(later);
  }

  /** The node being moved is in no chain that is still to be read, and in no new chain. */
  lemma Moving(chains: Chains, hash: int -> nat, count: nat, i: nat,
               done0: seq<HashNode>, done: seq<HashNode>, rest: seq<HashNode>)
    requires KeysApart(Nodes(chains)) && i < |chains| && Flat(chains) == done0 + Flat(chains[i..])
    requires done + rest == done0 + chains[i] && rest != [] && count > 0
    ensures rest[0] !in rest[1..] && rest[0] in Flat(chains)
    ensures rest[0] !in Flat(Relink(done, hash, count))
    ensures forall j {:trigger chains[j]} :: i < j < |chains| ==> rest[0] !in chains[j]
  {
    var later := chains[i + 1..];
    assert chains[i..][1..] == later;
    assert Flat(chains) == done0 + (chains[i] + Flat(later));
    assert Flat(chains) == (done0 + chains[i]) + Flat(later);
    assert rest == [rest[0]] + rest[1..];
    assert done + rest == done + [rest[0]] + rest[1..];
    hide KeysApart, Relink;
    Apart(done, rest[0], rest[1..], later);
    RelinkKeeps(done, hash, count);
    assert rest[0] !in multiset(done);
    forall j | i < j < |chains|
      ensures rest[0] !in chains[j]
    {
      assert later[j - i - 1] == chains[j];
    }
  }

  /** Looks for `key` along one chain, one node behind. */
  method WalkBehind(key: int, ghost c: seq<HashNode>, head: HashNode?)
    returns (node: HashNode?, prev: HashNode?, ghost j: nat)
    requires Links(c, head)
    ensures node != null ==> j < |c| && c[j] == node && node.key == key
    ensures node != null ==> prev == if j == 0 then null else c[j - 1]
    ensures node == null ==> forall n :: n in c ==> n.key != key
  {
    node, prev, j := head, null, 0;
    while node != null
      invariant 0 <= j <= |c| && node == (if j < |c| then c[j] else null)
      invariant prev == if j == 0 then null else c[j - 1]
      invariant forall n :: n in c[..j] ==> n.key != key
      decreases |c| - j
    {
      if node.key == key {
        return;
      }
      prev := node;
      node := node.next;
      j := j + 1;
    }
  }

  /** Unlinking place `j`: every link is as in `c`, but the one in front of `j` skips it. */
  lemma LinksPull(c: seq<HashNode>, j: nat, head: HashNode?)
    requires j < |c| && head == if j > 0 then c[0] else c[0].next
    requires forall x {:trigger c[x].next} :: 0 <= x < |c| && x + 1 != j ==>
               c[x].next == if x + 1 < |c| then c[x + 1] else null
    requires j > 0 ==> c[j - 1].next == c[j].next
    ensures Links(c[..j] + c[j + 1..], head)
  {
    var ns := c[..j] + c[j + 1..];
    assert c[j].next == if j + 1 < |c| then c[j + 1] else null;
    forall x | 0 <= x < |ns|
      ensures ns[x].next == if x + 1 < |ns| then ns[x + 1] else null
    {
      if x < j {
        assert ns[x] == c[x];
      } else {
        assert ns[x] == c[x + 1] && c[x + 1].next == if x + 2 < |c| then c[x + 2] else null;
      }
    }
  }

  lemma NoRepeat(c: seq<HashNode>, x: nat, y: nat)
    requires x < y < |c| && multiset(c)[c[x]] <= 1
    ensures c[x] != c[y]
  {
    var rest := c[x + 1..];
    assert c == c[..x] + [c[x]] + rest;
    assert multiset(rest)[c[x]] == 0;
    assert rest[y - x - 1] == c[y] && c[y] in multiset(rest);
  }

  lemma ChainDistinct(chains: Chains, i: nat, x: nat, y: nat)
    requires i < |chains| && x < y < |chains[i]| && KeysApart(Nodes(chains))
    ensures chains[i][x] != chains[i][y]
  {
    var c := chains[i];
    NodesUpdate(chains, i, c);
    assert c[x] in multiset(c) && multiset(c)[c[x]] <= Nodes(chains)[c[x]] == 1;
    hide *;
    NoRepeat(c, x, y);
  }

  lemma OtherChain(chains: Chains, hash: int -> nat, i: nat, k: nat, n: HashNode)
    requires i < |chains| && k < |chains| && i != k && Placed(chains, hash) && n in chains[i]
    ensures n !in chains[k]
  {
    assert Belongs(chains[i], hash, |chains|, i) && Belongs(chains[k], hash, |chains|, k);
    hide Slot;
  }

  /** The node in front of place `j` of chain `i` is nowhere else. */
  lemma Alone(chains: Chains, hash: int -> nat, i: nat, j: nat)
    requires i < |chains| && j < |chains[i]| && Placed(chains, hash) && KeysApart(Nodes(chains))
    ensures chains[i][j] in NodeSet(chains)
    ensures j > 0 ==> AloneAt(chains, i, j - 1) && chains[i][j - 1] in NodeSet(chains)
  {
    hide Placed, KeysApart;
    if j > 0 {
      forall x | 0 <= x < |chains[i]| && x != j - 1
        ensures chains[i][x] != chains[i][j - 1]
      {
        if x < j - 1 {
          ChainDistinct(chains, i, x, j - 1);
        } else {
          ChainDistinct(chains, i, j - 1, x);
        }
      }
      forall k | 0 <= k < |chains| && k != i
        ensures chains[i][j - 1] !in chains[k]
      {
        OtherChain(chains, hash, i, k, chains[i][j - 1]);
      }
    }
  }

  ghost predicate AloneAt(chains: Chains, i: nat, j: nat)
    requires i < |chains| && j < |chains[i]|
  {
    && (forall x :: 0 <= x < |chains[i]| && x != j ==> chains[i][x] != chains[i][j])
    && (forall k {:trigger chains[k]} :: 0 <= k < |chains| && k != i ==> chains[i][j] !in chains[k])
  }

  /** The link updates of unlinking place `j` of chain `i`. */
  method Unchain(buckets: array<HashNode?>, ghost chains: Chains, i: nat, node: HashNode, prev: HashNode?, ghost j: nat)
    requires |chains| == buckets.Length && i < |chains| && j < |chains[i]| && chains[i][j] == node
    requires forall k {:trigger chains[k]} :: 0 <= k < |chains| ==> Links(chains[k], buckets[k])
    requires j > 0 ==> AloneAt(chains, i, j - 1)
    requires prev == if j == 0 then null else chains[i][j - 1]
    modifies buckets, (if prev == null then {} else {prev})`next
    ensures forall k {:trigger Pull(chains, i, j)[k]} :: 0 <= k < |chains| ==> Links(Pull(chains, i, j)[k], buckets[k])
  {
    ghost var c := chains[i];
    LinkAt(c, buckets[i]);
    if prev == null {
      buckets[i] := node.next;
    } else {
      prev.next := node.next;
    }
    assert forall x {:trigger c[x].next} :: 0 <= x < |c| && x + 1 != j ==>
             c[x].next == if x + 1 < |c| then c[x + 1] else null;
    hide AloneAt;
    LinksPull(c, j, buckets[i]);
  }

  lemma LinkAt(c: seq<HashNode>, head: HashNode?)
    requires Links(c, head)
    ensures forall x {:trigger c[x].next} :: 0 <= x < |c| ==> c[x].next == if x + 1 < |c| then c[x + 1] else null
    ensures c != [] ==> head == c[0]
  {
  }

  lemma PushApart(chains: Chains, hash: int -> nat, n: HashNode)
    requires |chains| > 0 && Placed(chains, hash) && KeysApart(Nodes(chains))
    requires n !in Flat(chains) && forall x :: x in Flat(chains) ==> x.key != n.key
    ensures var r := Push(chains, hash, n);
            && Placed(r, hash) && KeysApart(Nodes(r)) && NodeSet(r) == NodeSet(chains) + {n}
            && |Flat(r)| == |Flat(chains)| + 1
  {
    var r := Push(chains, hash, n);
    PushKeeps(chains, hash, n);
    hide Push, Flat;
    assert |Nodes(r)| == |Nodes(chains)| + 1;
    assert forall x :: x in Nodes(chains) ==> x in Flat(chains);
  }

  lemma PullApart(chains: Chains, hash: int -> nat, i: nat, j: nat)
    requires i < |chains| && j < |chains[i]| && Placed(chains, hash) && KeysApart(Nodes(chains))
    ensures var r := Pull(chains, i, j);
            && Placed(r, hash) && KeysApart(Nodes(r)) && NodeSet(r) == NodeSet(chains) - {chains[i][j]}
            && |Flat(r)| == |Flat(chains)| - 1
  {
    var r := Pull(chains, i, j);
    PullKeeps(chains, hash, i, j);
    hide Pull, Flat;
    assert |Nodes(r)| == |Nodes(chains)| - 1;
  }

  /** `visited` is what comes before `node` in the iteration, or all of it. */
  ghost predicate Stood(flat: seq<HashNode>, visited: seq<HashNode>, node: HashNode?) {
    visited <= flat
    && if node == null then |visited| == |flat| else |visited| < |flat| && flat[|visited|] == node
  }

  lemma Onwards(flat: seq<HashNode>, visited: seq<HashNode>, node: HashNode)
    requires Stood(flat, visited, node)
    ensures visited + [node] <= flat && |visited| < |flat|
  {
  }

  lemma Over(flat: seq<HashNode>, visited: seq<HashNode>)
    requires Stood(flat, visited, null)
    ensures visited == flat
  {
  }

  lemma SlotIs(hash: int -> nat, key: int, count: nat)
    requires count > 0
    ensures Slot(hash, key, count) == hash(key) % count
  {
  }

  lemma PullIs(was: Chains, i: nat, j: nat)
    requires i < |was| && j < |was[i]| && KeysApart(Nodes(was))
    ensures PulledAt(was, Pull(was, i, j), i, was[i][j].key)
  {
    var c := was[i];
    forall x | 0 <= x < |c| && x != j
      ensures c[x].key != c[j].key
    {
      ChainDistinct(was, i, if x < j then x else j, if x < j then j else x);
      NodesUpdate(was, i, c);
      assert c[x] in multiset(c) && c[j] in multiset(c);
    }
    PullIsWithoutKey(c, j);
  }

  lemma PushIs(was: Chains, hash: int -> nat, n: HashNode)
    requires |was| > 0
    ensures PushedAt(was, Push(was, hash, n), hash(n.key) % |was|, n.key)
  {
  }

  class HashTable {
    var buckets: array<HashNode?>
    var bucketCount: nat
    var elemCount: nat
    const maxLoad: real
    const hash: int -> nat
    ghost var chains: Chains
    ghost var relinked: nat   // nodes moved by rehash so far

    ghost predicate Linked()
      reads this, buckets, Flat(chains)`next
    {
      && |chains| == bucketCount == buckets.Length > 0
      && forall i {:trigger chains[i]} :: 0 <= i < |chains| ==>
           (forall x :: 0 <= x < |chains[i]| ==> chains[i][x] in Flat(chains)) && Links(chains[i], buckets[i])
    }

    ghost predicate Valid()
      reads this, buckets, Flat(chains)`next
    {
      Linked() && Placed(chains, hash) && KeysApart(Nodes(chains)) && elemCount == |Flat(chains)|
    }

    /** The map in the table. */
    ghost function Contents(): map<int, int>
      requires KeysApart(Nodes(chains))
      reads this, NodeSet(chains)`value
    {
      Model(NodeSet(chains))
    }

    constructor (capacity: nat, load: real, h: int -> nat)
      requires capacity > 0
      ensures Valid() && Contents() == map[] && bucketCount == capacity && maxLoad == load && hash == h
      ensures relinked == 0 && fresh(buckets) && Flat(chains) == []
    {
      buckets := new HashNode?[capacity](_ => null);
      bucketCount, elemCount, maxLoad, hash := capacity, 0, load, h;
      chains, relinked := Empty(capacity), 0;
      EmptyFlat(Empty(capacity));
    }

    /** Walks the chain of `key`: its node, or null. */
    method Find(key: int) returns (node: HashNode?)
      requires Valid()
      ensures node != null ==> node.key == key && node in Flat(chains) && key in Contents() && Contents()[key] == node.value
      ensures node == null ==> key !in Contents() && forall n :: n in Flat(chains) ==> n.key != key
    {
      hide KeysApart, Placed, Links, Bindings, Flat, Slot;
      ValidSaysLinked();
      var idx := Slot(hash, key, bucketCount);
      node := Walk(key, chains[idx], buckets[idx]);
      if node != null {
        Holds(node, idx);
      } else {
        Absent(key);
      }
    }

    lemma Holds(n: HashNode, i: nat)
      requires Valid() && i < |chains| && n in chains[i]
      ensures n in Flat(chains) && n.key in Contents() && Contents()[n.key] == n.value
    {
    }

    lemma Absent(key: int)
      requires Valid()
      requires forall n :: n in chains[Slot(hash, key, |chains|)] ==> n.key != key
      ensures key !in Contents()
      ensures forall n :: n in Flat(chains) ==> n.key != key
    {
      hide Slot, Links;
      forall n | n in Flat(chains)
        ensures n.key != key
      {
        assert n in Nodes(chains);
        Home(chains, hash, n);
      }
    }

    /** The two loops of `rehash`. */
    method Redistribute(newCount: nat) returns (newBuckets: array<HashNode?>, ghost newChains: Chains)
      requires Linked() && KeysApart(Nodes(chains)) && newCount > 0
      modifies this`relinked, Flat(chains)`next
      ensures newChains == Relink(Flat(chains), hash, newCount) && newBuckets.Length == newCount && fresh(newBuckets)
      ensures forall j {:trigger newChains[j]} :: 0 <= j < newCount ==> Links(newChains[j], newBuckets[j])
      ensures relinked == old(relinked) + |Flat(chains)|
    {
      hide KeysApart, Placed, Flat, Nodes;
      newBuckets, newChains := new HashNode?[newCount](_ => null), Empty(newCount);
      ghost var done: seq<HashNode> := [];
      assert chains[0..] == chains;
      hide Relink, Links;
      var i := 0;
      while i < bucketCount
        invariant 0 <= i <= |chains| && Flat(chains) == done + Flat(chains[i..])
        invariant newChains == Relink(done, hash, newCount) && relinked == old(relinked) + |done|
        invariant forall j {:trigger chains[j]} :: i <= j < |chains| ==> Links(chains[j], buckets[j])
        invariant forall j {:trigger newChains[j]} :: 0 <= j < newCount ==> Links(newChains[j], newBuckets[j])
      {
        FlatStep(chains, i, done);
        newChains := MoveChain(newBuckets, i, done, newChains);
        done := done + chains[i];
        i := i + 1;
      }
      assert Flat(chains[i..]) == [] by {
        EmptyFlat(chains[i..]);
      }
      assert done + Flat(chains[i..]) == done;
    }

    /** `rehash`: every node moves to its bucket under the new count; the map stays. */
    method Rehash(newCount: nat)
      requires Valid()
      modifies this`buckets, this`bucketCount, this`chains, this`relinked, Flat(chains)`next
      ensures Valid() && Contents() == old(Contents())
      ensures Nodes(chains) == old(Nodes(chains)) && NodeSet(chains) == old(NodeSet(chains))
      ensures newCount == 0 || newCount == old(bucketCount) ==>
                && chains == old(chains) && bucketCount == old(bucketCount)
                && relinked == old(relinked) && buckets == old(buckets)
      ensures newCount != 0 && newCount != old(bucketCount) ==>
                && chains == Relink(old(Flat(chains)), hash, newCount) && bucketCount == newCount
                && relinked == old(relinked) + elemCount && fresh(buckets)
    {
      hide *;
      if newCount == 0 || newCount == bucketCount {
        return;
      }
      ValidSaysLinked();
      ghost var was := chains;
      ghost var s, V := NodeSet(chains), Values(NodeSet(chains));
      var newBuckets, newChains := Redistribute(newCount);
      RelinkKeeps(Flat(was), hash, newCount);
      buckets, bucketCount, chains := newBuckets, newCount, newChains;
      SameNodes(chains, was);
      LinkedIsValid();
      assert Values(s) == V;
    }

    lemma ValidSaysLinked()
      requires Valid()
      ensures Linked() && Placed(chains, hash) && KeysApart(Nodes(chains)) && elemCount == |Flat(chains)|
      ensures |chains| == bucketCount == buckets.Length > 0
      ensures Injective(NodeSet(chains)) && Contents() == Model(NodeSet(chains))
      ensures forall i {:trigger chains[i]} :: 0 <= i < |chains| ==> Links(chains[i], buckets[i])
    {
    }

    lemma LinkedIsValid()
      requires |chains| == bucketCount == buckets.Length > 0
      requires Placed(chains, hash) && KeysApart(Nodes(chains)) && elemCount == |Flat(chains)|
      requires forall i {:trigger chains[i]} :: 0 <= i < |chains| ==> Links(chains[i], buckets[i])
      ensures Valid() && Injective(NodeSet(chains)) && Contents() == Model(NodeSet(chains))
    {
    }

    /** Each node is in the bucket that its key's hash modulo the bucket count names. */
    lemma BucketsByHash()
      requires Valid()
      ensures |chains| == bucketCount == buckets.Length > 0
      ensures forall i, n :: 0 <= i < |chains| && n in chains[i] ==> hash(n.key) % bucketCount == i
    {
      PlacedByHash(chains, hash);
    }

    /** Moves one bucket's chain. */
    method MoveChain(newBuckets: array<HashNode?>, i: nat, ghost done0: seq<HashNode>, ghost newChains0: Chains)
      returns (ghost newChains: Chains)
      requires newBuckets.Length > 0 && newBuckets != buckets && i < |chains| == bucketCount == buckets.Length
      requires KeysApart(Nodes(chains)) && Flat(chains) == done0 + Flat(chains[i..])
      requires newChains0 == Relink(done0, hash, newBuckets.Length)
      requires forall j {:trigger chains[j]} :: i <= j < |chains| ==> Links(chains[j], buckets[j])
      requires forall j {:trigger newChains0[j]} :: 0 <= j < |newChains0| ==> Links(newChains0[j], newBuckets[j])
      modifies this`relinked, Flat(chains)`next, newBuckets
      ensures newChains == Relink(done0 + chains[i], hash, newBuckets.Length)
      ensures forall j {:trigger chains[j]} :: i < j < |chains| ==> Links(chains[j], buckets[j])
      ensures forall j {:trigger newChains[j]} :: 0 <= j < |newChains| ==> Links(newChains[j], newBuckets[j])
      ensures relinked == old(relinked) + |chains[i]|
    {
      hide KeysApart, Relink, Flat, Links;
      newChains := newChains0;
      var node := buckets[i];
      ghost var rest := chains[i];
      ghost var done: seq<HashNode> := done0;
      while node != null
        invariant Links(rest, node) && done + rest == done0 + chains[i]
        invariant newChains == Relink(done, hash, newBuckets.Length)
        invariant relinked == old(relinked) + |done| - |done0|
        invariant forall j {:trigger chains[j]} :: i < j < |chains| ==> Links(chains[j], buckets[j])
        invariant forall j {:trigger newChains[j]} :: 0 <= j < |newChains| ==> Links(newChains[j], newBuckets[j])
        decreases |rest|
      {
        var next := node.next;
        LinksPop(rest, node);
        Moving(chains, hash, newBuckets.Length, i, done0, done, rest);
        MoveFront(node, newBuckets, hash, newChains);
        RelinkStep(done, node, hash, newBuckets.Length);
        newChains := Push(newChains, hash, node);
        done, rest, relinked := done + [node], rest[1..], relinked + 1;
        node := next;
      }
      LinksEnd(rest);
      assert done + rest == done;
    }

    // ----- insert

    method Overwrite(n: HashNode, v: int)
      requires Valid() && n in NodeSet(chains)
      modifies n`value
      ensures Valid() && Contents() == old(Contents())[n.key := v]
    {
      hide *;
      ValidSaysLinked();
      ghost var s, V := NodeSet(chains), Values(NodeSet(chains));
      Stored(V, n, v);
      ModelIs(s);
      n.value := v;
      LinkedIsValid();
      assert Values(s) == V[n := v];
      ModelIs(s);
    }

    /** The new node at the front of its chain. */
    method Prepend(key: int, v: int) returns (n: HashNode)
      requires Linked() && bucketCount > 0
      modifies this`elemCount, this`chains, buckets
      ensures fresh(n) && n.key == key && n.value == v && elemCount == old(elemCount) + 1
      ensures chains == Push(old(chains), hash, n) && |chains| == bucketCount == buckets.Length
      ensures forall i {:trigger chains[i]} :: 0 <= i < |chains| ==> Links(chains[i], buckets[i])
    {
      hide Push, Flat, Links;
      ghost var s := Values(NodeSet(chains));
      n := new HashNode(key, v);
      assert n !in s;
      MoveFront(n, buckets, hash, chains);
      elemCount := elemCount + 1;
      chains := Push(chains, hash, n);
    }

    method Place(key: int, v: int) returns (n: HashNode)
      requires Valid() && forall n :: n in Flat(chains) ==> n.key != key
      modifies this`elemCount, this`chains, buckets
      ensures fresh(n) && n.key == key && n.value == v && NodeSet(chains) == old(NodeSet(chains)) + {n}
      ensures |old(chains)| == bucketCount > 0 && chains == Push(old(chains), hash, n)
      ensures Valid() && elemCount == old(elemCount) + 1 && Injective(NodeSet(chains))
      ensures Contents() == Model(NodeSet(chains))
    {
      hide *;
      ValidSaysLinked();
      ghost var was := chains;
      n := Prepend(key, v);
      PushApart(was, hash, n);
      LinkedIsValid();
    }

    method AddFront(key: int, v: int)
      requires Valid() && forall n :: n in Flat(chains) ==> n.key != key
      modifies this`elemCount, this`chains, buckets
      ensures Valid() && Contents() == old(Contents())[key := v] && elemCount == old(elemCount) + 1
      ensures bucketCount > 0 && PushedAt(old(chains), chains, hash(key) % bucketCount, key)
      ensures forall n :: n in NodeSet(chains) ==> n in old(NodeSet(chains)) || fresh(n)
    {
      hide *;
      ValidSaysLinked();
      ghost var s, V := NodeSet(chains), Values(NodeSet(chains));
      ModelIs(s);
      ghost var was := chains;
      var n := Place(key, v);
      PushIs(was, hash, n);
      Added(s, V, n);
    }

    method Insert(key: int, v: int)
      requires Valid()
      modifies this`buckets, this`bucketCount, this`elemCount, this`chains, this`relinked, buckets, NodeSet(chains)
      ensures Valid() && Contents() == old(Contents())[key := v]
      ensures key in old(Contents()) ==> bucketCount == old(bucketCount) && relinked == old(relinked)
      ensures key !in old(Contents()) ==>
                && elemCount == old(elemCount) + 1
                && bucketCount == Grown(elemCount, old(bucketCount), maxLoad)
                && relinked == old(relinked) + if bucketCount != old(bucketCount) then elemCount else 0
      ensures key !in old(Contents()) && bucketCount == old(bucketCount) ==>
                bucketCount > 0 && PushedAt(old(chains), chains, hash(key) % bucketCount, key)
      ensures forall n :: n in NodeSet(chains) ==> n in old(NodeSet(chains)) || fresh(n)
      ensures buckets == old(buckets) || fresh(buckets)
    {
      hide KeysApart, Placed, Links, Bindings, Flat, Slot, Grown, Contents, Model, PushedAt;
      ValidSaysLinked();
      ghost var s, V := NodeSet(chains), Values(NodeSet(chains));
      ModelIs(s);
      var node := Find(key);
      SameValues(s, V);
      ModelIs(s);
      ValidSaysLinked();
      if node != null {
        Overwrite(node, v);
        return;
      }
      AddFront(key, v);
      ValidSaysLinked();
      GrownIs(elemCount, bucketCount, maxLoad);
      if elemCount as real / bucketCount as real > maxLoad {
        Rehash(bucketCount * 2);
      }
    }

    /** `size`. */
    lemma Count()
      requires Valid()
      ensures |Contents()| == elemCount
    {
      CountBindings(chains, Values(NodeSet(chains)));
    }

    // ----- erase

    /** Unlinks `node`, found behind `prev` at place `j` of chain `i`. */
    method Cut(i: nat, node: HashNode, prev: HashNode?, ghost j: nat)
      requires Valid() && i < |chains| && j < |chains[i]| && chains[i][j] == node
      requires prev == if j == 0 then null else chains[i][j - 1]
      modifies this`chains, this`elemCount, buckets, NodeSet(chains)`next
      ensures Valid() && elemCount == old(elemCount) - 1 && NodeSet(chains) == old(NodeSet(chains)) - {node}
      ensures node in old(NodeSet(chains)) && Injective(NodeSet(chains)) && Contents() == Model(NodeSet(chains))
      ensures PulledAt(old(chains), chains, i, node.key)
    {
      hide *;
      ValidSaysLinked();
      ghost var was := chains;
      PullApart(chains, hash, i, j);
      PullIs(chains, i, j);
      Alone(chains, hash, i, j);
      Unchain(buckets, chains, i, node, prev, j);
      elemCount := elemCount - 1;
      chains := Pull(was, i, j);
      LinkedIsValid();
    }

    method Unlink(i: nat, node: HashNode, prev: HashNode?, ghost j: nat)
      requires Valid() && i < |chains| && j < |chains[i]| && chains[i][j] == node
      requires prev == if j == 0 then null else chains[i][j - 1]
      modifies this`chains, this`elemCount, buckets, NodeSet(chains)`next
      ensures Valid() && Contents() == old(Contents()) - {node.key} && elemCount == old(elemCount) - 1
      ensures NodeSet(chains) <= old(NodeSet(chains)) && node.key in old(Contents())
      ensures PulledAt(old(chains), chains, i, node.key)
    {
      hide *;
      ValidSaysLinked();
      Holds(node, i);
      ghost var s, V := NodeSet(chains), Values(NodeSet(chains));
      ModelIs(s);
      Cut(i, node, prev, j);
      Removed(s, V, node);
    }

    /** The search of `erase`. */
    method Locate(key: int) returns (idx: nat, node: HashNode?, prev: HashNode?, ghost j: nat)
      requires Valid()
      ensures Valid() && idx < |chains| && bucketCount > 0 && idx == hash(key) % bucketCount
      ensures node != null ==> j < |chains[idx]| && chains[idx][j] == node && node.key == key
      ensures node != null ==> prev == if j == 0 then null else chains[idx][j - 1]
      ensures node == null ==> key !in Contents()
    {
      hide KeysApart, Placed, Links, Bindings, Flat, Slot;
      ValidSaysLinked();
      idx := Slot(hash, key, bucketCount);
      SlotIs(hash, key, bucketCount);
      node, prev, j := WalkBehind(key, chains[idx], buckets[idx]);
      if node == null {
        Absent(key);
      }
    }

    /** The end of `erase`. */
    method ShrinkIfSparse()
      requires Valid()
      modifies this`buckets, this`bucketCount, this`chains, this`relinked, NodeSet(chains)`next
      ensures Valid() && Contents() == old(Contents()) && NodeSet(chains) == old(NodeSet(chains))
      ensures old(bucketCount) > 0 && bucketCount == Shrunk(elemCount, old(bucketCount), maxLoad)
      ensures bucketCount == old(bucketCount) ==> chains == old(chains)
      ensures relinked == old(relinked) + if bucketCount != old(bucketCount) then elemCount else 0
      ensures buckets == old(buckets) || fresh(buckets)
    {
      hide *;
      ValidSaysLinked();
      ShrunkIs(elemCount, bucketCount, maxLoad);
      if elemCount > 0 {
        var newCount := if bucketCount / 2 < MIN_BUCKETS then MIN_BUCKETS else bucketCount / 2;
        if elemCount as real / bucketCount as real < maxLoad / 4.0 && newCount < bucketCount {
          Rehash(newCount);
        }
      }
    }

    /** `erase`. */
    method Erase(key: int) returns (found: bool)
      requires Valid()
      modifies this`buckets, this`bucketCount, this`elemCount, this`chains, this`relinked, buckets, NodeSet(chains)`next
      ensures Valid() && Contents() == old(Contents()) - {key} && found == (key in old(Contents()))
      ensures !found ==> chains == old(chains) && bucketCount == old(bucketCount) && relinked == old(relinked)
      ensures found ==>
                && elemCount == old(elemCount) - 1
                && bucketCount == Shrunk(elemCount, old(bucketCount), maxLoad)
                && relinked == old(relinked) + if bucketCount != old(bucketCount) then elemCount else 0
      ensures found && bucketCount == old(bucketCount) ==>
                bucketCount > 0 && PulledAt(old(chains), chains, hash(key) % bucketCount, key)
      ensures NodeSet(chains) <= old(NodeSet(chains)) && (buckets == old(buckets) || fresh(buckets))
    {
      hide *;
      ValidSaysLinked();
      ghost var s, V := NodeSet(chains), Values(NodeSet(chains));
      ModelIs(s);
      var idx, node, prev, j := Locate(key);
      SameValues(s, V);
      ModelIs(s);
      ValidSaysLinked();
      if node == null {
        return false;
      }
      Unlink(idx, node, prev, j);
      ShrinkIfSparse();
      found := true;
    }

    // ----- clear

    /** Every chain deleted. */
    method Wipe()
      requires Valid()
      modifies this`elemCount, this`chains, buckets
      ensures Valid() && elemCount == 0 && NodeSet(chains) == {} && Contents() == map[]
    {
      var i := 0;
      while i < buckets.Length
        invariant 0 <= i <= buckets.Length
        invariant forall k :: 0 <= k < i ==> buckets[k] == null
        modifies buckets
      {
        buckets[i] := null;
        i := i + 1;
      }
      elemCount := 0;
      chains := Empty(bucketCount);
      EmptyFlat(chains);
    }

    /** `clear`. */
    method Clear()
      requires Valid()
      modifies this`buckets, this`bucketCount, this`elemCount, this`chains, this`relinked, buckets, NodeSet(chains)`next
      ensures Valid() && Contents() == map[] && elemCount == 0 && relinked == old(relinked)
      ensures bucketCount == (if old(bucketCount) > 8 then 8 else old(bucketCount))
      ensures NodeSet(chains) == {} && (buckets == old(buckets) || fresh(buckets))
    {
      assert MIN_BUCKETS > 0;
      hide *;
      Wipe();
      if bucketCount > MIN_BUCKETS {
        Rehash(MIN_BUCKETS);
      }
    }

    // ----- iteration

    /** Where chain `i`, place `j` comes in the iteration. */
    ghost function Rank(i: nat, j: nat): nat
      requires i < |chains|
      reads this
    {
      |Flat(chains[..i])| + j
    }

    lemma RankAt(i: nat, j: nat)
      requires i < |chains| && j < |chains[i]|
      ensures Rank(i, j) < |Flat(chains)| && Flat(chains)[Rank(i, j)] == chains[i][j]
    {
      FlatAt(chains, i);
    }

    lemma RankNext(i: nat)
      requires i < |chains|
      ensures Rank(i, |chains[i]|) == |Flat(chains[..i + 1])|
      ensures i + 1 < |chains| ==> Rank(i, |chains[i]|) == Rank(i + 1, 0)
    {
      FlatAt(chains[..i + 1], i);
      assert chains[..i + 1][..i] == chains[..i];
      assert chains[..i + 1][i + 1..] == [];
      assert chains[..i + 1][i] == chains[i];
    }

    /** The iterator stands at position `p` of the iteration, or at the end. */
    ghost predicate At(i: nat, node: HashNode?, p: nat)
      reads this
    {
      if node == null then i == |chains| && p == |Flat(chains)|
      else i < |chains| && exists j :: 0 <= j < |chains[i]| && chains[i][j] == node && p == Rank(i, j)
    }

    lemma AtIs(i: nat, node: HashNode?, p: nat, j: nat)
      requires node == null ==> i == |chains| && p == |Flat(chains)|
      requires node != null ==> i < |chains| && j < |chains[i]| && chains[i][j] == node && p == Rank(i, j)
      ensures At(i, node, p)
    {
    }

    /** `begin`. */
    method Begin() returns (i: nat, node: HashNode?)
      requires Valid()
      ensures Valid() && At(i, node, 0)
    {
      i := 0;
      while i < bucketCount
        invariant 0 <= i <= bucketCount && Flat(chains[..i]) == []
      {
        if buckets[i] != null {
          node := buckets[i];
          assert chains[i][0] == node && Rank(i, 0) == 0;
          return;
        }
        RankNext(i);
        i := i + 1;
      }
      assert chains[..i] == chains;
      node := null;
    }

    /** `advance`. */
    method Advance(i0: nat, node0: HashNode?, ghost p: nat) returns (i: nat, node: HashNode?)
      requires Valid() && At(i0, node0, p)
      ensures Valid() && At(i, node, if node0 == null then p else p + 1)
    {
      if node0 == null {
        return i0, null;   // past the end it stays
      }
      hide *;
      Sizes();
      ghost var j := PlaceOf(i0, node0, p);
      Follow(i0, j);
      if node0.next != null {
        AtIs(i0, node0.next, p + 1, j + 1);
        return i0, node0.next;
      }
      i, node := SkipEmpty(i0, p + 1);
    }

    /** The first node of a later bucket than `i0`. */
    method SkipEmpty(i0: nat, ghost p: nat) returns (i: nat, node: HashNode?)
      requires Valid() && i0 < |chains| && p == Rank(i0, |chains[i0]|)
      ensures Valid() && At(i, node, p)
    {
      hide *;
      Sizes();
      i, node := i0, null;
      while i + 1 < bucketCount
        invariant Valid() && i < |chains| && p == Rank(i, |chains[i]|)
      {
        RankNext(i);
        i := i + 1;
        Head(i);
        if buckets[i] != null {
          AtIs(i, buckets[i], p, 0);
          return i, buckets[i];
        }
      }
      RankNext(i);
      LastChain(i);
      AtIs(|chains|, null, p, 0);
      return bucketCount, null;
    }

    lemma Sizes()
      requires Valid()
      ensures |chains| == bucketCount == buckets.Length > 0
    {
    }

    lemma PlaceOf(i: nat, node: HashNode, p: nat) returns (j: nat)
      requires At(i, node, p)
      ensures i < |chains| && j < |chains[i]| && chains[i][j] == node && p == Rank(i, j)
    {
      j :| 0 <= j < |chains[i]| && chains[i][j] == node && p == Rank(i, j);
    }

    lemma Follow(i: nat, j: nat)
      requires Valid() && i < |chains| && j < |chains[i]|
      ensures chains[i][j].next == if j + 1 < |chains[i]| then chains[i][j + 1] else null
      ensures Rank(i, j + 1) == Rank(i, j) + 1
    {
      LinkAt(chains[i], buckets[i]);
    }

    lemma Head(i: nat)
      requires Valid() && i < |chains| == buckets.Length
      ensures buckets[i] == if chains[i] == [] then null else chains[i][0]
    {
    }

    lemma LastChain(i: nat)
      requires i + 1 == |chains|
      ensures chains[..i + 1] == chains
    {
    }

    lemma Stands(i: nat, node: HashNode?, p: nat)
      requires At(i, node, p)
      ensures forall visited :: |visited| == p && visited <= Flat(chains) ==> Stood(Flat(chains), visited, node)
    {
      if node != null {
        var j :| 0 <= j < |chains[i]| && chains[i][j] == node && p == Rank(i, j);
        RankAt(i, j);
      }
    }

    /** The buckets follow one another. */
    lemma IterationAscends()
      requires Valid()
      ensures bucketCount > 0 && Ascending(Flat(chains), hash, bucketCount)
    {
      BucketsByHash();
      FlatAscends(chains, hash, bucketCount, 0);
    }

    /** A loop from begin() to end(). */
    method Iterate() returns (visited: seq<HashNode>)
      requires Valid()
      ensures visited == Flat(chains) && bucketCount > 0 && Ascending(visited, hash, bucketCount)
    {
      hide *;
      IterationAscends();
      ghost var flat := Flat(chains);
      var i, node := Begin();
      Stands(i, node, 0);
      visited := [];
      while node != null
        invariant Valid() && At(i, node, |visited|) && Stood(flat, visited, node)
        decreases |flat| - |visited|
      {
        Onwards(flat, visited, node);
        visited := visited + [node];
        i, node := Advance(i, node, |visited| - 1);
        Stands(i, node, |visited|);
      }
      Over(flat, visited);
    }

    /** The iteration order lists every binding of the map exactly once. */
    lemma IterationListsMap()
      requires Valid()
      ensures |Flat(chains)| == |Contents()| == elemCount
      ensures forall n :: n in Flat(chains) ==> n.key in Contents() && Contents()[n.key] == n.value
      ensures forall p, q :: 0 <= p < q < |Flat(chains)| ==> Flat(chains)[p].key != Flat(chains)[q].key
    {
      Count();
      forall p, q | 0 <= p < q < |Flat(chains)|
        ensures Flat(chains)[p].key != Flat(chains)[q].key
      {
        var M := Nodes(chains);
        assert Flat(chains)[p] in M && Flat(chains)[q] in M;
        NoRepeat(Flat(chains), p, q);
      }
    }
  }
}
