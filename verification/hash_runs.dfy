/** Whole runs of calls on an unordered_map of the default shape (umap_demo.h): what the resizing
    rule keeps, and what rehashing costs in total. */
module HashRuns {

  import opened HashChains
  import opened HashTable

  datatype Call = Put(key: int, value: int) | Remove(key: int) | Clear

  /** A table as its callers see it, and the nodes its rehashes have moved so far. */
  datatype Table = Table(contents: map<int, int>, buckets: nat, relinked: nat)

  const MAX_LOAD: real := 1.0

  /** What one call makes of a table; the methods of `HashTable` are specified by the same terms. */
  function Step(t: Table, c: Call): Table
    requires t.buckets > 0
  {
    match c
    case Put(k, v) =>
      var m := t.contents[k := v];
      if k in t.contents then t.(contents := m)
      else Resized(t.relinked, m, t.buckets, Grown(|m|, t.buckets, MAX_LOAD))
    case Remove(k) =>
      var m := t.contents - {k};
      if k !in t.contents then t
      else Resized(t.relinked, m, t.buckets, Shrunk(|m|, t.buckets, MAX_LOAD))
    case Clear =>
      Table(map[], if t.buckets > MIN_BUCKETS then MIN_BUCKETS else t.buckets, t.relinked)
  }

  /** A rehash to another bucket count moves every node. */
  function Resized(relinked: nat, m: map<int, int>, from: nat, to: nat): Table {
    Table(m, to, relinked + if to != from then |m| else 0)
  }

  /** Eight, doubled some number of times. */
  ghost predicate Doubled(m: nat) {
    m == MIN_BUCKETS || (m > MIN_BUCKETS && m % 2 == 0 && Doubled(m / 2))
  }

  /** Load at most 1; beyond the smallest size, at least a quarter. */
  ghost predicate Snug(e: nat, m: nat) {
    Doubled(m) && e <= m && (m == MIN_BUCKETS || 4 * e >= m)
  }

  lemma {:induction false} DoubledIsMultiple(m: nat)
    requires Doubled(m)
    ensures m >= MIN_BUCKETS && m % 4 == 0
    decreases m
  {
    if m > MIN_BUCKETS {
      DoubledIsMultiple(m / 2);
    }
  }

  /** What the calls so far have put by for the next rehash. */
  function Credit(e: nat, m: nat): int {
    if 2 * e >= m then 2 * e - m else if m <= MIN_BUCKETS then 0 else m / 2 - e
  }

  lemma Quotient(a: real, b: real, c: real)
    requires b > 0.0
    ensures (a / b < c <==> a < c * b) && (a / b > c <==> a > c * b)
  {
    var q := a / b;
    assert q * b == a;
    if q < c {
      assert (c - q) * b > 0.0;
    } else if q > c {
      assert (q - c) * b > 0.0;
    }
  }

  /** The two load tests of the default table, in whole numbers. */
  lemma LoadTests(e: nat, m: nat)
    requires m > 0
    ensures e as real / m as real > MAX_LOAD <==> e > m
    ensures e as real / m as real < MAX_LOAD / 4.0 <==> 4 * e < m
  {
    Quotient(e as real, m as real, 1.0);
    Quotient(e as real, m as real, 0.25);
  }

  /** The resizing rule of the default table: twice the buckets once there are more elements, half of them,
      but no fewer than 8, once less than a quarter is used. */
  lemma DefaultRule(e: nat, m: nat)
    requires m > 0
    ensures Grown(e, m, MAX_LOAD) == if e > m then 2 * m else m
    ensures Shrunk(e, m, MAX_LOAD) == if e == 0 || 4 * e >= m || m <= 8 then m else if m < 16 then 8 else m / 2
  {
    LoadTests(e, m);
  }

  /** An insertion costs at most three relinks, counting what it puts by. */
  lemma PutKeeps(e: nat, m: nat)
    requires Snug(e, m)
    ensures m > 0
    ensures var m' := Grown(e + 1, m, MAX_LOAD);
            && Snug(e + 1, m')
            && (if m' != m then e + 1 else 0) + Credit(e + 1, m') <= Credit(e, m) + 3
  {
    DoubledIsMultiple(m);
    LoadTests(e + 1, m);
    assert Doubled(2 * m);
  }

  lemma RemoveKeeps(e: nat, m: nat)
    requires Snug(e, m) && e > 0
    ensures m > 0
    ensures var m' := Shrunk(e - 1, m, MAX_LOAD);
            && Snug(e - 1, m')
            && (if m' != m then e - 1 else 0) + Credit(e - 1, m') <= Credit(e, m) + 3
  {
    DoubledIsMultiple(m);
    LoadTests(e - 1, m);
    if m > MIN_BUCKETS {
      DoubledIsMultiple(m / 2);
    }
  }

  lemma ClearKeeps(e: nat, m: nat)
    requires Snug(e, m)
    ensures Snug(0, MIN_BUCKETS) && Credit(0, MIN_BUCKETS) <= Credit(e, m)
    ensures m <= MIN_BUCKETS ==> m == MIN_BUCKETS
  {
  }

  lemma Sound(e: nat, m: nat)
    requires Snug(e, m)
    ensures m > 0 && Credit(e, m) >= 0
  {
  }

  ghost predicate Invariant(t: Table) {
    Snug(|t.contents|, t.buckets)
  }

  lemma Size(m: map<int, int>, k: int, v: int)
    ensures |m[k := v]| == if k in m then |m| else |m| + 1
    ensures |m - {k}| == if k in m then |m| - 1 else |m|
  {
    assert m[k := v].Keys == m.Keys + {k};
    assert (m - {k}).Keys == m.Keys - {k};
    assert |m[k := v].Keys| == |m[k := v]| && |(m - {k}).Keys| == |m - {k}|;
  }

  /** `t'` is sound, and the call that led to it was paid for by three relinks. */
  ghost predicate Paid(t: Table, t': Table) {
    && Invariant(t')
    && t'.relinked + Credit(|t'.contents|, t'.buckets) <= t.relinked + Credit(|t.contents|, t.buckets) + 3
  }

  lemma PutPaid(t: Table, k: int, v: int)
    requires Invariant(t) && t.buckets > 0
    ensures Paid(t, Step(t, Put(k, v)))
  {
    Size(t.contents, k, v);
    hide Grown, Snug, Credit;
    if k !in t.contents {
      PutKeeps(|t.contents|, t.buckets);
    }
  }

  lemma RemovePaid(t: Table, k: int)
    requires Invariant(t) && t.buckets > 0
    ensures Paid(t, Step(t, Remove(k)))
  {
    Size(t.contents, k, 0);
    hide Shrunk, Snug, Credit;
    if k in t.contents {
      RemoveKeeps(|t.contents|, t.buckets);
    }
  }

  lemma StepKeeps(t: Table, c: Call)
    requires Invariant(t)
    ensures t.buckets > 0 && Paid(t, Step(t, c))
  {
    Sound(|t.contents|, t.buckets);
    match c
    case Put(k, v) => PutPaid(t, k, v);
    case Remove(k) => RemovePaid(t, k);
    case Clear =>
      hide Snug, Credit;
      ClearKeeps(|t.contents|, t.buckets);
  }

  /** The table after a run of calls from the default one. */
  ghost function Run(calls: seq<Call>): Table
    decreases |calls|
  {
    if calls == [] then Table(map[], MIN_BUCKETS, 0)
    else
      var t := Run(calls[..|calls| - 1]);
      if t.buckets > 0 then Step(t, calls[|calls| - 1]) else t
  }

  lemma {:induction false} RunPaid(calls: seq<Call>)
    ensures var t := Run(calls);
            Invariant(t) && t.relinked + Credit(|t.contents|, t.buckets) <= 3 * |calls|
    decreases |calls|
  {
    if calls != [] {
      RunPaid(calls[..|calls| - 1]);
      StepKeeps(Run(calls[..|calls| - 1]), calls[|calls| - 1]);
      hide Step, Credit, Snug;
    }
  }

  /** Rehashing is amortised: over any run of n calls it moves at most 3n nodes, and the table is never
      overfull nor, beyond its smallest size, less than a quarter full. */
  lemma AmortisedRehash(calls: seq<Call>)
    ensures Run(calls).relinked <= 3 * |calls|
    ensures |Run(calls).contents| <= Run(calls).buckets
    ensures Run(calls).buckets == 8 || 4 * |Run(calls).contents| >= Run(calls).buckets
  {
    RunPaid(calls);
    hide Run;
  }

  // ----- the class takes these steps

  ghost function View(h: HashTable): Table
    requires h.Valid()
    reads h, h.buckets, Flat(h.chains)`next, NodeSet(h.chains)`value
  {
    Table(h.Contents(), h.bucketCount, h.relinked)
  }

  lemma PutIs(t: Table, k: int, v: int, t': Table)
    requires t.buckets > 0 && t'.contents == t.contents[k := v]
    requires k in t.contents ==> t'.buckets == t.buckets && t'.relinked == t.relinked
    requires k !in t.contents ==>
               && t'.buckets == Grown(|t'.contents|, t.buckets, MAX_LOAD)
               && t'.relinked == t.relinked + if t'.buckets != t.buckets then |t'.contents| else 0
    ensures t' == Step(t, Put(k, v))
  {
  }

  lemma RemoveIs(t: Table, k: int, t': Table)
    requires t.buckets > 0 && t'.contents == t.contents - {k}
    requires k !in t.contents ==> t'.buckets == t.buckets && t'.relinked == t.relinked
    requires k in t.contents ==>
               && t'.buckets == Shrunk(|t'.contents|, t.buckets, MAX_LOAD)
               && t'.relinked == t.relinked + if t'.buckets != t.buckets then |t'.contents| else 0
    ensures t' == Step(t, Remove(k))
  {
    assert k !in t.contents ==> t.contents - {k} == t.contents;
  }

  method Perform(h: HashTable, c: Call)
    requires h.Valid() && h.maxLoad == MAX_LOAD
    modifies h`buckets, h`bucketCount, h`elemCount, h`chains, h`relinked, h.buckets, NodeSet(h.chains)
    ensures h.Valid() && old(View(h)).buckets > 0 && View(h) == Step(old(View(h)), c)
    ensures forall n :: n in NodeSet(h.chains) ==> n in old(NodeSet(h.chains)) || fresh(n)
    ensures h.buckets == old(h.buckets) || fresh(h.buckets)
  {
    h.Sizes();
    ghost var t := View(h);
    match c
    case Put(k, v) =>
      h.Insert(k, v);
      h.Count();
      hide *;
      ViewIs(h);
      PutIs(t, k, v, View(h));
    case Remove(k) =>
      var _ := h.Erase(k);
      h.Count();
      hide *;
      ViewIs(h);
      RemoveIs(t, k, View(h));
    case Clear =>
      h.Clear();
  }

  lemma ViewIs(h: HashTable)
    requires h.Valid()
    ensures View(h) == Table(h.Contents(), h.bucketCount, h.relinked)
  {
  }

  /** The default table, driven by any calls under any hash function. */
  method Drive(calls: seq<Call>, hash: int -> nat) returns (h: HashTable)
    ensures fresh(h) && fresh(h.buckets) && forall n :: n in NodeSet(h.chains) ==> fresh(n)
    ensures h.Valid() && h.maxLoad == MAX_LOAD && View(h) == Run(calls) && h.relinked <= 3 * |calls|
    decreases |calls|
  {
    if calls == [] {
      h := new HashTable(MIN_BUCKETS, MAX_LOAD, hash);
    } else {
      h := Drive(calls[..|calls| - 1], hash);
      hide Step;
      Perform(h, calls[|calls| - 1]);
      AmortisedRehash(calls);
    }
  }
}
