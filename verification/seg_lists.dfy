/** The segregated free lists (flsp.c): size classes, and doubly linked lists threaded through the
    first two payload words of free blocks -- PRED at word `p`, SUCC at word `p + 1`, 0 for null. */
module SegLists {
  import opened Words

  const LISTS: nat := 15

  // ----- size classes

  function Pow2(i: nat): nat {
    if i == 0 then 1 else 2 * Pow2(i - 1)
  }

  /** The first list from `i` on whose blocks may have `n` words: up to 32 << i bytes. */
  function ClassFrom(n: nat, i: nat): (c: nat)
    requires i < LISTS
    ensures i <= c < LISTS
    decreases LISTS - i
  {
    if i == LISTS - 1 || n <= 8 * Pow2(i) then i else ClassFrom(n, i + 1)
  }

  function ClassOf(n: nat): nat {
    ClassFrom(n, 0)
  }

  lemma {:induction false} Pow2Monotone(i: nat, j: nat)
    requires i <= j
    ensures Pow2(i) <= Pow2(j)
  {
    if i < j {
      Pow2Monotone(i, j - 1);
    }
  }

  lemma {:induction false} ClassFromLeast(n: nat, i: nat, j: nat)
    requires i <= j < LISTS - 1
    ensures ClassFrom(n, i) <= j <==> n <= 8 * Pow2(j)
    decreases j - i
  {
    Pow2Monotone(i, j);
    if i < j {
      if n > 8 * Pow2(i) {
        ClassFromLeast(n, i + 1, j);
      }
    }
  }

  /** The size classes in bytes: each list but the last takes sizes up to twice those of the one before. */
  lemma ClassBounds(n: nat)
    ensures ClassOf(n) ==
            if 4 * n <= 32 then 0
            else if 4 * n <= 64 then 1
            else if 4 * n <= 128 then 2
            else if 4 * n <= 256 then 3
            else if 4 * n <= 512 then 4
            else if 4 * n <= 1024 then 5
            else if 4 * n <= 2048 then 6
            else if 4 * n <= 4096 then 7
            else if 4 * n <= 8192 then 8
            else if 4 * n <= 16384 then 9
            else if 4 * n <= 32768 then 10
            else if 4 * n <= 65536 then 11
            else if 4 * n <= 131072 then 12
            else if 4 * n <= 262144 then 13
            else 14
  {
    assert Pow2(0) == 1;
    assert Pow2(1) == 2;
    assert Pow2(2) == 4;
    assert Pow2(3) == 8;
    assert Pow2(4) == 16;
    assert Pow2(5) == 32;
    assert Pow2(6) == 64;
    assert Pow2(7) == 128;
    assert Pow2(8) == 256;
    assert Pow2(9) == 512;
    assert Pow2(10) == 1024;
    assert Pow2(11) == 2048;
    assert Pow2(12) == 4096;
    assert Pow2(13) == 8192;
    hide ClassFrom, Pow2;
    ClassFromLeast(n, 0, 0);
    ClassFromLeast(n, 0, 1);
    ClassFromLeast(n, 0, 2);
    ClassFromLeast(n, 0, 3);
    ClassFromLeast(n, 0, 4);
    ClassFromLeast(n, 0, 5);
    ClassFromLeast(n, 0, 6);
    ClassFromLeast(n, 0, 7);
    ClassFromLeast(n, 0, 8);
    ClassFromLeast(n, 0, 9);
    ClassFromLeast(n, 0, 10);
    ClassFromLeast(n, 0, 11);
    ClassFromLeast(n, 0, 12);
    ClassFromLeast(n, 0, 13);
  }

  /** List `j` is beyond the class of a request only if all its blocks are big enough: a bigger
      size never has a smaller class. */
  lemma ClassMonotone(n: nat, n': nat)
    requires n <= n'
    ensures ClassOf(n) <= ClassOf(n')
  {
    var j := ClassOf(n');
    if j < LISTS - 1 {
      ClassFromLeast(n', 0, j);
      ClassFromLeast(n, 0, j);
    }
  }

  // ----- lists in memory

  function First(s: seq<int>): int {
    if s == [] then 0 else s[0]
  }

  function PredIn(s: seq<int>, k: int): int
    requires 0 <= k < |s|
  {
    if k == 0 then 0 else s[k - 1]
  }

  function SuccIn(s: seq<int>, k: int): int
    requires 0 <= k < |s|
  {
    if k + 1 == |s| then 0 else s[k + 1]
  }

  ghost predicate NodeAt(m: seq<Word>, s: seq<int>, k: int)
    requires 0 <= k < |s|
  {
    && 0 < s[k] && s[k] + 1 < |m| && s[k] % 2 == 0
    && m[s[k]] == PredIn(s, k) && m[s[k] + 1] == SuccIn(s, k)
  }

  ghost predicate Chain(m: seq<Word>, head: int, s: seq<int>) {
    && head == First(s)
    && forall k :: 0 <= k < |s| ==> NodeAt(m, s, k)
  }

  ghost predicate Chained(m: seq<Word>, heads: seq<int>, lists: seq<seq<int>>) {
    && |heads| == |lists| == LISTS
    && forall i :: 0 <= i < LISTS ==> Chain(m, heads[i], lists[i])
  }

  ghost predicate NoDuplicates(s: seq<int>) {
    forall i, j :: 0 <= i < j < |s| ==> s[i] != s[j]
  }

  /** The lists hold exactly the nodes of `cls`, each once, in the list of its class. */
  ghost predicate Indexed(cls: map<int, int>, lists: seq<seq<int>>) {
    && |lists| == LISTS
    && (forall i :: 0 <= i < LISTS ==> NoDuplicates(lists[i]))
    && (forall i, p :: 0 <= i < LISTS && p in lists[i] ==> p in cls && cls[p] == i)
    && (forall p :: p in cls ==> 0 <= cls[p] < LISTS && p in lists[cls[p]])
  }

  // ----- insertion at the head

  function InsertWords(m: seq<Word>, head: Word, p: Word): (r: seq<Word>)
    requires 0 < p && p + 1 < |m| && head < |m|
    ensures |r| == |m|
  {
    var m1 := m[p + 1 := head][p := 0];
    if head != 0 then m1[head := p] else m1
  }

  lemma InsertChain(m: seq<Word>, head: Word, s: seq<int>, p: Word)
    requires Chain(m, head, s) && NoDuplicates(s)
    requires 0 < p && p % 2 == 0 && p + 1 < |m| && p !in s
    ensures head < |m| && Chain(InsertWords(m, head, p), p, [p] + s)
  {
    assert s != [] ==> NodeAt(m, s, 0);
    var m', s' := InsertWords(m, head, p), [p] + s;
    forall k | 0 <= k < |s'|
      ensures NodeAt(m', s', k)
    {
      if k > 0 {
        assert NodeAt(m, s, k - 1) && s'[k] == s[k - 1];
      }
    }
  }

  /** The link words of node `x` are as before. */
  ghost predicate Spared(m: seq<Word>, m': seq<Word>, x: int) {
    |m'| == |m| && (0 <= x && x + 1 < |m| ==> m'[x] == m[x] && m'[x + 1] == m[x + 1])
  }

  /** Chains whose nodes are not written stay as they are. */
  lemma OtherChain(m: seq<Word>, m': seq<Word>, head: int, s: seq<int>)
    requires Chain(m, head, s)
    requires forall k :: 0 <= k < |s| ==> Spared(m, m', s[k])
    ensures Chain(m', head, s)
  {
    forall k | 0 <= k < |s|
      ensures NodeAt(m', s, k)
    {
      assert NodeAt(m, s, k) && Spared(m, m', s[k]);
    }
  }

  /** Two lists have no node in common. */
  lemma ListsApart(cls: map<int, int>, lists: seq<seq<int>>, i: int, j: int, x: int)
    requires Indexed(cls, lists) && 0 <= i < LISTS && 0 <= j < LISTS && i != j
    requires x in lists[j]
    ensures x !in lists[i]
  {
    assert x in cls && cls[x] == j;
  }

  lemma InsertChained(m: seq<Word>, heads: seq<int>, lists: seq<seq<int>>, cls: map<int, int>, p: Word, i: int)
    requires Chained(m, heads, lists) && Indexed(cls, lists) && 0 <= i < LISTS
    requires 0 < p && p % 2 == 0 && p + 1 < |m| < 0x3FFF_FFFF && p !in cls
    ensures 0 <= heads[i] < |m|
    ensures Chained(InsertWords(m, heads[i], p), heads[i := p], lists[i := [p] + lists[i]])
  {
    assert Chain(m, heads[i], lists[i]);
    assert lists[i] != [] ==> NodeAt(m, lists[i], 0);
    InsertChain(m, heads[i], lists[i], p);
    var m' := InsertWords(m, heads[i], p);
    forall j | 0 <= j < LISTS && j != i
      ensures Chain(m', heads[j], lists[j])
    {
      forall k | 0 <= k < |lists[j]|
        ensures Spared(m, m', lists[j][k])
      {
        assert NodeAt(m, lists[j], k);
        ListsApart(cls, lists, i, j, lists[j][k]);
      }
      OtherChain(m, m', heads[j], lists[j]);
    }
  }

  lemma InsertIndexed(lists: seq<seq<int>>, cls: map<int, int>, p: int, i: int)
    requires Indexed(cls, lists) && 0 <= i < LISTS && p !in cls
    ensures Indexed(cls[p := i], lists[i := [p] + lists[i]])
  {
    var lists' := lists[i := [p] + lists[i]];
    assert forall x :: x in lists'[i] <==> x == p || x in lists[i];
  }

  // ----- removal

  function UnlinkWords(m: seq<Word>, p: int): (r: seq<Word>)
    requires 0 <= p && p + 1 < |m| && m[p] + 1 < |m| && m[p + 1] < |m|
    ensures |r| == |m|
  {
    var pred, succ := m[p], m[p + 1];
    var m1 := if pred != 0 then m[pred + 1 := succ] else m;
    if succ != 0 then m1[succ := pred] else m1
  }

  function UnlinkHead(m: seq<Word>, head: int, p: Word): int
    requires p + 1 < |m|
  {
    if m[p] != 0 then head else m[p + 1]
  }

  function Without(s: seq<int>, k: int): (r: seq<int>)
    requires 0 <= k < |s|
    ensures |r| == |s| - 1
    ensures forall j :: 0 <= j < |r| ==> r[j] == if j < k then s[j] else s[j + 1]
  {
    s[..k] + s[k + 1..]
  }

  /** Unlinking `s[k]` rewrites PRED of the node after it and SUCC of the node before it. */
  lemma UnlinkNode(m: seq<Word>, s: seq<int>, k: int, l: int)
    requires NoDuplicates(s) && 0 <= k < |s| && 0 <= l < |s| && l != k
    requires NodeAt(m, s, k) && NodeAt(m, s, l)
    requires m[s[k]] + 1 < |m| && m[s[k] + 1] < |m|
    requires k > 0 ==> NodeAt(m, s, k - 1)
    requires k + 1 < |s| ==> NodeAt(m, s, k + 1)
    ensures UnlinkWords(m, s[k])[s[l]] == if l == k + 1 then PredIn(s, k) else m[s[l]]
    ensures UnlinkWords(m, s[k])[s[l] + 1] == if l == k - 1 then SuccIn(s, k) else m[s[l] + 1]
  {
  }

  lemma UnlinkChain(m: seq<Word>, head: Word, s: seq<int>, k: int, p: Word)
    requires Chain(m, head, s) && NoDuplicates(s) && 0 <= k < |s| && s[k] == p
    ensures p + 1 < |m| && m[p] + 1 < |m| && m[p + 1] < |m|
    ensures Chain(UnlinkWords(m, p), UnlinkHead(m, head, p), Without(s, k))
  {
    assert NodeAt(m, s, k);
    if k > 0 {
      assert NodeAt(m, s, k - 1);
    }
    if k + 1 < |s| {
      assert NodeAt(m, s, k + 1);
    }
    var m', s' := UnlinkWords(m, p), Without(s, k);
    hide UnlinkWords;
    forall j | 0 <= j < |s'|
      ensures NodeAt(m', s', j)
    {
      var l := if j < k then j else j + 1;
      assert NodeAt(m, s, l) && s'[j] == s[l];
      UnlinkNode(m, s, k, l);
    }
  }

  lemma UnlinkChained(m: seq<Word>, heads: seq<int>, lists: seq<seq<int>>, cls: map<int, int>, p: Word, k: int)
    requires Chained(m, heads, lists) && Indexed(cls, lists)
    requires p in cls && 0 <= cls[p] < LISTS
    requires 0 <= k < |lists[cls[p]]| && lists[cls[p]][k] == p
    requires |m| < 0x3FFF_FFFF
    ensures p + 1 < |m| && m[p] + 1 < |m| && m[p + 1] < |m|
    ensures var i := cls[p];
            Chained(UnlinkWords(m, p), heads[i := UnlinkHead(m, heads[i], p)],
                    lists[i := Without(lists[i], k)])
  {
    var i := cls[p];
    var s := lists[i];
    assert Chain(m, heads[i], s);
    assert NodeAt(m, s, 0);
    UnlinkChain(m, heads[i], s, k, p);
    var m' := UnlinkWords(m, p);
    assert NodeAt(m, s, k);
    assert k > 0 ==> NodeAt(m, s, k - 1);
    assert k + 1 < |s| ==> NodeAt(m, s, k + 1);
    forall j | 0 <= j < LISTS && j != i
      ensures Chain(m', heads[j], lists[j])
    {
      forall l | 0 <= l < |lists[j]|
        ensures Spared(m, m', lists[j][l])
      {
        assert NodeAt(m, lists[j], l);
        ListsApart(cls, lists, i, j, lists[j][l]);
      }
      OtherChain(m, m', heads[j], lists[j]);
    }
  }

  lemma UnlinkIndexed(lists: seq<seq<int>>, cls: map<int, int>, p: int, k: int)
    requires Indexed(cls, lists) && p in cls && 0 <= cls[p] < LISTS
    requires 0 <= k < |lists[cls[p]]| && lists[cls[p]][k] == p
    ensures Indexed(cls - {p}, lists[cls[p] := Without(lists[cls[p]], k)])
  {
    var i := cls[p];
    var s' := Without(lists[i], k);
    forall x
      ensures x in s' <==> x in lists[i] && x != p
    {
      if x in lists[i] && x != p {
        var j :| 0 <= j < |lists[i]| && lists[i][j] == x;
        assert s'[if j < k then j else j - 1] == x;
      }
    }
  }

  /** A node is not next to its predecessor's SUCC word. */
  lemma UnlinkApart(m: seq<Word>, heads: seq<int>, lists: seq<seq<int>>, cls: map<int, int>, p: Word, k: int)
    requires Chained(m, heads, lists) && 0 <= k
    requires p in cls && 0 <= cls[p] < LISTS && k < |lists[cls[p]]| && lists[cls[p]][k] == p
    ensures p + 1 < |m| && m[p] != p - 1
  {
    var s := lists[cls[p]];
    assert Chain(m, heads[cls[p]], s);
    assert NodeAt(m, s, k);
    assert k > 0 ==> NodeAt(m, s, k - 1);
  }

  // ----- what list surgery writes

  /** `m'` differs from `m` at most in the link words of `nodes`. */
  ghost predicate LinksOnly(m: seq<Word>, m': seq<Word>, nodes: set<int>) {
    && |m| == |m'|
    && forall k :: 0 <= k < |m| && k !in nodes && k - 1 !in nodes ==> m'[k] == m[k]
  }

  lemma InsertLinksOnly(m: seq<Word>, heads: seq<int>, lists: seq<seq<int>>, cls: map<int, int>, p: Word, i: int)
    requires Chained(m, heads, lists) && Indexed(cls, lists) && 0 <= i < LISTS
    requires 0 < p && p + 1 < |m| < 0x3FFF_FFFF
    ensures 0 <= heads[i] < |m|
    ensures LinksOnly(m, InsertWords(m, heads[i], p), cls.Keys + {p})
  {
    assert Chain(m, heads[i], lists[i]);
    assert lists[i] != [] ==> NodeAt(m, lists[i], 0) && lists[i][0] in lists[i];
  }

  lemma UnlinkLinksOnly(m: seq<Word>, heads: seq<int>, lists: seq<seq<int>>, cls: map<int, int>, p: Word, k: int)
    requires Chained(m, heads, lists) && Indexed(cls, lists)
    requires p in cls && 0 <= cls[p] < LISTS
    requires 0 <= k < |lists[cls[p]]| && lists[cls[p]][k] == p
    ensures p + 1 < |m| && m[p] + 1 < |m| && m[p + 1] < |m|
    ensures LinksOnly(m, UnlinkWords(m, p), cls.Keys)
  {
    var s := lists[cls[p]];
    assert Chain(m, heads[cls[p]], s);
    assert NodeAt(m, s, k);
    assert k > 0 ==> NodeAt(m, s, k - 1) && s[k - 1] in s;
    assert k + 1 < |s| ==> NodeAt(m, s, k + 1) && s[k + 1] in s;
  }

  /** Writing no link word leaves every list as it is. */
  lemma ChainsKept(m: seq<Word>, m': seq<Word>, heads: seq<int>, lists: seq<seq<int>>, cls: map<int, int>)
    requires Chained(m, heads, lists) && Indexed(cls, lists)
    requires forall x :: x in cls ==> Spared(m, m', x)
    ensures Chained(m', heads, lists)
  {
    forall i | 0 <= i < LISTS
      ensures Chain(m', heads[i], lists[i])
    {
      assert Chain(m, heads[i], lists[i]);
      forall k | 0 <= k < |lists[i]|
        ensures Spared(m, m', lists[i][k])
      {
        assert lists[i][k] in lists[i];
      }
      OtherChain(m, m', heads[i], lists[i]);
    }
  }
}
