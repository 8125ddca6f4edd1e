/** Remainders, as the circular buffers use them. */
module Modular {

  lemma AtLeast(x: int, m: int)
    requires x >= 1 && m > 0
    ensures x * m >= m
  {
    assert (x - 1) * m >= 0;
  }

  /** Zero is the only multiple of `m` closer to zero than `m`. */
  lemma SmallMultiple(d: int, m: int, x: int)
    requires m > 0 && d * m == x && -m < x < m
    ensures d == 0
  {
    if d >= 1 {
      AtLeast(d, m);
    } else if d <= -1 {
      AtLeast(-d, m);
    }
  }

  /** The remainder is the only number below `m` that differs from `a` by a multiple of it. */
  lemma RemainderIs(a: int, m: int, q: int, r: int)
    requires m > 0 && a == q * m + r && 0 <= r < m
    ensures a % m == r
  {
    var q', r' := a / m, a % m;
    assert a == q' * m + r';
    SmallMultiple(q - q', m, r' - r);
  }

  lemma NextIndex(k: int, m: int)
    requires m > 0
    ensures (k % m + 1) % m == (k + 1) % m
  {
    var q, r := k / m, k % m;
    assert k == q * m + r;
    if r + 1 == m {
      assert (q + 1) * m == q * m + m;
      RemainderIs(k + 1, m, q + 1, 0);
      RemainderIs(r + 1, m, 1, 0);
    } else {
      RemainderIs(k + 1, m, q, r + 1);
      RemainderIs(r + 1, m, 0, r + 1);
    }
  }

  /** Fewer than `m` apart, two places of a circular buffer are different. */
  lemma Apart(k: int, j: int, m: int)
    requires m > 0 && k < j < k + m
    ensures k % m != j % m
  {
    var q, q', r, r' := k / m, j / m, k % m, j % m;
    assert k == q * m + r && j == q' * m + r';
    if r == r' {
      SmallMultiple(q' - q, m, j - k);
    }
  }
}
