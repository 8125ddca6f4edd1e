/** 32-bit heap words: boundary tags, and the bytes of a word. */
module Words {

  type Word = w: int | 0 <= w < 0x1_0000_0000

  /** PACK for a block of `size` words: the size in bytes with the allocated bit in bit 0. */
  function Pack(size: nat, alloc: bool): Word
    requires size < 0x3FFF_FFFF
  {
    4 * size + if alloc then 1 else 0
  }

  /** GET_SIZE, in words: the low three bits masked off. */
  function GetSize(w: Word): nat {
    2 * (w / 8)
  }

  function GetAlloc(w: Word): bool {
    w % 2 == 1
  }

  lemma Unpack(size: nat, alloc: bool)
    requires size < 0x3FFF_FFFF && size % 2 == 0
    ensures GetSize(Pack(size, alloc)) == size && GetAlloc(Pack(size, alloc)) == alloc
  {
    DivMod(size / 2, Pack(size, alloc), if alloc then 1 else 0);
  }

  lemma DivMod(k: nat, w: nat, a: nat)
    requires w == 8 * k + a && a <= 1
    ensures w / 8 == k && w % 2 == a
  {
    assert w / 8 == k;
    Parity(4 * k);
    assert w == 2 * (4 * k) + a;
  }

  lemma Parity(j: int)
    ensures (2 * j) % 2 == 0 && (2 * j + 1) % 2 == 1
  {
  }

  /** Bitwise and, one bit after the other. */
  function And(a: nat, b: nat): nat {
    if a == 0 || b == 0 then 0
    else 2 * And(a / 2, b / 2) + if a % 2 == 1 && b % 2 == 1 then 1 else 0
  }

  function Or(a: nat, b: nat): nat
    decreases a + b
  {
    if a == 0 && b == 0 then 0
    else 2 * Or(a / 2, b / 2) + if a % 2 == 1 || b % 2 == 1 then 1 else 0
  }

  lemma AndStep(a: nat, b: nat)
    ensures And(2 * a, 2 * b) == 2 * And(a, b) == And(2 * a + 1, 2 * b)
    ensures And(2 * a, 2 * b + 1) == 2 * And(a, b) && And(2 * a + 1, 2 * b + 1) == 2 * And(a, b) + 1
  {
    assert 2 * a / 2 == a && 2 * b / 2 == b && (2 * a + 1) / 2 == a && (2 * b + 1) / 2 == b;
  }

  /** `n` ones. */
  function Ones(n: nat): nat {
    if n == 0 then 0 else 2 * Ones(n - 1) + 1
  }

  lemma {:induction false} AndOnes(a: nat, n: nat)
    requires a <= Ones(n)
    ensures And(a, Ones(n)) == a
  {
    if n > 0 {
      AndOnes(a / 2, n - 1);
      AndStep(a / 2, Ones(n - 1));
      hide And;
      assert a == 2 * (a / 2) || a == 2 * (a / 2) + 1;
    }
  }

  lemma {:induction false} OrZero(a: nat)
    ensures Or(a, 0) == a
  {
    if a > 0 {
      OrZero(a / 2);
    }
  }

  lemma MaskOnes()
    ensures 8 * Ones(29) == 0xFFFF_FFF8
  {
    assert Ones(8) == 0xFF;
    assert Ones(16) == 0xFFFF;
    assert Ones(24) == 0xFF_FFFF;
  }

  /** Masking off the low three bits. */
  lemma AndHigh(w: Word)
    ensures And(w, 0xFFFF_FFF8) == 8 * (w / 8)
  {
    MaskOnes();
    var q := w / 8;
    hide And, Ones;
    AndOnes(q, 29);
    AndDouble(w, 4 * Ones(29));
    AndDouble(w / 2, 2 * Ones(29));
    AndDouble(w / 2 / 2, Ones(29));
    assert w / 2 / 2 / 2 == q;
  }

  lemma AndDouble(a: nat, m: nat)
    ensures And(a, 2 * m) == 2 * And(a / 2, m)
  {
    AndStep(a / 2, m);
    assert a == 2 * (a / 2) || a == 2 * (a / 2) + 1;
    hide And;
  }

  /** The masking and or-ing of the source: GET_SIZE is `& ~0x7`, GET_ALLOC is `& 0x1`, and PACK is
      `size | alloc`. */
  lemma TagBits(w: Word, size: nat, alloc: bool)
    requires size < 0x3FFF_FFFF
    ensures And(w, 0xFFFF_FFF8) == 4 * GetSize(w)
    ensures And(w, 1) == if GetAlloc(w) then 1 else 0
    ensures Or(4 * size, if alloc then 1 else 0) == Pack(size, alloc)
  {
    AndHigh(w);
    OrZero(2 * size);
    assert 4 * size / 2 == 2 * size && 4 * size % 2 == 0;
  }

  /** Byte `i` of a word stored least significant byte first. */
  function ByteOf(w: Word, i: nat): nat
    requires i < 4
  {
    match i
    case 0 => w % 256
    case 1 => w / 256 % 256
    case 2 => w / 256 / 256 % 256
    case 3 => w / 256 / 256 / 256
  }

  /** The bytes of a word are its digits to base 256, the least significant first. */
  lemma BytesOfWord(w: Word)
    ensures w == ByteOf(w, 0) + 256 * ByteOf(w, 1) + 65536 * ByteOf(w, 2) + 16777216 * ByteOf(w, 3)
    ensures forall i: nat :: i < 4 ==> ByteOf(w, i) < 256
  {
  }

  function FromBytes(b0: nat, b1: nat, b2: nat, b3: nat): (w: Word)
    requires b0 < 256 && b1 < 256 && b2 < 256 && b3 < 256
    ensures ByteOf(w, 0) == b0 && ByteOf(w, 1) == b1 && ByteOf(w, 2) == b2 && ByteOf(w, 3) == b3
  {
    b0 + 256 * (b1 + 256 * (b2 + 256 * b3))
  }

  /** The word after the first `r` bytes of `dst` have been overwritten by those of `src`. */
  function Blend(src: Word, dst: Word, r: nat): (w: Word)
    requires r < 4
    ensures forall i :: 0 <= i < r ==> ByteOf(w, i) == ByteOf(src, i)
    ensures forall i :: r <= i < 4 ==> ByteOf(w, i) == ByteOf(dst, i)
  {
    FromBytes(if 0 < r then ByteOf(src, 0) else ByteOf(dst, 0),
              if 1 < r then ByteOf(src, 1) else ByteOf(dst, 1),
              if 2 < r then ByteOf(src, 2) else ByteOf(dst, 2),
              ByteOf(dst, 3))
  }

  type Byte = b: nat | b < 256

  /** The word with byte `i` overwritten. */
  function SetByte(w: Word, i: nat, b: Byte): (v: Word)
    requires i < 4
    ensures forall j: nat :: j < 4 ==> ByteOf(v, j) == if j == i then b else ByteOf(w, j)
  {
    FromBytes(if i == 0 then b else ByteOf(w, 0), if i == 1 then b else ByteOf(w, 1),
              if i == 2 then b else ByteOf(w, 2), if i == 3 then b else ByteOf(w, 3))
  }

  /** Byte `a` of a memory of words. */
  function ByteAt(m: seq<Word>, a: nat): nat
    requires a / 4 < |m|
  {
    ByteOf(m[a / 4], a % 4)
  }

  /** The words of a byte copy of `n` bytes between word addresses: whole words, then the low
      bytes of a last one. */
  ghost predicate Copied(before: seq<Word>, after: seq<Word>, dst: nat, src: nat, n: nat) {
    && |before| == |after| && dst + (n + 3) / 4 <= |before| && src + (n + 3) / 4 <= |before|
    && (forall k :: dst <= k < dst + n / 4 ==> after[k] == before[src + (k - dst)])
    && (n % 4 != 0 ==> after[dst + n / 4] == Blend(before[src + n / 4], before[dst + n / 4], n % 4))
  }

  /** The first `n` bytes at word `q` of `after` are those at word `p` of `before`. */
  ghost predicate SameBytes(before: seq<Word>, p: int, after: seq<Word>, q: int, n: nat) {
    forall a: nat :: 4 * q <= a < 4 * q + n && a / 4 < |after| && 0 <= (4 * p + (a - 4 * q)) / 4 < |before|
      ==> ByteAt(after, a) == ByteAt(before, 4 * p + (a - 4 * q))
  }

  lemma CopiedByte(before: seq<Word>, after: seq<Word>, dst: nat, src: nat, n: nat, i: nat)
    requires Copied(before, after, dst, src, n) && i < n
    ensures ByteAt(after, 4 * dst + i) == ByteAt(before, 4 * src + i)
  {
    assert (4 * dst + i) / 4 == dst + i / 4 && (4 * dst + i) % 4 == i % 4;
    assert (4 * src + i) / 4 == src + i / 4 && (4 * src + i) % 4 == i % 4;
    if i / 4 < n / 4 {
      assert after[dst + i / 4] == before[src + i / 4];
    } else {
      assert i / 4 == n / 4 && i % 4 < n % 4;
    }
  }

  lemma CopiedBytes(before: seq<Word>, after: seq<Word>, dst: nat, src: nat, n: nat)
    requires Copied(before, after, dst, src, n)
    ensures SameBytes(before, src, after, dst, n)
  {
    forall a: nat | 4 * dst <= a < 4 * dst + n && a / 4 < |after| && 0 <= (4 * src + (a - 4 * dst)) / 4 < |before|
      ensures ByteAt(after, a) == ByteAt(before, 4 * src + (a - 4 * dst))
    {
      CopiedByte(before, after, dst, src, n, a - 4 * dst);
    }
  }

  lemma SameBytesLess(before: seq<Word>, p: int, after: seq<Word>, q: int, n: nat, n': nat)
    requires SameBytes(before, p, after, q, n) && n' <= n
    ensures SameBytes(before, p, after, q, n')
  {
  }

  /** Only the words under the bytes matter. */
  lemma SameBytesVia(m0: seq<Word>, m1: seq<Word>, p: int, m2: seq<Word>, m3: seq<Word>, q: int, n: nat)
    requires |m0| == |m1| && |m2| == |m3|
    requires SameBytes(m1, p, m2, q, n)
    requires forall k :: p <= k < p + (n + 3) / 4 && 0 <= k < |m0| ==> m1[k] == m0[k]
    requires forall k :: q <= k < q + (n + 3) / 4 && 0 <= k < |m2| ==> m3[k] == m2[k]
    ensures SameBytes(m0, p, m3, q, n)
  {
    forall a: nat | 4 * q <= a < 4 * q + n && a / 4 < |m3| && 0 <= (4 * p + (a - 4 * q)) / 4 < |m0|
      ensures ByteAt(m3, a) == ByteAt(m0, 4 * p + (a - 4 * q))
    {
      assert ByteAt(m2, a) == ByteAt(m1, 4 * p + (a - 4 * q));
      assert q <= a / 4 < q + (n + 3) / 4;
      assert p <= (4 * p + (a - 4 * q)) / 4 < p + (n + 3) / 4;
    }
  }
}
