/**
  The arithmetic of naturally aligned blocks of physical memory. A block of order `k` is `2^k` frames
  of 4KiB long and starts at a multiple of its own size.
*/
module Blocks {
  import opened Numbers

  const MAX_ORDER: nat := 12

  function Pow2(k: nat): (r: nat)
    ensures 1 <= r
  {
    if k == 0 then 1 else 2 * Pow2(k - 1)
  }

  lemma {:induction false} Pow2Grows(j: nat, k: nat)
    requires j <= k
    ensures Pow2(j) <= Pow2(k) && (j < k ==> Pow2(j) < Pow2(k))
    decreases k - j
  {
    if j < k {
      Pow2Grows(j, k - 1);
    }
  }

  function Size(k: nat): (r: nat)
    ensures FRAME <= r
  {
    Pow2(k) * FRAME
  }

  predicate Aligned(a: nat, k: nat) {
    a % Size(k) == 0
  }

  /** The largest multiple of `m` up to `a`. */
  function FloorTo(a: nat, m: nat): (r: nat)
    requires 0 < m
    ensures r == a / m * m && r <= a < r + m
  {
    var q: nat := a / m;
    assert a == q * m + a % m;
    q * m
  }

  /** The start of the block of order `k` that contains address `a`. */
  function BlockOf(a: nat, k: nat): nat {
    FloorTo(a, Size(k))
  }

  predicate InBlock(a: nat, start: nat, k: nat) {
    start <= a < start + Size(k)
  }

  /** `buddy_of`: the other half of the block of the next order. `BuddyIsXor` proves it equal to the source's formula. */
  function BuddyOf(start: nat, order: nat): nat {
    if start / Size(order) % 2 == 0 then start + Size(order) else start - Size(order)
  }

  lemma ProductGap(p: nat, q: nat, m: nat)
    requires p < q
    ensures p * m + m <= q * m
  {
    assert (p + 1) * m <= q * m;
  }

  lemma DivUnique(a: nat, m: nat, q: nat)
    requires 0 < m && q * m <= a < q * m + m
    ensures a / m == q && a % m == a - q * m
  {
    var d := a / m;
    assert a == d * m + a % m;
    if d < q {
      ProductGap(d, q, m);
    } else if q < d {
      ProductGap(q, d, m);
    }
  }

  lemma BlockOfContains(a: nat, k: nat)
    ensures Aligned(BlockOf(a, k), k) && InBlock(a, BlockOf(a, k), k)
  {
    DivUnique(BlockOf(a, k), Size(k), a / Size(k));
  }

  lemma BlockOfUnique(a: nat, b: nat, k: nat)
    requires Aligned(b, k) && InBlock(a, b, k)
    ensures BlockOf(a, k) == b
  {
    DivUnique(a, Size(k), b / Size(k));
  }

  lemma BlockOfAligned(b: nat, k: nat)
    requires Aligned(b, k)
    ensures BlockOf(b, k) == b
  {
  }

  /** Blocks nest: a block of smaller order lies in exactly one block of each larger order. */
  lemma {:induction false} AlignedBelow(b: nat, j: nat, k: nat)
    requires j <= k && Aligned(b, k)
    ensures Aligned(b, j)
    decreases k - j
  {
    if j < k {
      var q := b / Size(k);
      assert b == q * Size(k) == (2 * q) * Size(k - 1);
      DivUnique(b, Size(k - 1), 2 * q);
      AlignedBelow(b, j, k - 1);
    }
  }

  /** Between two multiples of the same size there is at least that size. */
  lemma AlignedGap(b: nat, c: nat, k: nat)
    requires Aligned(b, k) && Aligned(c, k) && b < c
    ensures b + Size(k) <= c
  {
    if c < b + Size(k) {
      BlockOfUnique(c, b, k);
      BlockOfAligned(c, k);
    }
  }

  lemma Nested(a: nat, j: nat, k: nat)
    requires j <= k
    ensures BlockOf(BlockOf(a, j), k) == BlockOf(a, k)
    ensures BlockOf(a, k) <= BlockOf(a, j)
  {
    var c := BlockOf(a, j);
    var b := BlockOf(a, k);
    BlockOfContains(a, j);
    BlockOfContains(a, k);
    AlignedBelow(b, j, k);
    if c < b {
      AlignedGap(c, b, j);
    }
    BlockOfUnique(c, b, k);
  }

  /** A block of smaller order that meets a block of larger order lies inside it. */
  lemma Inside(a: nat, j: nat, k: nat)
    requires j <= k
    ensures BlockOf(a, j) + Size(j) <= BlockOf(a, k) + Size(k)
  {
    Nested(a, j, k);
    BlockOfContains(a, j);
    BlockOfContains(a, k);
    if BlockOf(a, k) + Size(k) < BlockOf(a, j) + Size(j) {
      var e := BlockOf(a, k) + Size(k);
      var q := BlockOf(a, k) / Size(k);
      assert e == (q + 1) * Size(k);
      DivUnique(e, Size(k), q + 1);
      AlignedBelow(e, j, k);
      AlignedGap(BlockOf(a, j), e, j);
    }
  }

  lemma SumOfMultiples(a: nat, b: nat, m: nat)
    requires 0 < m && a % m == 0 && b % m == 0
    ensures (a + b) % m == 0
    ensures b <= a ==> (a - b) % m == 0
  {
    assert a == a / m * m && b == b / m * m;
    assert a + b == (a / m + b / m) * m;
    DivUnique(a + b, m, a / m + b / m);
    if b <= a {
      if a / m < b / m {
        ProductGap(a / m, b / m, m);
      }
      assert a - b == (a / m - b / m) * m;
      DivUnique(a - b, m, a / m - b / m);
    }
  }

  lemma CoarserMultiple(a: nat, m: nat, n: nat)
    requires 0 < m && 0 < n && a % (m * n) == 0
    ensures a % m == 0
  {
    var q := a / (m * n);
    assert a == q * (m * n) == (q * n) * m;
    DivUnique(a, m, q * n);
  }

  /** Multiples of `s` pair up into the halves of multiples of `2 * s`. */
  lemma Halves(b: nat, h: nat, s: nat)
    requires 0 < s && b == h * (2 * s)
    ensures b / s == 2 * h && b % s == 0 && b / (2 * s) == h
    ensures (b + s) / s == 2 * h + 1 && (b + s) % s == 0 && (b + s) / (2 * s) == h
  {
    Doubling(h, s);
    DivUnique(b, s, 2 * h);
    DivUnique(b, 2 * s, h);
    DivUnique(b + s, s, 2 * h + 1);
    DivUnique(b + s, 2 * s, h);
  }

  lemma Doubling(h: nat, s: nat)
    ensures h * (2 * s) == (2 * h) * s
    ensures h * (2 * s) + s == (2 * h + 1) * s
  {
  }

  lemma HalfOf(b: nat, s: nat)
    requires 0 < s && b % s == 0
    ensures if b / s % 2 == 0 then FloorTo(b, 2 * s) == b && (b + s) % s == 0 && (b + s) / s % 2 == 1
            else s <= b && FloorTo(b, 2 * s) == b - s && (b - s) % s == 0 && (b - s) / s % 2 == 0
  {
    var q := b / s;
    var h := q / 2;
    assert b == q * s;
    Doubling(h, s);
    if q % 2 == 0 {
      assert q == 2 * h;
      Halves(b, h, s);
    } else {
      assert q == 2 * h + 1;
      Halves(b - s, h, s);
    }
  }

  /** A block and its buddy are the two halves of a block of the next order. */
  lemma BuddyHalves(b: nat, k: nat)
    requires Aligned(b, k)
    ensures Aligned(BuddyOf(b, k), k) && BuddyOf(BuddyOf(b, k), k) == b && BuddyOf(b, k) != b
    ensures Size(k + 1) == 2 * Size(k)
    ensures var parent := BlockOf(b, k + 1);
            && Aligned(parent, k + 1)
            && ((b == parent && BuddyOf(b, k) == parent + Size(k))
                || (b == parent + Size(k) && BuddyOf(b, k) == parent))
  {
    assert Size(k + 1) == 2 * Size(k);
    HalfOf(b, Size(k));
    BlockOfContains(b, k + 1);
  }

  // ---------------------------------------------------------------------------------------------
  // The buddy as exclusive-or
  // ---------------------------------------------------------------------------------------------

  /** Exclusive-or, bit by bit. */
  function Xor(a: nat, b: nat): nat
    decreases a + b
  {
    if a == 0 && b == 0 then 0 else 2 * Xor(a / 2, b / 2) + (a + b) % 2
  }

  lemma {:induction false} XorZero(a: nat)
    ensures Xor(a, 0) == a
    decreases a
  {
    if a > 0 {
      XorZero(a / 2);
    }
  }

  /** Adds `p` where the bit of weight `p` is missing and removes it where it is set. */
  function Flip(a: nat, p: nat): nat
    requires p > 0
  {
    var q := a / p;
    assert a == q * p + a % p;
    assert q % 2 == 1 ==> p <= q * p;
    if q % 2 == 0 then a + p else a - p
  }

  lemma {:induction false} XorBit(a: nat, m: nat)
    ensures Xor(a, Pow2(m)) == Flip(a, Pow2(m))
    decreases m
  {
    if m == 0 {
      XorLowest(a);
    } else {
      var p := Pow2(m - 1);
      XorBit(a / 2, m - 1);
      FlipHigher(a, p);
      XorHigher(a, p);
      assert Pow2(m) == 2 * p;
    }
  }

  lemma XorLowest(a: nat)
    ensures Xor(a, 1) == Flip(a, 1)
  {
    XorZero(a / 2);
    DivUnique(a, 1, a);
    assert Xor(a, 1) == 2 * Xor(a / 2, 0) + (a + 1) % 2;
  }

  lemma XorHigher(a: nat, p: nat)
    requires p > 0
    ensures Xor(a, 2 * p) == 2 * Xor(a / 2, p) + a % 2
  {
    assert (2 * p) / 2 == p && (a + 2 * p) % 2 == a % 2;
  }

  lemma FlipHigher(a: nat, p: nat)
    requires p > 0
    ensures Flip(a, 2 * p) == 2 * Flip(a / 2, p) + a % 2
  {
    HalfQuotient(a, p);
    var h := a / 2;
    assert a == 2 * h + a % 2;
  }

  lemma HalfQuotient(a: nat, p: nat)
    requires p > 0
    ensures a / (2 * p) == a / 2 / p
  {
    var q := a / 2 / p;
    assert q * p <= a / 2 < q * p + p by {
      assert a / 2 == q * p + a / 2 % p;
    }
    assert q * (2 * p) == 2 * (q * p);
    DivUnique(a, 2 * p, q);
  }

  lemma {:induction false} SizeIsPow2(k: nat)
    ensures Size(k) == Pow2(k + 12)
    decreases k
  {
    if k == 0 {
      assert Pow2(12) == 4 * Pow2(10) == 16 * Pow2(8) == 64 * Pow2(6) == 256 * Pow2(4) == 4096;
    } else {
      SizeIsPow2(k - 1);
    }
  }

  /** The source computes the buddy by flipping the bit of the block's size. */
  lemma BuddyIsXor(start: nat, order: nat)
    ensures BuddyOf(start, order) == Xor(start, Size(order))
  {
    SizeIsPow2(order);
    XorBit(start, order + 12);
  }

  // ---------------------------------------------------------------------------------------------
  // Rounding down as masking
  // ---------------------------------------------------------------------------------------------

  /** Bitwise and. */
  function And(a: nat, b: nat): nat
    decreases a
  {
    if a == 0 || b == 0 then 0 else 2 * And(a / 2, b / 2) + if a % 2 == 1 && b % 2 == 1 then 1 else 0
  }

  /** The complement of a word of `w` bits. */
  function Not(a: nat, w: nat): nat
    requires a < Pow2(w)
  {
    Pow2(w) - 1 - a
  }

  lemma {:induction false} AndOnes(a: nat, w: nat)
    requires a < Pow2(w)
    ensures And(a, Pow2(w) - 1) == a
    decreases w
  {
    if a > 0 {
      var p := Pow2(w - 1);
      assert Pow2(w) == 2 * p && (2 * p - 1) / 2 == p - 1 && (2 * p - 1) % 2 == 1;
      AndOnes(a / 2, w - 1);
    }
  }

  lemma FloorHalves(a: nat, p: nat)
    requires p > 0
    ensures FloorTo(a, 2 * p) == 2 * FloorTo(a / 2, p)
  {
    HalfQuotient(a, p);
    var q := a / 2 / p;
    assert q * (2 * p) == 2 * (q * p);
  }

  lemma AndEven(a: nat, b: nat)
    ensures And(a, 2 * b) == 2 * And(a / 2, b)
  {
    assert (2 * b) / 2 == b && (2 * b) % 2 == 0;
  }

  /** Clearing the low `k` bits of a word is rounding down to a multiple of `2^k`. */
  lemma {:induction false} MaskRoundsDown(a: nat, k: nat, w: nat)
    requires k <= w && a < Pow2(w)
    ensures Pow2(k) <= Pow2(w) && And(a, Not(Pow2(k) - 1, w)) == FloorTo(a, Pow2(k))
    decreases k
  {
    Pow2Grows(k, w);
    if k == 0 {
      AndOnes(a, w);
      DivUnique(a, 1, a);
    } else {
      var p, q := Pow2(k - 1), Pow2(w - 1);
      MaskRoundsDown(a / 2, k - 1, w - 1);
      assert Not(p - 1, w - 1) == q - p;
      MaskStep(a, p, q);
      assert Not(2 * p - 1, w) == 2 * (q - p);
    }
  }

  lemma MaskStep(a: nat, p: nat, q: nat)
    requires 0 < p <= q && And(a / 2, q - p) == FloorTo(a / 2, p)
    ensures And(a, 2 * (q - p)) == FloorTo(a, 2 * p)
  {
    FloorHalves(a, p);
    AndEven(a, q - p);
  }

  lemma {:induction false} Pow2Adds(j: nat, k: nat)
    ensures Pow2(j) * Pow2(k) == Pow2(j + k)
    decreases j
  {
    if j > 0 {
      Pow2Adds(j - 1, k);
      assert Pow2(j) * Pow2(k) == 2 * (Pow2(j - 1) * Pow2(k));
    }
  }

  lemma Pow2Of63()
    ensures Pow2(63) == 0x8000_0000_0000_0000
  {
    Pow2Adds(8, 8);
    Pow2Adds(16, 16);
    Pow2Adds(32, 31);
    Pow2Adds(16, 15);
    assert Pow2(8) == 256;
    assert Pow2(15) == 0x8000;
    assert Pow2(16) == 0x1_0000;
    assert Pow2(32) == 0x1_0000_0000;
    assert Pow2(31) == 0x8000_0000;
  }
}
