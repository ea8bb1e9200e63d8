/**
  Converting ticks to nanoseconds with a fixed-point fraction (kernel/src/clocksource.rs): `x * n / d` is
  computed as `x * scalar / 2^shift`, in 64-bit and 128-bit unsigned arithmetic.
*/
module Clock {
  import opened Options
  import opened Blocks

  const LIMIT: nat := 0x1_0000_0000_0000_0000

  datatype FractionalFreq = FractionalFreq(scalar: nat, shift: nat)

  /** `64 - leading_zeros`: the number of bits of the value. */
  function CeilingLog2(value: nat): nat {
    if value == 0 then 0 else 1 + CeilingLog2(value / 2)
  }

  function Quotient(a: nat, m: nat): (q: nat)
    requires m > 0
    ensures q == a / m && q * m <= a < q * m + m
  {
    assert a == a / m * m + a % m;
    a / m
  }

  /** `numerator << shift` in 64 bits drops what does not fit. */
  function ShiftLeft(value: nat, shift: nat): nat {
    value * Pow2(shift) % LIMIT
  }

  /** A numerator of 64 bits makes the shift underflow, and division by zero is a panic. */
  function New(numerator: nat, denominator: nat): Option<FractionalFreq>
    requires numerator < LIMIT && denominator < LIMIT
  {
    if CeilingLog2(numerator) > 63 || denominator == 0 then None
    else
      var shift := 63 - CeilingLog2(numerator);
      Some(FractionalFreq(Quotient(ShiftLeft(numerator, shift), denominator), shift))
  }

  /** The result before it is cut to 64 bits. */
  function Product(f: FractionalFreq, x: nat): nat {
    Quotient(x * f.scalar, Pow2(f.shift))
  }

  function Mul(f: FractionalFreq, x: nat): nat {
    Product(f, x) % LIMIT
  }

  // ---------------------------------------------------------------------------------------------
  // The scalar
  // ---------------------------------------------------------------------------------------------

  /** The number of bits brackets the value between powers of two. */
  lemma {:induction false} BitsBracket(value: nat)
    requires value > 0
    ensures CeilingLog2(value) > 0 && Pow2(CeilingLog2(value) - 1) <= value < Pow2(CeilingLog2(value))
    decreases value
  {
    if value > 1 {
      BitsBracket(value / 2);
      var k := CeilingLog2(value / 2);
      assert Pow2(k) == 2 * Pow2(k - 1) && Pow2(k + 1) == 2 * Pow2(k);
    }
  }

  lemma BitsAtMost63(value: nat)
    ensures CeilingLog2(value) <= 63 <==> value < 0x8000_0000_0000_0000
  {
    Pow2Of63();
    if value > 0 {
      var k := CeilingLog2(value);
      BitsBracket(value);
      if k <= 63 {
        Pow2Grows(k, 63);
      } else {
        Pow2Grows(63, k - 1);
      }
    }
  }

  /** There is a conversion exactly for numerators below 2^63 and denominators above 0. */
  lemma NewDefinedIff(numerator: nat, denominator: nat)
    requires numerator < LIMIT && denominator < LIMIT
    ensures New(numerator, denominator).Some? <==> numerator < 0x8000_0000_0000_0000 && denominator > 0
  {
    BitsAtMost63(numerator);
  }

  lemma ScaleLess(a: nat, b: nat, m: nat)
    requires a < b && m > 0
    ensures a * m < b * m
  {
  }

  lemma ScaleUp(a: nat, b: nat, m: nat)
    requires a <= b
    ensures a * m <= b * m
  {
  }

  /** A value of `k` bits times `2^(63-k)` has 63 bits. */
  lemma ShiftedBracket(value: nat, k: nat)
    requires 1 <= k <= 63 && Pow2(k - 1) <= value < Pow2(k)
    ensures Pow2(62) <= value * Pow2(63 - k) < Pow2(63)
  {
    var p := Pow2(63 - k);
    Pow2Adds(k, 63 - k);
    Pow2Adds(k - 1, 63 - k);
    ScaleLess(value, Pow2(k), p);
    ScaleUp(Pow2(k - 1), value, p);
  }

  /** Shifting loses no bit, and leaves the top bit but one set: the scalar is as precise as 63 bits allow. */
  lemma NoOverflow(numerator: nat)
    requires 1 <= numerator < 0x8000_0000_0000_0000
    ensures CeilingLog2(numerator) <= 63
    ensures var s := 63 - CeilingLog2(numerator);
            && ShiftLeft(numerator, s) == numerator * Pow2(s)
            && Pow2(62) <= numerator * Pow2(s) < Pow2(63)
  {
    BitsAtMost63(numerator);
    BitsBracket(numerator);
    ShiftedBracket(numerator, CeilingLog2(numerator));
    ShiftKeeps(numerator, 63 - CeilingLog2(numerator));
  }

  lemma ShiftKeeps(value: nat, shift: nat)
    requires value * Pow2(shift) < Pow2(63)
    ensures ShiftLeft(value, shift) == value * Pow2(shift)
  {
    Pow2Of63();
    var a := value * Pow2(shift);
    SmallMod(a, LIMIT);
  }

  /** Every conversion there is keeps all 63 bits of its shifted numerator, and rounds the scalar down. */
  lemma FullPrecision(n: nat, d: nat, f: FractionalFreq)
    requires 1 <= n < LIMIT && 0 < d < LIMIT && New(n, d) == Some(f)
    ensures Pow2(62) <= n * Pow2(f.shift) < Pow2(63)
    ensures f.scalar * d <= n * Pow2(f.shift) < f.scalar * d + d
  {
    NewDefinedIff(n, d);
    NoOverflow(n);
    assert f.scalar == Quotient(n * Pow2(f.shift), d);
  }

  lemma SmallMod(a: nat, m: nat)
    requires a < m
    ensures a % m == a
  {
  }

  // ---------------------------------------------------------------------------------------------
  // The conversion
  // ---------------------------------------------------------------------------------------------

  /** More ticks never give fewer nanoseconds, as long as the larger result fits. */
  lemma Monotone(f: FractionalFreq, x: nat, y: nat)
    requires x <= y && Product(f, y) < LIMIT
    ensures Mul(f, x) <= Mul(f, y)
  {
    ScaleUp(x, y, f.scalar);
    QuotientGrows(x * f.scalar, y * f.scalar, Pow2(f.shift));
  }

  lemma QuotientGrows(a: nat, b: nat, m: nat)
    requires a <= b && m > 0
    ensures Quotient(a, m) <= Quotient(b, m)
  {
    if Quotient(b, m) < Quotient(a, m) {
      ProductGap(Quotient(b, m), Quotient(a, m), m);
    }
  }

  /** The 128-bit product does not overflow. */
  lemma WideProductFits(n: nat, d: nat, x: nat)
    requires 1 <= n < 0x8000_0000_0000_0000 && 0 < d < LIMIT && x < LIMIT
    ensures New(n, d).Some? && New(n, d).value.scalar < 0x8000_0000_0000_0000
    ensures x * New(n, d).value.scalar < LIMIT * LIMIT
  {
    NewDefinedIff(n, d);
    NoOverflow(n);
    Pow2Of63();
    var a := ShiftLeft(n, 63 - CeilingLog2(n));
    var scalar := New(n, d).value.scalar;
    ScaleUp(1, d, scalar);
    ScaleUp(x, LIMIT, scalar);
    ScaleLess(scalar, LIMIT, LIMIT);
  }

  /**
    The result never exceeds the exact quotient `x * n / d`, and falls short of it by less than
    `1 + x / 2^shift`. Both sides are multiplied by `d * 2^shift`.
  */
  lemma CloseBelow(n: nat, d: nat, x: nat, f: FractionalFreq)
    requires 1 <= n < 0x8000_0000_0000_0000 && 0 < d < LIMIT && New(n, d) == Some(f) && Product(f, x) < LIMIT
    ensures Mul(f, x) * d <= x * n
    ensures var p := Pow2(f.shift); x * n * p < Mul(f, x) * (d * p) + d * p + x * d
  {
    FullPrecision(n, d, f);
    var p := Pow2(f.shift);
    var m := Mul(f, x);
    SmallMod(Product(f, x), LIMIT);
    UpperBound(n, d, x, f.scalar, p, m);
    LowerBound(n, d, x, f.scalar, p, m);
  }

  lemma UpperBound(n: nat, d: nat, x: nat, s: nat, p: nat, m: nat)
    requires p > 0 && s * d <= n * p && m * p <= x * s
    ensures m * d <= x * n
  {
    ScaleUp(m * p, x * s, d);
    ScaleUp(s * d, n * p, x);
    assert m * p * d == m * d * p && x * s * d == s * d * x && n * p * x == x * n * p;
    if x * n < m * d {
      ScaleLess(x * n, m * d, p);
    }
  }

  lemma LowerBound(n: nat, d: nat, x: nat, s: nat, p: nat, m: nat)
    requires n * p < s * d + d && x * s < m * p + p && d > 0
    ensures x * n * p < m * (d * p) + d * p + x * d
  {
    ScaleUp(n * p, s * d + d, x);
    ScaleLess(x * s, m * p + p, d);
    assert n * p * x == x * n * p;
    assert (s * d + d) * x == x * s * d + x * d;
    assert (m * p + p) * d == m * (d * p) + d * p;
  }

  /** The same in fractions: `0 <= x*n/d - result < 1 + x/2^shift`. */
  lemma Accuracy(n: nat, d: nat, x: nat, f: FractionalFreq)
    requires 1 <= n < 0x8000_0000_0000_0000 && 0 < d < LIMIT && New(n, d) == Some(f) && Product(f, x) < LIMIT
    ensures var shortfall := (x * n) as real / d as real - Mul(f, x) as real;
            0.0 <= shortfall < 1.0 + x as real / Pow2(f.shift) as real
  {
    CloseBelow(n, d, x, f);
    Fractions(x * n, d, x, Pow2(f.shift), Mul(f, x));
  }

  lemma Fractions(a: nat, d: nat, x: nat, p: nat, m: nat)
    requires d > 0 && p > 0 && m * d <= a && a * p < m * (d * p) + d * p + x * d
    ensures 0.0 <= a as real / d as real - m as real < 1.0 + x as real / p as real
  {
    CastProduct(m, d);
    NotBelow(a as real, d as real, m as real);
    CastBound(a, d, x, p, m, a * p, m * (d * p), x * d, d * p);
    NotFarAbove(a as real, d as real, m as real, x as real, p as real);
  }

  lemma CastBound(a: nat, d: nat, x: nat, p: nat, m: nat, u: nat, v: nat, w: nat, dp: nat)
    requires u == a * p && dp == d * p && v == m * dp && w == x * d && u < v + dp + w
    ensures a as real * p as real
          < m as real * (d as real * p as real) + d as real * p as real + x as real * d as real
  {
    assert u as real < v as real + dp as real + w as real;
    assert u as real == a as real * p as real by {
      CastProduct(a, p);
    }
    assert dp as real == d as real * p as real by {
      CastProduct(d, p);
    }
    assert v as real == m as real * dp as real by {
      CastProduct(m, dp);
    }
    assert w as real == x as real * d as real by {
      CastProduct(x, d);
    }
  }

  lemma CastProduct(a: nat, b: nat)
    ensures (a * b) as real == a as real * b as real
  {
  }

  lemma NotBelow(a: real, d: real, m: real)
    requires d > 0.0 && m * d <= a
    ensures m <= a / d
  {
    var e := a / d;
    assert e * d == a;
    if e < m {
      assert e * d < m * d;
    }
  }

  lemma NotFarAbove(a: real, d: real, m: real, x: real, p: real)
    requires d > 0.0 && p > 0.0 && a * p < m * (d * p) + d * p + x * d
    ensures a / d < m + 1.0 + x / p
  {
    var e, t := a / d, x / p;
    assert e * d == a && t * p == x;
    Factor(e, t, d, p, m);
    assert d * p > 0.0;
    if m + 1.0 + t <= e {
      RealScale(m + 1.0 + t, e, d * p);
    }
  }

  lemma Factor(e: real, t: real, d: real, p: real, m: real)
    ensures e * d * p == e * (d * p)
    ensures m * (d * p) + d * p + t * p * d == (m + 1.0 + t) * (d * p)
  {
  }

  lemma RealScale(a: real, b: real, c: real)
    requires c > 0.0 && a <= b
    ensures a * c <= b * c
  {
  }

  /** If the exact quotient fits in 64 bits, so does the result. */
  lemma FitsIfExactFits(n: nat, d: nat, x: nat, f: FractionalFreq)
    requires 1 <= n < 0x8000_0000_0000_0000 && 0 < d < LIMIT && New(n, d) == Some(f)
    ensures x * n < LIMIT * d ==> Product(f, x) < LIMIT
  {
    FullPrecision(n, d, f);
    UpperBound(n, d, x, f.scalar, Pow2(f.shift), Product(f, x));
    if LIMIT <= Product(f, x) {
      ScaleUp(LIMIT, Product(f, x), d);
    }
  }

  /** For ticks whose exact quotient fits: the result is as accurate as promised, and grows with the ticks. */
  lemma Converts(n: nat, d: nat, x: nat, y: nat, f: FractionalFreq)
    requires 1 <= n < 0x8000_0000_0000_0000 && 0 < d < LIMIT && New(n, d) == Some(f) && x <= y && y * n < LIMIT * d
    ensures Mul(f, x) <= Mul(f, y)
    ensures var shortfall := (y * n) as real / d as real - Mul(f, y) as real;
            0.0 <= shortfall < 1.0 + y as real / Pow2(f.shift) as real
  {
    FitsIfExactFits(n, d, y, f);
    Monotone(f, x, y);
    Accuracy(n, d, y, f);
  }
}
