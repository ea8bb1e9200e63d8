/**
  What the operators of Ginkgo compute, by the laws that determine them, and exactly when they stop the
  program.
*/
module GinkgoOperators {
  import opened Blocks
  import opened GinkgoValues
  import opened GinkgoCompile

  const LEAST: int := -0x8000_0000_0000_0000
  const GREATEST: int := 0x7FFF_FFFF_FFFF_FFFF
  const LEAST_SIZE: int := 0x8000_0000_0000_0000

  // ---------------------------------------------------------------------------------------------
  // Arithmetic
  // ---------------------------------------------------------------------------------------------

  /** Adding is counting on: nothing for 0, and one more for one more; it stops exactly at the ends of the range. */
  lemma AddCounts(l: I64, r: I64)
    ensures ApplyBinary(Add, Integer(l), Integer(0)) == Ok(Integer(l))
    ensures r < GREATEST && l < GREATEST ==>
              ApplyBinary(Add, Integer(l), Integer(r + 1)) == ApplyBinary(Add, Integer(l + 1), Integer(r))
    ensures ApplyBinary(Add, Integer(l), Integer(r)).Fail? <==>
              (r > 0 && l > GREATEST - r) || (r < 0 && l < LEAST - r)
  {
  }

  /** Subtracting undoes adding, and answers whenever an answer exists. */
  lemma SubtractUndoesAdd(l: I64, r: I64, d: I64)
    ensures ApplyBinary(Subtract, Integer(l), Integer(r)) == Ok(Integer(d)) <==>
            ApplyBinary(Add, Integer(d), Integer(r)) == Ok(Integer(l))
  {
  }

  /** Negating gives what adds up to nothing, and answers whenever that exists. */
  lemma NegateAddsToNothing(l: I64, d: I64)
    ensures ApplyNegate(Integer(l)) == Ok(Integer(d)) <==> ApplyBinary(Add, Integer(l), Integer(d)) == Ok(Integer(0))
  {
  }

  /** Multiplying is repeated adding, in either order. */
  lemma MultiplyRepeats(l: I64, r: I64)
    ensures ApplyBinary(Multiply, Integer(l), Integer(0)) == Ok(Integer(0))
    ensures ApplyBinary(Multiply, Integer(l), Integer(r)) == ApplyBinary(Multiply, Integer(r), Integer(l))
    ensures r < GREATEST ==>
              var p := ApplyBinary(Multiply, Integer(l), Integer(r));
              var q := ApplyBinary(Multiply, Integer(l), Integer(r + 1));
              p.Ok? && q.Ok? ==> ApplyBinary(Add, p.value, Integer(l)) == q
  {
    if r < GREATEST {
      assert l * (r + 1) == l * r + l;
    }
  }

  /** It stops exactly when the product is out of range, as dividing the ends of the range tells. */
  lemma MultiplyFits(l: I64, r: I64)
    ensures ApplyBinary(Multiply, Integer(l), Integer(r)).Ok? <==>
              || r == 0
              || (r > 0 && -(LEAST_SIZE / r) <= l <= GREATEST / r)
              || (r < 0 && -(GREATEST / Abs(r)) <= l <= LEAST_SIZE / Abs(r))
  {
    var a: int, b: int := l, r;
    if b > 0 {
      QuotientBounds(GREATEST, b, a);
      QuotientBounds(LEAST_SIZE, b, -a);
      assert (-a) * b == -(a * b);
    } else if b < 0 {
      QuotientBounds(GREATEST, -b, -a);
      QuotientBounds(LEAST_SIZE, -b, a);
      assert (-a) * (-b) == a * b && a * (-b) == -(a * b);
    }
  }

  lemma QuotientBounds(a: nat, r: int, l: int)
    requires r > 0
    ensures l * r <= a <==> l <= a / r
  {
    var q := a / r;
    assert a == q * r + a % r;
    if l <= q {
      Scales(l, q, r);
    } else {
      Scales(q + 1, l, r);
      assert (q + 1) * r == q * r + r;
    }
  }

  lemma Scales(a: int, b: int, r: int)
    requires a <= b && r >= 0
    ensures a * r <= b * r
  {
  }

  function Abs(i: int): nat {
    if i < 0 then -i else i
  }

  /** What is left of `l` after taking `r` away `q` times is smaller than `r` and on the same side of 0 as `l`. */
  predicate Divides(l: int, r: int, q: int) {
    IsRest(l, r, l - q * r)
  }

  predicate IsRest(l: int, r: int, rest: int) {
    Abs(rest) < Abs(r) && (rest == 0 || (rest < 0 <==> l < 0))
  }

  lemma RestsClose(l: int, r: int, a: int, b: int)
    requires IsRest(l, r, a) && IsRest(l, r, b)
    ensures Abs(a - b) < Abs(r)
  {
  }

  lemma QuotientDivides(l: int, r: int)
    requires r != 0
    ensures Divides(l, r, Quotient(l, r))
  {
    var a: int, b: int := Abs(l), Abs(r);
    var q: int := a / b;
    assert a == q * b + a % b;
    assert (-q) * (-b) == q * b && (-q) * b == -(q * b) && q * (-b) == -(q * b);
  }

  lemma DividesOnce(l: int, r: int, q: int, p: int)
    requires r != 0 && Divides(l, r, q) && Divides(l, r, p)
    ensures p == q
  {
    RestsClose(l, r, l - q * r, l - p * r);
    assert (p - q) * r == (l - q * r) - (l - p * r);
    SmallMultiple(p - q, r);
  }

  lemma SmallMultiple(d: int, r: int)
    ensures d != 0 ==> Abs(r) <= Abs(d * r)
  {
    var a: int, b: int := Abs(d), Abs(r);
    assert d * r == a * b || d * r == -(a * b) by {
      assert (-a) * (-b) == a * b && (-a) * b == -(a * b) && a * (-b) == -(a * b);
    }
    if a >= 1 {
      Scales(1, a, b);
    }
  }

  /** Dividing rounds towards 0, and stops exactly for the divisor 0 and for the one quotient out of range. */
  lemma DivideRoundsToZero(l: I64, r: I64, q: I64)
    ensures ApplyBinary(Divide, Integer(l), Integer(r)) == Ok(Integer(q)) <==> Divides(l, r, q)
    ensures ApplyBinary(Divide, Integer(l), Integer(r)).Fail? <==> r == 0 || (l == LEAST && r == -1)
  {
    if r != 0 {
      QuotientDivides(l, r);
      if Divides(l, r, q) {
        DividesOnce(l, r, q, Quotient(l, r));
      }
      QuotientInRange(l, r);
    }
  }

  lemma QuotientInRange(l: I64, r: I64)
    requires r != 0
    ensures IsI64(Quotient(l, r)) <==> !(l == LEAST && r == -1)
  {
    var a: int, b: int := Abs(l), Abs(r);
    if b == 1 {
      assert a / b == a;
    } else {
      HalfAtMost(a, b);
    }
  }

  lemma HalfAtMost(a: int, b: int)
    requires a >= 0 && b > 1
    ensures 0 <= a / b <= a / 2
  {
    var q := a / b;
    assert a == q * b + a % b;
    Scales(2, b, q);
  }

  // ---------------------------------------------------------------------------------------------
  // Bits
  // ---------------------------------------------------------------------------------------------

  /** Bit `k` of a number in two's complement. */
  predicate Bit(i: int, k: nat) {
    i / Pow2(k) % 2 == 1
  }

  lemma HalfThenDivide(i: int, p: nat)
    requires p > 0
    ensures i / (2 * p) == i / 2 / p
  {
    var q := i / 2 / p;
    assert i / 2 == q * p + i / 2 % p;
    assert i == 2 * (i / 2) + i % 2;
    var rest := 2 * (i / 2 % p) + i % 2;
    assert i == q * (2 * p) + rest && 0 <= rest < 2 * p;
    DivideIs(i, 2 * p, q, rest);
  }

  lemma DivideIs(i: int, m: int, q: int, rest: int)
    requires 0 <= rest < m && i == q * m + rest
    ensures i / m == q
  {
    var d := i / m - q;
    assert i == i / m * m + i % m;
    assert d * m == i / m * m - q * m;
    SmallMultiple(d, m);
  }

  lemma BitAbove(i: int, k: nat)
    requires k > 0
    ensures Bit(i, k) <==> Bit(i / 2, k - 1)
  {
    HalfThenDivide(i, Pow2(k - 1));
  }

  /** Representable in `w` bits and a sign. */
  predicate InWidth(i: int, w: nat) {
    var top: int := Pow2(w);
    -top <= i < top
  }

  lemma {:induction false} JoinRange(op: BinOp, a: int, b: int, w: nat)
    ensures InWidth(Join(op, a, b, w), w)
    decreases w
  {
    if w > 0 {
      JoinRange(op, a / 2, b / 2, w - 1);
    }
  }

  lemma {:induction false} JoinedBit(op: BinOp, a: int, b: int, w: nat, k: nat)
    requires k < w || (k == w && InWidth(a, w) && InWidth(b, w))
    ensures Bit(Join(op, a, b, w), k) <==> JoinBits(op, Bit(a, k), Bit(b, k))
    decreases w
  {
    var r := Join(op, a, b, w);
    if w == 0 {
      SignBit(a);
      SignBit(b);
      SignBit(r);
    } else if k == 0 {
      assert r % 2 == 1 <==> JoinBits(op, a % 2 == 1, b % 2 == 1);
    } else {
      BitAbove(r, k);
      BitAbove(a, k);
      BitAbove(b, k);
      assert r / 2 == Join(op, a / 2, b / 2, w - 1);
      JoinedBit(op, a / 2, b / 2, w - 1, k - 1);
    }
  }

  lemma SignBit(i: int)
    requires -1 <= i < 1
    ensures Bit(i, 0) <==> i < 0
  {
  }

  /** Each of the 64 bits of the result is decided by that bit of the operands alone, and no operand stops the program. */
  lemma BitsDecide(l: I64, r: I64, k: nat)
    requires k < 64
    ensures var x := ApplyBinary(BitwiseAnd, Integer(l), Integer(r));
            x.Ok? && x.value.Integer? && (Bit(x.value.i, k) <==> Bit(l, k) && Bit(r, k))
    ensures var x := ApplyBinary(BitwiseOr, Integer(l), Integer(r));
            x.Ok? && x.value.Integer? && (Bit(x.value.i, k) <==> Bit(l, k) || Bit(r, k))
    ensures var x := ApplyBinary(BitwiseXor, Integer(l), Integer(r));
            x.Ok? && x.value.Integer? && (Bit(x.value.i, k) <==> Bit(l, k) != Bit(r, k))
  {
    Pow2Of63();
    JoinRange(BitwiseAnd, l, r, 63);
    JoinRange(BitwiseOr, l, r, 63);
    JoinRange(BitwiseXor, l, r, 63);
    JoinedBit(BitwiseAnd, l, r, 63, k);
    JoinedBit(BitwiseOr, l, r, 63, k);
    JoinedBit(BitwiseXor, l, r, 63, k);
  }

  // ---------------------------------------------------------------------------------------------
  // Comparisons
  // ---------------------------------------------------------------------------------------------

  predicate IsObject(v: Value) {
    v.Str? || v.NativeFn?
  }

  /** Two values are equal only if they are the same; every value but unit and functions equals itself. */
  lemma EqualIsSame(l: Value, r: Value)
    ensures ApplyBinary(Equal, l, r) == Ok(Bool(true)) <==> l == r && !l.Unit? && !l.NativeFn?
    ensures ApplyBinary(Equal, l, r).Fail? <==> l.NativeFn? && IsObject(r)
    ensures ApplyBinary(Equal, l, r).Ok? ==> ApplyBinary(Equal, l, r).value.Bool?
  {
  }

  lemma NotEqualIsOpposite(l: Value, r: Value)
    ensures match ApplyBinary(Equal, l, r)
            case Ok(v) => v.Bool? && ApplyBinary(NotEqual, l, r) == Ok(Bool(!v.b))
            case Fail(fault) => ApplyBinary(NotEqual, l, r) == Fail(fault)
  {
  }

  predicate Reaches(i: int, d: nat, j: int) {
    i + d == j
  }

  /** A number is less than those reached from it by adding, `false` is less than `true`, and nothing else. */
  lemma LessThanIsBelow(l: Value, r: Value)
    ensures ApplyBinary(LessThan, l, r) == Ok(Bool(true)) <==>
              || (l.Integer? && r.Integer? && exists d: nat :: d > 0 && Reaches(l.i, d, r.i))
              || (l == Bool(false) && r == Bool(true))
    ensures ApplyBinary(LessThan, l, r).Fail? <==> IsObject(l) && IsObject(r)
    ensures ApplyBinary(LessThan, l, r).Ok? ==> ApplyBinary(LessThan, l, r).value.Bool?
  {
    if l.Integer? && r.Integer? && l.i < r.i {
      assert Reaches(l.i, r.i as int - l.i as int, r.i);
    }
  }

  /** The other comparisons in terms of this one, for values of which one can be less than the other. */
  lemma OtherComparisons(l: Value, r: Value)
    ensures ApplyBinary(GreaterThan, l, r) == ApplyBinary(LessThan, r, l)
    ensures ApplyBinary(LessEqual, l, r) == ApplyBinary(GreaterEqual, r, l)
    ensures (l.Integer? && r.Integer?) || (l.Bool? && r.Bool?) ==>
              var greater := ApplyBinary(GreaterThan, l, r);
              greater.Ok? && greater.value.Bool? && ApplyBinary(LessEqual, l, r) == Ok(Bool(!greater.value.b))
    ensures !((l.Integer? && r.Integer?) || (l.Bool? && r.Bool?)) ==>
              ApplyBinary(LessEqual, l, r) == ApplyBinary(LessThan, l, r)
  {
  }

  // ---------------------------------------------------------------------------------------------
  // Other operands, and literals
  // ---------------------------------------------------------------------------------------------

  /** Arithmetic on anything but two integers is a panic; negating anything but an integer is an error. */
  lemma OnlyIntegers(op: BinOp, l: Value, r: Value)
    requires !(l.Integer? && r.Integer?)
    ensures op.Add? || op.Subtract? || op.Multiply? || op.Divide? || op.BitwiseAnd? || op.BitwiseOr? || op.BitwiseXor? ==>
              ApplyBinary(op, l, r) == Fail(Panic)
    ensures !l.Integer? ==> ApplyNegate(l) == Fail(CannotNegateValue)
  {
  }

  /** A literal is the number it spells as long as that is in range, and otherwise that number modulo `2^64`. */
  lemma LiteralIsItsNumber(n: nat)
    ensures IsI64(n) ==> LiteralValue(n) == n
    ensures (n - LiteralValue(n)) % 0x1_0000_0000_0000_0000 == 0
  {
    var m := 0x1_0000_0000_0000_0000;
    assert n == n / m * m + n % m;
    var v := LiteralValue(n);
    var q := if n % m == v then n / m else n / m + 1;
    assert n - v == q * m;
    DivideIs(n - v, m, q, 0);
    assert n - v == (n - v) / m * m + (n - v) % m;
  }
}
