/**
 The generic range folds: `genericSum` and `genericProduct` reduce the closed
 range between their two arguments with `+` or `*`, swapping the arguments
 first when they come in descending order, and the factorial `F` and the
 product `P` built on them. The functions are generic over the two integer
 types the program uses: Swift's `Int`, whose `+` and `*` trap when the
 exact result leaves 64 bits, and `Int128`, whose `+` and `*` are taken to wrap modulo
 2^128 (its implementation is not part of this model).
 Values are kept as mathematical integers, each within its type's range.
 */
module GenericMath {
  import opened Outcomes

  // ---------------------------------------------------------------------------
  // The two integer types

  datatype IntType = Int | Int128

  function MaxValue(t: IntType): int
  {
    match t
    case Int => 0x7fff_ffff_ffff_ffff
    case Int128 => 0x7fff_ffff_ffff_ffff_ffff_ffff_ffff_ffff
  }

  function MinValue(t: IntType): int
  {
    -MaxValue(t) - 1
  }

  predicate Fits(t: IntType, v: int)
  {
    MinValue(t) <= v <= MaxValue(t)
  }

  const MODULUS_128: int := 0x1_0000_0000_0000_0000_0000_0000_0000_0000

  /** Int128's wrap-around: the integer whose two's-complement pattern is the low 128 bits of `v`. */
  function Wrap128(v: int): (r: int)
    ensures Fits(Int128, r)
    ensures (v - r) % MODULUS_128 == 0
    ensures Fits(Int128, v) ==> r == v
  {
    (v - MinValue(Int128)) % MODULUS_128 + MinValue(Int128)
  }

  /** Results that differ by a multiple of 2^128 wrap to the same Int128. */
  lemma WrapCongruent(a: int, b: int, k: int)
    requires a == b + k * MODULUS_128
    ensures Wrap128(a) == Wrap128(b)
  {
    var c := -MinValue(Int128);
    assert a + c == (b + c) + k * MODULUS_128;
  }

  /** The outcome of an operation whose exact result is `v`: `Int` traps when `v` does not
      fit in 64 bits, `Int128` wraps it. */
  function Arith(t: IntType, v: int): (r: Outcome<int>)
    ensures r.Ok? ==> Fits(t, r.result)
    ensures Fits(t, v) ==> r == Ok(v)
    ensures r.Trap? <==> t == Int && !Fits(Int, v)
    ensures t == Int128 ==> r.Ok? && (v - r.result) % MODULUS_128 == 0
  {
    match t
    case Int => if Fits(Int, v) then Ok(v) else Trap
    case Int128 => Ok(Wrap128(v))
  }

  // ---------------------------------------------------------------------------
  // reduce over a closed range

  datatype Op = Plus | Times

  function Apply(op: Op, a: int, b: int): int
  {
    match op
    case Plus => a + b
    case Times => a * b
  }

  /** `reduce(acc, combine: op)` over lo, lo + 1, ..., hi, each step in type `t`. */
  function Fold(t: IntType, op: Op, lo: int, hi: int, acc: int): (r: Outcome<int>)
    ensures Fits(t, acc) && r.Ok? ==> Fits(t, r.result)
    ensures t == Int128 ==> r.Ok?
    decreases hi - lo + 1
  {
    if lo > hi then Ok(acc)
    else
      match Arith(t, Apply(op, acc, lo))
      case Trap => Trap
      case Ok(next) => Fold(t, op, lo + 1, hi, next)
  }

  /**
   `(b...e).reduce(initial, combine: op)`. Forming `b...e` demands `b <= e`; the closed
   range is the half-open range up to the successor of `e`, which traps when `e` is the
   largest value of its type.
   */
  function ReduceRange(t: IntType, op: Op, b: int, e: int, initial: int): (r: Outcome<int>)
    requires b <= e
    ensures e == MaxValue(t) ==> r == Trap
    ensures t == Int128 ==> (r.Ok? <==> e != MaxValue(t))
    ensures Fits(t, initial) && r.Ok? ==> Fits(t, r.result)
  {
    if e == MaxValue(t) then Trap else Fold(t, op, b, e, initial)
  }

  /** `genericSum(b, e)`. */
  function GenericSum(t: IntType, b: int, e: int): (r: Outcome<int>)
    requires Fits(t, b) && Fits(t, e)
    ensures r.Ok? ==> Fits(t, r.result)
    ensures Max(b, e) == MaxValue(t) ==> r == Trap
    ensures t == Int128 ==> (r.Ok? <==> Max(b, e) < MaxValue(t))
    decreases if b > e then 1 else 0
  {
    if b > e then GenericSum(t, e, b) else ReduceRange(t, Plus, b, e, 0)
  }

  /** `genericProduct(b, e)`. */
  function GenericProduct(t: IntType, b: int, e: int): (r: Outcome<int>)
    requires Fits(t, b) && Fits(t, e)
    ensures r.Ok? ==> Fits(t, r.result)
    ensures Max(b, e) == MaxValue(t) ==> r == Trap
    ensures t == Int128 ==> (r.Ok? <==> Max(b, e) < MaxValue(t))
    decreases if b > e then 1 else 0
  {
    if b > e then GenericProduct(t, e, b) else ReduceRange(t, Times, b, e, 1)
  }

  /** The nested `P(start, end)`: genericProduct on Int128. */
  function P(start: int, end: int): (r: Outcome<int>)
    requires Fits(Int128, start) && Fits(Int128, end)
    ensures r.Ok? <==> Max(start, end) < MaxValue(Int128)
    ensures r.Ok? ==> Fits(Int128, r.result)
  {
    GenericProduct(Int128, start, end)
  }

  /** The nested `F(n)`: 1 below 2, else the product of 2...n on Int128. */
  function F(n: int): (r: Outcome<int>)
    requires Fits(Int128, n)
    ensures n < 2 ==> r == Ok(1)
    ensures r.Trap? <==> n == MaxValue(Int128)
    ensures r.Ok? ==> Fits(Int128, r.result)
  {
    if n < 2 then Ok(1) else ReduceRange(Int128, Times, 2, n, 1)
  }

  // ---------------------------------------------------------------------------
  // Reference definitions over the integers

  /** lo + (lo + 1) + ... + hi, summed from the top. */
  function RangeSum(lo: int, hi: int): int
    decreases hi - lo + 1
  {
    if lo > hi then 0 else RangeSum(lo, hi - 1) + hi
  }

  /** lo * (lo + 1) * ... * hi, multiplied from the top. */
  function RangeProduct(lo: int, hi: int): int
    decreases hi - lo + 1
  {
    if lo > hi then 1 else RangeProduct(lo, hi - 1) * hi
  }

  /** n! for n >= 0. */
  function Factorial(n: nat): int
  {
    RangeProduct(1, n)
  }

  lemma {:induction false} RangeSumFront(lo: int, hi: int)
    requires lo <= hi
    ensures RangeSum(lo, hi) == lo + RangeSum(lo + 1, hi)
    decreases hi - lo
  {
    if lo < hi {
      RangeSumFront(lo, hi - 1);
    }
  }

  lemma {:induction false} RangeProductFront(lo: int, hi: int)
    requires lo <= hi
    ensures RangeProduct(lo, hi) == lo * RangeProduct(lo + 1, hi)
    decreases hi - lo
  {
    if lo < hi {
      RangeProductFront(lo, hi - 1);
    }
  }

  /** Gauss: twice the sum of lo..hi is the number of terms times the first plus the last. */
  lemma {:induction false} RangeSumClosedForm(lo: int, hi: int)
    requires lo <= hi + 1
    ensures 2 * RangeSum(lo, hi) == (hi - lo + 1) * (lo + hi)
    decreases hi - lo + 1
  {
    if lo <= hi {
      RangeSumClosedForm(lo, hi - 1);
    }
  }

  lemma {:induction false} RangeSumNonnegative(lo: int, hi: int)
    requires 0 <= lo
    ensures RangeSum(lo, hi) >= 0
    decreases hi - lo + 1
  {
    if lo <= hi {
      RangeSumNonnegative(lo, hi - 1);
    }
  }

  lemma {:induction false} RangeProductPositive(lo: int, hi: int)
    requires 1 <= lo
    ensures RangeProduct(lo, hi) >= 1
    decreases hi - lo + 1
  {
    if lo <= hi {
      RangeProductPositive(lo, hi - 1);
    }
  }

  /** A product of lo..hi splits at any point into the products of the two parts. */
  lemma {:induction false} RangeProductSplit(lo: int, mid: int, hi: int)
    requires lo - 1 <= mid <= hi
    ensures RangeProduct(lo, hi) == RangeProduct(lo, mid) * RangeProduct(mid + 1, hi)
    decreases hi - mid
  {
    if mid < hi {
      RangeProductSplit(lo, mid, hi - 1);
      var a, b := RangeProduct(lo, mid), RangeProduct(mid + 1, hi - 1);
      calc {
        RangeProduct(lo, hi);
        RangeProduct(lo, hi - 1) * hi;
        (a * b) * hi;
        { MulAssociates(a, b, hi); }
        a * (b * hi);
        a * RangeProduct(mid + 1, hi);
      }
    }
  }

  /** Extending a product of factors at least 1 does not make it smaller. */
  lemma {:induction false} RangeProductGrows(lo: int, hi: int, hi': int)
    requires 1 <= lo && hi <= hi'
    ensures RangeProduct(lo, hi) <= RangeProduct(lo, hi')
    decreases hi' - hi
  {
    if hi < hi' {
      RangeProductGrows(lo, hi, hi' - 1);
      if lo <= hi' {
        RangeProductPositive(lo, hi' - 1);
        MulGrows(RangeProduct(lo, hi' - 1), hi');
      }
    }
  }

  lemma MulAssociates(x: int, y: int, z: int)
    ensures (x * y) * z == x * (y * z)
  {
  }

  lemma MulGrows(x: int, y: int)
    requires 0 <= x && 1 <= y
    ensures x <= x * y
  {
  }

  // ---------------------------------------------------------------------------
  // What the folds compute

  /** Whenever the fold on Int does not trap, it gives the exact sum. */
  lemma {:induction false} SumFoldExact(lo: int, hi: int, acc: int)
    requires Fold(Int, Plus, lo, hi, acc).Ok?
    ensures Fold(Int, Plus, lo, hi, acc).result == acc + RangeSum(lo, hi)
    decreases hi - lo + 1
  {
    if lo <= hi {
      SumFoldExact(lo + 1, hi, acc + lo);
      RangeSumFront(lo, hi);
    }
  }

  /** Whenever the fold on Int does not trap, it gives the exact product. */
  lemma {:induction false} ProductFoldExact(lo: int, hi: int, acc: int)
    requires Fold(Int, Times, lo, hi, acc).Ok?
    ensures Fold(Int, Times, lo, hi, acc).result == acc * RangeProduct(lo, hi)
    decreases hi - lo + 1
  {
    if lo <= hi {
      ProductFoldExact(lo + 1, hi, acc * lo);
      RangeProductFront(lo, hi);
    }
  }

  /** On Int128 the sum never traps: it is the exact sum wrapped to 128 bits. */
  lemma {:induction false} SumFoldWraps(lo: int, hi: int, acc: int)
    requires Fits(Int128, acc)
    ensures Fold(Int128, Plus, lo, hi, acc) == Ok(Wrap128(acc + RangeSum(lo, hi)))
    decreases hi - lo + 1
  {
    if lo <= hi {
      var next := Wrap128(acc + lo);
      SumFoldWraps(lo + 1, hi, next);
      RangeSumFront(lo, hi);
      var k := (acc + lo - next) / MODULUS_128;
      WrapCongruent(acc + lo + RangeSum(lo + 1, hi), next + RangeSum(lo + 1, hi), k);
    }
  }

  /** On Int128 the product never traps: it is the exact product wrapped to 128 bits. */
  lemma {:induction false} ProductFoldWraps(lo: int, hi: int, acc: int)
    requires Fits(Int128, acc)
    ensures Fold(Int128, Times, lo, hi, acc) == Ok(Wrap128(acc * RangeProduct(lo, hi)))
    decreases hi - lo + 1
  {
    if lo <= hi {
      var next := Wrap128(acc * lo);
      var r := RangeProduct(lo + 1, hi);
      ProductFoldWraps(lo + 1, hi, next);
      RangeProductFront(lo, hi);
      MulAssociates(acc, lo, r);
      var k := (acc * lo - next) / MODULUS_128;
      ScaleCongruence(acc * lo, next, k, r);
      WrapCongruent(acc * lo * r, next * r, k * r);
    }
  }

  lemma ScaleCongruence(a: int, b: int, k: int, r: int)
    requires a - b == k * MODULUS_128
    ensures a * r == b * r + (k * r) * MODULUS_128
  {
    calc {
      a * r;
      (b + k * MODULUS_128) * r;
      b * r + (k * MODULUS_128) * r;
      { MulAssociates(k, MODULUS_128, r); MulAssociates(k, r, MODULUS_128); }
      b * r + (k * r) * MODULUS_128;
    }
  }

  /** On Int, for a range of nonnegative numbers, the sum traps exactly when the exact sum
      leaves 64 bits: the partial sums only grow, so none overflows before the last. */
  lemma {:induction false} SumFoldTraps(lo: int, hi: int, acc: int)
    requires 0 <= lo && 0 <= acc && Fits(Int, acc)
    ensures Fold(Int, Plus, lo, hi, acc)
         == if Fits(Int, acc + RangeSum(lo, hi)) then Ok(acc + RangeSum(lo, hi)) else Trap
    decreases hi - lo + 1
  {
    if lo <= hi {
      RangeSumFront(lo, hi);
      RangeSumNonnegative(lo + 1, hi);
      if Fits(Int, acc + lo) {
        SumFoldTraps(lo + 1, hi, acc + lo);
      }
    }
  }

  /** On Int, for a range of positive numbers, the product traps exactly when the exact
      product leaves 64 bits. */
  lemma {:induction false} ProductFoldTraps(lo: int, hi: int, acc: int)
    requires 1 <= lo && 1 <= acc && Fits(Int, acc)
    ensures Fold(Int, Times, lo, hi, acc)
         == if Fits(Int, acc * RangeProduct(lo, hi)) then Ok(acc * RangeProduct(lo, hi)) else Trap
    decreases hi - lo + 1
  {
    if lo <= hi {
      var r := RangeProduct(lo + 1, hi);
      RangeProductFront(lo, hi);
      RangeProductPositive(lo + 1, hi);
      MulAssociates(acc, lo, r);
      MulGrows(acc, lo);
      MulGrows(acc * lo, r);
      if Fits(Int, acc * lo) {
        ProductFoldTraps(lo + 1, hi, acc * lo);
      }
    }
  }

  // ---------------------------------------------------------------------------
  // genericSum and genericProduct

  /** The order of the arguments does not matter. */
  lemma GenericSumSymmetric(t: IntType, b: int, e: int)
    requires Fits(t, b) && Fits(t, e)
    ensures GenericSum(t, b, e) == GenericSum(t, e, b)
  {
  }

  lemma GenericProductSymmetric(t: IntType, b: int, e: int)
    requires Fits(t, b) && Fits(t, e)
    ensures GenericProduct(t, b, e) == GenericProduct(t, e, b)
  {
  }

  function Min(a: int, b: int): int
  {
    if a <= b then a else b
  }

  function Max(a: int, b: int): int
  {
    if a <= b then b else a
  }

  /**
   genericSum is the sum of the range between its arguments: on Int whenever it does
   not trap, and, for nonnegative arguments, it traps exactly when the larger argument
   is Int.max or the sum leaves 64 bits; on Int128 it traps only at Int128.max and is
   otherwise the sum wrapped to 128 bits.
   */
  lemma GenericSumIsRangeSum(t: IntType, b: int, e: int)
    requires Fits(t, b) && Fits(t, e)
    ensures var s := RangeSum(Min(b, e), Max(b, e));
            && (t == Int && GenericSum(t, b, e).Ok? ==> GenericSum(t, b, e).result == s)
            && (t == Int && 0 <= b && 0 <= e ==>
                  GenericSum(t, b, e) == if Max(b, e) < MaxValue(Int) && Fits(Int, s) then Ok(s) else Trap)
            && (t == Int128 ==>
                  GenericSum(t, b, e) == if Max(b, e) == MaxValue(Int128) then Trap else Ok(Wrap128(s)))
  {
    var lo, hi := Min(b, e), Max(b, e);
    if hi < MaxValue(t) {
      match t
      case Int =>
        if Fold(Int, Plus, lo, hi, 0).Ok? {
          SumFoldExact(lo, hi, 0);
        }
        if 0 <= lo {
          SumFoldTraps(lo, hi, 0);
        }
      case Int128 =>
        SumFoldWraps(lo, hi, 0);
    }
  }

  /** genericProduct is the product of the range between its arguments, in the same sense. */
  lemma GenericProductIsRangeProduct(t: IntType, b: int, e: int)
    requires Fits(t, b) && Fits(t, e)
    ensures var p := RangeProduct(Min(b, e), Max(b, e));
            && (t == Int && GenericProduct(t, b, e).Ok? ==> GenericProduct(t, b, e).result == p)
            && (t == Int && 1 <= b && 1 <= e ==>
                  GenericProduct(t, b, e) == if Max(b, e) < MaxValue(Int) && Fits(Int, p) then Ok(p) else Trap)
            && (t == Int128 ==>
                  GenericProduct(t, b, e) == if Max(b, e) == MaxValue(Int128) then Trap else Ok(Wrap128(p)))
  {
    var lo, hi := Min(b, e), Max(b, e);
    if hi < MaxValue(t) {
      match t
      case Int =>
        if Fold(Int, Times, lo, hi, 1).Ok? {
          ProductFoldExact(lo, hi, 1);
        }
        if 1 <= lo {
          ProductFoldTraps(lo, hi, 1);
        }
      case Int128 =>
        ProductFoldWraps(lo, hi, 1);
    }
  }

  /** A one-element range sums to its element. */
  lemma GenericSumSingle(t: IntType, b: int)
    requires Fits(t, b) && b < MaxValue(t)
    ensures GenericSum(t, b, b) == Ok(b)
  {
    assert Fold(t, Plus, b + 1, b, b) == Ok(b);
  }

  /** The checks at lines 79-82: on Int and on Int128 alike, the sum of 1...100 is 5050 and
      the product of 1...16 is 16!, with no trap and no wrap-around. */
  lemma SumAndProductTests()
    ensures GenericSum(Int, 1, 100) == GenericSum(Int128, 1, 100) == Ok(5050)
    ensures GenericProduct(Int, 1, 16) == GenericProduct(Int128, 1, 16) == Ok(20922789888000)
  {
    RangeSumClosedForm(1, 100);
    GenericSumIsRangeSum(Int, 1, 100);
    GenericSumIsRangeSum(Int128, 1, 100);
    FactorialValues();
    GenericProductIsRangeProduct(Int, 1, 16);
    GenericProductIsRangeProduct(Int128, 1, 16);
  }

  // ---------------------------------------------------------------------------
  // F and P

  lemma {:induction false} FactorialValues()
    ensures Factorial(16) == 20922789888000
    ensures Factorial(32) == 263130836933693530167218012160000000
  {
    assert RangeProduct(1, 1) == 1;
    assert RangeProduct(1, 2) == 2;
    assert RangeProduct(1, 3) == 6;
    assert RangeProduct(1, 4) == 24;
    assert RangeProduct(1, 5) == 120;
    assert RangeProduct(1, 6) == 720;
    assert RangeProduct(1, 7) == 5040;
    assert RangeProduct(1, 8) == 40320;
    assert RangeProduct(1, 9) == 362880;
    assert RangeProduct(1, 10) == 3628800;
    assert RangeProduct(1, 11) == 39916800;
    assert RangeProduct(1, 12) == 479001600;
    assert RangeProduct(1, 13) == 6227020800;
    assert RangeProduct(1, 14) == 87178291200;
    assert RangeProduct(1, 15) == 1307674368000;
    assert RangeProduct(1, 16) == 20922789888000;
    assert RangeProduct(1, 17) == 355687428096000;
    assert RangeProduct(1, 18) == 6402373705728000;
    assert RangeProduct(1, 19) == 121645100408832000;
    assert RangeProduct(1, 20) == 2432902008176640000;
    assert RangeProduct(1, 21) == 51090942171709440000;
    assert RangeProduct(1, 22) == 1124000727777607680000;
    assert RangeProduct(1, 23) == 25852016738884976640000;
    assert RangeProduct(1, 24) == 620448401733239439360000;
    assert RangeProduct(1, 25) == 15511210043330985984000000;
    assert RangeProduct(1, 26) == 403291461126605635584000000;
    assert RangeProduct(1, 27) == 10888869450418352160768000000;
    assert RangeProduct(1, 28) == 304888344611713860501504000000;
    assert RangeProduct(1, 29) == 8841761993739701954543616000000;
    assert RangeProduct(1, 30) == 265252859812191058636308480000000;
    assert RangeProduct(1, 31) == 8222838654177922817725562880000000;
    assert RangeProduct(1, 32) == 263130836933693530167218012160000000;
  }

  /** F(n) is genericProduct(1, n) for n >= 1: the leading factor 1 changes nothing. */
  lemma FIsGenericProduct(n: int)
    requires 1 <= n && Fits(Int128, n)
    ensures F(n) == GenericProduct(Int128, 1, n)
  {
    if 2 <= n && n < MaxValue(Int128) {
      assert Fold(Int128, Times, 1, n, 1) == Fold(Int128, Times, 2, n, 1);
    }
  }

  /** F(n) is n! wrapped to Int128; it traps only at Int128.max. */
  lemma FIsFactorial(n: int)
    requires 0 <= n && Fits(Int128, n)
    ensures F(n) == if n == MaxValue(Int128) then Trap else Ok(Wrap128(Factorial(n)))
  {
    if 2 <= n && n < MaxValue(Int128) {
      ProductFoldWraps(2, n, 1);
      RangeProductFront(1, n);
    } else if n < 2 {
      assert RangeProduct(1, 0) == 1;
    }
  }

  lemma DivideProduct(a: int, b: int)
    requires 1 <= a
    ensures (a * b) / a == b
  {
    var q, r := (a * b) / a, (a * b) % a;
    assert a * b == a * q + r && 0 <= r < a;
    assert a * (b - q) == r;
    if b - q >= 1 {
      MulGrows(a, b - q);
    } else if b - q <= -1 {
      MulGrows(a, q - b);
    }
  }

  /** (2i)! is i! times the product of i+1...2i, so (2i)! / i! is that product exactly. */
  lemma FactorialQuotient(i: int)
    requires 1 <= i
    ensures Factorial(i) >= 1
    ensures Factorial(2 * i) == Factorial(i) * RangeProduct(i + 1, 2 * i)
    ensures Factorial(2 * i) / Factorial(i) == RangeProduct(i + 1, 2 * i)
  {
    RangeProductPositive(1, i);
    RangeProductSplit(1, i, 2 * i);
    DivideProduct(Factorial(i), RangeProduct(i + 1, 2 * i));
  }

  /**
   The checks at lines 90-92: for i in 1...16, F(2i), F(i) and P(i+1, 2i) are computed
   on Int128 without wrapping (32! < 2^127) and F(2i) / F(i) == P(i+1, 2i). Int128's
   division truncates toward zero, which on these positive values is Dafny's division.
   */
  lemma QuotientTest(i: int)
    requires 1 <= i <= 16
    ensures F(2 * i).Ok? && F(i).Ok? && P(i + 1, 2 * i).Ok?
    ensures F(i).result >= 1
    ensures F(2 * i).result / F(i).result == P(i + 1, 2 * i).result
  {
    FactorialQuotient(i);
    FExactUpTo32(i);
    FExactUpTo32(2 * i);
    PExactUpTo32(i + 1, 2 * i);
  }

  /** Up to 32, F(n) is n! itself: 32! < 2^127, so nothing wraps. */
  lemma FExactUpTo32(n: int)
    requires 0 <= n <= 32
    ensures F(n) == Ok(Factorial(n))
  {
    FactorialValues();
    RangeProductGrows(1, n, 32);
    RangeProductPositive(1, n);
    FIsFactorial(n);
  }

  /** Within 1...32, P(lo, hi) is the exact product: it divides 32!. */
  lemma PExactUpTo32(lo: int, hi: int)
    requires 2 <= lo <= hi <= 32
    ensures P(lo, hi) == Ok(RangeProduct(lo, hi))
  {
    FactorialValues();
    RangeProductGrows(1, hi, 32);
    RangeProductPositive(1, lo - 1);
    RangeProductPositive(lo, hi);
    RangeProductSplit(1, lo - 1, hi);
    var left, right := RangeProduct(1, lo - 1), RangeProduct(lo, hi);
    MulGrows(right, left);
    assert right <= left * right <= Factorial(32);
    ProductFoldWraps(lo, hi, 1);
    assert P(lo, hi) == Fold(Int128, Times, lo, hi, 1);
  }
}
