/**
 The bit-level half of a software quadruple-precision float. A Float128 is a
 128-bit pattern in the binary128 interchange format of IEEE 754-2008
 (section 3.6): a sign at bit 127, a 15-bit exponent biased by 0x3fff at bits
 112..126 and a 112-bit fraction below that, held in the limb store of module
 Limbs.

 The layout is written once over the plain 128-bit pattern (SignField,
 ExponentField, FractionField, Assemble); the limb-level code of the conversions
 is proved against it. The host's double-precision `frexp` and `ldexp` and the
 reinterpretation of a double as its 64-bit pattern are not modelled: conversion
 from a double takes the host `frexp` result as input (the mantissa as its 64-bit
 pattern), and conversion to a double returns what it hands to the host `ldexp`.
 */
module Quad {
  import opened Limbs
  import opened Outcomes

  // ---------------------------------------------------------------------------
  // binary128 layout over a 128-bit pattern

  const SIGN_MASK: bv128 := 0x8000_0000_0000_0000_0000_0000_0000_0000
  const EXPONENT_MASK: bv128 := 0x7fff_0000_0000_0000_0000_0000_0000_0000
  const FRACTION_MASK: bv128 := 0x0000_ffff_ffff_ffff_ffff_ffff_ffff_ffff
  /** The 60 fraction bits below those a double can fill. */
  const LOW60_MASK: bv128 := 0x0fff_ffff_ffff_ffff

  /** Largest biased exponent, all 15 exponent bits set. */
  const MAX_EXPONENT: bv16 := 0x7fff
  /** Biased exponent of a value in [0.5, 1): the bias 0x3fff less one. */
  const HALF_EXPONENT: bv16 := 0x3ffe

  /** The sign bit, bit 127. */
  function SignField(b: bv128): bv1
  {
    (b >> 127) as bv1
  }

  /** The biased exponent, bits 112..126. */
  function ExponentField(b: bv128): bv16
  {
    ((b >> 112) & 0x7fff) as bv16
  }

  /** The fraction, bits 0..111, in place. */
  function FractionField(b: bv128): bv128
  {
    b & FRACTION_MASK
  }

  /** The pattern with the given sign, biased exponent and fraction. */
  function Assemble(sign: bv1, exponent: bv16, fraction: bv128): (b: bv128)
    requires exponent <= MAX_EXPONENT
    requires fraction & FRACTION_MASK == fraction
    ensures SignField(b) == sign
    ensures ExponentField(b) == exponent
    ensures FractionField(b) == fraction
  {
    ((sign as bv128) << 127) | ((exponent as bv128) << 112) | fraction
  }

  /** Every pattern is assembled from its three fields, so the fields cover all 128 bits. */
  lemma FieldsDetermine(b: bv128)
    ensures ExponentField(b) <= MAX_EXPONENT
    ensures Assemble(SignField(b), ExponentField(b), FractionField(b)) == b
  {
  }

  // ---------------------------------------------------------------------------
  // Double-precision patterns and Swift's Int

  /** Mask of the 52 fraction bits of a double's 64-bit pattern. */
  const DOUBLE_FRACTION_MASK: bv64 := 0x000f_ffff_ffff_ffff
  /** Mask of the 11 exponent bits of a double's 64-bit pattern. */
  const DOUBLE_EXPONENT_MASK: bv64 := 0x7ff0_0000_0000_0000
  /** A double's pattern with biased exponent 0x3fe (the exponent of [0.5, 1)) and nothing else set. */
  const DOUBLE_HALF_EXPONENT: bv64 := 0x3fe0_0000_0000_0000

  /** Swift's `Int`: a 64-bit two's-complement integer, kept as its bit pattern. */
  type SwiftInt = bv64

  predicate Negative(i: SwiftInt)
  {
    i & 0x8000_0000_0000_0000 != 0
  }

  /** Swift's `a + b` on Int traps exactly when the signed sum leaves 64 bits. */
  predicate AddOverflows(a: SwiftInt, b: SwiftInt)
  {
    Negative(a) == Negative(b) && Negative(a + b) != Negative(a)
  }

  /** Swift's `a - b` on Int traps exactly when the signed difference leaves 64 bits. */
  predicate SubOverflows(a: SwiftInt, b: SwiftInt)
  {
    Negative(a) != Negative(b) && Negative(a - b) != Negative(a)
  }

  // ---------------------------------------------------------------------------
  // The value type and its classification

  datatype Float128 = Float128(value: UInt128)

  /** `isSignMinus`: the top bit of limb 0. */
  function IsSignMinus(x: Float128): (r: bool)
    ensures r <==> SignField(x.value) == 1
  {
    Limb0(x.value) & 0x8000_0000 != 0
  }

  /** `isZero`: every bit except the sign is clear, so both +0 and -0 are zero. */
  function IsZero(x: Float128): (r: bool)
    ensures r <==> x.value & !SIGN_MASK == 0
  {
    ClearSignLimbs(x.value);
    ZeroLimbs(x.value & !SIGN_MASK);
    (Limb0(x.value) & 0x7fff_ffff) == 0 && Limb1(x.value) == 0 && Limb2(x.value) == 0 && Limb3(x.value) == 0
  }

  /** IsZero tests the 127 bits below the sign: the exponent and the fraction are both zero. */
  lemma IsZeroIff(x: Float128)
    ensures IsZero(x) <==> x.value & !SIGN_MASK == 0
    ensures IsZero(x) <==> ExponentField(x.value) == 0 && FractionField(x.value) == 0
  {
    ClearSignFields(x.value);
  }

  /** Clearing the sign bit clears the top bit of limb 0 and nothing else. */
  lemma ClearSignLimbs(u: UInt128)
    ensures Limb0(u & !SIGN_MASK) == Limb0(u) & 0x7fff_ffff
    ensures Limb1(u & !SIGN_MASK) == Limb1(u)
    ensures Limb2(u & !SIGN_MASK) == Limb2(u)
    ensures Limb3(u & !SIGN_MASK) == Limb3(u)
  {
  }

  /** The bits below the sign are the exponent and the fraction. */
  lemma ClearSignFields(b: bv128)
    ensures b & !SIGN_MASK == 0 <==> ExponentField(b) == 0 && FractionField(b) == 0
  {
  }

  /** The sign bit is independent of being zero: flipping it keeps IsZero and flips IsSignMinus. */
  lemma FlipSignKeepsZero(x: Float128)
    ensures IsZero(Float128(x.value ^ SIGN_MASK)) == IsZero(x)
    ensures IsSignMinus(Float128(x.value ^ SIGN_MASK)) == !IsSignMinus(x)
  {
    FlipSignFields(x.value);
  }

  /** Flipping bit 127 flips the sign field and keeps every other bit. */
  lemma FlipSignFields(b: bv128)
    ensures (b ^ SIGN_MASK) & !SIGN_MASK == b & !SIGN_MASK
    ensures SignField(b ^ SIGN_MASK) != SignField(b)
  {
  }

  // ---------------------------------------------------------------------------
  // init(Double): packing the host frexp result

  /** The biased exponent `e - 1 + 0x3fff` computed in 64-bit arithmetic. */
  function Rebiased(e: SwiftInt): SwiftInt
  {
    e + 0x3ffe
  }

  /**
   The Float128 built from the host `frexp` result `(m, e)` of a double, with `m`
   given as its 64-bit pattern: the sign of `m` at bit 127, the rebiased exponent
   `e - 1 + 0x3fff` (of which the 32-bit conversion and the shift by 16 keep the low
   16 bits) at bit 112, and the 52 fraction bits of `m` at bits 60..111. The
   rebiased exponent must be a valid UInt32, or the conversion traps.
   */
  function Packing(m: bv64, e: SwiftInt): Outcome<Float128>
  {
    if Rebiased(e) > 0xffff_ffff then Trap else Ok(Float128(PackedPattern(m, Rebiased(e))))
  }

  /** The sign of `m` at bit 127, the low 16 bits of `t` at bits 112..127, the fraction of `m` at bits 60..111. */
  function PackedPattern(m: bv64, t: bv64): bv128
  {
    ((m >> 63) as bv128 << 127) | (((t & 0xffff) as bv128) << 112) | (((m & DOUBLE_FRACTION_MASK) as bv128) << 60)
  }

  /**
   Swift's `UInt32(e - 1 + 0x3fff)` on a 64-bit Int: the subtraction and the
   addition trap on signed overflow and the conversion traps outside 0 ..< 2^32.
   */
  function ExponentAsUInt32(e: SwiftInt): (r: Outcome<bv32>)
    ensures r == if Rebiased(e) > 0xffff_ffff then Trap else Ok(Rebiased(e) as bv32)
  {
    if SubOverflows(e, 1) then Trap
    else if AddOverflows(e - 1, 0x3fff) then Trap
    else if Negative(e - 1 + 0x3fff) || e - 1 + 0x3fff > 0xffff_ffff then Trap
    else Ok((e - 1 + 0x3fff) as bv32)
  }

  /** `Float128.init(Double)` after the host `frexp` has produced `(m, e)`. */
  method FromDouble(m: bv64, e: SwiftInt) returns (r: Outcome<Float128>)
    ensures r == Packing(m, e)
  {
    var value := SignStep(m);
    var biased := ExponentAsUInt32(e);
    if biased.Trap? {
      return Trap;
    }
    value := WithLimb0(value, Limb0(value) | (biased.result << 16));
    var mb := m & DOUBLE_FRACTION_MASK;
    value := value | (FromUInt64(mb) << 60);
    PackSteps(m, biased.result);
    r := Ok(Float128(value));
  }

  /** The sign step of FromDouble: limb 0 is 0x8000_0000 when `m` is negative. */
  function SignStep(m: bv64): (value: UInt128)
    ensures value == (m >> 63) as bv128 << 127
  {
    if m >> 63 == 1 then WithLimb0(0, 0x8000_0000) else 0
  }

  /** The steps of FromDouble after the conversion of the exponent `t` succeeded. */
  lemma PackSteps(m: bv64, t: bv32)
    ensures WithLimb0(SignStep(m), Limb0(SignStep(m)) | (t << 16))
            | (FromUInt64(m & DOUBLE_FRACTION_MASK) << 60)
         == PackedPattern(m, t as bv64)
  {
    OrIntoLimb0(SignStep(m), t << 16);
    ExponentStep(t);
  }

  /** Limb 0's field `t << 16` holds the low 16 bits of `t`, which land at bits 112..127. */
  lemma ExponentStep(t: bv32)
    ensures ((t << 16) as bv128) << 96 == (((t as bv64) & 0xffff) as bv128) << 112
  {
  }

  /** What a successful packing holds, field by field: only the low 15 bits of the rebiased
      exponent reach the exponent field, and its bit 15 lands on the sign bit. */
  lemma PackingFields(m: bv64, e: SwiftInt)
    requires Rebiased(e) <= 0xffff_ffff
    ensures Packing(m, e).Ok?
    ensures SignField(Packing(m, e).result.value) == 1 <==> m >> 63 == 1 || Rebiased(e) & 0x8000 != 0
    ensures ExponentField(Packing(m, e).result.value) as bv64 == Rebiased(e) & 0x7fff
    ensures FractionField(Packing(m, e).result.value) == ((m & DOUBLE_FRACTION_MASK) as bv128) << 60
    ensures Packing(m, e).result.value & LOW60_MASK == 0
  {
    PackedPatternFields(m, Rebiased(e));
  }

  lemma PackedPatternFields(m: bv64, t: bv64)
    ensures var b := PackedPattern(m, t);
            && (SignField(b) == 1 <==> m >> 63 == 1 || t & 0x8000 != 0)
            && ExponentField(b) as bv64 == t & 0x7fff
            && FractionField(b) == ((m & DOUBLE_FRACTION_MASK) as bv128) << 60
            && b & LOW60_MASK == 0
  {
  }

  /** For an in-range exponent, packing gives exactly the binary128 fields of the double. */
  lemma PackingInRange(m: bv64, e: SwiftInt)
    requires Rebiased(e) < 0x8000
    ensures Packing(m, e).Ok?
    ensures IsSignMinus(Packing(m, e).result) <==> m >> 63 == 1
    ensures ExponentField(Packing(m, e).result.value) as bv64 == Rebiased(e)
    ensures FractionField(Packing(m, e).result.value) == ((m & DOUBLE_FRACTION_MASK) as bv128) << 60
  {
    PackingFields(m, e);
  }

  /** The limbs of a packed value with an in-range exponent. */
  lemma PackingLimbs(m: bv64, e: SwiftInt)
    requires Rebiased(e) < 0x8000
    ensures Packing(m, e).Ok?
    ensures var u := Packing(m, e).result.value; var mb := m & DOUBLE_FRACTION_MASK;
            && Limb0(u) == (((m >> 63) as bv32) << 31) | ((Rebiased(e) as bv32) << 16) | ((mb >> 36) as bv32)
            && Limb1(u) == ((mb >> 4) & 0xffff_ffff) as bv32
            && Limb2(u) == ((mb & 0xf) as bv32) << 28
            && Limb3(u) == 0
  {
    PackedPatternLimbs(m, Rebiased(e));
  }

  lemma PackedPatternLimbs(m: bv64, t: bv64)
    requires t < 0x8000
    ensures var b := PackedPattern(m, t);
            var mb := m & DOUBLE_FRACTION_MASK;
            && Limb0(b) == (((m >> 63) as bv32) << 31) | ((t as bv32) << 16) | ((mb >> 36) as bv32)
            && Limb1(b) == ((mb >> 4) & 0xffff_ffff) as bv32
            && Limb2(b) == ((mb & 0xf) as bv32) << 28
            && Limb3(b) == 0
  {
  }

  /** There is no zero case: the host `frexp` of a zero double is that zero with exponent 0,
      and packing it gives the biased exponent 0x3ffe, the pattern of 0.5 with the zero's sign. */
  lemma PackingOfZero(m: bv64)
    requires m & 0x7fff_ffff_ffff_ffff == 0
    ensures Packing(m, 0).Ok?
    ensures !IsZero(Packing(m, 0).result)
    ensures ExponentField(Packing(m, 0).result.value) == HALF_EXPONENT
    ensures FractionField(Packing(m, 0).result.value) == 0
    ensures IsSignMinus(Packing(m, 0).result) <==> m >> 63 == 1
  {
    PackingInRange(m, 0);
    PackingFields(m, 0);
    IsZeroIff(Packing(m, 0).result);
  }

  // ---------------------------------------------------------------------------
  // frexp

  /** The pattern `x` with exponent field HALF_EXPONENT, its sign and fraction kept. */
  function HalvedPattern(b: bv128): bv128
  {
    Assemble(SignField(b), HALF_EXPONENT, FractionField(b))
  }

  /**
   `frexp`: a zero of either sign comes back unchanged with exponent 0; any other
   value comes back with its exponent field forced to 0x3ffe (a value in [0.5, 1))
   together with its unbiased exponent plus one, that is, its biased exponent less
   0x3ffe, as a 64-bit Int.
   */
  function Decomposition(x: Float128): (Float128, SwiftInt)
  {
    if IsZero(x) then (x, 0)
    else (Float128(HalvedPattern(x.value)), ExponentField(x.value) as bv64 - HALF_EXPONENT as bv64)
  }

  /** `frexp` as the source computes it, limb 0 first. */
  method Frexp(x: Float128) returns (m: Float128, e: SwiftInt)
    ensures (m, e) == Decomposition(x)
    ensures IsZero(x) ==> m == x && e == 0
  {
    if IsZero(x) {
      return x, 0;
    }
    var biased := ((Limb0(x.value) >> 16) & 0x7fff) as SwiftInt;
    var mv := x.value & FromLimbs(0x8000_ffff, 0xffff_ffff, 0xffff_ffff, 0xffff_ffff);
    ghost var masked := mv;
    mv := WithLimb0(mv, Limb0(mv) | 0x3ffe_0000);
    HalvingStep(x.value, masked, mv);
    mv := Resign(x, mv);
    m, e := Float128(mv), biased + 1 - 0x3fff;
    NonzeroStep(x, biased, mv);
  }

  /** The nonzero path: the exponent read from limb 0 and the rebuilt pattern are frexp's. */
  lemma NonzeroStep(x: Float128, biased: SwiftInt, mv: UInt128)
    requires !IsZero(x)
    requires biased == ((Limb0(x.value) >> 16) & 0x7fff) as SwiftInt
    requires mv == HalvedPattern(x.value)
    ensures (Float128(mv), biased + 1 - 0x3fff) == Decomposition(x)
  {
    ExponentOfLimb0(x.value);
  }

  /** The step `if isSignMinus { value.0 |= 0x8000_0000 }` on a pattern that kept the sign. */
  method Resign(x: Float128, h: UInt128) returns (s: UInt128)
    requires h == HalvedPattern(x.value)
    ensures s == h
  {
    s := h;
    if IsSignMinus(x) {
      s := WithLimb0(s, Limb0(s) | 0x8000_0000);
      ResignStep(x.value, h, s);
    }
  }

  /** Masking out the exponent and or-ing 0x3ffe into limb 0 produce HalvedPattern. */
  lemma HalvingStep(v: UInt128, k: UInt128, h: UInt128)
    requires k == v & FromLimbs(0x8000_ffff, 0xffff_ffff, 0xffff_ffff, 0xffff_ffff)
    requires h == WithLimb0(k, Limb0(k) | 0x3ffe_0000)
    ensures h == HalvedPattern(v)
  {
    OrIntoLimb0(k, 0x3ffe_0000);
    KeepMask(v, k, 0x3ffe_0000);
  }

  /** Or-ing the sign into limb 0 again changes nothing: the mask kept it. */
  lemma ResignStep(v: UInt128, h: UInt128, s: UInt128)
    requires SignField(v) == 1
    requires h == HalvedPattern(v)
    requires s == WithLimb0(h, Limb0(h) | 0x8000_0000)
    ensures s == h
  {
    OrIntoLimb0(HalvedPattern(v), 0x8000_0000);
    SignAlreadySet(v, 0x8000_0000);
  }

  lemma KeepMask(v: bv128, k: bv128, w: bv32)
    requires k == v & FromLimbs(0x8000_ffff, 0xffff_ffff, 0xffff_ffff, 0xffff_ffff)
    requires w == 0x3ffe_0000
    ensures k | ((w as bv128) << 96) == HalvedPattern(v)
  {
    assert FromLimbs(0x8000_ffff, 0xffff_ffff, 0xffff_ffff, 0xffff_ffff) == !EXPONENT_MASK;
  }

  lemma SignAlreadySet(v: bv128, w: bv32)
    requires SignField(v) == 1
    requires w == 0x8000_0000
    ensures HalvedPattern(v) | ((w as bv128) << 96) == HalvedPattern(v)
  {
  }

  lemma ExponentOfLimb0(v: bv128)
    ensures ((Limb0(v) >> 16) & 0x7fff) as bv64 + 1 - 0x3fff == ExponentField(v) as bv64 - HALF_EXPONENT as bv64
  {
  }

  /** For a nonzero x, frexp's mantissa keeps the sign and all 112 fraction bits of x, has
      exponent field 0x3ffe, and differs from x nowhere else. */
  lemma FrexpMantissa(x: Float128)
    requires !IsZero(x)
    ensures SignField(Decomposition(x).0.value) == SignField(x.value)
    ensures FractionField(Decomposition(x).0.value) == FractionField(x.value)
    ensures ExponentField(Decomposition(x).0.value) == HALF_EXPONENT
    ensures Decomposition(x).0.value & !EXPONENT_MASK == x.value & !EXPONENT_MASK
  {
    HalvedOutsideExponent(x.value);
  }

  lemma HalvedOutsideExponent(b: bv128)
    ensures HalvedPattern(b) & !EXPONENT_MASK == b & !EXPONENT_MASK
  {
  }

  /** For a nonzero x, writing frexp's exponent plus 0x3ffe back into the exponent field of
      frexp's mantissa gives x again, bit for bit. */
  lemma FrexpReconstructs(x: Float128)
    requires !IsZero(x)
    ensures var (m, e) := Decomposition(x);
            (m.value & !EXPONENT_MASK) | ((e + 0x3ffe) as bv128 << 112) == x.value
  {
    HalvedOutsideExponent(x.value);
    ExponentBack(x.value);
  }

  lemma ExponentBack(b: bv128)
    ensures (b & !EXPONENT_MASK) | ((ExponentField(b) as bv64 - HALF_EXPONENT as bv64 + 0x3ffe) as bv128 << 112) == b
  {
  }

  /** frexp is idempotent on its mantissa: the mantissa decomposes into itself and exponent 0. */
  lemma FrexpIdempotent(x: Float128)
    requires !IsZero(x)
    ensures Decomposition(Decomposition(x).0) == (Decomposition(x).0, 0)
  {
    var m := Decomposition(x).0;
    FrexpMantissa(x);
    IsZeroIff(m);
    HalvedFixed(m.value);
  }

  lemma HalvedFixed(b: bv128)
    requires ExponentField(b) == HALF_EXPONENT
    ensures HalvedPattern(b) == b
  {
    FieldsDetermine(b);
  }

  // ---------------------------------------------------------------------------
  // Double.init(Float128): what is handed to the host

  /**
   What `Double.init(Float128)` hands to the host: the 64-bit pattern of a double
   mantissa, the exponent for the host `ldexp`, and whether the result of `ldexp`
   is then negated.
   */
  datatype DoubleParts = DoubleParts(mantissa: bv64, exponent: SwiftInt, negate: bool)

  /** The top 52 of the 112 fraction bits, as the fraction of a double. */
  function TopFraction(b: bv128): bv64
  {
    (FractionField(b) >> 60) as bv64
  }

  /**
   The conversion to a double: frexp the value, keep the top 52 fraction bits of
   its mantissa under the double exponent 0x3fe with a clear sign, pass the frexp
   exponent on, and negate when the value's sign is set.
   */
  function ToDoubleParts(x: Float128): DoubleParts
  {
    var (m, e) := Decomposition(x);
    DoubleParts(TopFraction(m.value) | DOUBLE_HALF_EXPONENT, e, IsSignMinus(x))
  }

  /** `Double.init(Float128)` up to the host `ldexp` call, on the limbs. */
  method ToDouble(x: Float128) returns (parts: DoubleParts)
    ensures parts == ToDoubleParts(x)
  {
    var m, e := Frexp(x);
    var mu := ExtractFraction(m.value);
    mu := mu | DOUBLE_HALF_EXPONENT;
    parts := DoubleParts(mu, e, IsSignMinus(x));
  }

  /** The steps `mt = m >> 60` and `mu = UInt64(mt.2 & 0xfffff) << 32 | UInt64(mt.3)`. */
  method ExtractFraction(v: UInt128) returns (mu: bv64)
    ensures mu == TopFraction(v)
  {
    var mt := v >> 60;
    mu := (((Limb2(mt) & 0x000f_ffff) as bv64) << 32) | (Limb3(mt) as bv64);
    ExtractStep(v, mt, mu);
  }

  /** Shifting right by 60 and taking limb 3 and the low 20 bits of limb 2 is TopFraction. */
  lemma ExtractStep(v: UInt128, mt: UInt128, mu: bv64)
    requires mt == v >> 60
    requires mu == (((Limb2(mt) & 0x000f_ffff) as bv64) << 32) | (Limb3(mt) as bv64)
    ensures mu == TopFraction(v)
  {
    LowLimbOfShift(v);
    HighLimbOfShift(v);
    TopFractionPieces(v);
  }

  lemma LowLimbOfShift(v: UInt128)
    ensures Limb3(v >> 60) as bv64 == ((v >> 60) & 0xffff_ffff) as bv64
  {
  }

  lemma HighLimbOfShift(v: UInt128)
    ensures (Limb2(v >> 60) & 0x000f_ffff) as bv64 == ((v >> 92) & 0xf_ffff) as bv64
  {
  }

  lemma TopFractionPieces(v: bv128)
    ensures ((((v >> 92) & 0xf_ffff) as bv64) << 32) | (((v >> 60) & 0xffff_ffff) as bv64) == TopFraction(v)
  {
  }

  /**
   Whatever the value, the mantissa handed on is a positive double in [0.5, 1):
   sign clear, biased exponent 0x3fe, and as fraction the top 52 fraction bits of
   the value itself; the exponent is frexp's and the negation follows the sign.
   */
  lemma ToDoubleShape(x: Float128)
    ensures var p := ToDoubleParts(x);
            && p.mantissa >> 63 == 0
            && p.mantissa & DOUBLE_EXPONENT_MASK == DOUBLE_HALF_EXPONENT
            && p.mantissa & DOUBLE_FRACTION_MASK == TopFraction(x.value)
            && p.exponent == Decomposition(x).1
            && (p.negate <==> SignField(x.value) == 1)
  {
    FrexpKeepsFraction(x);
    TopFractionWidth(x.value);
    MantissaShape(TopFraction(x.value));
  }

  lemma FrexpKeepsFraction(x: Float128)
    ensures FractionField(Decomposition(x).0.value) == FractionField(x.value)
  {
    if !IsZero(x) {
      FrexpMantissa(x);
    }
  }

  lemma TopFractionWidth(b: bv128)
    ensures TopFraction(b) >> 52 == 0
  {
  }

  lemma MantissaShape(t: bv64)
    requires t >> 52 == 0
    ensures (t | DOUBLE_HALF_EXPONENT) >> 63 == 0
    ensures (t | DOUBLE_HALF_EXPONENT) & DOUBLE_EXPONENT_MASK == DOUBLE_HALF_EXPONENT
    ensures (t | DOUBLE_HALF_EXPONENT) & DOUBLE_FRACTION_MASK == t
  {
  }

  /**
   There is no zero case here either: a zero of either sign is handed on as the
   mantissa 0.5 with exponent 0, so the host computes 0.5 (negated for -0).
   */
  lemma ToDoubleOfZero(x: Float128)
    requires IsZero(x)
    ensures ToDoubleParts(x) == DoubleParts(DOUBLE_HALF_EXPONENT, 0, IsSignMinus(x))
  {
    IsZeroIff(x);
    assert TopFraction(x.value) == 0;
  }

  /**
   The round trip through Float128 for a double whose host frexp result is `(m, e)`:
   `m` a mantissa in [0.5, 1) (biased exponent 0x3fe) and the rebiased exponent a
   nonzero 15-bit value. Packing and converting back hands the host exactly `|m|`
   as mantissa, `e` as exponent, and negation when `m` is negative, from which
   `ldexp` and the negation rebuild the double.
   */
  lemma DoubleRoundTrip(m: bv64, e: SwiftInt)
    requires m & DOUBLE_EXPONENT_MASK == DOUBLE_HALF_EXPONENT
    requires 0 < Rebiased(e) < 0x8000
    ensures Packing(m, e).Ok?
    ensures ToDoubleParts(Packing(m, e).result) == DoubleParts(m & 0x7fff_ffff_ffff_ffff, e, m >> 63 == 1)
  {
    PackedFrexp(m, e);
    PackedMantissa(m, e);
    PackingInRange(m, e);
    FractionBack(m);
  }

  /** The fraction that frexp leaves in a packed double is the double's own 52 bits. */
  lemma PackedMantissa(m: bv64, e: SwiftInt)
    requires 0 < Rebiased(e) < 0x8000
    ensures Packing(m, e).Ok?
    ensures TopFraction(Decomposition(Packing(m, e).result).0.value) == m & DOUBLE_FRACTION_MASK
  {
    PackingInRange(m, e);
    FrexpKeepsFraction(Packing(m, e).result);
    FractionBack(m);
  }

  lemma UnbiasRebiased(e: SwiftInt)
    ensures Rebiased(e) - HALF_EXPONENT as bv64 == e
  {
  }

  lemma FractionBack(m: bv64)
    ensures ((((m & DOUBLE_FRACTION_MASK) as bv128) << 60) >> 60) as bv64 == m & DOUBLE_FRACTION_MASK
    ensures m & DOUBLE_EXPONENT_MASK == DOUBLE_HALF_EXPONENT ==>
              (m & DOUBLE_FRACTION_MASK) | DOUBLE_HALF_EXPONENT == m & 0x7fff_ffff_ffff_ffff
  {
  }

  /** On a packed double with an in-range exponent, frexp gives back the exponent of the double. */
  lemma PackedFrexp(m: bv64, e: SwiftInt)
    requires 0 < Rebiased(e) < 0x8000
    ensures Packing(m, e).Ok?
    ensures !IsZero(Packing(m, e).result)
    ensures Decomposition(Packing(m, e).result).1 == e
  {
    PackingInRange(m, e);
    IsZeroIff(Packing(m, e).result);
    UnbiasRebiased(e);
  }
}
