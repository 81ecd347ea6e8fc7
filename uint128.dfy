/**
 The 128-bit limb store underneath Float128: an unsigned 128-bit bit pattern
 read and written as four 32-bit limbs, limb 0 the most significant. Only what
 the quadruple-precision float uses is modelled: construction from four limbs or
 from a 64-bit integer, reading a limb, replacing limb 0, and the bitwise `&`,
 `|` and logical shifts `<<`, `>>`, which are those of the 128-bit bit-vector.
 */
module Limbs {

  /** An unsigned 128-bit bit pattern; arithmetic on it wraps modulo 2^128. */
  type UInt128 = bv128

  /** Limb 0: bits 96..127. */
  function Limb0(u: UInt128): bv32
  {
    (u >> 96) as bv32
  }

  /** Limb 1: bits 64..95. */
  function Limb1(u: UInt128): bv32
  {
    ((u >> 64) & 0xffff_ffff) as bv32
  }

  /** Limb 2: bits 32..63. */
  function Limb2(u: UInt128): bv32
  {
    ((u >> 32) & 0xffff_ffff) as bv32
  }

  /** Limb 3: bits 0..31. */
  function Limb3(u: UInt128): bv32
  {
    (u & 0xffff_ffff) as bv32
  }

  /** The four-limb constructor, most significant limb first. */
  function FromLimbs(l0: bv32, l1: bv32, l2: bv32, l3: bv32): (u: UInt128)
    ensures Limb0(u) == l0 && Limb1(u) == l1 && Limb2(u) == l2 && Limb3(u) == l3
  {
    ((l0 as bv128) << 96) | ((l1 as bv128) << 64) | ((l2 as bv128) << 32) | (l3 as bv128)
  }

  /** The limbs determine the value: no bit lies outside the four limbs. */
  lemma LimbsDetermine(u: UInt128)
    ensures FromLimbs(Limb0(u), Limb1(u), Limb2(u), Limb3(u)) == u
  {
  }

  /** The value is zero exactly when all four limbs are. */
  lemma ZeroLimbs(u: UInt128)
    ensures u == 0 <==> Limb0(u) == 0 && Limb1(u) == 0 && Limb2(u) == 0 && Limb3(u) == 0
  {
    LimbsDetermine(u);
  }

  /** Zero-extension of a 64-bit unsigned integer: it fills limbs 2 and 3. */
  function FromUInt64(x: bv64): (u: UInt128)
    ensures Limb0(u) == 0 && Limb1(u) == 0
    ensures Limb2(u) == (x >> 32) as bv32 && Limb3(u) == (x & 0xffff_ffff) as bv32
  {
    x as bv128
  }

  /** The value with limb 0 replaced by `w` (the assignment `value.0 = w`). */
  function WithLimb0(u: UInt128, w: bv32): (r: UInt128)
    ensures Limb0(r) == w
    ensures Limb1(r) == Limb1(u) && Limb2(r) == Limb2(u) && Limb3(r) == Limb3(u)
  {
    (u & 0x0000_0000_ffff_ffff_ffff_ffff_ffff_ffff) | ((w as bv128) << 96)
  }

  /** Or-ing into limb 0 (`value.0 |= w`) is or-ing `w` placed at bits 96..127. */
  lemma OrIntoLimb0(u: UInt128, w: bv32)
    ensures WithLimb0(u, Limb0(u) | w) == u | ((w as bv128) << 96)
  {
  }
}
