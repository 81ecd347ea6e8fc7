# genericmath: Float128 bit layout and generic range folds in Dafny

This project models two parts of the Swift library `genericmath`.

**The bit-level half of `Float128`** (`genericmath/float128.swift`). A `Float128` is a
128-bit pattern kept as four 32-bit limbs, limb 0 the most significant. It is read in
the binary128 interchange format of IEEE 754-2008, section 3.6:

- a sign at bit 127;
- a 15-bit exponent, biased by 0x3fff, at bits 112..126;
- a 112-bit fraction below that.

The model covers:

- the conversion from a double (`init(Double)`), which packs the host `frexp` result;
- the classification predicates `isSignMinus` and `isZero`;
- `frexp`;
- the limb-level part of the conversion to a double (`Double.init(Float128)`), which
  extracts the mantissa;
- the text form `debugDescription` / `description`.

The layout is defined once, over a plain 128-bit bit-vector (`Quad.SignField`,
`Quad.ExponentField`, `Quad.FractionField`, `Quad.Assemble`). The limb-by-limb
imperative code is proved against it. The host's double-precision `frexp` and `ldexp`
are parameters:

- `Quad.FromDouble` takes the host `frexp` result. The mantissa comes in as its 64-bit
  pattern, the exponent as a 64-bit `Int`.
- `Quad.ToDouble` returns what the source hands to the host `ldexp`: the mantissa
  pattern, the exponent, and whether the result is then negated.

**The generic folds** (`genericmath/main.swift`). `genericSum` and `genericProduct`
reduce the closed range between their arguments with `+` or `*`, after swapping
arguments that come in descending order. `P` and `F` are built on them. The functions
are generic over the two integer types the program uses:

- Swift's `Int`, whose arithmetic traps on 64-bit overflow;
- `Int128`, whose implementation is not part of this model; its `+` and `*` are
  assumed to wrap modulo 2^128.

The model keeps values as mathematical integers. On `Int128` it states, for every
input, what each fold yields: a trap when the larger argument is `Int128.max`,
otherwise the exact sum or product wrapped to 128 bits. On `Int` it states that a
result that does not trap is the exact sum or product for every input, but it states
exactly when the fold traps only for ranges of nonnegative numbers (sum) or of positive
numbers (product). It proves the identities the program checks at main.swift lines
79-82 and 90-92.

Modules:

- `Outcomes` (outcome.dfy): `Outcome`, a value or a run-time trap.
- `Limbs` (uint128.dfy): the 128-bit limb store. Only the limb access the float code
  uses is modelled.
- `Quad` (float128.dfy): the Float128 layout, classification and conversions.
- `DebugText` (debug_text.dfy): `%08x` formatting of the limbs, with a parser as its
  inverse.
- `GenericMath` (generic_math.dfy): the folds, `P`, `F`, and the integer reference
  definitions they are proved against.

The model has a special case only where the code has one:

- `init(Double)` and `Double.init(Float128)` treat no value apart: zero, infinity and
  NaN go through the same steps as every other value. Only `frexp` treats zero apart.
  So `Float128(0.0)` gets the pattern of 0.5 with the zero's sign
  (`Quad.PackingOfZero`), and converting a zero Float128 hands the host the mantissa
  0.5 with exponent 0 (`Quad.ToDoubleOfZero`).
- `Double.init(Float128)` does not rebias the exponent field itself. It goes through
  `frexp` and the host `ldexp`, and so does the model.

## Model

| member | source | states |
|---|---|---|
| `Quad.IsSignMinus` | genericmath/float128.swift:44-46 | `isSignMinus` holds exactly when the binary128 sign bit, bit 127, is set |
| `Quad.IsZero` | genericmath/float128.swift:47-50 | `isZero` holds exactly when the 127 bits below the sign bit are all clear |
| `Quad.IsZeroIff` | genericmath/float128.swift:47-50 | `isZero` holds exactly when every bit except the sign is clear, that is, when both the exponent and the fraction are zero |
| `Quad.FlipSignKeepsZero` | genericmath/float128.swift:44-50 | flipping bit 127 never changes `isZero` and always flips `isSignMinus`, so +0 and -0 are both zero |
| `Quad.ExponentAsUInt32` | genericmath/float128.swift:38 | `UInt32(e - 1 + 0x3fff)` traps exactly when the rebiased exponent is negative or at least 2^32 as a 64-bit Int, and otherwise yields that value |
| `Quad.SignStep` | genericmath/float128.swift:35-37 | starting from zero and setting limb 0 to 0x8000_0000 for a negative mantissa gives the mantissa's sign at bit 127 and no other bit |
| `Quad.FromDouble` | genericmath/float128.swift:34-43 | the limb-by-limb construction from the host `frexp` result equals the packing `Quad.Packing`: it traps with the exponent conversion, and otherwise puts the sign of the mantissa at bit 127, the low 16 bits of the rebiased exponent at bit 112 and the 52 mantissa bits at bits 60..111 |
| `Quad.PackingFields` | genericmath/float128.swift:34-43 | field by field, a successful packing has the low 15 bits of the rebiased exponent as exponent, the double's fraction shifted left by 60 as fraction, the low 60 bits clear, and the sign set when the mantissa is negative or bit 15 of the rebiased exponent is set |
| `Quad.PackingInRange` | genericmath/float128.swift:34-43 | when the rebiased exponent is below 0x8000, packing succeeds, `isSignMinus` is the mantissa's sign, the exponent field is the rebiased exponent and the fraction is the mantissa's 52 bits at the top |
| `Quad.PackingLimbs` | genericmath/float128.swift:37-42 | when the rebiased exponent is below 0x8000: limb 0 is sign << 31, the exponent << 16 and mb >> 36; limb 1 is (mb >> 4) & 0xffffffff; limb 2 is (mb & 0xf) << 28; limb 3 is 0 |
| `Quad.PackingOfZero` | genericmath/float128.swift:34-43 | the host `frexp` of a zero double packs to a value that is not zero: its exponent is 0x3ffe and its fraction 0, the pattern of 0.5 with the zero's sign |
| `Quad.Frexp` | genericmath/float128.swift:51-58 | the limb-level `frexp` equals `Quad.Decomposition`: a zero comes back unchanged with exponent 0; any other value comes back with exponent field 0x3ffe, together with its biased exponent minus 0x3ffe |
| `Quad.Resign` | genericmath/float128.swift:56 | or-ing the sign back into limb 0 leaves the masked, rebiased pattern unchanged, because the mask already kept the sign bit |
| `Quad.FrexpMantissa` | genericmath/float128.swift:53-56 | for a nonzero value, the `frexp` mantissa keeps the sign and all 112 fraction bits, has exponent field 0x3ffe, and differs from the value nowhere else |
| `Quad.FrexpReconstructs` | genericmath/float128.swift:53-57 | for a nonzero value, writing the `frexp` exponent plus 0x3ffe back into the mantissa's exponent field gives the value bit for bit |
| `Quad.FrexpIdempotent` | genericmath/float128.swift:51-57 | for a nonzero value, the `frexp` mantissa decomposes into itself with exponent 0 |
| `Quad.PackedFrexp` | genericmath/float128.swift:34-57 | for a rebiased exponent strictly between 0 and 0x8000, the packed value is not zero and `frexp` gives back the exponent of the double |
| `Quad.ToDouble` | genericmath/float128.swift:62-65 | the limb-level steps of `Double.init(Float128)` up to the host call produce `Quad.ToDoubleParts`: the top 52 fraction bits of the `frexp` mantissa under exponent 0x3fe, the `frexp` exponent, and negation when the value's sign is set |
| `Quad.ExtractFraction` | genericmath/float128.swift:63-64 | shifting right by 60 and joining the low 20 bits of limb 2 with limb 3 yields the top 52 of the 112 fraction bits |
| `Quad.ToDoubleShape` | genericmath/float128.swift:62-65 | for every value, the mantissa handed on is a positive double pattern with biased exponent 0x3fe whose fraction is the value's top 52 fraction bits; the exponent is the `frexp` exponent; negation follows the sign bit |
| `Quad.ToDoubleOfZero` | genericmath/float128.swift:62-65 | a zero of either sign is handed on as mantissa 0.5 with exponent 0, negated for -0 |
| `Quad.DoubleRoundTrip` | genericmath/float128.swift:34-65 | for a host `frexp` result (m, e) with m in [0.5, 1) and a rebiased exponent strictly between 0 and 0x8000, packing and converting back hands the host exactly the absolute value of m, e, and negation when m is negative |
| `Limbs.FromLimbs` | genericmath/float128.swift:54 | `UInt128(l0, l1, l2, l3)` puts each argument in its limb, most significant first |
| `Limbs.FromUInt64` | genericmath/float128.swift:42 | `UInt128(mb)` zero-extends: limbs 0 and 1 are zero, limbs 2 and 3 are the high and low halves of mb |
| `Limbs.WithLimb0` | genericmath/float128.swift:37-38 | assigning limb 0 (`value.0 = w`, `value.0 \|= w`) sets limb 0 and keeps limbs 1 to 3 |
| `DebugText.Hex8` | genericmath/float128.swift:75 | `%08x` of a limb is exactly eight lower-case hexadecimal digits |
| `DebugText.Hex8RoundTrip` | genericmath/float128.swift:75 | reading back the eight digits printed for a limb gives the limb |
| `DebugText.Hex8Canonical` | genericmath/float128.swift:75 | any eight digits that read as a limb are exactly the digits printed for it |
| `DebugText.DebugDescription` | genericmath/float128.swift:73-76 | the text is 35 characters: commas at positions 8, 17 and 26, hexadecimal digits everywhere else, and limbs 0 to 3, most significant first, as `%08x` between them |
| `DebugText.DebugRoundTrip` | genericmath/float128.swift:73-76 | parsing the debug text gives back the same 128-bit pattern |
| `DebugText.DebugCanonical` | genericmath/float128.swift:73-76 | any text that parses to a value is exactly the debug text of that value |
| `DebugText.DebugInjective` | genericmath/float128.swift:73-76 | two values have the same debug text only when they are the same bit pattern, so +0 and -0 print differently |
| `DebugText.Description` | genericmath/float128.swift:77-79 | `description` is the 35-character debug text and parses back to the value |
| `GenericMath.Arith` | genericmath/main.swift:71 | one step of `+` or `*` in the element type: the result always fits; an exact result that fits is kept; only `Int` traps, and only when the exact result leaves 64 bits; on `Int128` the result is congruent to the exact result modulo 2^128, so it is that result wrapped |
| `GenericMath.Fold` | genericmath/main.swift:71-76 | `reduce` over lo...hi, one step per element: from an initial value in the type's range, a result that does not trap stays in that range; on `Int128` it never traps |
| `GenericMath.ReduceRange` | genericmath/main.swift:71-76 | `(b...e).reduce`: traps when e is the type's largest value, because the closed range cannot be formed; on `Int128` that is its only trap; a result stays in the type's range |
| `GenericMath.GenericSum` | genericmath/main.swift:69-73 | `genericSum(b, e)`: a result is in the type's range; it traps whenever the larger argument is the type's largest value; on `Int128` that is its only trap (its value: `GenericMath.GenericSumIsRangeSum`) |
| `GenericMath.GenericProduct` | genericmath/main.swift:74-78 | `genericProduct(b, e)`: the same as `genericSum` for traps and range (its value: `GenericMath.GenericProductIsRangeProduct`) |
| `GenericMath.P` | genericmath/main.swift:84-86 | `P(start, end)` on `Int128` traps exactly when the larger argument is `Int128.max` and otherwise yields an `Int128` |
| `GenericMath.F` | genericmath/main.swift:87-89 | `F(n)` is 1 for n below 2, traps exactly when n is `Int128.max`, and otherwise yields an `Int128` |
| `GenericMath.SumFoldExact` | genericmath/main.swift:71 | on `Int`, whenever `reduce(acc, combine: +)` over lo...hi does not trap, it yields acc plus the sum of lo..hi |
| `GenericMath.ProductFoldExact` | genericmath/main.swift:76 | on `Int`, whenever `reduce(acc, combine: *)` over lo...hi does not trap, it yields acc times the product of lo..hi |
| `GenericMath.SumFoldWraps` | genericmath/main.swift:71 | on `Int128` the sum fold never traps and yields the exact sum wrapped to 128 bits |
| `GenericMath.ProductFoldWraps` | genericmath/main.swift:76 | on `Int128` the product fold never traps and yields the exact product wrapped to 128 bits |
| `GenericMath.SumFoldTraps` | genericmath/main.swift:71 | on `Int`, over nonnegative numbers, the sum fold traps exactly when the exact sum leaves 64 bits, and otherwise yields it |
| `GenericMath.ProductFoldTraps` | genericmath/main.swift:76 | on `Int`, over positive numbers, the product fold traps exactly when the exact product leaves 64 bits, and otherwise yields it |
| `GenericMath.RangeSumClosedForm` | genericmath/main.swift:69-73 | twice the sum of lo..hi is the number of terms times (lo + hi) |
| `GenericMath.GenericSumSymmetric` | genericmath/main.swift:69-70 | `genericSum(b, e) == genericSum(e, b)` on both types |
| `GenericMath.GenericProductSymmetric` | genericmath/main.swift:74-75 | `genericProduct(b, e) == genericProduct(e, b)` on both types |
| `GenericMath.GenericSumIsRangeSum` | genericmath/main.swift:69-73 | `genericSum` is the sum of the range between its arguments. On `Int`: whenever it does not trap; for nonnegative arguments, it traps exactly when the larger argument is `Int.max` or the sum leaves 64 bits. On `Int128`: it traps only at `Int128.max` and is otherwise the wrapped sum |
| `GenericMath.GenericProductIsRangeProduct` | genericmath/main.swift:74-78 | the same for `genericProduct` and the product of the range, with positive arguments in place of nonnegative ones |
| `GenericMath.GenericSumSingle` | genericmath/main.swift:69-71 | `genericSum(b, b) == b` for every b below the type's maximum |
| `GenericMath.SumAndProductTests` | genericmath/main.swift:79-82 | on `Int` and on `Int128` alike, `genericSum(1, 100)` is 5050 and `genericProduct(1, 16)` is 20922789888000, with no trap and no wrap-around, so the two sides of each check agree |
| `GenericMath.FactorialValues` | genericmath/main.swift:79-92 | 16! is 20922789888000 and 32! is 263130836933693530167218012160000000, which is below 2^127 |
| `GenericMath.FIsGenericProduct` | genericmath/main.swift:84-89 | `F(n) == genericProduct(1, n)` on `Int128` for every n >= 1 |
| `GenericMath.FIsFactorial` | genericmath/main.swift:87-89 | `F(n)` is n! wrapped to `Int128` for n >= 0, so `F(0) == F(1) == 1`; it traps only at `Int128.max` |
| `GenericMath.FactorialQuotient` | genericmath/main.swift:90-92 | for every i >= 1, (2i)! is i! times the product of i+1..2i, i! is positive, and (2i)! / i! is that product exactly |
| `GenericMath.FExactUpTo32` | genericmath/main.swift:87-89 | for 0 <= n <= 32, `F(n)` yields n! itself, because nothing wraps |
| `GenericMath.PExactUpTo32` | genericmath/main.swift:84-86 | for 2 <= lo <= hi <= 32, `P(lo, hi)` yields the exact product of lo..hi |
| `GenericMath.QuotientTest` | genericmath/main.swift:90-92 | for each i in 1...16, `F(2i)`, `F(i)` and `P(i+1, 2i)` do not trap, `F(i)` is positive, and `F(2i) / F(i) == P(i+1, 2i)` |

## Left out

- The host `frexp` and `ldexp` (float128.swift:16-23 and util.swift), `unsafeBitCast`
  between `Double` and `UInt64`, and `self *= -1`. These are floating-point operations.
  The model takes the `frexp` result as input and returns the `ldexp` arguments and the
  negation flag.
- The debug `print` at float128.swift:66 and the `debugPrint` calls in main.swift. These
  are output.
- The `UInt128` and `Int128` implementations, and the radix, division and shift checks
  in main.swift that exercise them. UInt128 and Int128 are not part of this model:
  - `Limbs` models only the limb access the float code uses, as a 128-bit bit-vector;
  - `Int128`'s implementation is not shown. Its `+` and `*` are assumed to wrap
    modulo 2^128, and its `/` to truncate toward zero.
- Swift's `Int` is modelled as a 64-bit two's-complement bit-vector in `Quad`, with its
  overflow traps written out, and as a bounded mathematical integer in `GenericMath`.
- Swift closed ranges: forming `b...e` is modelled as trapping when `e` is its type's
  largest value, because the range is built as the half-open range up to the successor
  of `e`. A decreasing range cannot occur, because every caller orders its bounds.
- `Quad.ToDouble` and `Quad.FromDouble` are stated on bit patterns. That the double the
  host rebuilds equals the original double depends on the host `ldexp`, which is not
  modelled.
- The loop `for i in 1...16` at main.swift:90 drives test assertions. It is not a loop
  of the modelled code, so `GenericMath.QuotientTest` states its body for each i in
  that range.
- The test harness (`test.eq`, `test.ok`, `test.done`) and the protocol conformances at
  main.swift:64-68. These are type-level declarations.
- Float128 has no infinity or NaN classification and no arithmetic of its own in the
  code (float128.swift ends at `description`), so the model has none either.
