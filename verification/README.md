# Ed25519 engine: a verified model

This project models the native Ed25519 engine (ed25519-donna) of the repository, from the
limbs of its integers up to batch verification, and the two streaming hashes beside it.  Each
layer is an imperative form with its own tricks (delayed carries, dropped columns, signed
digits, an indirect heap, block buffers); it is proved against a plain definition, and the
layers compose.

| layer | modules |
|---|---|
| words, bytes, digit strings | `Words`, `Bytes`, `Digits` |
| the field modulo p = 2^255 - 19 in five 51-bit limbs | `Fp`, `Field64`, `FieldCodec`, `AdditionChains` |
| the same field in ten limbs of 26 and 25 bits | `Field32`, `FieldCodec32`, `Points32` |
| scalars modulo L in five 56-bit limbs | `Modm64`, `ModmCodec`, `Recode`, `ModmBatch` |
| the curve and its coordinates | `AbelianGroup`, `Edwards`, `Coordinates`, `Points`, `PointCodec` |
| scalar multiplication | `ScalarMult`, `BaseMult` |
| keys, signatures, Curve25519 | `Signature`, `Curved25519`, `SignatureTheorems` |
| batch verification | `BatchHeap`, `FinalStage`, `BosCosterSpec`, `BosCosterRun`, `BosCoster`, `BatchSpec`, `BatchVerify`, `BatchTheorems` |
| streaming hashes | `BlockFold`, `Sha512`, `Ripemd160` |

`dafny verify dfyconfig.toml` checks everything.

How the C appears here:

- Scalars live in `array<u64>` and points in objects of class `Ge`, written in place as in the
  source, so callers may pass one array or object twice.  In the arrays of a batch (`ModmBatch`,
  `BatchHeap`, `BosCoster`, `BatchVerify`) a scalar is a value `Limbs` and a point a value
  `GeLimbs`; the run of multi-scalar multiplication loads them into `Ge` objects, adds them in
  extended coordinates and stores them back.  The digit buffers, the heap and the hash contexts
  are arrays and objects too.
- Machine words are ranges of the integers (`u64`, `u128`, ...).  Every value stored in one is
  proved to fit, except where the source wraps, and there the wrap-around is written out
  (`Sub64`, `Add64`, `Shl64`).  A mask is a remainder, a right shift a quotient, and an "or" of
  words that share no bit a sum.
- The switches of the batch helpers that fall through once per limb are loops over the limbs.
- The field elements of `Field64` and `Field32` are values, see the end of this file.
- Points, the group and the field appear beside the limbs as ghost values: `Full(r, a)` says that
  the coordinates in r stand for the point a of the curve.

What is assumed appears by name in the `requires` clauses: `Fermat` (Fermat's little theorem
for p), `NonSquareD` (d is not a square), `PlusAssociates` (the addition law is associative on
the curve), `OrderDividesL` and `HasExponent` (L annihilates a point), `Prime` (for L,
where a statement divides by a random number or a hash), `BaseTable` and
`OddNielsMultiples` (the precomputed tables hold the multiples of the base point they stand
for), and the hash or the compression step as a function.  Closure, commutativity, neutral
element, inverses and completeness of the addition law are proved.

Where the code differs from what its comments or a first reading suggest:

- The comment above `curve25519_square_times` (curve25519-donna-64bit.h:178) says
  in^(2 * count); the code computes in^(2^count), and that is what is proved.
- The last stage of multi-scalar multiplication starts from the point and then processes the
  leading bit again, so for a remaining scalar n >= 2 it yields [m + 2^bits(m)]P, m the low 224
  bits of n.  `FinalStage.FinalIsMultiple` and `FinalStage.MultiplierIsScalar` say exactly when
  that is [n]P, for every n; `BosCosterRun.LastStageExample` is an input where it is not.
- The remaining scalar is the greatest common divisor n of the scalars that took part.  The
  result r therefore satisfies [n]r = [m + 2^bits(m)]S for their sum S, and is S if n <= 1
  (`BosCosterRun.ResultOfGcd`).  In a group of prime exponent, such as the one of order L, the
  result is neutral exactly if S is, and is S exactly if the multiplier is n or S is neutral
  (`BosCosterRun.ResultInPrimeGroup`).  So the doubled bit never changes a batch verdict.
- The run can end before the heap is extended; the late scalars are then left out.  For n <= 1
  the result is the whole sum exactly if the late scalars sum to the neutral element
  (`BosCosterRun.EarlyExit`, with an input where they do not in `BosCosterRun.EarlyExitExample`);
  for a larger n exactly if n times the whole sum is the multiplier times the sum of the first
  scalars (`BosCosterRun.EarlyExitInPrimeGroup`, `BosCosterRun.LoneScalarExample`).  The
  examples hold for any point of odd exponent, or of an exponent prime to 5, such as those of
  exponent L.
- A batch of valid signatures whose keys have exponent L is accepted exactly if the heap is
  extended, or its first scalars stay in range and alone sum to the neutral element
  (`BatchTheorems.ValidBatchIsAccepted`).  Where it is not, single verification still reports
  every signature as valid; only bit 1 of the result is set (`BatchTheorems.AllValid`).
- The width of the operands at the extension is never a problem for the random 128-bit
  scalars: the maximum at most halves in a step, so three limbs are still in use
  (`BosCosterSpec.LateWidth`, `BosCosterRun.LateScalarsOf168Bits`).
- The scan for the leading bit starts in limb 3, so a remaining scalar of 2 or more whose low
  224 bits are all zero makes it run past limb 0, where the source has no defined behaviour.
  The methods of the model stop there and return `inRange == false`, exactly if `ScanStays`
  fails for the scalars: the heap is not extended, and the first scalars are all multiples of
  2^224 and not all zero (`BosCosterRun.LastScalar`, `BosCosterRun.RangeIsExact`).
  `BosCosterRun.RangeExample` is such an input.
- `heap_updated_root` repairs the heap only if every inner node has two children, so the
  number of entries has to be odd.  The caller passes 2n + 1 scalars.
- In ten limbs, `curve25519_sub` carries only through the first four.  That is what keeps the
  last carry of a product of two sums or differences inside 32 bits (`Field32.NinthFits`); three
  units in every limb would not fit (`Field32.UncarriedIsTooLarge`).
- Section 5.1.7 of RFC 8032 demands S < L.  The check of the top three bits admits every S below
  2^253, and S is then reduced modulo L, so a signature is accepted exactly if S is below 2^253
  and the signature with S mod L passes the strict rule (`Signature.AcceptedExactlyModL`); S + L
  stands for S wherever it is below 2^253 (`Signature.ShiftedResponse`).
- Section 5.1.3 of RFC 8032 rejects encodings with y >= p and those of x = 0 with the sign bit 1.
  Decompression takes both; they are exactly the strings that decode and are not the encoding
  of their point (`PointCodec.CanonicalEncoding`).

## Model

| member | source | states |
|---|---|---|
| Field64.Mul | src/main/native/crypto/ed25519-donna/curve25519-donna-64bit.h:106-171 | for all limbs below 2^54: no 64- or 128-bit sum overflows, every output limb is below 2^51 except limb 1, which is below 2^51 + 2^13, and the residue of the result is the product modulo p |
| Field64.Square | src/main/native/crypto/ed25519-donna/curve25519-donna-64bit.h:236-284 | the same bounds, and the residue of the result is the square modulo p, with each mixed product formed once and doubled |
| Field64.SquareTimes | src/main/native/crypto/ed25519-donna/curve25519-donna-64bit.h:178-233 | for every count > 0 the result is in^(2^count) modulo p; limbs stay in the multiplier's range through every pass of the loop |
| Field64.Add | src/main/native/crypto/ed25519-donna/curve25519-donna-64bit.h:25-33 | sum modulo p of two reduced elements, with limbs that stay in the range the next operations take |
| Field64.AddAfterBasic | src/main/native/crypto/ed25519-donna/curve25519-donna-64bit.h:36-43 | the same for operands that are themselves unreduced sums or differences |
| Field64.AddReduce | src/main/native/crypto/ed25519-donna/curve25519-donna-64bit.h:45-54 | sum modulo p, with limbs carried back to the reduced range |
| Field64.Sub | src/main/native/crypto/ed25519-donna/curve25519-donna-64bit.h:63-70 | difference modulo p: adding 2p limb by limb means no limb wraps below zero |
| Field64.SubAfterBasic | src/main/native/crypto/ed25519-donna/curve25519-donna-64bit.h:73-80 | difference modulo p of unreduced operands: adding 4p limb by limb means no limb wraps |
| Field64.SubReduce | src/main/native/crypto/ed25519-donna/curve25519-donna-64bit.h:82-91 | difference modulo p, with limbs carried back to the reduced range |
| Field64.Neg | src/main/native/crypto/ed25519-donna/curve25519-donna-64bit.h:94-103 | negation modulo p, with limbs carried back to the reduced range |
| FieldCodec.Expand | src/main/native/crypto/ed25519-donna/curve25519-donna-64bit.h:287-320 | the 51-bit limbs of the low 255 bits of 32 little-endian bytes; the top bit is ignored |
| FieldCodec.Freeze | src/main/native/crypto/ed25519-donna/curve25519-donna-64bit.h:325-366 | two carry passes, adding 19 and adding 2^255 - 19 leave the limbs of the residue itself, below p, for every input with limbs below 2^54 |
| FieldCodec.Contract | src/main/native/crypto/ed25519-donna/curve25519-donna-64bit.h:322-373 | the 32 little-endian bytes of the value modulo p |
| FieldCodec.ContractIsCanonical | src/main/native/crypto/ed25519-donna/curve25519-donna-64bit.h:322-373 | two elements give the same bytes exactly if they are congruent modulo p |
| FieldCodec.ContractOfExpand | src/main/native/crypto/ed25519-donna/curve25519-donna-64bit.h:287-373 | a string that encodes a number below p comes back unchanged from expand and contract |
| AdditionChains.Pow250 | src/main/native/crypto/ed25519-donna/curve25519-donna-helpers.h:7-34 | from x^(2^5 - 1) the chain reaches x^(2^250 - 1) |
| AdditionChains.Recip | src/main/native/crypto/ed25519-donna/curve25519-donna-helpers.h:36-50 | z^(p - 2), the inverse of z by Fermat's theorem |
| AdditionChains.PowTwo252m3 | src/main/native/crypto/ed25519-donna/curve25519-donna-helpers.h:52-67 | z^(2^252 - 3) = z^((p - 5) / 8) |
| Field32.Add | src/main/native/crypto/ed25519-donna/curve25519-donna-32bit.h:31-42 | sum modulo p of two reduced elements, limb by limb |
| Field32.AddAfterBasic | src/main/native/crypto/ed25519-donna/curve25519-donna-32bit.h:45-58 | sum modulo p of operands that are sums or differences, carried back to the reduced range |
| Field32.AddReduce | src/main/native/crypto/ed25519-donna/curve25519-donna-32bit.h:61-75 | the same steps and the same sum under the name for reduced results |
| Field32.Sub | src/main/native/crypto/ed25519-donna/curve25519-donna-32bit.h:86-99 | difference modulo p: 2p is added, no limb wraps, and the first four limbs are carried so that the result is a factor of a product |
| Field32.SubAfterBasic | src/main/native/crypto/ed25519-donna/curve25519-donna-32bit.h:102-115 | difference modulo p of operands that are sums or differences: 4p is added and no limb wraps |
| Field32.Neg | src/main/native/crypto/ed25519-donna/curve25519-donna-32bit.h:135-150 | negation modulo p |
| Field32.Mul | src/main/native/crypto/ed25519-donna/curve25519-donna-32bit.h:153-247 | product modulo p of two factors that are sums or differences: no 32-bit factor, 64-bit column or 32-bit carry overflows |
| Field32.Square | src/main/native/crypto/ed25519-donna/curve25519-donna-32bit.h:252-322 | square modulo p of a sum or difference, each mixed product formed once with its factors doubled, within the same ranges |
| Field32.SquareTimes | src/main/native/crypto/ed25519-donna/curve25519-donna-32bit.h:326-399 | for every count > 0 the result is in^(2^count) modulo p, with limbs that stay factors through every round |
| Field32.NinthFits | src/main/native/crypto/ed25519-donna/curve25519-donna-32bit.h:153-247 | for such factors the carry out of the last column fits 32 bits |
| Field32.UncarriedIsTooLarge | src/main/native/crypto/ed25519-donna/curve25519-donna-32bit.h:86-99 | without the carries of the subtraction it need not: three units in every limb make it too large |
| Points32.AddP1P1 | src/main/native/crypto/ed25519-donna/ed25519-donna-impl-base.h:32-51 | in ten limbs every factor of the addition formula is a reduced element, one sum or one difference, so the multiplier takes it, and the limbs stand for the formula's coordinates |
| Points32.DoubleP1P1 | src/main/native/crypto/ed25519-donna/ed25519-donna-impl-base.h:53-67 | the same for doubling |
| Points32.NielsAdd2P1P1 | src/main/native/crypto/ed25519-donna/ed25519-donna-impl-base.h:69-86 | the same for adding or subtracting an affine cached point |
| Points32.PNielsAddP1P1 | src/main/native/crypto/ed25519-donna/ed25519-donna-impl-base.h:88-106 | the same for a projective cached point |
| Points32.P1P1ToPartial | src/main/native/crypto/ed25519-donna/ed25519-donna-impl-base.h:5-10 | completed coordinates multiplied out to X, Y, Z in ten limbs |
| Points32.P1P1ToFull | src/main/native/crypto/ed25519-donna/ed25519-donna-impl-base.h:12-18 | the same with T |
| Points32.FullToPNiels | src/main/native/crypto/ed25519-donna/ed25519-donna-impl-base.h:20-26 | the cached form in ten limbs |
| Points32.NielsAdd2 | src/main/native/crypto/ed25519-donna/ed25519-donna-impl-base.h:129-147 | adds an affine cached point in place, in ten limbs |
| Points32.PNielsAdd | src/main/native/crypto/ed25519-donna/ed25519-donna-impl-base.h:149-172 | the cached form of a sum, in ten limbs |
| FieldCodec32.Expand | src/main/native/crypto/ed25519-donna/curve25519-donna-32bit.h:402-443 | the limbs of the low 255 bits of 32 little-endian bytes; the top bit is ignored |
| FieldCodec32.Freeze | src/main/native/crypto/ed25519-donna/curve25519-donna-32bit.h:449-493 | carry passes, adding 19 and adding 2^255 - 19 leave the limbs of the residue itself |
| FieldCodec32.Put | src/main/native/crypto/ed25519-donna/curve25519-donna-32bit.h:508-512 | or-ing a shifted limb into the last byte written and writing three more adds its weighted value to the number written so far |
| FieldCodec32.Contract | src/main/native/crypto/ed25519-donna/curve25519-donna-32bit.h:449-527 | the 32 little-endian bytes of the value modulo p |
| FieldCodec32.LayoutsAgree | src/main/native/crypto/ed25519-donna/curve25519-donna-32bit.h:449-527 | the two layouts write the same bytes exactly for the same residue |
| Modm64.Reduce256 | src/main/native/crypto/ed25519-donna/modm-donna-64bit.h:42-63 | subtracts L exactly if the value is at least L, by a borrow chain and masks |
| Modm64.QuotientEstimate | src/main/native/crypto/ed25519-donna/modm-donna-64bit.h:66-107 | with the low columns of mu * q1 dropped, the estimate is never too large and at most two too small: 0 <= x - L q3 < 3 L |
| Modm64.DroppedColumns | src/main/native/crypto/ed25519-donna/modm-donna-64bit.h:72-82 | the columns that are never computed amount to less than 2^226 |
| Modm64.BarrettReduce256 | src/main/native/crypto/ed25519-donna/modm-donna-64bit.h:65-107 | x mod L, below L, for every x < 2^512, also when the output array is the array of the remainder |
| Modm64.Add256 | src/main/native/crypto/ed25519-donna/modm-donna-64bit.h:110-120 | x + y mod L for reduced x and y, whatever arrays coincide |
| Modm64.Mul256 | src/main/native/crypto/ed25519-donna/modm-donna-64bit.h:123-150 | x y mod L for any x, y below 2^256, whatever arrays coincide |
| Modm64.OrderConstants | src/main/native/crypto/ed25519-donna/modm-donna-64bit.h:6-12 | L is 2^252 + 27742317777372353535851937790883648493 and mu the integer part of 2^512 / L |
| ModmCodec.Expand256 | src/main/native/crypto/ed25519-donna/modm-donna-64bit.h:152-187 | the value of up to 64 little-endian bytes modulo L, with the reduction skipped below 32 bytes because the value is below L already; the output array is passed to the reduction as its input |
| ModmCodec.ExpandRaw256 | src/main/native/crypto/ed25519-donna/modm-donna-64bit.h:189-203 | the value of 32 bytes, unreduced |
| ModmCodec.Contract256 | src/main/native/crypto/ed25519-donna/modm-donna-64bit.h:205-211 | the 32 little-endian bytes of any value below 2^256 |
| Recode.Window4 | src/main/native/crypto/ed25519-donna/modm-donna-64bit.h:213-238 | for every s < 2^255: 64 digits with sum r[i] 16^i = s, the first 63 in [-8, 7] and the last in [0, 8] |
| Recode.SlidingWindow | src/main/native/crypto/ed25519-donna/modm-donna-64bit.h:240-280 | for every s < 2^255 and window size 2 to 7: sum r[i] 2^i = s, no carry leaves position 255, every nonzero digit is odd, at most 2^(w-1) - 1 in absolute value and followed by w - 1 zeros |
| ModmBatch.Lt256Batch | src/main/native/crypto/ed25519-donna/modm-donna-64bit.h:302-315 | a < b on the limbs in use, from a chain of borrows |
| ModmBatch.Lte256Batch | src/main/native/crypto/ed25519-donna/modm-donna-64bit.h:317-330 | a <= b on the limbs in use |
| ModmBatch.Sub256Batch | src/main/native/crypto/ed25519-donna/modm-donna-64bit.h:286-299 | a - b on the limbs in use, for a >= b; the last limb needs no mask and the higher limbs are not touched |
| ModmBatch.IsAtMost128Bits | src/main/native/crypto/ed25519-donna/modm-donna-64bit.h:352-361 | tells exactly whether the value is below 2^128 |
| ModmBatch.IsZero256Batch | src/main/native/crypto/ed25519-donna/modm-donna-64bit.h:332-340 | tells exactly whether the value is 0 |
| ModmBatch.IsOne256Batch | src/main/native/crypto/ed25519-donna/modm-donna-64bit.h:342-350 | tells exactly whether the value is 1 |
| ModmBatch.FitsLow | src/main/native/crypto/ed25519-donna/modm-donna-64bit.h:302-315 | a value below 2^(56 n) has no limb from n on, so comparing n limbs compares the values |
| Edwards.Completeness | src/main/native/crypto/ed25519-donna/ed25519-donna-impl-base.h:28-67 | the denominators 1 + d x1 x2 y1 y2 and 1 - d x1 x2 y1 y2 never vanish on the curve, for d not a square |
| Edwards.PlusOnCurve | src/main/native/crypto/ed25519-donna/ed25519-donna-impl-base.h:28-67 | the sum of two points of -x^2 + y^2 = 1 + d x^2 y^2 is on the curve |
| Edwards.CurveIsAbelian | src/main/native/crypto/ed25519-donna/ed25519-donna-impl-base.h:1-106 | the points form an abelian group, given Fermat's theorem, d not a square, and associativity |
| Edwards.Constants | src/main/native/crypto/ed25519-donna/ed25519-donna-64bit-tables.h:8-18 | d = -121665/121666 and the square root of -1, checked by evaluation |
| Coordinates.AddExtFor | src/main/native/crypto/ed25519-donna/ed25519-donna-impl-base.h:32-51 | extended coordinates of p and q (XY = ZT, Z not zero) go to completed coordinates of p + q |
| Coordinates.AddCachedFor | src/main/native/crypto/ed25519-donna/ed25519-donna-impl-base.h:88-106 | adding the cached form of q gives completed coordinates of p + q |
| Coordinates.SubCachedIsAddNeg | src/main/native/crypto/ed25519-donna/ed25519-donna-impl-base.h:69-106 | sign bit 1 gives, coordinate by coordinate, the addition of the cached form of -q |
| Coordinates.SubCachedFor | src/main/native/crypto/ed25519-donna/ed25519-donna-impl-base.h:69-106 | and so completed coordinates of p - q |
| Coordinates.DoubleFor | src/main/native/crypto/ed25519-donna/ed25519-donna-impl-base.h:53-67 | doubling reads only X, Y, Z and gives completed coordinates of 2p |
| Coordinates.ToFullFor | src/main/native/crypto/ed25519-donna/ed25519-donna-impl-base.h:12-18 | the full conversion restores XY = ZT and Z not zero |
| Coordinates.ToCachedFor | src/main/native/crypto/ed25519-donna/ed25519-donna-impl-base.h:20-26 | the cached form of a point in extended coordinates |
| Points.AddP1P1 | src/main/native/crypto/ed25519-donna/ed25519-donna-impl-base.h:32-51 | every chain of unreduced additions and subtractions stays in the multiplier's range, and the limbs stand for the coordinates of the addition formula |
| Points.DoubleP1P1 | src/main/native/crypto/ed25519-donna/ed25519-donna-impl-base.h:53-67 | the same for doubling |
| Points.NielsAdd2P1P1 | src/main/native/crypto/ed25519-donna/ed25519-donna-impl-base.h:69-86 | the same for adding or subtracting an affine cached point, selected by the sign bit |
| Points.PNielsAddP1P1 | src/main/native/crypto/ed25519-donna/ed25519-donna-impl-base.h:88-106 | the same for a projective cached point |
| Points.P1P1ToFull | src/main/native/crypto/ed25519-donna/ed25519-donna-impl-base.h:12-18 | overwrites r with the full coordinates of p |
| Points.PNielsAdd | src/main/native/crypto/ed25519-donna/ed25519-donna-impl-base.h:149-172 | the cached form of the sum of a point and a cached point, with limbs in range for later additions |
| Points.NielsAdd2 | src/main/native/crypto/ed25519-donna/ed25519-donna-impl-base.h:129-147 | adds an affine cached point to r in place |
| PointCodec.Pack | src/main/native/crypto/ed25519-donna/ed25519-donna-impl-base.h:179-189 | y with the low bit of x in the top bit, for any extended coordinates of the point (section 5.1.2 of RFC 8032) |
| PointCodec.UnpackNegative | src/main/native/crypto/ed25519-donna/ed25519-donna-impl-base.h:191-239 | succeeds exactly if DecodeNegative does, and then leaves its point with z = 1, t = x y and reduced limbs |
| PointCodec.DecodeIsSound | src/main/native/crypto/ed25519-donna/ed25519-donna-impl-base.h:191-239 | a decoded point is on the curve, has the encoded y, and the low bit of x differs from the encoded sign bit unless x = 0 (section 5.1.3 of RFC 8032, negated) |
| PointCodec.DecodeIsComplete | src/main/native/crypto/ed25519-donna/ed25519-donna-impl-base.h:191-239 | decoding succeeds exactly if some point of the curve has the encoded y |
| PointCodec.DecodeOfEncode | src/main/native/crypto/ed25519-donna/ed25519-donna-impl-base.h:179-239 | unpacking the encoding of any point of the curve gives its negation |
| PointCodec.SameEncoding | src/main/native/crypto/ed25519-donna/ed25519-donna-impl-base.h:179-189 | a string encodes a point exactly if its low 255 bits are y and its top bit is the low bit of x |
| PointCodec.CanonicalEncoding | src/main/native/crypto/ed25519-donna/ed25519-donna-impl-base.h:191-239 | a string that decodes is the encoding of its point exactly if it holds y below p and no sign bit for x = 0; the code takes the others too |
| PointCodec.EncodedValue | src/main/native/crypto/ed25519-donna/ed25519-donna-impl-base.h:179-189 | the encoding as a number: y, with the low bit of x at 2^255 |
| PointCodec.DecodedParts | src/main/native/crypto/ed25519-donna/ed25519-donna-impl-base.h:191-239 | what is read from any string: its low 255 bits modulo p, and the bit at 2^255 |
| ScalarMult.BuildTable | src/main/native/crypto/ed25519-donna/ed25519-donna-impl-base.h:263-266 | the eight odd multiples p, 3p, ..., 15p in cached form |
| ScalarMult.DoubleScalarMult | src/main/native/crypto/ed25519-donna/ed25519-donna-impl-base.h:251-292 | [s1]p1 + [s2]b for all scalars below 2^255: table indices are in range, skipping leading zeros changes nothing, and the form without t is enough between doublings |
| BaseMult.WindowEqualIsEquality | src/main/native/crypto/ed25519-donna/ed25519-donna-impl-base.h:298-301 | the top bit of (b xor c) - 1 tells whether b equals c |
| BaseMult.ChooseNiels | src/main/native/crypto/ed25519-donna/ed25519-donna-impl-base.h:303-328 | for every digit in [-8, 8] the masked scan of a table row and the conditional swaps yield the signed entry [d 256^pos]b, or the neutral element for 0 |
| BaseMult.ScalarMultBase | src/main/native/crypto/ed25519-donna/ed25519-donna-impl-base.h:333-363 | [s]b for every s < 2^255 by odd digits, four doublings, even digits; row 0 is stored without the factor d |
| Signature.MakePublicKey | src/main/native/crypto/ed25519-donna/ed25519.c:44-55 | the encoding of [a]b for the clamped low half a of the hashed secret key modulo L |
| Signature.Sign | src/main/native/crypto/ed25519-donna/ed25519.c:58-91 | R and S as section 5.1.6 of RFC 8032 defines them: R = [r]b and S = (H(R, A, m) a + r) mod L |
| Signature.SignOpen | src/main/native/crypto/ed25519-donna/ed25519.c:93-116 | returns 0 exactly if the range check passes, the key decodes, and the encoding of [S]b - [h]A is R |
| Signature.SignatureIsAccepted | src/main/native/crypto/ed25519-donna/ed25519.c:58-116 | every signature made with the matching public key is accepted, if L annihilates b |
| Signature.WithReferenceHash | src/main/native/crypto/ed25519-donna/ed25519.c:26-116 | and this holds with the reference SHA-512 as the hash, for any compression step |
| Signature.RangeCheckPasses | src/main/native/crypto/ed25519-donna/ed25519.c:100-101 | the last byte of a scalar below L has its top three bits clear |
| Signature.RangeCheckIs253Bits | src/main/native/crypto/ed25519-donna/ed25519.c:100-101 | the check of the top three bits admits exactly S below 2^253 |
| Signature.AcceptedExactlyModL | src/main/native/crypto/ed25519-donna/ed25519.c:93-116 | a signature is accepted exactly if S is below 2^253 and the signature with S mod L passes the strict rule S < L |
| Signature.ShiftedResponse | src/main/native/crypto/ed25519-donna/ed25519.c:93-116 | S + L is accepted in place of S wherever it is below 2^253 |
| Signature.VerificationEquation | src/main/native/crypto/ed25519-donna/ed25519.c:66-91 | [h](-A) + [S]b = R for S = (h a + r) mod L and A = [a]b |
| SignatureTheorems.PublicKeyValue | src/main/native/crypto/ed25519-donna/ed25519.c:44-55 | for every hash and key: the public key is the encoding of [a]B for a = 2^254 + v mod 2^254 - v mod 8, where v is the number in the lower half of the hash of sk |
| SignatureTheorems.KeysAgree | src/main/native/crypto/ed25519-donna/ed25519.c:27-149 | the Ed25519 key of sk and the Curve25519 key of the lower half of its hash belong to one point: the u-coordinate of the first is the second |
| SignatureTheorems.SignatureParts | src/main/native/crypto/ed25519-donna/ed25519.c:58-91 | R encodes [n]B and S is c a + n modulo L, where n is the hash of the upper half of H(sk) and the message, c the hash of R, public key and message, and a the clamped lower half, all as numbers |
| SignatureTheorems.SignedReads | src/main/native/crypto/ed25519-donna/ed25519.c:58-91 | two hashes that agree on sk, on the upper half of its hash followed by the message, and on R, public key and message give the same signature |
| SignatureTheorems.SameNonce | src/main/native/crypto/ed25519-donna/ed25519.c:67-76 | for a prime L, two messages signed with one key share R exactly if the hashes of the upper half of H(sk) with either message are equal modulo L |
| SignatureTheorems.AcceptedByEquation | src/main/native/crypto/ed25519-donna/ed25519.c:93-116 | accepted exactly if S is below 2^253, the key decodes to the negation of a point A, R is the encoding of a point, and [S]B = R + [H(R, A, M)]A |
| SignatureTheorems.AcceptsReads | src/main/native/crypto/ed25519-donna/ed25519.c:34-42 | two hashes that agree on R followed by key and message accept the same signature |
| SignatureTheorems.OtherMessage | src/main/native/crypto/ed25519-donna/ed25519.c:93-116 | for a prime L and a key of exponent L, a signature accepted for one message is accepted for another exactly if R, key and message hash to the same number modulo L, or the key is neutral |
| SignatureTheorems.OneResponse | src/main/native/crypto/ed25519-donna/ed25519.c:93-116 | for a prime L, with the R of an accepted signature another S is accepted exactly if it is equal modulo L and below 2^253 |
| Curved25519.ClampedValue | src/main/native/crypto/ed25519-donna/ed25519.c:132-136 | for every 32-byte string with the number v: the clamped number is 2^254 + v mod 2^254 - v mod 8, a multiple of 8 between 2^254 and 2^255 |
| Curved25519.ClampedHalf | src/main/native/crypto/ed25519-donna/ed25519.c:26-32 | in the 64 bytes of a hashed key the lower half is clamped and the upper half stays |
| Curved25519.MontgomeryULaw | src/main/native/crypto/ed25519-donna/ed25519.c:143-148 | u is the only solution of u (1 - y) = 1 + y, and 0 where y = 1 |
| Curved25519.ScalarMultBasepoint | src/main/native/crypto/ed25519-donna/ed25519.c:120-149 | the 32 bytes of u = (1 + y) / (1 - y) of the clamped multiple of the base point |
| BatchHeap.InsertNext | src/main/native/crypto/ed25519-donna/ed25519-donna-batchverify.h:30-48 | the heap stays a permutation of 0 .. size - 1 in max-heap order on the full scalars |
| BatchHeap.SinkStep | src/main/native/crypto/ed25519-donna/ed25519-donna-batchverify.h:60-69 | exchanging the changed entry with its larger child leaves only that entry out of order |
| BatchHeap.SiftUpStep | src/main/native/crypto/ed25519-donna/ed25519-donna-batchverify.h:71-77 | exchanging an entry with a parent that is not larger moves the disorder up |
| BatchHeap.UpdatedRoot | src/main/native/crypto/ed25519-donna/ed25519-donna-batchverify.h:50-78 | for an odd number of entries, sinking the changed root to the bottom and lifting it again restores the max-heap and keeps the permutation |
| BatchHeap.Build | src/main/native/crypto/ed25519-donna/ed25519-donna-batchverify.h:80-86 | the first count indices in heap order |
| BatchHeap.Extend | src/main/native/crypto/ed25519-donna/ed25519-donna-batchverify.h:88-93 | the first newCount indices in heap order |
| BatchHeap.GetTop2 | src/main/native/crypto/ed25519-donna/ed25519-donna-batchverify.h:95-103 | two different indices: no scalar exceeds the first, and none but the first exceeds the second |
| BatchHeap.RootIsLargest | src/main/native/crypto/ed25519-donna/ed25519-donna-batchverify.h:95-103 | the root holds the largest key, and entry 1 or 2 the second largest |
| FinalStage.Final | src/main/native/crypto/ed25519-donna/ed25519-donna-batchverify.h:105-148 | finds a limb to start from exactly if the scalar is 0, 1 or has a nonzero low part of 224 bits; then 0 and 1 times the point, and otherwise [m + 2^bits(m)] of the point for that low part m: the leading bit is processed twice |
| FinalStage.MultiplierValue | src/main/native/crypto/ed25519-donna/ed25519-donna-batchverify.h:124-147 | the multiplier in numbers: n for n <= 1, and otherwise m + 2^(k + 1) for the low 224 bits m of n and the place k of their leading bit |
| FinalStage.FinalIsMultiple | src/main/native/crypto/ed25519-donna/ed25519-donna-batchverify.h:105-148 | for every scalar n and in any group, the stage returns [n]p exactly if its multiplier minus n annihilates p |
| FinalStage.MultiplierIsScalar | src/main/native/crypto/ed25519-donna/ed25519-donna-batchverify.h:124-147 | the multiplier is n itself exactly for n <= 1 and from 3 * 2^223 up to below 2^225 |
| FinalStage.FinalInOddGroup | src/main/native/crypto/ed25519-donna/ed25519-donna-batchverify.h:105-148 | in a group of odd exponent, for scalars of at most 224 bits, exactly if n <= 1 or p is neutral |
| FinalStage.FinalInPrimeGroup | src/main/native/crypto/ed25519-donna/ed25519-donna-batchverify.h:105-148 | in a group of prime exponent above n: [n]p exactly if the multiplier is n or p is neutral, and the result is neutral exactly if [n]p is |
| BosCosterSpec.ReduceKeepsSum | src/main/native/crypto/ed25519-donna/ed25519-donna-batchverify.h:182-183 | one step keeps the sum of all multiples: (x - y)a + y(b + a) = xa + yb |
| BosCosterSpec.ReduceKeepsDivisors | src/main/native/crypto/ed25519-donna/ed25519-donna-batchverify.h:182-183 | one step keeps the common divisors of the scalars |
| BosCosterSpec.TopTwo | src/main/native/crypto/ed25519-donna/ed25519-donna-batchverify.h:163-165 | the two indices from the heap are the two largest members of the multiset of scalars, and a step replaces the largest by the difference |
| BosCosterSpec.LateWidth | src/main/native/crypto/ed25519-donna/ed25519-donna-batchverify.h:171-179 | the largest scalar at most halves in a step, so at the extension at least three limbs are in use |
| BosCoster.Reduce | src/main/native/crypto/ed25519-donna/ed25519-donna-batchverify.h:182-184 | one round on the arrays: the larger scalar becomes the difference, the coordinates of the other point stand for the sum of the two, and the repaired heap still fits the limbs in use |
| BosCoster.Widths | src/main/native/crypto/ed25519-donna/ed25519-donna-batchverify.h:163-180 | the width never underflows, every scalar in the heap fits it, and the heap is extended exactly in the first pass in which two scalars are nonzero and the largest is below 2^128 |
| BosCoster.MultiScalarMult | src/main/native/crypto/ed25519-donna/ed25519-donna-batchverify.h:150-188 | for every odd count >= 5: the loop ends; the last stage stays in range exactly if ScanStays holds of the scalars; and then r holds coordinates of what it makes of n and p, where n is the gcd of the scalars that took part, [n]p the sum of their multiples, and p has every exponent common to all points |
| BosCosterRun.Half | src/main/native/crypto/ed25519-donna/ed25519-donna-batchverify.h:161-162 | for an odd count the heap starts with the least odd number that is more than half of it |
| BosCosterRun.ActiveSumIs | src/main/native/crypto/ed25519-donna/ed25519-donna-batchverify.h:150-188 | after an extension all multiples are summed up, and otherwise those of the first scalars |
| BosCosterRun.ResultOfGcd | src/main/native/crypto/ed25519-donna/ed25519-donna-batchverify.h:150-188 | in any group, for the gcd n of the scalars that took part and their sum S: [n] of the result is [multiplier of n]S, and the result is S if n <= 1 |
| BosCosterRun.WholeSum | src/main/native/crypto/ed25519-donna/ed25519-donna-batchverify.h:150-188 | if the heap is extended and no d > 1 divides all scalars, the result is the whole sum |
| BosCosterRun.ResultInPrimeGroup | src/main/native/crypto/ed25519-donna/ed25519-donna-batchverify.h:150-188 | in a group of prime exponent above the scalars: the result is neutral exactly if S is, and it is S exactly if the multiplier is n or S is neutral |
| BosCosterRun.LastStageExample | src/main/native/crypto/ed25519-donna/ed25519-donna-batchverify.h:124-147 | five scalars 2 on a point a of odd exponent and four neutral ones: [6]a and nothing else is returned, the sum is [2]a, and they differ unless a is neutral |
| BosCosterRun.EarlyExit | src/main/native/crypto/ed25519-donna/ed25519-donna-batchverify.h:167-169 | when the loop ends before the extension with gcd at most 1, the result is the whole sum exactly if the late scalars sum to the neutral element |
| BosCosterRun.EarlyExitInPrimeGroup | src/main/native/crypto/ed25519-donna/ed25519-donna-batchverify.h:167-188 | for a larger gcd n, in a group of prime exponent: exactly if n times the whole sum is the multiplier of n times the sum of the first scalars |
| BosCosterRun.LastScalar | src/main/native/crypto/ed25519-donna/ed25519-donna-batchverify.h:124-126 | ScanStays, a condition on the scalars, says exactly whether the scan for the leading limb of the gcd stays inside it |
| BosCosterRun.EarlyExitExample | src/main/native/crypto/ed25519-donna/ed25519-donna-batchverify.h:167-169 | scalars 1, 0, 0, 1, 0 on a, 0, 0, a, 0 in any group: a and nothing else is returned, the sum is a + a, and they differ unless a is neutral |
| BosCosterRun.LoneScalarExample | src/main/native/crypto/ed25519-donna/ed25519-donna-batchverify.h:124-169 | a lone first scalar 5 on a point a of exponent prime to 5: [13]a and nothing else is returned, the sum is [5]a, and they agree exactly if [8]a is neutral |
| BosCosterRun.RangeIsExact | src/main/native/crypto/ed25519-donna/ed25519-donna-batchverify.h:124-126 | the scan for the leading limb of the gcd stays inside the scalar exactly if some scalar is not a multiple of 2^224 or all are zero |
| BosCosterRun.RangeExample | src/main/native/crypto/ed25519-donna/ed25519-donna-batchverify.h:124-126 | a lone scalar 2^224, which is below L, is an input on which the scan leaves its limbs |
| BosCosterRun.LateScalarsOf168Bits | src/main/native/crypto/ed25519-donna/ed25519-donna-batchverify.h:174-179 | scalars of at most 168 bits fit the limbs in use at the extension, whatever the first ones are |
| BatchSpec.ValidBatchIsNeutral | src/main/native/crypto/ed25519-donna/ed25519-donna-batchverify.h:217-247 | in a group of exponent L, signatures that each satisfy their equation make the batch sum neutral, for any random scalars |
| BatchSpec.SumIsCombination | src/main/native/crypto/ed25519-donna/ed25519-donna-batchverify.h:217-247 | with base point and keys of exponent L, the batch sum is the combination of what each signature is off by, [S]B + [h](-A) - R, with its own random scalar |
| BatchVerify.ComputeScalars | src/main/native/crypto/ed25519-donna/ed25519-donna-batchverify.h:217-237 | the 2n + 1 scalars: the sum of r[i] S[i], the products r[i] h[i], and the r[i], all modulo L |
| BatchTheorems.ScalarEntries | src/main/native/crypto/ed25519-donna/ed25519-donna-batchverify.h:219-238 | scalar i + 1 is random number i times the hash of R, key and message i, and scalar n + 1 + i is random number i, modulo L |
| BatchTheorems.FirstScalar | src/main/native/crypto/ed25519-donna/ed25519-donna-batchverify.h:225-231 | with one more signature, the first scalar gains the product of its random number and its S |
| BatchTheorems.PointEntries | src/main/native/crypto/ed25519-donna/ed25519-donna-batchverify.h:240-247 | the points are the base point, the decoded keys and the decoded R's, in the order of the scalars |
| BatchTheorems.BatchEntries | src/main/native/crypto/ed25519-donna/ed25519-donna-batchverify.h:216-266 | signature j of batch k is signature 64 k + j, with its own message, key, bytes and random number |
| BatchVerify.UnpackAll | src/main/native/crypto/ed25519-donna/ed25519-donna-batchverify.h:241-246 | decodes all strings to extended coordinates of the negated points, or reports the first that does not decode |
| BatchVerify.IsNeutral | src/main/native/crypto/ed25519-donna/ed25519-donna-batchverify.h:193-202 | comparing encoded coordinates tells exactly whether the point is neutral |
| BatchVerify.OneBatch | src/main/native/crypto/ed25519-donna/ed25519-donna-batchverify.h:217-249 | the verdict on a batch: undecodable exactly if some key or R does not decode, out of range exactly if it decodes and ScanStays fails, and otherwise accepted exactly if the coordinates that multi-scalar multiplication returns stand for the neutral element |
| BatchTheorems.UndecodableVerdict | src/main/native/crypto/ed25519-donna/ed25519-donna-batchverify.h:240-253 | a batch is undecodable exactly if some key or R in it does not decode, and then it is not accepted |
| BatchVerify.VerifySingly | src/main/native/crypto/ed25519-donna/ed25519-donna-batchverify.h:252-256 | each entry in the range is the verdict of single verification, bit 0 is set if one is 0, and no other entry changes |
| BatchVerify.SignOpenBatch | src/main/native/crypto/ed25519-donna/ed25519-donna-batchverify.h:204-274 | for every number of signatures: all runs stay in range exactly if ScanStays holds of every batch that decodes; and then a valid signature gets 1 in whatever batch it is, an invalid one gets 1 exactly in an accepted batch, bit 0 of the result says some entry is 0 and bit 1 that some batch equation failed; entries beyond the last stay |
| BatchTheorems.ValidBatchEquation | src/main/native/crypto/ed25519-donna/ed25519-donna-batchverify.h:217-248 | valid signatures decode and, with keys of exponent L, satisfy the batch equation |
| BatchTheorems.VerdictIsExact | src/main/native/crypto/ed25519-donna/ed25519-donna-batchverify.h:204-257 | for a prime L that annihilates base point, keys and R's, a batch is accepted exactly if its run stays in range and the multiples of the scalars that took part sum to the neutral element, whatever their gcd |
| BatchTheorems.ValidBatchIsAccepted | src/main/native/crypto/ed25519-donna/ed25519-donna-batchverify.h:204-257 | a batch of valid signatures with keys of exponent L is accepted exactly if the heap is extended, or its first scalars stay in range and alone sum to the neutral element |
| BatchTheorems.AllValid | src/main/native/crypto/ed25519-donna/ed25519-donna-batchverify.h:204-274 | if all signatures are valid and all runs stay in range, in however many batches, no entry is 0; and with keys of exponent L the result is 0 exactly if every batch is extended or balanced by its first scalars |
| BatchTheorems.ValidExactlyIfBalanced | src/main/native/crypto/ed25519-donna/ed25519.c:93-116 | a signature is valid exactly if it is balanced, S is below 2^253, and R is the encoding of its point |
| BatchTheorems.OneRandomNumber | src/main/native/crypto/ed25519-donna/ed25519-donna-batchverify.h:217-248 | for a prime L that annihilates base point, keys and R's: two batches that differ in one random number have the same sum exactly if that signature is balanced |
| BatchTheorems.AcceptedTwice | src/main/native/crypto/ed25519-donna/ed25519-donna-batchverify.h:204-257 | so if two such batches are both accepted after an extension, that signature is balanced: at most one value of its random number lets an unbalanced signature through |
| BlockFold.FoldConcat | src/main/native/crypto/ed25519-donna/ed25519-hash.h:90-106 | folding over a message after whole blocks continues the fold |
| BlockFold.PaddedInjective | src/main/native/crypto/ed25519-donna/ed25519-hash.h:152-178 | the message can be read off its padding, if the tail tells the length |
| BlockFold.FoldNothing | src/main/native/crypto/ed25519-donna/ed25519-hash.h:140-146 | bytes that do not fill a block are not compressed |
| Sha512.Context.Blocks | src/main/native/crypto/ed25519-donna/ed25519-hash.h:89-106 | compresses each block and advances the two-word bit counter |
| Sha512.Counter | src/main/native/crypto/ed25519-donna/ed25519-hash.h:102-103 | the carry between the counter words is exact modulo 2^128 |
| Sha512.CountBits | src/main/native/crypto/ed25519-donna/ed25519-hash.h:155-167 | the two words that final writes are the bit length modulo 2^128, with no carry lost from the bytes left over |
| Sha512.Context.Update | src/main/native/crypto/ed25519-donna/ed25519-hash.h:122-151 | after any update the state stands for the old message followed by the input |
| Sha512.Context.Final | src/main/native/crypto/ed25519-donna/ed25519-hash.h:153-178 | the digest of all that was absorbed: the block fold over the padding of section 5.1.2 of FIPS 180-4 |
| Sha512.HashParts | src/main/native/crypto/ed25519-donna/ed25519-hash.h:108-178 | any number of updates followed by final hashes the concatenation |
| Sha512.PadIsInjective | src/main/native/crypto/ed25519-donna/ed25519-hash.h:152-178 | different messages below 2^125 bytes are padded differently, to whole blocks |
| Sha512.PadLayout | src/main/native/crypto/ed25519-donna/ed25519-hash.h:153-168 | the padded message: whole blocks, the message, 0x80, fewer than 128 zeros, and the bit length in 16 bytes with the most significant first |
| Sha512.DigestWords | src/main/native/crypto/ed25519-donna/ed25519-hash.h:170-177 | byte j of word k of the last chaining value, counted from the most significant, is byte 8 k + j of the digest |
| Sha512.InitialWords | src/main/native/crypto/ed25519-donna/ed25519-hash.h:108-117 | the initial words are the first 64 bits behind the point of the square roots of 2, 3, 5, 7, 11, 13, 17, 19 |
| Sha512.FlattenConcat | src/main/native/crypto/ed25519-donna/ed25519-hash.h:108-178 | the parts that are hashed stand one after the other |
| Ripemd160.State.Process | src/main/native/crypto/ripemd160.c:269-302 | after any call the state stands for the old message followed by the input; the buffer is never left full and is zero from bufpos on |
| Ripemd160.State.Done | src/main/native/crypto/ripemd160.c:304-330 | the digest of all that was processed: the block fold over the padding of sections 3.1 and 3.2 of RFC 1320 |
| Ripemd160.PadIsInjective | src/main/native/crypto/ripemd160.c:304-323 | different messages below 2^61 bytes are padded differently, to whole blocks |
| Ripemd160.PadLayout | src/main/native/crypto/ripemd160.c:304-323 | the padded message: whole blocks, the message, 0x80, fewer than 64 zeros, and the bit length in 8 bytes with the least significant first |
| Ripemd160.DigestWords | src/main/native/crypto/ripemd160.c:324-328 | byte j of word k of the last chaining value, counted from the least significant, is byte 4 k + j of the digest |
| Ripemd160.InitialBytes | src/main/native/crypto/ripemd160.c:57-59 | the initial words hold the bytes 01 23 45 67 89 AB CD EF FE DC BA 98 76 54 32 10 F0 E1 D2 C3 |

## Left out

- Field64.Mul: the field elements are values, so the model does not capture that an output limb array may be one of the inputs; the source reads its inputs into locals before it writes.  The same holds for the other members of `Field64`, `Field32`, `FieldCodec` and `AdditionChains`.
- BosCoster.MultiScalarMult: for an odd count of at least 5, which is what its caller passes, and for scalars with `Suitable`, that is with late scalars that fit the limbs then in use (the source calls them the 128-bit scalars).
- BatchVerify.SignOpenBatch: says nothing of the entries and the result if the run on some batch leaves its range, because the source has no defined behaviour there.
- BatchHeap.UpdatedRoot: for an odd number of entries.
- BatchVerify.ComputeScalars: the scalars of a batch are values `Limbs`, so that one of them is passed as both input and output of `mul256_modm`, `add256_modm` and `sub256_modm_batch` does not show there; `Modm64.Mul256` and `Modm64.Add256` show it for arrays.
- BatchTheorems.AcceptedTwice: only for a batch whose heap is extended; without an extension the late scalars take no part, and the verdict says nothing about their R's.
- Recode.SlidingWindow: for scalars below 2^255; the callers pass scalars below L.
- In ten limbs, what is built on the group operations and the squarings (power chains, decompression, scalar multiplication); the 32-bit layout of the scalars; the SSE2 and assembly variants.
- The contents of the precomputed tables and of the stored base point; their meaning is a hypothesis.
- The rounds inside the SHA-512 and RIPEMD-160 compression, which are a function parameter; byte order swaps for big-endian machines.
- Primality of p and L, and the associativity of the addition law.
- The choice of random scalars, which are an input of batch verification, and so the probability that an accepted batch holds an unbalanced signature; `BatchTheorems.AcceptedTwice` says for how many values of one of them it can.
- Constant execution time.
- The OpenSSL binding of the hash, the JNI glue, tests, and all Java code.
