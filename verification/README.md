# Verified models of the big-integer arithmetic, ECDSA and containers

This project models, in Dafny, the algorithmic core of a C library:

* the multi-word integer and elliptic-curve code in `lib/ecc/uECC.c`: word arrays with carries, column multiplication,
  shift-and-subtract reduction, the binary modular inverse, byte conversion, co-Z and doubling formulas, the
  regularised ladder, ECDSA key generation, signing and verification, and the shared secret;
* the containers in `src/comm`: the AVL tree, the binomial heap, the trie, the chained hash table, the linked quicksort
  and the array heap.

`dafny verify dfyconfig.toml` checks everything.

## How it is built

**Arithmetic.** Word arrays are Dafny arrays that the methods update in place, with the aliasing the callers use. They
are parametric in the word size w (B = 2^w) and in the number of words; `Words.Val` gives the number an array stands
for. Each layer is proved against a specification over unbounded integers and used only through it: words (`Vli`,
`Mult`), residues (`ModArith`, `ModInv`), bytes (`Bytes`), field elements (`Field`), co-Z and doubling formulas (`CoZ`,
`Doubling`), affine pairs and points in word arrays (`Pairs`, `Points`), the ladder (`Ladder`), the joint loop
(`Shamir`), signatures (`Ecdsa`). Points are coordinates throughout: the group of a curve occurs only in specifications,
and what the code does where its formulas have no result is followed to the end. Word operations wrap explicitly where
the C does. The number of words is at most B, which the accumulator bound needs; the widest supported curve has far
fewer.

**Containers.** Nodes and entries are heap objects whose links are updated in place, in the order the C does it. A ghost
field describes what they should hold (a tree shape for the AVL tree, a view by prefix for the trie, chains and buckets
for the hash table), one predicate says that the fields agree with it, and pure lemmas about the description carry the
argument. Every operation is shown to keep the whole invariant, and its contract says exactly how the contents change.
The AVL proof carries a set of nodes whose stored heights may be stale: rotation leaves the new top and the ancestors in
it, and the walk to the root empties it. The binomial heap keeps its records in an explicit store, a map from addresses
to records, so that release, sharing and "exactly as before" can be stated about all of memory. What memory refuses is
an input (`Allocation.Memory`, by the number of the request): each operation that allocates says how many requests it
needs, and succeeds exactly when they are granted.

**Assumptions.** Comparison functions are total preorders (`Orders.TotalPreorder`); equality functions are equivalences
with which the hash function is consistent (`Buckets.Consistent`). Of a curve it is assumed that its points are an
abelian group in which n * P = 0 for a prime n above three (all supported curves have cofactor one), that every point
but zero is a pair of residues on y^2 = x^3 + a * x + b with a = -3 or a = 0, determined by its coordinates, and that
negation, chords and tangents give the usual coordinates (`Points.Law`); the generator has x != 0 and the sizes fit
(`Ecdsa.ValidCurve`).
These are hypotheses of the theorems, nowhere axioms, and `SmallCurve.IsCurve` shows a curve that meets them.

## What the code was found to need

* For every generated key, a signature that signing returns is rejected by verification in exactly three cases
  (`Ecdsa.GenerateSignVerify` is an if-and-only-if): x(kG) is not below the order, as signing writes it unreduced (line
  1279); e + x(kG) * d is zero modulo the order, which makes s zero and goes unnoticed; or a round of the joint loop
  (lines 1538-1552) has to add equal or opposite points, for which XYcZ_add gives nothing: z becomes zero and stays so.
  `SmallCurve` has one of each on a concrete curve; `Ecdsa.LostSignature` and `Ecdsa.ZeroSignature` have inputs for
  every curve.
* The ladder loses the point, and signing and key generation fail, for the secrets 0 and 1 when k + n < 2^bits and for
  n - 2 and n - 1 otherwise: rung 1 then starts from a point and its negative. `Ladder.DegenerateExactly` shows that
  there are no others.
* When x(G) = x(Q), that is for the keys 1 and n - 1, the table entry for G + Q is (0, 0) (`Shamir.SumEntry`), which is
  no point. Verification then follows the chord rule with it all the same, as `Ecdsa.Verify` says exactly; what it
  accepts is no longer the equation of the standard once that entry is used. Key generation makes neither key, but for
  the key 1 of an order 2^bits - 1 (`Ecdsa.GeneratedServed`).
* The modular inverse is right for every coprime input exactly when the modulus is odd or two (`ModInv.RightModuli`):
  for an even one the halving of the coefficients is not exact. The library calls it with odd primes only.
* The array heap stops percolating up only when the parent is strictly less, so equal values keep moving; the order
  still holds (`BinaryHeaps.BinaryHeap.Insert`).
* `avl_tree_lookup` documents one value per key; with duplicates the first match of the descent is returned
  (`AvlTrees.AvlTree.LookupNode`).

## Model

| member | source | states |
|---|---|---|
| `Vli.IsZero` | lib/ecc/uECC.c:217-224 | Answers whether the number is zero. |
| `Vli.TestBit` | lib/ecc/uECC.c:227-229 | The bit tested in the word array is the bit of the number, `value / 2^bit` odd. |
| `Vli.NumDigits` | lib/ecc/uECC.c:232-240 | The index above the last nonzero word, zero when there is none. |
| `Vli.NumBits` | lib/ecc/uECC.c:243-258 | The exact bit length: the least b with value < 2^b. |
| `Vli.Set` | lib/ecc/uECC.c:262-267 | Copies the words and leaves the rest of the destination alone. |
| `Vli.CmpUnsafe` | lib/ecc/uECC.c:271-283 | The sign of left - right as numbers, found from the first differing word. |
| `Vli.Equal` | lib/ecc/uECC.c:287-296 | Words are all equal exactly when the numbers are. |
| `Vli.Cmp` | lib/ecc/uECC.c:304-311 | The constant-time form returns the same sign as the scan, out of the borrow and the zero test of the difference. |
| `Vli.RShift1` | lib/ecc/uECC.c:315-325 | In place: old value = 2 * new value + the bit shifted out; words outside the range stay (it is also used on the upper half of a longer array). |
| `Vli.Add` | lib/ecc/uECC.c:330-344 | result + carry * B^n = left + right for every aliasing of result with the operands; the carry test by comparison and the skipped test on equal sums are exact. |
| `Vli.Sub` | lib/ecc/uECC.c:349-363 | result + right = left + borrow * B^n for every aliasing, with the borrow at most one. |
| `Mult.MulAddWideVal` | lib/ecc/uECC.c:399-406 | Adding a product to the three-word accumulator adds exactly a * b, up to wrapping of the third word. |
| `Mult.Mul2AddWideVal` | lib/ecc/uECC.c:481-490 | The doubled form adds exactly 2 * a * b, including the bit shifted out of the doubled product. |
| `Mult.MulAddSplitIsWide` | lib/ecc/uECC.c:374-398 | The four half-word products with their cross carries give the same accumulator, word for word, as the double-word form, for every operand and accumulator. |
| `Mult.Mul2AddSplitIsWide` | lib/ecc/uECC.c:451-480 | The same for the doubling form, with its three separate carries into the top word. |
| `Mult.ColumnFits` | lib/ecc/uECC.c:411-440 | A column sum with the carry from below stays under B^3 for up to B words, so the three-word accumulator never overflows. |
| `Mult.ColumnsProduct` | lib/ecc/uECC.c:411-440 | Summing the columns with their weights is the product of the two numbers. |
| `Mult.SumColumn` | lib/ecc/uECC.c:421-433 | One column of the product is added to the accumulator without loss. |
| `Mult.Multiply` | lib/ecc/uECC.c:411-440 | Val(result) = Val(left) * Val(right) in 2n words; the last carry fits the last word. |
| `Mult.PairsAreColumn` | lib/ecc/uECC.c:493-518 | Visiting each pair of a squared column once, doubled off the diagonal, sums to the whole column. |
| `Mult.SumSquareColumn` | lib/ecc/uECC.c:503-511 | One column of the square is added to the accumulator without loss. |
| `Mult.Square` | lib/ecc/uECC.c:493-518 | Val(result) = Val(left)^2, so the words are those of the product of left with itself. |
| `Words.ValInjective` | lib/ecc/uECC.c:287-296 | Word arrays of equal length and equal value are equal word by word (square and mult hence agree). |
| `ModArith.ModAdd` | lib/ecc/uECC.c:535-545 | left + right less mod once when it is not below mod, also when the addition carries out of the words; result may alias an operand. |
| `ModArith.ReduceOnceIsMod` | lib/ecc/uECC.c:535-545 | For operands below the modulus that is the remainder of the sum. |
| `ModArith.ModSub` | lib/ecc/uECC.c:549-560 | (left - right) mod m for operands below m, in place. |
| `ModArith.ShiftInto` | lib/ecc/uECC.c:575-586 | The modulus shifted by a number of bits into the upper half, no bit lost. |
| `ModArith.StartMultiple` | lib/ecc/uECC.c:572-586 | The modulus shifted until its highest bit is the highest of 2n words, so that every 2n-word product is below twice it. |
| `ModArith.HalveDouble` | lib/ecc/uECC.c:599-601 | Halving both halves with the bit carried from the upper to the lower one halves the double-length number. |
| `ModArith.StartRange` | lib/ecc/uECC.c:573-576 | The starting shift leaves the shifted modulus within 2n words and makes every 2n-word product less than twice it. |
| `ModArith.SubtractRound` | lib/ecc/uECC.c:589-598 | One round keeps v[index] congruent to the product and brings it below the shifted modulus; the index follows the borrow. |
| `ModArith.ReduceLoop` | lib/ecc/uECC.c:588-602 | The whole loop ends with product mod m. |
| `ModArith.MMod` | lib/ecc/uECC.c:564-604 | product mod m for every 2n-word product and every modulus with a nonzero top word. |
| `ModArith.ModMult` | lib/ecc/uECC.c:607-615 | left * right mod m; result may alias an operand. |
| `ModArith.ModSquare` | lib/ecc/uECC.c:634-641 | left^2 mod m. |
| `ModInv.Update` | lib/ecc/uECC.c:676-687 | Half of u modulo m, the modulus added first when u is odd, with the carry of u + m restored as the top bit after the shift. |
| `ModInv.SubtractCoefficient` | lib/ecc/uECC.c:718-721 | (u - v) modulo m although the carry of the correcting addition is dropped. |
| `ModInv.Round` | lib/ecc/uECC.c:709-731 | One pass of the loop, in each of its four branches, keeps the outcome the function Invert gives for the current numbers, and a + b falls. |
| `ModInv.GcdLoop` | lib/ecc/uECC.c:708-732 | So the loop ends, with a = b and u the outcome for the numbers it started with. |
| `ModInv.HalveStep` | lib/ecc/uECC.c:709-714 | Halving a number and its coefficient keeps u * x = a, v * x = b (mod m), the bounds, the greatest common divisor and that one of a, b is odd. |
| `ModInv.SubtractStep` | lib/ecc/uECC.c:715-731 | Replacing a by a - b and u by u - v keeps the same invariant. |
| `ModInv.InvertOdd` | lib/ecc/uECC.c:703-733 | For an odd modulus, from any numbers in that invariant, the outcome times x is congruent to gcd(x, m). |
| `ModInv.InverseForOdd` | lib/ecc/uECC.c:689-734 | So for every odd modulus above one and every coprime nonzero input, result * input mod m = 1. |
| `ModInv.MissedInverse` | lib/ecc/uECC.c:689-734 | For every even modulus above two: two above its odd part there is a coprime input below it for which the loop ends with half the modulus, which is no inverse. |
| `ModInv.RightModuli` | lib/ecc/uECC.c:689-734 | For every modulus above one: all coprime inputs below it get their inverse if and only if the modulus is odd or two. |
| `ModInv.Inverse` | lib/ecc/uECC.c:691-734 | Zero gives zero; otherwise the outcome of the loop, below m, and for an odd modulus result * input = gcd(input, m) (mod m); result may be input. |
| `Bytes.BytesToNative` | lib/ecc/uECC.c:964-974 | The value of the words is the big-endian value of the bytes, for any byte count. |
| `Bytes.NativeToBytes` | lib/ecc/uECC.c:954-962 | The bytes written are the big-endian digits of the value modulo 256^count; nothing else is written. |
| `Bytes.BytesRoundTrip` | lib/ecc/uECC.c:954-974 | Bytes to words and back gives the same bytes. |
| `Bytes.WordsRoundTrip` | lib/ecc/uECC.c:954-974 | Words to bytes and back gives the same words whenever the value fits the bytes. |
| `Bytes.ShiftRight` | lib/ecc/uECC.c:1217-1224 | Shifting right by less than a word, with the carry between words, divides the value by a power of two. |
| `Bytes.TruncateBytes` | lib/ecc/uECC.c:1204-1224 | Dropping whole bytes and then the excess bits keeps the leftmost bits of the whole hash. |
| `Bytes.LeftmostBitsBound` | lib/ecc/uECC.c:1194-1230 | The leftmost num_n_bits bits are below 2^num_n_bits. |
| `Bytes.Bits2Int` | lib/ecc/uECC.c:1194-1230 | The value stored is that of the leftmost bits; when bits were shifted out it is reduced by the order once if it is not below it. |
| `Bytes.HashValueProperties` | lib/ecc/uECC.c:1226-1229 | That value is below 2^num_n_bits and congruent modulo the order to the leftmost bits (section 2.3.2 of RFC 6979); when bits were shifted out, for an order of num_n_bits bits, it is below the order. |
| `Field.FieldInvert` | lib/ecc/uECC.c:691-734 | In the field: the inverse of a nonzero residue, zero for zero; how a lost Z shows in every result below. |
| `CoZ.XYcZAdd` | lib/ecc/uECC.c:788-813 | The interleaved in-place field operations, with all their reuse of the arguments, compute the four closed formulas ScaledX, ScaledY, SumX, SumY modulo p, for any inputs. |
| `CoZ.XYcZAddC` | lib/ecc/uECC.c:819-854 | The same for the conjugate form: difference in the first point, sum in the second. |
| `CoZ.ApplyZ` | lib/ecc/uECC.c:748-758 | (x * z^2, y * z^3). |
| `CoZ.AddSound` | lib/ecc/uECC.c:784-813 | Over any prime field: points represented with a common Z become P and P + Q represented with the common Z * (X2 - X1), where P + Q is given by the affine chord law. |
| `CoZ.ScaledSound` | lib/ecc/uECC.c:784-813 | The first point is the old one in the new common coordinate. |
| `CoZ.AddCSound` | lib/ecc/uECC.c:815-854 | P - Q and P + Q, both in the common coordinate Z * (X2 - X1). |
| `CoZ.ChordExists` | lib/ecc/uECC.c:784-787 | For different x the chord sum exists, so the formulas always apply then. |
| `Doubling.DoubleDefault` | lib/ecc/curve-specific.inc:50-95 | The in-place operations for a = -3, the halving with its carry included, compute the doubling formulas with b = 3 * (x^2 - z^4) / 2. |
| `Doubling.DoubleSecp256k1` | lib/ecc/curve-specific.inc:1110-1146 | The same for a = 0, with b = 3 * x^2 / 2. |
| `Doubling.DoubleJacobian` | lib/ecc/curve-specific.inc:58-60 | A zero z is left as it is, and so is the point with it. |
| `Doubling.DoubleSound` | lib/ecc/curve-specific.inc:50-95 | The formulas give twice the point by the affine tangent law, in the coordinate Y * Z. |
| `Pairs.ChordUnique` | lib/ecc/uECC.c:784-787 | Two pairs of residues with different x have exactly one chord sum in the field; it is the one of the reference rule Chord. |
| `Pairs.TangentUnique` | lib/ecc/curve-specific.inc:50-95 | The same for the tangent at a pair with y != 0. |
| `Pairs.AddPairs` | lib/ecc/uECC.c:784-813 | The co-Z formulas give the chord sum for any two pairs with different x, on the curve or not. |
| `Pairs.DoublePair` | lib/ecc/curve-specific.inc:50-95 | The doubling formulas give the tangent sum for any pair with y != 0. |
| `Pairs.ScaleBack` | lib/ecc/uECC.c:748-758 | apply_z with the inverse of Z gives the affine coordinates back; with a zero in its place it gives (0, 0). |
| `Points.SameX` | lib/ecc/uECC.c:788-813 | Points with equal x-coordinates are equal or opposite: the cases the co-Z formulas cannot add. |
| `Points.NextUnit` | lib/ecc/uECC.c:784-787 | The new common Z is invertible if and only if the x-coordinates differ. |
| `Points.AddStands` | lib/ecc/uECC.c:784-813 | On the points of the curve: arrays standing for P and Q with a common Z come to stand for P and P + Q with Z * (X2 - X1) whenever their x-coordinates differ. |
| `Points.AddCStands` | lib/ecc/uECC.c:815-854 | The same for P - Q and P + Q. |
| `Points.DoublePoint` | lib/ecc/curve-specific.inc:50-95 | double_jacobian as a contract about the point arrays: 2P, and the new z is never zero, because no point has order two. |
| `Points.GroupChord` | lib/ecc/uECC.c:784-787 | On points of the curve the chord rule on coordinates is the addition of the group. |
| `Points.GroupTangent` | lib/ecc/curve-specific.inc:50-95 | And the tangent rule is doubling; no point has y = 0. |
| `Groups.LadderStep` | lib/ecc/uECC.c:876-880 | One rung keeps R1 - R0 = P and doubles the multiple, adding the next bit. |
| `Groups.RegularizeK` | lib/ecc/uECC.c:902-913 | The scalar chosen by the carry, with that top bit, is k plus one or two times the order: its bit count does not depend on k. |
| `Groups.MulCong` | lib/ecc/uECC.c:902-933 | Multiples by congruent scalars agree when order * P = 0. |
| `Groups.MulZeroIff` | lib/ecc/uECC.c:902-933 | For a point of prime order n, k * P = 0 exactly when n divides k. |
| `Ladder.DegenerateExactly` | lib/ecc/uECC.c:876-883 | For the scalar chosen for a secret k below the order, some rung starts from or leads to a multiple of the order exactly when k is 0 or 1 and k + n < 2^bits, or k is n - 2 or n - 1 and k + n >= 2^bits. |
| `Ladder.AddCStep` | lib/ecc/uECC.c:819-854 | XYcZ_addC on the ladder's registers in every state: difference and sum when the x-coordinates differ, else a pair (t^2, t^3) and zeros; once lost, zeros. |
| `Ladder.AddStep` | lib/ecc/uECC.c:788-813 | XYcZ_add on the registers: it keeps a live state live and a lost one lost. |
| `Ladder.Rung` | lib/ecc/uECC.c:876-880 | A live state goes to the next prefix of the scalar if and only if the rung does not break down, in coordinates: it is derived from the co-Z formulas, not from a group operation. |
| `Ladder.InitialDouble` | lib/ecc/uECC.c:761-782 | 2P and P in a common Z, for the default Z and for a random one. |
| `Ladder.RecoverZ` | lib/ecc/uECC.c:885-893 | yP * Xb / ((X1 - X0) * Yb * xP) is the inverse of the Z that the last addition leads to, whichever side the point itself is on; it is zero exactly when the point is lost or its x is zero. |
| `Ladder.RecoveredInverse` | lib/ecc/uECC.c:885-896 | Why: Xb, Yb belong to P or -P in the common Z. |
| `Ladder.FinalRung` | lib/ecc/uECC.c:882-899 | The last rung with the return to affine coordinates. |
| `Ladder.PointMult` | lib/ecc/uECC.c:857-900 | For every scalar, initial Z and point: the affine coordinates of e * P, where e is the scalar with bit num_bits - 1 taken as set, when no rung breaks down and x(P) is not zero, and (0, 0) otherwise; the result may be stored over the point. |
| `Ladder.RegularMult` | lib/ecc/uECC.c:915-928 | regularize_k and the ladder: k * P for every k below the order but the degenerate ones, for which it is (0, 0). |
| `Shamir.SumEntry` | lib/ecc/uECC.c:1513-1521 | The table entry holds the chord sum of G and Q when their x differ, and zeros when they do not, for any two pairs. |
| `Shamir.DoubleRegisters` | lib/ecc/uECC.c:1540 | Doubling the registers follows the tangent rule; a pair with y = 0 makes z zero, and a zero z stays. |
| `Shamir.AddEntry` | lib/ecc/uECC.c:1544-1551 | Adding an entry follows the chord rule if the x-coordinates differ and makes z zero if they do not; a zero z stays. |
| `Shamir.ShamirRound` | lib/ecc/uECC.c:1538-1552 | One round of the joint loop on the registers rx, ry, z is one round on affine pairs. |
| `Shamir.NextJoint` | lib/ecc/uECC.c:1538-1552 | The rounds from the highest bit down are double-and-add by recursion on the halves of the scalars. |
| `Shamir.Combine` | lib/ecc/uECC.c:1513-1555 | For any two pairs of residues and scalars not both zero, the joint computation leaves the x-coordinate that double-and-add on affine pairs gives, zero when it has no result. |
| `Shamir.RoundMeaning` | lib/ecc/uECC.c:1538-1552 | On points of the curve a round leads from the combination of the prefixes to the next one exactly when twice the sum is neither the entry nor its negative; otherwise the sum is lost. |
| `Shamir.JointMeaning` | lib/ecc/uECC.c:1531-1552 | So double-and-add on coordinates gives u1 * G + u2 * Q when every round is clear, and nothing when one is not, for scalars whose table entries are all points. |
| `Shamir.JointXMeaning` | lib/ecc/uECC.c:1513-1555 | The x-coordinate left is that of u1 * G + u2 * Q, or 0. |
| `Shamir.ClearIsScalars` | lib/ecc/uECC.c:1538-1552 | For Q = d * G the rounds are clear exactly when in no round with a set bit 2 * (a + b * d) = +-(a' + b' * d) (mod n), for the prefixes a, b and the bits a', b' of the scalars. |
| `Shamir.TableOfKey` | lib/ecc/uECC.c:1513-1521 | x(G) and x(d * G) differ exactly when d is not 1 or n - 1 modulo n. |
| `Ecdsa.BlindedInverse` | lib/ecc/uECC.c:1272-1276 | Multiplying by the random factor, inverting and multiplying again gives 1 / k modulo the prime order. |
| `Ecdsa.Unblind` | lib/ecc/uECC.c:1272-1276 | Why: (1 / (k * b)) * b is an inverse of k. |
| `Ecdsa.SolveS` | lib/ecc/uECC.c:1281-1294 | s * k = e + r * d (mod n). |
| `Ecdsa.StoreS` | lib/ecc/uECC.c:1295-1303 | s is written in num_bytes bytes, or signing fails when it needs more. |
| `Ecdsa.SecretPoint` | lib/ecc/uECC.c:1252-1261 | Succeeds exactly when the low words of k are not zero, k is below n and not degenerate, and x(kG) is not zero; it then holds x(kG). |
| `Ecdsa.SignWithK` | lib/ecc/uECC.c:1232-1304 | Returns 1 exactly when the low words of k are not zero, k is below n and not degenerate, x(kG) is not zero, the generator does not fail and s fits; the signature bytes are then x(kG) and s with s * k = e + x(kG) * d (mod n). |
| `Ecdsa.ComputePublicKey` | lib/ecc/uECC.c:1156-1189 | Succeeds exactly for the private keys from 1 to n - 1 that are not degenerate; the bytes are then the coordinates of d * G. |
| `Ecdsa.Scalars` | lib/ecc/uECC.c:1506-1511 | u1 = e / s and u2 = r / s, and u2 is not zero. |
| `Ecdsa.MatchX` | lib/ecc/uECC.c:1557-1563 | Accepts exactly when x, less n once if it is not below n, equals r. |
| `Ecdsa.Verify` | lib/ecc/uECC.c:1454-1564 | Accepts exactly when r and s are in range and the x-coordinate that double-and-add on affine pairs leaves for (e / s, r / s), less n once if it is not below n, equals r: for every key of two residues, on the curve or not. |
| `Ecdsa.PassesMeaning` | lib/ecc/uECC.c:1454-1564 | For the coordinates of a point, and unless x(G) = x(Q) and e / s and r / s share a set bit, that is the verification equation of section 4.1.4 of SEC 1 with x reduced at most once, together with the joint loop never meeting equal or opposite points. |
| `Ecdsa.AcceptsIsModulo` | lib/ecc/uECC.c:1557-1563 | Reducing x at most once is the reduction modulo n of the standard when p < 2 * n. |
| `Ecdsa.SharedSecret` | lib/ecc/uECC.c:1034-1077 | For a private key d below the order and the public key of a point Q: succeeds exactly when the generator does not fail, d is not degenerate and x(Q) is not zero; the secret is then x(d * Q). |
| `Ecdsa.Agree` | lib/ecc/uECC.c:1034-1077 | Two parties that generate keys and exchange them both succeed exactly when both keys were made, neither public key has x = 0 and no generator fails; their secrets are then equal. |
| `Ecdsa.Completeness` | lib/ecc/uECC.c:1232-1304 | For every signature equation s * k = e + r * d: the verification equation holds if and only if r < n and e + r * d is not zero modulo n. |
| `Ecdsa.CombinedIsK` | lib/ecc/uECC.c:1506-1555 | (e / s) * G + (r / s) * (d * G) = k * G. |
| `Ecdsa.SignThenVerify` | lib/ecc/uECC.c:1232-1564 | Sign, then verify with the public key d * G: a signature is returned under exactly the conditions of SignWithK; it is accepted if and only if it passes in the sense of Verify; and unless d is 1 or n - 1 modulo n and e / s and r / s share a set bit, if and only if x(kG) < n, e + x(kG) * d is not zero modulo n, and no round of the joint loop meets the condition of ClearIsScalars. |
| `Ecdsa.GeneratedServed` | lib/ecc/uECC.c:915-933 | A key that key generation makes is neither 1 nor n - 1 when n + 1 < 2^bits, and never n - 1. |
| `Ecdsa.GenerateSignVerify` | lib/ecc/uECC.c:1156-1564 | Generate the key, sign and verify: the exact conditions on d, k and the generator under which a key and a signature are returned; for every generated key, but 1 for an order 2^bits - 1, the numeric if-and-only-if holds without exception. |
| `Ecdsa.LostSignature` | lib/ecc/uECC.c:1538-1552 | On every curve with 0 < x(2G) < n the key (n - 1) / 2, the secret 2 and a hash value give a signature for which the standard's equation holds and which the joint loop loses. |
| `Ecdsa.ZeroSignature` | lib/ecc/uECC.c:1281-1303 | For every key and secret there is a hash value whose signature has s = 0 and does not satisfy the standard. |
| `SmallCurve.IsCurve` | lib/ecc/uECC.c:784-786 | A curve of seven points meets every assumption made of curves, so they are consistent. |
| `SmallCurve.LargeX` | lib/ecc/uECC.c:1279-1303 | On it a signature with x(kG) not below the order is returned and rejected. |
| `SmallCurve.ZeroSum` | lib/ecc/uECC.c:1295-1303 | One with s = 0 is returned and rejected. |
| `SmallCurve.LostSum` | lib/ecc/uECC.c:1538-1552 | One for which the standard's equation holds is returned and rejected. |
| `AvlTrees.AvlTree.UpdateHeight` | src/comm/avl-tree.c:100-116 | Stored height = 1 + the greater stored height of the children. |
| `AvlTrees.AvlTree.NodeReplace` | src/comm/avl-tree.c:131-152 | The other node takes the place at the parent or root; all links of the path around it stay right. |
| `AvlTrees.AvlTree.Rotate` | src/comm/avl-tree.c:176-209 | Relinks both directions of three links; the lowered node's height is exact afterwards, that of the new top and of the ancestors possibly stale, every other one exact. |
| `AvlTrees.RotationDone` | src/comm/avl-tree.c:193-206 | Why: the pieces form the rotated tree with only those heights stale. |
| `AvlTrees.AvlTree.RotateHeavy` | src/comm/avl-tree.c:234-277 | Single or double rotation, chosen by the children's heights, gives the rebalanced shape. |
| `AvlTrees.AvlTree.NodeBalance` | src/comm/avl-tree.c:217-284 | One node balanced with its height exact again; only the heights above may be stale. |
| `AvlTrees.AvlTree.BalanceToRoot` | src/comm/avl-tree.c:288-304 | The walk to the root leaves no stale height and gives the tree rebalanced at every ancestor. |
| `AvlShapes.BalanceAtBalances` | src/comm/avl-tree.c:217-284 | Subtrees that differ by two in height are balanced again, at the height of the taller or one more. |
| `AvlShapes.RebalanceBalances` | src/comm/avl-tree.c:288-304 | After a subtree changed its height by at most one, balancing every ancestor restores balance everywhere. |
| `AvlShapes.RebalanceSame` | src/comm/avl-tree.c:288-304 | Balancing keeps the nodes and their order. |
| `AvlTrees.AvlTree.Descend` | src/comm/avl-tree.c:312-324 | The place found has only keys not greater before it and only greater ones after it. |
| `AvlTrees.AvlTree.Insert` | src/comm/avl-tree.c:306-354 | Keeps key order, links both ways, exact heights, balance and the count; exactly the new node is added, after the entries with keys not greater. Returns NULL, with nothing changed, exactly when memory refuses the one request. |
| `AvlTrees.InsertedEntries` | src/comm/avl-tree.c:306-354 | The multiset of entries grows by exactly the new one. |
| `AvlTrees.AvlTree.FindNeighbour` | src/comm/avl-tree.c:391-397 | The node found is the neighbour in order, with no child on the inner side. |
| `AvlTrees.AvlTree.GetReplacement` | src/comm/avl-tree.c:360-410 | The neighbour from the taller subtree is unlinked, its child in its place; NULL exactly when there are no children. |
| `AvlTrees.AvlTree.TakeOver` | src/comm/avl-tree.c:451-465 | The unlinked node takes over the children, the height and the place of the removed one. |
| `AvlShapes.NeighbourDetached` | src/comm/avl-tree.c:414-479 | Putting the neighbour in the place of the removed node takes exactly that node out of the order, and rebalancing from the neighbour's old place restores balance. |
| `AvlTrees.AvlTree.Detach` | src/comm/avl-tree.c:424-466 | Covers the starting point of the walk in all three cases: no child, neighbour a direct child, neighbour further down. |
| `AvlTrees.AvlTree.RemoveNode` | src/comm/avl-tree.c:414-479 | Keeps the whole invariant and takes out exactly the given node. |
| `AvlTrees.RemovedEntries` | src/comm/avl-tree.c:414-479 | The multiset of entries loses exactly that one. |
| `AvlTrees.AvlTree.Remove` | src/comm/avl-tree.c:483-502 | Returns 1 if and only if a node with an equal key is stored; exactly the one that LookupNode finds is then removed. |
| `AvlTrees.AvlTree.LookupNode` | src/comm/avl-tree.c:504-534 | Returns a node with an equal key if and only if one is stored: of several the first on the way down. |
| `AvlTrees.FirstMatchPlace` | src/comm/avl-tree.c:504-534 | The first match has an equal key, and none of its ancestors has. |
| `AvlTrees.FirstMatchUnique` | src/comm/avl-tree.c:504-534 | In a sorted tree only one node is a first match, so the result of a lookup is determined. |
| `AvlTrees.AvlTree.Lookup` | src/comm/avl-tree.c:536-549 | The value of that node, or none. |
| `AvlTrees.AvlTree.AddSubtree` | src/comm/avl-tree.c:585-607 | Writes the keys of a subtree in order from the index on and nothing else. |
| `AvlTrees.AvlTree.ToArray` | src/comm/avl-tree.c:609-629 | Exactly num_nodes keys, in order, equal to the stored keys; NULL exactly when memory refuses the request. |
| `AvlShapes.HeightBound` | src/comm/avl-tree.c:217-304 | A balanced tree has at least Fib(height + 2) - 1 nodes. |
| `AvlTrees.AvlTree.LogarithmicHeight` | src/comm/avl-tree.c:306-354 | So in every reachable tree the stored root height is logarithmic in num_nodes. |
| `BinomialTrees.RefStep` | src/comm/binomial-heap.c:62-67 | Counting one more outside reference keeps all counts right. |
| `BinomialTrees.UnrefStep` | src/comm/binomial-heap.c:69-93 | Giving up a reference that is not the last keeps all counts right. |
| `BinomialTrees.DropStep` | src/comm/binomial-heap.c:69-93 | A record losing its last reference leaves the store, its references to its subtrees now to be given up. |
| `BinomialHeaps.BinomialHeap.Unref` | src/comm/binomial-heap.c:69-93 | The recursive release removes exactly the outside reference given up; records still referenced survive unchanged but for their counts. |
| `BinomialHeaps.BinomialHeap.TreeMerge` | src/comm/binomial-heap.c:95-151 | A fresh tree one order higher under the lesser root, whose subtree references are counted; NULL, with nothing changed, exactly when the record or its array is refused. |
| `BinomialTrees.MergedShape` | src/comm/binomial-heap.c:95-151 | The merged record is heap ordered with its j-th subtree of order j. |
| `BinomialTrees.MergedForest` | src/comm/binomial-heap.c:95-151 | It holds exactly the values of both trees and no record twice. |
| `BinomialHeaps.BinomialHeap.UndoMerge` | src/comm/binomial-heap.c:157-166 | Releasing the new roots and the carry leaves the store exactly as before the merge. |
| `BinomialHeaps.BinomialHeap.Column` | src/comm/binomial-heap.c:207-293 | One column of the adder: the entry and the next carry hold the values of the up to three trees; two requests when there is a carry, none otherwise. |
| `BinomialTrees.CountersStep` | src/comm/binomial-heap.c:207-294 | Each column adds in binary, so the roots spell the sum. |
| `BinomialTrees.MergeStep` | src/comm/binomial-heap.c:207-294 | The loop invariant over a column: values, ownership and sharing are kept. |
| `BinomialTrees.TreesAreOnes` | src/comm/binomial-heap.c:207-294 | There is a tree for each one among the binary digits of the number of values. |
| `BinomialTrees.CarriesBound` | src/comm/binomial-heap.c:207-294 | The carries made on the way never exceed those of adding the two numbers of values, which are Ones(m) + Ones(n) - Ones(m + n). |
| `BinomialHeaps.BinomialHeap.MergeColumn` | src/comm/binomial-heap.c:207-294 | A column keeps the state of the merge, or, when memory refuses a request, leaves the store exactly as before the merge. |
| `BinomialHeaps.BinomialHeap.InstallRoots` | src/comm/binomial-heap.c:296-313 | The old roots are released and the new ones cut after the last tree. |
| `BinomialHeaps.BinomialHeap.Merge` | src/comm/binomial-heap.c:171-314 | Multiset union with no carry lost at the last index. It needs one request and two for each carry of the binary addition; it succeeds exactly when they are granted, and otherwise roots and store are exactly the old ones. |
| `BinomialTrees.SameStore` | src/comm/binomial-heap.c:157-166 | A store with the same references and no lost record is the same store, counts included. |
| `BinomialHeaps.BinomialHeap.Insert` | src/comm/binomial-heap.c:354-398 | Adds exactly the value, when its 2 + 2 * carries requests are granted; changes nothing at all (values, roots, counts) exactly when one is refused. |
| `BinomialHeaps.BinomialHeap.FindLeast` | src/comm/binomial-heap.c:412-428 | The tree found is the first whose root the compare function puts before or equal to every value: none is less in a min heap, none greater in a max heap. |
| `BinomialTrees.RootIsLeast` | src/comm/binomial-heap.c:95-151 | The root of a heap-ordered tree is least in it. |
| `BinomialHeaps.BinomialHeap.Pop` | src/comm/binomial-heap.c:400-469 | On a heap with values, removes and returns one that no other is less than in a min heap (greater than in a max heap), exactly when every request of the merge is granted; changes nothing on an empty heap or a refused request. |
| `BinomialHeaps.BinomialHeap.Structure` | src/comm/binomial-heap.c:171-314 | In every reachable heap each record in memory is reachable and has refcount exactly one; roots[i] is non-null exactly when bit i of num_values is set and then holds 2^i values. |
| `BinomialTrees.WeightBits` | src/comm/binomial-heap.c:171-314 | The entries are the binary digits of the number of values. |
| `BinomialTrees.SingleReferences` | src/comm/binomial-heap.c:62-93 | Where no record is shared, the right reference counts are all one. |
| `Tries.Trie.FindEnd` | src/comm/trie.c:116-143 | Follows the key to the node of that prefix, or NULL when there is none. |
| `Tries.Trie.Lookup` | src/comm/trie.c:357-368 | The value the map holds for the key, or none. |
| `Tries.Trie.NumEntries` | src/comm/trie.c:370-380 | The root's use count is the number of stored keys. |
| `Tries.Trie.Grow` | src/comm/trie.c:229-250 | The new node is linked in one place; all links lead to the nodes of the prefixes one longer. |
| `Tries.CountStep` | src/comm/trie.c:252-254 | Counting one more prefix keeps every use count right for the partly inserted key. |
| `Tries.Trie.Walk` | src/comm/trie.c:219-275 | Every prefix of the key is counted once more, exactly when memory grants a node for each prefix that no stored key has; otherwise everything is as it was. |
| `Tries.UncountStep` | src/comm/trie.c:162-190 | Taking back one count, and freeing and unlinking at zero, keeps the state of the unfinished operation. |
| `Tries.Trie.Rollback` | src/comm/trie.c:147-192 | Restores a valid trie with the old contents, keeping only old nodes. |
| `Tries.SameView` | src/comm/trie.c:147-192 | Two states for the same contents that agree on the nodes are equal in every link, count and value: the rollback is exact. |
| `Tries.Trie.Insert` | src/comm/trie.c:194-278 | Refines map update. A NULL value is refused and a stored key always overwritten, without a request; a new key needs one request for each prefix that no stored key has, and contents, nodes, links and counts are exactly as they were when one is refused. |
| `Tries.GoneBelow` | src/comm/trie.c:316-345 | Below a freed node every further node is freed too, so unlinking once is enough. |
| `Tries.Trie.Unwalk` | src/comm/trie.c:298-352 | The second pass of a removal takes back every count and frees what no other key needs. |
| `Tries.Trie.Remove` | src/comm/trie.c:280-355 | Refines map removal; returns 1 exactly when the key was stored. |
| `Tries.NodesArePrefixes` | src/comm/trie.c:194-355 | Nodes exist exactly for the prefixes of stored keys, and each use count is the number of stored keys with that prefix. |
| `Tries.RemoveUndoesInsert` | src/comm/trie.c:194-355 | Removing a key just inserted restores every node, link and count. |
| `Tries.Trie.InsertThenRemove` | src/comm/trie.c:194-355 | The two operations in a row on a key that is not stored leave the trie as it was, also when the insertion fails. |
| `ListSort.PushFront` | src/comm/list.c:360-384 | The entry becomes the head of a list linked both ways. |
| `ListSort.Place` | src/comm/list.c:357-385 | The next entry goes to the list of smaller ones or to the other. |
| `ListSort.Partition` | src/comm/list.c:349-386 | Every entry but the pivot is in exactly one of two disjoint lists, both linked both ways. |
| `ListSort.Join` | src/comm/list.c:391-412 | The two lists and the pivot become one list linked both ways from its head. |
| `ListSort.SortInternal` | src/comm/list.c:330-422 | Sorted permutation of the same entries, prev and next mutually inverse, head prev and last next NULL, the last entry returned. |
| `ListSort.SortedJoin` | src/comm/list.c:386-421 | Smaller entries, pivot and the others in this order are sorted, for any total preorder. |
| `ListSort.Sort` | src/comm/list.c:424-427 | The same for the public function. |
| `HashTables.HashTable.AllocateTable` | src/comm/hash-table.c:69-92 | The size is the next prime, or ten times the entries once the primes are used up; all chains empty; NULL exactly when memory refuses. |
| `HashTables.MovedSame` | src/comm/hash-table.c:218-232 | Moving one entry keeps the pairs and puts it in the bucket of its hash. |
| `HashTables.HashTable.MoveChain` | src/comm/hash-table.c:215-233 | Every entry of an old chain ends in the bucket of its hash, all pairs kept. |
| `HashTables.HashTable.Enlarge` | src/comm/hash-table.c:182-241 | Keeps the map and places every entry by the new size; afterwards 3 * entries < table_size; the old table stays exactly when memory refuses the new one. |
| `HashTables.PrimesGrow` | src/comm/hash-table.c:56-61 | Each prime exceeds the one before by at least three, which the load limit needs. |
| `HashTables.HashTable.Find` | src/comm/hash-table.c:267-297 | The walk along the chain of the hash finds the entry with an equal key if there is one. |
| `HashTables.HashTable.Insert` | src/comm/hash-table.c:243-326 | Refines map update: the new pair is stored, replacing that of an equal key, and no other key is affected; entries counts the keys; 3 * (entries - 1) < table_size. It needs a request for a full table and one for a new key, and fails exactly when one is refused, with the contents kept. |
| `HashTables.HashTable.Lookup` | src/comm/hash-table.c:328-355 | Exactly what the map holds for the key. |
| `HashTables.HashTable.Unlink` | src/comm/hash-table.c:373-391 | Exactly the entry found leaves its chain, at its head or behind another. |
| `HashTables.HashTable.Remove` | src/comm/hash-table.c:357-407 | Refines map removal; returns 1 exactly when an equal key was stored. |
| `HashTables.HashTable.NumEntries` | src/comm/hash-table.c:409-412 | entries is the number of stored pairs. |
| `Buckets.NotInBucket` | src/comm/hash-table.c:328-355 | With consistent hashes a key missing from its bucket is missing from the table. |
| `Buckets.PutNew` | src/comm/hash-table.c:305-325 | Keys stay unique, and the map changes only at the keys equal to the new one. |
| `Buckets.Replace` | src/comm/hash-table.c:271-294 | Overwriting keeps keys unique and changes the map only there. |
| `Buckets.Take` | src/comm/hash-table.c:376-397 | Removing a pair removes exactly its key from the map. |
| `HashTables.HashTableIterator.Advance` | src/comm/hash-table.c:418-433 | Finds the first entry from a chain on, skipping empty chains. |
| `HashTables.HashTableIterator.HasMore` | src/comm/hash-table.c:436-439 | True exactly while pairs remain. |
| `HashTables.HashTableIterator.Next` | src/comm/hash-table.c:441-497 | Returns the first of the remaining pairs and leaves the others. |
| `HashTables.AllValues` | src/comm/hash-table.c:414-497 | Over an undisturbed table the iteration yields every stored pair exactly once and ends. |
| `Allocation.Memory.DecidesExactly` | src/comm/binary-heap.c:94-102 | What the contracts say of requests: the operation succeeds if and only if none of those it needs is refused, makes exactly these then, and never more. |
| `BinaryHeaps.UpStep` | src/comm/binary-heap.c:111-137 | Moving a parent into the hole keeps the heap order but for the hole. |
| `BinaryHeaps.DownStep` | src/comm/binary-heap.c:170-222 | Moving the lesser child into the hole keeps the heap order but for the hole. |
| `BinaryHeaps.BinaryHeap.Insert` | src/comm/binary-heap.c:82-144 | Heap order and multiset kept for both heap types, also across the doubling of the array; fails, with nothing changed, exactly when the array is full and memory refuses a larger one. The value comes to stand above the values equal to it on its way. |
| `BinaryHeaps.BinaryHeap.NextChild` | src/comm/binary-heap.c:176-214 | The child chosen is not greater than the value nor than its sibling; none when the value is in place. |
| `BinaryHeaps.BinaryHeap.Pop` | src/comm/binary-heap.c:146-226 | Removes and returns the value at the root, which no value in the heap is less than in a min heap, greater than in a max heap; none exactly on an empty heap. |
| `BinaryHeaps.RootLeast` | src/comm/binary-heap.c:146-226 | The first value of an ordered array is least. |
| `BinaryHeaps.SortThrough` | src/comm/binary-heap.c:82-226 | Any inserts followed by pops until empty emit a permutation, ascending through a min heap and descending through a max heap, exactly when the doublings of the array are granted. |

## Left out

- ModInv.Inverse: excludes the moduli zero and one, for which the loop need not end or the result is not reduced.
- Ecdsa.Verify: the coordinates of the key are below p, as the field operations need; nothing is stated for others.
- Ecdsa.SharedSecret: the private key is below the order and the public key is a point; the initial Z is drawn into an array of its own, where the C uses the scalar that was not chosen.
- Ecdsa.SignWithK: takes the random blinding factor, or the failure to draw one, as a parameter.
- Ecdsa.MatchX: extends the x-coordinate to the words of the order in a copy, where the C has a cleared word above it.
- Ladder.PointMult: keeps the two coordinates of a point in two arrays, where the C has one array of twice the length.
- BinomialHeaps.BinomialHeap.Merge: keeps orders and reference counts unbounded where the C has 16-bit fields.
- HashTables.HashTable.Find: stands for the three chain walks of insert, lookup and remove, which pass the two keys to the equality function in different orders; the function is assumed symmetric.
- HashTables.HashTable.Insert: does not model the callbacks that free keys and values.
- HashTables.HashTable.AllocateTable: keeps sizes and counts unbounded where the C has int.
- A refused request when a container is created: the models start from the empty container.
- Tries.Trie.Insert: keys are strings over 1 to 127, because the links are indexed by a plain char; use counts are unbounded.
- The constants of the supported curves and mmod_fast in curve-specific.inc, and point compression; mmod_fast is taken as mmod, as the code does at optimisation level zero.
- The assembly variants of the word loops and timing behaviour.
- Random numbers, HMAC and deterministic k (lines 980-1002 and 1328-1448): callbacks decide.
- Freeing of whole containers: binomial_heap_free, avl_tree_free, hash_table_free, trie_free.
- cycle_queue.c: first-in first-out does not hold of arbitrary chunked use, as the wrapping branches skip the last index.
- slist.c, set.c, queue.c, arraylist.c and bloom-filter.c: the same algorithms again or easier ones.
- The compare and hash functions themselves: they appear as assumptions.
- gtest, epoll, timers, sockets, threads, logging and the demos: system calls and output.
