# Verified models of the boot-image tools and libmincrypt

A Dafny 4.11 model of the hard parts of this repository, with proofs:

- **P-256** (`bootimg_tools/libmincrypt/p256.c`, `p256_ec.c`, `p256_ecdsa.c`), from 32-bit words to
  signature verification. Field elements are the nine 29/28-bit limbs of the code with its own
  wrap-around; 256-bit integers are its eight digits. One chain of contracts runs from
  `felem_reduce_degree` up to `p256_ecdsa_verify`.
- **RSA** (`rsa.c`, `DumpPublicKey.java`), for keys of every length.
- **akb_cc** (`cc/akb_cc.c`): the stream cipher, the encryption in `write_C`, its random scatter
  loop, and the generated `xsh` that decrypts in place.
- **SHA-1 / SHA-256** streaming against FIPS 180-4.
- **LruCache**: the intrusive list and hash set against a recency-ordered sequence.
- **mkbootfs** and a reader of the newc format; **mkbootimg** and **unmkbootimg**.

`dafny verify dfyconfig.toml` checks all of it. Nothing here runs the original programs.

## Modules

| module | content |
|---|---|
| Words, WordOps, Bits, Modular, Digits, Divisors | machine words, bitwise operations, congruences, base-2^32 numbers, gcd and primes |
| Felem, FelemSeparate, FelemEliminate, FelemReduce, FelemMul, FelemArith, FelemInv | the P-256 field layer |
| P256, P256Arith, P256Inv | 256-bit integers: product, reduction, shifts, inverse |
| Montgomery, Jacobian, Formulas, Select, ScalarMult, PointsMul, Ecdsa | conversions, point formulas and the law they compute, masked copies, comb and window, entry points, verification |
| Rsa, RsaKey | Montgomery exponentiation, key parameters |
| Arc4, Scatter, Packer | cipher, scatter loop, packing and unpacking |
| Fips180, FipsRoots, Sha, ShaStream | the standard, its constants as roots, the transforms, the streaming context |
| Recency, LruCache | the sequence model and the linked structure |
| FileTree, Newc, Mkbootfs | trees and their order, the archive format and its reader, the writer |
| BootImage, Mkbootimg | the image layout, writer and reader |

Words are integers with explicit ranges (`u8`, `u32`, `u64`); every operation that wraps in C says
so. Buffers that C updates in place are arrays, or sequence fields that methods reassign.

## The curve as a hypothesis

`ScalarMult.Curve` is any reading of Jacobian coordinates as multiples of the base point.
`GroupLaw` says of it what the doubling and addition formulas give on such points, and nothing at
all about equal, opposite or infinite operands of an addition, which the code's notes exclude; it
also says that the order is prime. The formulas themselves are no hypothesis: `Formulas` proves
over the integers that they are the tangent and the chord, cleared of denominators (`TangentLaw`,
`ChordLaw`), and that `GroupLaw` holds of every sequence of affine points that is added by chord
and tangent, tells its points apart up to sign and never meets the x axis (`AffineGroup`,
`GroupLawHolds`). So what is assumed is that the multiples of the base point are such a sequence;
that they are is the group theory of the curve.

`TableOk` says that `kPrecomputed` holds the multiples its comment lists, in limbs within their own
widths, `Fermat` is Fermat's theorem for p, and `Generated` says that the base point generates the
curve. Everything else, limb by limb, is proved. Because nothing is assumed about the excluded
additions, the proofs show that their results are never kept.

## What the code does differently from its comments or intent

- `felem_reduce_degree` allows "tmp[i] < 2**64", but word 17 wraps. `FelemReduce.ReduceDegree`
  takes every column and is exact if and only if the Montgomery quotient is below 2^260; a last
  column up to 2^61 - 2^57 - 2^37 guarantees that, and from 2^61 on it is never so
  (`LastColumnDecides`, `ReduceLoses`). Products of bounded elements stay below 2^60
  (`FelemMul.ColumnsFit`).
- `felem_sum` asks that in[i] + in2[i] fit a word; `FelemArith.Sum` takes every input and is exact
  if and only if the carry of the limb below fits too (`SumFits`, `SumLoses`), as it does for
  bounded elements (`BoundedFits`).
- `felem_scalar_8` is not closed under the limb bounds: `FelemArith.Scalar8` states the exact
  condition (`Scalar8Fits`) and `Scalar8Overflows` an input that breaks it. Its only caller,
  `point_double`, passes a fresh square, which satisfies it.
- `p256_is_valid_point` refuses valid points with y^2 mod p < 2^256 - p, because the last sum is
  reduced only on a carry; `Ecdsa.IsValidPoint` is an if-and-only-if, `RefusedPoint` a point it
  refuses.
- `from_montgomery` ORs the last carry into `top`; `Montgomery.FromMontgomery` is exact exactly on
  the elements that are not `Lossy`, and `LossyElement` is a bounded element that is. A product of
  elements whose limb 8 is below 2^29, as every operation leaves it, never is (`FelemMul.Mul`,
  `Montgomery.SettledIsExact`), so the results of the scalar multiplications are exact.
- `p256_ecdsa_verify` tests s modulo n, where section 4.1.4 of SEC 1 asks for s in [1, n - 1]:
  wherever s is accepted, s + n is too if it fits 256 bits (`Ecdsa.SignatureBeyondN`).
- `scalar_base_mult` leaves (0, 0, 1) for scalar 0, not the point at infinity.
- `LruCache::put` on a full cache evicts before it looks up the key (`Recency.PutEvictsFirst`).
- A file whose archive path is `TRAILER!!!` cuts a mkbootfs archive short for every reader
  (`Mkbootfs.RecoversAll`).
- unmkbootimg looks for the second stage one page early unless kernel and ramdisk take as many
  pages together as apart (`Mkbootimg.SecondOffset`); `SecondLost` is an image whose second stage
  comes back as the ramdisk.
- The rebuild command unmkbootimg prints names the kernel and the ramdisk only if they are not
  empty, and mkbootimg refuses a command without them: the command rebuilds the image if and only
  if neither is empty and the second stage was read right (`Mkbootimg.RebuiltImage`), and after
  `--ramdisk NONE` it is refused (`NoneIsRefused`).

## Model

| member | source | states |
|---|---|---|
| Felem.NonZeroToAllOnes | bootimg_tools/libmincrypt/p256_ec.c:189 | the mask is all ones for 0 < x <= 2^31 and zero otherwise |
| Felem.ReduceCarry | bootimg_tools/libmincrypt/p256_ec.c:196-212 | for every carry up to 16, no limb over- or underflows and the limbs become those of Absorb |
| Felem.AbsorbValue | bootimg_tools/libmincrypt/p256_ec.c:196-212 | what felem_reduce_carry adds is exactly carry * (2^257 - 2p) |
| Felem.ChainEnd | bootimg_tools/libmincrypt/p256_ec.c:218-239 | a finished carry chain plus its absorbed carry keeps the class modulo p and the limb bounds |
| FelemArith.Sum | bootimg_tools/libmincrypt/p256_ec.c:218-239 | on any limbs, in place allowed: bounded result, congruent to the sum if and only if every limb sum fits a word together with the carry into it |
| FelemArith.SumLoses | bootimg_tools/libmincrypt/p256_ec.c:214-239 | limb sums that fit a word, where the carry does not |
| FelemArith.BoundedFits | bootimg_tools/libmincrypt/p256_ec.c:214-239 | bounded elements always fit |
| FelemArith.Zero31Value | bootimg_tools/libmincrypt/p256_ec.c:241-250 | zero31 is 8p |
| FelemArith.DiffLimb | bootimg_tools/libmincrypt/p256_ec.c:256-279 | no limb of a difference of bounded elements leaves 32 bits |
| FelemArith.Diff | bootimg_tools/libmincrypt/p256_ec.c:256-279 | bounded result congruent to the difference |
| FelemArith.Scalar3 | bootimg_tools/libmincrypt/p256_ec.c:674-695 | bounded, congruent to three times the input |
| FelemArith.Scalar4 | bootimg_tools/libmincrypt/p256_ec.c:701-726 | bounded, congruent to four times the input |
| FelemArith.Scalar8 | bootimg_tools/libmincrypt/p256_ec.c:732-757 | congruent to eight times the input; bounded if and only if Scalar8Fits |
| FelemArith.Scalar8Overflows | bootimg_tools/libmincrypt/p256_ec.c:728-757 | a bounded input whose eightfold leaves the bounds |
| FelemArith.ReducePass | bootimg_tools/libmincrypt/p256_ec.c:761-779 | each pass with a nonzero carry lowers the value by exactly 2p * carry |
| FelemArith.IsZero | bootimg_tools/libmincrypt/p256_ec.c:761-792 | ends, and returns 1 if and only if the bounded input is 0 modulo p |
| FelemSeparate.Separate | bootimg_tools/libmincrypt/p256_ec.c:291-341 | splitting any 17 overlapping 64-bit columns into 18 words keeps the value, with word 17 held modulo 2^32 |
| FelemEliminate.EliminateEven | bootimg_tools/libmincrypt/p256_ec.c:353-419 | clearing an even word adds x * p at that word, x its low 29 bits; word i + 9 may pass through -1 mod 2^32 |
| FelemEliminate.EliminateOdd | bootimg_tools/libmincrypt/p256_ec.c:423-445 | clearing an odd word adds x * p at that word, x its low 28 bits |
| FelemEliminate.EliminateAll | bootimg_tools/libmincrypt/p256_ec.c:343-446 | the loop clears nine words by adding m * p for an m below 2^257 |
| FelemReduce.Regroup | bootimg_tools/libmincrypt/p256_ec.c:448-474 | words 9 to 17, which stand for 2^257 q, become the limbs of q without its multiples of 2^260, the last carry absorbed |
| FelemReduce.ReduceDegree | bootimg_tools/libmincrypt/p256_ec.c:281-474 | on any 64-bit columns: bounded, and value times 2^257 congruent to the columns if and only if the quotient is below 2^260; then the limbs hold the quotient, folded |
| FelemReduce.LastColumnDecides | bootimg_tools/libmincrypt/p256_ec.c:338-341 | a last column up to 2^61 - 2^57 - 2^37 keeps the quotient below 2^260, one from 2^61 on never does |
| FelemReduce.ReduceLoses | bootimg_tools/libmincrypt/p256_ec.c:338-341 | columns whose quotient reaches 2^260: only 2^61 in the last |
| FelemMul.ColumnsValue | bootimg_tools/libmincrypt/p256_ec.c:529-596 | the 17 columns stand for the product |
| FelemMul.ColumnsFit | bootimg_tools/libmincrypt/p256_ec.c:529-596 | no column of bounded elements overflows 64 bits, and the last is below 2^60 |
| FelemMul.Mul | bootimg_tools/libmincrypt/p256_ec.c:529-596 | bounded, and value times 2^257 congruent to the product of the inputs; if limb 8 of both is below 2^29, limb 0 of the result is within 29 bits or its value below 2^257 |
| FelemMul.SquareColumnsLow | bootimg_tools/libmincrypt/p256_ec.c:480-522 | felem_square's shared products are felem_mul's columns 0 to 8 |
| FelemMul.SquareColumnsHigh | bootimg_tools/libmincrypt/p256_ec.c:480-522 | and columns 9 to 16 |
| FelemMul.Square | bootimg_tools/libmincrypt/p256_ec.c:480-522 | the same as Mul, of an element with itself |
| FelemInv.InvPow | bootimg_tools/libmincrypt/p256_ec.c:609-668 | the addition chain: each e_I stands for b^(2^I - 1), e64 for b^(2^64 - 2^32), the result for b^(p - 2) |
| FelemInv.Inv | bootimg_tools/libmincrypt/p256_ec.c:609-668 | bounded, limb 8 below 2^29, and stands for in^(p - 2) in Montgomery form |
| FelemInv.InverseByFermat | bootimg_tools/libmincrypt/p256_ec.c:602-668 | with Fermat's theorem that power is the inverse |
| P256.MulAdd | bootimg_tools/libmincrypt/p256.c:71-85 | window plus a * b, digit carries exact, the rest of the buffer untouched |
| P256.SubTop | bootimg_tools/libmincrypt/p256.c:88-106 | exact difference including the top digit; its assert is the precondition |
| P256.SubM | bootimg_tools/libmincrypt/p256.c:110-123 | subtracts MOD under a mask, with the borrow out of the top |
| P256.AddM | bootimg_tools/libmincrypt/p256.c:127-140 | adds MOD under a mask, with the carry out of the top |
| P256.Product | bootimg_tools/libmincrypt/p256.c:148-160 | schoolbook product of a and (top_b, b) |
| P256.ReduceWindow | bootimg_tools/libmincrypt/p256.c:162-182 | one digit of reduction for a MOD with top digit 2^32 - 1: no assert fires, the top ends at 0, a multiple of MOD is taken off |
| P256.ReduceOnce | bootimg_tools/libmincrypt/p256.c:185-187 | the masked subtract and add-back is one conditional subtraction |
| P256.ModMul | bootimg_tools/libmincrypt/p256.c:143-190 | below MOD and congruent to a * (top_b * 2^256 + b); c may be a or b |
| P256Arith.Add | bootimg_tools/libmincrypt/p256.c:265-275 | exact sum with carry, in place allowed, c may be null |
| P256Arith.Sub | bootimg_tools/libmincrypt/p256.c:252-262 | exact difference with borrow, in place allowed, c may be null |
| P256Arith.Cmp | bootimg_tools/libmincrypt/p256.c:236-249 | -1, 0 or 1 as the numbers compare |
| P256Arith.IsZero | bootimg_tools/libmincrypt/p256.c:63-67 | true exactly for the number 0 |
| P256Arith.Shl | bootimg_tools/libmincrypt/p256.c:194-209 | the number times 2^n, split into result and returned top |
| P256Arith.Shr | bootimg_tools/libmincrypt/p256.c:211-221 | quotient by 2^n, the remainder being that of digit 0 |
| P256Arith.Shr1 | bootimg_tools/libmincrypt/p256.c:223-233 | half of the number with a bit moved in on top |
| P256Arith.AddD | bootimg_tools/libmincrypt/p256.c:278-288 | exact sum with a digit and its carry |
| P256Inv.Step | bootimg_tools/libmincrypt/p256.c:299-326 | every pass of binary Euclid keeps R a = U, S a = V modulo MOD, R, S < MOD and the common divisors, and lowers U + V |
| P256Inv.EuclidEnd | bootimg_tools/libmincrypt/p256.c:321-322 | when V is 0, U is the gcd |
| P256Inv.ModInv | bootimg_tools/libmincrypt/p256.c:291-329 | ends for every odd MOD > 1 and nonzero a; b < MOD, a b congruent to the gcd, hence to 1 when coprime, also for a >= MOD |
| P256Inv.Mod | bootimg_tools/libmincrypt/p256.c:331-336 | one conditional subtraction of MOD |
| Montgomery.Constants | bootimg_tools/libmincrypt/p256_ec.c:1171-1176 | kR is 2^257 - 2p and kRInv the inverse constant |
| Montgomery.ToMontgomery | bootimg_tools/libmincrypt/p256_ec.c:1179-1197 | tight limbs below p that stand for the number |
| Montgomery.JoinLimbs | bootimg_tools/libmincrypt/p256_ec.c:1200-1215 | the joined number is the element's value, less 2^256 exactly on lossy elements |
| Montgomery.FromMontgomery | bootimg_tools/libmincrypt/p256_ec.c:1200-1221 | below p, and the number the element stands for if and only if the element is not lossy |
| Montgomery.TightIsExact | bootimg_tools/libmincrypt/p256_ec.c:1214 | an element with limb 0 below 2^29 is not lossy |
| Montgomery.SettledIsExact | bootimg_tools/libmincrypt/p256_ec.c:1214 | no product of elements with limb 8 below 2^29 is lossy |
| Montgomery.LossyElement | bootimg_tools/libmincrypt/p256_ec.c:1214 | a bounded element that is lossy, of value 2^257 |
| Montgomery.RoundTrip | bootimg_tools/libmincrypt/p256_ec.c:1179-1221 | from_montgomery(to_montgomery(x)) = x, digit for digit, for every x < p |
| Jacobian.Double | bootimg_tools/libmincrypt/p256_ec.c:804-832 | bounds kept and the doubling formula computed, in place allowed |
| Jacobian.AddMixed | bootimg_tools/libmincrypt/p256_ec.c:841-871 | bounds kept and the mixed addition formula computed |
| Jacobian.Add | bootimg_tools/libmincrypt/p256_ec.c:879-917 | bounds kept and the addition formula computed |
| Jacobian.AddOrDouble | bootimg_tools/libmincrypt/p256_ec.c:926-972 | doubles exactly when both affine coordinates agree, otherwise adds; out may be an input |
| Jacobian.ToAffine | bootimg_tools/libmincrypt/p256_ec.c:1103-1111 | x/z^2 and y/z^3 with 1/z as z^(p-2), in elements from_montgomery is exact on |
| Formulas.TangentLaw | bootimg_tools/libmincrypt/p256_ec.c:804-832 | over the integers, doubling is the tangent of slope 3(x^2 - z^4) over 2y z, cleared of denominators |
| Formulas.ChordLaw | bootimg_tools/libmincrypt/p256_ec.c:841-917 | over the integers, the tail that both additions share is the chord through the two points, cleared of denominators |
| Formulas.DoubledStands | bootimg_tools/libmincrypt/p256_ec.c:804-832 | coordinates that stand for an affine point double to ones that stand for the point the tangent gives |
| Formulas.AddedStands | bootimg_tools/libmincrypt/p256_ec.c:879-917 | and add to ones that stand for the point the chord gives |
| Formulas.AddedMixedStands | bootimg_tools/libmincrypt/p256_ec.c:841-871 | the same for a second point with z = 1 |
| Formulas.GroupLawHolds | bootimg_tools/libmincrypt/p256_ec.c:804-972 | everything the scalar multiplications ask of a curve follows from affine points that are added by chord and tangent |
| Select.IndexMask | bootimg_tools/libmincrypt/p256_ec.c:996-1000 | all ones exactly at the wanted index |
| Select.CopyConditional | bootimg_tools/libmincrypt/p256_ec.c:977-984 | copies under an all-ones mask, keeps under zero |
| Select.SelectAffine | bootimg_tools/libmincrypt/p256_ec.c:988-1008 | the index-th pair of the table, zeros for index 0 |
| Select.SelectJacobian | bootimg_tools/libmincrypt/p256_ec.c:1012-1041 | the index-th triple, zeros for index 0 |
| ScalarMult.GetBit | bootimg_tools/libmincrypt/p256.c:58-61 | the named bit of the named digit |
| ScalarMult.CombStep | bootimg_tools/libmincrypt/p256_ec.c:1058-1098 | every addition of the comb has operands that are neither equal nor opposite, and stays at most the scalar |
| ScalarMult.Merge | bootimg_tools/libmincrypt/p256_ec.c:1081-1096 | the masked copies keep p while n is infinite, the sum when p is not, else n |
| ScalarMult.MergedMeaning | bootimg_tools/libmincrypt/p256_ec.c:1075-1096 | what they keep is the sum of the multiples; a meaningless sum is never kept |
| ScalarMult.ScalarBaseMult | bootimg_tools/libmincrypt/p256_ec.c:1046-1099 | for every scalar below the order, exactly scalar * G; (0, 0, 1) for 0 |
| ScalarMult.Precompute | bootimg_tools/libmincrypt/p256_ec.c:1122-1133 | rows 1 to 15 are the multiples of the point |
| ScalarMult.WindowStep | bootimg_tools/libmincrypt/p256_ec.c:1140-1167 | four doublings and one addition take scalar >> (m + 4) to scalar >> m times the point |
| ScalarMult.ScalarMul | bootimg_tools/libmincrypt/p256_ec.c:1114-1169 | for every scalar below the order, exactly scalar * point; (0, 0, 0) for 0 |
| PointsMul.BasePointMul | bootimg_tools/libmincrypt/p256_ec.c:1225-1237 | exactly the affine coordinates of nG, (0, 0) for n = 0, for every n below the order |
| PointsMul.Mul | bootimg_tools/libmincrypt/p256_ec.c:1245-1279 | exactly the affine coordinates of n1 G + n2 Q, (0, 0) for infinity, including equal and opposite summands; outputs may be the scalars |
| PointsMul.Totalled | bootimg_tools/libmincrypt/p256_ec.c:1263-1274 | the last addition is right for equal, opposite and unrelated points |
| Ecdsa.IsValidPoint | bootimg_tools/libmincrypt/p256.c:340-359 | accepts if and only if 0 < x, y < p, the curve equation holds and y^2 mod p >= 2^256 - p |
| Ecdsa.RefusedPoint | bootimg_tools/libmincrypt/p256.c:354-358 | a point on the curve that is refused |
| Ecdsa.Scalars | bootimg_tools/libmincrypt/p256_ecdsa.c:45-47 | m/s and r/s modulo n, for every s that is nonzero modulo n |
| Ecdsa.Verify | bootimg_tools/libmincrypt/p256_ecdsa.c:32-55 | accepts if and only if the key is valid with y^2 mod p >= 2^256 - p, and (r, s), s taken modulo n, is a signature of m under it by section 4.1.3 of SEC 1 |
| Ecdsa.SignedIff | bootimg_tools/libmincrypt/p256_ecdsa.c:45-51 | the test on (m/s)G + (r/s)Q accepts exactly the pairs that signing by section 4.1.3 of SEC 1 gives: r is the x coordinate of kG modulo n and s k is m + r d, for a private key d of Q and some nonce k |
| Ecdsa.SignatureModN | bootimg_tools/libmincrypt/p256_ecdsa.c:39-43 | being a signature depends on s only modulo n |
| Ecdsa.SignatureBeyondN | bootimg_tools/libmincrypt/p256_ecdsa.c:39-43 | with s, s + n is accepted as long as it fits 256 bits |
| Rsa.SubM | bootimg_tools/libmincrypt/rsa.c:33-42 | a - n with the borrow dropped |
| Rsa.GeM | bootimg_tools/libmincrypt/rsa.c:45-54 | a >= n |
| Rsa.Accumulate | bootimg_tools/libmincrypt/rsa.c:57-75 | (c + a b + d n) / 2^32 exactly, top word included, without 64-bit overflow |
| Rsa.MontMulAdd | bootimg_tools/libmincrypt/rsa.c:57-80 | 2^32 c' congruent to c + a b, and back below R after at most one subtraction |
| Rsa.MontMul | bootimg_tools/libmincrypt/rsa.c:82-95 | c R congruent to a b modulo n, c below R, for every length |
| Rsa.WordInverse | bootimg_tools/libmincrypt/rsa.c:57-64 | n0inv makes 2^32 invertible modulo n |
| Rsa.ModPow | bootimg_tools/libmincrypt/rsa.c:97-143 | big-endian output is exactly input^e mod n for e = 3 and 65537, on every input of the key's length |
| RsaKey.PrintRSA | bootimg_tools/libmincrypt/tools/DumpPublicKey.java:48-163 | refuses exactly the moduli and exponents the tool refuses; otherwise digits, n0inv and rr are what modpow needs |
| RsaKey.PrintThenRaise | bootimg_tools/libmincrypt/tools/DumpPublicKey.java:106-163 | a printed key raises every byte string to e modulo n |
| Arc4.CryptTwice | cc/akb_cc.c:583-597 | crypting twice from one state gives the data back |
| Arc4.KeyedKeeps | cc/akb_cc.c:564-578 | keying keeps stte a permutation of 0..255, from any index and for any key |
| Arc4.AfterKeeps | cc/akb_cc.c:583-597 | so does crypting |
| Packer.CryptConcat | cc/akb_cc.c:583-597 | crypting two parts one after the other is crypting the whole |
| Arc4.KeyEnters | cc/akb_cc.c:564-578 | from any state with index 0, two keys of whole passes that differ in their last byte lead to different states |
| Arc4.KeyRepeats | cc/akb_cc.c:564-578 | a key of at most 256 bytes acts as its repetition to 256 |
| Arc4.KnownAnswer | cc/akb_cc.c:564-597 | under a given key of 256 bytes, five zero bytes become 05 06 04 01 0e |
| Arc4.Cipher.Reset | cc/akb_cc.c:553-559 | the identity permutation, whatever the state was |
| Arc4.Cipher.Key | cc/akb_cc.c:564-578 | the state of Keyed, in passes of 256 bytes, starting at the current index |
| Arc4.Cipher.Crypt | cc/akb_cc.c:583-597 | the data XOR the key stream; the state does not depend on the data |
| Packer.Encrypt | cc/akb_cc.c:851-879 | every array is encrypted in the state due for it; fails exactly when a strict script's shell cannot be stat'ed |
| Packer.FourStreams | cc/akb_cc.c:851-879 | what is encrypted is four streams: msg1 to tst1 under the password, chk1 to rlax with tst1 as a further key, opts to tst2 with the shell's stat unless rlax is set, chk2 with tst2 |
| Packer.CryptAt | cc/akb_cc.c:153-167 | arc4 in place on a part of data, all other bytes unchanged |
| Packer.Opens | cc/akb_cc.c:319-350 | crypting an array again in the writer's state opens it |
| Packer.FirstCheck | cc/akb_cc.c:325-334 | on any data, returns tst1 exactly when chk1 opens to something else |
| Packer.Xsh | cc/akb_cc.c:309-390 | on any data and with any shell: expired, tampered, abnormal, re-executed, missing shell, other shell or executed, as decided by what the data open to; when the script runs, all arrays are open in place |
| Packer.Opened | cc/akb_cc.c:318-350 | whatever the data, they are the encryption of what they open to |
| Packer.ArgsHold | cc/akb_cc.c:365-385 | the argument vector is the program's own name, the options, the inline mark, the script, the end-of-options mark and the arguments from `first` on, each present exactly when it should be |
| Packer.ScriptRuns | cc/akb_cc.c:340-383 | a script that has not expired and whose shell is known is run by its own shell, its text behind 4096 blanks as the script argument |
| Packer.OpensToScript | cc/akb_cc.c:336-350 | packed data open to the script for the shell they were packed for, or for any if relaxed; up to rlax in any case |
| Packer.PackedOutcome | cc/akb_cc.c:309-390 | what xsh does with a packed script is what the script says, unless the last run meets another shell |
| Packer.PackThenRun | cc/akb_cc.c:851-919 | write_C followed by xsh, for every random choice: the script comes out as it went in |
| Scatter.Emitter.PrintBytes | cc/akb_cc.c:783-799 | m + l + n bytes appended, the array in the middle, offset kept in step |
| Scatter.Emitter.PrintArray | cc/akb_cc.c:801-812 | the printed slot holds the array, behind everything printed before; aligned for a cast |
| Scatter.PrintOne | cc/akb_cc.c:897-918 | one round of the fall-through switch ends and prints some array not yet printed |
| Scatter.PrintAll | cc/akb_cc.c:896-919 | the loop ends with every array printed exactly once, in disjoint slots that slice back to it |
| Sha.ChooseForm | bootimg_tools/libmincrypt/sha.c:66 | SHA-1's rewritten choice is Ch of FIPS 180-4 |
| Sha.MajorityForm | bootimg_tools/libmincrypt/sha.c:70 | SHA-1's rewritten majority is Maj |
| Sha.Round1 | bootimg_tools/libmincrypt/sha.c:62-79 | one round is the standard's, whatever the order of its sums |
| Sha.Transform1 | bootimg_tools/libmincrypt/sha.c:38-86 | the compression function of section 6.1.2 of FIPS 180-4 |
| Sha.Expand256 | bootimg_tools/libmincrypt/sha256.c:63-75 | the message schedule of section 6.2.2 |
| Sha.Transform256 | bootimg_tools/libmincrypt/sha256.c:57-112 | the compression function of section 6.2.2 |
| FipsRoots.K1Roots | bootimg_tools/libmincrypt/sha.c:66-74 | the four constants of SHA-1 are the square roots of 2, 3, 5 and 10, cut to 32 bits |
| FipsRoots.InitialRoots | bootimg_tools/libmincrypt/sha256.c:122-134 | SHA-256 starts from the fractions of the square roots of the first eight primes |
| FipsRoots.K256Roots | bootimg_tools/libmincrypt/sha256.c:38-55 | its round constants are the fractions of the cube roots of the first sixty-four primes |
| ShaStream.Context.Update | bootimg_tools/libmincrypt/sha256.c:136-149 | the context holds the longer message: whole blocks folded, the rest in the buffer |
| ShaStream.Context.PadZeros | bootimg_tools/libmincrypt/sha256.c:157-160 | the padding loop ends with exactly the least number of zeros |
| ShaStream.Context.Pad | bootimg_tools/libmincrypt/sha256.c:152-164 | the padding of section 5.1.1, for messages under 2^61 bytes |
| ShaStream.Context.Final | bootimg_tools/libmincrypt/sha.c:123-146 | the digest of the whole message |
| ShaStream.Hash | bootimg_tools/libmincrypt/sha.c:149-155 | the digest of the data |
| ShaStream.HashChunks | bootimg_tools/libmincrypt/sha256.c:122-175 | however a message is cut into updates, the digest is that of the whole |
| Recency.RunKeeps | bootimg_tools/include/utils/LruCache.h:168-242 | over every run keys stay distinct and the size within a nonzero capacity |
| Recency.RecencyOrder | bootimg_tools/include/utils/LruCache.h:168-270 | after every run the items stand in the order of their last touches |
| Recency.PutEvictsFirst | bootimg_tools/include/utils/LruCache.h:181-188 | what a put on a full cache loses when the key is already there |
| Recency.PutHolding | bootimg_tools/include/utils/LruCache.h:181-194 | after a put the key is there, with its old item if it had one that was not evicted and the new one otherwise; every other key holds what it held, except the oldest of a full cache |
| Recency.StepHolding | bootimg_tools/include/utils/LruCache.h:168-242 | what every key holds after each operation, from what it held before |
| Recency.PutThenHeld | bootimg_tools/include/utils/LruCache.h:169-194 | after any run, what is put under an absent key is held, also past a get |
| Recency.StoredBy | bootimg_tools/include/utils/LruCache.h:168-242 | over any run, every item there was put by one of the operations and has been there since |
| LruCache.Cache.Reverses | bootimg_tools/include/utils/LruCache.h:245-270 | the walk from the oldest entry through child pointers and the walk from the youngest through parent pointers both end, on the same entries in opposite order |
| LruCache.Cache.KeysDistinct | bootimg_tools/include/utils/LruCache.h:69-87 | no two entries share a key |
| LruCache.Cache.SetListener | bootimg_tools/include/utils/LruCache.h:159-161 | switches the listener and changes nothing else |
| LruCache.Cache.Attach | bootimg_tools/include/utils/LruCache.h:245-253 | the entry becomes the last of the list |
| LruCache.Cache.Detach | bootimg_tools/include/utils/LruCache.h:256-270 | the list closes over the entry |
| LruCache.Cache.Get | bootimg_tools/include/utils/LruCache.h:169-178 | refines the model: a hit becomes the youngest, a miss changes nothing |
| LruCache.Cache.Put | bootimg_tools/include/utils/LruCache.h:181-194 | refines the model, eviction before look-up, and tells the listener of the evicted item |
| LruCache.Cache.Remove | bootimg_tools/include/utils/LruCache.h:197-210 | refines the model and tells the listener |
| LruCache.Cache.RemoveOldest | bootimg_tools/include/utils/LruCache.h:213-219 | drops the head |
| LruCache.Cache.PeekOldest | bootimg_tools/include/utils/LruCache.h:222-227 | the value of the head, or the null value |
| LruCache.Cache.Clear | bootimg_tools/include/utils/LruCache.h:230-242 | empties the cache, telling the listener of every item, oldest first |
| LruCache.RunAll | bootimg_tools/include/utils/LruCache.h:142-242 | a whole run of operations ends where the model's run ends |
| LruCache.PutThenGet | bootimg_tools/include/utils/LruCache.h:169-194 | after any run, what is put under an absent key is what get returns |
| FileTree.ArrangedIs | bootimg_tools/cpio/mkbootfs.c:179-204 | exactly the entries that are no dotfile and not "root", in strcmp order |
| FileTree.FileListed | bootimg_tools/cpio/mkbootfs.c:157-271 | every file, link and directory that kept names lead to is listed, with its own path, mode and contents |
| FileTree.Origin | bootimg_tools/cpio/mkbootfs.c:157-271 | every record listed is that of a node that kept names lead to, and its directory's record comes before it |
| Newc.EntryReads | bootimg_tools/cpio/mkbootfs.c:96-136 | a reader finds in a written entry its path, mode and data, and where it ends |
| Newc.ArchiveReads | bootimg_tools/cpio/mkbootfs.c:89-149 | a reader recovers the records of an archive up to the trailer |
| Newc.EntryLayout | bootimg_tools/cpio/mkbootfs.c:96-136 | the bytes of an entry: magic number, thirteen numbers of eight hexadecimal digits in the order of the format, name and NUL, and the data, header and data on multiples of four |
| Mkbootfs.Archiver.PadTo | bootimg_tools/cpio/mkbootfs.c:96-99 | zeros up to the next multiple, total_size in step modulo 2^32 |
| Mkbootfs.Archiver.Eject | bootimg_tools/cpio/mkbootfs.c:89-137 | one more record; total_size is the length of the output modulo 2^32; strlen(out) is olen |
| Mkbootfs.EjectTrailer | bootimg_tools/cpio/mkbootfs.c:139-149 | the trailer's record, and a length that is a multiple of 256 |
| Mkbootfs.Extend | bootimg_tools/cpio/mkbootfs.c:207-218 | the child's path behind the directory's, NUL-terminated |
| Mkbootfs.ArchiveDir | bootimg_tools/cpio/mkbootfs.c:157-228 | the records of the arranged entries in pre-order; both path buffers end as they began; fails exactly on unsupported nodes |
| Mkbootfs.Archive | bootimg_tools/cpio/mkbootfs.c:230-271 | the same for one node |
| Mkbootfs.MakeArchive | bootimg_tools/cpio/mkbootfs.c:328-363 | fails exactly without directories or on an unsupported node; otherwise the archive is read back as the listing of the trees and its length is a multiple of 256 |
| Mkbootfs.RecoversAll | bootimg_tools/cpio/mkbootfs.c:139-143 | every record is recovered if and only if no path is the trailer's name |
| Mkbootfs.FileArchived | bootimg_tools/cpio/mkbootfs.c:230-363 | every file below 4 GiB, link up to 1024 bytes and directory that kept names lead to is in the archive under its tree's prefix, with its own contents |
| Mkbootfs.RecordOrigin | bootimg_tools/cpio/mkbootfs.c:230-363 | nothing else is |
| BootImage.HeaderRoundTrip | bootimg_tools/mkbootimg/bootimg.h:31-64 | the packed header is decoded to what was encoded |
| BootImage.ImageParts | bootimg_tools/mkbootimg/bootimg.h:66-91 | header, kernel, ramdisk and second stage each begin on their page |
| Mkbootimg.WritePadding | bootimg_tools/mkbootimg/mkbootimg.c:88-104 | only zeros are appended, fewer than a page, and with them the item fills whole pages |
| Mkbootimg.CmdlineReads | bootimg_tools/mkbootimg/mkbootimg.c:213-225 | the two command-line fields printed together are the command line, up to 1534 bytes |
| Mkbootimg.FillHeader | bootimg_tools/mkbootimg/mkbootimg.c:183-264 | the header for the parameters, with the SHA-1 over items and sizes |
| Mkbootimg.Make | bootimg_tools/mkbootimg/mkbootimg.c:106-298 | refuses exactly what the tool refuses, a missing kernel or ramdisk option included; otherwise writes the image |
| Mkbootimg.ImageStarts | bootimg_tools/mkbootimg/mkbootimg.c:183-240 | the magic and the ten little-endian numbers of an image at their offsets, from the parameters |
| Mkbootimg.ImageTexts | bootimg_tools/mkbootimg/mkbootimg.c:205-225 | the board's name from byte 48, the command line from byte 64 and, behind its first 511 bytes, from byte 608; zeros after each |
| Mkbootimg.ImageId | bootimg_tools/mkbootimg/mkbootimg.c:250-264 | bytes 576 to 595 are the SHA-1 of kernel, size, ramdisk, size, second stage, size; zeros after them |
| Mkbootimg.SecondOffset | bootimg_tools/mkbootimg/unmkbootimg.c:163-165 | the reader's offset is the writer's or one page less, and the writer's exactly when the page counts add up |
| Mkbootimg.Recovered | bootimg_tools/mkbootimg/unmkbootimg.c:139-174 | kernel and ramdisk come back byte for byte from every image that loads; the second stage is read from an offset that is right if and only if it is aligned, so an aligned or empty one comes back |
| Mkbootimg.SecondLost | bootimg_tools/mkbootimg/unmkbootimg.c:162-174 | for kernel 1, ramdisk 2 and second stage 3 of one byte each, the second stage comes back as 2 |
| Mkbootimg.RebuiltHeader | bootimg_tools/mkbootimg/unmkbootimg.c:178-199 | the printed command names the same items and is accepted if and only if kernel and ramdisk are not empty; then it gives the same header |
| Mkbootimg.RebuiltImage | bootimg_tools/mkbootimg/unmkbootimg.c:178-199 | and the same image if and only if the second stage was read right |
| Mkbootimg.NoneIsRefused | bootimg_tools/mkbootimg/unmkbootimg.c:193-195 | after --ramdisk NONE the printed command is refused |
| Mkbootimg.MakeThenUnpack | bootimg_tools/mkbootimg/unmkbootimg.c:83-207 | making, unpacking and rebuilding gives the same image if and only if kernel and ramdisk are not empty and the second stage comes back, as it does when aligned or empty |

## Left out

- The group theory of the curve (associativity, that the multiples of the base point are apart), the 30 points of kPrecomputed, primality of p and n, Fermat's theorem: hypotheses, as described above.
- Aliasing among the local field elements inside the point operations: they are values; only the coordinates of a point are updated in place.
- Packer.Encrypt: takes the plaintext strings as given; option parsing, the shell table and reading the script are not modelled.
- chkenv, ptrace, exec and getenv of the generated program: the number of the run, the current time and sprintf are parameters of Packer.Xsh.
- Scatter.RandMod: only the bound of rand_mod is known; its floating-point body is not modelled.
- The octal text of the data literal: its bytes are modelled, not their spelling.
- fix_stat and canned configurations: an arbitrary function of path and mode. The file system is a function from paths to nodes; failing opens and reads are not modelled.
- Mkbootimg.Unpack: an image whose sizes point past the end of the file yields OverRead; the original reads on. A name or command line without a NUL is taken up to the end of its field.
- Command-line parsing and file I/O of all tools; quoting in the printed rebuild command.
- RSA_verify's padding comparison, dsa_sig.c, p256_from_bin: short, and would only add easier members.
- The Iterator of LruCache and deletion of entries.
- The remaining Android headers, and constant-time behaviour.
