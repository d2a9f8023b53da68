# NIST P-192 field arithmetic of Nettle's `ecc-192.c`, modelled in Dafny

Nettle's `ecc-192.c` supplies the curve-specific part of secp192r1 (NIST
P-192). The field prime is p = 2^192 - 2^64 - 1. The file has four parts:

- `ecc_192_modp` is the fast reduction of a double-width product modulo p.
  There are two C variants, one for 64-bit limbs (p = B^3 - B - 1) and one
  for 32-bit limbs (p = B^6 - B^2 - 1).
- `ecc_192_zero_p` tests whether an ECC_LIMB_SIZE-limb number is 0 modulo p.
- `ecc_192_sqrt` computes a square root modulo p as c^((p+1)/4), using an
  addition chain of `ecc_mod_pow_2k_mul` steps, and reports whether the
  input was a square.
- The constant descriptor `_nettle_secp_192r1`.

## How memory is modelled

- Limbs are `nat`s below the radix B = 2^32 or 2^64.
- A limb buffer is an `array<nat>`, and a C pointer is an offset into it.
- `Limbs.Val` reads a limb sequence least significant limb first.
- Every method states what it writes and promises that every other cell keeps
  its old value.

## Files

- `limbs.dfy` (`Limbs`): limb sequences, `Val` and its inverse `ToLimbs`, and
  the carry chains of `mpn_add_n`, `sec_add_1` and `cnd_add_n`, as functions
  and as the methods that compute them.
- `p192.dfy` (`P192`): the prime, the two limb widths, and the tables `ecc_p`
  and `ecc_Bmodp`.
- `ecc192_modp.dfy` (`Ecc192Modp`): both `ecc_192_modp` variants, fold by
  fold.
- `ecc192.dfy` (`Ecc192`): `ecc_192_zero_p`.
- `mod_arith.dfy` (`ModArith`): the field helpers the square root calls. Their
  C code is not part of this model. The multiplying stand-ins reduce through
  `Ecc192Modp.Modp`; `ModSub` writes the canonical difference.
- `ecc192_sqrt.dfy` (`Ecc192Sqrt`): `ecc_192_sqrt`, its scratch layout, and
  the exponent arithmetic of its addition chain.
- `curve.dfy` (`Secp192r1`): the descriptor.

## What `ecc_192_modp` leaves

Both C variants compute the same number from the input x. Call its parts
H = x / 2^256 and, at each later step, the part from 2^192 up:

1. The first fold subtracts H * 2^64 * p (`Ecc192Modp.FoldHigh`).
2. The second fold subtracts (v / 2^192) * p from what is left
   (`Ecc192Modp.FoldTop`).
3. The final conditional addition does the same again, with the carry as the
   part from 2^192 up.

`Ecc192Modp.ModpValue` is that composition, stated without limbs. Both
`Modp64` and `Modp32` are proved to leave exactly ModpValue(x). So for inputs
of the same value the two variants leave the same number. Their limbs are the
same bits: the six 32-bit limbs are the three 64-bit limbs split in halves
(`Ecc192Modp.VariantsAgree`).

The result is below 2^192, which is less than 2p, and congruent to x. It is
not canonical: the input p comes out as p itself (`Ecc192Modp.ModpKeepsP`).

## Model

| member | source | states |
|---|---|---|
| Limbs.AddN | ecc-192.c:68-70 | `mpn_add_n` on two disjoint limb regions: the destination limbs followed by the returned carry are the carry chain of destination + source; nothing else changes |
| Limbs.WriteLimbs | ecc-192.c:158-171 | writing a result into its destination (the copy the field helpers end with): the region holds exactly the given limbs and nothing else changes |
| Limbs.SecAdd1 | ecc-192.c:69 | `sec_add_1`: the destination limbs followed by the carry are the chain of destination + carry-in; nothing else changes |
| Limbs.CndAddN | ecc-192.c:82 | `cnd_add_n`: adds the table when the condition is nonzero and zero otherwise, with the carry out as one more limb; nothing else changes |
| Limbs.AddChainVal | ecc-192.c:68 | the limbs of a carry chain are proper limbs, its carry out is at most 1, and its value is a + b + carry-in |
| Limbs.IncChainVal | ecc-192.c:69 | the same for the single-carry chain of `sec_add_1`: value a + carry-in, carry out at most 1 |
| Limbs.MaskedVal | ecc-192.c:82 | the `cnd_add_n` addend is worth the table when the condition is nonzero and 0 otherwise |
| Limbs.OrZero | ecc-192.c:128 | a bitwise OR is zero exactly when both operands are zero |
| Limbs.XorZero | ecc-192.c:129 | a bitwise XOR is zero exactly when the operands are equal |
| P192.LimbSizeExact | ecc-192.c:114-118 | ECC_LIMB_SIZE * GMP_NUMB_BITS = 192 for both widths, so B^size = 2^192 and B^(2 size) = 2^384 and the `#error` branch is never taken |
| P192.PrimeForm | ecc-192.c:61 | p = B^3 - B - 1 for 64-bit limbs and p = B^6 - B^2 - 1 for 32-bit limbs, and p = 3 (mod 4) |
| P192.TablesCorrect | ecc-192.c:82 | `ecc_p` holds p and `ecc_Bmodp` holds B^size mod p, both as proper ECC_LIMB_SIZE-limb numbers |
| P192.ZeroModP | ecc-192.c:114-115 | a number below 2^192 is divisible by p exactly when it is 0 or p; this is why `ecc_192_zero_p` needs no initial reduction |
| P192.EccP | ecc-192.c:82 | `ecc_p` is ECC_LIMB_SIZE proper limbs with a nonzero top limb (its value, p, is in `P192.TablesCorrect`) |
| P192.EccBmodp | ecc-192.c:82 | `ecc_Bmodp` is ECC_LIMB_SIZE proper limbs (its value, B^size mod p, is in `P192.TablesCorrect`) |
| Ecc192Modp.FoldHigh | ecc-192.c:68-70 | the first fold on numbers: removing H = x / 2^256 and adding it back at 2^64 and 2^128 keeps x mod p |
| Ecc192Modp.FoldTop | ecc-192.c:76-82 | the second fold and the final addition on numbers: removing H = v / 2^192 and adding it back at 1 and 2^64 keeps v mod p |
| Ecc192Modp.ModpValue | ecc-192.c:62-108 | the number both variants leave, FoldTop(FoldTop(FoldHigh(x))), is congruent to x mod p |
| Ecc192Modp.ModpKeepsP | ecc-192.c:87-108 | the result is not canonical: the input p comes out as p, while 0 comes out as 0 |
| Ecc192Modp.TopOf4x64 | ecc-192.c:93-95 | a number whose low four limbs are proper has its top part as its value from 2^256 up |
| Ecc192Modp.TopOf3x64 | ecc-192.c:101-106 | a number whose low three 64-bit limbs are proper has its top part as its value from 2^192 up |
| Ecc192Modp.TopOf8x32 | ecc-192.c:68-70 | the same for eight proper 32-bit limbs and 2^256 |
| Ecc192Modp.TopOf6x32 | ecc-192.c:76-82 | the same for six proper 32-bit limbs and 2^192 |
| Ecc192Modp.HighPart64 | ecc-192.c:93-95 | six 64-bit limbs are worth, from 2^256 up, their top two limbs |
| Ecc192Modp.TopPart64 | ecc-192.c:101-103 | five limbs with the low three proper are worth, from 2^192 up, their top two limbs |
| Ecc192Modp.CarryPart64 | ecc-192.c:106 | three proper 64-bit limbs and a carry are worth, from 2^192 up, the carry |
| Ecc192Modp.HighPart32 | ecc-192.c:68-70 | twelve 32-bit limbs are worth, from 2^256 up, their top four limbs |
| Ecc192Modp.TopPart32 | ecc-192.c:76-79 | nine limbs with the low six proper are worth, from 2^192 up, their top three limbs |
| Ecc192Modp.CarryPart32 | ecc-192.c:82 | six proper 32-bit limbs and a carry are worth, from 2^192 up, the carry |
| Ecc192Modp.IsFoldHigh | ecc-192.c:68-70 | subtracting H * 2^64 * p, H the part from 2^256 up, is FoldHigh |
| Ecc192Modp.IsFoldTop | ecc-192.c:76-82 | subtracting H * p, H the part from 2^192 up, is FoldTop |
| Ecc192Modp.FoldHighExact64 | ecc-192.c:92-98 | the five limbs of the first 64-bit fold are worth FoldHigh of the six-limb input |
| Ecc192Modp.FoldTopExact64 | ecc-192.c:100-105 | the limbs and carry of the second 64-bit fold are worth FoldTop of the five-limb state |
| Ecc192Modp.FoldCarryExact64 | ecc-192.c:106-107 | the 64-bit result is worth FoldTop of the limbs and carry before the final addition |
| Ecc192Modp.FoldHighExact32 | ecc-192.c:67-73 | the nine limbs of the first 32-bit fold are worth FoldHigh of the twelve-limb input |
| Ecc192Modp.FoldTopExact32 | ecc-192.c:75-81 | the limbs and carry of the second 32-bit fold are worth FoldTop of the nine-limb state |
| Ecc192Modp.FoldCarryExact32 | ecc-192.c:82-83 | the 32-bit result is worth FoldTop of the limbs and carry before the final addition |
| Ecc192Modp.Fold64First | ecc-192.c:93-96 | first 64-bit fold: the carry sum is at most 2 (the first C assert), and the five limbs left equal the input less a multiple of p |
| Ecc192Modp.Fold64Second | ecc-192.c:101-105 | second 64-bit fold: the carry is at most 1 (the second C assert), the four limbs equal the five less a multiple of p, and a carry of 1 leaves room for B + 1 below 2^192 |
| Ecc192Modp.Fold64Final | ecc-192.c:106-107 | adding cy * (B + 1) never carries out (the third C assert), the result is below 2^192, and it equals the four-limb value less cy * p |
| Ecc192Modp.Fold64FirstValue | ecc-192.c:92-98 | the five limbs left by the first fold are worth the six-limb input less H * B * p, H its top two limbs |
| Ecc192Modp.Fold64SecondValue | ecc-192.c:100-105 | the three limbs and carry left by the second fold are worth the five-limb state less H * p, H its top two limbs, with room for B + 1 when the carry is 1 |
| Ecc192Modp.Fold64FinalValue | ecc-192.c:106-107 | the three-limb result is below 2^192 and worth the four-limb state less cy * p |
| Ecc192Modp.MaskedBmodp64 | ecc-192.c:106 | the addend of the final `cnd_add_n` is [cy, cy, 0], that is cy * (B + 1) |
| Ecc192Modp.Fold64FirstStage | ecc-192.c:93-98 | the three carry chains of lines 93-95 give proper limbs, carries summing to at most 2, and a state worth the input less H * B * p |
| Ecc192Modp.Fold64FirstResult | ecc-192.c:93-98 | the chains of the first 64-bit fold leave proper limbs, carries of at most 2, and exactly FoldHigh of the input |
| Ecc192Modp.Fold64SecondStage | ecc-192.c:101-105 | the three carry chains of lines 101-103 give proper limbs, a carry of at most 1, and a state worth the five limbs less H * p |
| Ecc192Modp.Fold64SecondResult | ecc-192.c:101-105 | the chains of the second 64-bit fold leave a carry of at most 1, room for B + 1 when it is 1, and exactly FoldTop of the five limbs |
| Ecc192Modp.Fold64FinalStage | ecc-192.c:105-107 | the final conditional addition has carry 0 and leaves a value below 2^192, worth the four-limb state less cy * p |
| Ecc192Modp.Fold64FinalResult | ecc-192.c:105-107 | the final 64-bit addition has carry 0 and leaves exactly FoldTop of the limbs and carry, below 2^192 |
| Ecc192Modp.Reduce64To5 | ecc-192.c:92-98 | in place: limbs rp[0..5] are proper with rp[4] <= 2 and worth FoldHigh of the old rp[0..6]; only rp[1..5] are written |
| Ecc192Modp.Reduce64To4 | ecc-192.c:100-105 | in place: returns cy <= 1, and rp[0..3] with cy as a fourth limb is worth FoldTop of the old rp[0..5]; only rp[0..3] are written |
| Ecc192Modp.Modp64 | ecc-192.c:87-108 | the 64-bit `ecc_192_modp`: rp[0..3] is below 2^192 and worth exactly ModpValue of the old six-limb rp, so congruent to it mod p; every C assert holds; only rp[0..5] change |
| Ecc192Modp.Fold32First | ecc-192.c:68-71 | first 32-bit fold: the carry sum is at most 2 (the first C assert), and the nine limbs left equal the input less a multiple of p |
| Ecc192Modp.Fold32Second | ecc-192.c:76-81 | second 32-bit fold: the carry is at most 1 (the second C assert), the seven limbs equal the nine less a multiple of p, with room for B^2 + 1 when the carry is 1 |
| Ecc192Modp.Fold32Final | ecc-192.c:82-83 | adding cy * (B^2 + 1) never carries out (the third C assert), the result is below 2^192, and it equals the seven-limb value less cy * p |
| Ecc192Modp.Fold32FirstValue | ecc-192.c:67-73 | the nine limbs left by the first fold are worth the twelve-limb input less H * B^2 * p, H its top four limbs |
| Ecc192Modp.Fold32SecondValue | ecc-192.c:75-81 | the six limbs and carry left by the second fold are worth the nine-limb state less H * p, H its top three limbs, with room for B^2 + 1 when the carry is 1 |
| Ecc192Modp.Fold32FinalValue | ecc-192.c:82-83 | the six-limb result is below 2^192 and worth the seven-limb state less cy * p |
| Ecc192Modp.MaskedBmodp32 | ecc-192.c:82 | the addend of the final `cnd_add_n` is [cy, 0, cy, 0, 0, 0], that is cy * (B^2 + 1) |
| Ecc192Modp.Fold32FirstStage | ecc-192.c:68-73 | the three chains of lines 68-70 give proper limbs, carries summing to at most 2, and a state worth the input less H * B^2 * p |
| Ecc192Modp.Fold32FirstResult | ecc-192.c:68-73 | the chains of the first 32-bit fold leave proper limbs, carries of at most 2, and exactly FoldHigh of the input |
| Ecc192Modp.Fold32SecondStage | ecc-192.c:76-81 | the four chains of lines 76-79 give proper limbs, a carry of at most 1, and a state worth the nine limbs less H * p |
| Ecc192Modp.Fold32SecondResult | ecc-192.c:76-81 | the chains of the second 32-bit fold leave a carry of at most 1, room for B^2 + 1 when it is 1, and exactly FoldTop of the nine limbs |
| Ecc192Modp.Fold32FinalStage | ecc-192.c:81-83 | the final conditional addition has carry 0 and leaves a value below 2^192, worth the seven-limb state less cy * p |
| Ecc192Modp.Fold32FinalResult | ecc-192.c:81-83 | the final 32-bit addition has carry 0 and leaves exactly FoldTop of the limbs and carry, below 2^192 |
| Ecc192Modp.Reduce32To9 | ecc-192.c:67-73 | in place: rp[0..9] are proper limbs with rp[8] <= 2 and worth FoldHigh of the old rp[0..12]; only rp[2..9] are written |
| Ecc192Modp.Reduce32To6 | ecc-192.c:75-81 | in place: returns cy <= 1, and rp[0..6] with cy as a seventh limb is worth FoldTop of the old rp[0..9]; only rp[0..6] are written |
| Ecc192Modp.Modp32 | ecc-192.c:62-84 | the 32-bit `ecc_192_modp`: rp[0..6] is below 2^192 and worth exactly ModpValue of the old twelve-limb rp, so congruent to it mod p; every C assert holds; only rp[0..9] change |
| Ecc192Modp.Modp | ecc-192.c:60-108 | `ecc_192_modp` for either limb width: the low ECC_LIMB_SIZE limbs are below 2^192 and worth exactly ModpValue of the 2 * ECC_LIMB_SIZE-limb input, so congruent to it; nothing outside rp changes |
| Ecc192Modp.VariantsAgree | ecc-192.c:60-108 | results of the two variants, each worth ModpValue of inputs of the same value, are the same number, and the six 32-bit limbs are exactly the three 64-bit limbs split in halves (and back) |
| Ecc192Modp.BelowTwoP | ecc-192.c:105-107 | documents the range of the result: a value below 2^192, as left after the final addition, is its residue or its residue plus p, so one conditional subtraction of p would canonicalise it |
| Ecc192.ZeroP | ecc-192.c:120-133 | `ecc_192_zero_p`: the result is 0 or 1, and it is 1 exactly when the value is 0 or p, that is exactly when it is 0 mod p |
| Ecc192.OrFlags | ecc-192.c:132 | OR of the two 0/1 comparison results is 1 exactly when either holds |
| Ecc192.ZeroOrP | ecc-192.c:126-132 | all limbs zero or all limbs equal to `ecc_p` holds exactly when the value is 0 or p, and exactly when it is 0 mod p |
| Ecc192.PrefixStep | ecc-192.c:126-128 | extending the scanned prefix by one limb: all limbs so far are v exactly when the earlier ones are and the new one is |
| Ecc192.PrefixMatch | ecc-192.c:126-129 | the same for the comparison with `ecc_p`, limb by limb |
| ModArith.MulLimbs | ecc-192.c:158-170 | the full product of two n-limb numbers is a proper 2n-limb number whose value is the product |
| ModArith.SubLimbs | ecc-192.c:171 | a difference is a proper ECC_LIMB_SIZE-limb number congruent to x - y mod p |
| ModArith.MulN | ecc-192.c:158-170 | the product written to a 2n-limb destination has the product's value; nothing else changes |
| ModArith.ModMul | ecc-192.c:158-164 | `ecc_mod_mul`: the low n limbs of rp are below 2^192 and congruent to a * b; only rp[0..2n] change |
| ModArith.ModSqr | ecc-192.c:170 | `ecc_mod_sqr`: the low n limbs of rp are below 2^192 and congruent to a^2; only rp[0..2n] change |
| ModArith.ModSub | ecc-192.c:171 | `ecc_mod_sub`: rp is congruent to a - b; only rp[0..n] changes |
| ModArith.SquareStep | ecc-192.c:166 | one squaring of `ecc_mod_pow_2k`: rp is replaced by a value congruent to its square; only rp and the scratch change |
| ModArith.ModPow2k | ecc-192.c:166 | `ecc_mod_pow_2k`: rp is congruent to x^(2^k) after k squarings; only rp and the scratch change |
| ModArith.ModPow2kMul | ecc-192.c:158-164 | `ecc_mod_pow_2k_mul`: rp is congruent to x^(2^k) * y; only rp and the scratch change |
| ModArith.MulCongruent | ecc-192.c:158-164 | multiplying congruent factors gives congruent products |
| ModArith.SubCongruent | ecc-192.c:171 | subtracting congruent operands gives congruent differences |
| ModArith.PowCongruent | ecc-192.c:158-166 | raising congruent bases to the same power gives congruent results |
| ModArith.ProductBound | ecc-192.c:151-152 | the product of two numbers below B^n is below B^(2n), so a product fits in a 2 * size temporary |
| Ecc192Sqrt.ScratchLayout | ecc-192.c:151-156 | TA, TB and TC are pairwise disjoint, 2 * ECC_LIMB_SIZE limbs each, and together fill exactly the ECC_192_SQRT_ITCH = 6 * ECC_LIMB_SIZE scratch limbs |
| Ecc192Sqrt.SqrtItch | ecc-192.c:136 | ECC_192_SQRT_ITCH is three temporaries of 2 * ECC_LIMB_SIZE limbs, 3 * 384 bits |
| Ecc192Sqrt.TA | ecc-192.c:154 | TA starts the scratch area, and its 2 * ECC_LIMB_SIZE limbs lie inside the ECC_192_SQRT_ITCH scratch |
| Ecc192Sqrt.TB | ecc-192.c:155 | TB's 2 * ECC_LIMB_SIZE limbs lie inside the scratch and do not overlap TA; TB starts right after TA |
| Ecc192Sqrt.TC | ecc-192.c:156 | TC's 2 * ECC_LIMB_SIZE limbs overlap neither TA nor TB and end exactly at the end of the ECC_192_SQRT_ITCH scratch |
| Ecc192Sqrt.ChainExponent | ecc-192.c:158-164 | a doubling step takes the exponent 2^m - 1 to (2^m - 1) * 2^m + (2^m - 1) = 2^(2m) - 1 |
| Ecc192Sqrt.ChainPower | ecc-192.c:158-164 | if x = c^(2^m - 1) mod p then x^(2^m) * x = c^(2^(2m) - 1) mod p |
| Ecc192Sqrt.SqrtExponent | ecc-192.c:144-149 | step [8] raises c^(2^128 - 1) to 2^62, giving the exponent 2^190 - 2^62, which is (p+1)/4; p + 1 is divisible by 4 |
| Ecc192Sqrt.PowerOfPower | ecc-192.c:166 | if x = c^e mod p then x^f = c^(e f) mod p |
| Ecc192Sqrt.CheckArith | ecc-192.c:168-173 | r^2 - c is 0 mod p exactly when r^2 = c mod p |
| Ecc192Sqrt.ChainStep | ecc-192.c:158-164 | one step of the chain: from c^(2^m - 1) to c^(2^(2m) - 1) mod p, changing only the scratch area |
| Ecc192Sqrt.ChainTo16 | ecc-192.c:158-161 | steps [1] to [4]: TB holds c^(2^16 - 1) mod p |
| Ecc192Sqrt.ChainTo128 | ecc-192.c:162-164 | steps [5] to [7]: TC holds c^(2^128 - 1) mod p |
| Ecc192Sqrt.ChainFinal | ecc-192.c:166 | step [8]: rp holds c^(2^190 - 2^62) = c^((p+1)/4) mod p |
| Ecc192Sqrt.SqrtChain | ecc-192.c:158-166 | steps [1] to [8]: rp holds c^((p+1)/4) mod p, and only rp and the scratch change |
| Ecc192Sqrt.SqrtCheck | ecc-192.c:168-173 | the returned flag is 0 or 1, and it is 1 exactly when r^2 = c mod p |
| Ecc192Sqrt.Sqrt | ecc-192.c:138-178 | `ecc_192_sqrt`: rp is always written, with c^((p+1)/4) mod p; the result is 1 exactly when r^2 = c mod p; only rp and the scratch area change |
| Secp192r1.FieldModulus | ecc-192.c:183-203 | the p part of the descriptor: 192 bits in exactly ECC_LIMB_SIZE limbs, `ecc_p` holding p below B^size with a nonzero top limb, ECC_192_SQRT_ITCH scratch for three double-width temporaries, `ecc_192_modp` as both mod and reduce, `ecc_192_sqrt` and no sqrt_ratio |
| Secp192r1.GroupOrder | ecc-192.c:204-226 | the q part: the same bit size and limb count, generic `ecc_mod`, no square root and no REDC data; USE_REDC is 0 for the curve |
| Secp192r1.Secp192r1 | ecc-192.c:181-250 | `_nettle_secp_192r1`, as returned by `nettle_get_secp_192r1`: both moduli have 192 bits in ECC_LIMB_SIZE limbs, p has ECC_192_SQRT_ITCH scratch for square roots, and the curve does not use REDC |
| Secp192r1.UseRedc | ecc-192.c:48 | USE_REDC is 0: p-192 is reduced directly, not in Montgomery form |

## Left out

- The assembly `ecc_192_modp` (ecc-192.c:52-56) is not modelled. It is
  foreign code with no C body here.
- The `ecc_mod` fallback for limb widths other than 32 and 64 (ecc-192.c:110-111)
  is not modelled. `ecc_mod` is not part of this model, and
  `P192.LimbSizeExact` shows that both modelled widths pass the compile-time
  check at lines 116-118.
- The field helpers `ecc_mod_mul`, `ecc_mod_sqr`, `ecc_mod_sub`,
  `ecc_mod_pow_2k` and `ecc_mod_pow_2k_mul` are stand-ins. Their C code is not
  part of this model. The stand-ins assume that each helper leaves an
  ECC_LIMB_SIZE-limb result below 2^192 that is congruent to the mathematical
  result. They also assume that a helper changes only its destination and its
  scratch.
- The tables `ecc_Bmodp_shifted`, `ecc_redc_ppm1`, `ecc_pp1h`, `ecc_q`,
  `ecc_Bmodq`, `ecc_Bmodq_shifted`, `ecc_qp1h`, `ecc_b`, `ecc_g`, `ecc_unit`
  and `ecc_table` appear in the descriptor by name only.
  They come from a generated header that is not part of this model.
  `ecc_p` and `ecc_Bmodp` are given in full.
- ECC_BMODP_SIZE, ECC_REDC_SIZE, ECC_PIPPENGER_K/C and the `*_ITCH` macros of
  other files are a parameter of `Secp192r1.Secp192r1`. Their values are
  defined outside this file.
- Point arithmetic (`ecc_add_jjj`, `ecc_mul_a`, `ecc_mul_g`, `ecc_j_to_a`) and
  `ecc_mod_inv` are routine names only.
- `volatile` and constant-time behaviour are not modelled. The model states
  the values computed, not how long the computation takes.
- Ecc192Sqrt.Sqrt: proves that rp holds c^((p+1)/4) mod p and that the flag
  is 1 exactly when r^2 = c mod p. It does not prove either half of what that
  means for c. It does not prove that every square c gets its root and the
  flag 1, which the design of the chain (ecc-192.c:144-146) promises. It does
  not prove that a non-square gets r^2 = -c (the comment at
  ecc-192.c:168-169). Both are Euler's criterion, and they need the
  primality of p, which the model does not establish.
- `ecc_192_modp`, `ecc_192_zero_p` and `ecc_192_sqrt` take the modulus
  descriptor as an argument (`ecc_192_zero_p` reads `p->m`, ecc-192.c:129).
  The model drops it and uses p and `ecc_p` directly. These routines are
  static, and `Secp192r1.FieldModulus` shows the descriptor installs them
  only for the modulus p.
- Ecc192Sqrt.Sqrt: requires rp, cp and the scratch area to be pairwise
  disjoint. The C code does not check this, but its callers rely on it.
- Limbs are mathematical naturals below the radix. C's wrap-around in
  `mpn_add_n` and `sec_add_1` is written out as the explicit carry chain of
  `Limbs.AddChain`.
