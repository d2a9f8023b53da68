/** `ecc_192_sqrt` (ecc-192.c:136-178): a square root modulo p as the power
    c^((p+1)/4) = c^(2^190 - 2^62), reached by a fixed chain of
    `ecc_mod_pow_2k_mul` steps through three scratch temporaries, followed by
    the check r^2 = c. */
module Ecc192Sqrt {
  import opened Limbs
  import opened P192
  import opened ModArith
  import opened Ecc192

  // ------------------------------------------------------------------
  // Scratch layout

  /** ECC_192_SQRT_ITCH: six field elements of scratch, room for three
      temporaries of 2 * ECC_LIMB_SIZE limbs. */
  function SqrtItch(w: Width): (r: nat)
    ensures r == 3 * (2 * LimbSize(w)) && r * Bits(w) == 3 * (2 * 192)
  {
    6 * LimbSize(w)
  }

  /** The temporaries TA, TB and TC, each 2 * ECC_LIMB_SIZE limbs, as offsets
      from the start of the scratch area.  Each lies inside the
      ECC_192_SQRT_ITCH limbs of scratch and is disjoint from the ones
      before it. */
  function TA(w: Width, scratch: nat): (r: nat)
    ensures r == scratch && r + 2 * LimbSize(w) <= scratch + SqrtItch(w)
  {
    scratch
  }

  function TB(w: Width, scratch: nat): (r: nat)
    ensures scratch <= r && r + 2 * LimbSize(w) <= scratch + SqrtItch(w)
    ensures Disjoint(TA(w, scratch), 2 * LimbSize(w), r, 2 * LimbSize(w))
    ensures r == TA(w, scratch) + 2 * LimbSize(w)
  {
    scratch + 2 * LimbSize(w)
  }

  function TC(w: Width, scratch: nat): (r: nat)
    ensures scratch <= r && r + 2 * LimbSize(w) == scratch + SqrtItch(w)
    ensures Disjoint(TA(w, scratch), 2 * LimbSize(w), r, 2 * LimbSize(w))
    ensures Disjoint(TB(w, scratch), 2 * LimbSize(w), r, 2 * LimbSize(w))
    ensures r == TB(w, scratch) + 2 * LimbSize(w)
  {
    scratch + 4 * LimbSize(w)
  }

  /** TA, TB and TC do not overlap, each lies inside the scratch area, and
      together they fill ECC_192_SQRT_ITCH limbs exactly. */
  lemma {:induction false} ScratchLayout(w: Width, scratch: nat)
    ensures Disjoint(TA(w, scratch), 2 * LimbSize(w), TB(w, scratch), 2 * LimbSize(w))
    ensures Disjoint(TA(w, scratch), 2 * LimbSize(w), TC(w, scratch), 2 * LimbSize(w))
    ensures Disjoint(TB(w, scratch), 2 * LimbSize(w), TC(w, scratch), 2 * LimbSize(w))
    ensures TA(w, scratch) == scratch && TC(w, scratch) + 2 * LimbSize(w) == scratch + SqrtItch(w)
    ensures forall i | scratch <= i < scratch + SqrtItch(w) ::
              InRegion(i, TA(w, scratch), 2 * LimbSize(w))
              || InRegion(i, TB(w, scratch), 2 * LimbSize(w))
              || InRegion(i, TC(w, scratch), 2 * LimbSize(w))
  {
  }

  // ------------------------------------------------------------------
  // The exponents of the addition chain

  lemma {:induction false} TwoTo2() ensures Pow(2, 2) == 4 { }
  lemma {:induction false} TwoTo4() ensures Pow(2, 4) == 16 { TwoTo2(); PowAdd(2, 2, 2); }
  lemma {:induction false} TwoTo8() ensures Pow(2, 8) == 256 { TwoTo4(); PowAdd(2, 4, 4); }
  lemma {:induction false} TwoTo16() ensures Pow(2, 16) == 0x1_0000 { TwoTo8(); PowAdd(2, 8, 8); }
  lemma {:induction false} TwoTo32() ensures Pow(2, 32) == B32 { TwoTo16(); PowAdd(2, 16, 16); }
  lemma {:induction false} TwoTo64() ensures Pow(2, 64) == Two64 { TwoTo32(); PowAdd(2, 32, 32); }
  lemma {:induction false} TwoTo128() ensures Pow(2, 128) == Two64 * Two64 { TwoTo64(); PowAdd(2, 64, 64); }
  lemma {:induction false} TwoTo62() ensures 4 * Pow(2, 62) == Two64 { TwoTo64(); TwoTo2(); PowAdd(2, 62, 2); }

  /** One doubling step of the chain: from the exponent e = 2^m - 1,
      e * 2^m + e = 2^(2m) - 1. */
  lemma {:induction false} ChainExponent(m: nat)
    ensures (Pow(2, m) - 1) * Pow(2, m) + (Pow(2, m) - 1) == Pow(2, 2 * m) - 1
  {
    PowAdd(2, m, m);
  }

  /** The exponent of step [8]: with the chain started at k0 = 1, the
      last doubling step has k = 64, and (2^(2k) - 1) * 2^(k - 2) =
      (2^128 - 1) * 2^62 = 2^190 - 2^62, which is (p + 1) / 4, an integer
      since p = 3 (mod 4).  The start k0 is a parameter rather than the
      literal 1, and the caller passes its variable k0: with literal
      exponents in the chain the solver keeps unfolding Pow on them. */
  lemma {:induction false} SqrtExponent(k0: nat)
    requires k0 == 1
    ensures (Pow(2, 2 * (8 * (8 * k0))) - 1) * Pow(2, 8 * (8 * k0) - 2) == Two64 * Two64 * Two64 / 4 - Two64 / 4
    ensures (Pow(2, 2 * (8 * (8 * k0))) - 1) * Pow(2, 8 * (8 * k0) - 2) == (P + 1) / 4
    ensures (P + 1) % 4 == 0
  {
    assert 2 * (8 * (8 * k0)) == 128 && 8 * (8 * k0) - 2 == 62;
    TwoTo128();
    TwoTo62();
  }

  /** A step x -> x^(2^m) * x turns c^(2^m - 1) into c^(2^(2m) - 1). */
  lemma {:induction false} ChainPower(c: nat, x: nat, m: nat)
    requires x % P == Pow(c, Pow(2, m) - 1) % P
    ensures (Pow(x, Pow(2, m)) * x) % P == Pow(c, Pow(2, 2 * m) - 1) % P
  {
    var f := Pow(2, m);
    var e: nat := f - 1;
    PowCongruent(x, Pow(c, e), f);
    PowPow(c, e, f);
    MulCongruent(Pow(x, f), x, Pow(c, e * f), Pow(c, e));
    PowAdd(c, e * f, e);
    ChainExponent(m);
  }

  /** Raising to a power respects congruence: x = c^e gives x^f = c^(e*f). */
  lemma {:induction false} PowerOfPower(c: nat, x: nat, e: nat, f: nat)
    requires x % P == Pow(c, e) % P
    ensures Pow(x, f) % P == Pow(c, e * f) % P
  {
    PowCongruent(x, Pow(c, e), f);
    PowPow(c, e, f);
  }

  /** The final check: with sq = r^2 and d = sq - c (mod p), d is
      divisible by p exactly when r^2 = c (mod p). */
  lemma {:induction false} CheckArith(d: int, sq: int, r: int, c: int)
    requires sq % P == (r * r) % P
    requires d % P == (sq - c) % P
    ensures d % P == 0 <==> (r * r) % P == c % P
  {
    SubCongruent(sq, c, r * r, c);
    var r2 := r * r;
    if r2 % P == c % P {
      SameResidue(r2, c);
      ModMultiple(r2 - c, 0, r2 / P - c / P);
    }
    if d % P == 0 {
      SameResidue(r2 - c, 0);
      ModMultiple(r2, c, (r2 - c) / P);
    }
  }

  // ------------------------------------------------------------------
  // The chain

  /** One line [1]..[7] of the chain: `ecc_mod_pow_2k_mul(p, dst, src, m,
      src, tp)` with the number at src congruent to c^(2^m - 1) leaves at
      dst a number congruent to c^(2^(2m) - 1). */
  method ChainStep(w: Width, mem: array<nat>, dst: nat, src: nat, m: nat, tp: nat, scratch: nat, ghost c: nat)
    requires scratch <= dst && dst + 2 * LimbSize(w) <= scratch + SqrtItch(w) && scratch + SqrtItch(w) <= mem.Length
    requires scratch <= tp && tp + 2 * LimbSize(w) <= scratch + SqrtItch(w)
    requires src + LimbSize(w) <= mem.Length
    requires Disjoint(dst, 2 * LimbSize(w), tp, 2 * LimbSize(w))
    requires Disjoint(src, LimbSize(w), dst, 2 * LimbSize(w)) && Disjoint(src, LimbSize(w), tp, 2 * LimbSize(w))
    requires IsLimbs(mem[src..src + LimbSize(w)], Base(w))
    requires Val(mem[src..src + LimbSize(w)], Base(w)) % P == Pow(c, Pow(2, m) - 1) % P
    modifies mem
    ensures IsLimbs(mem[dst..dst + LimbSize(w)], Base(w))
    ensures Val(mem[dst..dst + LimbSize(w)], Base(w)) % P == Pow(c, Pow(2, 2 * m) - 1) % P
    ensures forall i | 0 <= i < mem.Length && !InRegion(i, scratch, SqrtItch(w)) :: mem[i] == old(mem[i])
  {
    ghost var x := Val(mem[src..src + LimbSize(w)], Base(w));
    ModPow2kMul(w, mem, dst, src, m, src, tp);
    ChainPower(c, x, m);
  }

  /** Lines [1] to [4] of `ecc_192_sqrt`: from c = c^(2^1 - 1) at cp to
      TB = c^(2^16 - 1), with k0 = 1 the exponent of step [1].  Only the
      scratch area changes. */
  method ChainTo16(w: Width, mem: array<nat>, cp: nat, scratch: nat, k0: nat, ghost c: nat) returns (k: nat)
    requires cp + LimbSize(w) <= mem.Length && scratch + SqrtItch(w) <= mem.Length
    requires Disjoint(cp, LimbSize(w), scratch, SqrtItch(w))
    requires IsLimbs(mem[cp..cp + LimbSize(w)], Base(w))
    requires Val(mem[cp..cp + LimbSize(w)], Base(w)) % P == Pow(c, Pow(2, k0) - 1) % P
    modifies mem
    ensures k == 8 * k0
    ensures IsLimbs(mem[TB(w, scratch)..TB(w, scratch) + LimbSize(w)], Base(w))
    ensures Val(mem[TB(w, scratch)..TB(w, scratch) + LimbSize(w)], Base(w)) % P == Pow(c, Pow(2, 2 * k) - 1) % P
    ensures forall i | 0 <= i < mem.Length && !InRegion(i, scratch, SqrtItch(w)) :: mem[i] == old(mem[i])
  {
    var ta, tb, tc := TA(w, scratch), TB(w, scratch), TC(w, scratch);
    ScratchLayout(w, scratch);
    k := k0;
    ChainStep(w, mem, ta, cp, k, tb, scratch, c);                // [1] TA = c^3
    k := 2 * k;
    ChainStep(w, mem, tb, ta, k, tc, scratch, c);                // [2] TB = c^(2^4 - 1)
    k := 2 * k;
    ChainStep(w, mem, ta, tb, k, tc, scratch, c);                // [3] TA = c^(2^8 - 1)
    k := 2 * k;
    ChainStep(w, mem, tb, ta, k, tc, scratch, c);                // [4] TB = c^(2^16 - 1)
  }

  /** Lines [5] to [7] of `ecc_192_sqrt`: from TB = c^(2^16 - 1) to
      TC = c^(2^128 - 1).  Only the scratch area changes. */
  method ChainTo128(w: Width, mem: array<nat>, scratch: nat, k0: nat, ghost c: nat) returns (k: nat)
    requires scratch + SqrtItch(w) <= mem.Length
    requires IsLimbs(mem[TB(w, scratch)..TB(w, scratch) + LimbSize(w)], Base(w))
    requires Val(mem[TB(w, scratch)..TB(w, scratch) + LimbSize(w)], Base(w)) % P == Pow(c, Pow(2, 2 * k0) - 1) % P
    modifies mem
    ensures k == 8 * k0
    ensures IsLimbs(mem[TC(w, scratch)..TC(w, scratch) + LimbSize(w)], Base(w))
    ensures Val(mem[TC(w, scratch)..TC(w, scratch) + LimbSize(w)], Base(w)) % P == Pow(c, Pow(2, 2 * k) - 1) % P
    ensures forall i | 0 <= i < mem.Length && !InRegion(i, scratch, SqrtItch(w)) :: mem[i] == old(mem[i])
  {
    var ta, tb, tc := TA(w, scratch), TB(w, scratch), TC(w, scratch);
    ScratchLayout(w, scratch);
    k := 2 * k0;
    ChainStep(w, mem, ta, tb, k, tc, scratch, c);                // [5] TA = c^(2^32 - 1)
    k := 2 * k;
    ChainStep(w, mem, tb, ta, k, tc, scratch, c);                // [6] TB = c^(2^64 - 1)
    k := 2 * k;
    ChainStep(w, mem, tc, tb, k, ta, scratch, c);                // [7] TC = c^(2^128 - 1)
  }

  /** Line [8] of `ecc_192_sqrt`: `ecc_mod_pow_2k` raises TC = c^(2^128 - 1)
      to 2^62 into rp, with TA as its scratch, giving c^((p+1)/4); k = 64
      is the exponent of the last chain step. */
  method ChainFinal(w: Width, mem: array<nat>, rp: nat, scratch: nat, k: nat, ghost c: nat)
    requires k >= 2 && (Pow(2, 2 * k) - 1) * Pow(2, k - 2) == (P + 1) / 4
    requires rp + LimbSize(w) <= mem.Length && scratch + SqrtItch(w) <= mem.Length
    requires Disjoint(rp, LimbSize(w), scratch, SqrtItch(w))
    requires IsLimbs(mem[TC(w, scratch)..TC(w, scratch) + LimbSize(w)], Base(w))
    requires Val(mem[TC(w, scratch)..TC(w, scratch) + LimbSize(w)], Base(w)) % P == Pow(c, Pow(2, 2 * k) - 1) % P
    modifies mem
    ensures IsLimbs(mem[rp..rp + LimbSize(w)], Base(w))
    ensures Val(mem[rp..rp + LimbSize(w)], Base(w)) % P == Pow(c, (P + 1) / 4) % P
    ensures forall i | 0 <= i < mem.Length && !InRegion(i, rp, LimbSize(w)) && !InRegion(i, scratch, SqrtItch(w)) :: mem[i] == old(mem[i])
  {
    var n := LimbSize(w);
    var ta, tc := TA(w, scratch), TC(w, scratch);
    ScratchLayout(w, scratch);
    ghost var x := Val(mem[tc..tc + n], Base(w));
    var last := k - 2;
    ModPow2k(w, mem, rp, tc, last, ta);                          // [8] r = c^(2^190 - 2^62)
    PowerOfPower(c, x, Pow(2, 2 * k) - 1, Pow(2, last));
  }

  /** Lines [1] to [8] of `ecc_192_sqrt`: the seven `ecc_mod_pow_2k_mul`
      steps build c^(2^128 - 1) in TC, and `ecc_mod_pow_2k` raises it to
      2^62 into rp, giving c^((p+1)/4).  Only rp and the scratch area
      change. */
  method SqrtChain(w: Width, mem: array<nat>, rp: nat, cp: nat, scratch: nat)
    requires rp + LimbSize(w) <= mem.Length && cp + LimbSize(w) <= mem.Length && scratch + SqrtItch(w) <= mem.Length
    requires Disjoint(rp, LimbSize(w), scratch, SqrtItch(w)) && Disjoint(cp, LimbSize(w), scratch, SqrtItch(w))
    requires IsLimbs(mem[cp..cp + LimbSize(w)], Base(w))
    modifies mem
    ensures IsLimbs(mem[rp..rp + LimbSize(w)], Base(w))
    ensures Val(mem[rp..rp + LimbSize(w)], Base(w)) % P == Pow(Val(old(mem[cp..cp + LimbSize(w)]), Base(w)), (P + 1) / 4) % P
    ensures forall i | 0 <= i < mem.Length && !InRegion(i, rp, LimbSize(w)) && !InRegion(i, scratch, SqrtItch(w)) :: mem[i] == old(mem[i])
  {
    ghost var c := Val(mem[cp..cp + LimbSize(w)], Base(w));
    var k0 := 1;
    assert Pow(2, k0) - 1 == 1 && Pow(c, 1) == c;
    var k := ChainTo16(w, mem, cp, scratch, k0, c);
    k := ChainTo128(w, mem, scratch, k, c);
    SqrtExponent(k0);
    ChainFinal(w, mem, rp, scratch, k, c);
  }

  /** The closing check of `ecc_192_sqrt`: `ecc_mod_sqr` puts r^2 in TA,
      `ecc_mod_sub` subtracts c, and `ecc_192_zero_p` tests the difference,
      so the flag is 1 exactly when r^2 = c (mod p).  Only TA changes. */
  method SqrtCheck(w: Width, mem: array<nat>, rp: nat, cp: nat, ta: nat) returns (ok: nat)
    requires rp + LimbSize(w) <= mem.Length && cp + LimbSize(w) <= mem.Length && ta + 2 * LimbSize(w) <= mem.Length
    requires Disjoint(ta, 2 * LimbSize(w), rp, LimbSize(w)) && Disjoint(ta, 2 * LimbSize(w), cp, LimbSize(w))
    requires IsLimbs(mem[rp..rp + LimbSize(w)], Base(w))
    modifies mem
    ensures ok <= 1
    ensures ok == 1 <==> (Val(old(mem[rp..rp + LimbSize(w)]), Base(w)) * Val(old(mem[rp..rp + LimbSize(w)]), Base(w))) % P
                         == Val(old(mem[cp..cp + LimbSize(w)]), Base(w)) % P
    ensures forall i | 0 <= i < mem.Length && !InRegion(i, ta, 2 * LimbSize(w)) :: mem[i] == old(mem[i])
  {
    var n, base := LimbSize(w), Base(w);
    ghost var r, c := Val(mem[rp..rp + n], base), Val(mem[cp..cp + n], base);
    ghost var cs := mem[cp..cp + n];
    ModSqr(w, mem, ta, rp);
    assert mem[cp..cp + n] == cs;
    ghost var sq := Val(mem[ta..ta + n], base);
    ModSub(w, mem, ta, ta, cp);
    ghost var d := Val(mem[ta..ta + n], base);
    assert d % P == (sq - c) % P;
    ok := ZeroP(w, mem, ta);
    CheckArith(d, sq, r, c);
  }

  /** `ecc_192_sqrt` (ecc-192.c:138-178).  rp is always written, with
      c^((p+1)/4) (mod p); the result is 1 exactly when that is a square
      root of c, i.e. r^2 = c (mod p).  With three 2 * ECC_LIMB_SIZE-limb
      temporaries the scratch area holds ECC_192_SQRT_ITCH limbs; rp, cp
      and the scratch area do not overlap.  Only rp and the scratch area
      change. */
  method Sqrt(w: Width, mem: array<nat>, rp: nat, cp: nat, scratch: nat) returns (ok: nat)
    requires rp + LimbSize(w) <= mem.Length && cp + LimbSize(w) <= mem.Length && scratch + SqrtItch(w) <= mem.Length
    requires Disjoint(rp, LimbSize(w), scratch, SqrtItch(w)) && Disjoint(cp, LimbSize(w), scratch, SqrtItch(w))
    requires Disjoint(rp, LimbSize(w), cp, LimbSize(w))
    requires IsLimbs(mem[cp..cp + LimbSize(w)], Base(w))
    modifies mem
    ensures IsLimbs(mem[rp..rp + LimbSize(w)], Base(w))
    ensures Val(mem[rp..rp + LimbSize(w)], Base(w)) % P == Pow(Val(old(mem[cp..cp + LimbSize(w)]), Base(w)), (P + 1) / 4) % P
    ensures ok <= 1
    ensures ok == 1 <==> (Val(mem[rp..rp + LimbSize(w)], Base(w)) * Val(mem[rp..rp + LimbSize(w)], Base(w))) % P
                         == Val(old(mem[cp..cp + LimbSize(w)]), Base(w)) % P
    ensures forall i | 0 <= i < mem.Length && !InRegion(i, rp, LimbSize(w)) && !InRegion(i, scratch, SqrtItch(w)) :: mem[i] == old(mem[i])
  {
    var n := LimbSize(w);
    ghost var m0 := mem[..];
    SqrtChain(w, mem, rp, cp, scratch);
    KeptSlice(m0, mem[..], cp, n, rp, n, scratch, SqrtItch(w));
    assert mem[cp..cp + n] == mem[..][cp..cp + n] && old(mem[cp..cp + n]) == m0[cp..cp + n];
    ScratchLayout(w, scratch);
    ghost var m1 := mem[..];
    label AfterChain:
    ok := SqrtCheck(w, mem, rp, cp, TA(w, scratch));
    KeptSlice(m1, mem[..], rp, n, TA(w, scratch), 2 * n, TA(w, scratch), 2 * n);
    assert mem[rp..rp + n] == mem[..][rp..rp + n] && m1[rp..rp + n] == old@AfterChain(mem[rp..rp + n]);
  }
}
