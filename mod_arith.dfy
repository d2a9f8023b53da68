/** The field helpers ecc_192_sqrt calls: `ecc_mod_mul`, `ecc_mod_sqr`,
    `ecc_mod_sub`, `ecc_mod_pow_2k` and `ecc_mod_pow_2k_mul`.  Their C code
    is not part of this model; each is a stand-in with the interface the
    square root relies on.  A product goes to a 2 * ECC_LIMB_SIZE-limb
    destination and is reduced there by the curve's reduce routine, which
    for p is ecc_192_modp; every result is ECC_LIMB_SIZE limbs below 2^192,
    congruent to the mathematical result modulo p but not necessarily below
    p. */
module ModArith {
  import opened Limbs
  import opened P192
  import opened Ecc192Modp

  // ------------------------------------------------------------------
  // Congruences modulo p

  /** Equal residues differ by a multiple of p. */
  lemma {:induction false} SameResidue(a: int, b: int)
    requires a % P == b % P
    ensures a - b == (a / P - b / P) * P
  {
    assert a == (a / P) * P + a % P;
    assert b == (b / P) * P + b % P;
  }

  /** Multiplication respects congruence modulo p. */
  lemma {:induction false} MulCongruent(a: int, b: int, a2: int, b2: int)
    requires a % P == a2 % P && b % P == b2 % P
    ensures (a * b) % P == (a2 * b2) % P
  {
    SameResidue(a, a2);
    SameResidue(b, b2);
    var ka, kb := a / P - a2 / P, b / P - b2 / P;
    assert a * b == a2 * b2 + (ka * b + a2 * kb) * P by {
      assert a == a2 + ka * P;
      assert b == b2 + kb * P;
      assert a * b == a2 * b + ka * P * b;
      assert a2 * b == a2 * b2 + a2 * kb * P;
    }
    ModMultiple(a * b, a2 * b2, ka * b + a2 * kb);
  }

  /** Subtraction respects congruence modulo p. */
  lemma {:induction false} SubCongruent(a: int, b: int, a2: int, b2: int)
    requires a % P == a2 % P && b % P == b2 % P
    ensures (a - b) % P == (a2 - b2) % P
  {
    SameResidue(a, a2);
    SameResidue(b, b2);
    ModMultiple(a - b, a2 - b2, (a / P - a2 / P) - (b / P - b2 / P));
  }

  /** Powers respect congruence modulo p. */
  lemma {:induction false} PowCongruent(a: nat, a2: nat, e: nat)
    requires a % P == a2 % P
    ensures Pow(a, e) % P == Pow(a2, e) % P
    decreases e
  {
    if e > 0 {
      PowCongruent(a, a2, e - 1);
      MulCongruent(a, Pow(a, e - 1), a2, Pow(a2, e - 1));
    }
  }

  /** (a^e)^f = a^(e*f). */
  lemma {:induction false} PowPow(a: nat, e: nat, f: nat)
    ensures Pow(Pow(a, e), f) == Pow(a, e * f)
    decreases f
  {
    if f > 0 {
      PowPow(a, e, f - 1);
      PowAdd(a, e, e * (f - 1));
      assert e + e * (f - 1) == e * f;
    }
  }

  /** Squaring a^(2^i) gives a^(2^(i+1)). */
  lemma {:induction false} PowSquare(a: nat, i: nat)
    ensures Pow(a, Pow(2, i)) * Pow(a, Pow(2, i)) == Pow(a, Pow(2, i + 1))
  {
    PowAdd(a, Pow(2, i), Pow(2, i));
    assert Pow(2, i + 1) == 2 * Pow(2, i);
  }

  /** Two numbers below b^n multiply to one below b^(2n). */
  lemma {:induction false} ProductBound(a: nat, b: nat, base: nat, n: nat)
    requires a < Pow(base, n) && b < Pow(base, n)
    ensures a * b < Pow(base, 2 * n)
  {
    PowAdd(base, n, n);
    MulBelow(a, b, Pow(base, n));
  }

  lemma {:induction false} MulBelow(a: int, b: int, m: int)
    requires 0 <= a < m && 0 <= b < m
    ensures a * b < m * m
  {
    MulLe(b, m, a);
    MulLe(a + 1, m, m);
    assert m * (a + 1) == m * a + m;
  }

  /** The first n limbs of a valid 2n-limb region are limbs. */
  lemma {:induction false} LowHalf(s: seq<nat>, base: nat, n: nat)
    requires n <= |s| && IsLimbs(s, base)
    ensures IsLimbs(s[..n], base)
  {
    assert forall i | 0 <= i < n :: s[..n][i] == s[i];
  }

  // ------------------------------------------------------------------
  // The numbers the helpers compute, as limbs

  /** The 2n limbs of the product of two n-limb numbers: what `mpn_mul_n`
      (and `mpn_sqr`) leave behind. */
  function MulLimbs(x: seq<nat>, y: seq<nat>, base: nat): (r: seq<nat>)
    requires base > 1 && |x| == |y| && IsLimbs(x, base) && IsLimbs(y, base)
    ensures |r| == 2 * |x| && IsLimbs(r, base)
    ensures Val(r, base) == Val(x, base) * Val(y, base)
  {
    var a, b := Val(x, base), Val(y, base);
    ValBound(x, base);
    ValBound(y, base);
    ProductBound(a, b, base, |x|);
    ToLimbsVal(a * b, base, 2 * |x|);
    ToLimbs(a * b, base, 2 * |x|)
  }

  /** The ECC_LIMB_SIZE limbs of x - y reduced modulo p. */
  function SubLimbs(w: Width, x: seq<nat>, y: seq<nat>): (r: seq<nat>)
    ensures |r| == LimbSize(w) && IsLimbs(r, Base(w))
    ensures Val(r, Base(w)) % P == (Val(x, Base(w)) - Val(y, Base(w))) % P
  {
    var base, n := Base(w), LimbSize(w);
    var e := Val(x, base) - Val(y, base);
    var d := e % P;
    ModReduced(e);
    LimbSizeExact(w);
    ToLimbsVal(d, base, n);
    ToLimbs(d, base, n)
  }

  /** A residue modulo p is its own residue and fits in 192 bits. */
  lemma {:induction false} ModReduced(e: int)
    ensures 0 <= e % P < Two192 && (e % P) % P == e % P
  {
  }

  // ------------------------------------------------------------------
  // The helpers

  /** `mpn_mul_n` (or `mpn_sqr` when ap = bp): the 2 * ECC_LIMB_SIZE-limb
      product of the ECC_LIMB_SIZE-limb numbers at ap and bp, written at
      rp.  The product is formed before anything is written. */
  method MulN(w: Width, mem: array<nat>, rp: nat, ap: nat, bp: nat)
    requires rp + 2 * LimbSize(w) <= mem.Length && ap + LimbSize(w) <= mem.Length && bp + LimbSize(w) <= mem.Length
    requires IsLimbs(mem[ap..ap + LimbSize(w)], Base(w)) && IsLimbs(mem[bp..bp + LimbSize(w)], Base(w))
    modifies mem
    ensures IsLimbs(mem[rp..rp + 2 * LimbSize(w)], Base(w))
    ensures Val(mem[rp..rp + 2 * LimbSize(w)], Base(w))
         == Val(old(mem[ap..ap + LimbSize(w)]), Base(w)) * Val(old(mem[bp..bp + LimbSize(w)]), Base(w))
    ensures forall i | 0 <= i < mem.Length && !InRegion(i, rp, 2 * LimbSize(w)) :: mem[i] == old(mem[i])
  {
    var n := LimbSize(w);
    var prod := MulLimbs(mem[ap..ap + n], mem[bp..bp + n], Base(w));
    WriteLimbs(mem, rp, prod);
  }

  /** `ecc_mod_mul`: the product of the numbers at ap and bp, reduced by
      ecc_192_modp in the 2 * ECC_LIMB_SIZE limbs at rp. */
  method ModMul(w: Width, mem: array<nat>, rp: nat, ap: nat, bp: nat)
    requires rp + 2 * LimbSize(w) <= mem.Length && ap + LimbSize(w) <= mem.Length && bp + LimbSize(w) <= mem.Length
    requires IsLimbs(mem[ap..ap + LimbSize(w)], Base(w)) && IsLimbs(mem[bp..bp + LimbSize(w)], Base(w))
    modifies mem
    ensures IsLimbs(mem[rp..rp + 2 * LimbSize(w)], Base(w)) && IsLimbs(mem[rp..rp + LimbSize(w)], Base(w))
    ensures Val(mem[rp..rp + LimbSize(w)], Base(w)) < Two192
    ensures Val(mem[rp..rp + LimbSize(w)], Base(w)) % P
         == (Val(old(mem[ap..ap + LimbSize(w)]), Base(w)) * Val(old(mem[bp..bp + LimbSize(w)]), Base(w))) % P
    ensures forall i | 0 <= i < mem.Length && !InRegion(i, rp, 2 * LimbSize(w)) :: mem[i] == old(mem[i])
  {
    MulN(w, mem, rp, ap, bp);
    Modp(w, mem, rp);
    var n := LimbSize(w);
    LowHalf(mem[rp..rp + 2 * n], Base(w), n);
    assert mem[rp..rp + 2 * n][..n] == mem[rp..rp + n];
  }

  /** `ecc_mod_sqr`: the square of the number at ap, reduced by
      ecc_192_modp in the 2 * ECC_LIMB_SIZE limbs at rp. */
  method ModSqr(w: Width, mem: array<nat>, rp: nat, ap: nat)
    requires rp + 2 * LimbSize(w) <= mem.Length && ap + LimbSize(w) <= mem.Length
    requires IsLimbs(mem[ap..ap + LimbSize(w)], Base(w))
    modifies mem
    ensures IsLimbs(mem[rp..rp + 2 * LimbSize(w)], Base(w)) && IsLimbs(mem[rp..rp + LimbSize(w)], Base(w))
    ensures Val(mem[rp..rp + LimbSize(w)], Base(w)) < Two192
    ensures Val(mem[rp..rp + LimbSize(w)], Base(w)) % P
         == (Val(old(mem[ap..ap + LimbSize(w)]), Base(w)) * Val(old(mem[ap..ap + LimbSize(w)]), Base(w))) % P
    ensures forall i | 0 <= i < mem.Length && !InRegion(i, rp, 2 * LimbSize(w)) :: mem[i] == old(mem[i])
  {
    MulN(w, mem, rp, ap, ap);
    Modp(w, mem, rp);
    var n := LimbSize(w);
    LowHalf(mem[rp..rp + 2 * n], Base(w), n);
    assert mem[rp..rp + 2 * n][..n] == mem[rp..rp + n];
  }

  /** `ecc_mod_sub`: the difference of the numbers at ap and bp modulo p,
      in the ECC_LIMB_SIZE limbs at rp; rp may be ap or bp. */
  method ModSub(w: Width, mem: array<nat>, rp: nat, ap: nat, bp: nat)
    requires rp + LimbSize(w) <= mem.Length && ap + LimbSize(w) <= mem.Length && bp + LimbSize(w) <= mem.Length
    modifies mem
    ensures IsLimbs(mem[rp..rp + LimbSize(w)], Base(w))
    ensures Val(mem[rp..rp + LimbSize(w)], Base(w)) % P
         == (Val(old(mem[ap..ap + LimbSize(w)]), Base(w)) - Val(old(mem[bp..bp + LimbSize(w)]), Base(w))) % P
    ensures forall i | 0 <= i < mem.Length && !InRegion(i, rp, LimbSize(w)) :: mem[i] == old(mem[i])
  {
    var n := LimbSize(w);
    var d := SubLimbs(w, mem[ap..ap + n], mem[bp..bp + n]);
    assert |d| == n;
    WriteLimbs(mem, rp, d);
  }

  /** One squaring of `ecc_mod_pow_2k`: the number at rp is squared into
      the scratch at tp, reduced there, and its low ECC_LIMB_SIZE limbs are
      copied back to rp. */
  method SquareStep(w: Width, mem: array<nat>, rp: nat, tp: nat)
    requires rp + LimbSize(w) <= mem.Length && tp + 2 * LimbSize(w) <= mem.Length
    requires Disjoint(rp, LimbSize(w), tp, 2 * LimbSize(w))
    requires IsLimbs(mem[rp..rp + LimbSize(w)], Base(w))
    modifies mem
    ensures IsLimbs(mem[rp..rp + LimbSize(w)], Base(w))
    ensures Val(mem[rp..rp + LimbSize(w)], Base(w)) % P
         == (Val(old(mem[rp..rp + LimbSize(w)]), Base(w)) * Val(old(mem[rp..rp + LimbSize(w)]), Base(w))) % P
    ensures forall i | 0 <= i < mem.Length && !InRegion(i, rp, LimbSize(w)) && !InRegion(i, tp, 2 * LimbSize(w)) :: mem[i] == old(mem[i])
  {
    var n := LimbSize(w);
    ModSqr(w, mem, tp, rp);
    WriteLimbs(mem, rp, mem[tp..tp + n]);
  }

  /** `ecc_mod_pow_2k`: x^(2^k) modulo p in the ECC_LIMB_SIZE limbs at rp,
      by k squarings through the 2 * ECC_LIMB_SIZE-limb scratch at tp. */
  method ModPow2k(w: Width, mem: array<nat>, rp: nat, xp: nat, k: nat, tp: nat)
    requires rp + LimbSize(w) <= mem.Length && xp + LimbSize(w) <= mem.Length && tp + 2 * LimbSize(w) <= mem.Length
    requires Disjoint(rp, LimbSize(w), tp, 2 * LimbSize(w))
    requires IsLimbs(mem[xp..xp + LimbSize(w)], Base(w))
    modifies mem
    ensures IsLimbs(mem[rp..rp + LimbSize(w)], Base(w))
    ensures Val(mem[rp..rp + LimbSize(w)], Base(w)) % P == Pow(Val(old(mem[xp..xp + LimbSize(w)]), Base(w)), Pow(2, k)) % P
    ensures forall i | 0 <= i < mem.Length && !InRegion(i, rp, LimbSize(w)) && !InRegion(i, tp, 2 * LimbSize(w)) :: mem[i] == old(mem[i])
  {
    var n, base := LimbSize(w), Base(w);
    ghost var x := Val(mem[xp..xp + n], base);
    WriteLimbs(mem, rp, mem[xp..xp + n]);
    assert Pow(x, Pow(2, 0)) == x;
    var i := 0;
    while i < k
      invariant 0 <= i <= k
      invariant IsLimbs(mem[rp..rp + n], base)
      invariant Val(mem[rp..rp + n], base) % P == Pow(x, Pow(2, i)) % P
      invariant forall j | 0 <= j < mem.Length && !InRegion(j, rp, n) && !InRegion(j, tp, 2 * n) :: mem[j] == old(mem[j])
    {
      ghost var v := Val(mem[rp..rp + n], base);
      SquareStep(w, mem, rp, tp);
      MulCongruent(v, v, Pow(x, Pow(2, i)), Pow(x, Pow(2, i)));
      PowSquare(x, i);
      i := i + 1;
    }
  }

  /** `ecc_mod_pow_2k_mul`: x^(2^k) * y modulo p in the ECC_LIMB_SIZE low
      limbs of rp.  The power is formed at tp with rp as its scratch, then
      multiplied by y into rp, so both rp and tp need 2 * ECC_LIMB_SIZE
      limbs, and y must lie outside both. */
  method ModPow2kMul(w: Width, mem: array<nat>, rp: nat, xp: nat, k: nat, yp: nat, tp: nat)
    requires rp + 2 * LimbSize(w) <= mem.Length && tp + 2 * LimbSize(w) <= mem.Length
    requires xp + LimbSize(w) <= mem.Length && yp + LimbSize(w) <= mem.Length
    requires Disjoint(rp, 2 * LimbSize(w), tp, 2 * LimbSize(w))
    requires Disjoint(yp, LimbSize(w), rp, 2 * LimbSize(w)) && Disjoint(yp, LimbSize(w), tp, 2 * LimbSize(w))
    requires IsLimbs(mem[xp..xp + LimbSize(w)], Base(w)) && IsLimbs(mem[yp..yp + LimbSize(w)], Base(w))
    modifies mem
    ensures IsLimbs(mem[rp..rp + 2 * LimbSize(w)], Base(w)) && IsLimbs(mem[rp..rp + LimbSize(w)], Base(w))
    ensures Val(mem[rp..rp + LimbSize(w)], Base(w)) % P
         == (Pow(Val(old(mem[xp..xp + LimbSize(w)]), Base(w)), Pow(2, k)) * Val(old(mem[yp..yp + LimbSize(w)]), Base(w))) % P
    ensures forall i | 0 <= i < mem.Length && !InRegion(i, rp, 2 * LimbSize(w)) && !InRegion(i, tp, 2 * LimbSize(w)) :: mem[i] == old(mem[i])
  {
    var n, base := LimbSize(w), Base(w);
    ghost var x, y := Val(mem[xp..xp + n], base), Val(mem[yp..yp + n], base);
    ghost var ys := mem[yp..yp + n];
    ghost var before := mem[..];
    ModPow2k(w, mem, tp, xp, k, rp);
    KeptSlice(before, mem[..], yp, n, tp, n, rp, 2 * n);
    assert mem[yp..yp + n] == mem[..][yp..yp + n] && before[yp..yp + n] == ys;
    ghost var u := Val(mem[tp..tp + n], base);
    ModMul(w, mem, rp, tp, yp);
    MulCongruent(u, y, Pow(x, Pow(2, k)), y);
  }
}
