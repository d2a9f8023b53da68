/** `ecc_192_modp`: the P-192 fast reduction (ecc-192.c).  A double-width
    number at rp, 2*ECC_LIMB_SIZE limbs, is folded in place into
    ECC_LIMB_SIZE limbs by adding its high limbs back into the low ones,
    using B^3 = B + 1 (mod p) for 64-bit limbs and B^6 = B^2 + 1 (mod p)
    for 32-bit limbs.

    Each variant is a method over the limb buffer that makes the same calls
    as the C code, on the primitives of module Limbs.  After each call the
    method names the limbs the chain left behind; a stage lemma then takes
    those named limbs and the chains they came from and states what the
    stage achieves: the carry bound the C code asserts, and the exact value
    the stage leaves.  That value is given by width-independent functions
    of the input number (FoldHigh, FoldTop, ModpValue), so both variants
    provably leave the same number. */
module Ecc192Modp {
  import opened Limbs
  import opened P192

  // ------------------------------------------------------------------
  // The folds as operations on numbers, independent of the limb width

  const Two256: nat := Two192 * Two64

  /** The first fold: the bits from 2^256 up, H = x / 2^256, are removed
      and added back at 2^64 and 2^128, which subtracts H * 2^64 * p. */
  function FoldHigh(x: int): (r: int)
    ensures r % P == x % P
  {
    ModMultiple(x, x - (x / Two256) * Two64 * P, (x / Two256) * Two64);
    x - (x / Two256) * Two64 * P
  }

  /** The second fold and the final addition: the bits from 2^192 up,
      H = v / 2^192, are removed and added back at 1 and 2^64, which
      subtracts H * p. */
  function FoldTop(v: int): (r: int)
    ensures r % P == v % P
  {
    ModMultiple(v, v - (v / Two192) * P, v / Two192);
    v - (v / Two192) * P
  }

  /** The number ecc_192_modp leaves in the low ECC_LIMB_SIZE limbs, for
      either limb width: the first fold, then the second, then the final
      conditional addition of B^size mod p. */
  function ModpValue(x: int): (r: int)
    ensures r % P == x % P
  {
    FoldTop(FoldTop(FoldHigh(x)))
  }

  /** ecc_192_modp does not always return the canonical residue: the input
      p, which fits comfortably in 2 * ECC_LIMB_SIZE limbs, comes out as p
      itself, while 0 comes out as 0. */
  lemma {:induction false} ModpKeepsP()
    ensures ModpValue(P) == P && P % P == 0
    ensures ModpValue(0) == 0
  {
    DivModUnique(P, Two256, 0, P);
    DivModUnique(P, Two192, 0, P);
  }

  /** Splitting off the top of a Horner sum: four limbs below B64 followed
      by h are worth h * 2^256 plus less than 2^256. */
  lemma {:induction false} TopOf4x64(a0: nat, a1: nat, a2: nat, a3: nat, h: nat)
    requires a0 < B64 && a1 < B64 && a2 < B64 && a3 < B64
    ensures (a0 + B64 * (a1 + B64 * (a2 + B64 * (a3 + B64 * h)))) / Two256 == h
  {
    var lo := a0 + B64 * (a1 + B64 * (a2 + B64 * a3));
    assert lo < Two256;
    DivModUnique(a0 + B64 * (a1 + B64 * (a2 + B64 * (a3 + B64 * h))), Two256, h, lo);
  }

  /** Three limbs below B64 followed by h are worth h * 2^192 plus less
      than 2^192. */
  lemma {:induction false} TopOf3x64(a0: nat, a1: nat, a2: nat, h: nat)
    requires a0 < B64 && a1 < B64 && a2 < B64
    ensures (a0 + B64 * (a1 + B64 * (a2 + B64 * h))) / Two192 == h
  {
    var lo := a0 + B64 * (a1 + B64 * a2);
    assert lo < Two192;
    DivModUnique(a0 + B64 * (a1 + B64 * (a2 + B64 * h)), Two192, h, lo);
  }

  /** Eight limbs below B32 followed by h are worth h * 2^256 plus less
      than 2^256. */
  lemma {:induction false} TopOf8x32(a0: nat, a1: nat, a2: nat, a3: nat, a4: nat, a5: nat, a6: nat, a7: nat, h: nat)
    requires a0 < B32 && a1 < B32 && a2 < B32 && a3 < B32 && a4 < B32 && a5 < B32 && a6 < B32 && a7 < B32
    ensures (a0 + B32 * (a1 + B32 * (a2 + B32 * (a3 + B32 * (a4 + B32 * (a5 + B32 * (a6 + B32 * (a7 + B32 * h)))))))) / Two256 == h
  {
    var lo := a0 + B32 * (a1 + B32 * (a2 + B32 * (a3 + B32 * (a4 + B32 * (a5 + B32 * (a6 + B32 * a7))))));
    assert lo < Two256;
    DivModUnique(a0 + B32 * (a1 + B32 * (a2 + B32 * (a3 + B32 * (a4 + B32 * (a5 + B32 * (a6 + B32 * (a7 + B32 * h))))))), Two256, h, lo);
  }

  /** Six limbs below B32 followed by h are worth h * 2^192 plus less than
      2^192. */
  lemma {:induction false} TopOf6x32(a0: nat, a1: nat, a2: nat, a3: nat, a4: nat, a5: nat, h: nat)
    requires a0 < B32 && a1 < B32 && a2 < B32 && a3 < B32 && a4 < B32 && a5 < B32
    ensures (a0 + B32 * (a1 + B32 * (a2 + B32 * (a3 + B32 * (a4 + B32 * (a5 + B32 * h)))))) / Two192 == h
  {
    var lo := a0 + B32 * (a1 + B32 * (a2 + B32 * (a3 + B32 * (a4 + B32 * a5))));
    assert lo < Two192;
    DivModUnique(a0 + B32 * (a1 + B32 * (a2 + B32 * (a3 + B32 * (a4 + B32 * (a5 + B32 * h))))), Two192, h, lo);
  }

  /** Six 64-bit limbs: the part from 2^256 up is the top two limbs. */
  lemma {:induction false} HighPart64(x: seq<nat>)
    requires |x| == 6 && IsLimbs(x, B64)
    ensures Val(x, B64) / Two256 == x[4] + B64 * x[5]
  {
    Val6(x, B64);
    TopOf4x64(x[0], x[1], x[2], x[3], x[4] + B64 * x[5]);
  }

  /** Five 64-bit limbs, the low three proper: the part from 2^192 up is
      the top two limbs. */
  lemma {:induction false} TopPart64(s: seq<nat>)
    requires |s| == 5 && s[0] < B64 && s[1] < B64 && s[2] < B64
    ensures Val(s, B64) / Two192 == s[3] + B64 * s[4]
  {
    Val5(s, B64);
    TopOf3x64(s[0], s[1], s[2], s[3] + B64 * s[4]);
  }

  /** Three 64-bit limbs and a carry: the part from 2^192 up is the carry. */
  lemma {:induction false} CarryPart64(t: seq<nat>)
    requires |t| == 4 && t[0] < B64 && t[1] < B64 && t[2] < B64
    ensures Val(t, B64) / Two192 == t[3]
  {
    Val4(t, B64);
    TopOf3x64(t[0], t[1], t[2], t[3]);
  }

  /** Twelve 32-bit limbs: the part from 2^256 up is the top four limbs. */
  lemma {:induction false} HighPart32(x: seq<nat>)
    requires |x| == 12 && IsLimbs(x, B32)
    ensures Val(x, B32) / Two256 == x[8] + B32 * (x[9] + B32 * (x[10] + B32 * x[11]))
  {
    Val12(x, B32);
    TopOf8x32(x[0], x[1], x[2], x[3], x[4], x[5], x[6], x[7], x[8] + B32 * (x[9] + B32 * (x[10] + B32 * x[11])));
  }

  /** Nine 32-bit limbs, the low six proper: the part from 2^192 up is the
      top three limbs. */
  lemma {:induction false} TopPart32(s: seq<nat>)
    requires |s| == 9 && s[0] < B32 && s[1] < B32 && s[2] < B32 && s[3] < B32 && s[4] < B32 && s[5] < B32
    ensures Val(s, B32) / Two192 == s[6] + B32 * (s[7] + B32 * s[8])
  {
    Val9(s, B32);
    TopOf6x32(s[0], s[1], s[2], s[3], s[4], s[5], s[6] + B32 * (s[7] + B32 * s[8]));
  }

  /** Six 32-bit limbs and a carry: the part from 2^192 up is the carry. */
  lemma {:induction false} CarryPart32(t: seq<nat>)
    requires |t| == 7 && t[0] < B32 && t[1] < B32 && t[2] < B32 && t[3] < B32 && t[4] < B32 && t[5] < B32
    ensures Val(t, B32) / Two192 == t[6]
  {
    Val7(t, B32);
    TopOf6x32(t[0], t[1], t[2], t[3], t[4], t[5], t[6]);
  }

  /** Subtracting H * 2^64 * p, H the part from 2^256 up, is FoldHigh. */
  lemma {:induction false} IsFoldHigh(x: int, r: int, h: int, m: int)
    requires m == Two64 && x / Two256 == h && r == x - h * m * P
    ensures r == FoldHigh(x)
  {
  }

  /** Subtracting H * p, H the part from 2^192 up, is FoldTop. */
  lemma {:induction false} IsFoldTop(v: int, r: int, h: int)
    requires v / Two192 == h && r == v - h * P
    ensures r == FoldTop(v)
  {
  }

  /** Six 64-bit limbs x and limbs s worth x less H * 2^64 * p, H the top
      two limbs of x: s is worth FoldHigh of x. */
  lemma {:induction false} FoldHighExact64(x: seq<nat>, s: seq<nat>)
    requires |x| == 6 && IsLimbs(x, B64)
    requires Val(s, B64) == Val(x, B64) - (x[4] + B64 * x[5]) * B64 * P
    ensures Val(s, B64) == FoldHigh(Val(x, B64))
  {
    HighPart64(x);
    IsFoldHigh(Val(x, B64), Val(s, B64), x[4] + B64 * x[5], B64);
  }

  /** Five 64-bit limbs s, the low three proper, and limbs t worth s less
      H * p, H the top two limbs of s: t is worth FoldTop of s. */
  lemma {:induction false} FoldTopExact64(s: seq<nat>, t: seq<nat>)
    requires |s| == 5 && s[0] < B64 && s[1] < B64 && s[2] < B64
    requires Val(t, B64) == Val(s, B64) - (s[3] + B64 * s[4]) * P
    ensures Val(t, B64) == FoldTop(Val(s, B64))
  {
    TopPart64(s);
    IsFoldTop(Val(s, B64), Val(t, B64), s[3] + B64 * s[4]);
  }

  /** Three proper 64-bit limbs and a carry cy, and limbs w worth them less
      cy * p: w is worth FoldTop of them. */
  lemma {:induction false} FoldCarryExact64(t: seq<nat>, w: seq<nat>)
    requires |t| == 4 && t[0] < B64 && t[1] < B64 && t[2] < B64
    requires Val(w, B64) == Val(t, B64) - t[3] * P
    ensures Val(w, B64) == FoldTop(Val(t, B64))
  {
    CarryPart64(t);
    IsFoldTop(Val(t, B64), Val(w, B64), t[3]);
  }

  /** Twelve 32-bit limbs x and limbs s worth x less H * 2^64 * p, H the
      top four limbs of x: s is worth FoldHigh of x. */
  lemma {:induction false} FoldHighExact32(x: seq<nat>, s: seq<nat>)
    requires |x| == 12 && IsLimbs(x, B32)
    requires Val(s, B32) == Val(x, B32) - (x[8] + B32 * (x[9] + B32 * (x[10] + B32 * x[11]))) * (B32 * B32) * P
    ensures Val(s, B32) == FoldHigh(Val(x, B32))
  {
    HighPart32(x);
    IsFoldHigh(Val(x, B32), Val(s, B32), x[8] + B32 * (x[9] + B32 * (x[10] + B32 * x[11])), B32 * B32);
  }

  /** Nine 32-bit limbs s, the low six proper, and limbs t worth s less
      H * p, H the top three limbs of s: t is worth FoldTop of s. */
  lemma {:induction false} FoldTopExact32(s: seq<nat>, t: seq<nat>)
    requires |s| == 9 && s[0] < B32 && s[1] < B32 && s[2] < B32 && s[3] < B32 && s[4] < B32 && s[5] < B32
    requires Val(t, B32) == Val(s, B32) - (s[6] + B32 * (s[7] + B32 * s[8])) * P
    ensures Val(t, B32) == FoldTop(Val(s, B32))
  {
    TopPart32(s);
    IsFoldTop(Val(s, B32), Val(t, B32), s[6] + B32 * (s[7] + B32 * s[8]));
  }

  /** Six proper 32-bit limbs and a carry cy, and limbs w worth them less
      cy * p: w is worth FoldTop of them. */
  lemma {:induction false} FoldCarryExact32(t: seq<nat>, w: seq<nat>)
    requires |t| == 7 && t[0] < B32 && t[1] < B32 && t[2] < B32 && t[3] < B32 && t[4] < B32 && t[5] < B32
    requires Val(w, B32) == Val(t, B32) - t[6] * P
    ensures Val(w, B32) == FoldTop(Val(t, B32))
  {
    CarryPart32(t);
    IsFoldTop(Val(t, B32), Val(w, B32), t[6]);
  }

  // ------------------------------------------------------------------
  // 64-bit limbs: p = B^3 - B - 1

  /** The arithmetic of the first fold: limbs 4..5 (H) are added at
      positions 1..2 and 2..3, which replaces H * B^4 by H * (B^2 + B).
      The carry out of limb 3 is at most 2. */
  lemma {:induction false} Fold64First(r0: int, r1: int, r2: int, r3: int, r4: int, r5: int,
                                       n1: int, n2: int, n3: int, m2: int, m3: int, c1: int, c2: int, c3: int)
    requires 0 <= r0 < B64 && 0 <= r1 < B64 && 0 <= r2 < B64 && 0 <= r3 < B64 && 0 <= r4 < B64 && 0 <= r5 < B64
    requires 0 <= n1 < B64 && 0 <= n2 < B64 && 0 <= n3 < B64 && 0 <= m2 < B64 && 0 <= m3 < B64
    requires 0 <= c1 && 0 <= c2 && 0 <= c3
    requires n1 + B64 * (n2 + B64 * c1) == (r1 + B64 * r2) + (r4 + B64 * r5) + 0
    requires n3 + B64 * c2 == r3 + c1
    requires m2 + B64 * (m3 + B64 * c3) == (n2 + B64 * n3) + (r4 + B64 * r5) + 0
    ensures c2 + c3 <= 2
    ensures r0 + B64 * (n1 + B64 * (m2 + B64 * (m3 + B64 * (c2 + c3))))
         == r0 + B64 * (r1 + B64 * (r2 + B64 * (r3 + B64 * (r4 + B64 * r5)))) - (r4 + B64 * r5) * B64 * P
  {
  }

  /** The arithmetic of the second fold: limbs 3..4 (H, limb 4 at most 2)
      are added at positions 0..1 and 1..2, which replaces H * B^3 by
      H * (B + 1).  The carry out is at most 1, and when it is 1 the low
      three limbs are small enough for the final addition not to carry. */
  lemma {:induction false} Fold64Second(s0: int, s1: int, s2: int, s3: int, s4: int,
                                        t0: int, t1: int, t2: int, u1: int, u2: int, d1: int, d2: int, d3: int)
    requires 0 <= s0 < B64 && 0 <= s1 < B64 && 0 <= s2 < B64 && 0 <= s3 < B64 && 0 <= s4 <= 2
    requires 0 <= t0 < B64 && 0 <= t1 < B64 && 0 <= t2 < B64 && 0 <= u1 < B64 && 0 <= u2 < B64
    requires 0 <= d1 && 0 <= d2 && 0 <= d3
    requires t0 + B64 * (t1 + B64 * d1) == (s0 + B64 * s1) + (s3 + B64 * s4) + 0
    requires t2 + B64 * d2 == s2 + d1
    requires u1 + B64 * (u2 + B64 * d3) == (t1 + B64 * t2) + (s3 + B64 * s4) + 0
    ensures d2 + d3 <= 1
    ensures d2 + d3 == 1 ==> t0 + B64 * (u1 + B64 * u2) + B64 + 1 < Two192
    ensures t0 + B64 * (u1 + B64 * (u2 + B64 * (d2 + d3)))
         == s0 + B64 * (s1 + B64 * (s2 + B64 * (s3 + B64 * s4))) - (s3 + B64 * s4) * P
  {
  }

  /** The arithmetic of the final addition: adding cy * (B + 1) to a
      three-limb T, which is small enough when cy is 1, does not carry out,
      and the sum W is T + cy * 2^192 less cy * p. */
  lemma {:induction false} Fold64Final(t0: int, t1: int, t2: int, cy: int, w0: int, w1: int, w2: int, c: int)
    requires w0 + B64 * (w1 + B64 * (w2 + B64 * c)) == (t0 + B64 * (t1 + B64 * t2)) + (cy + B64 * (cy + B64 * 0)) + 0
    requires cy == 1 ==> t0 + B64 * (t1 + B64 * t2) + B64 + 1 < Two192
    requires 0 <= t0 < B64 && 0 <= t1 < B64 && 0 <= t2 < B64 && 0 <= cy <= 1
    requires 0 <= w0 < B64 && 0 <= w1 < B64 && 0 <= w2 < B64 && 0 <= c <= 1
    ensures c == 0
    ensures w0 + B64 * (w1 + B64 * w2) < Two192
    ensures t0 + B64 * (t1 + B64 * (t2 + B64 * cy)) == w0 + B64 * (w1 + B64 * w2) + cy * P
  {
    assert t0 + B64 * (t1 + B64 * t2) < Two192;
    assert c == 0;
  }

  /** The first fold in values: when the Horner sums satisfy the equation
      Fold64First gives, the five limbs s are worth the six limbs x
      less H * B * p, H the top two limbs of x. */
  lemma {:induction false} Fold64FirstValue(x: seq<nat>, s: seq<nat>, x0: nat, x1: nat, x2: nat, x3: nat, x4: nat, x5: nat, n1: nat, m2: nat, m3: nat, c: nat)
    requires x == [x0, x1, x2, x3, x4, x5] && s == [x0, n1, m2, m3, c]
    requires x0 + B64 * (n1 + B64 * (m2 + B64 * (m3 + B64 * c)))
          == x0 + B64 * (x1 + B64 * (x2 + B64 * (x3 + B64 * (x4 + B64 * x5)))) - (x4 + B64 * x5) * B64 * P
    ensures Val(s, B64) == Val(x, B64) - (x4 + B64 * x5) * B64 * P
  {
    Val5(s, B64);
    Val6(x, B64);
  }

  /** The second fold in values: when the Horner sums satisfy the equation
      and the bound Fold64Second gives, the four limbs t, the top one the
      carry d, are worth the five limbs s less H * p, H the top two limbs
      of s, and the low three are small when d is 1. */
  lemma {:induction false} Fold64SecondValue(s: seq<nat>, t: seq<nat>, s0: nat, s1: nat, s2: nat, s3: nat, s4: nat, t0: nat, u1: nat, u2: nat, d: nat)
    requires s == [s0, s1, s2, s3, s4] && t == [t0, u1, u2, d]
    requires d == 1 ==> t0 + B64 * (u1 + B64 * u2) + B64 + 1 < Two192
    requires t0 + B64 * (u1 + B64 * (u2 + B64 * d))
          == s0 + B64 * (s1 + B64 * (s2 + B64 * (s3 + B64 * s4))) - (s3 + B64 * s4) * P
    ensures d == 1 ==> Val([t0, u1, u2], B64) + B64 + 1 < Two192
    ensures Val(t, B64) == Val(s, B64) - (s3 + B64 * s4) * P
  {
    Val3([t0, u1, u2], B64);
    Val4(t, B64);
    Val5(s, B64);
  }

  /** The final addition in values: when the Horner sums satisfy the
      equation Fold64Final gives, the three limbs w are below 2^192 and
      worth the four limbs t, cy less cy * p. */
  lemma {:induction false} Fold64FinalValue(t0: nat, t1: nat, t2: nat, cy: nat, w0: nat, w1: nat, w2: nat)
    requires w0 + B64 * (w1 + B64 * w2) < Two192
    requires t0 + B64 * (t1 + B64 * (t2 + B64 * cy)) == w0 + B64 * (w1 + B64 * w2) + cy * P
    ensures Val([w0, w1, w2], B64) < Two192
    ensures Val([w0, w1, w2], B64) == Val([t0, t1, t2, cy], B64) - cy * P
  {
    Val3([w0, w1, w2], B64);
    Val4([t0, t1, t2, cy], B64);
  }

  /** The addend of the final cnd_add_n: B + 1 when the carry is set. */
  lemma {:induction false} MaskedBmodp64(cy: nat)
    requires cy <= 1
    ensures Masked(cy, EccBmodp(W64)) == [cy, cy, 0]
  {
  }

  /** The first fold on its chains (ecc-192.c:92-98): add_n(rp+1, rp+4, 2)
      leaves n1, n2 and carry c1, sec_add_1 into limb 3 leaves n3 and c2,
      add_n(rp+2, rp+4, 2) leaves m2, m3 and c3.  The new top limb, the sum
      c2 + c3 of the two carries, is at most 2 (the C assert), and the five
      limbs left are worth x less H * B * p, H its top two limbs. */
  lemma {:induction false} Fold64FirstStage(x: seq<nat>, x0: nat, x1: nat, x2: nat, x3: nat, x4: nat, x5: nat,
                                            n1: nat, n2: nat, n3: nat, m2: nat, m3: nat, c1: nat, c2: nat, c3: nat)
    requires x == [x0, x1, x2, x3, x4, x5]
    requires x0 < B64 && x1 < B64 && x2 < B64 && x3 < B64 && x4 < B64 && x5 < B64
    requires AddChain([x1, x2], [x4, x5], 0, B64) == [n1, n2, c1]
    requires IncChain([x3], c1, B64) == [n3, c2]
    requires AddChain([n2, n3], [x4, x5], 0, B64) == [m2, m3, c3]
    ensures c2 + c3 <= 2 && n1 < B64 && m2 < B64 && m3 < B64
    ensures Val([x0, n1, m2, m3, c2 + c3], B64) == Val(x, B64) - (x4 + B64 * x5) * B64 * P
  {
    AddSum2(x1, x2, x4, x5, 0, B64, n1, n2, c1);
    IncSum1(x3, c1, B64, n3, c2);
    AddSum2(n2, n3, x4, x5, 0, B64, m2, m3, c3);
    Fold64First(x0, x1, x2, x3, x4, x5, n1, n2, n3, m2, m3, c1, c2, c3);
    Fold64FirstValue(x, [x0, n1, m2, m3, c2 + c3], x0, x1, x2, x3, x4, x5, n1, m2, m3, c2 + c3);
  }

  /** The first 64-bit fold in its exact value: the limbs it leaves are worth
      FoldHigh of the input x. */
  lemma {:induction false} Fold64FirstResult(x: seq<nat>, x0: nat, x1: nat, x2: nat, x3: nat, x4: nat, x5: nat,
                                             n1: nat, n2: nat, n3: nat, m2: nat, m3: nat, c1: nat, c2: nat, c3: nat)
    requires x == [x0, x1, x2, x3, x4, x5]
    requires x0 < B64 && x1 < B64 && x2 < B64 && x3 < B64 && x4 < B64 && x5 < B64
    requires AddChain([x1, x2], [x4, x5], 0, B64) == [n1, n2, c1]
    requires IncChain([x3], c1, B64) == [n3, c2]
    requires AddChain([n2, n3], [x4, x5], 0, B64) == [m2, m3, c3]
    ensures c2 + c3 <= 2 && n1 < B64 && m2 < B64 && m3 < B64
    ensures Val([x0, n1, m2, m3, c2 + c3], B64) == FoldHigh(Val(x, B64))
  {
    Fold64FirstStage(x, x0, x1, x2, x3, x4, x5, n1, n2, n3, m2, m3, c1, c2, c3);
    FoldHighExact64(x, [x0, n1, m2, m3, c2 + c3]);
  }

  /** The second fold on its chains (ecc-192.c:100-105), over the five
      limbs s left by the first: add_n(rp, rp+3, 2) leaves t0, t1 and d1,
      sec_add_1 into limb 2 leaves t2 and d2, add_n(rp+1, rp+3, 2) leaves
      u1, u2 and d3.  The carry d2 + d3 is at most 1 (the C assert), when it
      is 1 the three low limbs are at most 2^192 - B - 2, and the four limbs
      left are worth s less H * p, H its top two limbs. */
  lemma {:induction false} Fold64SecondStage(s: seq<nat>, s0: nat, s1: nat, s2: nat, s3: nat, s4: nat,
                                             t0: nat, t1: nat, d1: nat, t2: nat, d2: nat, u1: nat, u2: nat, d3: nat)
    requires s == [s0, s1, s2, s3, s4]
    requires s0 < B64 && s1 < B64 && s2 < B64 && s3 < B64 && s4 <= 2
    requires AddChain([s0, s1], [s3, s4], 0, B64) == [t0, t1, d1]
    requires IncChain([s2], d1, B64) == [t2, d2]
    requires AddChain([t1, t2], [s3, s4], 0, B64) == [u1, u2, d3]
    ensures d2 + d3 <= 1 && t0 < B64 && u1 < B64 && u2 < B64
    ensures d2 + d3 == 1 ==> Val([t0, u1, u2], B64) + B64 + 1 < Two192
    ensures Val([t0, u1, u2, d2 + d3], B64) == Val(s, B64) - (s3 + B64 * s4) * P
  {
    AddSum2(s0, s1, s3, s4, 0, B64, t0, t1, d1);
    IncSum1(s2, d1, B64, t2, d2);
    AddSum2(t1, t2, s3, s4, 0, B64, u1, u2, d3);
    Fold64Second(s0, s1, s2, s3, s4, t0, t1, t2, u1, u2, d1, d2, d3);
    Fold64SecondValue(s, [t0, u1, u2, d2 + d3], s0, s1, s2, s3, s4, t0, u1, u2, d2 + d3);
  }

  /** The second 64-bit fold in its exact value: the limbs it leaves are worth
      FoldTop of s. */
  lemma {:induction false} Fold64SecondResult(s: seq<nat>, s0: nat, s1: nat, s2: nat, s3: nat, s4: nat,
                                              t0: nat, t1: nat, d1: nat, t2: nat, d2: nat, u1: nat, u2: nat, d3: nat)
    requires s == [s0, s1, s2, s3, s4]
    requires s0 < B64 && s1 < B64 && s2 < B64 && s3 < B64 && s4 <= 2
    requires AddChain([s0, s1], [s3, s4], 0, B64) == [t0, t1, d1]
    requires IncChain([s2], d1, B64) == [t2, d2]
    requires AddChain([t1, t2], [s3, s4], 0, B64) == [u1, u2, d3]
    ensures d2 + d3 <= 1 && t0 < B64 && u1 < B64 && u2 < B64
    ensures d2 + d3 == 1 ==> Val([t0, u1, u2], B64) + B64 + 1 < Two192
    ensures Val([t0, u1, u2, d2 + d3], B64) == FoldTop(Val(s, B64))
  {
    Fold64SecondStage(s, s0, s1, s2, s3, s4, t0, t1, d1, t2, d2, u1, u2, d3);
    FoldTopExact64(s, [t0, u1, u2, d2 + d3]);
  }

  /** The final cnd_add_n of B + 1 (ecc-192.c:106-107): adding cy * (B + 1)
      to the three low limbs t never carries out (the C assert), and
      replaces the fourth limb cy, worth cy * 2^192, by cy * p less, which
      is the four limbs less cy * p; the result is below 2^192. */
  lemma {:induction false} Fold64FinalStage(t0: nat, t1: nat, t2: nat, cy: nat, w0: nat, w1: nat, w2: nat, c: nat)
    requires t0 < B64 && t1 < B64 && t2 < B64 && cy <= 1
    requires cy == 1 ==> Val([t0, t1, t2], B64) + B64 + 1 < Two192
    requires AddChain([t0, t1, t2], Masked(cy, EccBmodp(W64)), 0, B64) == [w0, w1, w2, c]
    ensures c == 0 && w0 < B64 && w1 < B64 && w2 < B64
    ensures Val([w0, w1, w2], B64) < Two192
    ensures Val([w0, w1, w2], B64) == Val([t0, t1, t2, cy], B64) - cy * P
  {
    MaskedBmodp64(cy);
    AddSum3(t0, t1, t2, cy, cy, 0, 0, B64, w0, w1, w2, c);
    Val3([t0, t1, t2], B64);
    Fold64Final(t0, t1, t2, cy, w0, w1, w2, c);
    Fold64FinalValue(t0, t1, t2, cy, w0, w1, w2);
  }

  /** The final 64-bit addition in its exact value: the limbs it leaves are worth
      FoldTop of the limbs t and cy. */
  lemma {:induction false} Fold64FinalResult(t0: nat, t1: nat, t2: nat, cy: nat, w0: nat, w1: nat, w2: nat, c: nat)
    requires t0 < B64 && t1 < B64 && t2 < B64 && cy <= 1
    requires cy == 1 ==> Val([t0, t1, t2], B64) + B64 + 1 < Two192
    requires AddChain([t0, t1, t2], Masked(cy, EccBmodp(W64)), 0, B64) == [w0, w1, w2, c]
    ensures c == 0 && w0 < B64 && w1 < B64 && w2 < B64
    ensures Val([w0, w1, w2], B64) < Two192
    ensures Val([w0, w1, w2], B64) == FoldTop(Val([t0, t1, t2, cy], B64))
  {
    Fold64FinalStage(t0, t1, t2, cy, w0, w1, w2, c);
    FoldCarryExact64([t0, t1, t2, cy], [w0, w1, w2]);
  }

  /** Reduce from 6 to 5 limbs, the top one small (ecc-192.c:92-98): the
      six limbs at rp become five limbs worth FoldHigh of them, the top
      one, rp[4], at most 2.  Only limbs rp+1 .. rp+4 are written. */
  method Reduce64To5(mem: array<nat>, rp: nat)
    requires rp + 6 <= mem.Length
    requires IsLimbs(mem[rp..rp + 6], B64)
    modifies mem
    ensures IsLimbs(mem[rp..rp + 5], B64) && mem[rp + 4] <= 2
    ensures Val(mem[rp..rp + 5], B64) == FoldHigh(Val(old(mem[rp..rp + 6]), B64))
    ensures forall i | 0 <= i < mem.Length && !InRegion(i, rp + 1, 4) :: mem[i] == old(mem[i])
  {
    ghost var x := mem[rp..rp + 6];
    ghost var x0, x1, x2, x3, x4, x5 := x[0], x[1], x[2], x[3], x[4], x[5];

    Pin2(mem[rp + 1..rp + 3], x1, x2);
    Pin2(mem[rp + 4..rp + 6], x4, x5);
    var cy := AddN(mem, B64, rp + 1, rp + 4, 2);
    ghost var n1, n2, c1 := mem[rp + 1], mem[rp + 2], cy;
    Unpack2(mem[rp + 1..rp + 3], cy, AddChain([x1, x2], [x4, x5], 0, B64), n1, n2);

    Pin1(mem[rp + 3..rp + 4], x3);
    cy := SecAdd1(mem, B64, rp + 3, 1, cy);
    ghost var n3, c2 := mem[rp + 3], cy;
    Unpack1(mem[rp + 3..rp + 4], cy, IncChain([x3], c1, B64), n3);

    Pin2(mem[rp + 2..rp + 4], n2, n3);
    Pin2(mem[rp + 4..rp + 6], x4, x5);
    var c := AddN(mem, B64, rp + 2, rp + 4, 2);
    ghost var m2, m3, c3 := mem[rp + 2], mem[rp + 3], c;
    Unpack2(mem[rp + 2..rp + 4], c, AddChain([n2, n3], [x4, x5], 0, B64), m2, m3);
    cy := cy + c;

    Pin6(x, x0, x1, x2, x3, x4, x5);
    Fold64FirstResult(x, x0, x1, x2, x3, x4, x5, n1, n2, n3, m2, m3, c1, c2, c3);
    assert cy <= 2;
    mem[rp + 4] := cy;
    Pin5(mem[rp..rp + 5], x0, n1, m2, m3, c2 + c3);
  }

  /** Reduce from 5 to 4 limbs, the high limb small (ecc-192.c:100-105):
      the five limbs at rp, the top one at most 2, become three limbs and a
      carry cy of at most 1, together worth FoldTop of them; when cy
      is 1 the three limbs are at most 2^192 - B - 2.  Only limbs rp ..
      rp+2 are written. */
  method Reduce64To4(mem: array<nat>, rp: nat) returns (cy: nat)
    requires rp + 5 <= mem.Length
    requires IsLimbs(mem[rp..rp + 5], B64) && mem[rp + 4] <= 2
    modifies mem
    ensures cy <= 1 && IsLimbs(mem[rp..rp + 3], B64)
    ensures cy == 1 ==> Val(mem[rp..rp + 3], B64) + B64 + 1 < Two192
    ensures Val(mem[rp..rp + 3] + [cy], B64) == FoldTop(Val(old(mem[rp..rp + 5]), B64))
    ensures forall i | 0 <= i < mem.Length && !InRegion(i, rp, 3) :: mem[i] == old(mem[i])
  {
    ghost var s := mem[rp..rp + 5];
    ghost var s0, s1, s2, s3, s4 := s[0], s[1], s[2], s[3], s[4];

    Pin2(mem[rp..rp + 2], s0, s1);
    Pin2(mem[rp + 3..rp + 5], s3, s4);
    cy := AddN(mem, B64, rp, rp + 3, 2);
    ghost var t0, t1, d1 := mem[rp], mem[rp + 1], cy;
    Unpack2(mem[rp..rp + 2], cy, AddChain([s0, s1], [s3, s4], 0, B64), t0, t1);

    Pin1(mem[rp + 2..rp + 3], s2);
    cy := SecAdd1(mem, B64, rp + 2, 1, cy);
    ghost var t2, d2 := mem[rp + 2], cy;
    Unpack1(mem[rp + 2..rp + 3], cy, IncChain([s2], d1, B64), t2);

    Pin2(mem[rp + 1..rp + 3], t1, t2);
    Pin2(mem[rp + 3..rp + 5], s3, s4);
    var c := AddN(mem, B64, rp + 1, rp + 3, 2);
    ghost var u1, u2, d3 := mem[rp + 1], mem[rp + 2], c;
    Unpack2(mem[rp + 1..rp + 3], c, AddChain([t1, t2], [s3, s4], 0, B64), u1, u2);
    cy := cy + c;

    Pin5(s, s0, s1, s2, s3, s4);
    Fold64SecondResult(s, s0, s1, s2, s3, s4, t0, t1, d1, t2, d2, u1, u2, d3);
    Pin3(mem[rp..rp + 3], t0, u1, u2);
    Snoc3(mem[rp..rp + 3], cy, t0, u1, u2);
  }

  /** ecc_192_modp for 64-bit limbs (ecc-192.c:87-108).  The six limbs at
      rp become three limbs at rp worth ModpValue of the input, so
      congruent to it modulo p; the result is below 2^192 but not
      necessarily below p.  Limbs rp+3
      and rp+4 are left holding limbs below the radix, rp+5 and the rest
      of the buffer are left as they were. */
  method Modp64(mem: array<nat>, rp: nat)
    requires rp + 6 <= mem.Length
    requires IsLimbs(mem[rp..rp + 6], B64)
    modifies mem
    ensures IsLimbs(mem[rp..rp + 6], B64)
    ensures Val(mem[rp..rp + 3], B64) < Two192
    ensures Val(mem[rp..rp + 3], B64) == ModpValue(Val(old(mem[rp..rp + 6]), B64))
    ensures Val(mem[rp..rp + 3], B64) % P == Val(old(mem[rp..rp + 6]), B64) % P
    ensures forall i | 0 <= i < mem.Length && !InRegion(i, rp, 5) :: mem[i] == old(mem[i])
  {
    ghost var y5 := mem[rp + 5];
    assert y5 < B64 by { assert mem[rp..rp + 6][5] == y5; }
    ghost var x := Val(mem[rp..rp + 6], B64);
    Reduce64To5(mem, rp);
    ghost var v1 := Val(mem[rp..rp + 5], B64);
    assert v1 == FoldHigh(x);
    ghost var y3, y4 := mem[rp + 3], mem[rp + 4];
    assert y3 < B64 by { assert mem[rp..rp + 5][3] == y3; }
    var cy := Reduce64To4(mem, rp);
    ghost var v2 := Val(mem[rp..rp + 3] + [cy], B64);
    assert v2 == FoldTop(v1);

    ghost var t0, t1, t2 := mem[rp], mem[rp + 1], mem[rp + 2];
    Pin3(mem[rp..rp + 3], t0, t1, t2);
    Snoc3(mem[rp..rp + 3], cy, t0, t1, t2);
    var c := CndAddN(cy, mem, B64, rp, EccBmodp(W64));
    ghost var w0, w1, w2 := mem[rp], mem[rp + 1], mem[rp + 2];
    Unpack3(mem[rp..rp + 3], c, AddChain([t0, t1, t2], Masked(cy, EccBmodp(W64)), 0, B64), w0, w1, w2);
    Fold64FinalResult(t0, t1, t2, cy, w0, w1, w2, c);
    assert c == 0 && Val([w0, w1, w2], B64) == FoldTop(v2);
    Pin6(mem[rp..rp + 6], w0, w1, w2, y3, y4, y5);
    Pin3(mem[rp..rp + 3], w0, w1, w2);
  }

  // ------------------------------------------------------------------
  // 32-bit limbs: p = B^6 - B^2 - 1

  /** The arithmetic of the first fold: limbs 8..11 (H) are added at
      positions 2..5 and 4..7, which replaces H * B^8 by H * (B^4 + B^2).
      The carry out of limb 7 is at most 2. */
  lemma {:induction false} Fold32First(x0: int, x1: int, x2: int, x3: int, x4: int, x5: int, x6: int, x7: int, x8: int, x9: int, x10: int, x11: int,
                                       n2: int, n3: int, n4: int, n5: int, c1: int, n6: int, n7: int, c2: int,
                                       m4: int, m5: int, m6: int, m7: int, c3: int)
    requires 0 <= x0 < B32 && 0 <= x1 < B32 && 0 <= x2 < B32 && 0 <= x3 < B32 && 0 <= x4 < B32 && 0 <= x5 < B32
    requires 0 <= x6 < B32 && 0 <= x7 < B32 && 0 <= x8 < B32 && 0 <= x9 < B32 && 0 <= x10 < B32 && 0 <= x11 < B32
    requires 0 <= n2 < B32 && 0 <= n3 < B32 && 0 <= n4 < B32 && 0 <= n5 < B32 && 0 <= n6 < B32 && 0 <= n7 < B32
    requires 0 <= m4 < B32 && 0 <= m5 < B32 && 0 <= m6 < B32 && 0 <= m7 < B32
    requires 0 <= c1 <= 1 && 0 <= c2 <= 1 && 0 <= c3 <= 1
    requires n2 + B32 * (n3 + B32 * (n4 + B32 * (n5 + B32 * c1))) == (x2 + B32 * (x3 + B32 * (x4 + B32 * x5))) + (x8 + B32 * (x9 + B32 * (x10 + B32 * x11))) + 0
    requires n6 + B32 * (n7 + B32 * c2) == (x6 + B32 * x7) + c1
    requires m4 + B32 * (m5 + B32 * (m6 + B32 * (m7 + B32 * c3))) == (n4 + B32 * (n5 + B32 * (n6 + B32 * n7))) + (x8 + B32 * (x9 + B32 * (x10 + B32 * x11))) + 0
    ensures c2 + c3 <= 2
    ensures x0 + B32 * (x1 + B32 * (n2 + B32 * (n3 + B32 * (m4 + B32 * (m5 + B32 * (m6 + B32 * (m7 + B32 * ((c2 + c3)))))))))
         == x0 + B32 * (x1 + B32 * (x2 + B32 * (x3 + B32 * (x4 + B32 * (x5 + B32 * (x6 + B32 * (x7 + B32 * (x8 + B32 * (x9 + B32 * (x10 + B32 * x11)))))))))) - (x8 + B32 * (x9 + B32 * (x10 + B32 * x11))) * (B32 * B32) * P
  {
  }

  /** The arithmetic of the second fold: limbs 6..8 (H, limb 8 at most 2)
      are added at positions 0..2 and 2..4, which replaces H * B^6 by
      H * (B^2 + 1), and the carries run on into limb 5.  The carry out is
      at most 1, and when it is 1 the six limbs are small enough for the
      final addition not to carry. */
  lemma {:induction false} Fold32Second(s0: int, s1: int, s2: int, s3: int, s4: int, s5: int, s6: int, s7: int, s8: int,
                                        t0: int, t1: int, t2: int, d1: int, t3: int, t4: int, d2: int,
                                        u2: int, u3: int, u4: int, d3: int, t5: int, d4: int)
    requires 0 <= s0 < B32 && 0 <= s1 < B32 && 0 <= s2 < B32 && 0 <= s3 < B32 && 0 <= s4 < B32 && 0 <= s5 < B32 && 0 <= s6 < B32 && 0 <= s7 < B32 && 0 <= s8 <= 2
    requires 0 <= t0 < B32 && 0 <= t1 < B32 && 0 <= t2 < B32 && 0 <= t3 < B32 && 0 <= t4 < B32 && 0 <= t5 < B32
    requires 0 <= u2 < B32 && 0 <= u3 < B32 && 0 <= u4 < B32
    requires 0 <= d1 && 0 <= d2 && 0 <= d3 && 0 <= d4
    requires t0 + B32 * (t1 + B32 * (t2 + B32 * d1)) == (s0 + B32 * (s1 + B32 * s2)) + (s6 + B32 * (s7 + B32 * s8)) + 0
    requires t3 + B32 * (t4 + B32 * d2) == (s3 + B32 * s4) + d1
    requires u2 + B32 * (u3 + B32 * (u4 + B32 * d3)) == (t2 + B32 * (t3 + B32 * t4)) + (s6 + B32 * (s7 + B32 * s8)) + 0
    requires t5 + B32 * d4 == s5 + (d2 + d3)
    ensures d4 <= 1
    ensures d4 == 1 ==> t0 + B32 * (t1 + B32 * (u2 + B32 * (u3 + B32 * (u4 + B32 * t5)))) + B32 * B32 + 1 < Two192
    ensures t0 + B32 * (t1 + B32 * (u2 + B32 * (u3 + B32 * (u4 + B32 * (t5 + B32 * d4)))))
         == s0 + B32 * (s1 + B32 * (s2 + B32 * (s3 + B32 * (s4 + B32 * (s5 + B32 * (s6 + B32 * (s7 + B32 * s8))))))) - (s6 + B32 * (s7 + B32 * s8)) * P
  {
  }

  /** The arithmetic of the final addition: adding cy * (B^2 + 1) to a
      six-limb T, which is small enough when cy is 1, does not carry out,
      and the sum W is T + cy * 2^192 less cy * p. */
  lemma {:induction false} Fold32Final(t0: int, t1: int, t2: int, t3: int, t4: int, t5: int, cy: int, w0: int, w1: int, w2: int, w3: int, w4: int, w5: int, c: int)
    requires w0 + B32 * (w1 + B32 * (w2 + B32 * (w3 + B32 * (w4 + B32 * (w5 + B32 * c))))) == (t0 + B32 * (t1 + B32 * (t2 + B32 * (t3 + B32 * (t4 + B32 * t5))))) + (cy + B32 * (0 + B32 * (cy + B32 * (0 + B32 * (0 + B32 * 0))))) + 0
    requires cy == 1 ==> t0 + B32 * (t1 + B32 * (t2 + B32 * (t3 + B32 * (t4 + B32 * t5)))) + B32 * B32 + 1 < Two192
    requires 0 <= t0 < B32 && 0 <= t1 < B32 && 0 <= t2 < B32 && 0 <= t3 < B32 && 0 <= t4 < B32 && 0 <= t5 < B32 && 0 <= cy <= 1
    requires 0 <= w0 < B32 && 0 <= w1 < B32 && 0 <= w2 < B32 && 0 <= w3 < B32 && 0 <= w4 < B32 && 0 <= w5 < B32 && 0 <= c <= 1
    ensures c == 0
    ensures w0 + B32 * (w1 + B32 * (w2 + B32 * (w3 + B32 * (w4 + B32 * w5)))) < Two192
    ensures t0 + B32 * (t1 + B32 * (t2 + B32 * (t3 + B32 * (t4 + B32 * (t5 + B32 * cy))))) == w0 + B32 * (w1 + B32 * (w2 + B32 * (w3 + B32 * (w4 + B32 * w5)))) + cy * P
  {
    assert t0 + B32 * (t1 + B32 * (t2 + B32 * (t3 + B32 * (t4 + B32 * t5)))) < Two192;
    assert c == 0;
  }

  /** The first fold in values: when the Horner sums satisfy the equation
      Fold32First gives, the nine limbs s are worth the twelve limbs x
      less H * B^2 * p, H the top four limbs of x. */
  lemma {:induction false} Fold32FirstValue(x: seq<nat>, s: seq<nat>, x0: nat, x1: nat, x2: nat, x3: nat, x4: nat, x5: nat, x6: nat, x7: nat, x8: nat, x9: nat, x10: nat, x11: nat,
                                            n2: nat, n3: nat, m4: nat, m5: nat, m6: nat, m7: nat, c: nat)
    requires x == [x0, x1, x2, x3, x4, x5, x6, x7, x8, x9, x10, x11]
    requires s == [x0, x1, n2, n3, m4, m5, m6, m7, c]
    requires x0 + B32 * (x1 + B32 * (n2 + B32 * (n3 + B32 * (m4 + B32 * (m5 + B32 * (m6 + B32 * (m7 + B32 * c)))))))
          == x0 + B32 * (x1 + B32 * (x2 + B32 * (x3 + B32 * (x4 + B32 * (x5 + B32 * (x6 + B32 * (x7 + B32 * (x8 + B32 * (x9 + B32 * (x10 + B32 * x11)))))))))) - (x8 + B32 * (x9 + B32 * (x10 + B32 * x11))) * (B32 * B32) * P
    ensures Val(s, B32) == Val(x, B32) - (x8 + B32 * (x9 + B32 * (x10 + B32 * x11))) * (B32 * B32) * P
  {
    Val9(s, B32);
    Val12(x, B32);
  }

  /** The second fold in values: when the Horner sums satisfy the equation
      and the bound Fold32Second gives, the seven limbs t, the top one the
      carry d, are worth the nine limbs s less H * p, H the top three limbs
      of s, and the low six are small when d is 1. */
  lemma {:induction false} Fold32SecondValue(s: seq<nat>, t: seq<nat>, s0: nat, s1: nat, s2: nat, s3: nat, s4: nat, s5: nat, s6: nat, s7: nat, s8: nat,
                                             t0: nat, t1: nat, u2: nat, u3: nat, u4: nat, t5: nat, d: nat)
    requires s == [s0, s1, s2, s3, s4, s5, s6, s7, s8] && t == [t0, t1, u2, u3, u4, t5, d]
    requires d == 1 ==> t0 + B32 * (t1 + B32 * (u2 + B32 * (u3 + B32 * (u4 + B32 * t5)))) + B32 * B32 + 1 < Two192
    requires t0 + B32 * (t1 + B32 * (u2 + B32 * (u3 + B32 * (u4 + B32 * (t5 + B32 * d)))))
          == s0 + B32 * (s1 + B32 * (s2 + B32 * (s3 + B32 * (s4 + B32 * (s5 + B32 * (s6 + B32 * (s7 + B32 * s8))))))) - (s6 + B32 * (s7 + B32 * s8)) * P
    ensures d == 1 ==> Val([t0, t1, u2, u3, u4, t5], B32) + B32 * B32 + 1 < Two192
    ensures Val(t, B32) == Val(s, B32) - (s6 + B32 * (s7 + B32 * s8)) * P
  {
    Val6([t0, t1, u2, u3, u4, t5], B32);
    Val7(t, B32);
    Val9(s, B32);
  }

  /** The final addition in values: when the Horner sums satisfy the
      equation Fold32Final gives, the six limbs w are below 2^192 and
      worth the seven limbs t, cy less cy * p. */
  lemma {:induction false} Fold32FinalValue(t0: nat, t1: nat, t2: nat, t3: nat, t4: nat, t5: nat, cy: nat, w0: nat, w1: nat, w2: nat, w3: nat, w4: nat, w5: nat)
    requires w0 + B32 * (w1 + B32 * (w2 + B32 * (w3 + B32 * (w4 + B32 * w5)))) < Two192
    requires t0 + B32 * (t1 + B32 * (t2 + B32 * (t3 + B32 * (t4 + B32 * (t5 + B32 * cy))))) == w0 + B32 * (w1 + B32 * (w2 + B32 * (w3 + B32 * (w4 + B32 * w5)))) + cy * P
    ensures Val([w0, w1, w2, w3, w4, w5], B32) < Two192
    ensures Val([w0, w1, w2, w3, w4, w5], B32) == Val([t0, t1, t2, t3, t4, t5, cy], B32) - cy * P
  {
    Val6([w0, w1, w2, w3, w4, w5], B32);
    Val7([t0, t1, t2, t3, t4, t5, cy], B32);
  }

  /** The addend of the final cnd_add_n: B^2 + 1 when the carry is set. */
  lemma {:induction false} MaskedBmodp32(cy: nat)
    requires cy <= 1
    ensures Masked(cy, EccBmodp(W32)) == [cy, 0, cy, 0, 0, 0]
  {
  }

  /** The first fold on its chains (ecc-192.c:67-73): add_n(rp+2, rp+8, 4)
      leaves n2 .. n5 and carry c1, sec_add_1 into limbs 6..7 leaves n6, n7
      and c2, add_n(rp+4, rp+8, 4) leaves m4 .. m7 and c3.  The new top limb,
      c2 + c3, is at most 2 (the C assert), and the nine limbs left are
      worth x less H * B^2 * p, H its top four limbs. */
  lemma {:induction false} Fold32FirstStage(x: seq<nat>, x0: nat, x1: nat, x2: nat, x3: nat, x4: nat, x5: nat, x6: nat, x7: nat, x8: nat, x9: nat, x10: nat, x11: nat,
                                            n2: nat, n3: nat, n4: nat, n5: nat, c1: nat, n6: nat, n7: nat, c2: nat,
                                            m4: nat, m5: nat, m6: nat, m7: nat, c3: nat)
    requires x == [x0, x1, x2, x3, x4, x5, x6, x7, x8, x9, x10, x11]
    requires x0 < B32 && x1 < B32 && x2 < B32 && x3 < B32 && x4 < B32 && x5 < B32
    requires x6 < B32 && x7 < B32 && x8 < B32 && x9 < B32 && x10 < B32 && x11 < B32
    requires AddChain([x2, x3, x4, x5], [x8, x9, x10, x11], 0, B32) == [n2, n3, n4, n5, c1]
    requires IncChain([x6, x7], c1, B32) == [n6, n7, c2]
    requires AddChain([n4, n5, n6, n7], [x8, x9, x10, x11], 0, B32) == [m4, m5, m6, m7, c3]
    ensures c2 + c3 <= 2 && n2 < B32 && n3 < B32 && m4 < B32 && m5 < B32 && m6 < B32 && m7 < B32
    ensures Val([x0, x1, n2, n3, m4, m5, m6, m7, c2 + c3], B32) == Val(x, B32) - (x8 + B32 * (x9 + B32 * (x10 + B32 * x11))) * (B32 * B32) * P
  {
    AddSum4(x2, x3, x4, x5, x8, x9, x10, x11, 0, B32, n2, n3, n4, n5, c1);
    IncSum2(x6, x7, c1, B32, n6, n7, c2);
    AddSum4(n4, n5, n6, n7, x8, x9, x10, x11, 0, B32, m4, m5, m6, m7, c3);
    Fold32First(x0, x1, x2, x3, x4, x5, x6, x7, x8, x9, x10, x11, n2, n3, n4, n5, c1, n6, n7, c2, m4, m5, m6, m7, c3);
    Fold32FirstValue(x, [x0, x1, n2, n3, m4, m5, m6, m7, c2 + c3], x0, x1, x2, x3, x4, x5, x6, x7, x8, x9, x10, x11,
                     n2, n3, m4, m5, m6, m7, c2 + c3);
  }

  /** The first 32-bit fold in its exact value: the limbs it leaves are worth
      FoldHigh of the input x. */
  lemma {:induction false} Fold32FirstResult(x: seq<nat>, x0: nat, x1: nat, x2: nat, x3: nat, x4: nat, x5: nat, x6: nat, x7: nat, x8: nat, x9: nat, x10: nat, x11: nat,
                                             n2: nat, n3: nat, n4: nat, n5: nat, c1: nat, n6: nat, n7: nat, c2: nat,
                                             m4: nat, m5: nat, m6: nat, m7: nat, c3: nat)
    requires x == [x0, x1, x2, x3, x4, x5, x6, x7, x8, x9, x10, x11]
    requires x0 < B32 && x1 < B32 && x2 < B32 && x3 < B32 && x4 < B32 && x5 < B32
    requires x6 < B32 && x7 < B32 && x8 < B32 && x9 < B32 && x10 < B32 && x11 < B32
    requires AddChain([x2, x3, x4, x5], [x8, x9, x10, x11], 0, B32) == [n2, n3, n4, n5, c1]
    requires IncChain([x6, x7], c1, B32) == [n6, n7, c2]
    requires AddChain([n4, n5, n6, n7], [x8, x9, x10, x11], 0, B32) == [m4, m5, m6, m7, c3]
    ensures c2 + c3 <= 2 && n2 < B32 && n3 < B32 && m4 < B32 && m5 < B32 && m6 < B32 && m7 < B32
    ensures Val([x0, x1, n2, n3, m4, m5, m6, m7, c2 + c3], B32) == FoldHigh(Val(x, B32))
  {
    Fold32FirstStage(x, x0, x1, x2, x3, x4, x5, x6, x7, x8, x9, x10, x11, n2, n3, n4, n5, c1, n6, n7, c2, m4, m5, m6, m7, c3);
    FoldHighExact32(x, [x0, x1, n2, n3, m4, m5, m6, m7, c2 + c3]);
  }

  /** The second fold on its chains (ecc-192.c:75-81), over the nine limbs
      s left by the first: add_n(rp, rp+6, 3) leaves t0 .. t2 and d1,
      sec_add_1 into limbs 3..4 leaves t3, t4 and d2, add_n(rp+2, rp+6, 3)
      leaves u2 .. u4 and d3, and sec_add_1 into limb 5 of the carry d2 + d3
      leaves t5 and d4.  The carry d4 is at most 1 (the C assert), when it
      is 1 the six limbs are at most 2^192 - B^2 - 2, and the seven limbs
      left are worth s less H * p, H its top three limbs. */
  lemma {:induction false} Fold32SecondStage(s: seq<nat>, s0: nat, s1: nat, s2: nat, s3: nat, s4: nat, s5: nat, s6: nat, s7: nat, s8: nat,
                                             t0: nat, t1: nat, t2: nat, d1: nat, t3: nat, t4: nat, d2: nat,
                                             u2: nat, u3: nat, u4: nat, d3: nat, t5: nat, d4: nat)
    requires s == [s0, s1, s2, s3, s4, s5, s6, s7, s8]
    requires s0 < B32 && s1 < B32 && s2 < B32 && s3 < B32 && s4 < B32 && s5 < B32 && s6 < B32 && s7 < B32 && s8 <= 2
    requires AddChain([s0, s1, s2], [s6, s7, s8], 0, B32) == [t0, t1, t2, d1]
    requires IncChain([s3, s4], d1, B32) == [t3, t4, d2]
    requires AddChain([t2, t3, t4], [s6, s7, s8], 0, B32) == [u2, u3, u4, d3]
    requires IncChain([s5], d2 + d3, B32) == [t5, d4]
    ensures d4 <= 1 && t0 < B32 && t1 < B32 && u2 < B32 && u3 < B32 && u4 < B32 && t5 < B32
    ensures d4 == 1 ==> Val([t0, t1, u2, u3, u4, t5], B32) + B32 * B32 + 1 < Two192
    ensures Val([t0, t1, u2, u3, u4, t5, d4], B32) == Val(s, B32) - (s6 + B32 * (s7 + B32 * s8)) * P
  {
    AddSum3(s0, s1, s2, s6, s7, s8, 0, B32, t0, t1, t2, d1);
    IncSum2(s3, s4, d1, B32, t3, t4, d2);
    AddSum3(t2, t3, t4, s6, s7, s8, 0, B32, u2, u3, u4, d3);
    IncSum1(s5, d2 + d3, B32, t5, d4);
    Fold32Second(s0, s1, s2, s3, s4, s5, s6, s7, s8, t0, t1, t2, d1, t3, t4, d2, u2, u3, u4, d3, t5, d4);
    Fold32SecondValue(s, [t0, t1, u2, u3, u4, t5, d4], s0, s1, s2, s3, s4, s5, s6, s7, s8,
                      t0, t1, u2, u3, u4, t5, d4);
  }

  /** The second 32-bit fold in its exact value: the limbs it leaves are worth
      FoldTop of s. */
  lemma {:induction false} Fold32SecondResult(s: seq<nat>, s0: nat, s1: nat, s2: nat, s3: nat, s4: nat, s5: nat, s6: nat, s7: nat, s8: nat,
                                              t0: nat, t1: nat, t2: nat, d1: nat, t3: nat, t4: nat, d2: nat,
                                              u2: nat, u3: nat, u4: nat, d3: nat, t5: nat, d4: nat)
    requires s == [s0, s1, s2, s3, s4, s5, s6, s7, s8]
    requires s0 < B32 && s1 < B32 && s2 < B32 && s3 < B32 && s4 < B32 && s5 < B32 && s6 < B32 && s7 < B32 && s8 <= 2
    requires AddChain([s0, s1, s2], [s6, s7, s8], 0, B32) == [t0, t1, t2, d1]
    requires IncChain([s3, s4], d1, B32) == [t3, t4, d2]
    requires AddChain([t2, t3, t4], [s6, s7, s8], 0, B32) == [u2, u3, u4, d3]
    requires IncChain([s5], d2 + d3, B32) == [t5, d4]
    ensures d4 <= 1 && t0 < B32 && t1 < B32 && u2 < B32 && u3 < B32 && u4 < B32 && t5 < B32
    ensures d4 == 1 ==> Val([t0, t1, u2, u3, u4, t5], B32) + B32 * B32 + 1 < Two192
    ensures Val([t0, t1, u2, u3, u4, t5, d4], B32) == FoldTop(Val(s, B32))
  {
    Fold32SecondStage(s, s0, s1, s2, s3, s4, s5, s6, s7, s8, t0, t1, t2, d1, t3, t4, d2, u2, u3, u4, d3, t5, d4);
    FoldTopExact32(s, [t0, t1, u2, u3, u4, t5, d4]);
  }

  /** The final cnd_add_n of B^2 + 1 (ecc-192.c:82-83): adding
      cy * (B^2 + 1) to the six limbs t never carries out (the C assert),
      and replaces the seventh limb cy, worth cy * 2^192, by cy * p less,
      which is the seven limbs less cy * p; the result is below 2^192. */
  lemma {:induction false} Fold32FinalStage(t0: nat, t1: nat, t2: nat, t3: nat, t4: nat, t5: nat, cy: nat, w0: nat, w1: nat, w2: nat, w3: nat, w4: nat, w5: nat, c: nat)
    requires t0 < B32 && t1 < B32 && t2 < B32 && t3 < B32 && t4 < B32 && t5 < B32 && cy <= 1
    requires cy == 1 ==> Val([t0, t1, t2, t3, t4, t5], B32) + B32 * B32 + 1 < Two192
    requires AddChain([t0, t1, t2, t3, t4, t5], Masked(cy, EccBmodp(W32)), 0, B32) == [w0, w1, w2, w3, w4, w5, c]
    ensures c == 0 && w0 < B32 && w1 < B32 && w2 < B32 && w3 < B32 && w4 < B32 && w5 < B32
    ensures Val([w0, w1, w2, w3, w4, w5], B32) < Two192
    ensures Val([w0, w1, w2, w3, w4, w5], B32) == Val([t0, t1, t2, t3, t4, t5, cy], B32) - cy * P
  {
    MaskedBmodp32(cy);
    AddSum6(t0, t1, t2, t3, t4, t5, cy, 0, cy, 0, 0, 0, 0, B32, w0, w1, w2, w3, w4, w5, c);
    Val6([t0, t1, t2, t3, t4, t5], B32);
    Fold32Final(t0, t1, t2, t3, t4, t5, cy, w0, w1, w2, w3, w4, w5, c);
    Fold32FinalValue(t0, t1, t2, t3, t4, t5, cy, w0, w1, w2, w3, w4, w5);
  }

  /** The final 32-bit addition in its exact value: the limbs it leaves are worth
      FoldTop of the limbs t and cy. */
  lemma {:induction false} Fold32FinalResult(t0: nat, t1: nat, t2: nat, t3: nat, t4: nat, t5: nat, cy: nat, w0: nat, w1: nat, w2: nat, w3: nat, w4: nat, w5: nat, c: nat)
    requires t0 < B32 && t1 < B32 && t2 < B32 && t3 < B32 && t4 < B32 && t5 < B32 && cy <= 1
    requires cy == 1 ==> Val([t0, t1, t2, t3, t4, t5], B32) + B32 * B32 + 1 < Two192
    requires AddChain([t0, t1, t2, t3, t4, t5], Masked(cy, EccBmodp(W32)), 0, B32) == [w0, w1, w2, w3, w4, w5, c]
    ensures c == 0 && w0 < B32 && w1 < B32 && w2 < B32 && w3 < B32 && w4 < B32 && w5 < B32
    ensures Val([w0, w1, w2, w3, w4, w5], B32) < Two192
    ensures Val([w0, w1, w2, w3, w4, w5], B32) == FoldTop(Val([t0, t1, t2, t3, t4, t5, cy], B32))
  {
    Fold32FinalStage(t0, t1, t2, t3, t4, t5, cy, w0, w1, w2, w3, w4, w5, c);
    FoldCarryExact32([t0, t1, t2, t3, t4, t5, cy], [w0, w1, w2, w3, w4, w5]);
  }

  /** Reduce from 12 to 9 limbs, the top one small (ecc-192.c:67-73): the
      twelve limbs at rp become nine limbs worth FoldHigh of them, the top
      one, rp[8], at most 2.  Only limbs rp+2 .. rp+8 are written. */
  method Reduce32To9(mem: array<nat>, rp: nat)
    requires rp + 12 <= mem.Length
    requires IsLimbs(mem[rp..rp + 12], B32)
    modifies mem
    ensures IsLimbs(mem[rp..rp + 9], B32) && mem[rp + 8] <= 2
    ensures Val(mem[rp..rp + 9], B32) == FoldHigh(Val(old(mem[rp..rp + 12]), B32))
    ensures forall i | 0 <= i < mem.Length && !InRegion(i, rp + 2, 7) :: mem[i] == old(mem[i])
  {
    ghost var x := mem[rp..rp + 12];
    ghost var x0, x1, x2, x3, x4, x5 := x[0], x[1], x[2], x[3], x[4], x[5];
    ghost var x6, x7, x8, x9, x10, x11 := x[6], x[7], x[8], x[9], x[10], x[11];

    Pin4(mem[rp + 2..rp + 6], x2, x3, x4, x5);
    Pin4(mem[rp + 8..rp + 12], x8, x9, x10, x11);
    var cy := AddN(mem, B32, rp + 2, rp + 8, 4);
    ghost var n2, n3, n4, n5, c1 := mem[rp + 2], mem[rp + 3], mem[rp + 4], mem[rp + 5], cy;
    Unpack4(mem[rp + 2..rp + 6], cy, AddChain([x2, x3, x4, x5], [x8, x9, x10, x11], 0, B32), n2, n3, n4, n5);

    Pin2(mem[rp + 6..rp + 8], x6, x7);
    cy := SecAdd1(mem, B32, rp + 6, 2, cy);
    ghost var n6, n7, c2 := mem[rp + 6], mem[rp + 7], cy;
    Unpack2(mem[rp + 6..rp + 8], cy, IncChain([x6, x7], c1, B32), n6, n7);

    Pin4(mem[rp + 4..rp + 8], n4, n5, n6, n7);
    Pin4(mem[rp + 8..rp + 12], x8, x9, x10, x11);
    var c := AddN(mem, B32, rp + 4, rp + 8, 4);
    ghost var m4, m5, m6, m7, c3 := mem[rp + 4], mem[rp + 5], mem[rp + 6], mem[rp + 7], c;
    Unpack4(mem[rp + 4..rp + 8], c, AddChain([n4, n5, n6, n7], [x8, x9, x10, x11], 0, B32), m4, m5, m6, m7);
    cy := cy + c;

    Pin12(x, x0, x1, x2, x3, x4, x5, x6, x7, x8, x9, x10, x11);
    Fold32FirstResult(x, x0, x1, x2, x3, x4, x5, x6, x7, x8, x9, x10, x11,
                      n2, n3, n4, n5, c1, n6, n7, c2, m4, m5, m6, m7, c3);
    assert cy <= 2;
    mem[rp + 8] := cy;
    Pin9(mem[rp..rp + 9], x0, x1, n2, n3, m4, m5, m6, m7, c2 + c3);
  }

  /** Reduce from 9 to 6 limbs (ecc-192.c:75-81): the nine limbs at rp,
      the top one at most 2, become six limbs and a carry cy of at most 1,
      together worth FoldTop of them; when cy is 1 the six
      limbs are at most 2^192 - B^2 - 2.  Only limbs rp .. rp+5 are
      written. */
  method Reduce32To6(mem: array<nat>, rp: nat) returns (cy: nat)
    requires rp + 9 <= mem.Length
    requires IsLimbs(mem[rp..rp + 9], B32) && mem[rp + 8] <= 2
    modifies mem
    ensures cy <= 1 && IsLimbs(mem[rp..rp + 6], B32)
    ensures cy == 1 ==> Val(mem[rp..rp + 6], B32) + B32 * B32 + 1 < Two192
    ensures Val(mem[rp..rp + 6] + [cy], B32) == FoldTop(Val(old(mem[rp..rp + 9]), B32))
    ensures forall i | 0 <= i < mem.Length && !InRegion(i, rp, 6) :: mem[i] == old(mem[i])
  {
    ghost var s := mem[rp..rp + 9];
    ghost var s0, s1, s2, s3, s4, s5, s6, s7, s8 := s[0], s[1], s[2], s[3], s[4], s[5], s[6], s[7], s[8];

    Pin3(mem[rp..rp + 3], s0, s1, s2);
    Pin3(mem[rp + 6..rp + 9], s6, s7, s8);
    cy := AddN(mem, B32, rp, rp + 6, 3);
    ghost var t0, t1, t2, d1 := mem[rp], mem[rp + 1], mem[rp + 2], cy;
    Unpack3(mem[rp..rp + 3], cy, AddChain([s0, s1, s2], [s6, s7, s8], 0, B32), t0, t1, t2);

    Pin2(mem[rp + 3..rp + 5], s3, s4);
    cy := SecAdd1(mem, B32, rp + 3, 2, cy);
    ghost var t3, t4, d2 := mem[rp + 3], mem[rp + 4], cy;
    Unpack2(mem[rp + 3..rp + 5], cy, IncChain([s3, s4], d1, B32), t3, t4);

    Pin3(mem[rp + 2..rp + 5], t2, t3, t4);
    Pin3(mem[rp + 6..rp + 9], s6, s7, s8);
    var c := AddN(mem, B32, rp + 2, rp + 6, 3);
    ghost var u2, u3, u4, d3 := mem[rp + 2], mem[rp + 3], mem[rp + 4], c;
    Unpack3(mem[rp + 2..rp + 5], c, AddChain([t2, t3, t4], [s6, s7, s8], 0, B32), u2, u3, u4);
    cy := cy + c;

    Pin1(mem[rp + 5..rp + 6], s5);
    cy := SecAdd1(mem, B32, rp + 5, 1, cy);
    ghost var t5, d4 := mem[rp + 5], cy;
    Unpack1(mem[rp + 5..rp + 6], cy, IncChain([s5], d2 + d3, B32), t5);

    Pin9(s, s0, s1, s2, s3, s4, s5, s6, s7, s8);
    Fold32SecondResult(s, s0, s1, s2, s3, s4, s5, s6, s7, s8,
                       t0, t1, t2, d1, t3, t4, d2, u2, u3, u4, d3, t5, d4);
    Pin6(mem[rp..rp + 6], t0, t1, u2, u3, u4, t5);
    Snoc6(mem[rp..rp + 6], cy, t0, t1, u2, u3, u4, t5);
  }

  /** ecc_192_modp for 32-bit limbs (ecc-192.c:62-84).  The twelve limbs at
      rp become six limbs at rp worth ModpValue of the input, so congruent
      to it modulo p; the result is below 2^192 but not necessarily below
      p.  Limbs rp+6
      .. rp+8 are left holding limbs below the radix, rp+9 .. rp+11 and the
      rest of the buffer are left as they were. */
  method Modp32(mem: array<nat>, rp: nat)
    requires rp + 12 <= mem.Length
    requires IsLimbs(mem[rp..rp + 12], B32)
    modifies mem
    ensures IsLimbs(mem[rp..rp + 12], B32)
    ensures Val(mem[rp..rp + 6], B32) < Two192
    ensures Val(mem[rp..rp + 6], B32) == ModpValue(Val(old(mem[rp..rp + 12]), B32))
    ensures Val(mem[rp..rp + 6], B32) % P == Val(old(mem[rp..rp + 12]), B32) % P
    ensures forall i | 0 <= i < mem.Length && !InRegion(i, rp, 9) :: mem[i] == old(mem[i])
  {
    ghost var y9, y10, y11 := mem[rp + 9], mem[rp + 10], mem[rp + 11];
    assert y9 < B32 && y10 < B32 && y11 < B32 by {
      assert mem[rp..rp + 12][9] == y9 && mem[rp..rp + 12][10] == y10 && mem[rp..rp + 12][11] == y11;
    }
    ghost var x := Val(mem[rp..rp + 12], B32);
    Reduce32To9(mem, rp);
    ghost var v1 := Val(mem[rp..rp + 9], B32);
    assert v1 == FoldHigh(x);
    ghost var y6, y7, y8 := mem[rp + 6], mem[rp + 7], mem[rp + 8];
    assert y6 < B32 && y7 < B32 by { assert mem[rp..rp + 9][6] == y6 && mem[rp..rp + 9][7] == y7; }
    var cy := Reduce32To6(mem, rp);
    ghost var v2 := Val(mem[rp..rp + 6] + [cy], B32);
    assert v2 == FoldTop(v1);

    ghost var t0, t1, t2, t3, t4, t5 := mem[rp], mem[rp + 1], mem[rp + 2], mem[rp + 3], mem[rp + 4], mem[rp + 5];
    Pin6(mem[rp..rp + 6], t0, t1, t2, t3, t4, t5);
    Snoc6(mem[rp..rp + 6], cy, t0, t1, t2, t3, t4, t5);
    var c := CndAddN(cy, mem, B32, rp, EccBmodp(W32));
    ghost var w0, w1, w2, w3, w4, w5 := mem[rp], mem[rp + 1], mem[rp + 2], mem[rp + 3], mem[rp + 4], mem[rp + 5];
    Unpack6(mem[rp..rp + 6], c, AddChain([t0, t1, t2, t3, t4, t5], Masked(cy, EccBmodp(W32)), 0, B32), w0, w1, w2, w3, w4, w5);
    Fold32FinalResult(t0, t1, t2, t3, t4, t5, cy, w0, w1, w2, w3, w4, w5, c);
    assert c == 0 && Val([w0, w1, w2, w3, w4, w5], B32) == FoldTop(v2);
    Pin12(mem[rp..rp + 12], w0, w1, w2, w3, w4, w5, y6, y7, y8, y9, y10, y11);
    Pin6(mem[rp..rp + 6], w0, w1, w2, w3, w4, w5);
  }

  // ------------------------------------------------------------------
  // The build's variant, and how the two variants relate

  /** ecc_192_modp as the build selects it by GMP_NUMB_BITS: the
      2 * ECC_LIMB_SIZE limbs at rp become ECC_LIMB_SIZE limbs below 2^192
      worth ModpValue of the input, whatever the limb width, and so
      congruent to it modulo p; only the 2 * ECC_LIMB_SIZE limbs at rp are
      written. */
  method Modp(w: Width, mem: array<nat>, rp: nat)
    requires rp + 2 * LimbSize(w) <= mem.Length
    requires IsLimbs(mem[rp..rp + 2 * LimbSize(w)], Base(w))
    modifies mem
    ensures IsLimbs(mem[rp..rp + 2 * LimbSize(w)], Base(w))
    ensures Val(mem[rp..rp + LimbSize(w)], Base(w)) < Two192
    ensures Val(mem[rp..rp + LimbSize(w)], Base(w)) == ModpValue(Val(old(mem[rp..rp + 2 * LimbSize(w)]), Base(w)))
    ensures Val(mem[rp..rp + LimbSize(w)], Base(w)) % P == Val(old(mem[rp..rp + 2 * LimbSize(w)]), Base(w)) % P
    ensures forall i | 0 <= i < mem.Length && !InRegion(i, rp, 2 * LimbSize(w)) :: mem[i] == old(mem[i])
  {
    match w
    case W64 => Modp64(mem, rp);
    case W32 => Modp32(mem, rp);
  }

  /** The two variants leave the same number: when their inputs stand for
      the same number, both results are ModpValue of it, and the six 32-bit
      limbs are exactly the three 64-bit limbs split in halves (and the
      other way round), so the results are bit-identical in memory. */
  lemma {:induction false} VariantsAgree(in64: seq<nat>, out64: seq<nat>, in32: seq<nat>, out32: seq<nat>)
    requires |out64| == 3 && IsLimbs(out64, B64) && |out32| == 6 && IsLimbs(out32, B32)
    requires Val(in64, B64) == Val(in32, B32)
    requires Val(out64, B64) == ModpValue(Val(in64, B64))
    requires Val(out32, B32) == ModpValue(Val(in32, B32))
    ensures Val(out64, B64) == Val(out32, B32)
    ensures out32 == ToLimbs(Val(out64, B64), B32, 6)
    ensures out64 == ToLimbs(Val(out32, B32), B64, 3)
  {
    ValToLimbs(out32, B32);
    ValToLimbs(out64, B64);
  }

  /** A number below 2^192 is its residue, or its residue plus p. */
  lemma {:induction false} BelowTwoP(x: nat)
    requires x < Two192
    ensures x == x % P || x == x % P + P
  {
    var q := x / P;
    assert x == q * P + x % P;
    assert q < 2;
  }
}
