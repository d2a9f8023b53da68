/** The zero test `ecc_192_zero_p` of ecc-192.c.  The square root
    `ecc_192_sqrt` is in module Ecc192Sqrt and the curve descriptor
    `_nettle_secp_192r1` in module Secp192r1. */
module Ecc192 {
  import opened Limbs
  import opened P192

  /** `ecc_192_zero_p` (ecc-192.c:120-133): ORs every limb of the
      ECC_LIMB_SIZE-limb value into is_non_zero and every limb's XOR with
      the same limb of p into is_not_p, with no branch on the limbs, and
      returns 1 exactly when one of the two stayed zero, i.e. when the value
      is 0 or p.  For a value below 2^192 that is exactly when it is
      divisible by p. */
  method ZeroP(w: Width, mem: array<nat>, rp: nat) returns (r: nat)
    requires rp + LimbSize(w) <= mem.Length
    requires IsLimbs(mem[rp..rp + LimbSize(w)], Base(w))
    ensures r <= 1
    ensures r == 1 <==> Val(mem[rp..rp + LimbSize(w)], Base(w)) == 0 || Val(mem[rp..rp + LimbSize(w)], Base(w)) == P
    ensures r == 1 <==> Val(mem[rp..rp + LimbSize(w)], Base(w)) % P == 0
  {
    var n := LimbSize(w);
    var m := EccP(w);
    ghost var s := mem[rp..rp + n];
    var isNonZero, isNotP := 0, 0;
    var i := 0;
    while i < n
      invariant 0 <= i <= n
      invariant isNonZero == 0 <==> forall j | 0 <= j < i :: s[j] == 0
      invariant isNotP == 0 <==> forall j | 0 <= j < i :: s[j] == m[j]
    {
      var limb := mem[rp + i];
      assert limb == s[i];
      var diff := Xor(limb, m[i]);
      OrZero(isNonZero, limb);
      XorZero(limb, m[i]);
      OrZero(isNotP, diff);
      PrefixStep(s, i, 0);
      PrefixMatch(s, m, i);
      isNonZero := Or(isNonZero, limb);
      isNotP := Or(isNotP, diff);
      i := i + 1;
    }
    r := Or(if isNonZero == 0 then 1 else 0, if isNotP == 0 then 1 else 0);
    OrFlags(isNonZero == 0, isNotP == 0);
    ZeroOrP(w, s, isNonZero == 0, isNotP == 0);
  }

  /** The OR of two 0/1 flags is the flag of their disjunction. */
  lemma {:induction false} OrFlags(a: bool, b: bool)
    ensures Or(if a then 1 else 0, if b then 1 else 0) == if a || b then 1 else 0
  {
    if a && b {
      assert Or(1, 1) == 2 * Or(0, 0) + 1;
    }
  }

  /** What the two accumulators of ecc_192_zero_p decide: all limbs zero,
      or all limbs equal to those of p, is the value being 0 or p, and
      below 2^192 that is the value being divisible by p. */
  lemma {:induction false} ZeroOrP(w: Width, s: seq<nat>, allZero: bool, allP: bool)
    requires |s| == LimbSize(w) && IsLimbs(s, Base(w))
    requires allZero <==> forall j | 0 <= j < |s| :: s[j] == 0
    requires allP <==> forall j | 0 <= j < |s| :: s[j] == EccP(w)[j]
    ensures allZero || allP <==> Val(s, Base(w)) == 0 || Val(s, Base(w)) == P
    ensures allZero || allP <==> Val(s, Base(w)) % P == 0
  {
    TablesCorrect(w);
    ValZero(s, Base(w));
    ValInjective(s, EccP(w), Base(w));
    LimbSizeExact(w);
    ValBound(s, Base(w));
    ZeroModP(Val(s, Base(w)));
  }

  /** One more limb of the prefix equals v. */
  lemma {:induction false} PrefixStep(s: seq<nat>, i: nat, v: nat)
    requires i < |s|
    ensures (forall j | 0 <= j < i + 1 :: s[j] == v) <==> (forall j | 0 <= j < i :: s[j] == v) && s[i] == v
  {
  }

  /** One more limb of the prefix agrees with m. */
  lemma {:induction false} PrefixMatch(s: seq<nat>, m: seq<nat>, i: nat)
    requires i < |s| && i < |m|
    ensures (forall j | 0 <= j < i + 1 :: s[j] == m[j]) <==> (forall j | 0 <= j < i :: s[j] == m[j]) && s[i] == m[i]
  {
  }
}
