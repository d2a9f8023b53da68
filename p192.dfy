/** The NIST P-192 field prime p = 2^192 - 2^64 - 1 and the limb layouts
    Nettle uses for it with 32-bit and 64-bit limbs (GMP_NUMB_BITS). */
module P192 {
  import opened Limbs

  const Two64: nat := 0x1_0000_0000_0000_0000
  const Two192: nat := 0x1_0000_0000_0000_0000_0000_0000_0000_0000_0000_0000_0000_0000
  /** The field prime. */
  const P: nat := Two192 - Two64 - 1

  /** The two 32-bit and 64-bit limb radices. */
  const B32: nat := 0x1_0000_0000
  const B64: nat := Two64

  /** A build's limb width, GMP_NUMB_BITS. */
  datatype Width = W32 | W64

  function Bits(w: Width): nat
  {
    match w
    case W32 => 32
    case W64 => 64
  }

  function Base(w: Width): (b: nat)
    ensures b > 1
  {
    match w
    case W32 => B32
    case W64 => B64
  }

  /** ECC_LIMB_SIZE: limbs per field element, 6 or 3. */
  function LimbSize(w: Width): (n: nat)
    ensures n * Bits(w) == 192
  {
    match w
    case W32 => 6
    case W64 => 3
  }

  /** p in limbs (the table ecc_p). */
  function EccP(w: Width): (m: seq<nat>)
    ensures |m| == LimbSize(w) && IsLimbs(m, Base(w)) && m[|m| - 1] > 0
  {
    match w
    case W32 => [B32 - 1, B32 - 1, B32 - 2, B32 - 1, B32 - 1, B32 - 1]
    case W64 => [B64 - 1, B64 - 2, B64 - 1]
  }

  /** B^size mod p in limbs (the table ecc_Bmodp): B + 1 for 64-bit limbs,
      B^2 + 1 for 32-bit limbs. */
  function EccBmodp(w: Width): (m: seq<nat>)
    ensures |m| == LimbSize(w) && IsLimbs(m, Base(w))
  {
    match w
    case W32 => [1, 0, 1, 0, 0, 0]
    case W64 => [1, 1, 0]
  }

  /** ECC_LIMB_SIZE limbs hold exactly 192 bits. */
  lemma {:induction false} LimbSizeExact(w: Width)
    ensures Pow(Base(w), LimbSize(w)) == Two192
    ensures Pow(Base(w), 2 * LimbSize(w)) == Two192 * Two192
  {
    match w
    case W32 =>
      PowSmall(B32);
      PowAdd(B32, 6, 6);
    case W64 =>
      PowSmall(B64);
      PowAdd(B64, 3, 3);
  }

  /** The first powers of a radix, unfolded. */
  lemma {:induction false} PowSmall(b: nat)
    ensures Pow(b, 1) == b
    ensures Pow(b, 2) == b * b
    ensures Pow(b, 3) == b * b * b
    ensures Pow(b, 4) == b * b * b * b
    ensures Pow(b, 5) == b * b * b * b * b
    ensures Pow(b, 6) == b * b * b * b * b * b
  {
    assert Pow(b, 1) == b * Pow(b, 0);
    assert Pow(b, 2) == b * Pow(b, 1);
    assert Pow(b, 3) == b * Pow(b, 2);
    assert Pow(b, 4) == b * Pow(b, 3);
    assert Pow(b, 5) == b * Pow(b, 4);
    assert Pow(b, 6) == b * Pow(b, 5);
  }

  /** p in the two limb radices: B^3 - B - 1 and B^6 - B^2 - 1. */
  lemma {:induction false} PrimeForm()
    ensures P == Pow(B64, 3) - B64 - 1
    ensures P == Pow(B32, 6) - Pow(B32, 2) - 1
    ensures P % 4 == 3
  {
    PowSmall(B64);
    PowSmall(B32);
  }

  /** The tables hold the numbers they stand for. */
  lemma {:induction false} TablesCorrect(w: Width)
    ensures |EccP(w)| == LimbSize(w) && IsLimbs(EccP(w), Base(w))
    ensures Val(EccP(w), Base(w)) == P
    ensures |EccBmodp(w)| == LimbSize(w) && IsLimbs(EccBmodp(w), Base(w))
    ensures Val(EccBmodp(w), Base(w)) == Pow(Base(w), LimbSize(w)) % P
  {
    LimbSizeExact(w);
    var b := Base(w);
    var m, bm := EccP(w), EccBmodp(w);
    match w
    case W32 =>
      Val6(m, b);
      Val6(bm, b);
    case W64 =>
      Val3(m, b);
      Val3(bm, b);
  }

  /** A 192-bit number is divisible by p exactly when it is 0 or p itself,
      since 2^192 < 2p. */
  lemma {:induction false} ZeroModP(x: nat)
    requires x < Two192
    ensures x % P == 0 <==> x == 0 || x == P
  {
    if x % P == 0 && x != 0 {
      var q := x / P;
      assert x == q * P;
      assert q == 1;
    }
  }

  /** Adding a multiple of p leaves the residue unchanged. */
  lemma {:induction false} ModMultiple(a: int, b: int, k: int)
    requires a == b + k * P
    ensures a % P == b % P
  {
  }

  // ------------------------------------------------------------------
  // Short limb sequences written out (Horner form)

  lemma {:induction false} Val1(s: seq<nat>, b: nat)
    requires |s| == 1
    ensures Val(s, b) == s[0]
  {
  }

  lemma {:induction false} Val2(s: seq<nat>, b: nat)
    requires |s| == 2
    ensures Val(s, b) == s[0] + b * s[1]
  {
    var t := s[1..];
    assert t[0] == s[1];
    Val1(t, b);
  }

  lemma {:induction false} Val3(s: seq<nat>, b: nat)
    requires |s| == 3
    ensures Val(s, b) == s[0] + b * (s[1] + b * s[2])
  {
    var t := s[1..];
    assert t[0] == s[1] && t[1] == s[2];
    Val2(t, b);
  }

  lemma {:induction false} Val4(s: seq<nat>, b: nat)
    requires |s| == 4
    ensures Val(s, b) == s[0] + b * (s[1] + b * (s[2] + b * s[3]))
  {
    var t := s[1..];
    assert t[0] == s[1] && t[1] == s[2] && t[2] == s[3];
    Val3(t, b);
  }

  lemma {:induction false} Val5(s: seq<nat>, b: nat)
    requires |s| == 5
    ensures Val(s, b) == s[0] + b * (s[1] + b * (s[2] + b * (s[3] + b * s[4])))
  {
    var t := s[1..];
    assert t[0] == s[1] && t[1] == s[2] && t[2] == s[3] && t[3] == s[4];
    Val4(t, b);
  }

  lemma {:induction false} Val6(s: seq<nat>, b: nat)
    requires |s| == 6
    ensures Val(s, b) == s[0] + b * (s[1] + b * (s[2] + b * (s[3] + b * (s[4] + b * s[5]))))
  {
    var t := s[1..];
    assert t[0] == s[1] && t[1] == s[2] && t[2] == s[3] && t[3] == s[4] && t[4] == s[5];
    Val5(t, b);
  }

  lemma {:induction false} Val7(s: seq<nat>, b: nat)
    requires |s| == 7
    ensures Val(s, b) == s[0] + b * (s[1] + b * (s[2] + b * (s[3] + b * (s[4] + b * (s[5] + b * s[6])))))
  {
    var t := s[1..];
    assert t[0] == s[1] && t[1] == s[2] && t[2] == s[3] && t[3] == s[4] && t[4] == s[5] && t[5] == s[6];
    Val6(t, b);
  }

  lemma {:induction false} Val8(s: seq<nat>, b: nat)
    requires |s| == 8
    ensures Val(s, b) == s[0] + b * (s[1] + b * (s[2] + b * (s[3] + b * (s[4] + b * (s[5] + b * (s[6] + b * s[7]))))))
  {
    var t := s[1..];
    assert t[0] == s[1] && t[1] == s[2] && t[2] == s[3] && t[3] == s[4] && t[4] == s[5] && t[5] == s[6] && t[6] == s[7];
    Val7(t, b);
  }

  lemma {:induction false} Val9(s: seq<nat>, b: nat)
    requires |s| == 9
    ensures Val(s, b) == s[0] + b * (s[1] + b * (s[2] + b * (s[3] + b * (s[4] + b * (s[5] + b * (s[6] + b * (s[7] + b * s[8])))))))
  {
    var t := s[1..];
    assert t[0] == s[1] && t[1] == s[2] && t[2] == s[3] && t[3] == s[4] && t[4] == s[5] && t[5] == s[6] && t[6] == s[7] && t[7] == s[8];
    Val8(t, b);
  }

  lemma {:induction false} Val10(s: seq<nat>, b: nat)
    requires |s| == 10
    ensures Val(s, b) == s[0] + b * (s[1] + b * (s[2] + b * (s[3] + b * (s[4] + b * (s[5] + b * (s[6] + b * (s[7] + b * (s[8] + b * s[9]))))))))
  {
    var t := s[1..];
    assert t[0] == s[1] && t[1] == s[2] && t[2] == s[3] && t[3] == s[4] && t[4] == s[5] && t[5] == s[6] && t[6] == s[7] && t[7] == s[8] && t[8] == s[9];
    Val9(t, b);
  }

  lemma {:induction false} Val11(s: seq<nat>, b: nat)
    requires |s| == 11
    ensures Val(s, b) == s[0] + b * (s[1] + b * (s[2] + b * (s[3] + b * (s[4] + b * (s[5] + b * (s[6] + b * (s[7] + b * (s[8] + b * (s[9] + b * s[10])))))))))
  {
    var t := s[1..];
    assert t[0] == s[1] && t[1] == s[2] && t[2] == s[3] && t[3] == s[4] && t[4] == s[5] && t[5] == s[6] && t[6] == s[7] && t[7] == s[8] && t[8] == s[9] && t[9] == s[10];
    Val10(t, b);
  }

  lemma {:induction false} Val12(s: seq<nat>, b: nat)
    requires |s| == 12
    ensures Val(s, b) == s[0] + b * (s[1] + b * (s[2] + b * (s[3] + b * (s[4] + b * (s[5] + b * (s[6] + b * (s[7] + b * (s[8] + b * (s[9] + b * (s[10] + b * s[11]))))))))))
  {
    var t := s[1..];
    assert t[0] == s[1] && t[1] == s[2] && t[2] == s[3] && t[3] == s[4] && t[4] == s[5] && t[5] == s[6] && t[6] == s[7] && t[7] == s[8] && t[8] == s[9] && t[9] == s[10] && t[10] == s[11];
    Val11(t, b);
  }
}
