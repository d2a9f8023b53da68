/** The curve descriptor `_nettle_secp_192r1` (ecc-192.c:181-245) and its
    accessor `nettle_get_secp_192r1` (ecc-192.c:247-250).  The descriptor is
    constant data: sizes, and references to limb tables and routines.  The
    tables and most routines live in code that is not part of this model,
    so they appear by name only; the sizes that come from the generated
    header ecc-192.h and from ecc-internal.h are a parameter. */
module Secp192r1 {
  import opened Limbs
  import opened P192
  import opened Ecc192Sqrt

  /** The limb tables a descriptor points to (NoTable for NULL). */
  datatype Table =
    | TableP | TableBmodp | TableBmodpShifted | TableRedcPpm1 | TablePp1h
    | TableQ | TableBmodq | TableBmodqShifted | TableQp1h
    | TableB | TableG | TableUnit | TablePippenger
    | NoTable

  /** The routines a descriptor points to (NoRoutine for NULL).  Modp192 is
      `ecc_192_modp` and Sqrt192 is `ecc_192_sqrt`, both modelled here. */
  datatype Routine =
    | Modp192 | Sqrt192
    | GenericMod | ModInv
    | AddJjj | MulA | MulG | JToA
    | NoRoutine

  /** The sizes defined outside ecc-192.c: ECC_BMODP_SIZE, ECC_BMODQ_SIZE,
      ECC_REDC_SIZE, ECC_PIPPENGER_K, ECC_PIPPENGER_C, and the itch macros
      ECC_MOD_INV_ITCH, ECC_ADD_JJJ_ITCH, ECC_MUL_A_ITCH, ECC_MUL_G_ITCH and
      ECC_J_TO_A_ITCH already applied to ECC_LIMB_SIZE. */
  datatype HeaderSizes = HeaderSizes(
    bmodpSize: nat, bmodqSize: nat, redcSize: nat,
    pippengerK: nat, pippengerC: nat,
    modInvItch: nat, addJjjItch: nat, mulAItch: nat, mulGItch: nat, jToAItch: nat)

  /** `struct ecc_modulo`: one of the two moduli of a curve. */
  datatype Modulo = Modulo(
    bitSize: nat, size: nat, bModSize: nat, redcSize: nat,
    invertItch: nat, sqrtItch: nat, sqrtRatioItch: nat,
    m: Table, bModM: Table, bModMShifted: Table, redcMpm1: Table, mp1h: Table,
    modRoutine: Routine, reduce: Routine, invert: Routine, sqrt: Routine, sqrtRatio: Routine)

  /** `struct ecc_curve`: the field modulus p, the group order q, and the
      point-arithmetic entries. */
  datatype Curve = Curve(
    p: Modulo, q: Modulo,
    useRedc: bool, pippengerK: nat, pippengerC: nat,
    addHhhItch: nat, mulItch: nat, mulGItch: nat, hToAItch: nat,
    addHhh: Routine, mul: Routine, mulG: Routine, hToA: Routine,
    b: Table, g: Table, edwardsRoot: Table, unit: Table, pippengerTable: Table)

  /** USE_REDC (ecc-192.c:48): p-192 reduces directly, without Montgomery
      (REDC) form. */
  const UseRedc := false

  /** `_nettle_secp_192r1` for a build with the given limb width, as
      returned by `nettle_get_secp_192r1`: both moduli are 192 bits in
      ECC_LIMB_SIZE limbs, p has ECC_192_SQRT_ITCH limbs of square-root
      scratch, and the curve does not use REDC. */
  function Secp192r1(w: Width, h: HeaderSizes): (r: Curve)
    ensures r.p.bitSize == r.q.bitSize == 192 == r.p.size * Bits(w)
    ensures r.q.size == r.p.size && r.p.sqrtItch == 3 * (2 * r.p.size)
    ensures !r.useRedc
  {
    Curve(
      Modulo(192, LimbSize(w), h.bmodpSize, h.redcSize, h.modInvItch, SqrtItch(w), 0,
             TableP, TableBmodp, TableBmodpShifted, TableRedcPpm1, TablePp1h,
             Modp192, Modp192, ModInv, Sqrt192, NoRoutine),
      Modulo(192, LimbSize(w), h.bmodqSize, 0, h.modInvItch, 0, 0,
             TableQ, TableBmodq, TableBmodqShifted, NoTable, TableQp1h,
             GenericMod, GenericMod, ModInv, NoRoutine, NoRoutine),
      UseRedc, h.pippengerK, h.pippengerC,
      h.addJjjItch, h.mulAItch, h.mulGItch, h.jToAItch,
      AddJjj, MulA, MulG, JToA,
      TableB, TableG, NoTable, TableUnit, TablePippenger)
  }

  /** What the descriptor promises about the field modulus p: 192 bits held
      in exactly ECC_LIMB_SIZE limbs (so the "Unsupported limb size" error is
      never reached and ecc_192_zero_p needs no initial reduction), the table
      ecc_p holding p below B^size, square-root scratch for three
      2 * ECC_LIMB_SIZE-limb temporaries, and reduction and square root by
      the routines of this file, with no sqrt_ratio. */
  lemma {:induction false} FieldModulus(w: Width, h: HeaderSizes)
    ensures Secp192r1(w, h).p.bitSize == 192 == Secp192r1(w, h).p.size * Bits(w)
    ensures Secp192r1(w, h).p.m == TableP && Val(EccP(w), Base(w)) == P
    ensures |EccP(w)| == Secp192r1(w, h).p.size && P < Pow(Base(w), Secp192r1(w, h).p.size)
    ensures EccP(w)[Secp192r1(w, h).p.size - 1] > 0
    ensures Secp192r1(w, h).p.sqrtItch == 3 * (2 * Secp192r1(w, h).p.size)
    ensures Secp192r1(w, h).p.modRoutine == Secp192r1(w, h).p.reduce == Modp192
    ensures Secp192r1(w, h).p.sqrt == Sqrt192 && Secp192r1(w, h).p.sqrtRatio == NoRoutine
  {
    LimbSizeExact(w);
    TablesCorrect(w);
  }

  /** What it promises about the group order q: the same size as p, reduced
      by the generic `ecc_mod`, with no square root, no REDC data and no
      square-root scratch; and the curve as a whole does not use REDC. */
  lemma {:induction false} GroupOrder(w: Width, h: HeaderSizes)
    ensures Secp192r1(w, h).q.bitSize == Secp192r1(w, h).p.bitSize
    ensures Secp192r1(w, h).q.size == Secp192r1(w, h).p.size
    ensures Secp192r1(w, h).q.modRoutine == Secp192r1(w, h).q.reduce == GenericMod
    ensures Secp192r1(w, h).q.sqrt == NoRoutine && Secp192r1(w, h).q.sqrtItch == 0
    ensures Secp192r1(w, h).q.redcSize == 0 && Secp192r1(w, h).q.redcMpm1 == NoTable
    ensures Secp192r1(w, h).p.invert == Secp192r1(w, h).q.invert == ModInv
    ensures !Secp192r1(w, h).useRedc
  {
  }
}
