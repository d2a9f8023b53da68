/** Multi-precision natural numbers as little-endian limb sequences, and the
    carry-propagating limb primitives (`mpn_add_n`, `sec_add_1`, `cnd_add_n`)
    that the fast reduction is built from.

    C limb pointers into one buffer are modelled as offsets into one
    `array<nat>`.  The array's elements are not all limbs: each operation
    requires, and ensures, that the regions it reads and writes hold limbs,
    i.e. numbers below `base` (IsLimbs). */
module Limbs {

  /** b raised to the power e. */
  function Pow(b: nat, e: nat): (r: nat)
    ensures b > 0 ==> r > 0
  {
    if e == 0 then 1 else b * Pow(b, e - 1)
  }

  /** Every element of s is a limb for the given base. */
  predicate IsLimbs(s: seq<nat>, base: nat)
  {
    forall i | 0 <= i < |s| :: s[i] < base
  }

  /** The number a little-endian limb sequence stands for. */
  function Val(s: seq<nat>, base: nat): nat
  {
    if |s| == 0 then 0 else s[0] + base * Val(s[1..], base)
  }

  /** The n least significant limbs of x. */
  function ToLimbs(x: nat, base: nat, n: nat): (r: seq<nat>)
    requires base > 1
    ensures |r| == n && IsLimbs(r, base)
    decreases n
  {
    if n == 0 then [] else [x % base] + ToLimbs(x / base, base, n - 1)
  }

  /** Positions lo .. lo+len-1. */
  predicate InRegion(i: int, lo: int, len: int)
  {
    lo <= i < lo + len
  }

  /** Two regions of limbs share no position. */
  predicate Disjoint(a: int, alen: int, b: int, blen: int)
  {
    a + alen <= b || b + blen <= a
  }

  // ------------------------------------------------------------------
  // Arithmetic helpers

  lemma {:induction false} PowAdd(b: nat, e1: nat, e2: nat)
    ensures Pow(b, e1 + e2) == Pow(b, e1) * Pow(b, e2)
    decreases e1
  {
    if e1 > 0 {
      PowAdd(b, e1 - 1, e2);
      MulAssoc(b, Pow(b, e1 - 1), Pow(b, e2));
    }
  }

  lemma {:induction false} MulAssoc(x: int, y: int, z: int)
    ensures x * (y * z) == (x * y) * z
  {
  }

  lemma {:induction false} MulLe(x: nat, y: nat, z: nat)
    requires x <= y
    ensures z * x <= z * y
  {
  }

  lemma {:induction false} AppendStep(s0: int, base: int, v1: int, p1: int, vt: int, ps: int, lhs: int, vs: int)
    requires lhs == s0 + base * (v1 + p1 * vt) && vs == s0 + base * v1 && ps == base * p1
    ensures lhs == vs + ps * vt
  {
    assert base * (v1 + p1 * vt) == base * v1 + (base * p1) * vt;
  }

  /** The bound behind "n limbs hold less than base^n". */
  lemma {:induction false} BoundStep(d: nat, v: nat, p: nat, b: nat)
    requires d < b && v < p
    ensures d + b * v < b * p
  {
    MulLe(v, p - 1, b);
    assert b * (p - 1) == b * p - b;
  }

  lemma {:induction false} DivMod(x: nat, b: nat)
    requires b > 0
    ensures x == x % b + b * (x / b)
  {
  }

  lemma {:induction false} DivBound(x: nat, b: nat, p: nat)
    requires b > 0 && x < b * p
    ensures x / b < p
  {
    var q := x / b;
    assert b * q <= x;
    if q >= p {
      MulLe(p, q, b);
    }
  }

  /** Euclidean division is unique. */
  lemma {:induction false} DivModUnique(x: nat, b: nat, q: nat, r: nat)
    requires b > 0 && r < b && x == b * q + r
    ensures x / b == q && x % b == r
  {
    var q', r' := x / b, x % b;
    assert x == b * q' + r';
    if q < q' {
      MulLe(q + 1, q', b);
      assert false;
    } else if q' < q {
      MulLe(q' + 1, q, b);
      assert false;
    }
  }

  // ------------------------------------------------------------------
  // Value of limb sequences

  lemma {:induction false} ValAppend(s: seq<nat>, t: seq<nat>, base: nat)
    ensures Val(s + t, base) == Val(s, base) + Pow(base, |s|) * Val(t, base)
  {
    if s == [] {
      assert s + t == t;
    } else {
      assert (s + t)[1..] == s[1..] + t;
      ValAppend(s[1..], t, base);
      var v1: int, p1: int, vt: int, tail: int := Val(s[1..], base), Pow(base, |s| - 1), Val(t, base), Val(s[1..] + t, base);
      assert tail == v1 + p1 * vt;
      assert Val(s + t, base) == s[0] + base * tail;
      AppendStep(s[0], base, v1, p1, vt, Pow(base, |s|), Val(s + t, base), Val(s, base));
    }
  }

  /** A limb sequence of length n stands for a number below base^n. */
  lemma {:induction false} ValBound(s: seq<nat>, base: nat)
    requires IsLimbs(s, base)
    ensures Val(s, base) < Pow(base, |s|)
  {
    if s != [] {
      ValBound(s[1..], base);
      BoundStep(s[0], Val(s[1..], base), Pow(base, |s| - 1), base);
    }
  }

  /** Splitting into limbs and reading them back is the identity below base^n. */
  lemma {:induction false} ToLimbsVal(x: nat, base: nat, n: nat)
    requires base > 1 && x < Pow(base, n)
    ensures Val(ToLimbs(x, base, n), base) == x
    decreases n
  {
    if n > 0 {
      var q := x / base;
      DivBound(x, base, Pow(base, n - 1));
      ToLimbsVal(q, base, n - 1);
      var s := ToLimbs(x, base, n);
      assert s[1..] == ToLimbs(q, base, n - 1);
      assert s[0] == x % base;
      DivMod(x, base);
    }
  }

  /** Reading limbs and splitting the number again gives the same limbs. */
  lemma {:induction false} ValToLimbs(s: seq<nat>, base: nat)
    requires base > 1 && IsLimbs(s, base)
    ensures ToLimbs(Val(s, base), base, |s|) == s
  {
    if s != [] {
      DivModUnique(Val(s, base), base, Val(s[1..], base), s[0]);
      ValToLimbs(s[1..], base);
    }
  }

  /** Limb sequences of the same length are equal exactly when their values are. */
  lemma {:induction false} ValInjective(s: seq<nat>, t: seq<nat>, base: nat)
    requires base > 1 && IsLimbs(s, base) && IsLimbs(t, base) && |s| == |t|
    ensures Val(s, base) == Val(t, base) <==> s == t
  {
    if Val(s, base) == Val(t, base) {
      ValToLimbs(s, base);
      ValToLimbs(t, base);
    }
  }

  /** The value is zero exactly when every limb is. */
  lemma {:induction false} ValZero(s: seq<nat>, base: nat)
    requires base > 1
    ensures Val(s, base) == 0 <==> forall i | 0 <= i < |s| :: s[i] == 0
  {
    if s != [] {
      ValZero(s[1..], base);
      assert forall i | 1 <= i < |s| :: s[i] == s[1..][i - 1];
    }
  }

  // ------------------------------------------------------------------
  // Reading and writing limb regions

  /** A region disjoint from the two regions a step may change keeps its
      limbs. */
  lemma {:induction false} KeptSlice(a: seq<nat>, b: seq<nat>, lo: nat, len: nat, r1: nat, l1: nat, r2: nat, l2: nat)
    requires |a| == |b| && lo + len <= |a|
    requires Disjoint(lo, len, r1, l1) && Disjoint(lo, len, r2, l2)
    requires forall i | 0 <= i < |a| && !InRegion(i, r1, l1) && !InRegion(i, r2, l2) :: b[i] == a[i]
    ensures a[lo..lo + len] == b[lo..lo + len]
  {
    assert forall i | lo <= i < lo + len :: a[i] == b[i];
  }

  /** Writes the limbs s at positions off .. off+|s|-1 (`mpn_copyi` from a
      value); nothing else changes. */
  method WriteLimbs(mem: array<nat>, off: nat, s: seq<nat>)
    requires off + |s| <= mem.Length
    modifies mem
    ensures mem[off..off + |s|] == s
    ensures forall i | 0 <= i < mem.Length && !InRegion(i, off, |s|) :: mem[i] == old(mem[i])
  {
    var i := 0;
    while i < |s|
      invariant 0 <= i <= |s|
      invariant forall j | 0 <= j < i :: mem[off + j] == s[j]
      invariant forall j | 0 <= j < mem.Length && !InRegion(j, off, i) :: mem[j] == old(mem[j])
    {
      mem[off + i] := s[i];
      i := i + 1;
    }
  }

  // ------------------------------------------------------------------
  // Bitwise OR and XOR of limbs, bit by bit from the least significant end

  /** a | b. */
  function Or(a: nat, b: nat): nat
    decreases a + b
  {
    if a == 0 then b
    else if b == 0 then a
    else 2 * Or(a / 2, b / 2) + (if a % 2 == 1 || b % 2 == 1 then 1 else 0)
  }

  /** a ^ b. */
  function Xor(a: nat, b: nat): nat
    decreases a + b
  {
    if a == 0 then b
    else if b == 0 then a
    else 2 * Xor(a / 2, b / 2) + (if a % 2 != b % 2 then 1 else 0)
  }

  /** An OR is zero exactly when both operands are. */
  lemma {:induction false} OrZero(a: nat, b: nat)
    ensures Or(a, b) == 0 <==> a == 0 && b == 0
    decreases a + b
  {
    if a != 0 && b != 0 {
      OrZero(a / 2, b / 2);
    }
  }

  /** An XOR is zero exactly when the operands are equal. */
  lemma {:induction false} XorZero(a: nat, b: nat)
    ensures Xor(a, b) == 0 <==> a == b
    decreases a + b
  {
    if a != 0 && b != 0 {
      XorZero(a / 2, b / 2);
      DivMod(a, 2);
      DivMod(b, 2);
    }
  }

  // ------------------------------------------------------------------
  // Carry chains.  Adding two limb sequences a and b and a carry-in cy goes
  // limb by limb from the least significant end: limb i of the sum is
  // a[i] + b[i] + (carry into i), less base when that overflows, and the
  // carry into i+1 is 1 exactly when it overflowed (the C code's
  // wrap-around and `r < b` test).

  /** The carry into limb i of a + b + cy. */
  function Carry(a: seq<nat>, b: seq<nat>, cy: nat, base: nat, i: nat): nat
    requires |a| == |b| && i <= |a|
    decreases i
  {
    if i == 0 then cy
    else if a[i - 1] + b[i - 1] + Carry(a, b, cy, base, i - 1) >= base then 1 else 0
  }

  /** Limb i of a + b + cy. */
  function SumLimb(a: seq<nat>, b: seq<nat>, cy: nat, base: nat, i: nat): nat
    requires |a| == |b| && i < |a|
  {
    var t := a[i] + b[i] + Carry(a, b, cy, base, i);
    if t >= base then t - base else t
  }

  /** The limbs of a + b + cy, with the carry out as one more limb: what
      the loops of mpn_add_n and cnd_add_n leave behind. */
  function AddChain(a: seq<nat>, b: seq<nat>, cy: nat, base: nat): (r: seq<nat>)
    requires |a| == |b|
    ensures |r| == |a| + 1
  {
    seq(|a| + 1, i requires 0 <= i <= |a| => if i < |a| then SumLimb(a, b, cy, base, i) else Carry(a, b, cy, base, |a|))
  }

  /** n zero limbs. */
  function Zeros(n: nat): (r: seq<nat>)
    ensures |r| == n && forall i | 0 <= i < n :: r[i] == 0
  {
    seq(n, i => 0)
  }

  /** The limbs of a + cy, with the carry out as one more limb: what the loop
      of sec_add_1 leaves behind. */
  function IncChain(a: seq<nat>, cy: nat, base: nat): (r: seq<nat>)
    ensures |r| == |a| + 1
  {
    AddChain(a, Zeros(|a|), cy, base)
  }

  /** The addend of cnd_add_n: ap itself when cnd is nonzero, zeros otherwise. */
  function Masked(cnd: nat, ap: seq<nat>): (r: seq<nat>)
    ensures |r| == |ap|
    ensures forall i | 0 <= i < |ap| :: r[i] == if cnd != 0 then ap[i] else 0
  {
    if cnd != 0 then ap else Zeros(|ap|)
  }

  /** Adding one more significant limb. */
  lemma {:induction false} ValSnoc(s: seq<nat>, i: nat, base: nat)
    requires i < |s|
    ensures Val(s[..i + 1], base) == Val(s[..i], base) + Pow(base, i) * s[i]
  {
    assert s[..i + 1] == s[..i] + [s[i]];
    ValAppend(s[..i], [s[i]], base);
    assert Val([s[i]], base) == s[i];
  }

  lemma {:induction false} CarryStep(v: int, c: int, pw: int, base: int, a: int, b: int, limb: int, carry: int, va: int, vb: int)
    requires v + c * pw == va + vb
    requires limb + carry * base == a + b + c
    ensures (v + pw * limb) + carry * (base * pw) == (va + pw * a) + (vb + pw * b)
  {
    assert pw * (limb + carry * base) == pw * (a + b + c);
  }

  /** The carries of a chain whose limbs are limbs are at most 1 (after the
      first, which may be any carry-in below base when b is zero). */
  lemma {:induction false} CarryBound(a: seq<nat>, b: seq<nat>, cy: nat, base: nat, i: nat)
    requires |a| == |b| && i <= |a| && IsLimbs(a, base) && IsLimbs(b, base)
    requires cy <= 1 || (cy < base && b == Zeros(|b|))
    ensures Carry(a, b, cy, base, i) <= 1 || (i == 0 && Carry(a, b, cy, base, i) == cy)
    ensures i < |a| ==> SumLimb(a, b, cy, base, i) < base
    decreases i
  {
    if i > 0 {
      CarryBound(a, b, cy, base, i - 1);
    }
  }

  /** The first i limbs of the chain and the carry into limb i stand for
      the first i limbs of a and b added together with cy. */
  lemma {:induction false} ChainPrefix(a: seq<nat>, b: seq<nat>, cy: nat, base: nat, i: nat)
    requires |a| == |b| && i <= |a|
    ensures Val(AddChain(a, b, cy, base)[..i], base) + Carry(a, b, cy, base, i) * Pow(base, i)
         == Val(a[..i], base) + Val(b[..i], base) + cy
    decreases i
  {
    var r := AddChain(a, b, cy, base);
    if i == 0 {
      assert r[..0] == [] && a[..0] == [] && b[..0] == [];
    } else {
      var j := i - 1;
      ChainPrefix(a, b, cy, base, j);
      ValSnoc(r, j, base);
      ValSnoc(a, j, base);
      ValSnoc(b, j, base);
      var c, c' := Carry(a, b, cy, base, j), Carry(a, b, cy, base, i);
      assert r[j] + c' * base == a[j] + b[j] + c;
      assert Pow(base, i) == base * Pow(base, j);
      CarryStep(Val(r[..j], base), c, Pow(base, j), base, a[j], b[j], r[j], c',
                Val(a[..j], base), Val(b[..j], base) + cy);
    }
  }

  /** An add chain computes the sum: its limbs are limbs, its carry out is
      at most 1, and together they stand for a + b + cy. */
  lemma {:induction false} AddChainVal(a: seq<nat>, b: seq<nat>, cy: nat, base: nat)
    requires |a| == |b| && IsLimbs(a, base) && IsLimbs(b, base)
    requires cy <= 1 || (cy < base && b == Zeros(|b|))
    ensures IsLimbs(AddChain(a, b, cy, base)[..|a|], base)
    ensures |a| > 0 ==> AddChain(a, b, cy, base)[|a|] <= 1
    ensures Val(AddChain(a, b, cy, base), base) == Val(a, base) + Val(b, base) + cy
  {
    var r := AddChain(a, b, cy, base);
    var n := |a|;
    forall i | 0 <= i < n
      ensures r[..n][i] < base
    {
      CarryBound(a, b, cy, base, i);
    }
    CarryBound(a, b, cy, base, n);
    ChainPrefix(a, b, cy, base, n);
    assert r == r[..n] + [r[n]];
    ValAppend(r[..n], [r[n]], base);
    assert Val([r[n]], base) == r[n];
    assert a[..n] == a && b[..n] == b;
  }

  /** An increment chain computes a + cy for a carry-in below base. */
  lemma {:induction false} IncChainVal(a: seq<nat>, cy: nat, base: nat)
    requires IsLimbs(a, base) && cy < base
    ensures IsLimbs(IncChain(a, cy, base)[..|a|], base)
    ensures |a| > 0 ==> IncChain(a, cy, base)[|a|] <= 1
    ensures Val(IncChain(a, cy, base), base) == Val(a, base) + cy
  {
    ZerosVal(|a|, base);
    AddChainVal(a, Zeros(|a|), cy, base);
  }

  lemma {:induction false} ZerosVal(n: nat, base: nat)
    ensures base > 0 ==> IsLimbs(Zeros(n), base)
    ensures Val(Zeros(n), base) == 0
  {
    if n > 0 {
      ZerosVal(n - 1, base);
      assert Zeros(n)[1..] == Zeros(n - 1);
    }
  }

  /** The masked addend is the constant or zero. */
  lemma {:induction false} MaskedVal(cnd: nat, ap: seq<nat>, base: nat)
    requires base > 0 && IsLimbs(ap, base)
    ensures IsLimbs(Masked(cnd, ap), base)
    ensures Val(Masked(cnd, ap), base) == if cnd != 0 then Val(ap, base) else 0
  {
    if cnd == 0 {
      ZerosVal(|ap|, base);
      assert base > 0 ==> IsLimbs(Zeros(|ap|), base);
    }
  }

  // ------------------------------------------------------------------
  // Short chains limb by limb.  Step(r, c, t, base) says that the limb r
  // and the carry out c come from the limb sum t: r is t, or t - base with
  // a carry of 1.  These facts are linear, which keeps the callers' proofs
  // cheap; the Horner-form sums follow from them in the *Horner lemmas.

  predicate Step(r: int, c: int, t: int, base: int)
  {
    0 <= r < base && ((c == 0 && r == t) || (c == 1 && r == t - base))
  }

  lemma {:induction false} StepHorner(r: int, c: int, t: int, base: int)
    requires Step(r, c, t, base)
    ensures r + base * c == t
  {
  }

  /** A 2-limb add chain whose limbs and carry out are named: each limb
      with the carry into the next is one step of the addition. */
  lemma {:induction false} AddParts2(a: seq<nat>, b: seq<nat>, cy: nat, base: nat, r0: nat, r1: nat, k2: nat)
    returns (k1: int)
    requires |a| == 2 && |b| == 2 && IsLimbs(a, base) && IsLimbs(b, base) && cy <= 1
    requires AddChain(a, b, cy, base) == [r0, r1, k2]
    ensures Step(r0, k1, a[0] + b[0] + cy, base) && Step(r1, k2, a[1] + b[1] + k1, base)
  {
    var r := AddChain(a, b, cy, base);
    assert r[0] == r0;
    assert r[1] == r1;
    assert r[2] == k2 == Carry(a, b, cy, base, 2);
    k1 := Carry(a, b, cy, base, 1);
  }

  /** A 3-limb add chain whose limbs and carry out are named: each limb
      with the carry into the next is one step of the addition. */
  lemma {:induction false} AddParts3(a: seq<nat>, b: seq<nat>, cy: nat, base: nat, r0: nat, r1: nat, r2: nat, k3: nat)
    returns (k1: int, k2: int)
    requires |a| == 3 && |b| == 3 && IsLimbs(a, base) && IsLimbs(b, base) && cy <= 1
    requires AddChain(a, b, cy, base) == [r0, r1, r2, k3]
    ensures Step(r0, k1, a[0] + b[0] + cy, base) && Step(r1, k2, a[1] + b[1] + k1, base) && Step(r2, k3, a[2] + b[2] + k2, base)
  {
    var r := AddChain(a, b, cy, base);
    assert r[0] == r0;
    assert r[1] == r1;
    assert r[2] == r2;
    assert r[3] == k3 == Carry(a, b, cy, base, 3);
    k1, k2 := Carry(a, b, cy, base, 1), Carry(a, b, cy, base, 2);
  }

  /** A 4-limb add chain whose limbs and carry out are named: each limb
      with the carry into the next is one step of the addition. */
  lemma {:induction false} AddParts4(a: seq<nat>, b: seq<nat>, cy: nat, base: nat, r0: nat, r1: nat, r2: nat, r3: nat, k4: nat)
    returns (k1: int, k2: int, k3: int)
    requires |a| == 4 && |b| == 4 && IsLimbs(a, base) && IsLimbs(b, base) && cy <= 1
    requires AddChain(a, b, cy, base) == [r0, r1, r2, r3, k4]
    ensures Step(r0, k1, a[0] + b[0] + cy, base) && Step(r1, k2, a[1] + b[1] + k1, base) && Step(r2, k3, a[2] + b[2] + k2, base) && Step(r3, k4, a[3] + b[3] + k3, base)
  {
    var r := AddChain(a, b, cy, base);
    assert r[0] == r0;
    assert r[1] == r1;
    assert r[2] == r2;
    assert r[3] == r3;
    assert r[4] == k4 == Carry(a, b, cy, base, 4);
    k1, k2, k3 := Carry(a, b, cy, base, 1), Carry(a, b, cy, base, 2), Carry(a, b, cy, base, 3);
  }

  /** A 6-limb add chain whose limbs and carry out are named: each limb
      with the carry into the next is one step of the addition. */
  lemma {:induction false} AddParts6(a: seq<nat>, b: seq<nat>, cy: nat, base: nat, r0: nat, r1: nat, r2: nat, r3: nat, r4: nat, r5: nat, k6: nat)
    returns (k1: int, k2: int, k3: int, k4: int, k5: int)
    requires |a| == 6 && |b| == 6 && IsLimbs(a, base) && IsLimbs(b, base) && cy <= 1
    requires AddChain(a, b, cy, base) == [r0, r1, r2, r3, r4, r5, k6]
    ensures Step(r0, k1, a[0] + b[0] + cy, base) && Step(r1, k2, a[1] + b[1] + k1, base) && Step(r2, k3, a[2] + b[2] + k2, base) && Step(r3, k4, a[3] + b[3] + k3, base) && Step(r4, k5, a[4] + b[4] + k4, base) && Step(r5, k6, a[5] + b[5] + k5, base)
  {
    var r := AddChain(a, b, cy, base);
    assert r[0] == r0;
    assert r[1] == r1;
    assert r[2] == r2;
    assert r[3] == r3;
    assert r[4] == r4;
    assert r[5] == r5;
    assert r[6] == k6 == Carry(a, b, cy, base, 6);
    k1, k2, k3, k4, k5 := Carry(a, b, cy, base, 1), Carry(a, b, cy, base, 2), Carry(a, b, cy, base, 3), Carry(a, b, cy, base, 4), Carry(a, b, cy, base, 5);
  }

  /** A 1-limb increment chain whose limbs and carry out are named: each
      limb with the carry into the next is one step of the increment. */
  lemma {:induction false} IncParts1(a: seq<nat>, cy: nat, base: nat, r0: nat, k1: nat)
    requires |a| == 1 && IsLimbs(a, base) && cy < base
    requires IncChain(a, cy, base) == [r0, k1]
    ensures Step(r0, k1, a[0] + cy, base)
  {
    var z := Zeros(|a|);
    var r := AddChain(a, z, cy, base);
    assert r[0] == r0;
    assert r[1] == k1 == Carry(a, z, cy, base, 1);
  }

  /** A 2-limb increment chain whose limbs and carry out are named: each
      limb with the carry into the next is one step of the increment. */
  lemma {:induction false} IncParts2(a: seq<nat>, cy: nat, base: nat, r0: nat, r1: nat, k2: nat)
    returns (k1: int)
    requires |a| == 2 && IsLimbs(a, base) && cy < base
    requires IncChain(a, cy, base) == [r0, r1, k2]
    ensures Step(r0, k1, a[0] + cy, base) && Step(r1, k2, a[1] + k1, base)
  {
    var z := Zeros(|a|);
    var r := AddChain(a, z, cy, base);
    assert r[0] == r0;
    assert r[1] == r1;
    assert r[2] == k2 == Carry(a, z, cy, base, 2);
    k1 := Carry(a, z, cy, base, 1);
  }

  /** One limb of a chain lifted into Horner form: if the limb r with carry
      k is the sum a + b + kin, and the limbs above stand for tA + tB + k,
      then all of them stand for the longer sums. */
  lemma {:induction false} AddLift(r: int, k: int, a: int, b: int, kin: int, tA: int, tB: int, t: int, base: int)
    requires r + base * k == a + b + kin && t == tA + tB + k
    ensures r + base * t == (a + base * tA) + (b + base * tB) + kin
  {
  }

  /** AddLift with no second addend. */
  lemma {:induction false} IncLift(r: int, k: int, a: int, kin: int, tA: int, t: int, base: int)
    requires r + base * k == a + kin && t == tA + k
    ensures r + base * t == (a + base * tA) + kin
  {
  }

  /** A 2-limb add chain whose limbs and carry are named: each limb is
      below the radix, the carry is at most 1, and together they stand for
      the sum (Horner form). */
  lemma {:induction false} AddSum2(a0: nat, a1: nat, b0: nat, b1: nat, cy: nat, base: nat, r0: nat, r1: nat, k2: nat)
    requires a0 < base && a1 < base && b0 < base && b1 < base && cy <= 1
    requires AddChain([a0, a1], [b0, b1], cy, base) == [r0, r1, k2]
    ensures r0 < base && r1 < base && k2 <= 1
    ensures r0 + base * (r1 + base * k2)
         == (a0 + base * a1) + (b0 + base * b1) + cy
  {
    var j1 := AddParts2([a0, a1], [b0, b1], cy, base, r0, r1, k2);
    StepHorner(r0, j1, a0 + b0 + cy, base);
    StepHorner(r1, k2, a1 + b1 + j1, base);
    AddLift(r0, j1, a0, b0, cy, a1, b1, r1 + base * k2, base);
  }

  /** A 3-limb add chain whose limbs and carry are named: each limb is
      below the radix, the carry is at most 1, and together they stand for
      the sum (Horner form). */
  lemma {:induction false} AddSum3(a0: nat, a1: nat, a2: nat, b0: nat, b1: nat, b2: nat, cy: nat, base: nat, r0: nat, r1: nat, r2: nat, k3: nat)
    requires a0 < base && a1 < base && a2 < base && b0 < base && b1 < base && b2 < base && cy <= 1
    requires AddChain([a0, a1, a2], [b0, b1, b2], cy, base) == [r0, r1, r2, k3]
    ensures r0 < base && r1 < base && r2 < base && k3 <= 1
    ensures r0 + base * (r1 + base * (r2 + base * k3))
         == (a0 + base * (a1 + base * a2)) + (b0 + base * (b1 + base * b2)) + cy
  {
    var j1, j2 := AddParts3([a0, a1, a2], [b0, b1, b2], cy, base, r0, r1, r2, k3);
    StepHorner(r0, j1, a0 + b0 + cy, base);
    StepHorner(r1, j2, a1 + b1 + j1, base);
    StepHorner(r2, k3, a2 + b2 + j2, base);
    AddLift(r1, j2, a1, b1, j1, a2, b2, r2 + base * k3, base);
    AddLift(r0, j1, a0, b0, cy, a1 + base * a2, b1 + base * b2, r1 + base * (r2 + base * k3), base);
  }

  /** A 4-limb add chain whose limbs and carry are named: each limb is
      below the radix, the carry is at most 1, and together they stand for
      the sum (Horner form). */
  lemma {:induction false} AddSum4(a0: nat, a1: nat, a2: nat, a3: nat, b0: nat, b1: nat, b2: nat, b3: nat, cy: nat, base: nat, r0: nat, r1: nat, r2: nat, r3: nat, k4: nat)
    requires a0 < base && a1 < base && a2 < base && a3 < base && b0 < base && b1 < base && b2 < base && b3 < base && cy <= 1
    requires AddChain([a0, a1, a2, a3], [b0, b1, b2, b3], cy, base) == [r0, r1, r2, r3, k4]
    ensures r0 < base && r1 < base && r2 < base && r3 < base && k4 <= 1
    ensures r0 + base * (r1 + base * (r2 + base * (r3 + base * k4)))
         == (a0 + base * (a1 + base * (a2 + base * a3))) + (b0 + base * (b1 + base * (b2 + base * b3))) + cy
  {
    var j1, j2, j3 := AddParts4([a0, a1, a2, a3], [b0, b1, b2, b3], cy, base, r0, r1, r2, r3, k4);
    StepHorner(r0, j1, a0 + b0 + cy, base);
    StepHorner(r1, j2, a1 + b1 + j1, base);
    StepHorner(r2, j3, a2 + b2 + j2, base);
    StepHorner(r3, k4, a3 + b3 + j3, base);
    AddLift(r2, j3, a2, b2, j2, a3, b3, r3 + base * k4, base);
    AddLift(r1, j2, a1, b1, j1, a2 + base * a3, b2 + base * b3, r2 + base * (r3 + base * k4), base);
    AddLift(r0, j1, a0, b0, cy, a1 + base * (a2 + base * a3), b1 + base * (b2 + base * b3), r1 + base * (r2 + base * (r3 + base * k4)), base);
  }

  /** A 6-limb add chain whose limbs and carry are named: each limb is
      below the radix, the carry is at most 1, and together they stand for
      the sum (Horner form). */
  lemma {:induction false} AddSum6(a0: nat, a1: nat, a2: nat, a3: nat, a4: nat, a5: nat, b0: nat, b1: nat, b2: nat, b3: nat, b4: nat, b5: nat, cy: nat, base: nat, r0: nat, r1: nat, r2: nat, r3: nat, r4: nat, r5: nat, k6: nat)
    requires a0 < base && a1 < base && a2 < base && a3 < base && a4 < base && a5 < base && b0 < base && b1 < base && b2 < base && b3 < base && b4 < base && b5 < base && cy <= 1
    requires AddChain([a0, a1, a2, a3, a4, a5], [b0, b1, b2, b3, b4, b5], cy, base) == [r0, r1, r2, r3, r4, r5, k6]
    ensures r0 < base && r1 < base && r2 < base && r3 < base && r4 < base && r5 < base && k6 <= 1
    ensures r0 + base * (r1 + base * (r2 + base * (r3 + base * (r4 + base * (r5 + base * k6)))))
         == (a0 + base * (a1 + base * (a2 + base * (a3 + base * (a4 + base * a5))))) + (b0 + base * (b1 + base * (b2 + base * (b3 + base * (b4 + base * b5))))) + cy
  {
    var j1, j2, j3, j4, j5 := AddParts6([a0, a1, a2, a3, a4, a5], [b0, b1, b2, b3, b4, b5], cy, base, r0, r1, r2, r3, r4, r5, k6);
    StepHorner(r0, j1, a0 + b0 + cy, base);
    StepHorner(r1, j2, a1 + b1 + j1, base);
    StepHorner(r2, j3, a2 + b2 + j2, base);
    StepHorner(r3, j4, a3 + b3 + j3, base);
    StepHorner(r4, j5, a4 + b4 + j4, base);
    StepHorner(r5, k6, a5 + b5 + j5, base);
    AddLift(r4, j5, a4, b4, j4, a5, b5, r5 + base * k6, base);
    AddLift(r3, j4, a3, b3, j3, a4 + base * a5, b4 + base * b5, r4 + base * (r5 + base * k6), base);
    AddLift(r2, j3, a2, b2, j2, a3 + base * (a4 + base * a5), b3 + base * (b4 + base * b5), r3 + base * (r4 + base * (r5 + base * k6)), base);
    AddLift(r1, j2, a1, b1, j1, a2 + base * (a3 + base * (a4 + base * a5)), b2 + base * (b3 + base * (b4 + base * b5)), r2 + base * (r3 + base * (r4 + base * (r5 + base * k6))), base);
    AddLift(r0, j1, a0, b0, cy, a1 + base * (a2 + base * (a3 + base * (a4 + base * a5))), b1 + base * (b2 + base * (b3 + base * (b4 + base * b5))), r1 + base * (r2 + base * (r3 + base * (r4 + base * (r5 + base * k6)))), base);
  }

  /** A 1-limb increment chain whose limbs and carry are named: each limb is
      below the radix, the carry is at most 1, and together they stand for
      the sum (Horner form). */
  lemma {:induction false} IncSum1(a0: nat, cy: nat, base: nat, r0: nat, c: nat)
    requires a0 < base && cy < base
    requires IncChain([a0], cy, base) == [r0, c]
    ensures r0 < base && c <= 1
    ensures r0 + base * c
         == a0 + cy
  {
    IncParts1([a0], cy, base, r0, c);
    StepHorner(r0, c, a0 + cy, base);
  }

  /** A 2-limb increment chain whose limbs and carry are named: each limb is
      below the radix, the carry is at most 1, and together they stand for
      the sum (Horner form). */
  lemma {:induction false} IncSum2(a0: nat, a1: nat, cy: nat, base: nat, r0: nat, r1: nat, c: nat)
    requires a0 < base && a1 < base && cy < base
    requires IncChain([a0, a1], cy, base) == [r0, r1, c]
    ensures r0 < base && r1 < base && c <= 1
    ensures r0 + base * (r1 + base * c)
         == (a0 + base * a1) + cy
  {
    var j1 := IncParts2([a0, a1], cy, base, r0, r1, c);
    StepHorner(r0, j1, a0 + cy, base);
    StepHorner(r1, c, a1 + j1, base);
    IncLift(r0, j1, a0, cy, a1, r1 + base * c, base);
  }

  // ------------------------------------------------------------------
  // Short slices named limb by limb.  A caller states what a slice of the
  // limb buffer holds with Pin, and reads a chain's limbs back with Unpack.

  lemma {:induction false} Pin1(s: seq<nat>, a0: int)
    requires |s| == 1 && s[0] == a0
    ensures s == [a0]
  {
  }

  lemma {:induction false} Pin2(s: seq<nat>, a0: int, a1: int)
    requires |s| == 2 && s[0] == a0 && s[1] == a1
    ensures s == [a0, a1]
  {
  }

  lemma {:induction false} Pin3(s: seq<nat>, a0: int, a1: int, a2: int)
    requires |s| == 3 && s[0] == a0 && s[1] == a1 && s[2] == a2
    ensures s == [a0, a1, a2]
  {
  }

  lemma {:induction false} Pin4(s: seq<nat>, a0: int, a1: int, a2: int, a3: int)
    requires |s| == 4 && s[0] == a0 && s[1] == a1 && s[2] == a2 && s[3] == a3
    ensures s == [a0, a1, a2, a3]
  {
  }

  lemma {:induction false} Pin5(s: seq<nat>, a0: int, a1: int, a2: int, a3: int, a4: int)
    requires |s| == 5 && s[0] == a0 && s[1] == a1 && s[2] == a2 && s[3] == a3 && s[4] == a4
    ensures s == [a0, a1, a2, a3, a4]
  {
  }

  lemma {:induction false} Pin6(s: seq<nat>, a0: int, a1: int, a2: int, a3: int, a4: int, a5: int)
    requires |s| == 6 && s[0] == a0 && s[1] == a1 && s[2] == a2 && s[3] == a3 && s[4] == a4 && s[5] == a5
    ensures s == [a0, a1, a2, a3, a4, a5]
  {
  }

  lemma {:induction false} Pin9(s: seq<nat>, a0: int, a1: int, a2: int, a3: int, a4: int, a5: int, a6: int, a7: int, a8: int)
    requires |s| == 9 && s[0] == a0 && s[1] == a1 && s[2] == a2 && s[3] == a3 && s[4] == a4 && s[5] == a5 && s[6] == a6 && s[7] == a7 && s[8] == a8
    ensures s == [a0, a1, a2, a3, a4, a5, a6, a7, a8]
  {
  }

  lemma {:induction false} Pin12(s: seq<nat>, a0: int, a1: int, a2: int, a3: int, a4: int, a5: int, a6: int, a7: int, a8: int, a9: int, a10: int, a11: int)
    requires |s| == 12 && s[0] == a0 && s[1] == a1 && s[2] == a2 && s[3] == a3 && s[4] == a4 && s[5] == a5 && s[6] == a6 && s[7] == a7 && s[8] == a8 && s[9] == a9 && s[10] == a10 && s[11] == a11
    ensures s == [a0, a1, a2, a3, a4, a5, a6, a7, a8, a9, a10, a11]
  {
  }

  lemma {:induction false} Snoc3(s: seq<nat>, c: nat, a0: nat, a1: nat, a2: nat)
    requires s == [a0, a1, a2]
    ensures s + [c] == [a0, a1, a2, c]
  {
  }

  lemma {:induction false} Snoc6(s: seq<nat>, c: nat, a0: nat, a1: nat, a2: nat, a3: nat, a4: nat, a5: nat)
    requires s == [a0, a1, a2, a3, a4, a5]
    ensures s + [c] == [a0, a1, a2, a3, a4, a5, c]
  {
  }

  lemma {:induction false} Unpack1(s: seq<nat>, c: nat, t: seq<nat>, r0: nat)
    requires |s| == 1 && s[0] == r0 && s + [c] == t
    ensures t == [r0, c]
  {
    assert t[0] == (s + [c])[0] == s[0];
    assert t[1] == (s + [c])[1] == c;
  }

  lemma {:induction false} Unpack2(s: seq<nat>, c: nat, t: seq<nat>, r0: nat, r1: nat)
    requires |s| == 2 && s[0] == r0 && s[1] == r1 && s + [c] == t
    ensures t == [r0, r1, c]
  {
    assert t[0] == (s + [c])[0] == s[0];
    assert t[1] == (s + [c])[1] == s[1];
    assert t[2] == (s + [c])[2] == c;
  }

  lemma {:induction false} Unpack3(s: seq<nat>, c: nat, t: seq<nat>, r0: nat, r1: nat, r2: nat)
    requires |s| == 3 && s[0] == r0 && s[1] == r1 && s[2] == r2 && s + [c] == t
    ensures t == [r0, r1, r2, c]
  {
    assert t[0] == (s + [c])[0] == s[0];
    assert t[1] == (s + [c])[1] == s[1];
    assert t[2] == (s + [c])[2] == s[2];
    assert t[3] == (s + [c])[3] == c;
  }

  lemma {:induction false} Unpack4(s: seq<nat>, c: nat, t: seq<nat>, r0: nat, r1: nat, r2: nat, r3: nat)
    requires |s| == 4 && s[0] == r0 && s[1] == r1 && s[2] == r2 && s[3] == r3 && s + [c] == t
    ensures t == [r0, r1, r2, r3, c]
  {
    assert t[0] == (s + [c])[0] == s[0];
    assert t[1] == (s + [c])[1] == s[1];
    assert t[2] == (s + [c])[2] == s[2];
    assert t[3] == (s + [c])[3] == s[3];
    assert t[4] == (s + [c])[4] == c;
  }

  lemma {:induction false} Unpack6(s: seq<nat>, c: nat, t: seq<nat>, r0: nat, r1: nat, r2: nat, r3: nat, r4: nat, r5: nat)
    requires |s| == 6 && s[0] == r0 && s[1] == r1 && s[2] == r2 && s[3] == r3 && s[4] == r4 && s[5] == r5 && s + [c] == t
    ensures t == [r0, r1, r2, r3, r4, r5, c]
  {
    assert t[0] == (s + [c])[0] == s[0];
    assert t[1] == (s + [c])[1] == s[1];
    assert t[2] == (s + [c])[2] == s[2];
    assert t[3] == (s + [c])[3] == s[3];
    assert t[4] == (s + [c])[4] == s[4];
    assert t[5] == (s + [c])[5] == s[5];
    assert t[6] == (s + [c])[6] == c;
  }

  // ------------------------------------------------------------------
  // The in-place limb primitives

  /** Writing limb n-1 and then the carry out finishes the chain. */
  lemma {:induction false} ChainEnd(mem: array<nat>, d: nat, a: seq<nat>, b: seq<nat>, cy: nat, base: nat, c: nat)
    requires |a| == |b| && d + |a| <= mem.Length
    requires forall j | 0 <= j < |a| :: mem[d + j] == SumLimb(a, b, cy, base, j)
    requires c == Carry(a, b, cy, base, |a|)
    ensures mem[d..d + |a|] + [c] == AddChain(a, b, cy, base)
  {
    var out := mem[d..d + |a|];
    assert forall j | 0 <= j < |a| :: out[j] == mem[d + j];
  }

  /** `mpn_add_n(rp + d, rp + d, rp + s, n)`: adds the n-limb number at s
      into the n-limb number at d and returns the carry out of the top limb. */
  method AddN(mem: array<nat>, base: nat, d: nat, s: nat, n: nat) returns (cy: nat)
    requires d + n <= mem.Length && s + n <= mem.Length && Disjoint(d, n, s, n)
    modifies mem
    ensures mem[d..d + n] + [cy] == AddChain(old(mem[d..d + n]), old(mem[s..s + n]), 0, base)
    ensures forall i | 0 <= i < mem.Length && !InRegion(i, d, n) :: mem[i] == old(mem[i])
  {
    ghost var dst := mem[d..d + n];
    ghost var src := mem[s..s + n];
    cy := 0;
    var i := 0;
    while i < n
      invariant 0 <= i <= n && cy == Carry(dst, src, 0, base, i)
      invariant forall j | 0 <= j < mem.Length && !InRegion(j, d, i) :: mem[j] == old(mem[j])
      invariant forall j | 0 <= j < i :: mem[d + j] == SumLimb(dst, src, 0, base, j)
    {
      assert mem[d + i] == dst[i] && mem[s + i] == src[i];
      var t := mem[d + i] + mem[s + i] + cy;
      if t >= base {
        mem[d + i] := t - base;
        cy := 1;
      } else {
        mem[d + i] := t;
        cy := 0;
      }
      assert mem[d + i] == SumLimb(dst, src, 0, base, i);
      i := i + 1;
    }
    ChainEnd(mem, d, dst, src, 0, base, cy);
  }

  /** `sec_add_1(rp + d, rp + d, n, b)`: adds the single limb b to the n-limb
      number at d and returns the carry out of the top limb. */
  method SecAdd1(mem: array<nat>, base: nat, d: nat, n: nat, b: nat) returns (cy: nat)
    requires d + n <= mem.Length
    modifies mem
    ensures mem[d..d + n] + [cy] == IncChain(old(mem[d..d + n]), b, base)
    ensures forall i | 0 <= i < mem.Length && !InRegion(i, d, n) :: mem[i] == old(mem[i])
  {
    ghost var dst := mem[d..d + n];
    ghost var zs := Zeros(n);
    cy := b;
    var i := 0;
    while i < n
      invariant 0 <= i <= n && cy == Carry(dst, zs, b, base, i)
      invariant forall j | 0 <= j < mem.Length && !InRegion(j, d, i) :: mem[j] == old(mem[j])
      invariant forall j | 0 <= j < i :: mem[d + j] == SumLimb(dst, zs, b, base, j)
    {
      assert mem[d + i] == dst[i] && zs[i] == 0;
      var t := mem[d + i] + cy;
      if t >= base {
        mem[d + i] := t - base;
        cy := 1;
      } else {
        mem[d + i] := t;
        cy := 0;
      }
      assert mem[d + i] == SumLimb(dst, zs, b, base, i);
      i := i + 1;
    }
    ChainEnd(mem, d, dst, zs, b, base, cy);
  }

  /** `cnd_add_n(cnd, rp + d, ap, |ap|)`: when cnd is nonzero, adds the
      constant number ap to the number at d; the limb loop is the same
      whatever cnd is (each addend limb is ap[i] or 0).  Returns the carry. */
  method CndAddN(cnd: nat, mem: array<nat>, base: nat, d: nat, ap: seq<nat>) returns (cy: nat)
    requires d + |ap| <= mem.Length
    modifies mem
    ensures mem[d..d + |ap|] + [cy] == AddChain(old(mem[d..d + |ap|]), Masked(cnd, ap), 0, base)
    ensures forall i | 0 <= i < mem.Length && !InRegion(i, d, |ap|) :: mem[i] == old(mem[i])
  {
    ghost var dst := mem[d..d + |ap|];
    ghost var src := Masked(cnd, ap);
    var n := |ap|;
    cy := 0;
    var i := 0;
    while i < n
      invariant 0 <= i <= n && cy == Carry(dst, src, 0, base, i)
      invariant forall j | 0 <= j < mem.Length && !InRegion(j, d, i) :: mem[j] == old(mem[j])
      invariant forall j | 0 <= j < i :: mem[d + j] == SumLimb(dst, src, 0, base, j)
    {
      assert mem[d + i] == dst[i];
      var addend := if cnd != 0 then ap[i] else 0;
      var t := mem[d + i] + addend + cy;
      if t >= base {
        mem[d + i] := t - base;
        cy := 1;
      } else {
        mem[d + i] := t;
        cy := 0;
      }
      assert mem[d + i] == SumLimb(dst, src, 0, base, i);
      i := i + 1;
    }
    ChainEnd(mem, d, dst, src, 0, base, cy);
  }
}
