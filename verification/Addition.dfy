/**
 * ieee_fadd.c: ar_ifadd32, ar_ifadd64, ar_ifsub32 and ar_ifsub64.
 */
module Addition {
  import opened Powers
  import opened Limbs
  import opened Ieee754
  import opened Normalizer
  import opened Numbers

  /** How far the second significand is shifted right to meet the first. */
  function Gap(x: Fp, y: Fp): int { Effective(x.expo) - Effective(y.expo) }

  /** The gap at which y is replaced by a sticky bit. */
  predicate Far(f: Format, x: Fp, y: Fp) { Gap(x, y) > f.P() + 3 }

  /** The significand of y aligned with that of x, in eighths of a last place. */
  function Aligned(f: Format, x: Fp, y: Fp): nat
    requires x.expo >= y.expo
  {
    if Far(f, x, y) then if y.coeff != 0 then 1 else 0
    else JamN(8 * Sig(f, y), Gap(x, y))
  }

  /** A y far below x also loses its sign. */
  predicate AlignedSign(f: Format, x: Fp, y: Fp) { !Far(f, x, y) && y.sign }

  /** Sign and register of the sum of x * 8 and y, the signs being s and t. */
  function SignedSum(s: bool, x: nat, t: bool, y: nat): (bool, nat) {
    if s == t then (s, x + y) else if x >= y then (s, x - y) else (!s, y - x)
  }

  /** Shift right once on a carry, or if two denormalized numbers make a normal one. */
  function ShiftCarry(f: Format, e: nat, s: nat): (nat, nat) {
    if s >= 2 * Lead(f) || (s >= Lead(f) && e == 0) then (if e == 0 then 2 else e + 1, Jam(s)) else (e, s)
  }

  /** The sum of finite operands, x having the larger exponent. */
  function SumFinite(f: Format, mode: Mode, x: Fp, y: Fp): (Fp, set<Flag>)
    requires x.expo >= y.expo
  {
    var t := AlignedSign(f, x, y);
    var (sign, s) := SignedSum(x.sign, 8 * Sig(f, x), t, Aligned(f, x, y));
    var (e, s') := ShiftCarry(f, x.expo, s);
    if s' == 0 then
      (Fp(sign && x.sign == t, 0, 0), SignFlag(sign && x.sign == t) + {ZeroResult})
    else
      Norm(f, mode, sign, e, s')
  }

  function AddOrdered(f: Format, mode: Mode, x: Fp, y: Fp): (Fp, set<Flag>)
    requires x.expo >= y.expo
  {
    if IsNaN(f, x) then (x, {Undefined})
    else if IsNaN(f, y) then (y, {Undefined})
    else if x.expo > f.MaxExpo() then
      if y.expo > f.MaxExpo() && x.sign != y.sign then (QuietNaN(f), {Undefined})
      else (x, SignFlag(x.sign) + {Overflow})
    else
      SumFinite(f, mode, x, y)
  }

  /** ar_ifadd64 as a function of its operands. */
  function AddSpec(f: Format, mode: Mode, a: Fp, b: Fp): (Fp, set<Flag>) {
    if b.expo > a.expo then AddOrdered(f, mode, b, a) else AddOrdered(f, mode, a, b)
  }

  function Negated(b: Fp): Fp { b.(sign := !b.sign) }

  /** ar_ifsub64 as a function of its operands. */
  function SubSpec(f: Format, mode: Mode, a: Fp, b: Fp): (Fp, set<Flag>) {
    if IsNaN(f, a) then (a, {Undefined})
    else if IsNaN(f, b) then (b, {Undefined})
    else AddSpec(f, mode, a, Negated(b))
  }

  // ---- Alignment keeps the sum ----

  lemma {:induction false} StandsAdd(x: nat, b: nat, n: nat, d: nat)
    requires Stands(b, n, d) && x % 2 == 0
    ensures Stands(x + b, Mul(x, d) + n, d)
  {
    MulAdd(x, b, d);
    MulAdd(x, b + 1, d);
    if b > 0 { MulAdd(x, b - 1, d); }
    EvenPlus(x, b);
  }

  lemma {:induction false} EvenPlus(x: nat, b: nat)
    requires x % 2 == 0
    ensures (x + b) % 2 == b % 2
  {
    DivMod2(x + b, x / 2 + b / 2, b % 2);
  }

  lemma {:induction false} EvenMinus(x: nat, b: nat)
    requires x % 2 == 0
    ensures x >= b ==> (x - b) % 2 == b % 2
    ensures b >= x ==> (b - x) % 2 == b % 2
  {
    if x >= b { DivMod2(x - b, x / 2 - b / 2 - b % 2, b % 2); }
    if b >= x { DivMod2(b - x, b / 2 - x / 2, b % 2); }
  }

  /** The difference of an exact register and a sticky one stands for the exact difference. */
  lemma {:induction false} StandsMinus(x: nat, b: nat, n: nat, d: nat)
    requires Stands(b, n, d) && x % 2 == 0 && d > 0
    ensures x >= b ==> Mul(x, d) >= n && Stands(x - b, Mul(x, d) - n, d)
    ensures x < b ==> Mul(x, d) < n && Stands(b - x, n - Mul(x, d), d)
  {
    EvenMinus(x, b);
    if x >= b {
      StandsLess(x, b, n, d);
    } else {
      StandsMore(x, b, n, d);
    }
  }

  lemma {:induction false} StandsLess(x: nat, b: nat, n: nat, d: nat)
    requires Stands(b, n, d) && x % 2 == 0 && x >= b && (x - b) % 2 == b % 2
    ensures Mul(x, d) >= n && Stands(x - b, Mul(x, d) - n, d)
  {
    MulSub(x, b, d);
    if b % 2 == 1 {
      assert x != b;
      MulSub(x, b - 1, d);
      MulSub(x, b + 1, d);
    }
  }

  lemma {:induction false} StandsMore(x: nat, b: nat, n: nat, d: nat)
    requires Stands(b, n, d) && x % 2 == 0 && x < b && (b - x) % 2 == b % 2 && d > 0
    ensures Mul(x, d) < n && Stands(b - x, n - Mul(x, d), d)
  {
    MulSub(b, x, d);
    MulSub(b + 1, x, d);
    MulLt(x, b, d);
    if b % 2 == 1 {
      MulSub(b - 1, x, d);
    }
  }

  lemma {:induction false} ScaleOfGap(x: Fp, y: Fp)
    requires x.expo >= y.expo
    ensures Scale(x.expo) == Mul(Pow2(Gap(x, y)), Scale(y.expo))
  {
    Pow2Add(Gap(x, y), Effective(y.expo) - 1);
  }

  /** Eight times the magnitudes, over the scale of the smaller operand. */
  lemma {:induction false} EightUnits(f: Format, x: Fp, y: Fp)
    requires x.expo >= y.expo
    ensures 8 * Units(f, x) == Mul(Mul(8 * Sig(f, x), Pow2(Gap(x, y))), Scale(y.expo))
    ensures 8 * Units(f, y) == Mul(8 * Sig(f, y), Scale(y.expo))
  {
    ScaleOfGap(x, y);
    MulEight(Sig(f, x), Scale(x.expo));
    MulAssoc(8 * Sig(f, x), Pow2(Gap(x, y)), Scale(y.expo));
    MulEight(Sig(f, y), Scale(y.expo));
  }

  /** Sum and difference of the aligned registers stand for the exact ones. */
  lemma {:induction false} AlignedStands(f: Format, x: Fp, y: Fp)
    requires x.expo >= y.expo && !Far(f, x, y)
    ensures var X, B, u := 8 * Sig(f, x), Aligned(f, x, y), Scale(x.expo);
      && Stands(X + B, 8 * (Units(f, x) + Units(f, y)), u)
      && (X >= B ==> Units(f, x) >= Units(f, y) && Stands(X - B, 8 * (Units(f, x) - Units(f, y)), u))
      && (X < B ==> Units(f, x) < Units(f, y) && Stands(B - X, 8 * (Units(f, y) - Units(f, x)), u))
  {
    var X, B, Y := 8 * Sig(f, x), Aligned(f, x, y), 8 * Sig(f, y);
    var d, k := Pow2(Gap(x, y)), Scale(y.expo);
    ScaleOfGap(x, y);
    EightUnits(f, x, y);
    JamNStands(Y, Gap(x, y));
    DivMod2(X, 4 * Sig(f, x), 0);
    ScaledAdd(X, B, Y, d, k, Units(f, x), Units(f, y));
    ScaledMinus(X, B, Y, d, k, Units(f, x), Units(f, y));
  }

  lemma {:induction false} ScaledAdd(x: nat, b: nat, n: nat, d: nat, k: nat, ux: nat, uy: nat)
    requires Stands(b, n, d) && x % 2 == 0 && k > 0
    requires 8 * ux == Mul(Mul(x, d), k) && 8 * uy == Mul(n, k)
    ensures Stands(x + b, 8 * (ux + uy), Mul(d, k))
  {
    StandsAdd(x, b, n, d);
    StandsScale(x + b, Mul(x, d) + n, d, k);
    MulAdd(Mul(x, d), n, k);
  }

  lemma {:induction false} ScaledMinus(x: nat, b: nat, n: nat, d: nat, k: nat, ux: nat, uy: nat)
    requires Stands(b, n, d) && x % 2 == 0 && d > 0 && k > 0
    requires 8 * ux == Mul(Mul(x, d), k) && 8 * uy == Mul(n, k)
    ensures x >= b ==> ux >= uy && Stands(x - b, 8 * (ux - uy), Mul(d, k))
    ensures x < b ==> ux < uy && Stands(b - x, 8 * (uy - ux), Mul(d, k))
  {
    StandsMinus(x, b, n, d);
    if x >= b {
      StandsScale(x - b, Mul(x, d) - n, d, k);
      MulSub(Mul(x, d), n, k);
    } else {
      StandsScale(b - x, n - Mul(x, d), d, k);
      MulSub(n, Mul(x, d), k);
      MulLt(Mul(x, d), n, k);
    }
  }

  /** The exact sum, in units. */
  function Sum(f: Format, a: Fp, b: Fp): int { Value(f, a) + Value(f, b) }

  lemma {:induction false} StandsZero(s: nat, n: nat, d: nat)
    requires Stands(s, n, d) && d > 0
    ensures s == 0 <==> n == 0
  {
    MulOne(d);
    if s > 0 && s % 2 == 0 { MulPositive(s, d); }
  }

  lemma {:induction false} SumStands(f: Format, x: Fp, y: Fp)
    requires x.expo >= y.expo && !Far(f, x, y)
    ensures var (sign, s) := SignedSum(x.sign, 8 * Sig(f, x), y.sign, Aligned(f, x, y));
      && Stands(s, 8 * Abs(Sum(f, x, y)), Scale(x.expo))
      && (s == 0 <==> Sum(f, x, y) == 0) && (Sum(f, x, y) != 0 ==> sign == (Sum(f, x, y) < 0))
  {
    var (sign, s) := SignedSum(x.sign, 8 * Sig(f, x), y.sign, Aligned(f, x, y));
    AlignedStands(f, x, y);
    StandsZero(s, 8 * Abs(Sum(f, x, y)), Scale(x.expo));
  }

  lemma {:induction false} StandsEncodes(e: nat, s: nat, n: nat)
    ensures Encodes(e, s, n, 1) <==> Stands(s, 8 * n, Scale(e))
  {
    MulOne(n);
    MulOne(Scale(e));
  }

  lemma {:induction false} CarryEncodes(f: Format, e: nat, s: nat, n: nat)
    requires f.Valid() && Encodes(e, s, n, 1)
    ensures var (e', s') := ShiftCarry(f, e, s); Encodes(e', s', n, 1) && (s' == 0 <==> s == 0)
  {
    StandsEncodes(e, s, n);
    StandsEncodes(Effective(e), s, n);
    JamEncodes(Effective(e), s, n, 1);
    if s >= Lead(f) { JamPositive(s); }
  }

  lemma {:induction false} JamPositive(s: nat)
    requires s >= 2
    ensures Jam(s) > 0
  {
  }

  // ---- More than one bit cancels only when nothing was lost ----

  lemma {:induction false} AlignedBound(f: Format, x: Fp, y: Fp)
    requires f.Valid() && y.coeff < f.One() && x.expo >= y.expo && !Far(f, x, y)
    ensures Aligned(f, x, y) % 2 == 1 ==> Gap(x, y) >= 2 && 2 * Aligned(f, x, y) <= Lead(f)
  {
    var B, Y, g := Aligned(f, x, y), 8 * Sig(f, y), Gap(x, y);
    JamNStands(Y, g);
    if g <= 1 {
      SmallGap(Sig(f, y), g);
    } else if B % 2 == 1 {
      Pow2Mono(2, g);
      assert Pow2(1) == 2 && Pow2(2) == 4;
      MulLeRight(B - 1, 4, Pow2(g));
      MulComm(B - 1, 4);
      SmallMultiples(B - 1);
      OddBelow(B, f.One());
    }
  }

  lemma {:induction false} OddBelow(b: nat, p: nat)
    requires b % 2 == 1 && 4 * (b - 1) < 16 * p
    ensures 2 * b <= 8 * p
  {
    DivMod2(4 * p, 2 * p, 0);
  }

  lemma {:induction false} SmallGap(m: nat, g: nat)
    requires g <= 1
    ensures JamN(8 * m, g) % 2 == 0
  {
    DivMod2(8 * m, 4 * m, 0);
    DivMod2(4 * m, 2 * m, 0);
    assert JamN(8 * m, 1) == Jam(JamN(8 * m, 0));
  }

  lemma {:induction false} SumSettled(f: Format, x: Fp, y: Fp, s: nat)
    requires f.Valid() && y.coeff < f.One() && x.expo >= y.expo && !Far(f, x, y)
    requires s == 8 * Sig(f, x) + Aligned(f, x, y)
      || s == 8 * Sig(f, x) - Aligned(f, x, y) || s == Aligned(f, x, y) - 8 * Sig(f, x)
    ensures s % 2 == 1 ==> x.expo > 0 && 2 * s >= Lead(f)
  {
    var X, B := 8 * Sig(f, x), Aligned(f, x, y);
    AlignedBound(f, x, y);
    DivMod2(X, 4 * Sig(f, x), 0);
    EvenPlus(X, B);
    EvenMinus(X, B);
  }

  lemma {:induction false} CarrySettled(f: Format, e: nat, s: nat)
    requires f.Valid() && (s % 2 == 1 ==> e > 0 && 2 * s >= Lead(f))
    ensures var (e', s') := ShiftCarry(f, e, s); Settled(f, e', s') && Roomy(f, e', s')
  {
    if s >= 2 * Lead(f) { JamHalves(s, f.One()); }
  }

  lemma {:induction false} JamHalves(s: nat, p: nat)
    requires s >= 16 * p
    ensures Jam(s) >= 8 * p
  {
  }

  // ---- Addition is correctly rounded ----

  /** Sign of an exact sum; two zeros of the same sign keep it, and every other zero sum is
      positive in these modes (section 6.3). */
  predicate SumSign(f: Format, a: Fp, b: Fp) {
    if Sum(f, a, b) == 0 then a.sign && b.sign else Sum(f, a, b) < 0
  }

  lemma {:induction false} SumDelivers(f: Format, mode: Mode, x: Fp, y: Fp)
    requires f.Valid() && Finite(f, x) && Finite(f, y) && x.expo >= y.expo && !Far(f, x, y)
    requires mode == Nearest || mode == Zero
    ensures var (r, res) := SumFinite(f, mode, x, y);
      Delivers(f, mode, SumSign(f, x, y), Abs(Sum(f, x, y)), 1, r, res)
  {
    var n := Abs(Sum(f, x, y));
    var (sign, s) := SignedSum(x.sign, 8 * Sig(f, x), y.sign, Aligned(f, x, y));
    var (e, s') := ShiftCarry(f, x.expo, s);
    SumStands(f, x, y);
    StandsEncodes(x.expo, s, n);
    CarryEncodes(f, x.expo, s, n);
    SumSettled(f, x, y, s);
    CarrySettled(f, x.expo, s);
    if s' == 0 {
      ZeroDelivered(f, mode, SumSign(f, x, y), e, n, 1);
    } else {
      NormDelivers(f, mode, sign, e, s', n, 1);
    }
  }

  // ---- Operands too far apart to be aligned ----

  lemma {:induction false} NormOneUp(f: Format, mode: Mode, sign: bool, e: nat)
    requires f.Valid() && e >= 2
    ensures Norm(f, mode, sign, e, Lead(f) - 1) == Finish(f, mode, sign, e - 1, 2 * Lead(f) - 1)
  {
    DivMod2(8 * f.One() - 1, 4 * f.One() - 1, 1);
    assert ShiftUp(f, e, Lead(f) - 1) == ShiftUp(f, e - 1, 2 * Lead(f) - 1);
    NormDirect(f, mode, sign, e - 1, 2 * Lead(f) - 1);
  }

  /** Registers within an eighth of a normal significand all round to it. */
  lemma {:induction false} CloseBy(f: Format, sign: bool, x: Fp, s: nat)
    requires f.Valid() && Finite(f, x) && x.expo >= 2
    requires 8 * Sig(f, x) - 1 <= s <= 8 * Sig(f, x) + 1
    ensures Norm(f, Nearest, sign, x.expo, s)
         == (Fp(sign, x.expo, x.coeff), SignFlag(sign) + if s == 8 * Sig(f, x) then {} else {Inexact})
  {
    var X, p := Sig(f, x), f.One();
    if s == 8 * p - 1 {
      NormOneUp(f, Nearest, sign, x.expo);
      DivMod8(2 * Lead(f) - 1, 2 * p - 1, 7);
      assert Rounded(Nearest, sign, 2 * Lead(f) - 1) == 2 * p;
      DivMod2(2 * p, p, 0);
      PackageFinite(f, sign, x.expo, p, 3);
    } else {
      NormDirect(f, Nearest, sign, x.expo, s);
      if s >= 8 * X { DivMod8(s, X, s - 8 * X); } else { DivMod8(s, X - 1, 7); }
      assert Rounded(Nearest, sign, s) == X;
      PackageFinite(f, sign, x.expo, X, s % 8);
    }
  }

  lemma {:induction false} PackageFinite(f: Format, sign: bool, e: nat, m: nat, r: nat)
    requires m >= f.One() && e <= f.MaxExpo()
    ensures Package(f, sign, e, m, r) == (Fp(sign, e, m - f.One()), SignFlag(sign) + if r == 0 then {} else {Inexact})
  {
    assert SignFlag(sign) + {} == SignFlag(sign);
  }

  lemma {:induction false} FarBelow(f: Format, x: Fp, y: Fp)
    requires f.Valid() && y.coeff < f.One() && x.expo >= y.expo && Far(f, x, y)
    ensures 8 * Units(f, y) < Scale(x.expo) <= Units(f, x)
  {
    var g, k := Gap(x, y), Scale(y.expo);
    ScaleOfGap(x, y);
    EightUnits(f, x, y);
    assert Pow2(f.P() + 4) == 16 * f.One() by { Times16(f.P()); }
    Pow2Mono(f.P() + 4, g);
    MulLt(8 * Sig(f, y), Pow2(g), k);
    MulPositive(Sig(f, x), Scale(x.expo));
  }

  /** The register of the exact sum: x and a sticky bit on the side of y. */
  function FarRegister(f: Format, x: Fp, y: Fp): nat
    requires Sig(f, x) > 0
  {
    if Ieee754.IsZero(y) then 8 * Sig(f, x) else if x.sign == y.sign then 8 * Sig(f, x) + 1 else 8 * Sig(f, x) - 1
  }

  lemma {:induction false} FarEncodes(f: Format, x: Fp, y: Fp)
    requires f.Valid() && Finite(f, x) && Finite(f, y) && x.expo >= y.expo && Far(f, x, y)
    ensures Encodes(x.expo, FarRegister(f, x, y), Abs(Sum(f, x, y)), 1)
    ensures Sum(f, x, y) != 0 && x.sign == (Sum(f, x, y) < 0)
  {
    FarBelow(f, x, y);
    StandsEncodes(x.expo, FarRegister(f, x, y), Abs(Sum(f, x, y)));
    ZeroUnits(f, y);
    BesideStands(Sig(f, x), Scale(x.expo), Units(f, x), Units(f, y));
  }

  lemma {:induction false} ZeroUnits(f: Format, y: Fp)
    ensures Ieee754.IsZero(y) <==> Units(f, y) == 0
  {
    MulOne(Scale(y.expo));
    if !Ieee754.IsZero(y) { MulPositive(Sig(f, y), Scale(y.expo)); }
  }

  lemma {:induction false} BesideStands(X: nat, u: nat, n: nat, m: nat)
    requires X > 0 && n == Mul(X, u) && 8 * m < u
    ensures m == 0 ==> Stands(8 * X, 8 * n, u)
    ensures m > 0 ==> Stands(8 * X + 1, 8 * (n + m), u)
    ensures m > 0 ==> n >= m && Stands(8 * X - 1, 8 * (n - m), u)
  {
    MulEight(X, u);
    MulAdd(8 * X, 2, u);
    MulSub(8 * X, 2, u);
    SmallMultiples(u);
    MulPositive(X, u);
    DivMod2(8 * X, 4 * X, 0);
    DivMod2(8 * X + 1, 4 * X, 1);
    DivMod2(8 * X - 1, 4 * X - 1, 1);
  }

  /** In NEAREST a far smaller operand leaves the larger one as it is, which is right;
      INEXACT looks at the explicit coefficient only. */
  lemma {:induction false} FarNearest(f: Format, x: Fp, y: Fp)
    requires f.Valid() && Finite(f, x) && Finite(f, y) && x.expo >= y.expo && Far(f, x, y)
    ensures SumFinite(f, Nearest, x, y) == (x, SignFlag(x.sign) + if y.coeff != 0 then {Inexact} else {})
    ensures NearestEven(f, x, Abs(Sum(f, x, y)), 1) && x.sign == SumSign(f, x, y)
    ensures Units(f, x) == Abs(Sum(f, x, y)) <==> Ieee754.IsZero(y)
  {
    var s := FarRegister(f, x, y);
    FarEncodes(f, x, y);
    FarBelow(f, x, y);
    CloseBy(f, x.sign, x, s);
    NormDelivers(f, Nearest, x.sign, x.expo, s, Abs(Sum(f, x, y)), 1);
    var (sign, t) := SignedSum(x.sign, 8 * Sig(f, x), false, Aligned(f, x, y));
    assert ShiftCarry(f, x.expo, t) == (x.expo, t);
    CloseBy(f, x.sign, x, t);
    ZeroUnits(f, y);
  }

  /** In ZERO the lost sign matters: truncation stops at x unless the register is below it. */
  lemma {:induction false} FarTruncated(f: Format, sign: bool, x: Fp, s: nat)
    requires f.Valid() && Finite(f, x) && x.expo >= 2
    requires 8 * Sig(f, x) - 1 <= s <= 8 * Sig(f, x) + 1
    ensures var (r, res) := Norm(f, Zero, sign, x.expo, s);
      && Finite(f, r) && (r == Fp(sign, x.expo, x.coeff) <==> s >= 8 * Sig(f, x))
      && (Inexact in res <==> s != 8 * Sig(f, x))
    ensures s < 8 * Sig(f, x) ==> Norm(f, Zero, sign, x.expo, s).0 == Norm(f, Zero, sign, x.expo, 8 * Sig(f, x) - 1).0
  {
    hide Norm;
    var X, p := Sig(f, x), f.One();
    if s == 8 * p - 1 {
      NormOneUp(f, Zero, sign, x.expo);
      DivMod8(16 * p - 1, 2 * p - 1, 7);
    } else {
      NormDirect(f, Zero, sign, x.expo, s);
      if s >= 8 * X { DivMod8(s, X, s - 8 * X); } else { DivMod8(s, X - 1, 7); }
    }
  }

  /** No finite number is the sum of operands that far apart. */
  lemma {:induction false} FarMissed(f: Format, x: Fp, y: Fp, v: Fp)
    requires f.Valid() && Finite(f, x) && Finite(f, y) && x.expo >= y.expo && Far(f, x, y)
    requires !Ieee754.IsZero(y) && Finite(f, v)
    ensures Units(f, v) != Abs(Sum(f, x, y))
  {
    var n := Abs(Sum(f, x, y));
    FarNearest(f, x, y);
    MulOne(Units(f, x));
    MulOne(Units(f, v));
    assert Closer(f, x, v, n, 1);
  }

  /** Exactly when truncation is right for operands that far apart: the smaller one must
      not have its sign or its implicit bit ignored; INEXACT is right unless it is only
      an implicit bit. */
  lemma {:induction false} FarZero(f: Format, x: Fp, y: Fp)
    requires f.Valid() && Finite(f, x) && Finite(f, y) && x.expo >= y.expo && Far(f, x, y)
    ensures Truncated(f, SumFinite(f, Zero, x, y).0, Abs(Sum(f, x, y)), 1)
       <==> if y.coeff != 0 then !y.sign else y.expo == 0 || x.sign == y.sign
    ensures var (r, res) := SumFinite(f, Zero, x, y);
      ReportsInexact(f, Abs(Sum(f, x, y)), 1, r, res) <==> y.coeff != 0 || y.expo == 0
  {
    var s, n := FarRegister(f, x, y), Abs(Sum(f, x, y));
    var (sign, t) := SignedSum(x.sign, 8 * Sig(f, x), false, Aligned(f, x, y));
    assert ShiftCarry(f, x.expo, t) == (x.expo, t);
    FarEncodes(f, x, y);
    NormDelivers(f, Zero, x.sign, x.expo, s, n, 1);
    FarTruncated(f, x.sign, x, s);
    FarTruncated(f, x.sign, x, t);
    var right, r := Norm(f, Zero, x.sign, x.expo, s).0, SumFinite(f, Zero, x, y).0;
    if Truncated(f, r, n, 1) { TruncatedUnique(f, r, right, n, 1); }
    MulOne(Units(f, r));
    if Ieee754.IsZero(y) { FarNearest(f, x, y); } else { FarMissed(f, x, y, r); }
  }

  // ---- The operations ----

  function Larger(a: Fp, b: Fp): Fp { if b.expo > a.expo then b else a }

  function Smaller(a: Fp, b: Fp): Fp { if b.expo > a.expo then a else b }

  /** A power of two so far below the other operand that its implicit bit is overlooked. */
  predicate Overlooked(f: Format, a: Fp, b: Fp) {
    Far(f, Larger(a, b), Smaller(a, b)) && Smaller(a, b).coeff == 0 && Smaller(a, b).expo > 0
  }

  /**
   * ar_ifadd64 in NEAREST delivers the exact sum of any two finite operands correctly
   * rounded, and reports INEXACT correctly unless the smaller operand is overlooked; in
   * ZERO it does so for all operands near enough to be aligned.
   */
  lemma {:induction false} AddDelivers(f: Format, mode: Mode, a: Fp, b: Fp)
    requires f.Valid() && Finite(f, a) && Finite(f, b)
    requires mode == Nearest || (mode == Zero && !Far(f, Larger(a, b), Smaller(a, b)))
    ensures var (x, res) := AddSpec(f, mode, a, b); var n := Abs(Sum(f, a, b));
      && Rounds(f, mode, SumSign(f, a, b), n, 1, x, res)
      && (ReportsInexact(f, n, 1, x, res) <==> !Overlooked(f, a, b)) && ReportsUnderflow(n, x, res)
  {
    hide SumFinite, Rounds, ReportsInexact;
    OrderedDelivers(f, mode, Larger(a, b), Smaller(a, b));
  }

  lemma {:induction false} OrderedDelivers(f: Format, mode: Mode, x: Fp, y: Fp)
    requires f.Valid() && Finite(f, x) && Finite(f, y) && x.expo >= y.expo
    requires mode == Nearest || (mode == Zero && !Far(f, x, y))
    ensures var (r, res) := SumFinite(f, mode, x, y); var n := Abs(Sum(f, x, y));
      && Rounds(f, mode, SumSign(f, x, y), n, 1, r, res)
      && (ReportsInexact(f, n, 1, r, res) <==> !(Far(f, x, y) && y.coeff == 0 && y.expo > 0))
      && ReportsUnderflow(n, r, res)
  {
    if Far(f, x, y) {
      FarNearest(f, x, y);
      MulOne(Units(f, x));
    } else {
      SumDelivers(f, mode, x, y);
    }
  }

  /** The same for ar_ifsub64 and the exact difference. */
  lemma {:induction false} SubDelivers(f: Format, mode: Mode, a: Fp, b: Fp)
    requires f.Valid() && Finite(f, a) && Finite(f, b)
    requires mode == Nearest || (mode == Zero && !Far(f, Larger(a, b), Smaller(a, b)))
    ensures var (x, res) := SubSpec(f, mode, a, b); var d := Value(f, a) - Value(f, b);
      && Rounds(f, mode, if d == 0 then a.sign && !b.sign else d < 0, Abs(d), 1, x, res)
      && (ReportsInexact(f, Abs(d), 1, x, res) <==> !Overlooked(f, a, b)) && ReportsUnderflow(Abs(d), x, res)
  {
    var nb := Negated(b);
    assert Value(f, nb) == -Value(f, b) && Overlooked(f, a, nb) == Overlooked(f, a, b);
    AddDelivers(f, mode, a, nb);
  }

  // ---- The operations on records ----

  /** Shift the second coefficient right, the sticky bit being kept in the rounding bits. */
  method Align(f: Format, c: seq<nat>, bit: nat, shift: nat) returns (y: seq<nat>, yBit: nat, rbits: nat)
    requires f.Valid() && IsRow(f, c) && bit <= 1
    ensures IsRow(f, y) && yBit <= 1 && rbits < 8
    ensures Register(f, yBit, Val(y), rbits) == JamN(Register(f, bit, Val(c), 0), shift)
  {
    y, yBit, rbits := c, bit, 0;
    ghost var s := Register(f, bit, Val(c), 0);
    var k := 0;
    while k < shift
      invariant k <= shift && IsRow(f, y) && yBit <= 1 && rbits < 8
      invariant Register(f, yBit, Val(y), rbits) == JamN(s, k)
    {
      ghost var v, l, r := Val(y), yBit, rbits;
      var low := LowBitOf(f, y);
      rbits := Jam(rbits) + low * 4;
      y := ShiftRightRow(f, y, yBit);
      yBit := 0;
      DownBits(l, v, r, f.One(), Val(y), rbits);
      k := k + 1;
    }
  }

  lemma {:induction false} SumBits(l: nat, v: nat, yl: nat, y: nat, r: nat, p: nat, c: nat, v': nat)
    requires l <= 1 && yl <= 1 && v < p && y < p && v' < p && v' + Mul(c, p) == v + y
    ensures (Mul((c + l + yl) % 4, p) + v') * 8 + r == (Mul(l, p) + v) * 8 + ((Mul(yl, p) + y) * 8 + r)
  {
    CarryIsBit(c, p, v', v + y);
    SmallMultiples(p);
  }

  lemma {:induction false} CarryIsBit(c: nat, p: nat, v: nat, n: nat)
    requires v + Mul(c, p) == n && n < 2 * p
    ensures c <= 1
  {
    SmallMultiples(p);
    if p > 0 { MulOrder(c, 2, p); }
  }

  /** The complement of the first operand plus the second, with all-ones rounding bits, modulo
      four leading bits: bit 1 of the left bits tells which operand was larger. */
  lemma {:induction false} DifferenceBits(l: nat, v: nat, yl: nat, y: nat, r: nat, p: nat, c: nat, v': nat)
    requires l <= 1 && yl <= 1 && v < p && y < p && v' < p && r < 8
    requires v' + Mul(c, p) == (p - 1 - v) + y + (r + 7) / 8
    ensures var X, B := (Mul(l, p) + v) * 8, (Mul(yl, p) + y) * 8 + r;
      var l', r' := (c + (3 - l) + yl) % 4, (r + 7) % 8;
      && l' < 4 && r' < 8 && (l' >= 2 <==> X >= B)
      && (l' >= 2 ==> (Mul(3 - l', p) + (p - 1 - v')) * 8 + (7 - r') == X - B)
      && (l' < 2 ==> (Mul(l', p) + v') * 8 + r' + 1 == B - X)
  {
    RoundingBitsMinusOne(r);
    CarryIsBit(c, p, v', (p - 1 - v) + y + (r + 7) / 8);
    SmallMultiples(p);
  }

  lemma {:induction false} RoundingBitsMinusOne(r: nat)
    requires r < 8
    ensures (r + 7) / 8 == (if r == 0 then 0 else 1) && (r + 7) % 8 == if r == 0 then 7 else r - 1
  {
  }

  /** The end-around carry adds one to the register. */
  lemma {:induction false} EndAround(l: nat, v: nat, r: nat, p: nat, c: nat, v': nat)
    requires l <= 1 && v < p && v' < p && r < 8 && v' + Mul(c, p) == v + (1 + r) / 8
    ensures (Mul((c + l) % 4, p) + v') * 8 + (1 + r) % 8 == (Mul(l, p) + v) * 8 + r + 1
  {
    CarryIsBit(c, p, v', v + (1 + r) / 8);
    SmallMultiples(p);
  }

  /** Add y to the coefficient of x, or complement, add and recomplement if the signs differ. */
  method AddAligned(x: Number, l: nat, y: seq<nat>, yBit: nat, rbits0: nat, diff: bool)
    returns (lbits: nat, rbits: nat)
    requires x.Valid() && IsRow(x.f, y) && l <= 1 && yBit <= 1 && rbits0 < 8
    modifies x`coeff, x`sign
    ensures x.Valid() && rbits < 8
    ensures (x.sign, Register(x.f, lbits, x.C(), rbits))
         == SignedSum(old(x.sign), Register(x.f, l, old(x.C()), 0), old(x.sign) != diff,
             Register(x.f, yBit, Val(y), rbits0))
  {
    ghost var p, v := x.f.One(), x.C();
    x.CoeffBound();
    Numbers.RowBound(x.f, y);
    if diff {
      lbits, rbits := SubtractAligned(x, l, y, yBit, rbits0, Register(x.f, l, x.C(), 0),
          Register(x.f, yBit, Val(y), rbits0));
    } else {
      var carry := x.AddCoeff(y, 0);
      lbits, rbits := (carry + l + yBit) % 4, rbits0;
      SumBits(l, v, yBit, Val(y), rbits, p, carry, x.C());
    }
  }

  /** Complement the coefficient of x and add y. */
  method ComplementAndAdd(x: Number, l: nat, y: seq<nat>, yBit: nat, rbits0: nat, ghost X: nat, ghost B: nat)
    returns (lbits: nat, rbits: nat)
    requires x.Valid() && IsRow(x.f, y) && l <= 1 && yBit <= 1 && rbits0 < 8
    requires X == Register(x.f, l, x.C(), 0) && B == Register(x.f, yBit, Val(y), rbits0)
    modifies x`coeff
    ensures x.Valid() && x.C() < x.f.One() && lbits < 4 && rbits < 8 && (lbits >= 2 <==> X >= B)
    ensures lbits >= 2 ==> Register(x.f, 3 - lbits, x.f.One() - 1 - x.C(), 7 - rbits) == X - B
    ensures lbits < 2 ==> Register(x.f, lbits, x.C(), rbits) + 1 == B - X
  {
    ghost var v := x.C();
    x.CoeffBound();
    Numbers.RowBound(x.f, y);
    x.Complement();
    var carry := x.AddCoeff(y, (rbits0 + 7) / 8);
    DifferenceBits(l, v, yBit, Val(y), rbits0, x.f.One(), carry, x.C());
    lbits, rbits := (carry + (3 - l) + yBit) % 4, (rbits0 + 7) % 8;
  }

  method SubtractAligned(x: Number, l: nat, y: seq<nat>, yBit: nat, rbits0: nat, ghost X: nat, ghost B: nat)
    returns (lbits: nat, rbits: nat)
    requires x.Valid() && IsRow(x.f, y) && l <= 1 && yBit <= 1 && rbits0 < 8
    requires X == Register(x.f, l, x.C(), 0) && B == Register(x.f, yBit, Val(y), rbits0)
    modifies x`coeff, x`sign
    ensures x.Valid() && rbits < 8
    ensures (x.sign, Register(x.f, lbits, x.C(), rbits)) == SignedSum(old(x.sign), X, !old(x.sign), B)
  {
    lbits, rbits := ComplementAndAdd(x, l, y, yBit, rbits0, X, B);
    lbits, rbits := Recomplement(x, lbits, rbits);
  }

  /** Complement back a positive difference, or carry around and flip the sign of a negative one. */
  method Recomplement(x: Number, l: nat, r: nat) returns (lbits: nat, rbits: nat)
    requires x.Valid() && x.C() < x.f.One() && l < 4 && r < 8
    modifies x`coeff, x`sign
    ensures x.Valid() && rbits < 8 && x.sign == if l >= 2 then old(x.sign) else !old(x.sign)
    ensures l >= 2 ==> Register(x.f, lbits, x.C(), rbits) == Register(x.f, 3 - l, x.f.One() - 1 - old(x.C()), 7 - r)
    ensures l < 2 ==> Register(x.f, lbits, x.C(), rbits) == Register(x.f, l, old(x.C()), r) + 1
  {
    x.CoeffBound();
    if l >= 2 {
      x.Complement();
      lbits, rbits := 3 - l, 7 - r;
    } else {
      ghost var v := x.C();
      x.sign := !x.sign;
      var carry := 1 + r;
      rbits := carry % 8;
      carry := x.Increment(carry / 8);
      lbits := (carry + l) % 4;
      EndAround(l, v, r, x.f.One(), carry, x.C());
    }
  }

  /** One place to the right after a carry, or when two denormalized numbers make a normal one. */
  method CarryRight(x: Number, expo0: nat, lbits0: nat, rbits0: nat) returns (expo: nat, lbits: nat, rbits: nat)
    requires x.Valid() && rbits0 < 8
    modifies x`coeff
    ensures x.Valid() && rbits < 8
    ensures (expo, Register(x.f, lbits, x.C(), rbits))
            == ShiftCarry(x.f, expo0, Register(x.f, lbits0, old(x.C()), rbits0))
  {
    expo, lbits, rbits := expo0, lbits0, rbits0;
    LeadBit(x, lbits, rbits);
    if lbits >= 2 || (lbits != 0 && expo == 0) {
      ghost var v := x.C();
      rbits := Jam(rbits) + x.LowBit() * 4;
      x.ShiftRight(lbits % 2);
      lbits := lbits / 2;
      expo := if expo != 0 then expo + 1 else 2;
      DownBits(lbits0, v, rbits0, x.f.One(), x.C(), rbits);
    }
  }

  /** The coefficient of y aligned, or only its nonzeroness if it lies too far below. */
  method AlignOrDrop(f: Format, y: seq<nat>, ySign: bool, yExpo: nat, xExpo: nat)
    returns (c: seq<nat>, sign: bool, yBit: nat, rbits: nat)
    requires f.Valid() && IsRow(f, y) && xExpo >= yExpo
    ensures IsRow(f, c) && yBit <= 1 && rbits < 8
    ensures forall x: Fp | x.expo == xExpo ::
      && Register(f, yBit, Val(c), rbits) == Aligned(f, x, Fp(ySign, yExpo, Val(y)))
      && sign == AlignedSign(f, x, Fp(ySign, yExpo, Val(y)))
  {
    yBit := if yExpo != 0 then 1 else 0;
    var shift := (xExpo - if xExpo != 0 then 1 else 0) - (yExpo - yBit);
    MulOne(f.One());
    if shift > f.P() + 3 {
      rbits := if !Limbs.IsZero(y) then 1 else 0;
      c, sign, yBit := Zeros(f.low + 1), false, 0;
    } else {
      sign := ySign;
      c, yBit, rbits := Align(f, y, yBit, shift);
    }
  }

  /** Sum of finite operands: x holds the one with the larger exponent, y the other. */
  method AddFinite(x: Number, y: seq<nat>, ySign: bool, yExpo: nat, mode: Mode) returns (res: set<Flag>)
    requires x.Valid() && IsRow(x.f, y) && x.expo >= yExpo && x.expo <= x.f.MaxExpo()
    modifies x
    ensures x.Valid()
    ensures (x.Abs(), res) == SumFinite(x.f, mode, old(x.Abs()), Fp(ySign, yExpo, Val(y)))
  {
    ghost var x0 := x.Abs();
    MulOne(x.f.One());
    var lbits := if x.expo != 0 then 1 else 0;
    var c, sign, yBit, rbits := AlignOrDrop(x.f, y, ySign, yExpo, x.expo);
    var diff := x.sign != sign;
    assert Register(x.f, lbits, x.C(), 0) == 8 * Sig(x.f, x0);
    lbits, rbits := AddAligned(x, lbits, c, yBit, rbits, diff);
    var expo;
    expo, lbits, rbits := CarryRight(x, x.expo, lbits, rbits);
    ghost var s := Register(x.f, lbits, x.C(), rbits);
    LeadBit(x, lbits, rbits);

    // A zero sum has a sign of its own
    if lbits == 0 && x.IsZeroCoeff() && rbits == 0 {
      x.sign := x.sign && !diff;
      x.expo := 0;
      return SignFlag(x.sign) + {ZeroResult};
    }
    res := Normalize(x, expo, lbits, rbits, mode);
  }

  /** NaN operands and infinities, before any arithmetic. */
  method AddSpecial(x: Number, y: seq<nat>, ySign: bool, yExpo: nat) returns (res: set<Flag>)
    requires x.Valid() && IsRow(x.f, y) && x.expo >= yExpo && x.f.MaxExpo() < x.expo
    modifies x
    ensures x.Valid()
    ensures forall mode :: (x.Abs(), res) == AddOrdered(x.f, mode, old(x.Abs()), Fp(ySign, yExpo, Val(y)))
  {
    if x.IsNaNNumber() {
      return {Undefined};
    }
    if yExpo > x.f.MaxExpo() && !Limbs.IsZero(y) {
      x.SetCoeff(ySign, yExpo, y);
      return {Undefined};
    }
    if yExpo > x.f.MaxExpo() && x.sign != ySign {
      x.SetQuietNaN();
      return {Undefined};
    }
    return SignFlag(x.sign) + {Overflow};
  }

  /** ar_ifadd32, ar_ifadd64. The result may be the same object as an operand. */
  method Add(x: Number, a: Number, b: Number, mode: Mode) returns (res: set<Flag>)
    requires x.Valid() && a.Valid() && b.Valid() && a.f == x.f && b.f == x.f
    modifies x
    ensures x.Valid()
    ensures (x.Abs(), res) == AddSpec(x.f, mode, old(a.Abs()), old(b.Abs()))
  {
    // The operand with the larger exponent comes first
    var y, ySign, yExpo;
    if b.expo > a.expo {
      y, ySign, yExpo := a.coeff, a.sign, a.expo;
      x.Assign(b);
    } else {
      y, ySign, yExpo := b.coeff, b.sign, b.expo;
      x.Assign(a);
    }
    if x.expo > x.f.MaxExpo() {
      res := AddSpecial(x, y, ySign, yExpo);
    } else {
      res := AddFinite(x, y, ySign, yExpo, mode);
    }
  }

  /** ar_ifsub32, ar_ifsub64 */
  method Subtract(x: Number, a: Number, b: Number, mode: Mode) returns (res: set<Flag>)
    requires x.Valid() && a.Valid() && b.Valid() && a.f == x.f && b.f == x.f
    modifies x
    ensures x.Valid()
    ensures (x.Abs(), res) == SubSpec(x.f, mode, old(a.Abs()), old(b.Abs()))
  {
    if a.IsNaNNumber() {
      x.Assign(a);
      return {Undefined};
    }
    if b.IsNaNNumber() {
      x.Assign(b);
      return {Undefined};
    }
    var nb := new Number(b.f);
    nb.Assign(b);
    nb.sign := !nb.sign;
    res := Add(x, a, nb, mode);
  }
}
