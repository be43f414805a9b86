/**
 * convert.c: ar_ifix64 and ar_iflt64, between IEEE 64 and 64-bit integers.
 */
module Conversions {
  import opened Powers
  import opened Limbs
  import opened Ieee754
  import opened Normalizer
  import opened Numbers
  import opened Words
  import Addition

  // ---- Integer to float ----

  /** The magnitude of a 64-bit integer and whether it is negative. */
  function Magnitude(n: nat, isUnsigned: bool): (bool, nat)
    requires n < MODULUS
  {
    if 2 * n >= MODULUS && !isUnsigned then (true, MODULUS - n) else (false, n)
  }

  /** ar_iflt64 as a function of its arguments. */
  function FloatSpec(f: Format, mode: Mode, n: nat, isUnsigned: bool): (Fp, set<Flag>)
    requires n < MODULUS
  {
    var (neg, m) := Magnitude(n, isUnsigned);
    Norm(f, mode, neg, f.bias + f.P(), 8 * m)
  }

  /** Every signed or unsigned 64-bit integer is correctly rounded. */
  lemma {:induction false} FloatDelivers(f: Format, mode: Mode, n: nat, isUnsigned: bool)
    requires f.Valid() && n < MODULUS && (mode == Nearest || mode == Zero)
    ensures var (neg, m) := Magnitude(n, isUnsigned); var (x, res) := FloatSpec(f, mode, n, isUnsigned);
      Delivers(f, mode, neg, Mul(m, f.UnitsPerOne()), 1, x, res)
  {
    var (neg, m) := Magnitude(n, isUnsigned);
    var e, u := f.bias + f.P(), f.UnitsPerOne();
    MulOne(u);
    MulOne(Mul(m, u));
    MulEight(m, u);
    DivMod2(8 * m, 4 * m, 0);
    assert Encodes(e, 8 * m, Mul(m, u), 1);
    if m == 0 {
      ZeroDelivered(f, mode, neg, e, 0, 1);
    } else {
      NormDelivers(f, mode, neg, e, 8 * m, Mul(m, u), 1);
    }
  }

  // ---- Float to integer ----

  /** Right shifts are cut off where nothing but the sticky bit is left. */
  function FixShift(f: Format, x: Fp): int {
    var shift := f.bias + f.P() - x.expo;
    if shift > f.P() + 3 then f.P() + 3 else shift
  }

  /** Integer part and three rounding bits of the magnitude, the integer part modulo 2^64. */
  function FixRegister(f: Format, x: Fp): (nat, nat) {
    var shift := FixShift(f, x);
    if shift < 0 then (LeftShifts(Sig(f, x), -shift), 0)
    else (JamN(8 * Sig(f, x), shift) / 8, JamN(8 * Sig(f, x), shift) % 8)
  }

  /** The rounding decision as coded: the sign has been cleared when it is looked at. */
  predicate FixRoundsUp(mode: Mode, n: nat, r: nat) {
    match mode
    case PlusInfinity => r != 0
    case MinusInfinity => false
    case Zero => false
    case Nearest => r > 4 || (r == 4 && n % 2 == 1)
  }

  /** Round integer part n with rounding bits r, and set sign and flags. */
  function FixFinish(mode: Mode, n: nat, r: nat, neg: bool, overflow: bool): (nat, set<Flag>) {
    var m := Wrap(n + if FixRoundsUp(mode, n, r) then 1 else 0);
    var v := if neg && m < MODULUS then Words.Negative(m) else m;
    (v, FixFlags(overflow, r != 0, 2 * m >= MODULUS, v == 0, neg))
  }

  function FixFlags(overflow: bool, inexact: bool, top: bool, zero: bool, neg: bool): set<Flag> {
    (if overflow then {Overflow} else {})
      + (if inexact then {Inexact} else {})
      + (if top then {Overflow, SemiValid} else {})
      + (if zero then {ZeroResult} else SignFlag(neg))
  }

  /** ar_ifix64 as a function of its arguments. */
  function FixSpec(f: Format, mode: Mode, x: Fp, bitsize: nat): (nat, set<Flag>) {
    if Ieee754.IsZero(x) then (0, {ZeroResult})
    else
      var (n, r) := FixRegister(f, x);
      FixFinish(mode, n, r, x.sign, FixShift(f, x) < f.P() + 1 - bitsize)
  }

  /** Below 2^63 the exponent is small enough for the left shifts to lose nothing. */
  predicate FitsInteger(f: Format, x: Fp) { Finite(f, x) && x.expo < f.bias + 63 }

  /** The formats the conversions are written for: the integers below 2^63 include every
      value that has a fraction. */
  predicate HasFractions(f: Format) { f.Valid() && f.P() <= 60 }

  lemma {:induction false} NearestScaled(m: nat, u: nat, n: nat, k: nat)
    requires NearestMultiple(m, u, n) && k > 0
    ensures NearestMultiple(m, Mul(u, k), Mul(n, k)) && (Mul(m, u) == n <==> Mul(m, Mul(u, k)) == Mul(n, k))
  {
    var d := Dist(m, n, u);
    ScaleDist(m, n, u, k);
    MulTwo(d, k);
    MulLe(2 * d, u, k);
    MulOrder(2 * d, u, k);
    MulOrder(0, d, k);
    MulOne(k);
  }

  /** Magnitude that ar_ifix64 computes before it negates. */
  function FixMagnitude(f: Format, x: Fp): nat {
    var (n, r) := FixRegister(f, x);
    n + if FixRoundsUp(Nearest, n, r) then 1 else 0
  }

  /** Left shifts: the value is a whole number. */
  lemma {:induction false} FixLeft(f: Format, x: Fp)
    requires HasFractions(f) && FitsInteger(f, x) && FixShift(f, x) < 0
    ensures FixRegister(f, x).1 == 0 && 2 * FixRegister(f, x).0 < MODULUS
    ensures Mul(FixRegister(f, x).0, f.UnitsPerOne()) == Units(f, x)
  {
    var k := -FixShift(f, x);
    var n := Mul(Sig(f, x), Pow2(k));
    ShiftedBound(Sig(f, x), f.P() + 1, k);
    LeftShiftsExact(Sig(f, x), k);
    Pow2Add(k, f.bias + f.P() - 1);
    MulAssoc(Sig(f, x), Pow2(k), f.UnitsPerOne());
  }

  lemma {:induction false} ShiftedBound(m: nat, n: nat, k: nat)
    requires m < Pow2(n) && n + k <= 63
    ensures 2 * Mul(m, Pow2(k)) < MODULUS
  {
    MulLt(m, Pow2(n), Pow2(k));
    Pow2Add(n, k);
    Pow2Mono(n + k, 63);
    assert Pow2(64) == 2 * Pow2(63);
    ModulusIsPow2();
  }

  /** Right shifts: the register stands for the value, and rounding it picks the nearest integer. */
  lemma {:induction false} FixRight(f: Format, x: Fp)
    requires HasFractions(f) && FitsInteger(f, x) && 0 <= FixShift(f, x) == f.bias + f.P() - x.expo
    ensures NearestMultiple(FixMagnitude(f, x), f.UnitsPerOne(), Units(f, x))
    ensures FixRegister(f, x).1 != 0 <==> Mul(FixMagnitude(f, x), f.UnitsPerOne()) != Units(f, x)
  {
    var shift, m := FixShift(f, x), Sig(f, x);
    var s := JamN(8 * m, shift);
    JamNStands(8 * m, shift);
    StandsResembles(s, 8 * m, Pow2(shift));
    RoundNearest(s, m, Pow2(shift), false);
    FixMagnitudeIs(f, x);
    Pow2Add(shift, x.expo - 1);
    NearestScaled(Rounded(Nearest, false, s), Pow2(shift), m, Pow2(x.expo - 1));
  }

  lemma {:induction false} FixMagnitudeIs(f: Format, x: Fp)
    requires FixShift(f, x) >= 0
    ensures FixMagnitude(f, x) == Rounded(Nearest, false, JamN(8 * Sig(f, x), FixShift(f, x)))
    ensures FixRegister(f, x).1 == JamN(8 * Sig(f, x), FixShift(f, x)) % 8
  {
  }

  lemma {:induction false} FixBound(f: Format, x: Fp)
    requires HasFractions(f) && FitsInteger(f, x) && 0 <= FixShift(f, x)
    ensures 2 * FixMagnitude(f, x) < MODULUS
  {
    JamNShrinks(8 * Sig(f, x), FixShift(f, x));
    Pow2Mono(f.P() + 1, 61);
    assert Pow2(62) == 2 * Pow2(61) && Pow2(63) == 2 * Pow2(62) && Pow2(64) == 2 * Pow2(63);
    ModulusIsPow2();
  }

  lemma {:induction false} JamNShrinks(s: nat, k: nat)
    ensures JamN(s, k) <= s
  {
    if k > 0 { JamNShrinks(s, k - 1); }
  }

  /** Beyond the last shift only a sticky bit is left and the nearest integer is zero. */
  lemma {:induction false} FixTiny(f: Format, x: Fp)
    requires HasFractions(f) && Finite(f, x) && !Ieee754.IsZero(x) && f.bias + f.P() - x.expo > f.P() + 3
    ensures FixRegister(f, x) == (0, 1) && FixMagnitude(f, x) == 0
    ensures NearestMultiple(0, f.UnitsPerOne(), Units(f, x)) && Units(f, x) > 0
  {
    TinyRegister(f, Sig(f, x));
    TinyValue(f, x);
    Addition.ZeroUnits(f, x);
  }

  lemma {:induction false} TinyRegister(f: Format, m: nat)
    requires f.Valid() && 0 < m < 2 * f.One()
    ensures JamN(8 * m, f.P() + 3) == 1
  {
    var w := Lead(f);
    LeadIsPow2(f);
    MulOne(w);
    JamNValue(8 * m, f.P() + 3, if 8 * m >= w then 1 else 0, if 8 * m >= w then 8 * m - w else 8 * m);
  }

  lemma {:induction false} TinyValue(f: Format, x: Fp)
    requires HasFractions(f) && Finite(f, x) && f.bias + f.P() - x.expo > f.P() + 3
    ensures NearestMultiple(0, f.UnitsPerOne(), Units(f, x))
  {
    var j := Effective(x.expo) - 1;
    MulLt(Sig(f, x), 2 * f.One(), Pow2(j));
    Pow2Add(f.P() + 1, j);
    Pow2Mono(f.P() + 1 + j, f.bias + f.P() - 2);
    MulOne(f.UnitsPerOne());
  }

  // ---- Rounding to an integer ----

  /** Everything ar_ifix64 computes in NEAREST before it sets the sign. */
  lemma {:induction false} FixNearest(f: Format, x: Fp)
    requires HasFractions(f) && FitsInteger(f, x) && !Ieee754.IsZero(x)
    ensures var m := FixMagnitude(f, x);
      && 2 * m < MODULUS && NearestMultiple(m, f.UnitsPerOne(), Units(f, x))
      && (FixRegister(f, x).1 != 0 <==> Mul(m, f.UnitsPerOne()) != Units(f, x))
  {
    var shift := f.bias + f.P() - x.expo;
    if shift < 0 {
      FixLeft(f, x);
      MulOne(f.UnitsPerOne());
    } else if shift <= f.P() + 3 {
      FixRight(f, x);
      FixBound(f, x);
    } else {
      FixTiny(f, x);
      MulOne(f.UnitsPerOne());
    }
  }

  /** The flags of an integer that is smaller than 2^63 in magnitude, but for INEXACT. */
  predicate FixFlagsOf(f: Format, x: Fp, bitsize: nat, v: nat, res: set<Flag>)
    requires v < MODULUS
  {
    && (Overflow in res <==> x.expo >= f.bias + bitsize)
    && (ZeroResult in res <==> v == 0) && (Negative in res <==> Signed(v) < 0)
    && res !! {Underflow, Undefined, SemiValid}
  }

  /** Sign and flags of integer part n with rounding bits r, if the rounded magnitude m is below 2^63. */
  lemma {:induction false} FixedWithFlags(f: Format, mode: Mode, x: Fp, bitsize: nat, n: nat, r: nat, m: nat)
    requires HasFractions(f) && FitsInteger(f, x) && bitsize <= 64 && !Ieee754.IsZero(x) && FixRegister(f, x) == (n, r)
    requires m == n + (if FixRoundsUp(mode, n, r) then 1 else 0) && 2 * m < MODULUS
    ensures var (v, res) := FixSpec(f, mode, x, bitsize);
      && v < MODULUS && Abs(Signed(v)) == m && (if x.sign then Signed(v) <= 0 else Signed(v) >= 0)
      && (Inexact in res <==> r != 0) && FixFlagsOf(f, x, bitsize, v, res)
  {
    hide FixRegister;
    assert m < MODULUS && Wrap(m) == m;
  }

  /**
   * ar_ifix64 in NEAREST, for every value below 2^63 in magnitude: the nearest integer with
   * ties to even under the sign of the value, INEXACT exactly for values with a fraction,
   * and OVERFLOW exactly for values of 2^bitsize or more.
   */
  lemma {:induction false} FixDelivers(f: Format, x: Fp, bitsize: nat)
    requires HasFractions(f) && FitsInteger(f, x) && bitsize <= 64
    ensures var (v, res) := FixSpec(f, Nearest, x, bitsize);
      && v < MODULUS && NearestMultiple(Abs(Signed(v)), f.UnitsPerOne(), Units(f, x))
      && (if x.sign then Signed(v) <= 0 else Signed(v) >= 0)
      && (Inexact in res <==> Mul(Abs(Signed(v)), f.UnitsPerOne()) != Units(f, x))
      && FixFlagsOf(f, x, bitsize, v, res)
  {
    if Ieee754.IsZero(x) {
      MulOne(Scale(0));
      MulOne(f.UnitsPerOne());
    } else {
      FixNearest(f, x);
      FixedWithFlags(f, Nearest, x, bitsize, FixRegister(f, x).0, FixRegister(f, x).1, FixMagnitude(f, x));
    }
  }

  // ---- The other modes ----

  /** The integer part is the largest integer not above the magnitude, and the rounding bits tell
      whether it is the magnitude. */
  lemma {:induction false} FixFloor(f: Format, x: Fp)
    requires HasFractions(f) && FitsInteger(f, x) && !Ieee754.IsZero(x)
    ensures var (n, r) := FixRegister(f, x); var u := f.UnitsPerOne();
      && Mul(n, u) <= Units(f, x) < Mul(n + 1, u) && (r == 0 <==> Mul(n, u) == Units(f, x))
      && 2 * n < MODULUS && (r != 0 ==> 2 * n + 2 < MODULUS)
  {
    var shift, u := f.bias + f.P() - x.expo, f.UnitsPerOne();
    if shift < 0 {
      FixLeft(f, x);
      MulLt(FixRegister(f, x).0, FixRegister(f, x).0 + 1, u);
    } else if shift <= f.P() + 3 {
      FloorRight(f, x, shift);
    } else {
      FixTiny(f, x);
      MulOne(u);
      MulOne(Units(f, x));
      TinyBelowOne(f, x);
    }
  }

  lemma {:induction false} FloorRight(f: Format, x: Fp, shift: nat)
    requires HasFractions(f) && FitsInteger(f, x) && 0 <= FixShift(f, x) == shift == f.bias + f.P() - x.expo
    ensures var (n, r) := FixRegister(f, x); var u := f.UnitsPerOne();
      && Mul(n, u) <= Units(f, x) < Mul(n + 1, u) && (r == 0 <==> Mul(n, u) == Units(f, x)) && 2 * n + 2 < MODULUS
  {
    hide Mul, JamN;
    var m := Sig(f, x);
    var s := JamN(8 * m, shift);
    JamNStands(8 * m, shift);
    StandsResembles(s, 8 * m, Pow2(shift));
    RoundZero(s, m, Pow2(shift));
    Pow2Add(shift, x.expo - 1);
    ScaledFloor(s / 8, Pow2(shift), m, Pow2(x.expo - 1));
    JamNShrinks(8 * m, shift);
    FloorBound(f, s, m);
  }

  lemma {:induction false} ScaledFloor(n: nat, u: nat, m: nat, k: nat)
    requires Mul(n, u) <= m < Mul(n + 1, u) && k > 0
    ensures Mul(n, Mul(u, k)) <= Mul(m, k) < Mul(n + 1, Mul(u, k))
    ensures Mul(n, u) == m <==> Mul(n, Mul(u, k)) == Mul(m, k)
  {
    MulAssoc(n, u, k);
    MulAssoc(n + 1, u, k);
    MulOrder(Mul(n, u), m, k);
    MulOrder(m, Mul(n + 1, u), k);
  }

  lemma {:induction false} FloorBound(f: Format, s: nat, m: nat)
    requires HasFractions(f) && s <= 8 * m && m < 2 * f.One()
    ensures 2 * (s / 8) + 2 < MODULUS
  {
    Pow2Mono(f.P() + 1, 61);
    assert Pow2(62) == 2 * Pow2(61) && Pow2(63) == 2 * Pow2(62) && Pow2(64) == 2 * Pow2(63);
    ModulusIsPow2();
    DivMod8(8 * m, m, 0);
  }

  lemma {:induction false} TinyBelowOne(f: Format, x: Fp)
    requires HasFractions(f) && Finite(f, x) && f.bias + f.P() - x.expo > f.P() + 3
    ensures Units(f, x) < f.UnitsPerOne()
  {
    TinyValue(f, x);
    MulOne(f.UnitsPerOne());
  }

  /** num is a multiple of u. */
  ghost predicate Whole(num: nat, u: nat) { exists k: nat :: Mul(k, u) == num }

  /** m is num/u rounded to an integer in the direction of a mode other than NEAREST, under the sign. */
  predicate DirectedInteger(mode: Mode, sign: bool, m: nat, u: nat, num: nat) {
    if (if sign then mode == MinusInfinity else mode == PlusInfinity) then
      num <= Mul(m, u) && (m > 0 ==> Mul(m - 1, u) < num)
    else Mul(m, u) <= num < Mul(m + 1, u)
  }

  /** The integer part n, or the next one if there is a fraction and the code rounds up, compared
      with what the mode asks for. */
  lemma {:induction false} FloorOrNext(mode: Mode, sign: bool, n: nat, r: nat, m: nat, u: nat, num: nat)
    requires u > 0 && mode != Nearest && m == n + (if FixRoundsUp(mode, n, r) then 1 else 0)
    requires Mul(n, u) <= num < Mul(n + 1, u) && (r == 0 <==> Mul(n, u) == num)
    ensures DirectedInteger(mode, sign, m, u, num) <==> mode == Zero || !sign || r == 0
    ensures Whole(num, u) <==> r == 0
  {
    MulAdd(n, 1, u);
    MulAdd(n + 1, 1, u);
    MulOne(u);
    if n > 0 { MulAdd(n - 1, 1, u); }
    forall k: nat | Mul(k, u) == num
      ensures k == n
    {
      MulOrder(k, n + 1, u);
      MulOrder(n, k + 1, u);
      MulAdd(k, 1, u);
    }
  }

  /** ar_ifix64 in the other modes, for every value below 2^63 in magnitude: right in ZERO, and in
      the directed modes exactly if the value is not negative, as its sign is looked at only
      after it has been cleared, or is a whole number. */
  lemma {:induction false} FixDirected(f: Format, mode: Mode, x: Fp, bitsize: nat)
    requires HasFractions(f) && FitsInteger(f, x) && bitsize <= 64 && mode != Nearest
    ensures var (v, res) := FixSpec(f, mode, x, bitsize); var u := f.UnitsPerOne();
      && v < MODULUS && (if x.sign then Signed(v) <= 0 else Signed(v) >= 0)
      && (DirectedInteger(mode, x.sign, Abs(Signed(v)), u, Units(f, x))
          <==> mode == Zero || !x.sign || Whole(Units(f, x), u))
      && (Inexact in res <==> !Whole(Units(f, x), u)) && FixFlagsOf(f, x, bitsize, v, res)
  {
    hide Mul, Pow2, DirectedInteger, Whole, Units;
    var u := f.UnitsPerOne();
    if Ieee754.IsZero(x) {
      Addition.ZeroUnits(f, x);
      MulOne(u);
      FloorOrNext(mode, x.sign, 0, 0, 0, u, 0);
    } else {
      FixFloor(f, x);
      var (n, r) := FixRegister(f, x);
      var m := n + if FixRoundsUp(mode, n, r) then 1 else 0;
      FloorOrNext(mode, x.sign, n, r, m, u, Units(f, x));
      FixedWithFlags(f, mode, x, bitsize, n, r, m);
    }
  }

  // ---- Large values ----

  /** Left shifts of a word keep the number modulo 2^64. */
  lemma {:induction false} LeftShiftsModulo(n: nat, k: nat) returns (j: nat)
    requires n < MODULUS
    ensures Mul(n, Pow2(k)) == Mul(j, MODULUS) + LeftShifts(n, k) && LeftShifts(n, k) < MODULUS
    decreases k
  {
    MulOne(n);
    MulOne(MODULUS);
    if k == 0 {
      j := 0;
    } else {
      var carry := if 2 * n >= MODULUS then 1 else 0;
      j := LeftShiftsModulo(Wrap(2 * n), k - 1);
      MulTwo(n, Pow2(k - 1));
      CarriedOut(n, carry, j, Pow2(k - 1), LeftShifts(n, k));
      j := j + Mul(carry, Pow2(k - 1));
    }
  }

  lemma {:induction false} CarriedOut(n: nat, carry: nat, j: nat, w: nat, rest: nat)
    requires carry <= 1 && 2 * n >= (if carry == 1 then MODULUS else 0)
    requires Mul(2 * n - (if carry == 1 then MODULUS else 0), w) == Mul(j, MODULUS) + rest
    ensures Mul(2 * n, w) == Mul(j + Mul(carry, w), MODULUS) + rest
  {
    MulOne(w);
    MulAdd(j, Mul(carry, w), MODULUS);
    MulComm(w, MODULUS);
    if carry == 1 { MulSub(2 * n, MODULUS, w); } else { MulOne(MODULUS); }
  }

  /** ar_ifix64 for a value of 2^63 or more in magnitude, in every mode: the value modulo 2^64, and
      OVERFLOW, even for -2^63, which is an integer of 64 bits. Infinities and NaNs are taken for
      numbers of the next exponent. */
  lemma {:induction false} FixLarge(f: Format, mode: Mode, x: Fp, bitsize: nat) returns (j: nat, m: nat)
    requires HasFractions(f) && IsFp(f, x) && x.expo >= f.bias + 63 && bitsize <= 64
    ensures var (v, res) := FixSpec(f, mode, x, bitsize);
      && m < MODULUS && Units(f, x) == Mul(Mul(j, MODULUS) + m, f.UnitsPerOne())
      && v == (if x.sign then Words.Negative(m) else m) && Overflow in res
      && (SemiValid in res <==> 2 * m >= MODULUS) && (ZeroResult in res <==> v == 0)
      && (Negative in res <==> x.sign && v != 0) && res !! {Underflow, Undefined, Inexact}
  {
    hide Mul, Pow2, FixFinish;
    var k := x.expo - f.bias - f.P();
    SmallSignificand(f, x);
    j := LeftShiftsModulo(Sig(f, x), k);
    m := LeftShifts(Sig(f, x), k);
    Pow2Add(k, f.bias + f.P() - 1);
    MulAssoc(Sig(f, x), Pow2(k), f.UnitsPerOne());
    assert FixShift(f, x) == -k && FixRegister(f, x) == (m, 0);
    if x.expo == f.bias + 63 { TopBitSet(f, x, k); }
    FixedWhole(mode, m, x.sign, FixShift(f, x) < f.P() + 1 - bitsize);
  }

  /** An integer part without a fraction, in any mode. */
  lemma {:induction false} FixedWhole(mode: Mode, m: nat, neg: bool, overflow: bool)
    requires m < MODULUS
    ensures var (v, res) := FixFinish(mode, m, 0, neg, overflow);
      && v == (if neg then Words.Negative(m) else m) && (Overflow in res <==> overflow || 2 * m >= MODULUS)
      && (SemiValid in res <==> 2 * m >= MODULUS) && (ZeroResult in res <==> v == 0)
      && (Negative in res <==> neg && v != 0) && res !! {Underflow, Undefined, Inexact}
  {
    assert Wrap(m) == m;
  }

  lemma {:induction false} SmallSignificand(f: Format, x: Fp)
    requires HasFractions(f) && x.coeff < f.One()
    ensures Sig(f, x) < MODULUS
  {
    Pow2Mono(f.P() + 1, 64);
    ModulusIsPow2();
  }

  lemma {:induction false} TopBitSet(f: Format, x: Fp, k: nat)
    requires HasFractions(f) && x.coeff < f.One() && x.expo == f.bias + 63 && k == 63 - f.P()
    ensures 2 * LeftShifts(Sig(f, x), k) >= MODULUS
  {
    Pow2Add(f.P(), k);
    Pow2Add(f.P() + 1, k);
    ModulusIsPow2();
    MulLe(f.One(), Sig(f, x), Pow2(k));
    MulLt(Sig(f, x), 2 * f.One(), Pow2(k));
    assert Pow2(64) == 2 * Pow2(63);
    LeftShiftsExact(Sig(f, x), k);
  }

  // ---- Round trip ----

  /** Numbers of at most P + 1 significant bits are values of the format. */
  lemma {:induction false} Representable(f: Format, n: nat, e: nat) returns (v: Fp)
    requires f.Valid() && n <= 2 * f.One() && e + 2 <= f.MaxExpo()
    ensures Finite(f, v) && Units(f, v) == Mul(n, Pow2(e))
    decreases e
  {
    if e > 0 && n < f.One() {
      MulTwo(n, Pow2(e - 1));
      v := Representable(f, 2 * n, e - 1);
    } else {
      v := Pack(f, false, n, e + 1);
      PackUnits(f, false, n, e + 1);
    }
  }

  /** A number that is a value of the format is rounded to itself. */
  lemma {:induction false} RoundsToItself(f: Format, x: Fp, v: Fp, n: nat)
    requires f.Valid() && NearestEven(f, x, n, 1) && Finite(f, v) && Units(f, v) == n && !RoundsToInfinity(f, n, 1)
    ensures Finite(f, x) && Units(f, x) == n
  {
    MulOne(n);
    MulOne(Units(f, x));
    assert Closer(f, x, v, n, 1);
  }

  lemma {:induction false} SmallIntegerFinite(f: Format, n: nat)
    requires HasFractions(f) && n <= 2 * f.One()
    ensures !RoundsToInfinity(f, Mul(n, f.UnitsPerOne()), 1)
  {
    var u, t, p := f.UnitsPerOne(), TopPlace(f), f.One();
    Pow2Mono(f.bias + f.P() - 1, f.MaxExpo() - 1);
    MulOne(t);
    MulLe(n, 2 * p, u);
    MulTwo(2 * p, u);
    MulLeRight(2 * p, 2 * u, t);
    MulLt(2 * p, 4 * p - 1, t);
  }

  /** The float of a small integer is that integer. */
  lemma {:induction false} FloatExact(f: Format, n: nat)
    requires HasFractions(f) && n < MODULUS && Abs(Signed(n)) <= 2 * f.One()
    ensures var x := FloatSpec(f, Nearest, n, false).0;
      Finite(f, x) && Units(f, x) == Mul(Abs(Signed(n)), f.UnitsPerOne()) && x.sign == (Signed(n) < 0)
  {
    var m := Abs(Signed(n));
    FloatDelivers(f, Nearest, n, false);
    SmallIntegerFinite(f, m);
    var v := Representable(f, m, f.bias + f.P() - 1);
    RoundsToItself(f, FloatSpec(f, Nearest, n, false).0, v, Mul(m, f.UnitsPerOne()));
  }

  lemma {:induction false} SmallFits(f: Format, x: Fp, m: nat)
    requires HasFractions(f) && Finite(f, x) && m <= 2 * f.One() && Units(f, x) == Mul(m, f.UnitsPerOne())
    ensures FitsInteger(f, x)
  {
    var u := f.UnitsPerOne();
    if x.expo >= f.bias + 63 {
      var g := x.expo - f.bias;
      MulLe(f.One(), Sig(f, x), Scale(x.expo));
      Pow2Mono(f.bias + f.P() + 1, x.expo - 1);
      MulLeRight(f.One(), 4 * u, Scale(x.expo));
      MulTwo(f.One(), u);
      MulTwo(2 * f.One(), u);
      MulTwo(f.One(), 2 * u);
      MulLe(m, 2 * f.One(), u);
      MulPositive(f.One(), u);
    }
  }

  /** ar_ifix64 undoes ar_iflt64 for every integer of magnitude at most 2^(P+1), which is 2^53. */
  lemma {:induction false} IntegerRoundTrip(f: Format, n: nat)
    requires HasFractions(f) && n < MODULUS && Abs(Signed(n)) <= 2 * f.One()
    ensures FixSpec(f, Nearest, FloatSpec(f, Nearest, n, false).0, 64).0 == n
  {
    var x, m, u := FloatSpec(f, Nearest, n, false).0, Abs(Signed(n)), f.UnitsPerOne();
    FloatExact(f, n);
    SmallFits(f, x, m);
    FixDelivers(f, x, 64);
    var v := FixSpec(f, Nearest, x, 64).0;
    NearestIsExact(Abs(Signed(v)), m, u);
  }

  lemma {:induction false} NearestIsExact(k: nat, m: nat, u: nat)
    requires NearestMultiple(k, u, Mul(m, u)) && u > 0
    ensures k == m
  {
    if k < m { MulLt(k, m, u); }
    if m < k { MulLt(m, k, u); }
  }

  // ---- The operations on records ----

  /** INT64TOIEEE64: the low P bits are the coefficient, the others become left bits. */
  method CoefficientOf(val: seq<nat>) returns (c: seq<nat>, lbits: nat)
    requires IsWord(val)
    ensures IsRow(IEEE64, c) && Mul(lbits, IEEE64.One()) + Val(c) == Val(val)
  {
    WordBound(val);
    c, lbits := [val[0] % 16, val[1], val[2], val[3]], val[0] / 16;
    Val4(c);
    One64();
    assert Pow2(4) == 16 by { Times16(0); }
    MulIs(lbits, IEEE64.One());
  }

  method MagnitudeWord(fix: seq<nat>, isUnsigned: bool) returns (neg: bool, val: seq<nat>)
    requires IsWord(fix)
    ensures IsWord(val) && Val(fix) < MODULUS && (neg, Val(val)) == Magnitude(Val(fix), isUnsigned)
  {
    WordBound(fix);
    var top := SignBit(fix);
    neg, val := top && !isUnsigned, fix;
    if neg {
      val := NegateWord(fix);
    }
  }

  /** ar_iflt64 */
  method FloatInteger(flt: Number, fix: seq<nat>, isUnsigned: bool, mode: Mode) returns (res: set<Flag>)
    requires flt.f == IEEE64 && IsWord(fix)
    modifies flt
    ensures flt.Valid() && Val(fix) < MODULUS
    ensures (flt.Abs(), res) == FloatSpec(flt.f, mode, Val(fix), isUnsigned)
  {
    hide Norm, Pow2, Mul;
    WordBound(fix);
    var neg, val := MagnitudeWord(fix, isUnsigned);
    var c, lbits := CoefficientOf(val);
    res := PackInteger(flt, c, lbits, neg, mode);
  }

  /** The integer as a coefficient with left bits, at the exponent of its last bit. */
  method PackInteger(flt: Number, c: seq<nat>, lbits: nat, neg: bool, mode: Mode) returns (res: set<Flag>)
    requires flt.f.Valid() && IsRow(flt.f, c)
    modifies flt
    ensures flt.Valid()
    ensures (flt.Abs(), res) == Norm(flt.f, mode, neg, flt.f.bias + flt.f.P(), 8 * (Mul(lbits, flt.f.One()) + Val(c)))
  {
    flt.SetCoeff(neg, 0, c);
    res := Normalize(flt, flt.f.bias + flt.f.P(), lbits, 0, mode);
  }

  /** IEEE64TOINT64 of a coefficient with its leading bit. */
  method WordOf(c: seq<nat>, bit: nat) returns (fix: seq<nat>)
    requires IsRow(IEEE64, c) && bit <= 1
    ensures IsWord(fix) && Val(fix) == (if bit == 1 then IEEE64.One() else 0) + Val(c)
  {
    assert Pow2(4) == 16 by { Times16(0); }
    Pow2Of16();
    fix := [bit * 16 + c[0], c[1], c[2], c[3]];
    Val4(c);
    Val4(fix);
    One64();
  }

  /** The shift loops: left for large values, right with sticky rounding bits for others. */
  method ShiftToInteger(fix0: seq<nat>, shift: int) returns (fix: seq<nat>, rbits: nat)
    requires IsWord(fix0)
    ensures IsWord(fix) && rbits < 8
    ensures shift <= 0 ==> Val(fix) == LeftShifts(Val(fix0), -shift) && rbits == 0
    ensures shift >= 0 ==> Val(fix) * 8 + rbits == JamN(8 * Val(fix0), shift)
  {
    fix, rbits := fix0, 0;
    ghost var n := Val(fix0);
    var k := shift;
    while k < 0
      invariant (shift >= 0 ==> k == shift && fix == fix0) && (shift <= 0 ==> k <= 0)
      invariant IsWord(fix) && (shift <= 0 ==> LeftShifts(Val(fix), -k) == LeftShifts(n, -shift))
    {
      fix := ShiftLeftWord(fix);
      k := k + 1;
    }
    while k > 0
      invariant (shift <= 0 ==> k == 0 && rbits == 0 && Val(fix) == LeftShifts(n, -shift)) && 0 <= k
      invariant IsWord(fix) && rbits < 8
      invariant shift >= 0 ==> k <= shift && Val(fix) * 8 + rbits == JamN(8 * n, shift - k)
    {
      ghost var v, r := Val(fix), rbits;
      var out;
      fix, out := ShiftRightWord(fix);
      rbits := Jam(rbits) + out * 4;
      RightBits(v, r, Val(fix), out);
      k := k - 1;
    }
  }

  lemma {:induction false} RightBits(v: nat, r: nat, v': nat, out: nat)
    requires r < 8 && out <= 1 && v == 2 * v' + out
    ensures Jam(r) < 4 && v' * 8 + (Jam(r) + out * 4) == Jam(v * 8 + r)
  {
    JamOfSum(v, r);
  }

  /** The rounding decision and its increment. */
  method RoundInteger(fix0: seq<nat>, rbits: nat, mode: Mode) returns (fix: seq<nat>)
    requires IsWord(fix0) && rbits < 8
    ensures IsWord(fix) && Val(fix) < MODULUS
    ensures Val(fix) == Wrap(Val(fix0) + if FixRoundsUp(mode, Val(fix0), rbits) then 1 else 0)
  {
    fix := fix0;
    WordBound(fix);
    ParityOfVal(fix);
    var up: bool;
    match mode {
      case PlusInfinity => up := rbits != 0;      // the sign has been cleared by now
      case MinusInfinity => up := false;
      case Zero => up := false;
      case Nearest => up := rbits / 4 != 0 && (rbits % 4 != 0 || fix[3] % 2 != 0);
    }
    if up {
      fix := IncrementWord(fix);
      WordBound(fix);
    }
  }

  /** Integer part and rounding bits of a number that is not zero. */
  method FixBits(flt: Number, shift: int) returns (fix: seq<nat>, rbits: nat)
    requires flt.Valid() && flt.f == IEEE64 && shift == FixShift(IEEE64, flt.Abs())
    ensures IsWord(fix) && rbits < 8 && (Val(fix), rbits) == FixRegister(IEEE64, flt.Abs())
  {
    var m := WordOf(flt.coeff, if flt.expo != 0 then 1 else 0);
    fix, rbits := ShiftToInteger(m, shift);
    if shift >= 0 { DivMod8(Val(fix) * 8 + rbits, Val(fix), rbits); }
  }

  /** Negate a negative result. */
  method ApplySign(fix0: seq<nat>, neg: bool) returns (fix: seq<nat>)
    requires IsWord(fix0)
    ensures IsWord(fix) && Val(fix0) < MODULUS && Val(fix) == if neg then Words.Negative(Val(fix0)) else Val(fix0)
  {
    WordBound(fix0);
    fix := fix0;
    if neg {
      fix := NegateWord(fix);
    }
  }

  method FinishFix(fix0: seq<nat>, rbits: nat, neg: bool, overflow: bool, mode: Mode)
    returns (fix: seq<nat>, res: set<Flag>)
    requires IsWord(fix0) && rbits < 8
    ensures IsWord(fix) && (Val(fix), res) == FixFinish(mode, Val(fix0), rbits, neg, overflow)
  {
    var rounded := RoundInteger(fix0, rbits, mode);
    var top := SignBit(rounded);
    fix := ApplySign(rounded, neg);
    res := FixFlags(overflow, rbits != 0, top, Limbs.IsZero(fix), neg);
  }

  /** ar_ifix64 */
  method FixNumber(flt: Number, bitsize: nat, mode: Mode) returns (fix: seq<nat>, res: set<Flag>)
    requires flt.Valid() && flt.f == IEEE64
    ensures IsWord(fix) && (Val(fix), res) == FixSpec(IEEE64, mode, flt.Abs(), bitsize)
  {
    var shift: int := 1023 + 52 - flt.expo;
    if flt.expo == 0 && flt.IsZeroCoeff() {
      Pow2Of16();
      return Zeros(4), {ZeroResult};
    }
    if shift > 52 + 3 { shift := 52 + 3; }
    var rbits;
    fix, rbits := FixBits(flt, shift);
    fix, res := FinishFix(fix, rbits, flt.sign, shift < 52 + 1 - bitsize, mode);
  }
}
