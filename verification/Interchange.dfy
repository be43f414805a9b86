/**
 * convert.c: ar_ctoi64 and ar_itoc64, between Cray and IEEE numbers of 64 bits.
 */
module Interchange {
  import opened Powers
  import opened Limbs
  import opened Ieee754
  import opened Normalizer
  import opened Numbers
  import opened CrayAddition
  import Words
  import Conversions
  import Directed
  import Multiply
  import Narrowing

  /** IEEE format f has the longer coefficient and Cray format g the larger exponent range: an
      IEEE number times 2^P still is in range. */
  predicate Wider(f: Format, g: CrayFormat) {
    && Conversions.HasFractions(f) && g.Valid() && 16 <= g.Bits() < f.P()
    && g.least + f.bias + 2 * f.P() <= g.bias && g.bias + f.bias + f.P() + 2 <= g.most
  }

  /** The difference of the exponents of one number in the two formats. */
  function Lift(f: Format, g: CrayFormat): nat
    requires Wider(f, g)
  {
    g.bias - f.bias
  }

  /** Bits of an IEEE significand that a Cray coefficient has no room for. */
  function Excess(f: Format, g: CrayFormat): nat
    requires Wider(f, g)
  {
    f.P() + 1 - g.Bits()
  }

  /** A Cray unit is 2^-Depth IEEE units. */
  function Depth(f: Format, g: CrayFormat): nat
    requires Wider(f, g)
  {
    Lift(f, g) + g.Bits() - f.P()
  }

  // ---- Cray to IEEE ----

  /** ar_ctoi64 as a function of its operand. */
  function ToIeeeSpec(f: Format, g: CrayFormat, x: CrayFp): (Fp, set<Flag>)
    requires Wider(f, g)
  {
    if x.expo > g.most then
      (Fp(x.sign, f.MaxExpo() + 1, Pow2(f.P() - 1)), SignFlag(x.sign) + {Overflow})
    else
      Norm(f, Nearest, x.sign, Lowered(x.expo - Lift(f, g) + Excess(f, g)), 8 * x.coeff)
  }

  lemma {:induction false} ToIeeeEncodes(f: Format, g: CrayFormat, x: CrayFp)
    requires Wider(f, g)
    ensures Encodes(Lowered(x.expo - Lift(f, g) + Excess(f, g)), 8 * x.coeff, CrayUnits(x), Pow2(Depth(f, g)))
  {
    var s, e, d := 8 * x.coeff, Lowered(x.expo - Lift(f, g) + Excess(f, g)), Depth(f, g);
    MulOne(s);
    DivMod2(s, 4 * x.coeff, 0);
    assert Stands(s, s, Pow2(0));
    ScaledEncodes(s, s, 0, x.expo, d);
    MulEight(x.coeff, Pow2(x.expo));
    EightTimes(e, s, CrayUnits(x), d);
  }

  /** Only the value of the fraction matters. */
  lemma {:induction false} EightTimes(e: int, s: nat, n: nat, d: nat)
    requires Encodes(e, s, 8 * n, Pow2(d + 3))
    ensures Encodes(e, s, n, Pow2(d))
  {
    var w := Mul(Weight(e), Pow2(d));
    assert Pow2(d + 3) == 8 * Pow2(d) by { assert Pow2(d + 1) == 2 * Pow2(d) && Pow2(d + 2) == 4 * Pow2(d); }
    MulEight(Dilution(e), n);
    MulEight(Weight(e), Pow2(d));
    MulEightOf(8);
    TimesEight(8 * Mul(Dilution(e), n));
    TimesEight(w);
    StandsScale(s, 8 * Mul(Dilution(e), n), w, 8);
  }

  /** Every Cray number in range, normalized or not, becomes the correctly rounded IEEE number. */
  lemma {:induction false} ToIeeeDelivers(f: Format, g: CrayFormat, x: CrayFp)
    requires Wider(f, g) && IsCray(g, x) && x.expo <= g.most
    ensures var (y, res) := ToIeeeSpec(f, g, x);
      Delivers(f, Nearest, x.sign, CrayUnits(x), Pow2(Depth(f, g)), y, res)
  {
    var s, e := 8 * x.coeff, Lowered(x.expo - Lift(f, g) + Excess(f, g));
    ToIeeeEncodes(f, g, x);
    HalfIsHalf(g);
    Pow2Mono(g.Bits(), f.P());
    DivMod2(s, 4 * x.coeff, 0);
    Narrowing.NarrowRoomy(f, e, s);
    if s > 0 {
      NormDelivers(f, Nearest, x.sign, e, s, CrayUnits(x), Pow2(Depth(f, g)));
    } else {
      ZeroDelivered(f, Nearest, x.sign, e, CrayUnits(x), Pow2(Depth(f, g)));
    }
  }

  // ---- IEEE to Cray ----

  /** The significand of a normal number, rounded to Cray precision by ar_ifix64. */
  function RoundedCoeff(f: Format, g: CrayFormat, mode: Mode, v: Fp): nat
    requires Wider(f, g)
  {
    Conversions.FixSpec(f, mode, Fp(false, f.bias + g.Bits() - 1, v.coeff), f.P()).0
  }

  /** A significand v and the exponent e it is to have become a Cray number. */
  function PackCray(f: Format, g: CrayFormat, mode: Mode, sign: bool, v: Fp, e: nat): (CrayFp, set<Flag>)
    requires Wider(f, g)
  {
    var n := RoundedCoeff(f, g, mode, v);
    var (e', c) := Carried(g, e, n);
    CrayAddition.AddSpec(g, CrayFp(sign, e', c), CRAY_ZERO)
  }

  /** 2^P */
  function Raise(f: Format): Fp { Fp(false, f.bias + f.P(), 0) }

  /** The magnitude that a denormalized number is multiplied to. */
  function Raised(f: Format, mode: Mode, c: nat): Fp
    requires f.Valid()
  {
    Multiply.MulSpec(f, mode, Fp(false, 0, c), Raise(f)).0
  }

  /** ar_itoc64 as a function of its operand; an infinity leaves the sign of the result as it was. */
  function ToCraySpec(f: Format, g: CrayFormat, mode: Mode, x: Fp, sign: bool): (CrayFp, set<Flag>)
    requires Wider(f, g)
  {
    if x.expo > f.MaxExpo() then
      (CrayFp(sign, g.most + 1, g.Half()), {Overflow})
    else if x.expo > 0 then
      PackCray(f, g, mode, x.sign, x, x.expo + Lift(f, g))
    else
      PackRaised(f, g, mode, x.sign, Raised(f, mode, x.coeff))
  }

  /** The multiplied number is packed with an exponent that undoes the multiplication, but for one. */
  function PackRaised(f: Format, g: CrayFormat, mode: Mode, sign: bool, v: Fp): (CrayFp, set<Flag>)
    requires Wider(f, g)
  {
    if v.expo == 0 then (CRAY_ZERO, {ZeroResult})
    else PackCray(f, g, mode, sign, v, v.expo + 1 + Lift(f, g) - f.P())
  }

  // ---- Nearest Cray numbers ----

  /** The magnitude of r is n units rounded to nearest, ties to even, among all Cray numbers. */
  ghost predicate NearestCray(g: CrayFormat, r: CrayFp, n: nat)
    requires g.limbs > 0
  {
    IsCray(g, r) && forall v :: IsCray(g, v) ==> CloserCray(r, v, n)
  }

  /** r is at least as close to n as v, and even if it is a draw. */
  predicate CloserCray(r: CrayFp, v: CrayFp, n: nat) {
    && Ieee754.Abs(CrayUnits(r) - n) <= Ieee754.Abs(CrayUnits(v) - n)
    && (Ieee754.Abs(CrayUnits(r) - n) == Ieee754.Abs(CrayUnits(v) - n) && CrayUnits(v) != CrayUnits(r)
       ==> r.coeff % 2 == 0)
  }

  /** The nearest multiple m of a last place 2^e is the nearest Cray number. */
  lemma {:induction false} MultipleIsNearest(g: CrayFormat, r: CrayFp, m: nat, e: nat, n: nat)
    requires g.Valid() && IsCray(g, r) && CrayUnits(r) == Mul(m, Pow2(e)) && (m % 2 == 0 ==> r.coeff % 2 == 0)
    requires NearestMultiple(m, Pow2(e), n) && Mul(g.Half(), Pow2(e)) <= n
    ensures NearestCray(g, r, n)
  {
    forall v | IsCray(g, v)
      ensures CloserCray(r, v, n)
    {
      MultipleBeatsCray(g, m, e, v, n);
    }
  }

  lemma {:induction false} MultipleBeatsCray(g: CrayFormat, m: nat, e: nat, v: CrayFp, n: nat)
    requires g.Valid() && IsCray(g, v) && NearestMultiple(m, Pow2(e), n) && Mul(g.Half(), Pow2(e)) <= n
    ensures var d := Ieee754.Abs(Mul(m, Pow2(e)) - n);
      && d <= Ieee754.Abs(CrayUnits(v) - n)
      && (d == Ieee754.Abs(CrayUnits(v) - n) && CrayUnits(v) != Mul(m, Pow2(e)) ==> m % 2 == 0)
  {
    var u := Pow2(e);
    if v.expo >= e {
      var k := Mul(v.coeff, Pow2(v.expo - e));
      Pow2Add(v.expo - e, e);
      MulAssoc(v.coeff, Pow2(v.expo - e), u);
      MultipleBeats(m, k, u, n);
    } else {
      Pow2Mono(v.expo, e);
      MulLt(v.coeff, 2 * g.Half(), Pow2(v.expo));
      MulTwo(g.Half(), Pow2(v.expo));
      MulLeRight(g.Half(), 2 * Pow2(v.expo), u);
      MultipleBeats(m, g.Half(), u, n);
    }
  }

  // ---- Rounding the significand ----

  /** The number whose integer part is the coefficient. */
  function Integral(f: Format, g: CrayFormat, v: Fp): Fp
    requires Wider(f, g)
  {
    Fp(false, f.bias + g.Bits() - 1, v.coeff)
  }

  lemma {:induction false} RegisterInBinade(f: Format, g: CrayFormat, v: Fp)
    requires Wider(f, g) && v.coeff < f.One()
    ensures var s := JamN(8 * (f.One() + v.coeff), Excess(f, g)); 8 * g.Half() <= s <= 16 * g.Half()
  {
    LeadIsPow2(f);
    var b := g.Bits();
    assert Pow2(b) == 2 * g.Half() && Pow2(b + 1) == 2 * Pow2(b) && Pow2(b + 2) == 2 * Pow2(b + 1);
    Narrowing.BinadeKept(8 * (f.One() + v.coeff), Excess(f, g), b + 1);
  }

  /** Rounding bits r of an integer part n: what is left after a possible increment. */
  lemma {:induction false} RoundedBound(mode: Mode, s: nat, h: nat)
    requires 8 * h <= s <= 16 * h
    ensures h <= s / 8 + (if Conversions.FixRoundsUp(mode, s / 8, s % 8) then 1 else 0) <= 2 * h
  {
    DivMod8(16 * h, 2 * h, 0);
  }

  lemma {:induction false} BelowModulus(n: nat, b: nat)
    requires n <= Pow2(b) && b <= 62
    ensures 2 * n < Words.MODULUS
  {
    Pow2Mono(b, 62);
    assert Pow2(63) == 2 * Pow2(62) && Pow2(64) == 2 * Pow2(63);
    Words.ModulusIsPow2();
  }

  /** In every mode the integer has the length of a Cray coefficient, or is one more than the
      largest. */
  lemma {:induction false} RoundedCoeffIs(f: Format, g: CrayFormat, mode: Mode, v: Fp)
    requires Wider(f, g) && v.coeff < f.One()
    ensures var s, n := JamN(8 * (f.One() + v.coeff), Excess(f, g)), RoundedCoeff(f, g, mode, v);
      n == s / 8 + (if Conversions.FixRoundsUp(mode, s / 8, s % 8) then 1 else 0) && g.Half() <= n <= 2 * g.Half()
  {
    var s := JamN(8 * (f.One() + v.coeff), Excess(f, g));
    var w := Integral(f, g, v);
    RegisterInBinade(f, g, v);
    RoundedBound(mode, s, g.Half());
    HalfIsHalf(g);
    assert Conversions.FixShift(f, w) == Excess(f, g) && Sig(f, w) == f.One() + v.coeff;
    BelowModulus(s / 8 + (if Conversions.FixRoundsUp(mode, s / 8, s % 8) then 1 else 0), g.Bits());
    assert Conversions.FixRegister(f, w) == (s / 8, s % 8);
  }

  lemma {:induction false} RoundedCoeffNearest(f: Format, g: CrayFormat, v: Fp)
    requires Wider(f, g) && v.coeff < f.One()
    ensures var n := RoundedCoeff(f, g, Nearest, v);
      g.Half() <= n <= 2 * g.Half() && NearestMultiple(n, Pow2(Excess(f, g)), f.One() + v.coeff)
  {
    RoundedCoeffIs(f, g, Nearest, v);
    JamNNearest(f.One() + v.coeff, Excess(f, g));
  }

  /** k right shifts and the rounding decision find the nearest multiple of 2^k. */
  lemma {:induction false} JamNNearest(m: nat, k: nat)
    ensures var s := JamN(8 * m, k);
      NearestMultiple(s / 8 + (if Conversions.FixRoundsUp(Nearest, s / 8, s % 8) then 1 else 0), Pow2(k), m)
  {
    var s := JamN(8 * m, k);
    JamNStands(8 * m, k);
    StandsResembles(s, 8 * m, Pow2(k));
    RoundNearest(s, m, Pow2(k), false);
  }

  // ---- The packaged number ----

  /** The number that significand and exponent stand for, in Cray units. */
  function Target(f: Format, g: CrayFormat, v: Fp, e: nat): nat
    requires Wider(f, g) && e >= Excess(f, g)
  {
    Mul(f.One() + v.coeff, Pow2(e - Excess(f, g)))
  }

  lemma {:induction false} HalfTarget(f: Format, g: CrayFormat, v: Fp, e: nat)
    requires Wider(f, g) && e >= Excess(f, g)
    ensures Mul(g.Half(), Pow2(e)) <= Target(f, g, v, e)
  {
    var k := Excess(f, g);
    Pow2Add(g.Bits() - 1, e);
    Pow2Add(f.P(), e - k);
    MulLe(f.One(), f.One() + v.coeff, Pow2(e - k));
  }

  /** r is a normalized number in range with the flags res, and the nearest one to n units under
      the sign, off by at most half a last place. */
  ghost predicate DeliversCray(g: CrayFormat, sign: bool, n: nat, r: CrayFp, res: set<Flag>)
    requires g.Valid()
  {
    && Normalized(g, r) && r.sign == sign && g.least <= r.expo <= g.most && res == SignFlag(sign)
    && NearestCray(g, r, n) && 2 * Ieee754.Abs(CrayUnits(r) - n) <= Pow2(r.expo)
  }

  /** The packaged number is in range, and the nearest Cray number to the target. */
  lemma {:induction false} PackDelivers(f: Format, g: CrayFormat, sign: bool, v: Fp, e: nat)
    requires Wider(f, g) && v.coeff < f.One() && g.least + Excess(f, g) <= e < g.most
    ensures var (r, res) := PackCray(f, g, Nearest, sign, v, e);
      DeliversCray(g, sign, Target(f, g, v, e), r, res)
  {
    var m := RoundedCoeff(f, g, Nearest, v);
    var r := PackCray(f, g, Nearest, sign, v, e).0;
    RoundedCoeffNearest(f, g, v);
    TargetNearest(m, f.One() + v.coeff, Excess(f, g), e);
    HalfTarget(f, g, v, e);
    PackedIs(f, g, Nearest, sign, v, e, m);
    Pow2Mono(e, r.expo);
    MultipleIsNearest(g, r, m, e, Target(f, g, v, e));
  }

  /** A nearest multiple, scaled from the excess bits to exponent e. */
  lemma {:induction false} TargetNearest(m: nat, sig: nat, k: nat, e: nat)
    requires NearestMultiple(m, Pow2(k), sig) && e >= k
    ensures NearestMultiple(m, Pow2(e), Mul(sig, Pow2(e - k)))
  {
    Conversions.NearestScaled(m, Pow2(k), sig, Pow2(e - k));
    Pow2Add(k, e - k);
  }

  lemma {:induction false} PackedIs(f: Format, g: CrayFormat, mode: Mode, sign: bool, v: Fp, e: nat, m: nat)
    requires Wider(f, g) && m == RoundedCoeff(f, g, mode, v) && g.Half() <= m <= 2 * g.Half()
             && g.least <= e < g.most
    ensures var (r, res) := PackCray(f, g, mode, sign, v, e);
      && Normalized(g, r) && r.sign == sign && e <= r.expo <= e + 1 && res == SignFlag(sign)
      && CrayUnits(r) == Mul(m, Pow2(e)) && (m % 2 == 0 ==> r.coeff % 2 == 0)
      && (m < 2 * g.Half() ==> r == CrayFp(sign, e, m))
  {
    hide Mul, RoundedCoeff;
    if m < 2 * g.Half() {
      AddZero(g, CrayFp(sign, e, m));
    } else {
      var h := g.Half();
      DivMod2(m, h, 0);
      DivMod2(h, Pow2(g.Bits() - 2), 0);
      AddZero(g, CrayFp(sign, e + 1, h));
      MulTwo(h, Pow2(e));
    }
  }

  // ---- IEEE to Cray is nearest ----

  /** The magnitude of an IEEE number in Cray units. */
  function InCrayUnits(f: Format, g: CrayFormat, x: Fp): nat
    requires Wider(f, g)
  {
    Mul(Units(f, x), Pow2(Depth(f, g)))
  }

  lemma {:induction false} NormalTarget(f: Format, g: CrayFormat, x: Fp)
    requires Wider(f, g) && x.expo > 0
    ensures Target(f, g, x, x.expo + Lift(f, g)) == InCrayUnits(f, g, x)
  {
    MulAssoc(Sig(f, x), Pow2(x.expo - 1), Pow2(Depth(f, g)));
    Pow2Add(x.expo - 1, Depth(f, g));
  }

  /** The product with 2^P needs no rounding. */
  lemma {:induction false} RaisedRegister(f: Format, c: nat)
    requires f.Valid() && f.bias > f.P()
    ensures var a, b := Fp(false, 0, c), Raise(f);
      Multiply.MulRegister(f, a, b) == 8 * c && Settled(f, Multiply.MulExpo(f, a, b), 8 * c)
  {
    MulOne(c);
    EightTimesPow2(c, f.P() - 3);
    MulEight(c, Pow2(f.P() - 3));
    JamNValue(Mul(c, f.One()), f.P() - 3, 8 * c, 0);
    DivMod2(8 * c, 4 * c, 0);
  }

  /** Left shifts that bring the leading bit of c to the front of a significand. */
  lemma {:induction false} ToBinade(f: Format, c: nat, j: nat) returns (k: nat)
    requires 0 < c < Pow2(j + 1) && j <= f.P()
    ensures f.P() - j <= k <= f.P() && f.One() <= Mul(c, Pow2(k)) < 2 * f.One()
    decreases j
  {
    if j > 0 && c < Pow2(j) {
      k := ToBinade(f, c, j - 1);
    } else {
      k := f.P() - j;
      Pow2Add(j, k);
      MulLe(Pow2(j), c, Pow2(k));
      MulLt(c, 2 * Pow2(j), Pow2(k));
      MulTwo(Pow2(j), Pow2(k));
    }
  }

  /** A nonzero denormalized number times 2^P is a normal number: the exact product, and in
      MINUS_INFINITY the number after it. */
  lemma {:induction false} RaisedValue(f: Format, mode: Mode, c: nat)
    requires Conversions.HasFractions(f) && 0 < c < f.One()
    ensures var v := Raised(f, mode, c);
      && Finite(f, v) && v.expo > 0 && Units(f, v) >= Mul(c, f.One())
      && (if mode != MinusInfinity then Units(f, v) == Mul(c, f.One()) else IsNext(f, v, Mul(c, f.One())))
  {
    hide Mul, Norm, Pack;
    var k := ToBinade(f, c, f.P() - 1);
    var m, e := Mul(c, Pow2(k)), 1 + f.P() - k;
    RaisedRegister(f, c);
    MulOne(c);
    MulOne(Pow2(k));
    UpExact(f, e + k, c, k);
    SameNorm(f, mode, false, e + k, e, 8 * c, 8 * m);
    MulTwo(c, Pow2(k - 1));
    DivMod2(m, Mul(c, Pow2(k - 1)), 0);
    RaisedPacked(f, mode, e, m);
    MulAssoc(c, Pow2(k), Pow2(e - 1));
    Pow2Add(k, e - 1);
  }

  /** v is the number after that of n units, which has an even coefficient. */
  predicate IsNext(f: Format, v: Fp, n: nat) {
    v.expo > 0 && v.coeff % 2 == 1 && Units(f, v.(coeff := v.coeff - 1)) == n
  }

  lemma {:induction false} RaisedPacked(f: Format, mode: Mode, e: nat, m: nat)
    requires f.Valid() && f.One() <= m < 2 * f.One() && m % 2 == 0 && 1 <= e < f.MaxExpo()
    ensures var v := Norm(f, mode, false, e, 8 * m).0;
      && Finite(f, v) && v.expo > 0 && Units(f, v) >= Mul(m, Pow2(e - 1))
      && (if mode != MinusInfinity then Units(f, v) == Mul(m, Pow2(e - 1)) else IsNext(f, v, Mul(m, Pow2(e - 1))))
  {
    hide Mul, Pow2;
    OneIsEven(f);
    NormDirect(f, mode, false, e, 8 * m);
    DivMod8(8 * m, m, 0);
    var m' := Rounded(mode, false, 8 * m);
    Directed.FinishPacked(f, mode, false, e, 8 * m, m');
    PackUnits(f, false, m', e);
    MulLe(m, m', Pow2(e - 1));
  }

  /** The exponent given to a denormalized number is one too large. */
  lemma {:induction false} DenormalTarget(f: Format, g: CrayFormat, c: nat, v: Fp)
    requires Wider(f, g) && v.expo > 0 && Units(f, v) >= Mul(c, f.One())
    ensures var t := Target(f, g, v, v.expo + 1 + Lift(f, g) - f.P()); var n := Mul(c, Pow2(Depth(f, g)));
      t >= 2 * n && (Units(f, v) == Mul(c, f.One()) ==> t == 2 * n)
  {
    var d := Depth(f, g) + 1 - f.P();
    MulAssoc(Sig(f, v), Pow2(v.expo - 1), Pow2(d));
    Pow2Add(v.expo - 1, d);
    MulAssoc(c, f.One(), Pow2(d));
    Pow2Add(f.P(), d);
    MulTwo(c, Pow2(Depth(f, g)));
    MulLe(Mul(c, f.One()), Units(f, v), Pow2(d));
  }

  /**
   * ar_itoc64 in NEAREST, for every finite nonzero number: the nearest Cray number, ties to
   * even, to the number itself if it is normal and to twice the number if it is denormalized.
   */
  lemma {:induction false} ToCrayDelivers(f: Format, g: CrayFormat, x: Fp, sign: bool)
    requires Wider(f, g) && Finite(f, x) && !Ieee754.IsZero(x)
    ensures var (r, res) := ToCraySpec(f, g, Nearest, x, sign); var n := InCrayUnits(f, g, x);
      DeliversCray(g, x.sign, if x.expo > 0 then n else 2 * n, r, res)
  {
    hide Mul, Pow2, PackCray, Raised, DeliversCray;
    if x.expo > 0 {
      NormalDelivers(f, g, x);
    } else {
      RaisedValue(f, Nearest, x.coeff);
      RaisedDelivers(f, g, x, Raised(f, Nearest, x.coeff));
    }
  }

  lemma {:induction false} NormalDelivers(f: Format, g: CrayFormat, x: Fp)
    requires Wider(f, g) && x.expo > 0 && Finite(f, x)
    ensures var (r, res) := PackCray(f, g, Nearest, x.sign, x, x.expo + Lift(f, g));
      DeliversCray(g, x.sign, InCrayUnits(f, g, x), r, res)
  {
    hide PackCray, DeliversCray, InCrayUnits;
    NormalTarget(f, g, x);
    PackDelivers(f, g, x.sign, x, x.expo + Lift(f, g));
  }

  lemma {:induction false} RaisedDelivers(f: Format, g: CrayFormat, x: Fp, v: Fp)
    requires Wider(f, g) && x.expo == 0 && v.expo > 0 && Finite(f, v) && Units(f, v) == Mul(x.coeff, f.One())
    ensures var (r, res) := PackRaised(f, g, Nearest, x.sign, v);
      DeliversCray(g, x.sign, 2 * InCrayUnits(f, g, x), r, res)
  {
    var e: nat := v.expo + 1 + Lift(f, g) - f.P();
    RaisedTarget(f, g, x, v, e);
    PackDelivers(f, g, x.sign, v, e);
    assert PackRaised(f, g, Nearest, x.sign, v) == PackCray(f, g, Nearest, x.sign, v, e);
  }

  lemma {:induction false} RaisedTarget(f: Format, g: CrayFormat, x: Fp, v: Fp, e: nat)
    requires Wider(f, g) && x.expo == 0 && v.expo > 0 && Units(f, v) == Mul(x.coeff, f.One())
    requires e == v.expo + 1 + Lift(f, g) - f.P()
    ensures e >= Excess(f, g) && Target(f, g, v, e) == 2 * InCrayUnits(f, g, x)
  {
    DenormalTarget(f, g, x.coeff, v);
    MulOne(x.coeff);
  }

  lemma {:induction false} ToCrayZero(f: Format, g: CrayFormat, mode: Mode, x: Fp, sign: bool)
    requires Wider(f, g) && Ieee754.IsZero(x)
    ensures ToCraySpec(f, g, mode, x, sign) == (CRAY_ZERO, {ZeroResult})
    ensures InCrayUnits(f, g, x) == 0 && NearestCray(g, CRAY_ZERO, 0)
  {
    RaisedRegister(f, 0);
    MulOne(Scale(0));
    MulOne(Pow2(Depth(f, g)));
    MulOne(Pow2(0));
  }

  /** Half of a number that is nearest to 2 * n is nearer to n. */
  lemma {:induction false} DoubledNotNearest(g: CrayFormat, r: CrayFp, n: nat)
    requires g.Valid() && Normalized(g, r) && r.expo > 0 && 2 * Ieee754.Abs(CrayUnits(r) - 2 * n) <= Pow2(r.expo)
    ensures !NearestCray(g, r, n)
  {
    var v := CrayFp(r.sign, r.expo - 1, r.coeff);
    MulTwo(r.coeff, Pow2(v.expo));
    ManyPlaces(g, r);
    assert !CloserCray(r, v, n);
  }

  /** A normalized number is many last places. */
  lemma {:induction false} ManyPlaces(g: CrayFormat, r: CrayFp)
    requires g.Valid() && Normalized(g, r)
    ensures CrayUnits(r) >= 8 * Pow2(r.expo)
  {
    Pow2Mono(3, g.Bits() - 1);
    assert Pow2(3) == 8;
    MulLe(8, r.coeff, Pow2(r.expo));
    MulEightOf(Pow2(r.expo));
  }

  // ---- The other modes ----

  /** r is n units rounded in the direction of a mode other than NEAREST, under the sign, among
      all Cray numbers. */
  ghost predicate DirectedCray(g: CrayFormat, mode: Mode, sign: bool, r: CrayFp, n: nat)
    requires g.limbs > 0
  {
    && IsCray(g, r)
    && if mode == (if sign then MinusInfinity else PlusInfinity)
       then n <= CrayUnits(r) && forall v :: IsCray(g, v) && n <= CrayUnits(v) ==> CrayUnits(r) <= CrayUnits(v)
       else CrayUnits(r) <= n && forall v :: IsCray(g, v) && CrayUnits(v) <= n ==> CrayUnits(v) <= CrayUnits(r)
  }

  /** Some Cray number is n units. */
  ghost predicate CrayAttains(g: CrayFormat, n: nat)
    requires g.limbs > 0
  {
    exists v :: IsCray(g, v) && CrayUnits(v) == n
  }

  /** No Cray number lies between neighbouring multiples of a last place. */
  lemma {:induction false} CrayGap(g: CrayFormat, v: CrayFp, q: nat, e: nat, n: nat)
    requires g.Valid() && IsCray(g, v) && g.Half() <= q && Mul(q, Pow2(e)) <= n < Mul(q + 1, Pow2(e))
    ensures CrayUnits(v) <= n ==> CrayUnits(v) <= Mul(q, Pow2(e))
    ensures n <= CrayUnits(v) && Mul(q, Pow2(e)) < n ==> Mul(q + 1, Pow2(e)) <= CrayUnits(v)
  {
    var u := Pow2(e);
    if v.expo >= e {
      var k := Mul(v.coeff, Pow2(v.expo - e));
      Pow2Add(v.expo - e, e);
      MulAssoc(v.coeff, Pow2(v.expo - e), u);
      if k <= q { MulLe(k, q, u); } else { MulLe(q + 1, k, u); }
    } else {
      Pow2Mono(v.expo + 1, e);
      MulLt(v.coeff, 2 * g.Half(), Pow2(v.expo));
      MulTwo(g.Half(), Pow2(v.expo));
      MulLeRight(g.Half(), 2 * Pow2(v.expo), u);
      MulLe(g.Half(), q, u);
    }
  }

  /** The floor q in last places 2^e, or the next multiple in PLUS_INFINITY, compared with what
      the mode asks for. */
  lemma {:induction false} GapDirected(g: CrayFormat, mode: Mode, sign: bool, r: CrayFp, q: nat, e: nat, n: nat)
    requires g.Valid() && IsCray(g, r) && g.Half() <= q < 2 * g.Half() && mode != Nearest
    requires Mul(q, Pow2(e)) <= n < Mul(q + 1, Pow2(e))
    requires CrayUnits(r) == Mul(if mode == PlusInfinity && Mul(q, Pow2(e)) < n then q + 1 else q, Pow2(e))
    ensures DirectedCray(g, mode, sign, r, n) <==> mode == Zero || !sign || CrayAttains(g, n)
  {
    var exact := Mul(q, Pow2(e)) == n;
    forall v | IsCray(g, v)
      ensures CrayUnits(v) <= n ==> CrayUnits(v) <= Mul(q, Pow2(e))
      ensures n <= CrayUnits(v) && !exact ==> Mul(q + 1, Pow2(e)) <= CrayUnits(v)
    {
      CrayGap(g, v, q, e, n);
    }
    assert CrayAttains(g, n) <==> exact by {
      assert IsCray(g, CrayFp(false, e, q));
      if exact { assert CrayUnits(CrayFp(false, e, q)) == n; }
    }
  }

  /** The integer found by ar_ifix64 is the significand in last places of a Cray coefficient,
      rounded down or, in PLUS_INFINITY, up. */
  lemma {:induction false} RoundedCoeffDirected(f: Format, g: CrayFormat, mode: Mode, v: Fp) returns (q: nat)
    requires Wider(f, g) && v.coeff < f.One() && mode != Nearest
    ensures var (u, m) := (Pow2(Excess(f, g)), f.One() + v.coeff);
      && g.Half() <= q < 2 * g.Half() && Mul(q, u) <= m < Mul(q + 1, u)
      && RoundedCoeff(f, g, mode, v) == if mode == PlusInfinity && Mul(q, u) < m then q + 1 else q
  {
    hide RoundedCoeff, Mul, JamN;
    var k, m := Excess(f, g), f.One() + v.coeff;
    var s := JamN(8 * m, k);
    q := s / 8;
    RoundedCoeffIs(f, g, mode, v);
    RegisterInBinade(f, g, v);
    JamNStands(8 * m, k);
    StandsResembles(s, 8 * m, Pow2(k));
    RoundZero(s, m, Pow2(k));
    RoundedBound(Zero, s, g.Half());
    Pow2Add(g.Bits(), k);
    MulOrder(q, 2 * g.Half(), Pow2(k));
  }

  /** The packaged number, compared with what the mode asks for. */
  lemma {:induction false} PackDirected(f: Format, g: CrayFormat, mode: Mode, sign: bool, v: Fp, e: nat)
    requires Wider(f, g) && v.coeff < f.One() && g.least + Excess(f, g) <= e < g.most && mode != Nearest
    ensures var r, n := PackCray(f, g, mode, sign, v, e).0, Target(f, g, v, e);
      && (DirectedCray(g, mode, sign, r, n) <==> mode == Zero || !sign || CrayAttains(g, n))
      && n < CrayUnits(r) + Pow2(r.expo) && Normalized(g, r) && r.expo > 0
  {
    hide DirectedCray, CrayAttains, RoundedCoeff;
    var r, n, k := PackCray(f, g, mode, sign, v, e).0, Target(f, g, v, e), Excess(f, g);
    var q := RoundedCoeffDirected(f, g, mode, v);
    Conversions.ScaledFloor(q, Pow2(k), f.One() + v.coeff, Pow2(e - k));
    Pow2Add(k, e - k);
    PackedIs(f, g, mode, sign, v, e, RoundedCoeff(f, g, mode, v));
    GapDirected(g, mode, sign, r, q, e, n);
    Pow2Mono(e, r.expo);
    MulAdd(q, 1, Pow2(e));
    MulOne(Pow2(e));
    MulLe(q, q + 1, Pow2(e));
  }

  /** A number that is about twice n is not n rounded in any direction: the number before it lies between. */
  lemma {:induction false} DoubledNotDirected(g: CrayFormat, mode: Mode, sign: bool, r: CrayFp, n: nat)
    requires g.Valid() && Normalized(g, r) && 2 * n < CrayUnits(r) + Pow2(r.expo)
    ensures !DirectedCray(g, mode, sign, r, n)
  {
    var v := CrayFp(r.sign, r.expo, r.coeff - 1);
    ManyPlaces(g, r);
    MulSub(r.coeff, 1, Pow2(r.expo));
    MulOne(Pow2(r.expo));
    assert IsCray(g, v) && n <= CrayUnits(v) < CrayUnits(r);
  }

  lemma {:induction false} ZeroDirected(g: CrayFormat, mode: Mode, sign: bool)
    requires g.Valid()
    ensures DirectedCray(g, mode, sign, CRAY_ZERO, 0)
  {
    MulOne(Pow2(0));
  }

  /** What the rounding mode asks for. */
  ghost predicate CorrectCray(g: CrayFormat, mode: Mode, sign: bool, r: CrayFp, n: nat)
    requires g.limbs > 0
  {
    if mode == Nearest then NearestCray(g, r, n) else DirectedCray(g, mode, sign, r, n)
  }

  /**
   * ar_itoc64 in every mode and for every finite number: the delivered number is the correctly
   * rounded one if and only if the operand is zero, or normal and either not negative, or
   * rounded in NEAREST or ZERO, or a Cray number.
   */
  lemma {:induction false} ToCrayExactly(f: Format, g: CrayFormat, mode: Mode, x: Fp, sign: bool)
    requires Wider(f, g) && Finite(f, x)
    ensures var n := InCrayUnits(f, g, x);
      CorrectCray(g, mode, x.sign, ToCraySpec(f, g, mode, x, sign).0, n)
      <==> x == Fp(x.sign, 0, 0) || (x.expo > 0 && (mode == Nearest || mode == Zero || !x.sign || CrayAttains(g, n)))
  {
    hide Mul, Pow2, PackCray, Raised, InCrayUnits, DirectedCray, NearestCray, CrayAttains;
    var r, n := ToCraySpec(f, g, mode, x, sign).0, InCrayUnits(f, g, x);
    if Ieee754.IsZero(x) {
      ToCrayZero(f, g, mode, x, sign);
      ZeroDirected(g, mode, x.sign);
    } else if mode == Nearest {
      ToCrayDelivers(f, g, x, sign);
      if x.expo == 0 { DoubledNotNearest(g, r, n); }
    } else if x.expo > 0 {
      NormalTarget(f, g, x);
      PackDirected(f, g, mode, x.sign, x, x.expo + Lift(f, g));
    } else {
      RaisedValue(f, mode, x.coeff);
      RaisedDirected(f, g, mode, x, Raised(f, mode, x.coeff));
      DoubledNotDirected(g, mode, x.sign, r, n);
    }
  }

  lemma {:induction false} RaisedDirected(f: Format, g: CrayFormat, mode: Mode, x: Fp, v: Fp)
    requires Wider(f, g) && x.expo == 0 && v.expo > 0 && Finite(f, v) && mode != Nearest
    requires Units(f, v) >= Mul(x.coeff, f.One())
    ensures var r := PackRaised(f, g, mode, x.sign, v).0;
      Normalized(g, r) && 2 * InCrayUnits(f, g, x) < CrayUnits(r) + Pow2(r.expo)
  {
    var e: nat := v.expo + 1 + Lift(f, g) - f.P();
    DenormalTarget(f, g, x.coeff, v);
    MulOne(x.coeff);
    PackDirected(f, g, mode, x.sign, v, e);
    assert PackRaised(f, g, mode, x.sign, v) == PackCray(f, g, mode, x.sign, v, e);
  }

  // ---- Round trip ----

  /** Left shifts of an exact register. */
  lemma {:induction false} UpExact(f: Format, e: nat, m: nat, k: nat)
    requires k < e && Mul(m, Pow2(k)) < 2 * f.One()
    ensures ShiftUp(f, e, 8 * m) == ShiftUp(f, e - k, 8 * Mul(m, Pow2(k)))
    decreases k
  {
    MulOne(m);
    if k > 0 {
      MulTwo(m, Pow2(k - 1));
      MulLeRight(m, 1, Pow2(k - 1));
      DivMod2(8 * m, 4 * m, 0);
      UpExact(f, e - 1, 2 * m, k - 1);
    }
  }

  /** A normalized Cray number with an exponent that fits becomes a normal IEEE number, exactly. */
  lemma {:induction false} ToIeeeExact(f: Format, g: CrayFormat, x: CrayFp)
    requires Wider(f, g) && Normalized(g, x) && 1 <= x.expo - Lift(f, g) <= f.MaxExpo()
    ensures var m := Mul(x.coeff, Pow2(Excess(f, g)));
      && f.One() <= m < 2 * f.One()
      && ToIeeeSpec(f, g, x) == (Fp(x.sign, x.expo - Lift(f, g), m - f.One()), SignFlag(x.sign))
  {
    hide Norm, Mul;
    var k := Excess(f, g);
    FullSignificand(f, g, x.coeff);
    MulOne(x.coeff);
    ShiftedExact(f, x.sign, x.coeff, k, x.expo - Lift(f, g));
  }

  /** A register that is exact after k left shifts. */
  lemma {:induction false} ShiftedExact(f: Format, sign: bool, c: nat, k: nat, e: nat)
    requires f.Valid() && f.One() <= Mul(c, Pow2(k)) < 2 * f.One() && 1 <= e <= f.MaxExpo()
    ensures Norm(f, Nearest, sign, e + k, 8 * c) == (Fp(sign, e, Mul(c, Pow2(k)) - f.One()), SignFlag(sign))
  {
    MulOne(Pow2(k));
    UpExact(f, e + k, c, k);
    SameNorm(f, Nearest, sign, e + k, e, 8 * c, 8 * Mul(c, Pow2(k)));
    Narrowing.NormExact(f, Nearest, sign, e, Mul(c, Pow2(k)));
  }

  lemma {:induction false} FullSignificand(f: Format, g: CrayFormat, c: nat)
    requires Wider(f, g) && g.Half() <= c < 2 * g.Half()
    ensures f.One() <= Mul(c, Pow2(Excess(f, g))) < 2 * f.One()
  {
    var k := Excess(f, g);
    MulLe(g.Half(), c, Pow2(k));
    MulLt(c, 2 * g.Half(), Pow2(k));
    MulTwo(g.Half(), Pow2(k));
    Pow2Add(g.Bits() - 1, k);
  }

  lemma {:induction false} SameNorm(f: Format, mode: Mode, sign: bool, e: nat, e': nat, s: nat, s': nat)
    requires s > 0 && s' > 0 && ShiftUp(f, e, s) == ShiftUp(f, e', s')
    ensures Norm(f, mode, sign, e, s) == Norm(f, mode, sign, e', s')
  {
  }

  lemma {:induction false} RoundTripNormal(f: Format, g: CrayFormat, x: CrayFp, sign: bool)
    requires Wider(f, g) && Normalized(g, x) && 1 <= x.expo - Lift(f, g) <= f.MaxExpo()
    ensures ToCraySpec(f, g, Nearest, ToIeeeSpec(f, g, x).0, sign) == (x, SignFlag(x.sign))
  {
    var m, e := Mul(x.coeff, Pow2(Excess(f, g))), x.expo - Lift(f, g);
    ToIeeeExact(f, g, x);
    PackBack(f, g, x.sign, Fp(x.sign, e, m - f.One()), x.coeff, x.expo);
  }

  /** A significand that is a Cray coefficient already is packed as it is. */
  lemma {:induction false} PackBack(f: Format, g: CrayFormat, sign: bool, v: Fp, c: nat, e: nat)
    requires Wider(f, g) && v.coeff < f.One() && f.One() + v.coeff == Mul(c, Pow2(Excess(f, g)))
    requires g.Half() <= c < 2 * g.Half() && g.least <= e < g.most
    ensures PackCray(f, g, Nearest, sign, v, e) == (CrayFp(sign, e, c), SignFlag(sign))
  {
    var n := RoundedCoeff(f, g, Nearest, v);
    RoundedCoeffNearest(f, g, v);
    Conversions.NearestIsExact(n, c, Pow2(Excess(f, g)));
    PackedIs(f, g, Nearest, sign, v, e, n);
  }

  /** A larger exponent gives infinity. */
  lemma {:induction false} ToIeeeInfinite(f: Format, g: CrayFormat, x: CrayFp)
    requires Wider(f, g) && Normalized(g, x) && x.expo - Lift(f, g) > f.MaxExpo()
    ensures ToIeeeSpec(f, g, x).0.expo > f.MaxExpo()
  {
    if x.expo <= g.most {
      ToIeeeDelivers(f, g, x);
      InfiniteBound(f, g, x);
    }
  }

  lemma {:induction false} InfiniteBound(f: Format, g: CrayFormat, x: CrayFp)
    requires Wider(f, g) && Normalized(g, x) && x.expo - Lift(f, g) > f.MaxExpo()
    ensures RoundsToInfinity(f, CrayUnits(x), Pow2(Depth(f, g)))
  {
    var d := Depth(f, g);
    MulLe(g.Half(), x.coeff, Pow2(x.expo));
    Pow2Add(g.Bits() - 1, x.expo);
    Pow2Mono(f.P() + f.MaxExpo() + d, g.Bits() - 1 + x.expo);
    Pow2Add(f.MaxExpo() - 1, d);
    Pow2Add(f.P(), f.MaxExpo() - 1 + d);
    FourLessOne(f.One(), Mul(TopPlace(f), Pow2(d)));
  }

  /** A smaller exponent gives a denormalized number or zero. */
  lemma {:induction false} ToIeeeDenormal(f: Format, g: CrayFormat, x: CrayFp)
    requires Wider(f, g) && Normalized(g, x) && x.expo <= Lift(f, g)
    ensures var y := ToIeeeSpec(f, g, x).0; y.expo == 0 && y.coeff < f.One()
  {
    var y, d := ToIeeeSpec(f, g, x).0, Depth(f, g);
    var v := Fp(false, 0, f.One() - 1);
    ToIeeeDelivers(f, g, x);
    DenormalBound(f, g, x);
    MulOne(f.One() - 1);
    assert Units(f, v) == f.One() - 1;
    NotInfinite(f, CrayUnits(x), Pow2(d));
    assert Closer(f, y, v, CrayUnits(x), Pow2(d));
    if y.expo > 0 {
      MagnitudeOrder(f, v, y);
      MulLt(f.One() - 1, Units(f, y), Pow2(d));
    }
  }

  lemma {:induction false} DenormalBound(f: Format, g: CrayFormat, x: CrayFp)
    requires Wider(f, g) && IsCray(g, x) && x.expo <= Lift(f, g)
    ensures CrayUnits(x) <= Mul(f.One() - 1, Pow2(Depth(f, g)))
  {
    var e, d, u := Lift(f, g), Depth(f, g), Pow2(Lift(f, g));
    HalfIsHalf(g);
    Pow2Mono(x.expo, e);
    MulLeRight(x.coeff, Pow2(x.expo), u);
    MulLe(x.coeff, Pow2(g.Bits()) - 1, u);
    MulSub(Pow2(g.Bits()), 1, u);
    MulSub(f.One(), 1, Pow2(d));
    MulOne(u);
    MulOne(Pow2(d));
    Pow2Add(g.Bits(), e);
    Pow2Add(f.P(), d);
    Pow2Mono(d, e);
  }

  lemma {:induction false} NotInfinite(f: Format, num: nat, den: nat)
    requires f.Valid() && num <= Mul(f.One() - 1, den) && den > 0
    ensures !RoundsToInfinity(f, num, den)
  {
    var p, t := f.One(), Mul(TopPlace(f), den);
    MulLe(1, TopPlace(f), den);
    MulOne(den);
    MulLeRight(p - 1, den, t);
    MulTwo(p - 1, t);
    MulLt(2 * (p - 1), 4 * p - 1, t);
  }

  /** Twice a denormalized number is a number of the format. */
  lemma {:induction false} TwiceDenormal(f: Format, y: Fp) returns (v: Fp)
    requires f.Valid() && y.expo == 0 && y.coeff < f.One()
    ensures Finite(f, v) && Units(f, v) == 2 * Units(f, y)
  {
    v := Pack(f, false, 2 * y.coeff, 1);
    PackUnits(f, false, 2 * y.coeff, 1);
    MulOne(y.coeff);
    MulOne(2 * y.coeff);
  }

  /** The way back from a denormalized number does not arrive where it started: twice the
      delivered number would have been nearer to the start. */
  lemma {:induction false} RoundTripDenormal(f: Format, g: CrayFormat, x: CrayFp, sign: bool)
    requires Wider(f, g) && Normalized(g, x) && x.expo <= Lift(f, g)
    ensures ToCraySpec(f, g, Nearest, ToIeeeSpec(f, g, x).0, sign).0 != x
  {
    var y, d := ToIeeeSpec(f, g, x).0, Pow2(Depth(f, g));
    ToIeeeDenormal(f, g, x);
    if y.coeff == 0 {
      ToCrayZero(f, g, Nearest, y, sign);
    } else {
      var r, n := ToCraySpec(f, g, Nearest, y, sign).0, InCrayUnits(f, g, y);
      ToIeeeDelivers(f, g, x);
      ToCrayDelivers(f, g, y, sign);
      ManyPlaces(g, r);
      var v := TwiceDenormal(f, y);
      MulTwo(Units(f, y), d);
      assert r == x ==> !Closer(f, y, v, CrayUnits(x), d);
      assert Closer(f, y, v, CrayUnits(x), d);
    }
  }

  /** ar_itoc64 undoes ar_ctoi64 bit for bit, for exactly those normalized numbers in range
      whose exponent fits a normal IEEE number. */
  lemma {:induction false} RoundTrip(f: Format, g: CrayFormat, x: CrayFp, sign: bool)
    requires Wider(f, g) && Normalized(g, x) && x.expo <= g.most
    ensures ToCraySpec(f, g, Nearest, ToIeeeSpec(f, g, x).0, sign).0 == x <==> 1 <= x.expo - Lift(f, g) <= f.MaxExpo()
  {
    if x.expo <= Lift(f, g) {
      RoundTripDenormal(f, g, x, sign);
    } else if x.expo - Lift(f, g) > f.MaxExpo() {
      ToIeeeInfinite(f, g, x);
    } else {
      RoundTripNormal(f, g, x, sign);
    }
  }

  // ---- The operations on records ----

  lemma {:induction false} Wider64()
    ensures Wider(IEEE64, CRAY64)
  {
  }

  /** CRAY64TOINT64 and INT64TOIEEE64: the coefficient in the lower limbs of the longer one. */
  method LongerCoeff(c: seq<nat>) returns (r: seq<nat>)
    requires Cray.IsRow(c, 3)
    ensures IsRow(IEEE64, r) && Val(r) == Val(c)
  {
    Words.Pow2Of16();
    assert Pow2(4) == 16 by { Times16(0); }
    r := [0, c[0], c[1], c[2]];
    Words.Val4(r);
    RowOfThree(c);
  }

  /** The NaN that an out-of-range Cray number becomes. */
  method SetOverflow(to: Number, sign: bool)
    requires to.f == IEEE64
    modifies to
    ensures to.Valid() && to.Abs() == Fp(sign, to.f.MaxExpo() + 1, Pow2(to.f.P() - 1))
  {
    assert Pow2(4) == 16 by { Times16(0); }
    var r := [8, 0, 0, 0];
    Words.Val4(r);
    One64();
    assert IEEE64.One() == 2 * Pow2(IEEE64.P() - 1);
    to.SetCoeff(sign, 2047, r);
  }

  /** ar_ctoi64 */
  method CrayToIeee(to: Number, from: CrayNumber) returns (res: set<Flag>)
    requires to.f == IEEE64 && from.g == CRAY64 && from.Valid()
    modifies to
    ensures to.Valid() && (to.Abs(), res) == ToIeeeSpec(to.f, from.g, from.Abs())
  {
    hide Norm;
    Wider64();
    if from.expo > 24575 {
      SetOverflow(to, from.sign);
      return SignFlag(from.sign) + {Overflow};
    }
    var c := LongerCoeff(from.coeff);
    var expo: int := from.expo + 1023 - 16385 + 52 + 1 - 48;
    if expo <= 0 { expo := expo - 1; }
    res := PackCoeff(to, from.sign, c, expo);
  }

  /** Normalize a coefficient without left and rounding bits. */
  method PackCoeff(to: Number, sign: bool, c: seq<nat>, expo: int) returns (res: set<Flag>)
    requires to.f.Valid() && IsRow(to.f, c)
    modifies to
    ensures to.Valid() && (to.Abs(), res) == Norm(to.f, Nearest, sign, expo, 8 * Val(c))
  {
    to.SetCoeff(sign, 0, c);
    MulOne(to.f.One());
    res := Normalize(to, expo, 0, 0, Nearest);
  }

  /** INT64TOCRAY64, and one right shift if the integer is too long by a bit. */
  method IntegerToCray(fix: seq<nat>, e0: nat, g: CrayFormat) returns (e: nat, c: seq<nat>)
    requires Words.IsWord(fix) && g.limbs == 3 && Val(fix) <= 2 * g.Half()
    ensures Cray.IsRow(c, 3) && (e, Val(c)) == Carried(g, e0, Val(fix))
  {
    Words.WordBound(fix);
    HalfOfThree(g);
    Words.Pow2Of16();
    e, c := e0, [fix[1], fix[2], fix[3]];
    RowOfThree(c);
    if fix[0] % 32768 != 0 {
      HalfIsHalf(g);
      var out;
      c, out := Cray.ShiftRightRow(c, 1, 3);
      DivMod2(Val(fix), Val(c), out);
      e := e + 1;
    }
  }

  /** Round the significand of v, take over the sign and the exponent, and add zero. */
  method PackInto(to: CrayNumber, v: Number, sign: bool, e: nat, mode: Mode) returns (res: set<Flag>)
    requires to.Valid() && to.g == CRAY64 && v.Valid() && v.f == IEEE64 && !v.sign
    modifies to, v
    ensures to.Valid() && (to.Abs(), res) == PackCray(v.f, to.g, mode, sign, old(v.Abs()), e)
  {
    Wider64();
    v.CoeffBound();
    RoundedCoeffIs(v.f, to.g, mode, v.Abs());
    v.expo := 1023 + 48 - 1;
    var fix, _ := Conversions.FixNumber(v, 52, mode);
    var expo, c := IntegerToCray(fix, e, to.g);
    to.Set(sign, expo, c);
    var zero := new CrayNumber(to.g);
    res := CrayAddition.Add(to, to, zero);
  }

  /** Multiply a denormalized number by 2^P. */
  method Raise64(v: Number, mode: Mode)
    requires v.Valid() && v.f == IEEE64 && !v.sign && v.expo == 0
    modifies v
    ensures v.Valid() && !v.sign && v.Abs() == Raised(v.f, mode, old(v.C()))
  {
    v.CoeffBound();
    var fact := new Number(v.f);
    fact.SetCoeff(false, 1023 + 52, Zeros(4));
    ghost var a, b := v.Abs(), fact.Abs();
    NormSign(v.f, mode, false, Multiply.MulExpo(v.f, a, b), Multiply.MulRegister(v.f, a, b));
    var _ := Multiply.Multiply(v, v, fact, mode);
  }

  /** The Cray number for an infinity or a NaN. */
  method SetOutOfRange(to: CrayNumber)
    requires to.g == CRAY64
    modifies to
    ensures to.Valid() && to.Abs() == CrayFp(old(to.sign), to.g.most + 1, to.g.Half())
  {
    HalfOfThree(to.g);
    Words.Pow2Of16();
    to.Set(to.sign, 24576, [32768, 0, 0]);
    RowOfThree(to.coeff);
  }

  /** The multiplied number, or zero if there was nothing to multiply. */
  method PackRaisedInto(to: CrayNumber, v: Number, sign: bool, mode: Mode) returns (res: set<Flag>)
    requires to.Valid() && to.g == CRAY64 && v.Valid() && v.f == IEEE64 && !v.sign && Wider(v.f, to.g)
    modifies to, v
    ensures to.Valid() && (to.Abs(), res) == PackRaised(v.f, to.g, mode, sign, old(v.Abs()))
  {
    if v.expo == 0 {
      to.SetZero();
      res := {ZeroResult};
    } else {
      res := PackInto(to, v, sign, v.expo + 1 + 16385 - 1023 - 52, mode);
    }
  }

  /** A denormalized number: try to normalize it first. */
  method DenormalToCray(to: CrayNumber, v: Number, sign: bool, mode: Mode) returns (res: set<Flag>)
    requires to.Valid() && to.g == CRAY64 && v.Valid() && v.f == IEEE64 && !v.sign && v.expo == 0
    requires Wider(v.f, to.g)
    modifies to, v
    ensures to.Valid() && (to.Abs(), res) == PackRaised(v.f, to.g, mode, sign, Raised(v.f, mode, old(v.C())))
  {
    Raise64(v, mode);
    res := PackRaisedInto(to, v, sign, mode);
  }

  method FiniteToCray(to: CrayNumber, from: Number, mode: Mode) returns (res: set<Flag>)
    requires to.Valid() && to.g == CRAY64 && from.Valid() && from.f == IEEE64 && Wider(from.f, to.g)
    modifies to
    ensures to.Valid()
    ensures (to.Abs(), res)
         == if from.expo > 0
            then PackCray(from.f, to.g, mode, from.sign, Fp(false, from.expo, from.C()),
                          from.expo + Lift(from.f, to.g))
            else PackRaised(from.f, to.g, mode, from.sign, Raised(from.f, mode, from.C()))
  {
    var v := new Number(from.f);
    v.SetCoeff(false, from.expo, from.coeff);
    if v.expo == 0 {
      res := DenormalToCray(to, v, from.sign, mode);
    } else {
      res := PackInto(to, v, from.sign, v.expo + 16385 - 1023, mode);
    }
  }

  /** ar_itoc64 */
  method IeeeToCray(to: CrayNumber, from: Number, mode: Mode) returns (res: set<Flag>)
    requires to.Valid() && to.g == CRAY64 && from.Valid() && from.f == IEEE64
    modifies to
    ensures to.Valid() && (to.Abs(), res) == ToCraySpec(from.f, to.g, mode, from.Abs(), old(to.sign))
  {
    Wider64();
    ghost var x := from.Abs();
    if from.expo > 2046 {
      SetOutOfRange(to);
      res := {Overflow};
    } else {
      res := FiniteToCray(to, from, mode);
    }
    assert from.Abs() == x;
  }
}
