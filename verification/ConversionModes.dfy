/**
 * ar_iflt64 and ar_i64to32 in PLUS_INFINITY and MINUS_INFINITY, and what the conversions between the IEEE
 * formats make of infinities, NaNs and flags.
 */
module ConversionModes {
  import opened Powers
  import opened Ieee754
  import opened Normalizer
  import opened Directed
  import Conversions
  import Narrowing
  import Specials
  import Words

  // ---- Integer to float ----

  /** Sign, flags and class of a converted integer, in every mode: it is zero exactly for zero. */
  lemma {:induction false} FloatClass(f: Format, mode: Mode, n: nat, isUnsigned: bool)
    requires f.Valid() && n < Words.MODULUS
    ensures var (x, res) := Conversions.FloatSpec(f, mode, n, isUnsigned);
      && IsFp(f, x) && !IsNaN(f, x) && FlagsOf(f, x, res, false)
      && (Ieee754.IsZero(x) <==> n == 0) && x.sign == (!isUnsigned && Words.Signed(n) < 0)
  {
    hide Norm, Pow2, Mul;
    var (neg, m) := Conversions.Magnitude(n, isUnsigned);
    var e := f.bias + f.P();
    NormFlags(f, mode, neg, e, 8 * m);
    if m > 0 {
      IntegerEncodes(f, m);
      MulPositive(m, f.UnitsPerOne());
      Specials.WholeUnitsStay(f, mode, neg, e, 8 * m, Mul(m, f.UnitsPerOne()));
    } else {
      Specials.NormOfZero(f, mode, neg, e);
    }
  }

  lemma {:induction false} IntegerEncodes(f: Format, m: nat)
    requires f.Valid()
    ensures var e := f.bias + f.P();
      Encodes(e, 8 * m, Mul(m, f.UnitsPerOne()), 1) && Settled(f, e, 8 * m) && RoomToBump(f, e, 8 * m)
  {
    var u := f.UnitsPerOne();
    MulOne(u);
    MulOne(Mul(m, u));
    MulEight(m, u);
    DivMod2(8 * m, 4 * m, 0);
  }

  /** ar_iflt64 in PLUS_INFINITY and MINUS_INFINITY: right exactly if the direction points away from zero,
      or if the integer is neither a number of the format nor beyond all of them. */
  lemma {:induction false} FloatDirected(f: Format, mode: Mode, n: nat, isUnsigned: bool)
    requires f.Valid() && 0 < n < Words.MODULUS && IsDirected(mode)
    ensures var (x, res) := Conversions.FloatSpec(f, mode, n, isUnsigned);
      var neg := !isUnsigned && Words.Signed(n) < 0;
      var m: nat := if neg then Words.MODULUS - n else n;
      var num := Mul(m, f.UnitsPerOne());
      && (DirectedCorrect(f, mode, neg, x, num, 1)
          <==> Away(mode, neg) || (!Attained(f, num, 1) && !BeyondFormat(f, num, 1)))
      && (ReportsInexact(f, num, 1, x, res)
          <==> !FlagLost(f, Away(mode, neg), Reached(f, f.bias + f.P(), 8 * m).1, num, 1))
  {
    hide Norm, Mul, DirectedCorrect, ReportsInexact, Attained, FlagLost, Encodes, Reached, Pow2;
    var (neg, m) := Conversions.Magnitude(n, isUnsigned);
    IntegerEncodes(f, m);
    DirectedExactly(f, mode, neg, f.bias + f.P(), 8 * m, Mul(m, f.UnitsPerOne()), 1);
  }

  // ---- IEEE 64 to IEEE 32 ----

  /** Class and flags of a narrowed number, in every mode. A NaN stays a NaN with the coefficient bits
      there is room for, or a last place if none of those is set. */
  lemma {:induction false} NarrowClass(f: Format, g: Format, mode: Mode, x: Fp, q: nat, rem: nat)
    requires Narrowing.Wider(f, g) && IsFp(g, x)
    requires var w := Pow2(Narrowing.Dropped(f, g)); x.coeff == Mul(q, w) + rem && rem < w
    ensures var (y, res) := Narrowing.NarrowSpec(f, g, mode, x);
      && IsFp(f, y) && y.sign == x.sign
      && if IsNaN(g, x) then
           IsNaN(f, y) && y.coeff == (if q > 0 then q else 1) && res == {Undefined}
         else if IsInf(g, x) then
           IsInf(f, y) && res == SignFlag(x.sign) + {Overflow}
         else if x.expo == 0 then
           Ieee754.IsZero(y) && res == SignFlag(x.sign) + {ZeroResult} + if x.coeff != 0 then {Undefined} else {}
         else
           !IsNaN(f, y) && FlagsOf(f, y, res, true)
  {
    hide Norm, Mul, Pow2;
    var k := Narrowing.Dropped(f, g);
    OneIsEven(f);
    Narrowing.DropValue(x.coeff, k, q, rem);
    UpperPart(f, k, g.P(), x.coeff, q, rem);
    if 0 < x.expo <= g.MaxExpo() {
      var e, s := Lowered(x.expo - g.bias + f.bias), JamN(Sig(g, x), k - 3);
      NormFlags(f, mode, x.sign, e, s);
      Narrowing.NarrowSettled(f, g, x);
    }
  }

  lemma {:induction false} UpperPart(f: Format, k: nat, p: nat, c: nat, q: nat, rem: nat)
    requires p == f.P() + k && c == Mul(q, Pow2(k)) + rem && c < Pow2(p)
    ensures q < f.One()
  {
    Pow2Add(f.P(), k);
    MulOrder(q, f.One(), Pow2(k));
  }

  /** ar_i64to32 in PLUS_INFINITY and MINUS_INFINITY, for normal numbers. */
  lemma {:induction false} NarrowDirected(f: Format, g: Format, mode: Mode, x: Fp)
    requires Narrowing.Wider(f, g) && Finite(g, x) && x.expo > 0 && IsDirected(mode)
    ensures var (y, res) := Narrowing.NarrowSpec(f, g, mode, x);
      var num, den := Units(g, x), Narrowing.UnitRatio(f, g);
      var e, s := Lowered(x.expo - g.bias + f.bias), JamN(Sig(g, x), Narrowing.Dropped(f, g) - 3);
      && (DirectedCorrect(f, mode, x.sign, y, num, den)
          <==> Away(mode, x.sign) || (!Attained(f, num, den) && !BeyondFormat(f, num, den)))
      && (ReportsInexact(f, num, den, y, res) <==> !FlagLost(f, Away(mode, x.sign), Reached(f, e, s).1, num, den))
  {
    hide Norm, Mul, DirectedCorrect, ReportsInexact, Attained, FlagLost, Encodes, Reached, Units, JamN;
    var e, s := Lowered(x.expo - g.bias + f.bias), JamN(Sig(g, x), Narrowing.Dropped(f, g) - 3);
    Narrowing.NarrowEncodes(f, g, x);
    Narrowing.NarrowSettled(f, g, x);
    OneIsEven(f);
    NarrowBump(f, g, x, e, s);
    DirectedExactly(f, mode, x.sign, e, s, Units(g, x), Narrowing.UnitRatio(f, g));
  }

  lemma {:induction false} NarrowBump(f: Format, g: Format, x: Fp, e: int, s: nat)
    requires Narrowing.Wider(f, g) && x.expo > 0 && x.coeff < g.One() && e == Lowered(x.expo - g.bias + f.bias)
    requires s == JamN(Sig(g, x), Narrowing.Dropped(f, g) - 3)
    ensures RoomToBump(f, e, s)
  {
    hide JamN, Mul;
    LeadIsPow2(f);
    Narrowing.BinadeKept(Sig(g, x), Narrowing.Dropped(f, g) - 3, f.P() + 2);
    if e < 0 {
      OneIsEven(f);
      Pow2Mono(1, -e);
      assert Pow2(1) == 2;
      MulLeRight(2 * Lead(f) - 8, 2, Pow2(-e));
      MulComm(2 * Lead(f) - 8, 2);
      SmallMultiples(2 * Lead(f) - 8);
    }
  }

  /** Zeros and denormalized numbers in those modes: the zero that is delivered is right exactly for zeros
      and towards zero, and INEXACT exactly for zeros. */
  lemma {:induction false} NarrowDenormalDirected(f: Format, g: Format, mode: Mode, x: Fp)
    requires Narrowing.Wider(f, g) && Finite(g, x) && x.expo == 0 && IsDirected(mode)
    ensures var (y, res) := Narrowing.NarrowSpec(f, g, mode, x); var num, den := Units(g, x), Narrowing.UnitRatio(f, g);
      && (DirectedCorrect(f, mode, x.sign, y, num, den) <==> x.coeff == 0 || !Away(mode, x.sign))
      && (ReportsInexact(f, num, den, y, res) <==> x.coeff == 0)
  {
    var den := Narrowing.UnitRatio(f, g);
    MulOne(x.coeff);
    MulOne(Scale(0));
    MulOne(den);
    assert Pow2(g.P() + 1) == 2 * g.One();
    Pow2Mono(g.P() + 1, g.bias - f.bias + Narrowing.Dropped(f, g));
    OneIsEven(f);
    var y := Fp(x.sign, 0, 0);
    assert Units(f, y) == 0 && Units(g, x) == x.coeff < den;
    forall v | Finite(f, v) && Mul(Units(f, v), den) <= x.coeff
      ensures Units(f, v) == 0
    {
      SmallMultiple(Units(f, v), den, x.coeff);
    }
  }

  lemma {:induction false} SmallMultiple(n: nat, d: nat, bound: nat)
    requires Mul(n, d) <= bound < d
    ensures n == 0
  {
    MulOne(d);
    MulOrder(n, 1, d);
  }

  // ---- IEEE 32 to IEEE 64 ----

  /** Every operand of ar_i32to64: a NaN keeps its coefficient bits, an infinity stays one, and all other
      numbers keep their sign and their bits, with the flags of their class. */
  lemma {:induction false} WidenClass(f: Format, g: Format, x: Fp)
    requires Narrowing.Wider(f, g) && IsFp(f, x)
    ensures var (y, res) := Narrowing.WidenSpec(f, g, x); var c := Mul(x.coeff, Pow2(Narrowing.Dropped(f, g)));
      && IsFp(g, y) && y.sign == x.sign && y.coeff == c && (IsNaN(f, x) <==> IsNaN(g, y))
      && y.expo == (if x.expo > f.MaxExpo() then g.MaxExpo() + 1
                    else if x.expo > 0 then x.expo + g.bias - f.bias else 0)
      && res == if IsNaN(f, x) then {Undefined}
                else SignFlag(x.sign) + if IsInf(f, x) then {Overflow}
                                        else if Ieee754.IsZero(x) then {ZeroResult} else {}
  {
    hide Norm;
    var k := Narrowing.Dropped(f, g);
    Pow2Add(f.P(), k);
    MulLt(x.coeff, f.One(), Pow2(k));
    MulOne(Pow2(k));
    if x.coeff > 0 { MulPositive(x.coeff, Pow2(k)); }
    if x.expo <= f.MaxExpo() {
      if x.expo > 0 { Narrowing.WidenNormal(f, g, x); } else { Narrowing.WidenDenormal(f, g, x); }
    }
    assert SignFlag(x.sign) + {} == SignFlag(x.sign);
  }
}
