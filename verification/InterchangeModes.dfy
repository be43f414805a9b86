/**
 * ar_itoc64 and ar_ctoi64 for every operand: class, sign and flags in all modes, what becomes of
 * denormalized numbers in each, and the numbers out of range on either side.
 */
module InterchangeModes {
  import opened Powers
  import opened Ieee754
  import opened Normalizer
  import opened CrayAddition
  import opened Interchange

  lemma {:induction false} PackedClass(f: Format, g: CrayFormat, mode: Mode, sign: bool, v: Fp, e: nat)
    requires Wider(f, g) && v.coeff < f.One() && g.least <= e < g.most
    ensures var (r, res) := PackCray(f, g, mode, sign, v, e);
      Normalized(g, r) && r.sign == sign && e <= r.expo <= e + 1 && res == SignFlag(sign)
  {
    hide RoundedCoeff, PackCray;
    RoundedCoeffIs(f, g, mode, v);
    PackedIs(f, g, mode, sign, v, e, RoundedCoeff(f, g, mode, v));
  }

  /** ar_itoc64 in every mode: a finite number other than zero becomes a normalized number in range of its
      sign, a zero the Cray zero, and an infinity or a NaN the out-of-range number under
      the sign that the result had. */
  lemma {:induction false} ToCrayClass(f: Format, g: CrayFormat, mode: Mode, x: Fp, sign: bool)
    requires Wider(f, g) && IsFp(f, x)
    ensures var (r, res) := ToCraySpec(f, g, mode, x, sign);
      if IsNaN(f, x) || IsInf(f, x) then
        r.sign == sign && r.expo == g.most + 1 && r.coeff == g.Half() && res == {Overflow}
      else if Ieee754.IsZero(x) then
        r == CRAY_ZERO && res == {ZeroResult}
      else
        Normalized(g, r) && r.sign == x.sign && g.least <= r.expo <= g.most && res == SignFlag(x.sign)
  {
    hide PackCray, Raised, RoundedCoeff, Mul, Pow2;
    if Ieee754.IsZero(x) {
      ToCrayZero(f, g, mode, x, sign);
    } else if 0 < x.expo <= f.MaxExpo() {
      PackedClass(f, g, mode, x.sign, x, x.expo + Lift(f, g));
    } else if x.expo == 0 {
      var v := Raised(f, mode, x.coeff);
      RaisedValue(f, mode, x.coeff);
      PackedClass(f, g, mode, x.sign, v, v.expo + 1 + Lift(f, g) - f.P());
    }
  }

  /** The number after one with an even coefficient is truncated to the same Cray coefficient. */
  lemma {:induction false} TruncatedSame(f: Format, g: CrayFormat, v: Fp)
    requires Wider(f, g) && v.coeff < f.One() && v.coeff % 2 == 1
    ensures RoundedCoeff(f, g, MinusInfinity, v) == RoundedCoeff(f, g, MinusInfinity, v.(coeff := v.coeff - 1))
  {
    hide RoundedCoeff, Mul;
    var k := Excess(f, g);
    var u, m := Pow2(k), f.One() + v.coeff;
    var q := RoundedCoeffDirected(f, g, MinusInfinity, v);
    var q' := RoundedCoeffDirected(f, g, MinusInfinity, v.(coeff := v.coeff - 1));
    OneIsEven(f);
    MulComm(q, u);
    MulTwo(Pow2(k - 1), q);
    MulOrder(q, q' + 1, u);
    MulOrder(q', q + 1, u);
  }

  /**
   * A denormalized number is delivered in every mode as the Cray number that the mode asks for twice the
   * value, if and only if that is not negative, or the mode is NEAREST or ZERO, or it is a Cray number.
   */
  lemma {:induction false} ToCrayDenormal(f: Format, g: CrayFormat, mode: Mode, x: Fp, sign: bool)
    requires Wider(f, g) && Finite(f, x) && x.expo == 0 && x.coeff != 0
    ensures var n := 2 * InCrayUnits(f, g, x);
      CorrectCray(g, mode, x.sign, ToCraySpec(f, g, mode, x, sign).0, n)
      <==> mode == Nearest || mode == Zero || !x.sign || CrayAttains(g, n)
  {
    hide PackCray, Raised, Mul, Pow2, DirectedCray, NearestCray, CrayAttains, InCrayUnits, Units;
    if mode == Nearest {
      ToCrayDelivers(f, g, x, sign);
    } else {
      var v := Raised(f, mode, x.coeff);
      RaisedValue(f, mode, x.coeff);
      var v' := if mode == MinusInfinity then v.(coeff := v.coeff - 1) else v;
      var e := v.expo + 1 + Lift(f, g) - f.P();
      RaisedTarget(f, g, x, v', e);
      PackDirected(f, g, mode, x.sign, v', e);
      if mode == MinusInfinity {
        TruncatedSame(f, g, v);
        SamePacked(f, g, mode, x.sign, v, v', e);
      }
    }
  }

  lemma {:induction false} SamePacked(f: Format, g: CrayFormat, mode: Mode, sign: bool, v: Fp, v': Fp, e: nat)
    requires Wider(f, g) && RoundedCoeff(f, g, mode, v) == RoundedCoeff(f, g, mode, v')
    ensures PackCray(f, g, mode, sign, v, e) == PackCray(f, g, mode, sign, v', e)
  {
    hide RoundedCoeff;
  }

  /** A Cray number out of range becomes a NaN with OVERFLOW, and that the out-of-range number again. */
  lemma {:induction false} OutOfRangeStays(f: Format, g: CrayFormat, mode: Mode, x: CrayFp, sign: bool)
    requires Wider(f, g) && x.expo > g.most
    ensures var (y, res) := ToIeeeSpec(f, g, x);
      && IsFp(f, y) && IsNaN(f, y) && y.sign == x.sign && 2 * y.coeff == f.One() && res == SignFlag(x.sign) + {Overflow}
      && ToCraySpec(f, g, mode, y, sign) == (CrayFp(sign, g.most + 1, g.Half()), {Overflow})
  {
    OneIsEven(f);
  }
}
