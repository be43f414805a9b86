/**
 * ar_ifadd64 and ar_ifsub64 in PLUS_INFINITY and MINUS_INFINITY, and in ZERO for operands too far apart
 * to be aligned, with the operands in any order.
 */
module DirectedSums {
  import opened Powers
  import opened Ieee754
  import opened Normalizer
  import opened Directed
  import Addition

  /** Two numbers, the one with the larger exponent first, under the signs that they have in a sum. */
  datatype Terms = Terms(x: Fp, s: bool, y: Fp, t: bool)

  function Ordered(a: Fp, s: bool, b: Fp, t: bool): (p: Terms)
    ensures p.x.expo >= p.y.expo
  {
    if b.expo > a.expo then Terms(b, t, a, s) else Terms(a, s, b, t)
  }

  /** Terms too far apart to be aligned: the smaller one loses its sign, and an implicit bit without a
      coefficient is not seen. */
  predicate FarApart(f: Format, p: Terms) { Addition.Far(f, p.x, p.y) }

  /** When the directed modes round the sum `exact` of the terms as section 4.2 asks. */
  ghost predicate SumRight(f: Format, mode: Mode, p: Terms, exact: int)
    requires f.bias >= 1
  {
    if FarApart(f, p) then
      if p.y.coeff != 0 then !p.t else Away(mode, p.s) && (p.y.expo == 0 || p.s != p.t)
    else
      Away(mode, exact < 0) || (!Attained(f, Abs(exact), 1) && !BeyondFormat(f, Abs(exact), 1))
  }

  /** When they report its INEXACT. */
  ghost predicate SumReported(f: Format, mode: Mode, p: Terms, exact: int)
    requires f.bias >= 1 && p.x.expo >= p.y.expo
  {
    var full := p.x.coeff == f.One() - 1;
    if FarApart(f, p) then
      if p.y.coeff != 0 then !(mode == PlusInfinity && !p.s && full && p.x.expo < f.MaxExpo())
      else if Away(mode, p.s) then p.y.expo == 0
      else full && p.x.expo == f.MaxExpo()
    else
      var (e, s) := SumRegister(f, p.x, p.y, p.s == p.t);
      !FlagLost(f, Away(mode, exact < 0), Reached(f, e, s).1, Abs(exact), 1)
  }

  /** The sign that section 6.3 asks for of a zero sum of terms with the signs s and t. */
  predicate ZeroSign(mode: Mode, s: bool, t: bool) { if s == t then s else mode == MinusInfinity }

  /** x with the flags res, as the directed modes deliver it for the sum of the terms: exactly when value and
      INEXACT are right, and exactly when the sign of a zero is. */
  ghost predicate DirectedSum(f: Format, mode: Mode, p: Terms, exact: int, x: Fp, res: set<Flag>)
    requires f.bias >= 1 && p.x.expo >= p.y.expo
  {
    if exact == 0 then
      && Ieee754.IsZero(x) && ZeroResult in res && Inexact !in res
      && (x.sign == ZeroSign(mode, p.s, p.t) <==> p.s == p.t || mode == PlusInfinity)
    else
      && (DirectedCorrect(f, mode, exact < 0, x, Abs(exact), 1) <==> SumRight(f, mode, p, exact))
      && (ReportsInexact(f, Abs(exact), 1, x, res) <==> SumReported(f, mode, p, exact))
  }

  /** In ZERO, for terms too far apart to be aligned: truncated exactly if neither a sign nor an implicit
      bit is lost that matters, and INEXACT exactly if not only an implicit bit is missing. */
  ghost predicate TruncatedSum(f: Format, p: Terms, exact: int, x: Fp, res: set<Flag>)
    requires f.bias >= 1
  {
    && (Truncated(f, x, Abs(exact), 1) <==> if p.y.coeff != 0 then !p.t else p.y.expo == 0 || p.s == p.t)
    && (ReportsInexact(f, Abs(exact), 1, x, res) <==> p.y.coeff != 0 || p.y.expo == 0)
    && exact != 0 && x.sign == (exact < 0)
  }

  lemma {:induction false} OrderedSum(f: Format, mode: Mode, x: Fp, y: Fp, r: Fp, res: set<Flag>)
    requires f.Valid() && Finite(f, x) && Finite(f, y) && x.expo >= y.expo && IsDirected(mode)
    requires (r, res) == Addition.SumFinite(f, mode, x, y)
    ensures DirectedSum(f, mode, Terms(x, x.sign, y, y.sign), Addition.Sum(f, x, y), r, res)
  {
    hide Addition.SumFinite, DirectedCorrect, ReportsInexact, Attained, FlagLost, Mul;
    if Addition.Far(f, x, y) {
      Addition.FarEncodes(f, x, y);
      AddDirectedFar(f, mode, x, y);
      AddDirectedFarInexact(f, mode, x, y);
    } else if Addition.Sum(f, x, y) == 0 {
      AddDirectedZero(f, mode, x, y);
    } else {
      AddDirected(f, mode, x, y);
    }
  }

  /** ar_ifadd64 in PLUS_INFINITY and MINUS_INFINITY, for all finite operands. */
  lemma {:induction false} SumDirected(f: Format, mode: Mode, a: Fp, b: Fp)
    requires f.Valid() && Finite(f, a) && Finite(f, b) && IsDirected(mode)
    ensures var (x, res) := Addition.AddSpec(f, mode, a, b);
      DirectedSum(f, mode, Ordered(a, a.sign, b, b.sign), Value(f, a) + Value(f, b), x, res)
  {
    hide Addition.SumFinite, DirectedSum, Value;
    var (x, res) := Addition.AddSpec(f, mode, a, b);
    OrderedSum(f, mode, Addition.Larger(a, b), Addition.Smaller(a, b), x, res);
  }

  lemma {:induction false} SameRegister(f: Format, p: Terms, q: Terms)
    requires p.x.expo >= p.y.expo && p.x == q.x.(sign := p.x.sign) && p.y == q.y.(sign := p.y.sign)
    ensures FarApart(f, p) <==> FarApart(f, q)
    ensures SumRegister(f, p.x, p.y, p.s == p.t) == SumRegister(f, q.x, q.y, p.s == p.t)
  {
    hide Addition.ShiftCarry, JamN;
  }

  /** Only magnitudes and the signs beside them matter. */
  lemma {:induction false} SignsBeside(f: Format, mode: Mode, p: Terms, q: Terms, exact: int, x: Fp, res: set<Flag>)
    requires f.Valid() && p.x.expo >= p.y.expo && p.s == q.s && p.t == q.t
    requires p.x == q.x.(sign := p.x.sign) && p.y == q.y.(sign := p.y.sign)
    ensures DirectedSum(f, mode, p, exact, x, res) <==> DirectedSum(f, mode, q, exact, x, res)
    ensures TruncatedSum(f, p, exact, x, res) <==> TruncatedSum(f, q, exact, x, res)
  {
    hide DirectedCorrect, Truncated, ReportsInexact, Attained, FlagLost, Mul, Reached, SumRegister, FarApart;
    SameRegister(f, p, q);
  }

  /** ar_ifsub64 in PLUS_INFINITY and MINUS_INFINITY, for all finite operands. */
  lemma {:induction false} DifferenceDirected(f: Format, mode: Mode, a: Fp, b: Fp)
    requires f.Valid() && Finite(f, a) && Finite(f, b) && IsDirected(mode)
    ensures var (x, res) := Addition.SubSpec(f, mode, a, b);
      DirectedSum(f, mode, Ordered(a, a.sign, b, !b.sign), Value(f, a) - Value(f, b), x, res)
  {
    hide Addition.AddSpec, DirectedSum;
    var c := Addition.Negated(b);
    var (x, res) := Addition.SubSpec(f, mode, a, b);
    SumDirected(f, mode, a, c);
    assert Value(f, c) == -Value(f, b);
    SignsBeside(f, mode, Ordered(a, a.sign, c, c.sign), Ordered(a, a.sign, b, !b.sign),
                Value(f, a) - Value(f, b), x, res);
  }

  /** ar_ifadd64 in ZERO, for finite operands too far apart to be aligned. */
  lemma {:induction false} SumTruncated(f: Format, a: Fp, b: Fp)
    requires f.Valid() && Finite(f, a) && Finite(f, b) && FarApart(f, Ordered(a, a.sign, b, b.sign))
    ensures var (x, res) := Addition.AddSpec(f, Zero, a, b);
      TruncatedSum(f, Ordered(a, a.sign, b, b.sign), Value(f, a) + Value(f, b), x, res)
  {
    hide Addition.SumFinite, Truncated, ReportsInexact, Units, Norm;
    var y, z := Addition.Larger(a, b), Addition.Smaller(a, b);
    Addition.FarZero(f, y, z);
    Addition.FarEncodes(f, y, z);
    FarSum(f, Zero, y, z);
    NormSign(f, Zero, y.sign, y.expo, FarDelivered(f, y, z));
  }

  /** ar_ifsub64 in ZERO, for finite operands too far apart to be aligned. */
  lemma {:induction false} DifferenceTruncated(f: Format, a: Fp, b: Fp)
    requires f.Valid() && Finite(f, a) && Finite(f, b) && FarApart(f, Ordered(a, a.sign, b, !b.sign))
    ensures var (x, res) := Addition.SubSpec(f, Zero, a, b);
      TruncatedSum(f, Ordered(a, a.sign, b, !b.sign), Value(f, a) - Value(f, b), x, res)
  {
    hide Addition.AddSpec, TruncatedSum;
    var c := Addition.Negated(b);
    var (x, res) := Addition.SubSpec(f, Zero, a, b);
    SumTruncated(f, a, c);
    assert Value(f, c) == -Value(f, b);
    SignsBeside(f, Zero, Ordered(a, a.sign, c, c.sign), Ordered(a, a.sign, b, !b.sign),
                Value(f, a) - Value(f, b), x, res);
  }
}
