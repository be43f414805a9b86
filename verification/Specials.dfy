/**
 * Class, sign and flags of every IEEE sum, difference, product and quotient: what the operations
 * make of NaNs, infinities and zeros (sections 6.1 to 6.3, 7.1 and 7.2 of IEEE 754-1985).
 */
module Specials {
  import opened Powers
  import opened Ieee754
  import opened Normalizer
  import opened Directed
  import Addition
  import Division
  import DivisionDirected
  import Multiply

  /** What an invalid operation delivers: the first operand that is a NaN, or else the quiet NaN. */
  predicate Invalid(f: Format, a: Fp, b: Fp, x: Fp, res: set<Flag>) {
    && res == {Undefined} && IsNaN(f, x)
    && x == if IsNaN(f, a) then a else if IsNaN(f, b) then b else QuietNaN(f)
  }

  /** The sign of a product or quotient, and the flags of its class. */
  predicate Signed(f: Format, a: Fp, b: Fp, x: Fp, res: set<Flag>, tiny: bool) {
    IsFp(f, x) && !IsNaN(f, x) && x.sign == (a.sign != b.sign) && FlagsOf(f, x, res, tiny)
  }

  // ---- Products ----

  lemma {:induction false} NoSignificand(f: Format, a: Fp, b: Fp)
    requires f.Valid()
    ensures Multiply.MulRegister(f, a, b) == 0 <==> Ieee754.IsZero(a) || Ieee754.IsZero(b)
  {
    var prod, k := Mul(Sig(f, a), Sig(f, b)), f.P() - 3;
    JamNStands(prod, k);
    Addition.StandsZero(JamN(prod, k), prod, Pow2(k));
    MulComm(Sig(f, a), Sig(f, b));
    MulOne(Sig(f, a));
    MulOne(Sig(f, b));
    if Sig(f, a) > 0 && Sig(f, b) > 0 { MulPositive(Sig(f, a), Sig(f, b)); }
  }

  /** ar_ifmul64 in all modes, for every pair of operands: UNDEFINED exactly for NaNs and for an
      infinity times zero, OVERFLOW exactly for infinite products. */
  lemma {:induction false} ProductClass(f: Format, mode: Mode, a: Fp, b: Fp)
    requires f.Valid() && IsFp(f, a) && IsFp(f, b)
    ensures var (x, res) := Multiply.MulSpec(f, mode, a, b);
      if IsNaN(f, a) || IsNaN(f, b) || (IsInf(f, a) && Ieee754.IsZero(b)) || (Ieee754.IsZero(a) && IsInf(f, b)) then
        Invalid(f, a, b, x, res)
      else
        && Signed(f, a, b, x, res, !Ieee754.IsZero(a) && !Ieee754.IsZero(b))
        && (IsInf(f, a) || IsInf(f, b) ==> IsInf(f, x) && Inexact !in res)
        && (Ieee754.IsZero(a) || Ieee754.IsZero(b) ==> Ieee754.IsZero(x) && Inexact !in res)
  {
    hide Norm, Multiply.MulRegister, Multiply.MulExpo, Pow2;
    var e, s, sign := Multiply.MulExpo(f, a, b), Multiply.MulRegister(f, a, b), a.sign != b.sign;
    OneIsEven(f);
    NoSignificand(f, a, b);
    NormFlags(f, mode, sign, e, s);
    NormOfZero(f, mode, sign, e);
  }

  lemma {:induction false} NormOfZero(f: Format, mode: Mode, sign: bool, e: int)
    ensures Norm(f, mode, sign, e, 0) == (Fp(sign, 0, 0), SignFlag(sign) + {ZeroResult})
  {
  }

  // ---- Quotients ----

  lemma {:induction false} NoQuotient(f: Format, a: Fp, b: Fp)
    requires f.Valid() && a.coeff < f.One() && b.coeff < f.One() && !Ieee754.IsZero(b)
    ensures Division.DivRegister(f, a, b) == 0 <==> Ieee754.IsZero(a)
  {
    var d := Division.DivisorSig(f, b);
    var q, r := Division.RegisterOfQuotient(f, a, b);
    OneIsEven(f);
    MulOne(f.One());
    MulOne(d);
    if Ieee754.IsZero(a) {
      if q > 0 { MulPositive(q, d); }
      DivisionDirected.ZeroTail(d);
    } else {
      MulPositive(Sig(f, a), f.One());
      if q == 0 && r > 0 { RemainderSeen(r, d); }
    }
  }

  /** A dividend that is not zero leaves a quotient bit or a remainder. */
  lemma {:induction false} RemainderSeen(r: nat, d: nat)
    requires 0 < r
    ensures Division.TailBits(r, d) > 0
  {
    var h := d / 2;
    var k := h / 2;
    Division.TailUnrolled(r, h, k, k / 2);
  }

  /** ar_ifdiv64 in all modes, for every pair of operands: UNDEFINED exactly for NaNs, for zero by zero
      and for infinity by infinity, OVERFLOW exactly for infinite quotients. */
  lemma {:induction false} QuotientClass(f: Format, mode: Mode, a: Fp, b: Fp)
    requires f.Valid() && IsFp(f, a) && IsFp(f, b)
    ensures var (x, res) := Division.DivSpec(f, mode, a, b);
      if IsNaN(f, a) || IsNaN(f, b) || (Ieee754.IsZero(a) && Ieee754.IsZero(b)) || (IsInf(f, a) && IsInf(f, b)) then
        Invalid(f, a, b, x, res)
      else
        && Signed(f, a, b, x, res, !Ieee754.IsZero(a) || IsInf(f, b))
        && (IsInf(f, a) || Ieee754.IsZero(b) ==> IsInf(f, x) && Inexact !in res)
        && (Ieee754.IsZero(a) || IsInf(f, b) ==> Ieee754.IsZero(x) && Inexact !in res)
  {
    hide Norm, Division.DivRegister, Division.DivExpo, Pow2;
    OneIsEven(f);
    if Finite(f, a) && Finite(f, b) && !Ieee754.IsZero(b) {
      var e, s, sign := Lowered(Division.DivExpo(f, a, b)), Division.DivRegister(f, a, b), a.sign != b.sign;
      NoQuotient(f, a, b);
      NormFlags(f, mode, sign, e, s);
      NormOfZero(f, mode, sign, e);
    }
  }

  // ---- Sums and differences ----

  /** x with the flags res is of the class, sign and flags of the sum `exact` of |a| under the sign s and
      |b| under the sign t: UNDEFINED exactly for NaNs and for infinities of different signs, zero and
      infinite exactly if it must be, and never the zero that stands for another number. */
  predicate SumClass(f: Format, exact: int, a: Fp, s: bool, b: Fp, t: bool, x: Fp, res: set<Flag>) {
    if IsNaN(f, a) || IsNaN(f, b) || (IsInf(f, a) && IsInf(f, b) && s != t) then
      Invalid(f, a, b, x, res)
    else
      && IsFp(f, x) && !IsNaN(f, x) && FlagsOf(f, x, res, false)
      && (IsInf(f, a) ==> IsInf(f, x) && x.sign == s && Inexact !in res)
      && (IsInf(f, b) ==> IsInf(f, x) && x.sign == t && Inexact !in res)
      && (Finite(f, a) && Finite(f, b) ==>
           && (Ieee754.IsZero(x) <==> exact == 0) && (exact == 0 ==> Inexact !in res)
           && x.sign == if exact == 0 then s && t else exact < 0)
  }

  /** A register for a whole number of units does not become zero. */
  lemma {:induction false} WholeUnitsStay(f: Format, mode: Mode, sign: bool, e: int, s: nat, n: nat)
    requires f.Valid() && s > 0 && n > 0 && Encodes(e, s, n, 1) && Settled(f, e, s) && RoomToBump(f, e, s)
    ensures !Ieee754.IsZero(Norm(f, mode, sign, e, s).0)
  {
    hide Mul, Encodes, Resembles, ShiftUp, ShiftDown, Pow2;
    var (e', s') := Reached(f, e, s);
    NormReaches(f, e, s, n, 1);
    FinishedFlags(f, mode, sign, e', s');
    if s' < 8 { TooSmall(f, e', s', n); }
    DivMod8(s', s' / 8, s' % 8);
  }

  lemma {:induction false} TooSmall(f: Format, e: nat, s: nat, n: nat)
    requires f.Valid() && n > 0 && s < 8 && (e > 1 ==> s >= Lead(f))
    ensures !Resembles(s, 8 * n, Mul(Weight(e), 1))
  {
    OneIsEven(f);
    MulOne(s);
    MulOne(s - s % 4);
    MulOne(s - s % 4 + 4);
    MulOne(Weight(e));
    assert Weight(e) == 1;
  }

  lemma {:induction false} NearSumStays(f: Format, mode: Mode, x: Fp, y: Fp)
    requires f.Valid() && Finite(f, x) && Finite(f, y) && x.expo >= y.expo && !Addition.Far(f, x, y)
    ensures var (r, res) := Addition.SumFinite(f, mode, x, y); var exact := Addition.Sum(f, x, y);
      && IsFp(f, r) && !IsNaN(f, r) && FlagsOf(f, r, res, false) && (Ieee754.IsZero(r) <==> exact == 0)
      && r.sign == (if exact == 0 then x.sign && y.sign else exact < 0) && (exact == 0 ==> Inexact !in res)
  {
    hide Mul, Norm, Encodes, Addition.ShiftCarry, Addition.Aligned;
    var n := Abs(Addition.Sum(f, x, y));
    var (sign, s) := Addition.SignedSum(x.sign, 8 * Sig(f, x), y.sign, Addition.Aligned(f, x, y));
    var (e, s') := Addition.ShiftCarry(f, x.expo, s);
    Addition.SumStands(f, x, y);
    Addition.StandsEncodes(x.expo, s, n);
    Addition.CarryEncodes(f, x.expo, s, n);
    Addition.SumSettled(f, x, y, s);
    Addition.CarrySettled(f, x.expo, s);
    NormFlags(f, mode, sign, e, s');
    if s' > 0 { WholeUnitsStay(f, mode, sign, e, s', n); }
  }

  lemma {:induction false} FarSumStays(f: Format, mode: Mode, x: Fp, y: Fp)
    requires f.Valid() && Finite(f, x) && Finite(f, y) && x.expo >= y.expo && Addition.Far(f, x, y)
    ensures var (r, res) := Addition.SumFinite(f, mode, x, y); var exact := Addition.Sum(f, x, y);
      && IsFp(f, r) && !IsNaN(f, r) && FlagsOf(f, r, res, false) && !Ieee754.IsZero(r)
      && exact != 0 && r.sign == (exact < 0)
  {
    hide Mul, Pow2, Norm, Encodes, Addition.SumFinite;
    var s := FarDelivered(f, x, y);
    FarSum(f, mode, x, y);
    Addition.FarEncodes(f, x, y);
    NormFlags(f, mode, x.sign, x.expo, s);
    OneIsEven(f);
    if s < Lead(f) {
      Addition.NormOneUp(f, mode, x.sign, x.expo);
      FinishedFlags(f, mode, x.sign, x.expo - 1, 2 * Lead(f) - 1);
    } else {
      FarDirect(f, mode, x, s);
    }
  }

  lemma {:induction false} FarDirect(f: Format, mode: Mode, x: Fp, s: nat)
    requires f.Valid() && Finite(f, x) && x.expo >= 2 && Lead(f) <= s <= 8 * Sig(f, x) + 1
    ensures !Ieee754.IsZero(Norm(f, mode, x.sign, x.expo, s).0)
  {
    NormDirect(f, mode, x.sign, x.expo, s);
    FinishedFlags(f, mode, x.sign, x.expo, s);
  }

  lemma {:induction false} FiniteSumClass(f: Format, mode: Mode, a: Fp, b: Fp, x: Fp, res: set<Flag>)
    requires f.Valid() && Finite(f, a) && Finite(f, b) && (x, res) == Addition.AddSpec(f, mode, a, b)
    ensures SumClass(f, Value(f, a) + Value(f, b), a, a.sign, b, b.sign, x, res)
  {
    hide Mul, Addition.SumFinite;
    var y, z := Addition.Larger(a, b), Addition.Smaller(a, b);
    if Addition.Far(f, y, z) { FarSumStays(f, mode, y, z); } else { NearSumStays(f, mode, y, z); }
  }

  /** ar_ifadd64 in all modes, for every pair of operands. */
  lemma {:induction false} AddClass(f: Format, mode: Mode, a: Fp, b: Fp)
    requires f.Valid() && IsFp(f, a) && IsFp(f, b)
    ensures var (x, res) := Addition.AddSpec(f, mode, a, b);
      SumClass(f, Value(f, a) + Value(f, b), a, a.sign, b, b.sign, x, res)
  {
    hide Addition.SumFinite, Value;
    if Finite(f, a) && Finite(f, b) {
      var (x, res) := Addition.AddSpec(f, mode, a, b);
      FiniteSumClass(f, mode, a, b, x, res);
    }
  }

  /** ar_ifsub64 in all modes, for every pair of operands. */
  lemma {:induction false} SubtractClass(f: Format, mode: Mode, a: Fp, b: Fp)
    requires f.Valid() && IsFp(f, a) && IsFp(f, b)
    ensures var (x, res) := Addition.SubSpec(f, mode, a, b);
      SumClass(f, Value(f, a) - Value(f, b), a, a.sign, b, !b.sign, x, res)
  {
    hide Addition.AddSpec;
    AddClass(f, mode, a, Addition.Negated(b));
    assert Value(f, Addition.Negated(b)) == -Value(f, b);
  }
}
