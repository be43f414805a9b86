/**
 * IEEE 754-1985 binary formats and what it means to round to them.
 *
 * A finite value is a whole number of units, one unit being the least
 * positive denormalized number, so "the exact result" of an operation is a
 * fraction num/den of units and rounding can be stated over the integers.
 */
module Ieee754 {
  import opened Powers

  /** `top` bits in the first coefficient limb and `low` limbs of 16 bits after it. */
  datatype Format = Format(top: nat, low: nat, bias: nat) {
    /** Number of explicit coefficient bits. */
    function P(): nat { top + 16 * low }

    /** The weight of the implicit leading bit. */
    function One(): nat { Pow2(P()) }

    /** The number 1.0, in units. */
    function UnitsPerOne(): nat
      requires bias >= 1
    {
      Pow2(bias + P() - 1)
    }

    /** Largest biased exponent of a finite number. */
    function MaxExpo(): nat { 2 * bias }

    /** As in all formats of the standard, the exponent range is larger than the coefficient. */
    predicate Valid() { 3 <= top <= 16 && low >= 1 && P() < bias }
  }

  const IEEE32 := Format(7, 1, 127)
  const IEEE64 := Format(4, 3, 1023)

  datatype Fp = Fp(sign: bool, expo: nat, coeff: nat)

  datatype Mode = Nearest | Zero | PlusInfinity | MinusInfinity

  datatype Flag = Overflow | Underflow | Undefined | Inexact | ZeroResult | Negative | SemiValid

  predicate IsFp(f: Format, x: Fp) {
    x.expo <= f.MaxExpo() + 1 && x.coeff < f.One()
  }

  predicate Finite(f: Format, x: Fp) {
    x.expo <= f.MaxExpo() && x.coeff < f.One()
  }

  predicate IsNaN(f: Format, x: Fp) { x.expo > f.MaxExpo() && x.coeff != 0 }

  predicate IsInf(f: Format, x: Fp) { x.expo == f.MaxExpo() + 1 && x.coeff == 0 }

  predicate IsZero(x: Fp) { x.expo == 0 && x.coeff == 0 }

  /** The quiet NaN that invalid operations deliver. */
  function QuietNaN(f: Format): Fp { Fp(false, f.MaxExpo() + 1, f.One() - 1) }

  /** The significand with its implicit leading bit. */
  function Sig(f: Format, x: Fp): nat {
    if x.expo == 0 then x.coeff else f.One() + x.coeff
  }

  /** Denormalized numbers are scaled like those of exponent one. */
  function Effective(expo: nat): nat { if expo == 0 then 1 else expo }

  function Scale(expo: nat): nat { Pow2(Effective(expo) - 1) }

  function Units(f: Format, x: Fp): nat { Mul(Sig(f, x), Scale(x.expo)) }

  function Value(f: Format, x: Fp): int {
    var n: int := Units(f, x);
    if x.sign then -n else n
  }

  function Abs(n: int): nat { if n < 0 then -n else n }

  /** Distance from n units to num/den units, in multiples of 1/den. */
  function Dist(n: nat, num: nat, den: nat): nat { Abs(Mul(n, den) - num) }

  /** One last place of the largest finite numbers. */
  function TopPlace(f: Format): nat
    requires f.bias >= 1
  {
    Pow2(f.MaxExpo() - 1)
  }

  /** num/den is at least 2^Emax * (2 - 2^-p), p counting the leading bit: there
      rounding to nearest must give infinity (section 4.1). */
  predicate RoundsToInfinity(f: Format, num: nat, den: nat)
    requires f.bias >= 1
  {
    2 * num >= Mul(4 * f.One() - 1, Mul(TopPlace(f), den))
  }

  /** The magnitude of x is num/den rounded to nearest, ties to even (section 4.1). */
  ghost predicate NearestEven(f: Format, x: Fp, num: nat, den: nat)
    requires f.bias >= 1
  {
    if x.expo > f.MaxExpo() then
      IsInf(f, x) && RoundsToInfinity(f, num, den)
    else
      && x.coeff < f.One()
      && !RoundsToInfinity(f, num, den)
      && forall v :: Finite(f, v) ==> Closer(f, x, v, num, den)
  }

  /** x is at least as close to num/den as v, and has an even coefficient if it is a draw. */
  predicate Closer(f: Format, x: Fp, v: Fp, num: nat, den: nat) {
    && Dist(Units(f, x), num, den) <= Dist(Units(f, v), num, den)
    && (Dist(Units(f, x), num, den) == Dist(Units(f, v), num, den) && Units(f, x) != Units(f, v)
        ==> x.coeff % 2 == 0)
  }

  /** num/den reaches the first power of two beyond the format. */
  predicate BeyondFormat(f: Format, num: nat, den: nat)
    requires f.bias >= 1
  {
    num >= Mul(2 * f.One(), Mul(TopPlace(f), den))
  }

  /** The magnitude of x is the largest finite one not above num/den; beyond the format
      the arithmetic delivers infinity. */
  ghost predicate Truncated(f: Format, x: Fp, num: nat, den: nat)
    requires f.bias >= 1
  {
    if x.expo > f.MaxExpo() then
      IsInf(f, x) && BeyondFormat(f, num, den)
    else
      && x.coeff < f.One()
      && !BeyondFormat(f, num, den)
      && Mul(Units(f, x), den) <= num
      && forall v :: Finite(f, v) && Mul(Units(f, v), den) <= num ==> Units(f, v) <= Units(f, x)
  }

  /** The magnitude of x is num/den rounded as the mode asks. */
  ghost predicate Correct(f: Format, mode: Mode, x: Fp, num: nat, den: nat)
    requires f.bias >= 1 && (mode == Nearest || mode == Zero)
  {
    if mode == Nearest then NearestEven(f, x, num, den) else Truncated(f, x, num, den)
  }

  // ---- The order of the format ----

  /** Comparing exponent first and coefficient second compares the magnitudes. */
  lemma {:induction false} MagnitudeOrder(f: Format, x: Fp, y: Fp)
    requires x.coeff < f.One() && y.coeff < f.One()
    ensures Units(f, x) < Units(f, y) <==> x.expo < y.expo || (x.expo == y.expo && x.coeff < y.coeff)
    ensures Units(f, x) == Units(f, y) <==> x.expo == y.expo && x.coeff == y.coeff
  {
    if x.expo < y.expo {
      ExpoOrder(f, x, y);
    } else if y.expo < x.expo {
      ExpoOrder(f, y, x);
    } else {
      MulOrder(Sig(f, x), Sig(f, y), Scale(x.expo));
    }
  }

  lemma {:induction false} ExpoOrder(f: Format, x: Fp, y: Fp)
    requires x.expo < y.expo && x.coeff < f.One()
    ensures Units(f, x) < Units(f, y)
  {
    var u, v := Scale(x.expo), Scale(y.expo);
    MulLe(f.One(), Sig(f, y), v);
    if x.expo == 0 {
      MulOne(x.coeff);
      Pow2Mono(0, y.expo - 1);
      MulPositive(f.One(), v);
    } else {
      Pow2Mono(x.expo - 1, y.expo - 1);
      MulLt(Sig(f, x), 2 * f.One(), u);
      MulTwo(f.One(), u);
      MulLeRight(f.One(), 2 * u, v);
    }
  }

  // ---- Multiples of the last place ----

  /** From One * 2^(e-1) on, every finite value is a multiple of 2^(e-1). */
  lemma {:induction false} OnGrid(f: Format, v: Fp, e: nat) returns (k: nat)
    requires v.coeff < f.One() && e >= 1
    requires e == 1 || Units(f, v) >= Mul(f.One(), Pow2(e - 1))
    ensures Units(f, v) == Mul(k, Pow2(e - 1))
  {
    if e == 1 {
      k := Units(f, v);
      MulOne(k);
    } else {
      MagnitudeOrder(f, v, Fp(false, e, 0));
      Pow2Add(v.expo - e, e - 1);
      k := Mul(Sig(f, v), Pow2(v.expo - e));
      MulAssoc(Sig(f, v), Pow2(v.expo - e), Pow2(e - 1));
    }
  }

  /** The value with significand m at exponent e >= 1, after the carry that
      m == 2^(P+1) makes and with exponent 0 for a missing leading bit. */
  function Pack(f: Format, sign: bool, m: nat, e: nat): Fp
    requires e >= 1
  {
    var p := f.One();
    if m < p then Fp(sign, 0, m)
    else
      var (m', e') := if m >= 2 * p then (p, e + 1) else (m, e);
      if e' > f.MaxExpo() then Fp(sign, f.MaxExpo() + 1, 0) else Fp(sign, e', m' - p)
  }

  /** m * u is the multiple of u nearest to num, an even one on a draw. */
  predicate NearestMultiple(m: nat, u: nat, num: nat) {
    && 2 * Abs(Mul(m, u) - num) <= u
    && (2 * Abs(Mul(m, u) - num) == u ==> m % 2 == 0)
  }

  /** The implicit bit is a multiple of eight. */
  lemma {:induction false} OneIsEven(f: Format)
    requires f.Valid()
    ensures f.One() == 8 * Pow2(f.P() - 3)
  {
    var k := f.P() - 3;
    assert Pow2(k + 1) == 2 * Pow2(k);
    assert Pow2(k + 2) == 2 * Pow2(k + 1);
  }

  lemma {:induction false} PackUnits(f: Format, sign: bool, m: nat, e: nat)
    requires f.Valid() && e >= 1 && m <= 2 * f.One()
    requires m < f.One() ==> e == 1
    ensures var x := Pack(f, sign, m, e);
      x.expo <= f.MaxExpo() ==> Finite(f, x) && Units(f, x) == Mul(m, Pow2(e - 1)) && x.coeff % 2 == m % 2
  {
    var p, h := f.One(), 4 * Pow2(f.P() - 3);
    OneIsEven(f);
    if m == 2 * p {
      MulTwo(p, Pow2(e - 1));
      DivMod2(m, p, 0);
    } else if m >= p {
      SameParity(m, h);
    }
  }

  lemma {:induction false} SameParity(m: nat, h: nat)
    requires m >= 2 * h
    ensures (m - 2 * h) % 2 == m % 2
  {
    DivMod2(m - 2 * h, m / 2 - h, m % 2);
  }

  /** A nearest multiple of the last place packs to the nearest value of the whole format. */
  lemma {:induction false} PackNearest(f: Format, sign: bool, m: nat, e: nat, num: nat, den: nat)
    requires f.Valid() && e >= 1 && den > 0 && m <= 2 * f.One()
    requires NearestMultiple(m, Mul(Pow2(e - 1), den), num)
    requires e > 1 ==> num >= Mul(f.One(), Mul(Pow2(e - 1), den))
    ensures NearestEven(f, Pack(f, sign, m, e), num, den)
    ensures m < f.One() ==> e == 1
  {
    var x := Pack(f, sign, m, e);
    var w := Pow2(e - 1);
    NoLeadingBit(f, m, e, num, den);
    PackUnits(f, sign, m, e);
    PackThreshold(f, m, e, num, den);
    if x.expo <= f.MaxExpo() {
      MulAssoc(m, w, den);
      forall v | Finite(f, v)
        ensures Closer(f, x, v, num, den)
      {
        NearestBeats(f, m, e, num, den, v);
      }
    }
  }

  lemma {:induction false} NoLeadingBit(f: Format, m: nat, e: nat, num: nat, den: nat)
    requires e >= 1 && den > 0
    requires NearestMultiple(m, Mul(Pow2(e - 1), den), num)
    requires e > 1 ==> num >= Mul(f.One(), Mul(Pow2(e - 1), den))
    ensures m < f.One() ==> e == 1
  {
    var u := Mul(Pow2(e - 1), den);
    MulPositive(Pow2(e - 1), den);
    if m < f.One() { MulLt(m, f.One(), u); }
  }

  lemma {:induction false} NearestBeats(f: Format, m: nat, e: nat, num: nat, den: nat, v: Fp)
    requires f.Valid() && e >= 1 && den > 0 && Finite(f, v)
    requires NearestMultiple(m, Mul(Pow2(e - 1), den), num)
    requires e > 1 ==> num >= Mul(f.One(), Mul(Pow2(e - 1), den))
    ensures var d := Abs(Mul(m, Mul(Pow2(e - 1), den)) - num);
      && d <= Dist(Units(f, v), num, den)
      && (d == Dist(Units(f, v), num, den) && Units(f, v) != Mul(m, Pow2(e - 1)) ==> m % 2 == 0)
  {
    var w := Pow2(e - 1);
    var u := Mul(w, den);
    MulPositive(w, den);
    if e == 1 || Units(f, v) >= Mul(f.One(), w) {
      var k := OnGrid(f, v, e);
      MulAssoc(k, w, den);
      MultipleBeats(m, k, u, num);
    } else {
      MulAssoc(f.One(), w, den);
      MulLt(Units(f, v), Mul(f.One(), w), den);
      MultipleBeats(m, f.One(), u, num);
    }
  }

  /** The nearest multiple of u is no farther than any other, and as far only on a draw. */
  lemma {:induction false} MultipleBeats(m: nat, k: nat, u: nat, num: nat)
    requires 2 * Abs(Mul(m, u) - num) <= u && u > 0
    ensures Abs(Mul(m, u) - num) <= Abs(Mul(k, u) - num)
    ensures k != m && Abs(Mul(m, u) - num) == Abs(Mul(k, u) - num) ==> 2 * Abs(Mul(m, u) - num) == u
  {
    if k > m { MulLt(m, k, u); }
    if k < m { MulLt(k, m, u); }
  }

  lemma {:induction false} PackThreshold(f: Format, m: nat, e: nat, num: nat, den: nat)
    requires f.Valid() && e >= 1 && den > 0 && m <= 2 * f.One()
    requires NearestMultiple(m, Mul(Pow2(e - 1), den), num)
    requires e > 1 ==> num >= Mul(f.One(), Mul(Pow2(e - 1), den))
    ensures Pack(f, false, m, e).expo > f.MaxExpo() <==> RoundsToInfinity(f, num, den)
  {
    var u, top := Mul(Pow2(e - 1), den), Mul(TopPlace(f), den);
    NoLeadingBit(f, m, e, num, den);
    MulPositive(TopPlace(f), den);
    if e > f.MaxExpo() {
      Pow2Mono(f.MaxExpo() - 1, e - 1);
      MulLe(2 * TopPlace(f), Pow2(e - 1), den);
      MulTwo(TopPlace(f), den);
      BeyondTop(f.One(), u, top, num);
    } else if e == f.MaxExpo() {
      AtTop(m, f.One(), u, num);
    } else {
      MulPositive(Pow2(e - 1), den);
      Pow2Mono(e - 1, f.MaxExpo() - 1);
      MulLe(2 * Pow2(e - 1), TopPlace(f), den);
      MulTwo(Pow2(e - 1), den);
      BelowTop(m, f.One(), u, top, num);
    }
  }

  lemma {:induction false} FourLessOne(p: nat, u: nat)
    requires p > 0
    ensures Mul(4 * p - 1, u) == 4 * Mul(p, u) - u
    ensures Mul(2 * p, u) == 2 * Mul(p, u)
  {
    MulTwo(p, u);
    MulTwo(2 * p, u);
    MulSub(4 * p, 1, u);
    MulOne(u);
  }

  lemma {:induction false} BeyondTop(p: nat, u: nat, top: nat, num: nat)
    requires p > 0 && 2 * top <= u && num >= Mul(p, u)
    ensures 2 * num >= Mul(4 * p - 1, top)
  {
    FourLessOne(p, top);
    MulLeRight(p, 2 * top, u);
    MulTwo(p, top);
  }

  lemma {:induction false} AtTop(m: nat, p: nat, u: nat, num: nat)
    requires m <= 2 * p && p > 0 && NearestMultiple(m, u, num) && u > 0
    ensures m == 2 * p <==> 2 * num >= Mul(4 * p - 1, u)
  {
    FourLessOne(p, u);
    if m < 2 * p {
      MulLt(m, 2 * p, u);
      if m + 1 < 2 * p {
        MulLt(m, m + 1, u);
        MulLt(m + 1, 2 * p, u);
      }
    }
  }

  lemma {:induction false} BelowTop(m: nat, p: nat, u: nat, top: nat, num: nat)
    requires m <= 2 * p && 2 * u <= top && p > 0 && u > 0 && NearestMultiple(m, u, num)
    ensures 2 * num < Mul(4 * p - 1, top)
  {
    FourLessOne(p, top);
    MulLe(m, 2 * p, u);
    MulTwo(p, u);
    MulLeRight(p, 2 * u, top);
    MulPositive(p, top);
  }

  /** The largest multiple of the last place not above num/den packs to the largest value not above. */
  lemma {:induction false} PackTruncated(f: Format, sign: bool, m: nat, e: nat, num: nat, den: nat)
    requires f.Valid() && e >= 1 && den > 0 && m < 2 * f.One()
    requires e > 1 ==> m >= f.One()
    requires Mul(m, Mul(Pow2(e - 1), den)) <= num < Mul(m + 1, Mul(Pow2(e - 1), den))
    ensures Truncated(f, Pack(f, sign, m, e), num, den)
  {
    var w := Pow2(e - 1);
    var u, top := Mul(w, den), Mul(TopPlace(f), den);
    var x := Pack(f, sign, m, e);
    PackUnits(f, sign, m, e);
    MulAssoc(m, w, den);
    if x.expo > f.MaxExpo() {
      Pow2Mono(f.MaxExpo() - 1, e - 1);
      MulLe(2 * TopPlace(f), w, den);
      MulTwo(TopPlace(f), den);
      MulLe(f.One(), m, u);
      MulLeRight(f.One(), 2 * top, u);
      MulTwo(f.One(), top);
    } else {
      Pow2Mono(e - 1, f.MaxExpo() - 1);
      MulLe(w, TopPlace(f), den);
      MulLe(m + 1, 2 * f.One(), u);
      MulLeRight(2 * f.One(), u, top);
      forall v | Finite(f, v) && Mul(Units(f, v), den) <= num
        ensures Units(f, v) <= Units(f, x)
      {
        TruncatedBeats(f, m, e, num, den, v);
      }
    }
  }

  lemma {:induction false} TruncatedBeats(f: Format, m: nat, e: nat, num: nat, den: nat, v: Fp)
    requires e >= 1 && den > 0 && Finite(f, v)
    requires e > 1 ==> m >= f.One()
    requires num < Mul(m + 1, Mul(Pow2(e - 1), den)) && Mul(Units(f, v), den) <= num
    ensures Units(f, v) <= Mul(m, Pow2(e - 1))
  {
    var w := Pow2(e - 1);
    if e == 1 || Units(f, v) >= Mul(f.One(), w) {
      var k := OnGrid(f, v, e);
      MulAssoc(k, w, den);
      MulPositive(w, den);
      MulOrder(k, m + 1, Mul(w, den));
      MulLe(k, m, w);
    } else {
      MulLe(f.One(), m, w);
    }
  }

  // ---- Rounding is a function of the exact result ----

  function Successor(f: Format, x: Fp): Fp {
    if x.coeff + 1 < f.One() then Fp(false, x.expo, x.coeff + 1) else Fp(false, x.expo + 1, 0)
  }

  /** There is at most one correctly rounded magnitude. */
  lemma {:induction false} NearestUnique(f: Format, x: Fp, y: Fp, num: nat, den: nat)
    requires f.Valid() && den > 0
    requires NearestEven(f, x, num, den) && NearestEven(f, y, num, den)
    ensures x.expo == y.expo && x.coeff == y.coeff
  {
    if x.expo <= f.MaxExpo() {
      assert Closer(f, x, y, num, den) && Closer(f, y, x, num, den);
      if Units(f, x) < Units(f, y) {
        TwoNearest(f, x, y, num, den);
      } else if Units(f, y) < Units(f, x) {
        TwoNearest(f, y, x, num, den);
      }
      MagnitudeOrder(f, x, y);
    }
  }

  /** Two different values cannot both be nearest: the one in between, or the parity of
      neighbours, decides. */
  lemma {:induction false} TwoNearest(f: Format, x: Fp, y: Fp, num: nat, den: nat)
    requires f.Valid() && den > 0 && Finite(f, x) && Finite(f, y)
    requires NearestEven(f, x, num, den)
    requires Units(f, x) < Units(f, y)
    ensures !Closer(f, y, x, num, den) || !Closer(f, y, Successor(f, x), num, den)
    ensures Finite(f, Successor(f, x))
  {
    var v := Successor(f, x);
    SuccessorParity(f, x);
    MagnitudeOrder(f, x, y);
    MagnitudeOrder(f, x, v);
    MagnitudeOrder(f, y, v);
    assert Closer(f, x, y, num, den) && Closer(f, x, v, num, den);
    MulLt(Units(f, x), Units(f, v), den);
    if Units(f, v) < Units(f, y) {
      MulLt(Units(f, v), Units(f, y), den);
    }
  }

  lemma {:induction false} SuccessorParity(f: Format, x: Fp)
    requires f.Valid() && x.coeff < f.One()
    ensures Successor(f, x).coeff < f.One()
    ensures x.coeff % 2 == 1 || Successor(f, x).coeff % 2 == 1
  {
    OneIsEven(f);
    var c := x.coeff;
    if c + 1 < f.One() {
      if c % 2 == 0 { DivMod2(c + 1, c / 2, 1); }
    } else {
      DivMod2(c, 4 * Pow2(f.P() - 3) - 1, 1);
    }
  }

  lemma {:induction false} TruncatedUnique(f: Format, x: Fp, y: Fp, num: nat, den: nat)
    requires f.Valid() && den > 0 && Truncated(f, x, num, den) && Truncated(f, y, num, den)
    ensures x.expo == y.expo && x.coeff == y.coeff
  {
    if x.expo <= f.MaxExpo() { MagnitudeOrder(f, x, y); }
  }

  /** There is at most one correct magnitude in either mode. */
  lemma {:induction false} CorrectUnique(f: Format, mode: Mode, x: Fp, y: Fp, num: nat, den: nat)
    requires f.Valid() && den > 0 && (mode == Nearest || mode == Zero)
    requires Correct(f, mode, x, num, den) && Correct(f, mode, y, num, den)
    ensures x.expo == y.expo && x.coeff == y.coeff
  {
    if mode == Nearest { NearestUnique(f, x, y, num, den); } else { TruncatedUnique(f, x, y, num, den); }
  }

  lemma {:induction false} ScaleDist(n: nat, num: nat, den: nat, k: nat)
    ensures Dist(n, Mul(num, k), Mul(den, k)) == Mul(Dist(n, num, den), k)
  {
    MulAssoc(n, den, k);
    if Mul(n, den) >= num {
      MulSub(Mul(n, den), num, k);
      MulLe(num, Mul(n, den), k);
    } else {
      MulSub(num, Mul(n, den), k);
      MulLe(Mul(n, den), num, k);
    }
  }
}
