/**
 * cray_fmul.c: ar_cfmul64 and ar_cfmul128 on whole records: exponents, signs, range tests and
 * flags around the coefficients of the two pyramids.
 */
module CrayMultiply {
  import opened Powers
  import opened Limbs
  import opened Ieee754
  import opened Cray
  import opened CrayAddition
  import Normalizer

  const CRAY128 := CrayFormat(6, 16385, 8192, 24575)

  /** How many values the exponent field has; one above it, the package has the sign. */
  const EXPO_VALUES := 32768

  /** CRAY128 and CRAY64 differ in their length only. */
  predicate CrayRange(g: CrayFormat) { g.Valid() && g == CRAY128.(limbs := g.limbs) }

  /** A normalized number in range. */
  predicate Ordinary(g: CrayFormat, x: CrayFp)
    requires g.limbs > 0
  {
    Normalized(g, x) && g.least <= x.expo <= g.most
  }

  /** The exponent of a product before a carry. */
  function ProductExpo(g: CrayFormat, a: CrayFp, b: CrayFp): int { a.expo + b.expo - g.bias }

  // ---- The exact product ----

  /** A number is its units divided by this. */
  function UnitsPerOne(g: CrayFormat): nat
    requires g.limbs > 0
  {
    Pow2(g.bias + g.Bits() - 1)
  }

  /** The exact product, which is a whole number of units in range. */
  function ExactProduct(g: CrayFormat, a: CrayFp, b: CrayFp): nat
    requires g.Valid() && ProductExpo(g, a, b) >= g.Bits()
  {
    Mul(Mul(a.coeff, b.coeff), Pow2(ProductExpo(g, a, b) - (g.Bits() - 1)))
  }

  lemma {:induction false} ExactProductIs(g: CrayFormat, a: CrayFp, b: CrayFp)
    requires g.Valid() && ProductExpo(g, a, b) >= g.Bits()
    ensures Mul(CrayUnits(a), CrayUnits(b)) == Mul(ExactProduct(g, a, b), UnitsPerOne(g))
  {
    var d, p, q := Mul(a.coeff, b.coeff), Pow2(a.expo), Pow2(b.expo);
    MulAssoc(a.coeff, p, Mul(b.coeff, q));
    MulComm(p, Mul(b.coeff, q));
    MulAssoc(b.coeff, q, p);
    MulComm(q, p);
    MulAssoc(a.coeff, b.coeff, Mul(p, q));
    Pow2Add(a.expo, b.expo);
    Pow2Add(ProductExpo(g, a, b) - (g.Bits() - 1), g.bias + g.Bits() - 1);
    MulAssoc(d, Pow2(ProductExpo(g, a, b) - (g.Bits() - 1)), UnitsPerOne(g));
  }

  /** A product of coefficients in last places of the result. */
  lemma {:induction false} InLastPlaces(g: CrayFormat, a: CrayFp, b: CrayFp)
    requires g.Valid() && ProductExpo(g, a, b) >= g.Bits()
    ensures var k := Pow2(ProductExpo(g, a, b) - (g.Bits() - 1));
      ExactProduct(g, a, b) == Mul(Mul(a.coeff, b.coeff), k) && Mul(g.Half(), k) == Pow2(ProductExpo(g, a, b))
  {
    Pow2Add(g.Bits() - 1, ProductExpo(g, a, b) - (g.Bits() - 1));
  }

  // ---- ar_cfmul128 ----

  /** The product coefficient m, packaged with sign and exponent in one number, and the tests on it. */
  function PackDouble(g: CrayFormat, a: CrayFp, b: CrayFp, m: nat, carried: bool, inexact: bool): (CrayFp, set<Flag>) {
    var e := ProductExpo(g, a, b);
    var over := e >= g.most || (a.expo > g.most && b.expo != 0) || (b.expo > g.most && a.expo != 0);
    Unpack(g, e + (if carried then 1 else 0) + SignBits(a.sign) + SignBits(b.sign), m, over, inexact)
  }

  /** The underflow test, and sign and exponent out of their package. */
  function Unpack(g: CrayFormat, package: int, m: nat, over: bool, inexact: bool): (CrayFp, set<Flag>) {
    var kept := (package + g.least) / 16384 % 2 == 1;
    var r := if kept then CrayFp(package / EXPO_VALUES % 2 == 1, package % EXPO_VALUES, m) else CRAY_ZERO;
    (r, DoubleFlags(r, over, !kept, inexact))
  }

  function SignBits(sign: bool): nat { if sign then EXPO_VALUES else 0 }

  function DoubleFlags(r: CrayFp, over: bool, under: bool, inexact: bool): set<Flag> {
    (if over then {Overflow} else {}) + (if under then {Underflow} else {})
    + (if r == CRAY_ZERO then {ZeroResult} else {}) + Normalizer.SignFlag(r.sign)
    + if inexact then {Inexact} else {}
  }

  /** No Cray number is closer to n than r. */
  ghost predicate NoneCloser(g: CrayFormat, r: CrayFp, n: nat)
    requires g.limbs > 0
  {
    IsCray(g, r) && forall v :: IsCray(g, v) ==> Abs(CrayUnits(r) - n) <= Abs(CrayUnits(v) - n)
  }

  /** A multiple of a last place that is off by half of it at most. */
  lemma {:induction false} HalfPlaceIsNearest(g: CrayFormat, m: nat, e: nat, v: CrayFp, n: nat)
    requires g.Valid() && IsCray(g, v) && Mul(g.Half(), Pow2(e)) <= n
    requires 2 * Abs(Mul(m, Pow2(e)) - n) <= Pow2(e)
    ensures Abs(Mul(m, Pow2(e)) - n) <= Abs(CrayUnits(v) - n)
  {
    var u := Pow2(e);
    if v.expo >= e {
      var k := Mul(v.coeff, Pow2(v.expo - e));
      Pow2Add(v.expo - e, e);
      MulAssoc(v.coeff, Pow2(v.expo - e), u);
      OtherMultiple(m, k, u, n);
    } else {
      Pow2Mono(v.expo + 1, e);
      MulLt(v.coeff, 2 * g.Half(), Pow2(v.expo));
      MulTwo(g.Half(), Pow2(v.expo));
      MulLeRight(g.Half(), 2 * Pow2(v.expo), u);
      OtherMultiple(m, g.Half(), u, n);
    }
  }

  lemma {:induction false} OtherMultiple(m: nat, k: nat, u: nat, n: nat)
    requires 2 * Abs(Mul(m, u) - n) <= u
    ensures Abs(Mul(m, u) - n) <= Abs(Mul(k, u) - n)
  {
    MulOne(u);
    if k < m {
      MulAdd(m - 1, 1, u);
      MulLe(k, m - 1, u);
    } else if k > m {
      MulAdd(m, 1, u);
      MulLe(m + 1, k, u);
    }
  }

  /** The rounded product in units. */
  lemma {:induction false} RoundedUnits(d: nat, h: nat, m: nat, k: nat)
    requires HalfUp(d, h, m)
    ensures 2 * Abs(Mul(m, Mul(h, k)) - Mul(d, k)) <= Mul(h, k)
    ensures k > 0 ==> (Mul(m, Mul(h, k)) == Mul(d, k) <==> Mul(m, h) == d)
  {
    MulAdd(m, 1, h);
    MulOne(h);
    MulAssoc(m, h, k);
    var t := Mul(m, h);
    var gap := Abs(t - d);
    MulTwo(gap, k);
    MulLe(2 * gap, h, k);
    if t >= d { MulSub(t, d, k); } else { MulSub(d, t, k); }
    if t != d && k > 0 { MulPositive(gap, k); }
  }

  /** d is an odd multiple of h. */
  ghost predicate OddMultiple(d: nat, h: nat) { exists k: nat :: Mul(2 * k + 1, h) == d }

  /** A carry shifts out the last bit of an odd multiple. */
  lemma {:induction false} CarriedExactly(d: nat, h: nat, m: nat, inexact: bool)
    requires h > 0 && RoundsOnce(d, h, m, true, inexact)
    ensures (inexact <==> Mul(m, 2 * h) != d) <==> !OddMultiple(d, h)
  {
    MulTwo(m, h);
    if OddMultiple(d, h) {
      var k: nat :| Mul(2 * k + 1, h) == d;
      assert Multiple(d, h);
      if Mul(m, 2 * h) == d {
        MulOrder(2 * k + 1, 2 * m + 1, h);
        MulOrder(2 * m, 2 * k + 2, h);
        MulAdd(2 * m, 1, h);
        MulAdd(2 * k + 1, 1, h);
        MulOne(h);
      }
    } else if Multiple(d, h) {
      var k: nat :| Mul(k, h) == d;
      OddIsOdd(d, h, k);
      EvenMultiple(d, h, m, k / 2);
    } else {
      assert Mul(2 * m, h) == d ==> Multiple(d, h);
    }
  }

  lemma {:induction false} OddIsOdd(d: nat, h: nat, k: nat)
    requires Mul(k, h) == d
    ensures k % 2 == 0 || OddMultiple(d, h)
  {
    if k % 2 == 1 { assert k == 2 * (k / 2) + 1; }
  }

  lemma {:induction false} EvenMultiple(d: nat, h: nat, m: nat, j: nat)
    requires h > 0 && HalfUp(d, 2 * h, m) && Mul(2 * j, h) == d
    ensures Mul(m, 2 * h) == d
  {
    MulTwo(j, h);
    MulAdd(m, 1, 2 * h);
    MulOne(2 * h);
    if j < m {
      MulAdd(j, 1, 2 * h);
      MulLe(j + 1, m, 2 * h);
    } else if j > m {
      MulLe(m + 1, j, 2 * h);
    }
  }

  lemma {:induction false} UncarriedExactly(d: nat, h: nat, m: nat, inexact: bool)
    requires h > 0 && RoundsOnce(d, h, m, false, inexact)
    ensures inexact <==> Mul(m, h) != d
  {
    MulAdd(m, 1, h);
    MulOne(h);
    forall k: nat | Mul(k, h) == d
      ensures k == m
    {
      if k < m {
        MulAdd(k, 1, h);
        MulLe(k + 1, m, h);
      } else if k > m {
        MulLe(m + 1, k, h);
      }
    }
  }

  lemma {:induction false} ProductBounds(h: nat, x: nat, y: nat)
    requires h > 0 && h <= x < 2 * h && h <= y < 2 * h
    ensures Mul(h, h) <= Mul(x, y) <= 4 * Mul(h, h) - 4 * h + 1
  {
    MulLe(h, x, h);
    MulLeRight(x, h, y);
    LargestProduct(h, x, y);
  }

  lemma {:induction false} LargestProduct(h: nat, x: nat, y: nat)
    requires h > 0 && x < 2 * h && y < 2 * h
    ensures Mul(x, y) <= 4 * Mul(h, h) - 4 * h + 1
  {
    MulLe(x, 2 * h - 1, y);
    MulLeRight(2 * h - 1, y, 2 * h - 1);
    MulSub(2 * h, 1, 2 * h - 1);
    MulOne(2 * h - 1);
    MulComm(2 * h, 2 * h - 1);
    MulSub(2 * h, 1, 2 * h);
    MulOne(2 * h);
    FourSquares(h);
  }

  lemma {:induction false} FourSquares(h: nat)
    ensures Mul(2 * h, h) == Mul(h, 2 * h) == 2 * Mul(h, h) && Mul(2 * h, 2 * h) == 4 * Mul(h, h)
  {
    MulTwo(h, h);
    MulTwo(h, 2 * h);
    MulComm(h, 2 * h);
  }

  /** The rounded coefficient of a product of normalized numbers is normalized. */
  lemma {:induction false} RoundedNormalized(h: nat, x: nat, y: nat, m: nat, carried: bool, inexact: bool)
    requires h > 0 && h <= x < 2 * h && h <= y < 2 * h && RoundsOnce(Mul(x, y), h, m, carried, inexact)
    ensures h <= m < 2 * h && Mul(h, h) <= Mul(x, y)
  {
    hide Mul, Multiple;
    var u := if carried then 2 * h else h;
    ProductBounds(h, x, y);
    FourSquares(h);
    if m < h { MulLe(m + 1, h, u); }
    if m >= 2 * h { MulLe(2 * h, m, u); }
  }

  /** The package of a product of numbers in range: the exponent and the sign, if the exponent is in range. */
  lemma {:induction false} PackageInRange(g: CrayFormat, a: CrayFp, b: CrayFp, m: nat, carried: bool, inexact: bool)
    requires CrayRange(g) && Ordinary(g, a) && Ordinary(g, b)
    ensures var (r, res) := PackDouble(g, a, b, m, carried, inexact);
      var e := ProductExpo(g, a, b) + if carried then 1 else 0;
      if g.least <= e <= g.most then
        && r == CrayFp(a.sign != b.sign, e, m) && Underflow !in res && ZeroResult !in res
        && (Negative in res <==> r.sign) && (Overflow in res <==> e == g.most && !carried)
        && (Inexact in res <==> inexact)
      else
        r == CRAY_ZERO && Underflow in res && ZeroResult in res && Negative !in res && (Overflow in res <==> e > g.most)
  {
    var e := ProductExpo(g, a, b) + if carried then 1 else 0;
    PackageParts(e, if a.sign == b.sign then if a.sign then 2 else 0 else 1);
  }

  /** Exponent e and k sign bits in one number. */
  lemma {:induction false} PackageParts(e: int, k: nat)
    requires -1 <= e < EXPO_VALUES && k <= 2
    ensures var p := e + k * EXPO_VALUES;
      && ((p + 8192) / 16384 % 2 == 1 <==> 8192 <= e <= 24575)
      && (e >= 0 ==> (p / EXPO_VALUES % 2 == 1 <==> k == 1) && p % EXPO_VALUES == e)
  {
    var q := if e < 8192 then 0 else if e <= 24575 then 1 else 2;
    assert (e + k * EXPO_VALUES + 8192) / 16384 == 2 * k + q;
  }

  /**
   * ar_cfmul128 for every pair of operands whose coefficients are not zero, m being the rounded coefficient.
   * The sum of sign and exponent in one package keeps the exponents in range, and those that are off
   * by more than 2^14 wrap round into the range and turn the sign; all others give zero with
   * UNDERFLOW. OVERFLOW looks at the exponents as they are.
   */
  lemma {:induction false} DoubleOutcome(g: CrayFormat, a: CrayFp, b: CrayFp, m: nat, carried: bool, inexact: bool)
    requires CrayRange(g) && a.expo < EXPO_VALUES && b.expo < EXPO_VALUES
    ensures var (r, res) := PackDouble(g, a, b, m, carried, inexact); var e := ProductExpo(g, a, b);
      var e', sign := e + (if carried then 1 else 0), a.sign != b.sign;
      && r == (if g.least <= e' <= g.most then CrayFp(sign, e', m)
               else if e' >= g.most + 16385 then CrayFp(!sign, e' - EXPO_VALUES, m)
               else if e' < -8192 then CrayFp(!sign, e' + EXPO_VALUES, m)
               else CRAY_ZERO)
      && (Underflow in res <==> r == CRAY_ZERO) && (ZeroResult in res <==> r == CRAY_ZERO)
      && (Negative in res <==> r.sign) && (Inexact in res <==> inexact)
      && (Overflow in res <==>
            e >= g.most || (a.expo > g.most && b.expo != 0) || (b.expo > g.most && a.expo != 0))
  {
    hide DoubleFlags;
    var e := ProductExpo(g, a, b) + if carried then 1 else 0;
    var (r, res) := PackDouble(g, a, b, m, carried, inexact);
    PackageWraps(e, if a.sign == b.sign then if a.sign then 2 else 0 else 1);
    var over := ProductExpo(g, a, b) >= g.most || (a.expo > g.most && b.expo != 0) || (b.expo > g.most && a.expo != 0);
    FlagsAreThese(r, over, r == CRAY_ZERO, inexact);
  }

  lemma {:induction false} FlagsAreThese(r: CrayFp, over: bool, under: bool, inexact: bool)
    ensures var res := DoubleFlags(r, over, under, inexact);
      && (Underflow in res <==> under) && (ZeroResult in res <==> r == CRAY_ZERO) && (Negative in res <==> r.sign)
      && (Inexact in res <==> inexact) && (Overflow in res <==> over)
  {
  }

  lemma {:induction false} PackageWraps(e: int, k: nat)
    requires -16385 <= e <= 49150 && k <= 2
    ensures var p := e + k * EXPO_VALUES;
      && ((p + 8192) / 16384 % 2 == 1 <==> e < -8192 || 8192 <= e <= 24575 || e >= 40960)
      && p / EXPO_VALUES % 2 == (k + if e < 0 || e >= EXPO_VALUES then 1 else 0) % 2
      && p % EXPO_VALUES == if e < 0 then e + EXPO_VALUES else if e >= EXPO_VALUES then e - EXPO_VALUES else e
  {
    var q := if e < -8192 then -1 else if e < 8192 then 0 else if e <= 24575 then 1 else if e < 40960 then 2 else 3;
    assert (e + k * EXPO_VALUES + 8192) / 16384 == 2 * k + q;
    var j := if e < 0 then -1 else if e < EXPO_VALUES then 0 else 1;
    assert (e + k * EXPO_VALUES) / EXPO_VALUES == k + j;
  }

  /**
   * ar_cfmul128 for normalized operands in range. A product in range is rounded once: no Cray number
   * is closer to it. OVERFLOW is a false alarm for the largest exponent without a carry, and INEXACT
   * is right if and only if no carry alone lost a bit. A product out of range on either side becomes zero.
   */
  lemma {:induction false} DoubleDelivers(g: CrayFormat, a: CrayFp, b: CrayFp, m: nat, carried: bool, inexact: bool)
    requires CrayRange(g) && Ordinary(g, a) && Ordinary(g, b)
    requires RoundsOnce(Mul(a.coeff, b.coeff), g.Half(), m, carried, inexact)
    ensures var (r, res) := PackDouble(g, a, b, m, carried, inexact);
      var e := ProductExpo(g, a, b) + if carried then 1 else 0;
      if g.least <= e <= g.most then
        var n := ExactProduct(g, a, b);
        && Ordinary(g, r) && r.sign == (a.sign != b.sign) && r.expo == e && NoneCloser(g, r, n)
        && 2 * Abs(CrayUnits(r) - n) <= Pow2(e)
        && Underflow !in res && ZeroResult !in res && (Negative in res <==> r.sign)
        && (Overflow in res <==> e == g.most && !carried)
        && ((Inexact in res <==> CrayUnits(r) != n)
            <==> !(carried && OddMultiple(Mul(a.coeff, b.coeff), g.Half())))
      else
        r == CRAY_ZERO && Underflow in res && ZeroResult in res && Negative !in res && (Overflow in res <==> e > g.most)
  {
    hide Mul, Pow2, PackDouble, RoundsOnce, ExactProduct, OddMultiple;
    var e := ProductExpo(g, a, b) + if carried then 1 else 0;
    PackageInRange(g, a, b, m, carried, inexact);
    RoundedNormalized(g.Half(), a.coeff, b.coeff, m, carried, inexact);
    if g.least <= e <= g.most {
      ProductNearest(g, a, b, m, carried, inexact, e);
    }
  }

  lemma {:induction false} ProductNearest(g: CrayFormat, a: CrayFp, b: CrayFp, m: nat, carried: bool, inexact: bool,
                                          e: nat)
    requires CrayRange(g) && g.Half() <= m < 2 * g.Half() && Mul(g.Half(), g.Half()) <= Mul(a.coeff, b.coeff)
    requires e == ProductExpo(g, a, b) + (if carried then 1 else 0) && e >= g.least
    requires RoundsOnce(Mul(a.coeff, b.coeff), g.Half(), m, carried, inexact)
    ensures var n := ExactProduct(g, a, b); var r := CrayFp(a.sign != b.sign, e, m);
      && NoneCloser(g, r, n) && 2 * Abs(CrayUnits(r) - n) <= Pow2(e)
      && ((inexact <==> CrayUnits(r) != n) <==> !(carried && OddMultiple(Mul(a.coeff, b.coeff), g.Half())))
  {
    hide Mul, OddMultiple, NoneCloser, ExactProduct, HalfUp, Multiple;
    var d, h, n := Mul(a.coeff, b.coeff), g.Half(), ExactProduct(g, a, b);
    var k := Pow2(ProductExpo(g, a, b) - (g.Bits() - 1));
    var r := CrayFp(a.sign != b.sign, e, m);
    InLastPlaces(g, a, b);
    MulTwo(h, k);
    RoundedUnits(d, if carried then 2 * h else h, m, k);
    if carried { CarriedExactly(d, h, m, inexact); } else { UncarriedExactly(d, h, m, inexact); }
    if carried && d < Mul(2 * h, h) {
      RoundedToBinade(d, h, m);
      RoundedUnits(d, h, 2 * h, k);
      MulTwo(h, Pow2(e - 1));
      AllFarther(g, r, 2 * h, e - 1, d, h, k, n);
    } else {
      MulComm(h, 2 * h);
      AllFarther(g, r, m, e, d, if carried then 2 * h else h, k, n);
    }
  }

  /** A product just below a power of two is rounded to it. */
  lemma {:induction false} RoundedToBinade(d: nat, h: nat, m: nat)
    requires h <= m && HalfUp(d, 2 * h, m) && d < Mul(2 * h, h) && 2 * d + h >= 2 * Mul(2 * h, h)
    ensures m == h && HalfUp(d, h, 2 * h)
  {
    MulTwo(h, h);
    MulComm(h, 2 * h);
    MulAdd(h, 1, 2 * h);
    MulAdd(2 * h, 1, h);
    MulOne(h);
    MulOne(2 * h);
    if m > h { MulLe(h + 1, m, 2 * h); }
  }

  lemma {:induction false} AllFarther(g: CrayFormat, r: CrayFp, m: nat, e: nat, d: nat, w: nat, k: nat, n: nat)
    requires g.Valid() && IsCray(g, r) && CrayUnits(r) == Mul(m, Pow2(e)) && Pow2(e) == Mul(w, k) && n == Mul(d, k)
    requires 2 * Abs(Mul(m, Pow2(e)) - n) <= Pow2(e) && Mul(g.Half(), w) <= d
    ensures NoneCloser(g, r, n)
  {
    MulAssoc(g.Half(), w, k);
    MulLe(Mul(g.Half(), w), d, k);
    forall v | IsCray(g, v)
      ensures Abs(CrayUnits(r) - n) <= Abs(CrayUnits(v) - n)
    {
      HalfPlaceIsNearest(g, m, e, v, n);
    }
  }

  // ---- ar_cfmul64 ----

  datatype CrayRound = RoundedProduct | UnroundedProduct | ReciprocalIteration

  /** What the register holds before the pyramid is added, in 128ths. */
  function Start(h: nat, mode: CrayRound): int {
    match mode
    case RoundedProduct => 105
    case UnroundedProduct => 9
    case ReciprocalIteration => 512 * h - 199
  }

  /** Left bits, coefficient and rounding bits hold start and pyramid. */
  ghost predicate Sums(g: CrayFormat, mode: CrayRound, a: CrayFp, b: CrayFp, lbits: nat, c: nat, rbits: nat)
    requires g.limbs > 0
  {
    var h := g.Half();
    && c < 2 * h && rbits < 128
    && (Mul(lbits, 2 * h) + c) * 128 + rbits == Start(h, mode) + Pyramid(a.coeff * 128, b.coeff, g.Bits())
  }

  /** Two zero exponents multiply integers. */
  predicate IntegerProduct(a: CrayFp, b: CrayFp) { a.expo == 0 && b.expo == 0 }

  predicate TooSmall(g: CrayFormat, a: CrayFp, b: CrayFp) {
    && !IntegerProduct(a, b)
    && (a.expo + 1 < g.least || b.expo + 1 < g.least || ProductExpo(g, a, b) + 1 < g.least)
  }

  /** A carry and the coefficient: the reciprocal iteration complements the sum. */
  function SingleCoeff(h: nat, mode: CrayRound, lbits: nat, c: nat): (bool, nat)
    requires c < 2 * h
  {
    if mode == ReciprocalIteration then (lbits % 2 == 0, 2 * h - 1 - c) else (lbits % 2 == 1, c)
  }

  /** Normalize right, and the range tests. */
  function PackSingle(g: CrayFormat, mode: CrayRound, a: CrayFp, b: CrayFp, lbits: nat, c: nat): (CrayFp, set<Flag>)
    requires g.Valid() && c < 2 * g.Half()
  {
    if TooSmall(g, a, b) then (CRAY_ZERO, {Underflow, ZeroResult})
    else
      var whole := IntegerProduct(a, b);
      var e: nat := if whole then 0 else ProductExpo(g, a, b);
      var (bit, c') := SingleCoeff(g.Half(), mode, lbits, c);
      var over := e >= g.most || a.expo > g.most || b.expo > g.most;
      var r := CrayFp(!whole && a.sign != b.sign,
                      if over then g.most + 1 else if bit && !whole then e + 1 else e,
                      if bit then c' / 2 + g.Half() else if whole then c' / 2 else c');
      (r, SingleFlags(r, over))
  }

  function SingleFlags(r: CrayFp, over: bool): set<Flag> {
    (if over then {Overflow} else {}) + (if r == CRAY_ZERO then {ZeroResult} else {}) + Normalizer.SignFlag(r.sign)
  }

  // ---- How far the truncated product is off ----

  lemma {:induction false} Mul128(t: nat, h: nat)
    ensures Mul(128 * t, h) == 128 * Mul(t, h)
  {
    MulIs(128, t);
    MulAssoc(128, t, h);
    MulIs(128, Mul(t, h));
  }

  /** The pyramid is the product in 128ths of a last place, less than w - 8 of them too small. */
  lemma {:induction false} PyramidBounds(g: CrayFormat, x: nat, y: nat)
    requires g.limbs > 0 && x < 2 * g.Half() && y < 2 * g.Half()
    ensures var p, d, h := Pyramid(x * 128, y, g.Bits()), Mul(x, y), g.Half();
      && p <= 512 * h - 512 && h >= 256 && Mul(p, h) <= 128 * d < Mul(p + (g.Bits() - 8), h)
      && (h <= x && h <= y ==> 128 * h <= p)
  {
    hide Mul;
    var p, d, h := Pyramid(x * 128, y, g.Bits()), Mul(x, y), g.Half();
    TruncationError(x, y, g.Bits());
    Mul128(x, y);
    LargestProduct(h, x, y);
    Pow2Mono(8, g.Bits() - 1);
    assert Pow2(8) == 256 by { Pow2Seven(); }
    BelowTop(p, h);
  }

  lemma {:induction false} BelowTop(p: nat, h: nat)
    requires h >= 256 && Mul(p, h) <= 512 * Mul(h, h) - 512 * h + 128
    ensures p <= 512 * h - 512
  {
    Mul128(4 * h, h);
    FourSquares(h);
    MulTwo(2 * h, h);
    MulIs(511, h);
    MulSub(512 * h, 511, h);
    if p > 512 * h - 512 { MulLe(512 * h - 511, p, h); }
  }

  /** The truncated sum t with start s, scaled to the exponent of the product. */
  lemma {:induction false} SumBounds(p: nat, d: nat, h: nat, s: nat, t: nat, r: nat, w: nat, k: nat)
    requires t * 128 + r == s + p && r < 128 && w >= 8 && s <= 119 + w
    requires Mul(p, h) <= 128 * d < Mul(p + (w - 8), h) && k > 0
    ensures 128 * Mul(t, Mul(h, k)) <= 128 * Mul(d, k) + Mul(s, Mul(h, k))
    ensures 128 * Mul(d, k) < 128 * Mul(t, Mul(h, k)) + Mul(119 + w - s, Mul(h, k))
  {
    hide Mul;
    var o := 119 + w - s;
    MulLe(128 * t, s + p, h);
    MulAdd(p, s, h);
    MulLe(p + (w - 8), 128 * t + o, h);
    MulAdd(128 * t, o, h);
    MulLe(Mul(128 * t, h), 128 * d + Mul(s, h), k);
    MulAdd(128 * d, Mul(s, h), k);
    MulLt(128 * d, Mul(128 * t, h) + Mul(o, h), k);
    MulAdd(Mul(128 * t, h), Mul(o, h), k);
    MulAssoc(128 * t, h, k);
    MulAssoc(s, h, k);
    MulAssoc(o, h, k);
    Mul128(t, Mul(h, k));
    Mul128(d, k);
  }

  /** The complement x of the sum and the product make up 4 * h last places and a little more. */
  lemma {:induction false} ComplementBounds(p: nat, d: nat, h: nat, x: nat, r: nat, w: nat, k: nat)
    requires 128 * x + p == 512 * h + 71 + r && r < 128 && w >= 8
    requires Mul(p, h) <= 128 * d < Mul(p + (w - 8), h) && k > 0
    ensures var u := Mul(h, k);
      && 128 * Mul(4 * h, u) + Mul(71, u) <= 128 * (Mul(x, u) + Mul(d, k))
      && 128 * (Mul(x, u) + Mul(d, k)) < 128 * Mul(4 * h, u) + Mul(190 + w, u)
  {
    hide Mul;
    var u := Mul(h, k);
    MulLe(p, p + (w - 8), h);
    MulLe(Mul(p, h), 128 * d, k);
    MulLt(128 * d, Mul(p + (w - 8), h), k);
    MulAssoc(p, h, k);
    MulAssoc(p + (w - 8), h, k);
    MulAdd(128 * x, p, u);
    MulAdd(128 * x, p + (w - 8), u);
    MulLe(512 * h + 71, 128 * x + p, u);
    MulLe(128 * x + (p + (w - 8)), 512 * h + (190 + w), u);
    MulAdd(512 * h, 71, u);
    MulAdd(512 * h, 190 + w, u);
    Mul128(x, u);
    Mul128(d, k);
    Mul128(4 * h, u);
  }

  /** A coefficient x of one bit more is halved, which drops its last bit. */
  lemma {:induction false} HalvedUnits(h: nat, bit: bool, c: nat, x: nat, m: nat, e: nat)
    requires x == c + (if bit then 2 * h else 0) && m == (if bit then c / 2 + h else c)
    ensures var units := Mul(m, Pow2(if bit then e + 1 else e));
      units == Mul(x, Pow2(e)) - if bit && x % 2 == 1 then Pow2(e) else 0
  {
    if bit {
      DivMod2(x, c / 2 + h, c % 2);
      MulTwo(m, Pow2(e));
      MulAdd(2 * m, x % 2, Pow2(e));
      MulOne(Pow2(e));
    }
  }

  /** The package of operands in range, for a coefficient x with its carry. */
  lemma {:induction false} SinglePackage(g: CrayFormat, mode: CrayRound, a: CrayFp, b: CrayFp, lbits: nat, c: nat)
    requires CrayRange(g) && Ordinary(g, a) && Ordinary(g, b) && c < 2 * g.Half()
    ensures var (r, res) := PackSingle(g, mode, a, b, lbits, c);
      var e := ProductExpo(g, a, b); var (bit, c') := SingleCoeff(g.Half(), mode, lbits, c);
      if e + 1 < g.least then r == CRAY_ZERO && res == {Underflow, ZeroResult}
      else if e >= g.most then
        r.expo == g.most + 1 && r.sign == (a.sign != b.sign) && res == Normalizer.SignFlag(r.sign) + {Overflow}
      else
        && r == CrayFp(a.sign != b.sign, if bit then e + 1 else e, if bit then c' / 2 + g.Half() else c')
        && res == Normalizer.SignFlag(r.sign) + if r == CRAY_ZERO then {ZeroResult} else {}
  {
  }

  /** How far the result may lie above and below what it stands for, in 128ths of a last place of
      the product: `up` above and `down` below, and one more place below if a bit was shifted out. */
  predicate Within(r: CrayFp, e: nat, n: int, up: nat, down: nat) {
    && 128 * CrayUnits(r) <= 128 * n + Mul(up, Pow2(e))
    && 128 * n < 128 * CrayUnits(r) + Mul(down, Pow2(e)) + if r.expo > e then 128 * Pow2(e) else 0
  }

  /**
   * ar_cfmul64 for normalized operands in range, in the modes that round or compensate: normalized,
   * with the right sign, and off by less than a last place in the rounded mode with 48 bits.
   */
  lemma {:induction false} SingleDelivers(g: CrayFormat, mode: CrayRound, a: CrayFp, b: CrayFp, lbits: nat, c: nat,
                                          rbits: nat)
    requires CrayRange(g) && Ordinary(g, a) && Ordinary(g, b) && mode != ReciprocalIteration
    requires Sums(g, mode, a, b, lbits, c, rbits)
    ensures var (r, res) := PackSingle(g, mode, a, b, lbits, c); var e := ProductExpo(g, a, b);
      if e + 1 < g.least then r == CRAY_ZERO && res == {Underflow, ZeroResult}
      else if e >= g.most then
        r.expo == g.most + 1 && r.sign == (a.sign != b.sign) && res == Normalizer.SignFlag(r.sign) + {Overflow}
      else
        && Normalized(g, r) && r.sign == (a.sign != b.sign) && e <= r.expo <= e + 1
        && res == Normalizer.SignFlag(r.sign)
        && if mode == RoundedProduct then Within(r, e, ExactProduct(g, a, b), 105, g.Bits() + 14)
           else Within(r, e, ExactProduct(g, a, b), 9, g.Bits() + 110)
  {
    hide Mul, Pow2, PackSingle, ExactProduct;
    var e, s, h, d := ProductExpo(g, a, b), Start(g.Half(), mode), g.Half(), Mul(a.coeff, b.coeff);
    var p, t := Pyramid(a.coeff * 128, b.coeff, g.Bits()), Mul(lbits, 2 * h) + c;
    SinglePackage(g, mode, a, b, lbits, c);
    PyramidBounds(g, a.coeff, b.coeff);
    if g.least <= e + 1 && e < g.most {
      var k := Pow2(e - (g.Bits() - 1));
      InLastPlaces(g, a, b);
      LeftBits(lbits, c, 2 * h);
      SumBounds(p, d, h, s, t, rbits, g.Bits(), k);
      HalvedUnits(h, lbits == 1, c, t, if lbits == 1 then c / 2 + h else c, e);
    }
  }

  /**
   * The reciprocal iteration for normalized operands in range: product and result make up two to the
   * power of the next exponent after the product's, so that with a near the reciprocal of b the result
   * is near 2 - a * b; the error is at most 119 + w of 128 last places and a place shifted out.
   */
  lemma {:induction false} ReciprocalDelivers(g: CrayFormat, a: CrayFp, b: CrayFp, lbits: nat, c: nat, rbits: nat)
    requires CrayRange(g) && Ordinary(g, a) && Ordinary(g, b)
    requires Sums(g, ReciprocalIteration, a, b, lbits, c, rbits)
    requires g.least <= ProductExpo(g, a, b) + 1 && ProductExpo(g, a, b) < g.most
    ensures var (r, res) := PackSingle(g, ReciprocalIteration, a, b, lbits, c); var e := ProductExpo(g, a, b);
      var two := Pow2(e + g.Bits() + 1);
      && r.sign == (a.sign != b.sign) && e <= r.expo <= e + 1 && r.coeff < 2 * g.Half() && Overflow !in res
      && 128 * (CrayUnits(r) + ExactProduct(g, a, b)) < 128 * two + Mul(190 + g.Bits(), Pow2(e))
      && 128 * two + Mul(71, Pow2(e))
         <= 128 * (CrayUnits(r) + ExactProduct(g, a, b)) + if r.expo > e then 128 * Pow2(e) else 0
  {
    hide Mul, Pow2, Pyramid, PackSingle, ExactProduct;
    var e, h, d := ProductExpo(g, a, b), g.Half(), Mul(a.coeff, b.coeff);
    var p, t := Pyramid(a.coeff * 128, b.coeff, g.Bits()), Mul(lbits, 2 * h) + c;
    SinglePackage(g, ReciprocalIteration, a, b, lbits, c);
    PyramidBounds(g, a.coeff, b.coeff);
    var k := Pow2(e - (g.Bits() - 1));
    InLastPlaces(g, a, b);
    TwoOrThree(lbits, c, h);
    var x, c' := 8 * h - 1 - t, 2 * h - 1 - c;
    ComplementBounds(p, d, h, x, rbits, g.Bits(), k);
    HalvedUnits(h, lbits % 2 == 0, c', x, if lbits % 2 == 0 then c' / 2 + h else c', e);
    FourHalves(g, e);
  }

  lemma {:induction false} FourHalves(g: CrayFormat, e: nat)
    requires g.limbs > 0
    ensures Mul(4 * g.Half(), Pow2(e)) == Pow2(e + g.Bits() + 1)
  {
    assert Pow2(g.Bits() + 1) == 2 * Pow2(g.Bits());
    Pow2Add(g.Bits() + 1, e);
  }

  lemma {:induction false} TwoOrThree(l: nat, c: nat, h: nat)
    requires c < 2 * h && 4 * h <= Mul(l, 2 * h) + c < 8 * h
    ensures 2 <= l <= 3 && Mul(l, 2 * h) == if l == 2 then 4 * h else 6 * h
  {
    SmallMultiples(2 * h);
    MulOrder(1, l, 2 * h);
    MulOrder(l, 4, 2 * h);
  }

  // ---- Every pair of operands of ar_cfmul64 ----

  /** m places of weight h, or of twice that if the coefficient was shifted, are d but for up / 128 places
      too much and less than down / 128 too little, and one place more for a bit shifted out. */
  predicate CoeffWithin(h: nat, m: nat, shifted: bool, d: nat, up: nat, down: nat) {
    var n := Mul(if shifted then 2 * m else m, h);
    && 128 * n <= 128 * d + Mul(up, h)
    && 128 * d < 128 * n + Mul(down, h) + if shifted then 128 * h else 0
  }

  /** The reciprocal iteration: coefficient and product of coefficients d make up 4 * h places, a little too
      much or a place shifted out too little; with next to no product p the sum has no room for them,
      and nothing is left. */
  predicate CoeffComplements(h: nat, m: nat, shifted: bool, d: nat, p: nat, w: nat) {
    var n := Mul(if shifted then 2 * m else m, h);
    if p < 199 then m == if shifted || p >= 71 then 0 else 1
    else
      && 128 * Mul(4 * h, h) + Mul(71, h) <= 128 * (n + d) + (if shifted then 128 * h else 0)
      && 128 * (n + d) < 128 * Mul(4 * h, h) + Mul(190 + w, h)
  }

  /** A coefficient and the bit before it, halved. */
  lemma {:induction false} HalvedCoeff(h: nat, bit: bool, c: nat, t: nat, m: nat)
    requires c < 2 * h && t == c + (if bit then 2 * h else 0) && m == (if bit then c / 2 + h else c / 2)
    ensures m < 2 * h && (bit ==> h <= m)
    ensures Mul(2 * m, h) == Mul(t, h) - if t % 2 == 1 then h else 0
  {
    DivMod2(t, m, c % 2);
    MulAdd(2 * m, t % 2, h);
    MulOne(h);
  }

  lemma {:induction false} SummedCoeff(h: nat, bit: bool, c: nat, m: nat, shifted: bool, p: nat, d: nat, s: nat, r: nat,
                                       w: nat)
    requires h > 0 && c < 2 * h && r < 128 && w >= 8 && s <= 119 + w && (bit ==> shifted)
    requires (c + (if bit then 2 * h else 0)) * 128 + r == s + p && Mul(p, h) <= 128 * d < Mul(p + (w - 8), h)
    requires m == (if bit then c / 2 + h else if shifted then c / 2 else c)
    ensures CoeffWithin(h, m, shifted, d, s, 119 + w - s) && m < 2 * h && (bit ==> h <= m)
  {
    hide Mul;
    var t := c + if bit then 2 * h else 0;
    MulOne(h);
    MulOne(d);
    SumBounds(p, d, h, s, t, r, w, 1);
    HalvedCoeff(h, bit, c, t, if bit then c / 2 + h else c / 2);
  }

  lemma {:induction false} ComplementedCoeff(h: nat, lbits: nat, c: nat, m: nat, shifted: bool, p: nat, d: nat, r: nat,
                                             w: nat)
    requires h >= 256 && c < 2 * h && r < 128 && w >= 8 && p <= 512 * h - 512
    requires (Mul(lbits, 2 * h) + c) * 128 + r == 512 * h - 199 + p && Mul(p, h) <= 128 * d < Mul(p + (w - 8), h)
    requires lbits % 2 == 0 ==> shifted
    requires var c' := 2 * h - 1 - c; m == (if lbits % 2 == 0 then c' / 2 + h else if shifted then c' / 2 else c')
    ensures CoeffComplements(h, m, shifted, d, p, w) && m < 2 * h && (lbits % 2 == 0 ==> h <= m)
  {
    hide Mul;
    var t, c' := Mul(lbits, 2 * h) + c, 2 * h - 1 - c;
    MulOne(h);
    MulOne(d);
    if p < 199 {
      NoRoom(lbits, c, h);
    } else {
      TwoOrThree(lbits, c, h);
      ComplementBounds(p, d, h, 8 * h - 1 - t, r, w, 1);
      MulOne(d);
      HalvedCoeff(h, lbits % 2 == 0, c', 8 * h - 1 - t, if lbits % 2 == 0 then c' / 2 + h else c' / 2);
    }
  }

  lemma {:induction false} NoRoom(l: nat, c: nat, h: nat)
    requires h > 1 && c < 2 * h && 4 * h - 2 <= Mul(l, 2 * h) + c < 4 * h
    ensures l == 1 && Mul(l, 2 * h) == 2 * h
  {
    SmallMultiples(2 * h);
    MulOrder(0, l, 2 * h);
    MulOrder(l, 2, 2 * h);
  }

  lemma {:induction false} OneLeftBit(l: nat, c: nat, h: nat)
    requires c < 2 * h && Mul(l, 2 * h) + c < 4 * h
    ensures l <= 1 && Mul(l, 2 * h) == if l == 1 then 2 * h else 0
  {
    SmallMultiples(2 * h);
    MulOrder(l, 2, 2 * h);
  }

  /** The coefficient of any product, whatever becomes of sign and exponent. */
  lemma {:induction false} SingleCoefficient(g: CrayFormat, mode: CrayRound, a: CrayFp, b: CrayFp, lbits: nat, c: nat,
                                             rbits: nat, whole: bool, bit: bool, c': nat, m: nat)
    requires CrayRange(g) && IsCray(g, a) && IsCray(g, b) && Sums(g, mode, a, b, lbits, c, rbits)
    requires SingleCoeff(g.Half(), mode, lbits, c) == (bit, c')
    requires m == if bit then c' / 2 + g.Half() else if whole then c' / 2 else c'
    ensures SingleNear(g, mode, a, b, m, bit || whole) && m < 2 * g.Half() && (bit ==> g.Half() <= m)
  {
    hide Mul, Pyramid, CoeffWithin, CoeffComplements;
    var h, d, w := g.Half(), Mul(a.coeff, b.coeff), g.Bits();
    var p := Pyramid(a.coeff * 128, b.coeff, w);
    PyramidBounds(g, a.coeff, b.coeff);
    if mode == ReciprocalIteration {
      ComplementedCoeff(h, lbits, c, m, bit || whole, p, d, rbits, w);
    } else {
      OneLeftBit(lbits, c, h);
      SummedCoeff(h, bit, c, m, bit || whole, p, d, Start(h, mode), rbits, w);
    }
  }

  /** The coefficient m stands for the product of the coefficients, as the mode has it. */
  predicate SingleNear(g: CrayFormat, mode: CrayRound, a: CrayFp, b: CrayFp, m: nat, shifted: bool)
    requires g.limbs > 0
  {
    var h, d, w := g.Half(), Mul(a.coeff, b.coeff), g.Bits();
    match mode
    case RoundedProduct => CoeffWithin(h, m, shifted, d, 105, w + 14)
    case UnroundedProduct => CoeffWithin(h, m, shifted, d, 9, w + 110)
    case ReciprocalIteration => CoeffComplements(h, m, shifted, d, Pyramid(a.coeff * 128, b.coeff, w), w)
  }

  /**
   * ar_cfmul64 for every pair of operands and every mode. Integers, of exponent zero, give an integer with
   * plus. An operand or a product too small gives zero with UNDERFLOW, zero operands among them;
   * an operand or a product too large gives the out-of-range exponent with the sign of the product
   * and OVERFLOW. The coefficient always is that of the product of the coefficients.
   */
  lemma {:induction false} SingleOutcome(g: CrayFormat, mode: CrayRound, a: CrayFp, b: CrayFp, lbits: nat, c: nat,
                                         rbits: nat) returns (shifted: bool)
    requires CrayRange(g) && IsCray(g, a) && IsCray(g, b) && Sums(g, mode, a, b, lbits, c, rbits)
    ensures var (r, res) := PackSingle(g, mode, a, b, lbits, c); var e := ProductExpo(g, a, b);
      if a.expo == 0 && b.expo == 0 then
        && r == CrayFp(false, 0, r.coeff) && res == (if r.coeff == 0 then {ZeroResult} else {})
        && shifted && SingleNear(g, mode, a, b, r.coeff, shifted)
      else if a.expo < g.least - 1 || b.expo < g.least - 1 || e < g.least - 1 then
        r == CRAY_ZERO && res == {Underflow, ZeroResult}
      else
        && r.sign == (a.sign != b.sign) && IsCray(g, r) && (shifted ==> Normalized(g, r))
        && SingleNear(g, mode, a, b, r.coeff, shifted)
        && if a.expo > g.most || b.expo > g.most || e >= g.most then
             r.expo == g.most + 1 && res == {Overflow} + Normalizer.SignFlag(r.sign)
           else r.expo == (if shifted then e + 1 else e) && res == Normalizer.SignFlag(r.sign)
  {
    assert c < 2 * g.Half();
    hide Mul, Pow2, Sums, SingleNear;
    var (bit, c') := SingleCoeff(g.Half(), mode, lbits, c);
    var whole := IntegerProduct(a, b);
    shifted := bit || whole;
    SingleCoefficient(g, mode, a, b, lbits, c, rbits, whole, bit, c',
                      if bit then c' / 2 + g.Half() else if whole then c' / 2 else c');
  }

  // ---- Integer products ----

  /** Halvings of a multiple of their power of two lose nothing, if the rest of the multiplier is clear. */
  lemma {:induction false} PyramidExact(v: nat, j: nat, z: nat, q: nat, n: nat)
    requires j < n && z == Mul(q, Pow2(n - 1 - j)) && z < Pow2(n)
    ensures Mul(Pyramid(Mul(v, Pow2(j)), z, n), Pow2(n - 1)) == Mul(Mul(v, Pow2(j)), z)
    decreases n
  {
    hide Mul;
    var V, w := Mul(v, Pow2(j)), Pow2(n - 1);
    var z' := if z >= w then z - w else z;
    var rest := Pyramid(V / 2, z', n - 1);
    MulComm(V, z);
    MulComm(V, z');
    MulAdd(V, rest, w);
    MulAdd(z', w, V);
    MulComm(w, V);
    if j == 0 {
      AtMostOne(q, w);
      PyramidOfZero(V / 2, n - 1);
      MulOne(V);
    } else {
      if z >= w { RestOfMultiplier(q, n - 1 - j, n - 1, z); }
      var q' := if z >= w then q - Pow2(j) else q;
      MulTwo(v, Pow2(j - 1));
      DivMod2(V, Mul(v, Pow2(j - 1)), 0);
      PyramidExact(v, j - 1, z', q', n - 1);
      MulTwo(rest, Pow2(n - 2));
      MulTwo(Mul(v, Pow2(j - 1)), z');
    }
  }

  lemma {:induction false} AtMostOne(q: nat, w: nat)
    requires Mul(q, w) < 2 * w
    ensures Mul(q, w) == 0 || Mul(q, w) == w
  {
    SmallMultiples(w);
    MulOrder(q, 2, w);
    MulOne(w);
  }

  lemma {:induction false} PyramidOfZero(v: nat, n: nat)
    ensures Pyramid(v, 0, n) == 0 && Mul(0, Pow2(n)) == 0
    decreases n, v
  {
    MulOne(Pow2(n));
    if n > 0 { PyramidOfZero(v / 2, n - 1); }
  }

  lemma {:induction false} RestOfMultiplier(q: nat, k: nat, n: nat, z: nat)
    requires k <= n && z == Mul(q, Pow2(k)) && z >= Pow2(n)
    ensures q >= Pow2(n - k) && z - Pow2(n) == Mul(q - Pow2(n - k), Pow2(k))
  {
    Pow2Add(n - k, k);
    MulOrder(q, Pow2(n - k), Pow2(k));
    MulSub(q, Pow2(n - k), Pow2(k));
  }

  /** The pyramid of integers that are shifted by w places together. */
  lemma {:induction false} IntegerPyramid(w: nat, a: nat, b: nat, u: nat, v: nat, i: nat)
    requires 0 < w && i <= w && a == Mul(u, Pow2(i)) && b == Mul(v, Pow2(w - i)) && b < Pow2(w)
    ensures Pyramid(a * 128, b, w) == 256 * Mul(u, v)
  {
    hide Mul;
    var p := Pyramid(a * 128, b, w);
    if i == 0 {
      SmallMultiples(Pow2(w));
      MulOrder(v, 1, Pow2(w));
      PyramidOfZero(a * 128, w);
      MulComm(u, 0);
      MulOne(u);
      MulOne(Pow2(w));
    } else {
      MulTwo(u, Pow2(i - 1));
      Mul128(2 * u, Pow2(i - 1));
      PyramidExact(256 * u, i - 1, b, v, w);
      MulSwap(u, Pow2(i), v, Pow2(w - i));
      Pow2Add(i, w - i);
      Mul128(a, b);
      MulTwo(Mul(u, v), Pow2(w - 1));
      Mul128(2 * Mul(u, v), Pow2(w - 1));
      MulOrder(p, 256 * Mul(u, v), Pow2(w - 1));
      MulOrder(256 * Mul(u, v), p, Pow2(w - 1));
    }
  }

  lemma {:induction false} IntegerPacked(g: CrayFormat, mode: CrayRound, a: CrayFp, b: CrayFp, lbits: nat, c: nat,
                                         n: nat)
    requires g.Valid() && mode != ReciprocalIteration && a.expo == 0 && b.expo == 0
    requires lbits <= 1 && c < 2 * g.Half() && c + (if lbits == 1 then 2 * g.Half() else 0) == 2 * n
    ensures PackSingle(g, mode, a, b, lbits, c) == (CrayFp(false, 0, n), if n == 0 then {ZeroResult} else {})
  {
    hide Mul, Pow2;
    DivMod2(c, n - (if lbits == 1 then g.Half() else 0), 0);
    var r := CrayFp(false, 0, n);
    assert SingleFlags(r, false) == if n == 0 then {ZeroResult} else {};
  }

  /** Integers u and v, shifted left by as many places together as the coefficient has bits, are
      multiplied exactly in the modes that round or compensate. */
  lemma {:induction false} IntegersMultiply(g: CrayFormat, mode: CrayRound, a: CrayFp, b: CrayFp, lbits: nat, c: nat,
                                            rbits: nat, u: nat, v: nat, i: nat)
    requires CrayRange(g) && IsCray(g, a) && IsCray(g, b) && Sums(g, mode, a, b, lbits, c, rbits)
    requires mode != ReciprocalIteration && a.expo == 0 && b.expo == 0 && i <= g.Bits()
    requires a.coeff == Mul(u, Pow2(i)) && b.coeff == Mul(v, Pow2(g.Bits() - i))
    ensures PackSingle(g, mode, a, b, lbits, c)
         == (CrayFp(false, 0, Mul(u, v)), if Mul(u, v) == 0 then {ZeroResult} else {})
  {
    hide Mul, Pow2, Pyramid, PackSingle;
    HalfIsHalf(g);
    PyramidBounds(g, a.coeff, b.coeff);
    IntegerPyramid(g.Bits(), a.coeff, b.coeff, u, v, i);
    assert Mul(lbits, 2 * g.Half()) + c == 2 * Mul(u, v);
    OneLeftBit(lbits, c, g.Half());
    IntegerPacked(g, mode, a, b, lbits, c, Mul(u, v));
  }

  // ---- The operations on records ----

  /** ar_cfmul128; the result may be one of the operands. */
  method MultiplyDouble(x: CrayNumber, a: CrayNumber, b: CrayNumber)
    returns (res: set<Flag>, ghost carried: bool, ghost inexact: bool, ghost m: nat)
    requires x.Valid() && a.Valid() && b.Valid() && x.g == a.g == b.g
    modifies x
    ensures x.Valid()
    ensures if old(a.C()) == 0 || old(b.C()) == 0 then x.Abs() == CRAY_ZERO && res == {ZeroResult}
            else
              && RoundsOnce(Mul(old(a.C()), old(b.C())), x.g.Half(), m, carried, inexact)
              && (x.Abs(), res) == PackDouble(x.g, old(a.Abs()), old(b.Abs()), m, carried, inexact)
  {
    hide Mul, Pow2, RoundsOnce, Unpack;
    carried, inexact, m := false, false, 0;
    var aSign, bSign, aExpo, bExpo := a.sign, b.sign, a.expo, b.expo;
    var testExpo: int := aExpo + bExpo - x.g.bias;
    var expo := testExpo + SignBits(aSign) + SignBits(bSign);
    if Limbs.IsZero(a.coeff) || Limbs.IsZero(b.coeff) {
      x.SetZero();
      return {ZeroResult}, carried, inexact, m;
    }
    x.CoeffBound();
    var c, carry, lost := Cray.MultiplyDouble(a.coeff, b.coeff, x.g.limbs, x.g.Half());
    carried, inexact, m := carry, lost, Val(c);
    if carry { expo := expo + 1; }
    var over := testExpo >= x.g.most || (aExpo > x.g.most && bExpo != 0) || (bExpo > x.g.most && aExpo != 0);
    res := UnpackInto(x, expo, c, over, lost);
  }

  method UnpackInto(x: CrayNumber, expo: int, c: seq<nat>, over: bool, lost: bool) returns (res: set<Flag>)
    requires x.Valid() && Cray.IsRow(c, x.g.limbs)
    modifies x
    ensures x.Valid() && (x.Abs(), res) == Unpack(x.g, expo, Val(c), over, lost)
  {
    var under := (expo + x.g.least) / 16384 % 2 != 1;
    if under {
      x.SetZero();
    } else {
      x.Set(expo / EXPO_VALUES % 2 == 1, expo % EXPO_VALUES, c);
    }
    var zero := !x.sign && x.expo == 0 && Limbs.IsZero(x.coeff);
    res := (if over then {Overflow} else {}) + (if under then {Underflow} else {})
      + (if zero then {ZeroResult} else {}) + Normalizer.SignFlag(x.sign) + if lost then {Inexact} else {};
  }

  /** The register before the pyramid. */
  method StartRow(mode: CrayRound, g: CrayFormat) returns (c: seq<nat>, lbits: nat, rbits: nat)
    requires g.limbs == 3
    ensures Cray.IsRow(c, 3) && rbits < 128
    ensures Cray.Register(lbits, c, rbits) == Start(g.Half(), mode)
  {
    match mode {
      case RoundedProduct => c, lbits, rbits := Zeros(3), 0, 105;
      case UnroundedProduct => c, lbits, rbits := Zeros(3), 0, 9;
      case ReciprocalIteration => c, lbits, rbits := [65535, 65535, 65534], 1, 57;
    }
    StartIs(g, mode, c, lbits, rbits);
  }

  lemma {:induction false} StartIs(g: CrayFormat, mode: CrayRound, c: seq<nat>, lbits: nat, rbits: nat)
    requires g.limbs == 3
    requires (c, lbits, rbits) == match mode
                                  case RoundedProduct => (Zeros(3), 0, 105)
                                  case UnroundedProduct => (Zeros(3), 0, 9)
                                  case ReciprocalIteration => ([65535, 65535, 65534], 1, 57)
    ensures Cray.IsRow(c, 3) && Cray.Register(lbits, c, rbits) == Start(g.Half(), mode)
  {
    Pow2Seven();
    HalfOfThree(g);
    if mode == ReciprocalIteration {
      RowOfThree(c);
      LongRegister(lbits, Val(c), rbits, Pow2(48), g.Half());
    } else {
      MulOne(Pow2(48));
    }
  }

  lemma {:induction false} LongRegister(l: nat, v: nat, r: nat, p: nat, h: nat)
    requires l == 1 && v == 0xFFFFFFFFFFFE && r == 57 && p == 2 * h == 0x1000000000000
    ensures (Mul(l, p) + v) * 128 + r == 512 * h - 199
  {
    MulOne(p);
  }

  /** Left bits and coefficient of the sum, complemented in the reciprocal iteration. */
  method SingleSum(mode: CrayRound, g: CrayFormat, a: seq<nat>, b: seq<nat>, ghost p: CrayFp, ghost q: CrayFp)
    returns (row: seq<nat>, l: nat, ghost lbits: nat, ghost c: nat, ghost rbits: nat)
    requires g.Valid() && g.limbs == 3 && Cray.IsRow(a, 3) && Cray.IsRow(b, 3)
    requires p.coeff == Val(a) && q.coeff == Val(b)
    ensures Cray.IsRow(row, 3) && c < 2 * g.Half() && Sums(g, mode, p, q, lbits, c, rbits)
    ensures SingleCoeff(g.Half(), mode, lbits, c) == (l % 2 == 1, Val(row))
  {
    hide Mul, Pow2, Pyramid;
    var r;
    row, l, r := StartRow(mode, g);
    row, l, r := FastPyramid(row, l, r, a, b);
    HalfOfThree(g);
    RowBound(row, 3);
    lbits, c, rbits := l, Val(row), r;
    if mode == ReciprocalIteration {
      l := FlipLow(l);
      row := Complement(row, g);
    }
  }

  /** ar_cfmul64; the result may be one of the operands. */
  method MultiplySingle(x: CrayNumber, a: CrayNumber, b: CrayNumber, mode: CrayRound)
    returns (res: set<Flag>, ghost lbits: nat, ghost c: nat, ghost rbits: nat)
    requires x.Valid() && a.Valid() && b.Valid() && x.g == a.g == b.g && x.g.limbs == 3
    modifies x
    ensures x.Valid() && c < 2 * x.g.Half()
    ensures TooSmall(x.g, old(a.Abs()), old(b.Abs()))
            || Sums(x.g, mode, old(a.Abs()), old(b.Abs()), lbits, c, rbits)
    ensures (x.Abs(), res) == PackSingle(x.g, mode, old(a.Abs()), old(b.Abs()), lbits, c)
  {
    hide Mul, Pow2, Sums, SingleFlags;
    ghost var p, q := a.Abs(), b.Abs();
    lbits, c, rbits := 0, 0, 0;
    x.CoeffBound();
    var whole := a.expo == 0 && b.expo == 0;
    var sign := !whole && a.sign != b.sign;
    var expo: int := if whole then 0 else a.expo + b.expo - x.g.bias;
    if !whole && (a.expo < x.g.least - 1 || b.expo < x.g.least - 1 || expo < x.g.least - 1) {
      x.SetZero();
      return {Underflow, ZeroResult}, lbits, c, rbits;
    }
    var over := expo >= x.g.most || a.expo > x.g.most || b.expo > x.g.most;
    var row, l;
    row, l, lbits, c, rbits := SingleSum(mode, x.g, a.coeff, b.coeff, p, q);
    res := FinishSingle(x, sign, expo, row, l, whole, over);
  }

  /** Normalize right, and the range tests. */
  method FinishSingle(x: CrayNumber, sign: bool, e: nat, c: seq<nat>, lbits: nat, whole: bool, over: bool)
    returns (res: set<Flag>)
    requires x.Valid() && Cray.IsRow(c, x.g.limbs)
    modifies x
    ensures x.Valid()
    ensures var bit := lbits % 2 == 1;
      && x.Abs() == CrayFp(sign, if over then x.g.most + 1 else if bit && !whole then e + 1 else e,
                           if bit then Val(c) / 2 + x.g.Half() else if whole then Val(c) / 2 else Val(c))
      && res == SingleFlags(x.Abs(), over)
  {
    var row, expo := c, e;
    if lbits % 2 == 1 || whole {
      row := ShiftInBit(row, lbits % 2, x.g);
      if !whole { expo := expo + 1; }
    }
    if over { expo := x.g.most + 1; }
    x.Set(sign, expo, row);
    var zero := !x.sign && x.expo == 0 && Limbs.IsZero(x.coeff);
    res := (if over then {Overflow} else {}) + (if zero then {ZeroResult} else {}) + Normalizer.SignFlag(x.sign);
  }

  /** x_lbits ^= 1 */
  function FlipLow(l: nat): (r: nat)
    ensures r % 2 != l % 2
  {
    if l % 2 == 1 then l - 1 else l + 1
  }

  /** NOTCRAY64 */
  method Complement(c: seq<nat>, g: CrayFormat) returns (r: seq<nat>)
    requires g.Valid() && Cray.IsRow(c, g.limbs)
    ensures Cray.IsRow(r, g.limbs) && Val(c) < 2 * g.Half() && Val(r) == 2 * g.Half() - 1 - Val(c)
  {
    RowBound(c, g.limbs);
    r := Limbs.Not(16, c);
  }

  /** SHRIGHTCRAY64, and the left bit ORed into the place of the leading bit. */
  method ShiftInBit(c: seq<nat>, bit: nat, g: CrayFormat) returns (r: seq<nat>)
    requires g.Valid() && Cray.IsRow(c, g.limbs) && bit <= 1
    ensures Cray.IsRow(r, g.limbs) && Val(r) == Val(c) / 2 + if bit == 1 then g.Half() else 0
  {
    var out;
    r, out := ShiftRightRow(c, bit, g.limbs);
    DivMod2(Val(c), Val(r) - (if bit == 1 then g.Half() else 0), out);
  }
}
