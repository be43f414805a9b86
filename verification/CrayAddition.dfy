/**
 * cray_fadd.c: ar_cfadd64. A Cray number has no implicit bit and need not be normalized; what
 * alignment shifts out is dropped.
 */
module CrayAddition {
  import opened Powers
  import opened Limbs
  import opened Ieee754
  import opened Normalizer
  import opened Cray
  import Addition

  /** `limbs` coefficient limbs of 16 bits; numbers in range have an exponent from least to most. */
  datatype CrayFormat = CrayFormat(limbs: nat, bias: nat, least: nat, most: nat) {
    function Bits(): nat { 16 * limbs }

    /** The leading coefficient bit. */
    function Half(): nat
      requires limbs > 0
    {
      Pow2(Bits() - 1)
    }

    predicate Valid() { limbs > 0 && Bits() < least <= most }
  }

  const CRAY64 := CrayFormat(3, 16385, 8192, 24575)

  datatype CrayFp = CrayFp(sign: bool, expo: nat, coeff: nat)

  const CRAY_ZERO := CrayFp(false, 0, 0)

  /** The magnitude, in units of the last place at exponent zero. */
  function CrayUnits(x: CrayFp): nat { Mul(x.coeff, Pow2(x.expo)) }

  function CrayValue(x: CrayFp): int { Signed(x.sign, CrayUnits(x)) }

  function Signed(sign: bool, n: int): int { if sign then -n else n }

  predicate IsCray(g: CrayFormat, x: CrayFp)
    requires g.limbs > 0
  {
    x.coeff < 2 * g.Half()
  }

  predicate Normalized(g: CrayFormat, x: CrayFp)
    requires g.limbs > 0
  {
    g.Half() <= x.coeff < 2 * g.Half()
  }

  // ---- The sum as a function of its operands ----

  /** y is so far below x that nothing of it is left. */
  predicate Far(g: CrayFormat, x: CrayFp, y: CrayFp) { x.expo - y.expo > g.Bits() }

  /** The coefficient of y shifted right to meet x. */
  function AlignedDown(g: CrayFormat, x: CrayFp, y: CrayFp): nat
    requires y.expo <= x.expo
  {
    if Far(g, x, y) then 0 else Halved(y.coeff, x.expo - y.expo)
  }

  /** A set bit is among the last n of v. */
  predicate LosesBits(v: nat, n: nat)
    decreases n, v
  {
    n > 0 && (v % 2 == 1 || LosesBits(v / 2, n - 1))
  }

  /** Sign and magnitude of the aligned sum, in last places of x. */
  function AlignedSum(g: CrayFormat, x: CrayFp, y: CrayFp): (bool, nat)
    requires y.expo <= x.expo
  {
    Addition.SignedSum(x.sign, x.coeff, !Far(g, x, y) && y.sign, AlignedDown(g, x, y))
  }

  /** One right shift after a carry. */
  function Carried(g: CrayFormat, e: nat, s: nat): (nat, nat)
    requires g.limbs > 0
  {
    if s >= 2 * g.Half() then (e + 1, s / 2) else (e, s)
  }

  /** Left shifts that bring the leading bit of s, which has n bits, to the front. */
  function LeadingZeros(n: nat, s: nat): (k: nat)
    ensures k <= n
    decreases n, s
  {
    if n == 0 || s >= Pow2(n - 1) then 0 else 1 + LeadingZeros(n - 1, s)
  }

  /** Sign, exponent and flags of the normalized sum m. */
  function FinishSum(g: CrayFormat, sign: bool, e: nat, m: nat, over: bool, inexact: bool): (CrayFp, set<Flag>) {
    var out := over || e > g.most;
    (CrayFp(sign && !out, if out then g.most + 1 else e, m), FinishFlags(out, inexact, sign))
  }

  function FinishFlags(out: bool, inexact: bool, sign: bool): set<Flag> {
    (if out then {Overflow} else {}) + (if inexact then {Inexact} else {}) + SignFlag(sign && !out)
  }

  /** Normalize and package the sum s. */
  function PackSum(g: CrayFormat, sign: bool, e0: nat, s: nat, over: bool, inexact: bool): (CrayFp, set<Flag>)
    requires g.Valid() && e0 >= g.least
  {
    if s == 0 then (CRAY_ZERO, {ZeroResult})
    else
      var (e, s') := Carried(g, e0, s);
      var k := LeadingZeros(g.Bits(), s');
      FinishSum(g, sign, e - k, Mul(s', Pow2(k)), over, inexact)
  }

  function AddOrdered(g: CrayFormat, x: CrayFp, y: CrayFp): (CrayFp, set<Flag>)
    requires g.Valid() && y.expo <= x.expo
  {
    if x.expo < g.least then (CRAY_ZERO, {Underflow, ZeroResult})
    else
      var (sign, s) := AlignedSum(g, x, y);
      PackSum(g, sign, x.expo, s, x.expo > g.most, !Far(g, x, y) && LosesBits(y.coeff, x.expo - y.expo))
  }

  function Larger(a: CrayFp, b: CrayFp): CrayFp { if b.expo > a.expo then b else a }

  function Smaller(a: CrayFp, b: CrayFp): CrayFp { if b.expo > a.expo then a else b }

  /** ar_cfadd64 as a function of its operands. */
  function AddSpec(g: CrayFormat, a: CrayFp, b: CrayFp): (CrayFp, set<Flag>)
    requires g.Valid()
  {
    AddOrdered(g, Larger(a, b), Smaller(a, b))
  }

  // ---- What alignment and normalization do ----

  /** t is n in multiples of u, the rest dropped. */
  predicate Chopped(n: nat, u: nat, t: nat) { Mul(t, u) <= n < Mul(t + 1, u) }

  lemma {:induction false} HalvedChops(v: nat, n: nat)
    ensures Chopped(v, Pow2(n), Halved(v, n))
    ensures LosesBits(v, n) <==> v != Mul(Halved(v, n), Pow2(n))
    decreases n
  {
    var t := Halved(v, n);
    if n == 0 {
      MulOne(v);
      MulOne(v + 1);
    } else {
      HalvedChops(v / 2, n - 1);
      MulTwo(t, Pow2(n - 1));
      MulTwo(t + 1, Pow2(n - 1));
    }
  }

  lemma {:induction false} HalfIsHalf(g: CrayFormat)
    requires g.limbs > 0
    ensures Pow2(g.Bits()) == 2 * g.Half()
  {
  }

  /** Alignment drops what is below the last place of x. */
  lemma {:induction false} AlignedChops(g: CrayFormat, x: CrayFp, y: CrayFp)
    requires g.Valid() && IsCray(g, y) && y.expo <= x.expo
    ensures Chopped(CrayUnits(y), Pow2(x.expo), AlignedDown(g, x, y))
    ensures CrayUnits(y) != Mul(AlignedDown(g, x, y), Pow2(x.expo))
      <==> if Far(g, x, y) then y.coeff != 0 else LosesBits(y.coeff, x.expo - y.expo)
  {
    var n, w, t := x.expo - y.expo, Pow2(y.expo), AlignedDown(g, x, y);
    if Far(g, x, y) {
      HalfIsHalf(g);
      MulLt(y.coeff, Pow2(g.Bits()), w);
      Pow2Add(g.Bits(), y.expo);
      Pow2Mono(g.Bits() + y.expo, x.expo);
      MulOne(Pow2(x.expo));
      MulOne(w);
      MulOrder(y.coeff, 0, w);
      MulOrder(0, y.coeff, w);
    } else {
      HalvedChops(y.coeff, n);
      Pow2Add(n, y.expo);
      MulAssoc(t, Pow2(n), w);
      MulAssoc(t + 1, Pow2(n), w);
      MulLt(y.coeff, Mul(t + 1, Pow2(n)), w);
      MulOrder(Mul(t, Pow2(n)), y.coeff, w);
    }
  }

  lemma {:induction false} LeadingZerosShift(n: nat, s: nat)
    requires 0 < s < Pow2(n)
    ensures n > 0 && LeadingZeros(n, s) < n
    ensures var m := Mul(s, Pow2(LeadingZeros(n, s))); Pow2(n - 1) <= m < 2 * Pow2(n - 1)
  {
    if s >= Pow2(n - 1) {
      MulOne(s);
    } else {
      LeadingZerosShift(n - 1, s);
      MulTwo(s, Pow2(LeadingZeros(n - 1, s)));
    }
  }

  /** The aligned coefficient still is one. */
  lemma {:induction false} AlignedBound(g: CrayFormat, x: CrayFp, y: CrayFp)
    requires g.Valid() && IsCray(g, y) && y.expo <= x.expo
    ensures AlignedDown(g, x, y) < 2 * g.Half()
  {
    if !Far(g, x, y) { HalvedShrinks(y.coeff, x.expo - y.expo); }
  }

  lemma {:induction false} HalvedShrinks(v: nat, n: nat)
    ensures Halved(v, n) <= v
    decreases n
  {
    if n > 0 { HalvedShrinks(v / 2, n - 1); }
  }

  /** The magnitude that is packaged, for an aligned sum s in last places of weight 2^e: one
      right shift drops an odd bit, and left shifts change nothing. */
  lemma {:induction false} PackagedUnits(g: CrayFormat, e: nat, s: nat)
    requires g.Valid() && 0 < s < 4 * g.Half() && e >= g.least
    ensures var (e', s') := Carried(g, e, s); var k := LeadingZeros(g.Bits(), s');
      && k < e' && g.Half() <= Mul(s', Pow2(k)) < 2 * g.Half()
      && Mul(Mul(s', Pow2(k)), Pow2(e' - k))
         == Mul(s, Pow2(e)) - (if s >= 2 * g.Half() && s % 2 == 1 then Pow2(e) else 0)
      && (s >= g.Half() ==> k == 0)
  {
    var (e', s') := Carried(g, e, s);
    var k := LeadingZeros(g.Bits(), s');
    HalfIsHalf(g);
    LeadingZerosShift(g.Bits(), s');
    Pow2Add(k, e' - k);
    MulAssoc(s', Pow2(k), Pow2(e' - k));
    if s >= 2 * g.Half() { HalvedSum(s, Pow2(e)); }
  }

  lemma {:induction false} HalvedSum(s: nat, u: nat)
    ensures Mul(s / 2, 2 * u) == Mul(s, u) - if s % 2 == 1 then u else 0
  {
    MulTwo(s / 2, u);
    MulAdd(2 * (s / 2), s % 2, u);
    MulOne(u);
  }

  // ---- The sum ----

  /** A carry shifts out a set bit. */
  predicate OddCarry(g: CrayFormat, x: CrayFp, y: CrayFp)
    requires g.Valid() && y.expo <= x.expo
  {
    AlignedSum(g, x, y).1 >= 2 * g.Half() && AlignedSum(g, x, y).1 % 2 == 1
  }

  /** The result in terms of the aligned sum. */
  lemma {:induction false} SumValue(g: CrayFormat, x: CrayFp, y: CrayFp)
    requires g.Valid() && IsCray(g, x) && IsCray(g, y) && y.expo <= x.expo && g.least <= x.expo <= g.most
    ensures var (sign, s) := AlignedSum(g, x, y); var (r, res) := AddOrdered(g, x, y); var u := Pow2(x.expo);
      && IsCray(g, r) && (ZeroResult in res <==> s == 0) && (s == 0 ==> r == CRAY_ZERO) && (s > 0 ==> Normalized(g, r))
      && (Overflow in res <==> r.expo > g.most) && (Overflow in res <==> s >= 2 * g.Half() && x.expo == g.most)
      && (Overflow !in res && s > 0
          ==> r.sign == sign && CrayUnits(r) == Mul(s, u) - if OddCarry(g, x, y) then u else 0)
      && (Overflow !in res && s > 0
          ==> (s >= 2 * g.Half() <==> r.expo == x.expo + 1) && (s < 2 * g.Half() ==> r.expo <= x.expo))
      && (Negative in res <==> r.sign)
      && (Inexact in res <==> s > 0 && !Far(g, x, y) && LosesBits(y.coeff, x.expo - y.expo))
  {
    var (sign, s) := AlignedSum(g, x, y);
    AlignedBound(g, x, y);
    if s > 0 { PackagedUnits(g, x.expo, s); }
  }

  /** Adding multiples of u: the sum of the signed coefficients. */
  lemma {:induction false} SignedUnits(s: bool, x: nat, t: bool, c: nat, u: nat)
    ensures var (sign, n) := Addition.SignedSum(s, x, t, c);
      Signed(sign, Mul(n, u)) == Signed(s, Mul(x, u)) + Signed(t, Mul(c, u))
  {
    if s == t {
      MulAdd(x, c, u);
    } else if x >= c {
      MulSub(x, c, u);
    } else {
      MulSub(c, x, u);
    }
  }

  /** The aligned sum is the exact one but for what alignment drops of y. */
  lemma {:induction false} AlignedSumValue(g: CrayFormat, x: CrayFp, y: CrayFp)
    requires g.Valid() && IsCray(g, x) && IsCray(g, y) && y.expo <= x.expo
    ensures var (sign, s) := AlignedSum(g, x, y); var u := Pow2(x.expo);
      Signed(sign, Mul(s, u)) == CrayValue(x) + Signed(y.sign, Mul(AlignedDown(g, x, y), u))
  {
    SignedUnits(x.sign, x.coeff, !Far(g, x, y) && y.sign, AlignedDown(g, x, y), Pow2(x.expo));
    MulOne(Pow2(x.expo));
  }

  function Max(a: nat, b: nat): nat { if a > b then a else b }

  /** Operands of one sign: everything below the last place of the result is dropped. */
  lemma {:induction false} SameSign(g: CrayFormat, x: CrayFp, y: CrayFp)
    requires g.Valid() && IsCray(g, x) && IsCray(g, y) && y.expo <= x.expo && g.least <= x.expo <= g.most
    requires Overflow !in AddOrdered(g, x, y).1 && x.sign == y.sign
    ensures var r := AddOrdered(g, x, y).0; var exact := CrayUnits(x) + CrayUnits(y);
      && CrayUnits(r) <= exact < CrayUnits(r) + Pow2(Max(x.expo, r.expo))
      && (r.coeff != 0 ==> r.sign == x.sign)
      && (CrayUnits(r) == exact <==> CrayUnits(y) == Mul(AlignedDown(g, x, y), Pow2(x.expo)) && !OddCarry(g, x, y))
  {
    var u, c := Pow2(x.expo), AlignedDown(g, x, y);
    SumValue(g, x, y);
    AlignedChops(g, x, y);
    MulAdd(x.coeff, c, u);
    MulAdd(c, 1, u);
    MulOne(u);
  }

  /** Operands of different signs: what alignment drops of the smaller one is missing. */
  lemma {:induction false} DifferentSigns(g: CrayFormat, x: CrayFp, y: CrayFp)
    requires g.Valid() && IsCray(g, x) && IsCray(g, y) && y.expo <= x.expo && g.least <= x.expo <= g.most
    requires Overflow !in AddOrdered(g, x, y).1 && x.sign != y.sign
    ensures var r := AddOrdered(g, x, y).0;
      CrayValue(r) == CrayValue(x) + Signed(y.sign, Mul(AlignedDown(g, x, y), Pow2(x.expo)))
  {
    SumValue(g, x, y);
    AlignedBound(g, x, y);
    AlignedSumValue(g, x, y);
    MulOne(Pow2(x.expo));
  }

  function Sum(a: CrayFp, b: CrayFp): int { CrayValue(a) + CrayValue(b) }

  /** r is the sum of x and y, x having the larger exponent: for operands of one sign the exact sum
      with everything below the last place of the result dropped; otherwise it exceeds the exact
      sum, in the direction of x, by less than a last place of x. */
  predicate SumDropped(g: CrayFormat, x: CrayFp, y: CrayFp, r: CrayFp)
    requires g.limbs > 0
  {
    && (r.coeff == 0 || Normalized(g, r))
    && (x.sign == y.sign ==>
         && CrayUnits(r) <= CrayUnits(x) + CrayUnits(y) < CrayUnits(r) + Pow2(Max(x.expo, r.expo))
         && (r.coeff != 0 ==> r.sign == x.sign))
    && (x.sign != y.sign ==> 0 <= Signed(x.sign, CrayValue(r) - Sum(x, y)) < Pow2(x.expo))
  }

  lemma {:induction false} ExcessBound(x: CrayFp, y: CrayFp, value: int, c: nat, u: nat)
    requires Chopped(CrayUnits(y), u, c) && x.sign != y.sign && value == CrayValue(x) + Signed(y.sign, Mul(c, u))
    ensures 0 <= Signed(x.sign, value - Sum(x, y)) < u
  {
    MulAdd(c, 1, u);
    MulOne(u);
  }

  lemma {:induction false} OrderedDelivers(g: CrayFormat, x: CrayFp, y: CrayFp, r: CrayFp)
    requires g.Valid() && IsCray(g, x) && IsCray(g, y) && y.expo <= x.expo && g.least <= x.expo <= g.most
    requires Overflow !in AddOrdered(g, x, y).1 && r == AddOrdered(g, x, y).0
    ensures SumDropped(g, x, y, r)
  {
    SumNormalized(g, x, y);
    if x.sign == y.sign {
      SameSign(g, x, y);
    } else {
      DifferentSigns(g, x, y);
      AlignedChops(g, x, y);
      ExcessBound(x, y, CrayValue(r), AlignedDown(g, x, y), Pow2(x.expo));
    }
  }

  lemma {:induction false} SumNormalized(g: CrayFormat, x: CrayFp, y: CrayFp)
    requires g.Valid() && IsCray(g, x) && IsCray(g, y) && y.expo <= x.expo && g.least <= x.expo <= g.most
    ensures var r := AddOrdered(g, x, y).0; r.coeff == 0 || Normalized(g, r)
  {
    SumValue(g, x, y);
  }

  /** The magnitude n is larger than that of every number in range. */
  predicate BeyondRange(g: CrayFormat, n: nat)
    requires g.limbs > 0
  {
    n >= Mul(2 * g.Half(), Pow2(g.most))
  }

  lemma {:induction false} InRange(g: CrayFormat, x: CrayFp)
    requires g.Valid() && IsCray(g, x) && x.expo <= g.most
    ensures !BeyondRange(g, CrayUnits(x))
  {
    Pow2Mono(x.expo, g.most);
    MulLt(x.coeff, 2 * g.Half(), Pow2(x.expo));
    MulLeRight(2 * g.Half(), Pow2(x.expo), Pow2(g.most));
  }

  /** A carry out of the largest exponent is what takes a sum of one sign out of range. */
  lemma {:induction false} CarryBeyond(g: CrayFormat, e: nat, s: nat, n: nat)
    requires g.Valid() && e <= g.most && s < 4 * g.Half() && Chopped(n, Pow2(e), s)
    ensures BeyondRange(g, n) <==> s >= 2 * g.Half() && e == g.most
  {
    var h, u, top := g.Half(), Pow2(e), Pow2(g.most);
    if e == g.most {
      if s >= 2 * h { MulLe(2 * h, s, u); } else { MulLe(s + 1, 2 * h, u); }
    } else {
      Pow2Mono(e, g.most);
      MulLe(s + 1, 4 * h, u);
      MulTwo(2 * h, u);
      MulLeRight(2 * h, 2 * u, top);
    }
  }

  lemma {:induction false} OverflowExactly(g: CrayFormat, x: CrayFp, y: CrayFp)
    requires g.Valid() && IsCray(g, x) && IsCray(g, y) && y.expo <= x.expo && g.least <= x.expo <= g.most
    ensures Overflow in AddOrdered(g, x, y).1 <==> BeyondRange(g, Ieee754.Abs(Sum(x, y)))
  {
    SumValue(g, x, y);
    AlignedBound(g, x, y);
    if x.sign == y.sign {
      AlignedChops(g, x, y);
      SumChopped(x.coeff, AlignedDown(g, x, y), CrayUnits(y), Pow2(x.expo));
      MulOne(Pow2(x.expo));
      CarryBeyond(g, x.expo, AlignedSum(g, x, y).1, CrayUnits(x) + CrayUnits(y));
    } else {
      InRange(g, x);
      InRange(g, y);
    }
  }

  lemma {:induction false} SumChopped(x: nat, c: nat, n: nat, u: nat)
    requires Chopped(n, u, c)
    ensures Chopped(Mul(x, u) + n, u, x + c)
  {
    MulAdd(x, c, u);
    MulAdd(x, c + 1, u);
  }

  /** ar_cfadd64, for all operands in range: OVERFLOW exactly for sums beyond the range, and
      otherwise the sum with what is dropped of it. */
  lemma {:induction false} AddDelivers(g: CrayFormat, a: CrayFp, b: CrayFp)
    requires g.Valid() && IsCray(g, a) && IsCray(g, b) && g.least <= Larger(a, b).expo <= g.most
    ensures var (r, res) := AddSpec(g, a, b); var beyond := BeyondRange(g, Ieee754.Abs(Sum(a, b)));
      && (Overflow in res <==> beyond)
      && (if beyond then r.expo == g.most + 1 else SumDropped(g, Larger(a, b), Smaller(a, b), r))
  {
    var x, y := Larger(a, b), Smaller(a, b);
    OverflowExactly(g, x, y);
    if Overflow !in AddSpec(g, a, b).1 { OrderedDelivers(g, x, y, AddSpec(g, a, b).0); } else { OutOfRange(g, x, y); }
  }

  lemma {:induction false} OutOfRange(g: CrayFormat, x: CrayFp, y: CrayFp)
    requires g.Valid() && y.expo <= x.expo && Overflow in AddOrdered(g, x, y).1
    ensures AddOrdered(g, x, y).0.expo == g.most + 1
  {
  }

  lemma {:induction false} ChoppedUnique(n: nat, u: nat, t: nat, t': nat)
    requires Chopped(n, u, t) && Chopped(n, u, t') && u > 0
    ensures t == t'
  {
    MulOrder(t, t' + 1, u);
    MulOrder(t', t + 1, u);
  }

  /** m holds the first bits of the number s, moved to the front of the coefficient. */
  ghost predicate LeadingBitsOf(g: CrayFormat, m: nat, s: nat)
    requires g.limbs > 0
  {
    g.Half() <= m < 2 * g.Half() && if s >= 2 * g.Half() then m == s / 2 else exists k :: m == Mul(s, Pow2(k))
  }

  lemma {:induction false} PackedLeads(g: CrayFormat, sign: bool, e: nat, s: nat, over: bool, inexact: bool)
    requires g.Valid() && 0 < s < 4 * g.Half() && e >= g.least
    ensures var (r, res) := PackSum(g, sign, e, s, over, inexact); var lost := if inexact then {Inexact} else {};
      && LeadingBitsOf(g, r.coeff, s)
      && (if over || r.expo > g.most then r.expo == g.most + 1 && !r.sign && res == {Overflow} + lost
          else r.sign == sign && res == SignFlag(sign) + lost)
  {
    hide LeadingZeros;
    PackagedUnits(g, e, s);
    var (e', s') := Carried(g, e, s);
    var k := LeadingZeros(g.Bits(), s');
    MulOne(s');
    assert PackSum(g, sign, e, s, over, inexact).0.coeff == Mul(s', Pow2(k));
    if s >= 2 * g.Half() { ShiftedNone(g, s', k); }
  }

  lemma {:induction false} ShiftedNone(g: CrayFormat, s: nat, k: nat)
    requires g.limbs > 0 && s >= g.Half() && Mul(s, Pow2(k)) < 2 * g.Half()
    ensures k == 0 && Mul(s, Pow2(k)) == s
  {
    MulOne(s);
    if k > 0 {
      MulTwo(s, Pow2(k - 1));
      MulLeRight(s, 1, Pow2(k - 1));
    }
  }

  /**
   * ar_cfadd64 for every pair of operands, c being what is left of the smaller one in last places of the
   * larger. Below the range the sum is zero with UNDERFLOW, and a zero sum is reported as one; operands
   * or sums beyond the range give the out-of-range number with plus and OVERFLOW; all other sums
   * are delivered with their sign, and INEXACT tells whether alignment has lost a bit.
   */
  lemma {:induction false} AddOutcome(g: CrayFormat, a: CrayFp, b: CrayFp, c: nat)
    requires g.Valid() && IsCray(g, a) && IsCray(g, b)
    requires Chopped(CrayUnits(Smaller(a, b)), Pow2(Larger(a, b).expo), c)
    ensures var (r, res) := AddSpec(g, a, b); var x, y := Larger(a, b), Smaller(a, b);
      var s := if x.sign == y.sign then x.coeff + c else Ieee754.Abs(x.coeff - c);
      var lost := if !Far(g, x, y) && CrayUnits(y) != Mul(c, Pow2(x.expo)) then {Inexact} else {};
      if x.expo < g.least then r == CRAY_ZERO && res == {Underflow, ZeroResult}
      else if s == 0 then r == CRAY_ZERO && res == {ZeroResult}
      else
        && LeadingBitsOf(g, r.coeff, s)
        && if x.expo > g.most || BeyondRange(g, Ieee754.Abs(Sum(a, b))) then
             r.expo == g.most + 1 && !r.sign && res == {Overflow} + lost
           else
             r.expo <= g.most && SumDropped(g, x, y, r) && res == SignFlag(r.sign) + lost
  {
    hide Mul, Pow2, PackSum, LeadingBitsOf, SumDropped, BeyondRange, Chopped;
    var x, y := Larger(a, b), Smaller(a, b);
    AlignedChops(g, x, y);
    AlignedBound(g, x, y);
    ChoppedUnique(CrayUnits(y), Pow2(x.expo), c, AlignedDown(g, x, y));
    var (sign, s) := AlignedSum(g, x, y);
    if x.expo >= g.least && s > 0 {
      var inexact := !Far(g, x, y) && LosesBits(y.coeff, x.expo - y.expo);
      PackedLeads(g, sign, x.expo, s, x.expo > g.most, inexact);
      if x.expo <= g.most { AddDelivers(g, a, b); }
    } else if x.expo >= g.least {
      PackedZero(g, sign, x.expo, x.expo > g.most, !Far(g, x, y) && LosesBits(y.coeff, x.expo - y.expo));
    }
  }

  lemma {:induction false} PackedZero(g: CrayFormat, sign: bool, e: nat, over: bool, inexact: bool)
    requires g.Valid() && e >= g.least
    ensures PackSum(g, sign, e, 0, over, inexact) == (CRAY_ZERO, {ZeroResult})
  {
  }

  /** INEXACT tells whether a sum in range is exact, except if the smaller operand has been
      replaced by zero, if a carry alone has lost a bit, or if operands that are not normalized
      cancel once bits have been lost. */
  lemma {:induction false} InexactExactly(g: CrayFormat, a: CrayFp, b: CrayFp)
    requires g.Valid() && IsCray(g, a) && IsCray(g, b) && g.least <= Larger(a, b).expo <= g.most
    requires !BeyondRange(g, Ieee754.Abs(Sum(a, b)))
    ensures var (r, res) := AddSpec(g, a, b); var x, y := Larger(a, b), Smaller(a, b);
      var lost := LosesBits(y.coeff, x.expo - y.expo);
      (Inexact in res <==> CrayValue(r) != Sum(a, b))
        <==> !(Far(g, x, y) && y.coeff != 0) && !(OddCarry(g, x, y) && !lost) && !(AlignedSum(g, x, y).1 == 0 && lost)
  {
    hide Mul, Pow2;
    var x, y := Larger(a, b), Smaller(a, b);
    OverflowExactly(g, x, y);
    SumValue(g, x, y);
    AlignedChops(g, x, y);
    MulOne(Pow2(0));
    MulOne(Pow2(x.expo));
    if Far(g, x, y) && y.coeff == 0 { NothingLost(x.expo - y.expo); }
    if a.sign == b.sign {
      SameSign(g, x, y);
      if Far(g, x, y) { FarNoCarry(g, x, y); }
    } else {
      DifferentSigns(g, x, y);
      AlignedBound(g, x, y);
    }
  }

  lemma {:induction false} NothingLost(n: nat)
    ensures !LosesBits(0, n)
  {
    if n > 0 { NothingLost(n - 1); }
  }

  lemma {:induction false} FarNoCarry(g: CrayFormat, x: CrayFp, y: CrayFp)
    requires g.Valid() && IsCray(g, x) && y.expo <= x.expo && Far(g, x, y)
    ensures !OddCarry(g, x, y)
  {
  }

  /** The order of the operands does not matter. */
  lemma {:induction false} AddCommutes(g: CrayFormat, a: CrayFp, b: CrayFp)
    requires g.Valid()
    ensures AddSpec(g, a, b) == AddSpec(g, b, a)
  {
    if a.expo == b.expo {
      EqualExponents(g, a, b);
      EqualExponents(g, b, a);
    }
  }

  lemma {:induction false} EqualExponents(g: CrayFormat, x: CrayFp, y: CrayFp)
    requires x.expo == y.expo
    ensures AlignedSum(g, x, y) == Addition.SignedSum(x.sign, x.coeff, y.sign, y.coeff)
    ensures !LosesBits(y.coeff, x.expo - y.expo)
  {
  }

  /** Adding zero to a normalized number in range returns it. */
  lemma {:induction false} AddZero(g: CrayFormat, x: CrayFp)
    requires g.Valid() && Normalized(g, x) && g.least <= x.expo <= g.most
    ensures AddSpec(g, x, CRAY_ZERO) == (x, SignFlag(x.sign))
  {
    assert AlignedSum(g, x, CRAY_ZERO) == (x.sign, x.coeff);
    HalfIsHalf(g);
    MulOne(x.coeff);
    assert FinishFlags(false, false, x.sign) == SignFlag(x.sign);
  }

  // ---- The operation on records ----

  // ---- Three limbs ----

  lemma {:induction false} RowOfThree(c: seq<nat>)
    requires |c| == 3
    ensures Val(c) == (c[0] * 65536 + c[1]) * 65536 + c[2]
  {
    Val3(c, 65536);
    MulIs(c[0], 65536);
    MulIs(Mul(c[0], 65536) + c[1], 65536);
  }

  lemma {:induction false} HalfOfThree(g: CrayFormat)
    requires g.limbs == 3
    ensures 2 * g.Half() == Pow2(48) == 0x1000000000000
  {
    Pow2Seven();
    RangeIsPow2(16, g.limbs);
    assert Range(16, 2) == 65536 * Range(16, 1) && Range(16, 3) == 65536 * Range(16, 2);
  }

  /** AR_CRAY_64 */
  class CrayNumber {
    const g: CrayFormat
    var sign: bool
    var expo: nat
    var coeff: seq<nat>

    ghost predicate Valid()
      reads this
    {
      g.Valid() && IsRow(coeff, g.limbs)
    }

    ghost function Abs(): CrayFp
      reads this
    {
      CrayFp(sign, expo, C())
    }

    /** The coefficient as a number. */
    ghost function C(): nat
      reads this
    {
      Val(coeff)
    }

    /** ZEROCRAY64 */
    constructor (g: CrayFormat)
      requires g.Valid()
      ensures Valid() && this.g == g && Abs() == CRAY_ZERO
    {
      this.g := g;
      sign, expo, coeff := false, 0, Zeros(g.limbs);
    }

    method SetZero()
      requires g.Valid()
      modifies this
      ensures Valid() && Abs() == CRAY_ZERO
    {
      sign, expo, coeff := false, 0, Zeros(g.limbs);
    }

    method Set(s: bool, e: nat, c: seq<nat>)
      requires g.Valid() && IsRow(c, g.limbs)
      modifies this
      ensures Valid() && Abs() == CrayFp(s, e, Val(c)) && coeff == c
    {
      sign, expo, coeff := s, e, c;
    }

    lemma {:induction false} CoeffBound()
      requires Valid()
      ensures IsCray(g, Abs()) && Range(16, g.limbs) == 2 * g.Half() == Pow2(16 * g.limbs)
    {
      RowBound(coeff, g.limbs);
    }

    /** x->coeff0 >> (C0_BITS - 1) */
    function LeadingBit(): (bit: nat)
      reads this
      requires Valid()
      ensures bit == if C() >= g.Half() then 1 else 0
    {
      CoeffBound();
      TopBit(16, coeff)
    }

    /** NOTCRAY64 */
    method Complement()
      requires Valid()
      modifies this`coeff
      ensures Valid() && old(C()) < 2 * g.Half() && C() == 2 * g.Half() - 1 - old(C())
    {
      CoeffBound();
      coeff := Limbs.Not(16, coeff);
    }

    /** ADDCRAY64 with this number as sum and first operand; INCCRAY64 with a zero row. */
    method AddCoeff(y: seq<nat>, carry: nat) returns (out: nat)
      requires Valid() && IsRow(y, g.limbs) && carry <= 1
      modifies this`coeff
      ensures Valid() && C() < 2 * g.Half() && out <= 1
      ensures C() + (if out == 1 then 2 * g.Half() else 0) == old(C()) + Val(y) + carry
    {
      CoeffBound();
      RowBound(y, g.limbs);
      coeff, out := AddRows(coeff, y, carry, g.limbs);
      CoeffBound();
      LeftBits(out, C(), 2 * g.Half());
    }
  }

  /** Shift the coefficient of the second operand down, noting whether a bit is lost. */
  method AlignRow(y0: seq<nat>, ySign: bool, shift: nat, n: nat) returns (y: seq<nat>, sign: bool, inexact: bool)
    requires IsRow(y0, n)
    ensures IsRow(y, n) && sign == (shift <= 16 * n && ySign)
    ensures Val(y) == if shift > 16 * n then 0 else Halved(Val(y0), shift)
    ensures inexact == (shift <= 16 * n && LosesBits(Val(y0), shift))
  {
    y, sign, inexact := y0, ySign, false;
    if shift > 16 * n {
      return Zeros(n), false, false;
    }
    var k: nat := shift;
    while k > 0
      invariant k <= shift && IsRow(y, n)
      invariant Halved(Val(y), k) == Halved(Val(y0), shift)
      invariant (inexact || LosesBits(Val(y), k)) == LosesBits(Val(y0), shift)
    {
      ghost var v := Val(y);
      var out;
      y, out := ShiftRightRow(y, 0, n);
      DivMod2(v, Val(y), out);
      inexact := inexact || out == 1;
      k := k - 1;
    }
  }

  /** Add y to the coefficient of x, or complement, add and recomplement if the signs differ;
      after a sign change one is added instead. */
  method AddSigned(x: CrayNumber, ySign: bool, y: seq<nat>) returns (carry: nat)
    requires x.Valid() && IsRow(y, x.g.limbs)
    modifies x`sign, x`coeff
    ensures x.Valid() && carry <= 1
    ensures (x.sign, x.C() + if carry == 1 then 2 * x.g.Half() else 0)
            == Addition.SignedSum(old(x.sign), old(x.C()), ySign, Val(y))
  {
    if x.sign != ySign {
      carry := 0;
      SubtractFrom(x, y);
    } else {
      carry := x.AddCoeff(y, 0);
    }
  }

  method SubtractFrom(x: CrayNumber, y: seq<nat>)
    requires x.Valid() && IsRow(y, x.g.limbs)
    modifies x`sign, x`coeff
    ensures x.Valid() && (x.sign, x.C()) == Addition.SignedSum(old(x.sign), old(x.C()), !old(x.sign), Val(y))
  {
    ghost var v := x.C();
    RowBound(y, x.g.limbs);
    x.Complement();
    var carry := x.AddCoeff(y, 0);
    SignChange(v, Val(y), 2 * x.g.Half(), x.C(), carry);
    if carry != 0 {
      x.sign := !x.sign;
      carry := x.AddCoeff(Zeros(x.g.limbs), 1);
    } else {
      x.Complement();
    }
  }

  /** The carry out of complement plus addend tells which is larger. */
  lemma {:induction false} SignChange(v: nat, y: nat, p: nat, sum: nat, carry: nat)
    requires v < p && y < p && sum < p && carry <= 1 && sum + (if carry == 1 then p else 0) == p - 1 - v + y
    ensures carry == 1 ==> y > v && sum + 1 == y - v < p
    ensures carry == 0 ==> v >= y && p - 1 - sum == v - y
  {
  }

  /** A left shift uses up one leading zero. */
  lemma {:induction false} LeadingZerosDouble(n: nat, s: nat)
    requires n > 0 && 0 < s < Pow2(n - 1)
    ensures LeadingZeros(n, s) == 1 + LeadingZeros(n, 2 * s)
  {
    if s < Pow2(n - 2) { LeadingZerosDouble(n - 1, s); }
  }

  lemma {:induction false} NoLeadingZeros(n: nat, s: nat)
    requires n > 0 && s >= Pow2(n - 1)
    ensures LeadingZeros(n, s) == 0
  {
  }

  /** SHLEFTCRAY64 of a number without its leading bit. */
  method ShiftOnce(x: CrayNumber)
    requires x.Valid() && x.C() < x.g.Half() && x.expo > 0
    modifies x`expo, x`coeff
    ensures x.Valid() && x.C() == 2 * old(x.C()) && x.expo == old(x.expo) - 1
  {
    x.CoeffBound();
    var top;
    x.expo := x.expo - 1;
    top, x.coeff := ShiftLeftRow(x.coeff, x.g.limbs);
  }

  /** Shift left until normalized. */
  method ShiftUntilNormalized(x: CrayNumber)
    requires x.Valid() && x.C() > 0 && x.expo > x.g.Bits()
    modifies x`expo, x`coeff
    ensures x.Valid()
    ensures var k := LeadingZeros(x.g.Bits(), old(x.C()));
            x.C() == Mul(old(x.C()), Pow2(k)) && x.expo == old(x.expo) - k
  {
    hide Mul, LeadingZeros;
    ghost var c0, e0, b := x.C(), x.expo, x.g.Bits();
    ghost var i := 0;
    MulOne(c0);
    while x.LeadingBit() == 0
      invariant x.Valid() && x.C() == Mul(c0, Pow2(i)) && x.C() > 0 && x.expo == e0 - i
      invariant LeadingZeros(b, c0) == i + LeadingZeros(b, x.C())
      decreases LeadingZeros(b, x.C())
    {
      LeadingZerosDouble(b, x.C());
      MulTwo(c0, Pow2(i));
      ShiftOnce(x);
      i := i + 1;
    }
    NoLeadingZeros(b, x.C());
  }

  /** One right shift after a carry. */
  method CarryRight(x: CrayNumber, carry: nat, ghost s: nat)
    requires x.Valid() && carry <= 1 && s == x.C() + if carry == 1 then 2 * x.g.Half() else 0
    modifies x`expo, x`coeff
    ensures x.Valid() && (x.expo, x.C()) == Carried(x.g, old(x.expo), s)
  {
    x.CoeffBound();
    if carry != 0 {
      var out;
      ghost var v := x.C();
      x.coeff, out := ShiftRightRow(x.coeff, 1, x.g.limbs);
      DivMod2(s, x.C(), out);
      x.expo := x.expo + 1;
    }
  }

  /** ar_cfadd64. The result may be the same object as an operand. */
  method Add(x: CrayNumber, a: CrayNumber, b: CrayNumber) returns (res: set<Flag>)
    requires x.Valid() && a.Valid() && b.Valid() && a.g == x.g && b.g == x.g
    modifies x
    ensures x.Valid() && (x.Abs(), res) == AddSpec(x.g, old(a.Abs()), old(b.Abs()))
  {
    var over := a.expo > x.g.most || b.expo > x.g.most;
    if b.expo > a.expo {
      var ySign, yExpo, y := a.sign, a.expo, a.coeff;
      x.Set(b.sign, b.expo, b.coeff);
      res := AddSmaller(x, ySign, yExpo, y, over);
    } else {
      var ySign, yExpo, y := b.sign, b.expo, b.coeff;
      x.Set(a.sign, a.expo, a.coeff);
      res := AddSmaller(x, ySign, yExpo, y, over);
    }
  }

  /** Add an operand with no larger exponent. */
  method AddSmaller(x: CrayNumber, ySign: bool, yExpo: nat, y0: seq<nat>, over: bool) returns (res: set<Flag>)
    requires x.Valid() && IsRow(y0, x.g.limbs) && yExpo <= x.expo && over == (x.expo > x.g.most)
    modifies x
    ensures x.Valid() && (x.Abs(), res) == AddOrdered(x.g, old(x.Abs()), CrayFp(ySign, yExpo, Val(y0)))
  {
    hide PackSum, Pow2;
    if x.expo < x.g.least {
      x.SetZero();
      return {Underflow, ZeroResult};
    }
    var y, sign, inexact := AlignRow(y0, ySign, x.expo - yExpo, x.g.limbs);
    var carry := AddSigned(x, sign, y);
    res := FinishNumber(x, carry, over, inexact, x.C() + if carry == 1 then 2 * x.g.Half() else 0);
  }

  /** Normalize and package the sum that coefficient and carry hold. */
  method FinishNumber(x: CrayNumber, carry: nat, over: bool, inexact: bool, ghost s: nat) returns (res: set<Flag>)
    requires x.Valid() && x.expo >= x.g.least && carry <= 1 && s == x.C() + if carry == 1 then 2 * x.g.Half() else 0
    modifies x
    ensures x.Valid() && (x.Abs(), res) == PackSum(x.g, old(x.sign), old(x.expo), s, over, inexact)
  {
    CarriedPositive(x.g, x.expo, s);
    CarryRight(x, carry, s);
    if Limbs.IsZero(x.coeff) {
      x.sign, x.expo := false, 0;
      return {ZeroResult};
    }
    ShiftUntilNormalized(x);
    res := PackageSum(x, over, inexact);
  }

  /** Out-of-range results and operands. An exponent that has left its field belongs to such
      an operand, and is replaced here. */
  method PackageSum(x: CrayNumber, over: bool, inexact: bool) returns (res: set<Flag>)
    requires x.Valid()
    modifies x`sign, x`expo
    ensures x.Valid() && (x.Abs(), res) == FinishSum(x.g, old(x.sign), old(x.expo), x.C(), over, inexact)
  {
    var out := over || x.expo > x.g.most;
    var neg := x.sign;
    if out {
      x.sign, x.expo := false, x.g.most + 1;
    }
    res := FinishFlags(out, inexact, neg);
  }

  lemma {:induction false} CarriedPositive(g: CrayFormat, e: nat, s: nat)
    requires g.limbs > 0
    ensures Carried(g, e, s).1 == 0 <==> s == 0
  {
  }
}
