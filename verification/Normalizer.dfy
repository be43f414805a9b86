/**
 * The value-level specification of ar_i64norm and ar_i32norm, and the proof
 * that it rounds correctly.
 *
 * A register s stands for lbits, the coefficient and the three rounding bits
 * side by side: s = (lbits * 2^P + coeff) * 8 + rbits. Its last bit is sticky.
 */
module Normalizer {
  import opened Powers
  import opened Ieee754

  /** Shift right by one; the last bit is sticky. */
  function Jam(s: nat): nat {
    if s % 2 == 1 then 2 * (s / 4) + 1 else s / 2
  }

  /** The smallest register with its leading bit set. */
  function Lead(f: Format): nat { 8 * f.One() }

  lemma {:induction false} LeadIsPow2(f: Format)
    ensures Lead(f) == Pow2(f.P() + 3)
  {
    assert Pow2(f.P() + 1) == 2 * f.One() && Pow2(f.P() + 2) == 4 * f.One();
  }

  /** The loop that normalizes to the left; the sticky bit is repeated. */
  function ShiftUp(f: Format, e: int, s: nat): (r: (int, nat))
    ensures r.0 <= e && (r.0 == e ==> r.1 == s)
    decreases if e > 0 then e else 0
  {
    if e > 1 && s < Lead(f) then ShiftUp(f, e - 1, 2 * s + s % 2) else (e, s)
  }

  /** The loop that shifts carries and too small exponents to the right. */
  function ShiftDown(f: Format, e: int, s: nat): (r: (nat, nat))
    ensures r.1 < 2 * Lead(f)
    decreases s + if e < 0 then -e else 0
  {
    if s >= 2 * Lead(f) || e < 0 then ShiftDown(f, e + 1, Jam(s)) else (e, s)
  }

  /** Between the loops: exponent 0 if and only if there is no leading bit. */
  function Adjust(f: Format, e: int, s: nat): int {
    if e == 1 && s < Lead(f) then 0 else if e == 0 && s >= Lead(f) then 1 else e
  }

  /** The rounding decision as coded, one clause per mode. */
  predicate RoundsUp(mode: Mode, sign: bool, s: nat) {
    match mode
    case PlusInfinity => (s % 8 == 0) != !sign
    case MinusInfinity => (s % 8 == 0) == !sign
    case Zero => false
    case Nearest => s % 8 > 4 || (s % 8 == 4 && s / 8 % 2 == 1)
  }

  function Rounded(mode: Mode, sign: bool, s: nat): nat {
    s / 8 + if RoundsUp(mode, sign, s) then 1 else 0
  }

  function SignFlag(sign: bool): set<Flag> { if sign then {Negative} else {} }

  /** Package the rounded significand m at exponent e: zero, overflow and inexact tests. */
  function Package(f: Format, sign: bool, e: nat, m: nat, r: nat): (Fp, set<Flag>) {
    var e' := if m == 0 then 0 else e;
    var flags := SignFlag(sign) + if m == 0 then {ZeroResult, Underflow} else {};
    if e' > f.MaxExpo() then
      (Fp(sign, f.MaxExpo() + 1, 0), flags + {Overflow})
    else
      (Fp(sign, e', if m >= f.One() then m - f.One() else m), flags + if r != 0 then {Inexact} else {})
  }

  /** Round the coefficient, shift once more if that carried, and package. */
  function Finish(f: Format, mode: Mode, sign: bool, e: nat, s: nat): (Fp, set<Flag>) {
    var m := Rounded(mode, sign, s);
    if m >= 2 * f.One() then
      Package(f, sign, e + 1, m / 2, s % 8 / 2 + m % 2 * 4)
    else
      Package(f, sign, if m < f.One() then 0 else Effective(e), m, s % 8)
  }

  /** ar_i64norm as a function of its arguments. */
  function Norm(f: Format, mode: Mode, sign: bool, e: int, s: nat): (Fp, set<Flag>) {
    if s == 0 then (Fp(sign, 0, 0), SignFlag(sign) + {ZeroResult})
    else
      var (e1, s1) := ShiftUp(f, e, s);
      var (e2, s2) := ShiftDown(f, Adjust(f, e1, s1), s1);
      Finish(f, mode, sign, e2, s2)
  }

  // ---- What a register stands for ----

  /** s is the fraction n/d, exactly if it is even and within its last place if it is odd. */
  predicate Stands(s: nat, n: nat, d: nat) {
    if s % 2 == 0 then n == Mul(s, d) else Mul(s - 1, d) < n < Mul(s + 1, d)
  }

  /** The weaker reading that survives one left shift of a sticky bit, and that
      rounding still gets right. */
  predicate Resembles(s: nat, n: nat, d: nat) {
    n == Mul(s, d) || (s % 2 == 1 && Mul(s - s % 4, d) < n < Mul(s - s % 4 + 4, d))
  }

  lemma {:induction false} StandsResembles(s: nat, n: nat, d: nat)
    requires Stands(s, n, d)
    ensures Resembles(s, n, d)
  {
    if s % 2 == 1 {
      MulLe(s - s % 4, s - 1, d);
      MulLe(s + 1, s - s % 4 + 4, d);
    }
  }

  lemma {:induction false} JamStands(s: nat, n: nat, d: nat)
    requires Stands(s, n, d) && d > 0
    ensures Stands(Jam(s), n, 2 * d)
  {
    hide Mul;
    var t := Jam(s);
    MulTwo(t, d);
    MulTwo(t + 1, d);
    if t > 0 { MulTwo(t - 1, d); }
    if s % 2 == 0 {
      if t > 0 { MulLt(t - 1, t, 2 * d); }
      MulLt(t, t + 1, 2 * d);
    } else {
      DivMod2(t, s / 4, 1);
      MulLe(2 * (t - 1), s - 1, d);
      MulLe(s + 1, 2 * (t + 1), d);
    }
  }

  lemma {:induction false} StandsHalve(s: nat, n: nat, d: nat)
    ensures Stands(s, 2 * n, 2 * d) <==> Stands(s, n, d)
  {
    MulTwo(s, d);
    MulTwo(s + 1, d);
    if s % 2 == 1 { MulTwo(s - 1, d); }
  }

  /** k right shifts that keep the sticky bit. */
  function JamN(s: nat, k: nat): nat {
    if k == 0 then s else Jam(JamN(s, k - 1))
  }

  lemma {:induction false} JamNStands(s: nat, k: nat)
    ensures Stands(JamN(s, k), s, Pow2(k))
  {
    if k == 0 {
      MulOne(s);
      MulOne(s + 1);
      if s > 0 { MulOne(s - 1); }
    } else {
      JamNStands(s, k - 1);
      JamStands(JamN(s, k - 1), s, Pow2(k - 1));
    }
  }

  /** Shifting at once: the quotient with the remainder ORed into its last bit. */
  lemma {:induction false} JamNValue(s: nat, k: nat, q: nat, rem: nat)
    requires s == Mul(q, Pow2(k)) + rem && rem < Pow2(k)
    ensures JamN(s, k) == Stick(q, rem != 0)
  {
    if k == 0 {
      MulOne(q);
    } else {
      var w := Pow2(k - 1);
      var bit := if rem >= w then 1 else 0;
      MulTwo(q, w);
      MulAdd(2 * q, bit, w);
      MulOne(w);
      JamNValue(s, k - 1, 2 * q + bit, rem - (if rem >= w then w else 0));
      JamOfStick(q, bit, rem - (if rem >= w then w else 0) != 0);
    }
  }

  /** OR a sticky bit into the last place. */
  function Stick(q: nat, sticky: bool): nat {
    if sticky && q % 2 == 0 then q + 1 else q
  }

  lemma {:induction false} StickBound(q: nat, sticky: bool)
    requires q < 8
    ensures Stick(q, sticky) < 8
  {
    DivMod2(7, 3, 1);
  }

  lemma {:induction false} JamOfStick(q: nat, bit: nat, sticky: bool)
    requires bit <= 1
    ensures Jam(Stick(2 * q + bit, sticky)) == Stick(q, sticky || bit == 1)
  {
    var t := if sticky then 1 else bit;
    DivMod2(2 * q + bit, q, bit);
    DivMod2(2 * q + t, q, t);
    DivMod4(2 * q + t, q / 2, q % 2 * 2 + t);
  }

  lemma {:induction false} StandsScale(s: nat, n: nat, d: nat, k: nat)
    requires k > 0
    ensures Stands(s, Mul(n, k), Mul(d, k)) <==> Stands(s, n, d)
  {
    MulAssoc(s, d, k);
    MulAssoc(s + 1, d, k);
    MulOrder(n, Mul(s, d), k);
    MulOrder(n, Mul(s + 1, d), k);
    if s > 0 {
      MulAssoc(s - 1, d, k);
      MulOrder(Mul(s - 1, d), n, k);
    }
  }

  // ---- The exponent as a scale ----

  /** One last coefficient place at exponent e is Weight(e)/Dilution(e) units. */
  function Weight(e: int): nat { if e >= 1 then Pow2(e - 1) else 1 }

  function Dilution(e: int): nat { if e < 0 then Pow2(-e) else 1 }

  /** The register s at exponent e stands for num/den units. */
  predicate Encodes(e: int, s: nat, num: nat, den: nat) {
    Stands(s, 8 * Mul(Dilution(e), num), Mul(Weight(e), den))
  }

  /** Exponents at most zero are lowered by one, so that the normalizer's right shifts
      arrive at exponent 0, which has the scale of exponent 1. */
  function Lowered(e: int): int { if e <= 0 then e - 1 else e }

  /** If s stands for m / 2^k, then at exponent t + 1 - d it stands for m * 2^t / 2^(d + k + 3) units. */
  lemma {:induction false} ScaledEncodes(s: nat, m: nat, k: nat, t: nat, d: nat)
    requires Stands(s, m, Pow2(k))
    ensures Encodes(Lowered(t + 1 - d), s, Mul(m, Pow2(t)), Pow2(d + k + 3))
  {
    var num := Mul(m, Pow2(t));
    if t + 1 - d >= 1 {
      StandsScale(s, m, Pow2(k), Pow2(t + 3));
      EightTimesPow2(m, t);
      MulOne(num);
      Pow2Add(k, t + 3);
      Pow2Add(t - d, d + k + 3);
    } else {
      StandsScale(s, m, Pow2(k), Pow2(d + 3));
      Pow2Add(t, d - t);
      MulComm(Pow2(d - t), num);
      MulAssoc(m, Pow2(t), Pow2(d - t));
      EightTimesPow2(m, d);
      Pow2Add(k, d + 3);
      MulOne(Pow2(d + k + 3));
    }
  }

  // ---- Rounding a register ----

  /** A register with quotient q and rounding bits r, compared with n/d in eighths. */
  lemma {:induction false} Bracket(s: nat, q: nat, r: nat, n: nat, d: nat)
    requires Resembles(s, 8 * n, d) && s == 8 * q + r && r < 8
    ensures var a := 8 * Mul(q, d); var b := if r < 4 then 0 else 4;
      8 * n == a + Mul(r, d) || (r % 2 == 1 && a + Mul(b, d) < 8 * n < a + Mul(b + 4, d))
  {
    EighthSplit(q, r, d);
    if 8 * n != Mul(s, d) {
      var b := if r < 4 then 0 else 4;
      DivMod4(s, 2 * q + b / 4, r - b);
      DivMod2(s, 4 * q + r / 2, r % 2);
      EighthSplit(q, b, d);
      EighthSplit(q, b + 4, d);
    }
  }

  lemma {:induction false} EighthSplit(q: nat, r: nat, d: nat)
    ensures Mul(8 * q + r, d) == 8 * Mul(q, d) + Mul(r, d)
  {
    MulAdd(8 * q, r, d);
    MulEight(q, d);
  }

  /** The rounding decision picks the nearest multiple of the last place. */
  lemma {:induction false} RoundNearest(s: nat, n: nat, d: nat, sign: bool)
    requires Resembles(s, 8 * n, d) && d > 0
    ensures var m := Rounded(Nearest, sign, s);
      NearestMultiple(m, d, n) && (s % 8 == 0 <==> Mul(m, d) == n)
  {
    var q, r := s / 8, s % 8;
    Bracket(s, q, r, n, d);
    SmallMultiples(d);
    MulAdd(q, 1, d);
    NearestInEighths(Mul(q, d), q, r, n, d, Mul(Rounded(Nearest, sign, s), d));
  }

  lemma {:induction false} NearestInEighths(a: nat, q: nat, r: nat, n: nat, d: nat, b: nat)
    requires r < 8 && d > 0
    requires 8 * n == 8 * a + Mul(r, d)
      || (r % 2 == 1 && 8 * a + (if r < 4 then 0 else 4 * d) < 8 * n < 8 * a + (if r < 4 then 4 * d else 8 * d))
    requires b == a + if r > 4 || (r == 4 && q % 2 == 1) then d else 0
    ensures 2 * Abs(b - n) <= d && (b == n <==> r == 0)
    ensures 2 * Abs(b - n) == d ==> r == 4
  {
    SmallMultiples(d);
  }

  /** Dropping the rounding bits picks the largest multiple not above. */
  lemma {:induction false} RoundZero(s: nat, n: nat, d: nat)
    requires Resembles(s, 8 * n, d) && d > 0
    ensures Mul(s / 8, d) <= n < Mul(s / 8 + 1, d)
    ensures s % 8 == 0 <==> Mul(s / 8, d) == n
  {
    var q, r := s / 8, s % 8;
    Bracket(s, q, r, n, d);
    SmallMultiples(d);
    MulAdd(q, 1, d);
    NearestInEighths(Mul(q, d), q, r, n, d, Mul(q, d) + if r > 4 || (r == 4 && q % 2 == 1) then d else 0);
  }

  // ---- The normalizer rounds correctly ----

  /** x with the flags res is num/den units under the sign, rounded as IEEE 754 asks:
      sections 4.1 (value), 7.3 (overflow) and 7.5 (inexact, reported here unless the result overflows).
      UNDERFLOW tells that a number other than zero has become zero. */
  ghost predicate Delivers(f: Format, mode: Mode, sign: bool, num: nat, den: nat, x: Fp, res: set<Flag>)
    requires f.bias >= 1 && (mode == Nearest || mode == Zero)
  {
    Rounds(f, mode, sign, num, den, x, res) && ReportsInexact(f, num, den, x, res) && ReportsUnderflow(num, x, res)
  }

  ghost predicate Rounds(f: Format, mode: Mode, sign: bool, num: nat, den: nat, x: Fp, res: set<Flag>)
    requires f.bias >= 1 && (mode == Nearest || mode == Zero)
  {
    && x.sign == sign
    && Correct(f, mode, x, num, den)
    && (Overflow in res <==> x.expo > f.MaxExpo())
    && (ZeroResult in res <==> IsZero(x))
    && (Negative in res <==> sign)
  }

  predicate ReportsInexact(f: Format, num: nat, den: nat, x: Fp, res: set<Flag>) {
    Inexact in res <==> x.expo <= f.MaxExpo() && Mul(Units(f, x), den) != num
  }

  predicate ReportsUnderflow(num: nat, x: Fp, res: set<Flag>) { Underflow in res <==> IsZero(x) && num > 0 }

  /** Left normalization repeats the sticky bit, which is harmless only if it is
      clear or if at most one shift is made. */
  predicate Settled(f: Format, e: int, s: nat) {
    s % 2 == 0 || e <= 2 || 2 * s >= Lead(f)
  }

  /** A result shifted up from a negative exponent must not carry past the first
      normal binade: the late carry would go from exponent 0 to 1, not to 2. */
  predicate Roomy(f: Format, e: int, s: nat) {
    e < 0 ==> s < Mul(2 * Lead(f) - 4, Pow2(-e))
  }

  /** What the flags and the value of Finish are, in terms of the rounded significand. */
  lemma {:induction false} FinishPacks(f: Format, mode: Mode, sign: bool, e: nat, s: nat)
    requires f.Valid() && s < 2 * Lead(f) && (mode == Nearest || mode == Zero)
    requires mode == Nearest && e == 0 ==> s < 2 * Lead(f) - 4
    requires Rounded(mode, sign, s) < f.One() ==> e <= 1
    ensures var (x, res) := Finish(f, mode, sign, e, s);
      && Rounded(mode, sign, s) <= 2 * f.One()
      && x == Pack(f, sign, Rounded(mode, sign, s), Effective(e))
      && (Overflow in res <==> x.expo > f.MaxExpo())
      && (Inexact in res <==> x.expo <= f.MaxExpo() && s % 8 != 0)
      && (ZeroResult in res <==> IsZero(x))
      && (Negative in res <==> sign)
  {
    OneIsEven(f);
  }

  lemma {:induction false} FinishValue(f: Format, mode: Mode, sign: bool, e: nat, s: nat, m: nat)
    requires f.Valid() && s < 2 * Lead(f) && (mode == Nearest || mode == Zero)
    requires mode == Nearest && e == 0 ==> s < 2 * Lead(f) - 4
    requires m == Rounded(mode, sign, s) && (m < f.One() ==> e <= 1)
    ensures Finish(f, mode, sign, e, s).0 == Pack(f, sign, m, Effective(e))
  {
    FinishPacks(f, mode, sign, e, s);
  }

  lemma {:induction false} FinishDelivers(f: Format, mode: Mode, sign: bool, e: nat, s: nat, num: nat, den: nat)
    requires f.Valid() && den > 0 && s < 2 * Lead(f) && (e > 1 ==> s >= Lead(f))
    requires mode == Nearest || mode == Zero
    requires e == 0 ==> s < 2 * Lead(f) - 4
    requires Resembles(s, 8 * num, Mul(Weight(e), den))
    ensures var (x, res) := Finish(f, mode, sign, e, s);
      Rounds(f, mode, sign, num, den, x, res) && ReportsInexact(f, num, den, x, res)
  {
    var (x, res) := Finish(f, mode, sign, e, s);
    var e' := Effective(e);
    assert Weight(e) == Pow2(e' - 1);
    MulPositive(Pow2(e' - 1), den);
    FinishPacks(f, mode, sign, e, s);
    if mode == Nearest {
      NearestDelivers(f, sign, e', s, num, den, x, res);
    } else {
      ZeroDelivers(f, sign, e', s, num, den, x, res);
    }
  }

  lemma {:induction false} NearestDelivers(f: Format, sign: bool, e: nat, s: nat, num: nat, den: nat, x: Fp,
        res: set<Flag>)
    requires f.Valid() && den > 0 && e >= 1 && (e > 1 ==> s >= Lead(f))
    requires Mul(Pow2(e - 1), den) > 0 && Resembles(s, 8 * num, Mul(Pow2(e - 1), den))
    requires Rounded(Nearest, sign, s) <= 2 * f.One()
    requires x == Pack(f, sign, Rounded(Nearest, sign, s), e)
    requires Overflow in res <==> x.expo > f.MaxExpo()
    requires Inexact in res <==> x.expo <= f.MaxExpo() && s % 8 != 0
    requires ZeroResult in res <==> IsZero(x)
    requires Negative in res <==> sign
    ensures Rounds(f, Nearest, sign, num, den, x, res) && ReportsInexact(f, num, den, x, res)
  {
    var m, u := Rounded(Nearest, sign, s), Mul(Pow2(e - 1), den);
    RoundNearest(s, num, u, sign);
    if e > 1 {
      RoundZero(s, num, u);
      MulLe(f.One(), s / 8, u);
    }
    PackNearest(f, sign, m, e, num, den);
    PackUnits(f, sign, m, e);
    MulAssoc(m, Pow2(e - 1), den);
  }

  lemma {:induction false} ZeroDelivers(f: Format, sign: bool, e: nat, s: nat, num: nat, den: nat, x: Fp,
        res: set<Flag>)
    requires f.Valid() && den > 0 && e >= 1 && s < 2 * Lead(f) && (e > 1 ==> s >= Lead(f))
    requires Mul(Pow2(e - 1), den) > 0 && Resembles(s, 8 * num, Mul(Pow2(e - 1), den))
    requires x == Pack(f, sign, s / 8, e)
    requires Overflow in res <==> x.expo > f.MaxExpo()
    requires Inexact in res <==> x.expo <= f.MaxExpo() && s % 8 != 0
    requires ZeroResult in res <==> IsZero(x)
    requires Negative in res <==> sign
    ensures Rounds(f, Zero, sign, num, den, x, res) && ReportsInexact(f, num, den, x, res)
  {
    RoundZero(s, num, Mul(Pow2(e - 1), den));
    PackTruncated(f, sign, s / 8, e, num, den);
    PackUnits(f, sign, s / 8, e);
    MulAssoc(s / 8, Pow2(e - 1), den);
  }

  // ---- The shifting loops keep what the register stands for ----

  /** An exact register stays exact through the left shifts. */
  lemma {:induction false} ExactUp(f: Format, e: int, s: nat, num: nat, den: nat)
    requires 8 * Mul(Dilution(e), num) == Mul(s, Mul(Weight(e), den)) && s % 2 == 0
    ensures var (e', s') := ShiftUp(f, e, s);
      && 8 * Mul(Dilution(e'), num) == Mul(s', Mul(Weight(e'), den)) && s' % 2 == 0
      && (e' > 1 ==> s' >= Lead(f)) && (s > 0 ==> s' > 0)
      && (e' < e ==> e' >= 1 && s' < 2 * Lead(f))
    decreases if e > 0 then e else 0
  {
    if e > 1 && s < Lead(f) {
      MulTwo(Weight(e - 1), den);
      MulTwo(s, Mul(Weight(e - 1), den));
      ExactUp(f, e - 1, 2 * s, num, den);
    }
  }

  lemma {:induction false} DownStands(f: Format, e: int, s: nat, num: nat, den: nat)
    requires f.Valid() && den > 0 && Encodes(e, s, num, den) && Roomy(f, e, s)
    requires (e > 1 ==> s >= Lead(f)) && (e == 0 ==> s < 2 * Lead(f) - 4)
    ensures var (e', s') := ShiftDown(f, e, s);
      && Encodes(e', s', num, den) && (e' > 1 ==> s' >= Lead(f))
      && (e' == 0 ==> s' < 2 * Lead(f) - 4)
    decreases s + if e < 0 then -e else 0
  {
    if s >= 2 * Lead(f) || e < 0 {
      if e < 0 { JamRoomy(f, e, s); }
      MulOne(2 * Lead(f) - 4);
      JamEncodes(e, s, num, den);
      DownStands(f, e + 1, Jam(s), num, den);
    }
  }

  lemma {:induction false} JamEncodes(e: int, s: nat, num: nat, den: nat)
    requires den > 0 && Encodes(e, s, num, den) && e != 0
    ensures Encodes(e + 1, Jam(s), num, den)
  {
    var n, d := 8 * Mul(Dilution(e), num), Mul(Weight(e), den);
    MulPositive(Weight(e), den);
    JamStands(s, n, d);
    if e >= 1 {
      MulTwo(Weight(e), den);
    } else {
      MulTwo(Dilution(e + 1), num);
      StandsHalve(Jam(s), 8 * Mul(Dilution(e + 1), num), d);
    }
  }

  lemma {:induction false} JamRoomy(f: Format, e: int, s: nat)
    requires f.Valid() && e < 0 && Roomy(f, e, s)
    ensures Jam(s) < Mul(2 * Lead(f) - 4, Pow2(-(e + 1)))
  {
    var k := Pow2(-(e + 1));
    MulTwo(2 * Lead(f) - 4, k);
    MulTwo(Lead(f) - 2, k);
  }

  lemma {:induction false} OneShiftUp(f: Format, e: int, s: nat)
    requires s % 2 == 1 && Settled(f, e, s) && e > 1 && s < Lead(f)
    ensures ShiftUp(f, e, s) == (e - 1, 2 * s + 1)
    ensures e - 1 > 1 ==> 2 * s + 1 >= Lead(f)
  {
    assert ShiftUp(f, e, s) == ShiftUp(f, e - 1, 2 * s + 1);
  }

  /** An odd register shifted left once brackets the number between multiples of four. */
  lemma {:induction false} OddUp(s: nat, n: nat, d: nat)
    requires s % 2 == 1 && Stands(s, n, 2 * d)
    ensures Resembles(2 * s + 1, n, d)
  {
    MulTwo(s - 1, d);
    MulTwo(s + 1, d);
    ModFourOfOdd(s);
  }

  lemma {:induction false} ModFourOfOdd(s: nat)
    requires s % 2 == 1
    ensures (2 * s + 1) % 4 == 3 && (2 * s + 1) % 2 == 1
  {
    DivMod4(2 * s + 1, s / 2, 3);
    DivMod2(2 * s + 1, s, 1);
  }

  lemma {:induction false} UpResembles(f: Format, e: int, s: nat, num: nat, den: nat)
    requires f.Valid() && den > 0 && s > 0 && Encodes(e, s, num, den)
    requires Settled(f, e, s) && ShiftUp(f, e, s).0 < e
    ensures var (e', s') := ShiftUp(f, e, s);
      && e' >= 1 && Resembles(s', 8 * num, Mul(Weight(e'), den))
      && s' < 2 * Lead(f) && (e' > 1 ==> s' >= Lead(f))
  {
    MulOne(num);
    if s % 2 == 0 {
      ExactUp(f, e, s, num, den);
    } else {
      OneShiftUp(f, e, s);
      MulTwo(Weight(e - 1), den);
      OddUp(s, 8 * num, Mul(Weight(e - 1), den));
    }
  }

  lemma {:induction false} AdjustEncodes(f: Format, e: int, s: nat, num: nat, den: nat)
    requires Encodes(e, s, num, den)
    ensures Encodes(Adjust(f, e, s), s, num, den)
  {
    assert Weight(0) == Weight(1) == 1 && Dilution(0) == Dilution(1) == 1;
  }

  lemma {:induction false} NormUnderflow(f: Format, mode: Mode, sign: bool, e: int, s: nat)
    ensures var (x, res) := Norm(f, mode, sign, e, s); Underflow in res <==> s > 0 && IsZero(x)
  {
    hide Finish;
    var (e1, s1) := ShiftUp(f, e, s);
    var (e2, s2) := ShiftDown(f, Adjust(f, e1, s1), s1);
    FinishUnderflow(f, mode, sign, e2, s2);
  }

  lemma {:induction false} FinishUnderflow(f: Format, mode: Mode, sign: bool, e: nat, s: nat)
    ensures var (x, res) := Finish(f, mode, sign, e, s); Underflow in res <==> IsZero(x)
  {
    hide Rounded;
    PackageUnderflow(f, sign, e + 1, Rounded(mode, sign, s) / 2, s % 8 / 2 + Rounded(mode, sign, s) % 2 * 4);
    PackageUnderflow(f, sign, if Rounded(mode, sign, s) < f.One() then 0 else Effective(e),
                     Rounded(mode, sign, s), s % 8);
  }

  lemma {:induction false} PackageUnderflow(f: Format, sign: bool, e: nat, m: nat, r: nat)
    requires m >= f.One() ==> e >= 1
    ensures var (x, res) := Package(f, sign, e, m, r); Underflow in res <==> IsZero(x)
  {
  }

  lemma {:induction false} PositiveStands(s: nat, n: nat, d: nat)
    requires Stands(s, n, d) && s > 0 && d > 0
    ensures n > 0
  {
    if s % 2 == 0 { MulPositive(s, d); }
  }

  /** A register that is not zero stands for a number that is not. */
  lemma {:induction false} PositiveEncodes(e: int, s: nat, num: nat, den: nat)
    requires Encodes(e, s, num, den) && s > 0 && den > 0
    ensures num > 0
  {
    MulPositive(Weight(e), den);
    PositiveStands(s, 8 * Mul(Dilution(e), num), Mul(Weight(e), den));
    MulOne(Dilution(e));
  }

  /** ar_i64norm in NEAREST and ZERO: the number its arguments stand for, correctly rounded. */
  lemma {:induction false} NormDelivers(f: Format, mode: Mode, sign: bool, e: int, s: nat, num: nat, den: nat)
    requires f.Valid() && den > 0 && s > 0 && Encodes(e, s, num, den)
    requires mode == Nearest || mode == Zero
    requires Settled(f, e, s) && Roomy(f, e, s)
    ensures var (x, res) := Norm(f, mode, sign, e, s);
      Delivers(f, mode, sign, num, den, x, res)
  {
    var (e1, s1) := ShiftUp(f, e, s);
    var a := Adjust(f, e1, s1);
    NormUnderflow(f, mode, sign, e, s);
    PositiveEncodes(e, s, num, den);
    MulOne(num);
    if e1 < e {
      UpResembles(f, e, s, num, den);
      FinishDelivers(f, mode, sign, a, s1, num, den);
    } else {
      AdjustEncodes(f, e, s, num, den);
      OneIsEven(f);
      DownStands(f, a, s, num, den);
      var (e2, s2) := ShiftDown(f, a, s1);
      StandsResembles(s2, 8 * num, Mul(Weight(e2), den));
      FinishDelivers(f, mode, sign, e2, s2, num, den);
    }
  }

  /** A register with its leading bit in place is rounded as it is. */
  lemma {:induction false} NormDirect(f: Format, mode: Mode, sign: bool, e: nat, s: nat)
    requires f.Valid() && e >= 1 && Lead(f) <= s < 2 * Lead(f)
    ensures Norm(f, mode, sign, e, s) == Finish(f, mode, sign, e, s)
  {
    assert ShiftUp(f, e, s) == (e, s) && ShiftDown(f, e, s) == (e, s);
  }

  /** The zero register is an exact zero. */
  lemma {:induction false} ZeroDelivered(f: Format, mode: Mode, sign: bool, e: int, num: nat, den: nat)
    requires f.Valid() && den > 0 && Encodes(e, 0, num, den) && (mode == Nearest || mode == Zero)
    ensures var (x, res) := Norm(f, mode, sign, e, 0);
      Delivers(f, mode, sign, num, den, x, res)
  {
    assert num == 0 by {
      if num > 0 { MulPositive(Dilution(e), num); }
    }
    MulOne(Scale(0));
    MulOne(den);
    SmallMultiples(den);
    PackNearest(f, sign, 0, 1, 0, den);
    PackTruncated(f, sign, 0, 1, 0, den) by { MulPositive(Pow2(0), den); MulOne(Mul(Pow2(0), den)); }
  }

  /** The flags that belong to a number other than NaN; `tiny` tells whether a zero stands for a number
      other than zero, which is what UNDERFLOW reports. */
  predicate FlagsOf(f: Format, x: Fp, res: set<Flag>, tiny: bool) {
    && (Negative in res <==> x.sign) && (Overflow in res <==> IsInf(f, x)) && (ZeroResult in res <==> IsZero(x))
    && (Underflow in res <==> IsZero(x) && tiny) && Undefined !in res && SemiValid !in res
  }

  /** Sign and flags that ar_i64norm delivers, in every mode and for every register. */
  lemma {:induction false} NormFlags(f: Format, mode: Mode, sign: bool, e: int, s: nat)
    requires f.Valid()
    ensures var (x, res) := Norm(f, mode, sign, e, s);
      IsFp(f, x) && !IsNaN(f, x) && x.sign == sign && FlagsOf(f, x, res, s > 0)
  {
    if s > 0 {
      var (e1, s1) := ShiftUp(f, e, s);
      var (e2, s2) := ShiftDown(f, Adjust(f, e1, s1), s1);
      FinishedFlags(f, mode, sign, e2, s2);
    }
  }

  lemma {:induction false} FinishedFlags(f: Format, mode: Mode, sign: bool, e: nat, s: nat)
    requires f.Valid() && s < 2 * Lead(f)
    ensures var (x, res) := Finish(f, mode, sign, e, s);
      && IsFp(f, x) && !IsNaN(f, x) && x.sign == sign && FlagsOf(f, x, res, true)
      && (IsZero(x) <==> Rounded(mode, sign, s) == 0)
  {
    hide Pow2, Package, FlagsOf;
    var m := Rounded(mode, sign, s);
    OneIsEven(f);
    DivMod2(2 * f.One(), f.One(), 0);
    if m >= 2 * f.One() {
      PackagedFlags(f, sign, e + 1, m / 2, s % 8 / 2 + m % 2 * 4);
    } else {
      PackagedFlags(f, sign, if m < f.One() then 0 else Effective(e), m, s % 8);
    }
  }

  lemma {:induction false} PackagedFlags(f: Format, sign: bool, e: nat, m: nat, r: nat)
    requires m < 2 * f.One() && (if m < f.One() then e == 0 else e >= 1)
    ensures var (x, res) := Package(f, sign, e, m, r);
      && IsFp(f, x) && !IsNaN(f, x) && x.sign == sign && FlagsOf(f, x, res, true) && (IsZero(x) <==> m == 0)
  {
    hide Pow2;
  }

  lemma {:induction false} NormSign(f: Format, mode: Mode, sign: bool, e: int, s: nat)
    ensures Norm(f, mode, sign, e, s).0.sign == sign
  {
  }
}
