/**
 * The directed modes of ar_i64norm and ar_i32norm: when they round as section 4.2 of IEEE
 * 754-1985 asks, and what that means for sums and products.
 */
module Directed {
  import opened Powers
  import opened Ieee754
  import opened Normalizer
  import opened Exactness
  import Addition
  import Multiply

  predicate IsDirected(mode: Mode) { mode == PlusInfinity || mode == MinusInfinity }

  /** The direction points away from zero. */
  predicate Away(mode: Mode, sign: bool) { if sign then mode == MinusInfinity else mode == PlusInfinity }

  /** The magnitude of x is the least finite one not below num/den, or infinite if there is none. */
  ghost predicate RoundedUp(f: Format, x: Fp, num: nat, den: nat) {
    if x.expo > f.MaxExpo() then
      IsInf(f, x) && forall v :: Finite(f, v) ==> Mul(Units(f, v), den) < num
    else
      && x.coeff < f.One() && num <= Mul(Units(f, x), den)
      && forall v :: Finite(f, v) && num <= Mul(Units(f, v), den) ==> Units(f, x) <= Units(f, v)
  }

  /** The magnitude of x is the largest finite one not above num/den. */
  ghost predicate RoundedDown(f: Format, x: Fp, num: nat, den: nat) {
    && Finite(f, x) && Mul(Units(f, x), den) <= num
    && forall v :: Finite(f, v) && Mul(Units(f, v), den) <= num ==> Units(f, v) <= Units(f, x)
  }

  /** x is num/den units under the sign, rounded in the direction of the mode. */
  ghost predicate DirectedCorrect(f: Format, mode: Mode, sign: bool, x: Fp, num: nat, den: nat) {
    x.sign == sign && if Away(mode, sign) then RoundedUp(f, x, num, den) else RoundedDown(f, x, num, den)
  }

  /** num/den is a finite number of the format. */
  ghost predicate Attained(f: Format, num: nat, den: nat) {
    exists v :: Finite(f, v) && Mul(Units(f, v), den) == num
  }

  /** The largest finite number, in units. */
  function Largest(f: Format): nat
    requires f.bias >= 1
  {
    Mul(2 * f.One() - 1, TopPlace(f))
  }

  lemma {:induction false} LargestIs(f: Format, v: Fp)
    requires f.Valid() && Finite(f, v)
    ensures var x := Fp(false, f.MaxExpo(), f.One() - 1);
      Finite(f, x) && Units(f, x) == Largest(f) && Units(f, v) <= Largest(f)
  {
    MagnitudeOrder(f, Fp(false, f.MaxExpo(), f.One() - 1), v);
  }

  // ---- Packing ----

  lemma {:induction false} FiniteBelowTop(f: Format, v: Fp, num: nat, den: nat)
    requires f.Valid() && den > 0 && Finite(f, v) && BeyondFormat(f, num, den)
    ensures Mul(Units(f, v), den) < num
  {
    var w, t := Scale(v.expo), TopPlace(f);
    Pow2Mono(Effective(v.expo) - 1, f.MaxExpo() - 1);
    MulLt(Sig(f, v), 2 * f.One(), w);
    MulLeRight(2 * f.One(), w, t);
    MulLt(Units(f, v), Mul(2 * f.One(), t), den);
    MulAssoc(2 * f.One(), t, den);
  }

  /** The least multiple of the last place not below num/den packs to the least value not below. */
  lemma {:induction false} PackUp(f: Format, sign: bool, m: nat, e: nat, num: nat, den: nat)
    requires f.Valid() && e >= 1 && den > 0 && m <= 2 * f.One()
    requires num <= Mul(m, Mul(Pow2(e - 1), den)) && (m > 0 ==> Mul(m - 1, Mul(Pow2(e - 1), den)) < num)
    requires e > 1 ==> num >= Mul(f.One(), Mul(Pow2(e - 1), den))
    ensures RoundedUp(f, Pack(f, sign, m, e), num, den)
    ensures m < f.One() ==> e == 1
  {
    var x, u := Pack(f, sign, m, e), Mul(Pow2(e - 1), den);
    MulPositive(Pow2(e - 1), den);
    if m < f.One() { MulLt(m, f.One(), u); }
    PackUnits(f, sign, m, e);
    MulAssoc(m, Pow2(e - 1), den);
    forall v | Finite(f, v)
      ensures x.expo > f.MaxExpo() ==> Mul(Units(f, v), den) < num
      ensures x.expo <= f.MaxExpo() && num <= Mul(Units(f, v), den) ==> Units(f, x) <= Units(f, v)
    {
      if x.expo > f.MaxExpo() {
        BelowOverflow(f, m, e, num, den, v);
      } else if num <= Mul(Units(f, v), den) {
        UpBeats(f, m, e, num, den, v);
      }
    }
  }

  lemma {:induction false} UpBeats(f: Format, m: nat, e: nat, num: nat, den: nat, v: Fp)
    requires f.Valid() && e >= 1 && den > 0 && Finite(f, v) && num <= Mul(Units(f, v), den)
    requires m > 0 ==> Mul(m - 1, Mul(Pow2(e - 1), den)) < num
    requires e > 1 ==> num >= Mul(f.One(), Mul(Pow2(e - 1), den))
    ensures Mul(m, Pow2(e - 1)) <= Units(f, v)
  {
    var w := Pow2(e - 1);
    if e > 1 && Units(f, v) < Mul(f.One(), w) {
      MulLt(Units(f, v), Mul(f.One(), w), den);
      MulAssoc(f.One(), w, den);
    } else {
      var k := OnGrid(f, v, e);
      MulAssoc(k, w, den);
      if k < m {
        MulLe(k, m - 1, Mul(w, den));
      } else {
        MulLe(m, k, w);
      }
    }
  }

  lemma {:induction false} BelowOverflow(f: Format, m: nat, e: nat, num: nat, den: nat, v: Fp)
    requires f.Valid() && e >= 1 && den > 0 && Finite(f, v) && m <= 2 * f.One() && m >= f.One()
    requires Pack(f, false, m, e).expo > f.MaxExpo()
    requires Mul(m - 1, Mul(Pow2(e - 1), den)) < num
    requires e > 1 ==> num >= Mul(f.One(), Mul(Pow2(e - 1), den))
    ensures Mul(Units(f, v), den) < num
  {
    var w, t := Pow2(e - 1), TopPlace(f);
    if e > f.MaxExpo() {
      Pow2Mono(f.MaxExpo() - 1, e - 1);
      MulLe(2 * t, w, den);
      MulTwo(t, den);
      MulLeRight(f.One(), 2 * Mul(t, den), Mul(w, den));
      MulTwo(f.One(), Mul(t, den));
      FiniteBelowTop(f, v, num, den);
    } else {
      Pow2Mono(Effective(v.expo) - 1, e - 1);
      MulLe(Sig(f, v), m - 1, Scale(v.expo));
      MulLeRight(m - 1, Scale(v.expo), w);
      MulLe(Units(f, v), Mul(m - 1, w), den);
      MulAssoc(m - 1, w, den);
    }
  }

  /** In ZERO the truncated result is that of section 4.2 exactly below the first power of two
      beyond the format, where the normalizer delivers infinity. */
  lemma {:induction false} TruncatedDown(f: Format, x: Fp, num: nat, den: nat)
    requires f.Valid() && den > 0 && Truncated(f, x, num, den)
    ensures RoundedDown(f, x, num, den) <==> !BeyondFormat(f, num, den)
  {
  }

  /** The same of the normalizer in ZERO. */
  lemma {:induction false} ZeroExactly(f: Format, sign: bool, e: int, s: nat, num: nat, den: nat)
    requires f.Valid() && den > 0 && s > 0 && Encodes(e, s, num, den) && Settled(f, e, s) && Roomy(f, e, s)
    ensures RoundedDown(f, Norm(f, Zero, sign, e, s).0, num, den) <==> !BeyondFormat(f, num, den)
  {
    NormDelivers(f, Zero, sign, e, s, num, den);
    TruncatedDown(f, Norm(f, Zero, sign, e, s).0, num, den);
  }

  // ---- The register that is rounded ----

  /** Room for an increment whatever the rounding bits are. */
  predicate RoomToBump(f: Format, e: int, s: nat)
    requires f.Valid()
  {
    e < 0 ==> s < Mul(2 * Lead(f) - 8, Pow2(-e))
  }

  lemma {:induction false} RoomIsRoomy(f: Format, e: int, s: nat)
    requires f.Valid() && RoomToBump(f, e, s)
    ensures Roomy(f, e, s)
  {
    if e < 0 { MulLe(2 * Lead(f) - 8, 2 * Lead(f) - 4, Pow2(-e)); }
  }

  lemma {:induction false} JamBelow(s: nat, c: nat, k: nat)
    requires s < Mul(2 * c, 2 * k)
    ensures Jam(s) < Mul(2 * c, k)
  {
    MulTwo(2 * c, k);
    MulTwo(c, k);
  }

  lemma {:induction false} DownRoomy(f: Format, e: int, s: nat)
    requires f.Valid() && RoomToBump(f, e, s) && (e == 0 ==> s < 2 * Lead(f) - 8)
    ensures ShiftDown(f, e, s).0 == 0 ==> ShiftDown(f, e, s).1 < 2 * Lead(f) - 8
    decreases s + if e < 0 then -e else 0
  {
    if s >= 2 * Lead(f) || e < 0 {
      MulOne(2 * Lead(f) - 8);
      if e < 0 { JamBelow(s, Lead(f) - 4, Pow2(-(e + 1))); }
      DownRoomy(f, e + 1, Jam(s));
    }
  }

  /** Exponent and register at which the rounding decision is made, in every mode. */
  function Reached(f: Format, e: int, s: nat): (nat, nat) {
    var (e1, s1) := ShiftUp(f, e, s);
    ShiftDown(f, Adjust(f, e1, s1), s1)
  }

  lemma {:induction false} NormReaches(f: Format, e: int, s: nat, num: nat, den: nat)
    requires f.Valid() && den > 0 && s > 0 && Encodes(e, s, num, den) && Settled(f, e, s) && RoomToBump(f, e, s)
    ensures var (e', s') := Reached(f, e, s);
      && Resembles(s', 8 * num, Mul(Weight(e'), den)) && s' < 2 * Lead(f)
      && (e' > 1 ==> s' >= Lead(f)) && (e' == 0 ==> s' < 2 * Lead(f) - 8)
  {
    var (e1, s1) := ShiftUp(f, e, s);
    var a := Adjust(f, e1, s1);
    var (e', s') := ShiftDown(f, a, s1);
    MulOne(num);
    OneIsEven(f);
    RoomIsRoomy(f, e, s);
    if e1 < e {
      UpResembles(f, e, s, num, den);
    } else {
      AdjustEncodes(f, e, s, num, den);
      DownStands(f, a, s, num, den);
      DownRoomy(f, a, s);
      StandsResembles(s', 8 * num, Mul(Weight(e'), den));
    }
  }

  lemma {:induction false} FinishPacked(f: Format, mode: Mode, sign: bool, e: nat, s: nat, m: nat)
    requires f.Valid() && s < 2 * Lead(f) && m == Rounded(mode, sign, s)
    requires (e == 0 ==> s < 2 * Lead(f) - 8) && (e > 1 ==> s >= Lead(f))
    ensures var (x, res) := Finish(f, mode, sign, e, s);
      && m <= 2 * f.One() && x == Pack(f, sign, m, Effective(e))
      && (Inexact in res <==> x.expo <= f.MaxExpo() && (if m < 2 * f.One() then s % 8 != 0 else s % 8 >= 2))
  {
    OneIsEven(f);
    DivMod2(2 * f.One(), f.One(), 0);
  }

  // ---- Directed rounding ----

  /** Away from zero the result is right. */
  lemma {:induction false} AwayRight(f: Format, sign: bool, e: nat, s: nat, m: nat, num: nat, den: nat)
    requires f.Valid() && den > 0 && e >= 1 && s < 2 * Lead(f) && (e > 1 ==> s >= Lead(f)) && m <= 2 * f.One()
    requires Resembles(s, 8 * num, Mul(Pow2(e - 1), den)) && m == s / 8 + if s % 8 == 0 then 0 else 1
    ensures RoundedUp(f, Pack(f, sign, m, e), num, den)
  {
    var u := Mul(Pow2(e - 1), den);
    MulPositive(Pow2(e - 1), den);
    RoundZero(s, num, u);
    if e > 1 { MulLe(f.One(), s / 8, u); }
    if s % 8 == 0 && m > 0 { MulLt(m - 1, m, u); }
    PackUp(f, sign, m, e, num, den);
  }

  /** Towards zero an exact result is bumped, which is always wrong; the others are right below
      the first power of two beyond the format. */
  lemma {:induction false} TowardsExactly(f: Format, sign: bool, e: nat, s: nat, m: nat, num: nat, den: nat)
    requires f.Valid() && den > 0 && e >= 1 && s < 2 * Lead(f) && (e > 1 ==> s >= Lead(f)) && m <= 2 * f.One()
    requires Resembles(s, 8 * num, Mul(Pow2(e - 1), den)) && m == s / 8 + if s % 8 == 0 then 1 else 0
    ensures RoundedDown(f, Pack(f, sign, m, e), num, den) <==> !Attained(f, num, den) && !BeyondFormat(f, num, den)
  {
    var q, u := s / 8, Mul(Pow2(e - 1), den);
    var x := Pack(f, sign, q, e);
    MulPositive(Pow2(e - 1), den);
    RoundZero(s, num, u);
    PackTruncated(f, sign, q, e, num, den);
    PackUnits(f, sign, q, e);
    PackUnits(f, sign, m, e);
    MulAssoc(q, Pow2(e - 1), den);
    MulAssoc(m, Pow2(e - 1), den);
    if s % 8 == 0 {
      Bumped(f, sign, e, q, num, den);
    } else {
      InexactTruncated(f, x, num, den);
    }
  }

  /** A truncated value that is not exact. */
  lemma {:induction false} InexactTruncated(f: Format, x: Fp, num: nat, den: nat)
    requires f.Valid() && den > 0 && Truncated(f, x, num, den)
             && (x.expo <= f.MaxExpo() ==> Mul(Units(f, x), den) != num)
    ensures RoundedDown(f, x, num, den) <==> !Attained(f, num, den) && !BeyondFormat(f, num, den)
  {
    if x.expo <= f.MaxExpo() && Attained(f, num, den) {
      var v :| Finite(f, v) && Mul(Units(f, v), den) == num;
      MulLe(Units(f, v), Units(f, x), den);
    }
  }

  /** The number after an exact one. */
  lemma {:induction false} Bumped(f: Format, sign: bool, e: nat, q: nat, num: nat, den: nat)
    requires f.Valid() && den > 0 && e >= 1 && q < 2 * f.One() && num == Mul(q, Mul(Pow2(e - 1), den))
    requires (e > 1 ==> q >= f.One()) && Truncated(f, Pack(f, sign, q, e), num, den)
    ensures !RoundedDown(f, Pack(f, sign, q + 1, e), num, den)
    ensures Attained(f, num, den) || BeyondFormat(f, num, den)
  {
    var x, y, w := Pack(f, sign, q, e), Pack(f, sign, q + 1, e), Pow2(e - 1);
    PackUnits(f, sign, q, e);
    PackUnits(f, sign, q + 1, e);
    MulAssoc(q, w, den);
    MulAssoc(q + 1, w, den);
    MulPositive(w, den);
    MulLt(q, q + 1, Mul(w, den));
    if x.expo <= f.MaxExpo() {
      assert Finite(f, x) && Mul(Units(f, x), den) == num;
    }
  }

  /** INEXACT of num/den, for which the register s is rounded: away from zero a carry of rounding
      bits 1 loses it, towards zero it is missing for the numbers of the format below the largest,
      which are bumped. */
  ghost predicate FlagLost(f: Format, away: bool, s: nat, num: nat, den: nat)
    requires f.bias >= 1
  {
    if away then LostInCarry(f, s) && num <= Mul(Largest(f), den)
    else Attained(f, num, den) && num < Mul(Largest(f), den)
  }

  predicate LostInCarry(f: Format, s: nat) { s % 8 == 1 && s / 8 + 1 == 2 * f.One() }

  /** The directed modes see of the rounding bits whether there are any. */
  predicate SameDirected(s: nat, t: nat) { s / 8 == t / 8 && (s % 8 == 0 <==> t % 8 == 0) }

  lemma {:induction false} AwayReports(f: Format, sign: bool, e: nat, s: nat, t: nat, m: nat, num: nat, den: nat,
                                       res: set<Flag>)
    requires f.Valid() && den > 0 && e >= 1 && s < 2 * Lead(f) && (e > 1 ==> s >= Lead(f)) && m <= 2 * f.One()
    requires Resembles(s, 8 * num, Mul(Pow2(e - 1), den)) && m == s / 8 + if s % 8 == 0 then 0 else 1
    requires SameDirected(s, t)
    requires var x := Pack(f, sign, m, e);
      Inexact in res <==> x.expo <= f.MaxExpo() && (if m < 2 * f.One() then t % 8 != 0 else t % 8 >= 2)
    ensures var x := Pack(f, sign, m, e);
      ReportsInexact(f, num, den, x, res) <==> !(LostInCarry(f, t) && x.expo <= f.MaxExpo())
  {
    var u := Mul(Pow2(e - 1), den);
    MulPositive(Pow2(e - 1), den);
    RoundZero(s, num, u);
    PackUnits(f, sign, m, e);
    MulAssoc(m, Pow2(e - 1), den);
  }

  lemma {:induction false} TowardsReports(f: Format, sign: bool, e: nat, s: nat, t: nat, m: nat, num: nat, den: nat,
                                          res: set<Flag>)
    requires f.Valid() && den > 0 && e >= 1 && s < 2 * Lead(f) && (e > 1 ==> s >= Lead(f)) && m <= 2 * f.One()
    requires Resembles(s, 8 * num, Mul(Pow2(e - 1), den)) && m == s / 8 + if s % 8 == 0 then 1 else 0
    requires SameDirected(s, t)
    requires var x := Pack(f, sign, m, e);
      Inexact in res <==> x.expo <= f.MaxExpo() && (if m < 2 * f.One() then t % 8 != 0 else t % 8 >= 2)
    ensures var x := Pack(f, sign, m, e);
      ReportsInexact(f, num, den, x, res) <==> !(s % 8 == 0 && x.expo <= f.MaxExpo())
  {
    var q, u := s / 8, Mul(Pow2(e - 1), den);
    MulPositive(Pow2(e - 1), den);
    RoundZero(s, num, u);
    NextMultiple(q, q + 1, u);
    PackUnits(f, sign, m, e);
    MulAssoc(m, Pow2(e - 1), den);
  }

  // ---- Two or more left shifts of a sticky bit ----

  lemma {:induction false} DirectedPacks(f: Format, mode: Mode, sign: bool, e: int, s: nat) returns (k: nat, m: nat)
    requires f.Valid() && !Settled(f, e, s) && IsDirected(mode)
    ensures 2 <= k == LeftShiftCount(f, e, s) < e && Mul(Filled(s), Pow2(k)) == 8 * m
    ensures 1 <= m <= 2 * f.One() && (e - k > 1 ==> m > f.One())
    ensures var (x, res) := Norm(f, mode, sign, e, s);
      && x == Pack(f, sign, if Away(mode, sign) then m else m - 1, e - k)
      && (Inexact in res <==> x.expo <= f.MaxExpo())
  {
    k := OddUpClosed(f, e, s);
    m := EighthOf(s, k);
    MulPositive(Filled(s), Pow2(k));
    FilledDirected(f, mode, sign, e, s, e - k, m);
  }

  lemma {:induction false} FilledDirected(f: Format, mode: Mode, sign: bool, e: int, s: nat, e': nat, m: nat)
    requires f.Valid() && s > 0 && e' >= 1 && m >= 1 && IsDirected(mode) && ShiftUp(f, e, s) == (e', 8 * m - 1)
    requires 8 * m - 1 < 2 * Lead(f) && (e' > 1 ==> 8 * m - 1 >= Lead(f))
    ensures var (x, res) := Norm(f, mode, sign, e, s);
      && x == Pack(f, sign, if Away(mode, sign) then m else m - 1, e')
      && (Inexact in res <==> x.expo <= f.MaxExpo())
  {
    var t, a := 8 * m - 1, Adjust(f, e', 8 * m - 1);
    DivMod8(t, m - 1, 7);
    FinishPacked(f, mode, sign, a, t, if Away(mode, sign) then m else m - 1);
    assert ShiftDown(f, a, t) == (a, t);
    assert Effective(a) == e';
  }

  /** Away from zero the filled register is right for the numbers less than a last place below
      it, towards zero for those and the number a last place below. */
  predicate NearDirected(away: bool, s: nat, k: nat, n: nat, d: nat) {
    var off := Mul(Off(s, n, d), Pow2(k));
    if away then off < 8 * d else off <= 8 * d
  }

  lemma {:induction false} UpExactly(f: Format, sign: bool, m: nat, e: nat, num: nat, den: nat)
    requires f.Valid() && e >= 1 && den > 0 && 1 <= m <= 2 * f.One() && (e > 1 ==> m > f.One())
    requires num < Mul(m, Mul(Pow2(e - 1), den)) && Pack(f, sign, m, e).expo <= f.MaxExpo()
    ensures RoundedUp(f, Pack(f, sign, m, e), num, den) <==> Mul(m - 1, Mul(Pow2(e - 1), den)) < num
  {
    var u, v, w := Mul(Pow2(e - 1), den), Pack(f, sign, m - 1, e), Pow2(e - 1);
    if Mul(m - 1, u) < num {
      if e > 1 { MulLe(f.One(), m - 1, u); }
      PackUp(f, sign, m, e, num, den);
    } else {
      PackUnits(f, sign, m, e);
      PackUnits(f, sign, m - 1, e);
      MulAssoc(m - 1, w, den);
      MulOrder(m - 1, m, w);
      assert Finite(f, v) && num <= Mul(Units(f, v), den) && Units(f, v) < Units(f, Pack(f, sign, m, e));
    }
  }

  lemma {:induction false} DownExactly(f: Format, sign: bool, m: nat, e: nat, num: nat, den: nat)
    requires f.Valid() && 1 <= e <= f.MaxExpo() && den > 0 && m < 2 * f.One() && (e > 1 ==> m >= f.One())
    requires num < Mul(m + 1, Mul(Pow2(e - 1), den))
    ensures RoundedDown(f, Pack(f, sign, m, e), num, den) <==> Mul(m, Mul(Pow2(e - 1), den)) <= num
  {
    var u := Mul(Pow2(e - 1), den);
    PackZeroExactly(f, sign, m, e, num, den);
    PackUnits(f, sign, m, e);
    MulAssoc(m, Pow2(e - 1), den);
    if Mul(m, u) <= num { TruncatedDown(f, Pack(f, sign, m, e), num, den); }
  }

  lemma {:induction false} AwayFilled(f: Format, sign: bool, s: nat, k: nat, e: nat, m: nat, num: nat, den: nat, x: Fp)
    requires f.Valid() && den > 0 && e >= 1 && s % 2 == 1 && x.expo <= f.MaxExpo()
    requires Mul(Filled(s), Pow2(k)) == 8 * m && 1 <= m <= 2 * f.One() && (e > 1 ==> m > f.One())
    requires x == Pack(f, sign, m, e) && 8 * num < Mul(Filled(s), Mul(Pow2(k), Mul(Pow2(e - 1), den)))
    ensures RoundedUp(f, x, num, den) <==> NearDirected(true, s, k, 8 * num, Mul(Pow2(k), Mul(Pow2(e - 1), den)))
    ensures Mul(Units(f, x), den) != num
  {
    var u := Mul(Pow2(e - 1), den);
    OffInPlaces(s, k, m, u, num);
    NextMultiple(m, m - 1, u);
    UpExactly(f, sign, m, e, num, den);
    PackUnits(f, sign, m, e);
    MulAssoc(m, Pow2(e - 1), den);
  }

  lemma {:induction false} TowardsFilled(f: Format, sign: bool, s: nat, k: nat, e: nat, m: nat, num: nat, den: nat,
        x: Fp)
    requires f.Valid() && den > 0 && e >= 1 && s % 2 == 1 && x.expo <= f.MaxExpo()
    requires Mul(Filled(s), Pow2(k)) == 8 * m && 1 <= m <= 2 * f.One() && (e > 1 ==> m > f.One())
    requires x == Pack(f, sign, m - 1, e) && 8 * num < Mul(Filled(s), Mul(Pow2(k), Mul(Pow2(e - 1), den)))
    ensures RoundedDown(f, x, num, den) <==> NearDirected(false, s, k, 8 * num, Mul(Pow2(k), Mul(Pow2(e - 1), den)))
    ensures var d := Mul(Pow2(k), Mul(Pow2(e - 1), den));
      Mul(Units(f, x), den) != num <==> Mul(Off(s, 8 * num, d), Pow2(k)) != 8 * d
  {
    hide Mul;
    var u := Mul(Pow2(e - 1), den);
    OffInPlaces(s, k, m, u, num);
    NextMultiple(m, m - 1, u);
    DownExactly(f, sign, m - 1, e, num, den);
    PackUnits(f, sign, m - 1, e);
    MulAssoc(m - 1, Pow2(e - 1), den);
  }

  lemma {:induction false} DirectedFilled(f: Format, mode: Mode, sign: bool, s: nat, k: nat, e: nat, m: nat, num: nat,
        den: nat, x: Fp, res: set<Flag>)
    requires f.Valid() && den > 0 && e >= 1 && s % 2 == 1 && IsDirected(mode) && x.expo <= f.MaxExpo()
    requires Mul(Filled(s), Pow2(k)) == 8 * m && 1 <= m <= 2 * f.One() && (e > 1 ==> m > f.One())
    requires x == Pack(f, sign, if Away(mode, sign) then m else m - 1, e) && Inexact in res
    requires 8 * num < Mul(Filled(s), Mul(Pow2(k), Mul(Pow2(e - 1), den)))
    ensures var d := Mul(Pow2(k), Mul(Pow2(e - 1), den));
      && (DirectedCorrect(f, mode, sign, x, num, den) <==> NearDirected(Away(mode, sign), s, k, 8 * num, d))
      && (ReportsInexact(f, num, den, x, res) <==> Away(mode, sign) || Mul(Off(s, 8 * num, d), Pow2(k)) != 8 * d)
  {
    hide RoundedUp, RoundedDown, NearDirected, Off;
    if Away(mode, sign) {
      AwayFilled(f, sign, s, k, e, m, num, den, x);
    } else {
      TowardsFilled(f, sign, s, k, e, m, num, den, x);
    }
  }

  /** A register that needs two or more left shifts of a sticky bit. */
  lemma {:induction false} UnsettledDirected(f: Format, mode: Mode, sign: bool, e: int, s: nat, num: nat, den: nat)
    requires f.Valid() && den > 0 && Encodes(e, s, num, den) && IsDirected(mode) && !Settled(f, e, s)
    ensures var (x, res) := Norm(f, mode, sign, e, s); var k, d := LeftShiftCount(f, e, s), Mul(Weight(e), den);
      var over := Overfull(f, e, s, Away(mode, sign));
      && (DirectedCorrect(f, mode, sign, x, num, den)
          <==> if over then Away(mode, sign) && num > Mul(Largest(f), den)
               else NearDirected(Away(mode, sign), s, k, 8 * num, d))
      && (ReportsInexact(f, num, den, x, res)
          <==> over || Away(mode, sign) || Mul(Off(s, 8 * num, d), Pow2(k)) != 8 * d)
      && (x.expo > f.MaxExpo() <==> over)
  {
    hide Mul, Norm, RoundedUp, RoundedDown, NearDirected;
    var k, m := DirectedPacks(f, mode, sign, e, s);
    var (x, res) := Norm(f, mode, sign, e, s);
    MulOne(num);
    WeightAfter(e, k, den);
    PackOverfull(f, sign, m, e - k, Away(mode, sign));
    FilledWeight(e, s, k, m);
    if x.expo > f.MaxExpo() {
      InfiniteDirected(f, x, num, den);
    } else {
      DirectedFilled(f, mode, sign, s, k, e - k, m, num, den, x, res);
    }
  }

  lemma {:induction false} InfiniteDirected(f: Format, x: Fp, num: nat, den: nat)
    requires f.Valid() && den > 0 && IsInf(f, x)
    ensures RoundedUp(f, x, num, den) <==> num > Mul(Largest(f), den)
    ensures !RoundedDown(f, x, num, den)
  {
    forall v | Finite(f, v)
      ensures Mul(Units(f, v), den) <= Mul(Largest(f), den)
    {
      LargestIs(f, v);
      MulLe(Units(f, v), Largest(f), den);
    }
    LargestIs(f, Fp(false, 0, 0));
  }

  // ---- Settled registers ----

  /**
   * ar_i64norm in the directed modes, at most one left shift being made of a sticky bit: right
   * exactly if the direction points away from zero, or if the exact value is neither a number
   * of the format nor beyond all of them; INEXACT is right exactly if it is not lost.
   */
  lemma {:induction false} DirectedExactly(f: Format, mode: Mode, sign: bool, e: int, s: nat, num: nat, den: nat)
    requires f.Valid() && den > 0 && s > 0 && Encodes(e, s, num, den) && IsDirected(mode)
    requires Settled(f, e, s) && RoomToBump(f, e, s)
    ensures var (x, res) := Norm(f, mode, sign, e, s);
      && (DirectedCorrect(f, mode, sign, x, num, den)
          <==> Away(mode, sign) || (!Attained(f, num, den) && !BeyondFormat(f, num, den)))
      && (ReportsInexact(f, num, den, x, res)
          <==> !FlagLost(f, Away(mode, sign), Reached(f, e, s).1, num, den))
  {
    var (e', s') := Reached(f, e, s);
    var (x, res) := Norm(f, mode, sign, e, s);
    var m := Rounded(mode, sign, s');
    NormReaches(f, e, s, num, den);
    assert Weight(e') == Pow2(Effective(e') - 1);
    assert (x, res) == Finish(f, mode, sign, e', s');
    FinishPacked(f, mode, sign, e', s', m);
    ReachedExactly(f, mode, sign, Effective(e'), s', s', m, num, den, x, res);
  }

  /** A register t that is rounded for num/den, which the register s resembles: they may differ
      in their rounding bits, but not in having any. */
  lemma {:induction false} ReachedExactly(f: Format, mode: Mode, sign: bool, e: nat, s: nat, t: nat, m: nat,
                                          num: nat, den: nat, x: Fp, res: set<Flag>)
    requires f.Valid() && den > 0 && e >= 1 && s < 2 * Lead(f) && (e > 1 ==> s >= Lead(f)) && m <= 2 * f.One()
    requires IsDirected(mode) && m == Rounded(mode, sign, t) && Resembles(s, 8 * num, Mul(Pow2(e - 1), den))
    requires x == Pack(f, sign, m, e) && SameDirected(s, t)
    requires Inexact in res <==> x.expo <= f.MaxExpo() && (if m < 2 * f.One() then t % 8 != 0 else t % 8 >= 2)
    ensures DirectedCorrect(f, mode, sign, x, num, den)
      <==> Away(mode, sign) || (!Attained(f, num, den) && !BeyondFormat(f, num, den))
    ensures ReportsInexact(f, num, den, x, res) <==> !FlagLost(f, Away(mode, sign), t, num, den)
    ensures Away(mode, sign) ==> (num <= Mul(Largest(f), den) <==> x.expo <= f.MaxExpo())
  {
    hide Mul, RoundedUp, RoundedDown, Resembles, ReportsInexact, Attained, LostInCarry;
    if Away(mode, sign) {
      AwayRight(f, sign, e, s, m, num, den);
      AwayReports(f, sign, e, s, t, m, num, den, res);
      AwayFinite(f, x, num, den);
    } else {
      TowardsExactly(f, sign, e, s, m, num, den);
      TowardsReports(f, sign, e, s, t, m, num, den, res);
      TowardsAttained(f, sign, e, s, num, den);
      if s % 8 == 0 { BumpFinite(f, sign, e, s, num, den); }
    }
  }

  lemma {:induction false} AwayFinite(f: Format, x: Fp, num: nat, den: nat)
    requires f.Valid() && den > 0 && RoundedUp(f, x, num, den)
    ensures x.expo <= f.MaxExpo() <==> num <= Mul(Largest(f), den)
  {
    LargestIs(f, if x.expo <= f.MaxExpo() then x else Fp(false, 0, 0));
    if x.expo <= f.MaxExpo() { MulLe(Units(f, x), Largest(f), den); }
  }

  /** The exact registers are those of the numbers of the format. */
  lemma {:induction false} TowardsAttained(f: Format, sign: bool, e: nat, s: nat, num: nat, den: nat)
    requires f.Valid() && den > 0 && e >= 1 && s < 2 * Lead(f) && (e > 1 ==> s >= Lead(f))
    requires Resembles(s, 8 * num, Mul(Pow2(e - 1), den))
    ensures num < Mul(Largest(f), den) ==> (s % 8 == 0 <==> Attained(f, num, den))
  {
    hide Mul, Resembles, Attained;
    var q, u := s / 8, Mul(Pow2(e - 1), den);
    var x := Pack(f, sign, q, e);
    MulPositive(Pow2(e - 1), den);
    RoundZero(s, num, u);
    PackTruncated(f, sign, q, e, num, den);
    PackUnits(f, sign, q, e);
    MulAssoc(q, Pow2(e - 1), den);
    LargestBelow(f, num, den);
    if s % 8 == 0 { Bumped(f, sign, e, q, num, den); } else { InexactTruncated(f, x, num, den); }
  }

  lemma {:induction false} LargestBelow(f: Format, num: nat, den: nat)
    requires f.Valid() && den > 0
    ensures num <= Mul(Largest(f), den) ==> !BeyondFormat(f, num, den)
  {
    MulAssoc(2 * f.One() - 1, TopPlace(f), den);
    MulPositive(TopPlace(f), den);
    MulLt(2 * f.One() - 1, 2 * f.One(), Mul(TopPlace(f), den));
  }

  /** The number after an exact one is finite below the largest number. */
  lemma {:induction false} BumpFinite(f: Format, sign: bool, e: nat, s: nat, num: nat, den: nat)
    requires f.Valid() && den > 0 && e >= 1 && s < 2 * Lead(f) && (e > 1 ==> s >= Lead(f)) && s % 8 == 0
    requires Resembles(s, 8 * num, Mul(Pow2(e - 1), den))
    ensures Pack(f, sign, s / 8 + 1, e).expo <= f.MaxExpo() <==> num < Mul(Largest(f), den)
  {
    hide Mul, Resembles;
    var q, w, u := s / 8, Pow2(e - 1), TopPlace(f);
    MulPositive(w, den);
    RoundZero(s, num, Mul(w, den));
    MulAssoc(q, w, den);
    MulOrder(Mul(q, w), Largest(f), den);
    if e > f.MaxExpo() {
      Pow2Mono(f.MaxExpo(), e - 1);
      MulLe(f.One(), q, w);
      MulLeRight(f.One(), 2 * u, w);
      MulTwo(f.One(), u);
      MulLe(2 * f.One() - 1, 2 * f.One(), u);
    } else if e == f.MaxExpo() {
      MulOrder(q, 2 * f.One() - 1, w);
    } else {
      Pow2Mono(e, f.MaxExpo() - 1);
      MulLe(q, 2 * f.One() - 1, w);
      MulLt(2 * f.One() - 1, 2 * (2 * f.One() - 1), w);
      MulTwo(2 * f.One() - 1, w);
      MulLeRight(2 * f.One() - 1, 2 * w, u);
    }
  }

  /** x is the number after num/den units: the least finite one above, or infinity if there is none. */
  ghost predicate NumberAfter(f: Format, x: Fp, num: nat, den: nat) {
    if x.expo > f.MaxExpo() then
      IsInf(f, x) && forall v :: Finite(f, v) ==> Mul(Units(f, v), den) <= num
    else
      && x.coeff < f.One() && num < Mul(Units(f, x), den)
      && forall v :: Finite(f, v) && num < Mul(Units(f, v), den) ==> Units(f, x) <= Units(f, v)
  }

  /** What the directed modes deliver where they fail: towards zero the number after one of the format,
      and infinity beyond the format. */
  lemma {:induction false} DirectedFailures(f: Format, mode: Mode, sign: bool, e: int, s: nat, num: nat, den: nat)
    requires f.Valid() && den > 0 && s > 0 && Encodes(e, s, num, den) && IsDirected(mode) && !Away(mode, sign)
    requires Settled(f, e, s) && RoomToBump(f, e, s)
    ensures var x := Norm(f, mode, sign, e, s).0;
      && (Attained(f, num, den) ==> NumberAfter(f, x, num, den))
      && (BeyondFormat(f, num, den) ==> IsInf(f, x))
  {
    hide Mul, Encodes, Resembles, Attained, NumberAfter, ShiftUp, ShiftDown;
    var (e', s') := Reached(f, e, s);
    var m := Rounded(mode, sign, s');
    NormReaches(f, e, s, num, den);
    assert Weight(e') == Pow2(Effective(e') - 1);
    FinishPacked(f, mode, sign, e', s', m);
    BeyondBumped(f, sign, Effective(e'), s', m, num, den);
    if Attained(f, num, den) { AttainedBumped(f, sign, Effective(e'), s', num, den); }
  }

  lemma {:induction false} BeyondBumped(f: Format, sign: bool, e: nat, s: nat, m: nat, num: nat, den: nat)
    requires f.Valid() && den > 0 && e >= 1 && s < 2 * Lead(f) && (e > 1 ==> s >= Lead(f)) && m <= 2 * f.One()
    requires Resembles(s, 8 * num, Mul(Pow2(e - 1), den)) && s / 8 <= m
    ensures BeyondFormat(f, num, den) ==> IsInf(f, Pack(f, sign, m, e))
  {
    hide Mul, Resembles;
    var q := s / 8;
    MulPositive(Pow2(e - 1), den);
    RoundZero(s, num, Mul(Pow2(e - 1), den));
    PackTruncated(f, sign, q, e, num, den);
    PackUnits(f, sign, q, e);
    PackUnits(f, sign, m, e);
  }

  lemma {:induction false} AttainedBumped(f: Format, sign: bool, e: nat, s: nat, num: nat, den: nat)
    requires f.Valid() && den > 0 && e >= 1 && s < 2 * Lead(f) && (e > 1 ==> s >= Lead(f)) && Attained(f, num, den)
    requires Resembles(s, 8 * num, Mul(Pow2(e - 1), den))
    ensures s % 8 == 0 && NumberAfter(f, Pack(f, sign, s / 8 + 1, e), num, den)
  {
    hide Mul, Resembles;
    var q, w := s / 8, Pow2(e - 1);
    MulPositive(w, den);
    RoundZero(s, num, Mul(w, den));
    PackTruncated(f, sign, q, e, num, den);
    PackUnits(f, sign, q, e);
    PackUnits(f, sign, q + 1, e);
    MulAssoc(q, w, den);
    MulAssoc(q + 1, w, den);
    MulLt(q, q + 1, Mul(w, den));
    var a :| Finite(f, a) && Mul(Units(f, a), den) == num;
    LargestIs(f, a);
    MulLe(Units(f, a), Largest(f), den);
    LargestBelow(f, num, den);
    if s % 8 != 0 { InexactTruncated(f, Pack(f, sign, q, e), num, den); }
    BumpFinite(f, sign, e, s, num, den);
    forall v | Finite(f, v)
      ensures Mul(Units(f, v), den) <= Mul(Largest(f), den)
      ensures num < Mul(Units(f, v), den) ==> Mul(q + 1, w) <= Units(f, v)
    {
      LargestIs(f, v);
      MulLe(Units(f, v), Largest(f), den);
      if num < Mul(Units(f, v), den) { NextOnGrid(f, v, q, e, den); }
    }
  }

  lemma {:induction false} NextOnGrid(f: Format, v: Fp, q: nat, e: nat, den: nat)
    requires f.Valid() && den > 0 && Finite(f, v) && e >= 1 && (e > 1 ==> q >= f.One())
    requires Mul(Mul(q, Pow2(e - 1)), den) < Mul(Units(f, v), den)
    ensures Mul(q + 1, Pow2(e - 1)) <= Units(f, v)
  {
    var w := Pow2(e - 1);
    MulOrder(Mul(q, w), Units(f, v), den);
    if e > 1 { MulLe(f.One(), q, w); }
    var k := OnGrid(f, v, e);
    MulOrder(q, k, w);
    MulLe(q + 1, k, w);
  }

  // ---- Sums and products ----

  /** ar_ifadd64 on finite operands near enough to be aligned, with a sum other than zero. */
  lemma {:induction false} AddDirected(f: Format, mode: Mode, x: Fp, y: Fp)
    requires f.Valid() && Finite(f, x) && Finite(f, y) && x.expo >= y.expo && !Addition.Far(f, x, y)
    requires IsDirected(mode) && Addition.Sum(f, x, y) != 0
    ensures var exact := Addition.Sum(f, x, y); var n := Abs(exact);
      var (r, res) := Addition.SumFinite(f, mode, x, y); var (e, s) := SumRegister(f, x, y, x.sign == y.sign);
      && (DirectedCorrect(f, mode, exact < 0, r, n, 1)
          <==> Away(mode, exact < 0) || (!Attained(f, n, 1) && !BeyondFormat(f, n, 1)))
      && (ReportsInexact(f, n, 1, r, res)
          <==> !FlagLost(f, Away(mode, exact < 0), Reached(f, e, s).1, n, 1))
  {
    hide Mul, Pow2, Norm, Encodes, DirectedCorrect, ReportsInexact, Attained, FlagLost, Reached, BeyondFormat;
    hide Addition.Aligned, Addition.ShiftCarry;
    var n := Abs(Addition.Sum(f, x, y));
    var (sign, s) := Addition.SignedSum(x.sign, 8 * Sig(f, x), y.sign, Addition.Aligned(f, x, y));
    var (e, s') := SumRegister(f, x, y, x.sign == y.sign);
    Addition.SumStands(f, x, y);
    Addition.StandsEncodes(x.expo, s, n);
    Addition.CarryEncodes(f, x.expo, s, n);
    Addition.SumSettled(f, x, y, s);
    Addition.CarrySettled(f, x.expo, s);
    DirectedExactly(f, mode, sign, e, s', n, 1);
  }

  /** Exponent and register that the normalizer is given for the sum of the magnitudes of x and y, or for
      their difference. */
  function SumRegister(f: Format, x: Fp, y: Fp, same: bool): (nat, nat)
    requires x.expo >= y.expo
  {
    var X, B := 8 * Sig(f, x), Addition.Aligned(f, x, y);
    Addition.ShiftCarry(f, x.expo, if same then X + B else Abs(X - B))
  }

  /** The sign of a zero sum (section 6.3): minus in MINUS_INFINITY unless both operands have plus. */
  function ZeroSumSign(mode: Mode, x: Fp, y: Fp): bool { if x.sign == y.sign then x.sign else mode == MinusInfinity }

  /** A zero sum has the sign that is asked for unless MINUS_INFINITY asks for minus. */
  lemma {:induction false} AddDirectedZero(f: Format, mode: Mode, x: Fp, y: Fp)
    requires f.Valid() && Finite(f, x) && Finite(f, y) && x.expo >= y.expo && !Addition.Far(f, x, y)
    requires IsDirected(mode) && Addition.Sum(f, x, y) == 0
    ensures var (r, res) := Addition.SumFinite(f, mode, x, y);
      && Ieee754.IsZero(r) && ZeroResult in res && Inexact !in res
      && (r.sign == ZeroSumSign(mode, x, y) <==> x.sign == y.sign || mode == PlusInfinity)
  {
    Addition.SumStands(f, x, y);
  }

  // ---- Sums of operands too far apart to be aligned ----

  /** Registers within an eighth of a normal significand. */
  lemma {:induction false} BesideDirected(f: Format, mode: Mode, x: Fp, s: nat)
    requires f.Valid() && Finite(f, x) && x.expo >= 2 && IsDirected(mode) && 8 * Sig(f, x) - 1 <= s <= 8 * Sig(f, x) + 1
    ensures var r := Norm(f, mode, x.sign, x.expo, s).0; var X := 8 * Sig(f, x);
      && (if Away(mode, x.sign) == (s > X) && s >= X then r == Pack(f, x.sign, Sig(f, x) + 1, x.expo)
          else if Away(mode, x.sign) || s > X then r == x
          else Units(f, r) < Units(f, x) && r.coeff < f.One())
  {
    hide Mul, Norm, Finish;
    var m, p := Sig(f, x), f.One();
    if s == 8 * p - 1 {
      BelowBinade(f, mode, x);
    } else {
      NormDirect(f, mode, x.sign, x.expo, s);
      if s >= 8 * m { DivMod8(s, m, s - 8 * m); } else { DivMod8(s, m - 1, 7); }
      FinishPacked(f, mode, x.sign, x.expo, s, Rounded(mode, x.sign, s));
      if s < 8 * m { MagnitudeOrder(f, Pack(f, x.sign, m - 1, x.expo), x); }
    }
  }

  lemma {:induction false} BelowBinade(f: Format, mode: Mode, x: Fp)
    requires f.Valid() && Finite(f, x) && x.expo >= 2 && x.coeff == 0 && IsDirected(mode)
    ensures var r := Norm(f, mode, x.sign, x.expo, Lead(f) - 1).0;
      if Away(mode, x.sign) then r == x else Units(f, r) < Units(f, x) && r.coeff < f.One()
  {
    var p, t := f.One(), 2 * Lead(f) - 1;
    Addition.NormOneUp(f, mode, x.sign, x.expo);
    DivMod8(t, 2 * p - 1, 7);
    FinishPacked(f, mode, x.sign, x.expo - 1, t, if Away(mode, x.sign) then 2 * p else 2 * p - 1);
    MulTwo(p, Pow2(x.expo - 2));
    MulLt(2 * p - 1, 2 * p, Pow2(x.expo - 2));
  }

  /** The exact sum of such operands is no number of the format. */
  lemma {:induction false} FarNotAttained(f: Format, x: Fp, y: Fp)
    requires f.Valid() && Finite(f, x) && Finite(f, y) && x.expo >= y.expo && Addition.Far(f, x, y)
             && !Ieee754.IsZero(y)
    ensures var n := Abs(Addition.Sum(f, x, y)); !Attained(f, n, 1) && !BeyondFormat(f, n, 1)
  {
    var n := Abs(Addition.Sum(f, x, y));
    Addition.FarNearest(f, x, y);
    MulOne(Units(f, x));
    forall v | Finite(f, v)
      ensures Mul(Units(f, v), 1) != n
    {
      MulOne(Units(f, v));
      Addition.FarMissed(f, x, y, v);
    }
    FourLessOne(f.One(), Mul(TopPlace(f), 1));
  }

  lemma {:induction false} DirectedUnique(f: Format, mode: Mode, sign: bool, x: Fp, y: Fp, num: nat, den: nat)
    requires DirectedCorrect(f, mode, sign, x, num, den) && DirectedCorrect(f, mode, sign, y, num, den)
    ensures x == y
  {
    if x.expo <= f.MaxExpo() { MagnitudeOrder(f, x, y); }
  }

  /** The register that the code rounds for such operands: y has lost its sign, and its implicit bit. */
  function FarDelivered(f: Format, x: Fp, y: Fp): nat
    requires Sig(f, x) > 0
  {
    if y.coeff == 0 then 8 * Sig(f, x) else if x.sign then 8 * Sig(f, x) - 1 else 8 * Sig(f, x) + 1
  }

  lemma {:induction false} FarSum(f: Format, mode: Mode, x: Fp, y: Fp)
    requires f.Valid() && Finite(f, x) && Finite(f, y) && x.expo >= y.expo && Addition.Far(f, x, y)
    ensures Addition.SumFinite(f, mode, x, y) == Norm(f, mode, x.sign, x.expo, FarDelivered(f, x, y))
  {
    OneIsEven(f);
    var (sign, t) := Addition.SignedSum(x.sign, 8 * Sig(f, x), false, Addition.Aligned(f, x, y));
    assert Addition.ShiftCarry(f, x.expo, t) == (x.expo, t);
  }

  /** ar_ifadd64 on finite operands more than P + 3 places apart: right exactly if a coefficient
      that is not zero has a sign that is not lost, or else if the direction points away from
      zero and an implicit bit is not missed. */
  lemma {:induction false} AddDirectedFar(f: Format, mode: Mode, x: Fp, y: Fp)
    requires f.Valid() && Finite(f, x) && Finite(f, y) && x.expo >= y.expo && Addition.Far(f, x, y) && IsDirected(mode)
    ensures var exact := Addition.Sum(f, x, y);
      DirectedCorrect(f, mode, exact < 0, Addition.SumFinite(f, mode, x, y).0, Abs(exact), 1)
      <==> if y.coeff != 0 then !y.sign else Away(mode, x.sign) && (y.expo == 0 || x.sign != y.sign)
  {
    var s, t, n := Addition.FarRegister(f, x, y), FarDelivered(f, x, y), Abs(Addition.Sum(f, x, y));
    FarSum(f, mode, x, y);
    Addition.FarEncodes(f, x, y);
    FarSettled(f, x, s);
    DirectedExactly(f, mode, x.sign, x.expo, s, n, 1);
    if Ieee754.IsZero(y) {
      FarExact(f, x, y);
    } else {
      FarNotAttained(f, x, y);
      FarDecides(f, mode, x, s, t, n);
    }
  }

  /** The flag for such operands: right for a coefficient that is not zero unless a carry away from zero
      loses it, and for a zero coefficient only if x is the sum and not bumped, or bumped to infinity. */
  lemma {:induction false} AddDirectedFarInexact(f: Format, mode: Mode, x: Fp, y: Fp)
    requires f.Valid() && Finite(f, x) && Finite(f, y) && x.expo >= y.expo && Addition.Far(f, x, y) && IsDirected(mode)
    ensures var (r, res) := Addition.SumFinite(f, mode, x, y); var full := x.coeff == f.One() - 1;
      ReportsInexact(f, Abs(Addition.Sum(f, x, y)), 1, r, res)
      <==> if y.coeff != 0 then !(mode == PlusInfinity && !x.sign && full && x.expo < f.MaxExpo())
           else if Away(mode, x.sign) then y.expo == 0
           else full && x.expo == f.MaxExpo()
  {
    hide Mul, Norm, Pow2;
    var (r, res) := Addition.SumFinite(f, mode, x, y);
    FarSum(f, mode, x, y);
    FarFlag(f, mode, x, FarDelivered(f, x, y));
    MulOne(Units(f, r));
    if Ieee754.IsZero(y) {
      Addition.ZeroUnits(f, y);
      NextDiffers(f, x);
    } else if r.expo <= f.MaxExpo() {
      Addition.FarMissed(f, x, y, r);
    }
  }

  /** INEXACT and infinity of a register within an eighth of a significand, and the value of the
      significand itself. */
  lemma {:induction false} FarFlag(f: Format, mode: Mode, x: Fp, s: nat)
    requires f.Valid() && Finite(f, x) && x.expo >= 2 && IsDirected(mode) && 8 * Sig(f, x) - 1 <= s <= 8 * Sig(f, x) + 1
    ensures var (r, res) := Norm(f, mode, x.sign, x.expo, s); var full := x.coeff == f.One() - 1;
      && (r.expo <= f.MaxExpo() ==> Finite(f, r))
      && (r.expo > f.MaxExpo() <==>
            full && x.expo == f.MaxExpo() && s >= 8 * Sig(f, x) && Away(mode, x.sign) == (s > 8 * Sig(f, x)))
      && (Inexact in res <==>
            && r.expo <= f.MaxExpo() && s != 8 * Sig(f, x)
            && !(Away(mode, x.sign) && s > 8 * Sig(f, x) && full))
      && (s == 8 * Sig(f, x) ==> r == if Away(mode, x.sign) then x else Pack(f, x.sign, Sig(f, x) + 1, x.expo))
  {
    hide Mul, Norm, Finish;
    var m, p := Sig(f, x), f.One();
    if s == 8 * p - 1 {
      var t := 2 * Lead(f) - 1;
      Addition.NormOneUp(f, mode, x.sign, x.expo);
      DivMod8(t, 2 * p - 1, 7);
      FinishPacked(f, mode, x.sign, x.expo - 1, t, if Away(mode, x.sign) then 2 * p else 2 * p - 1);
    } else {
      NormDirect(f, mode, x.sign, x.expo, s);
      if s >= 8 * m { DivMod8(s, m, s - 8 * m); } else { DivMod8(s, m - 1, 7); }
      FinishPacked(f, mode, x.sign, x.expo, s, Rounded(mode, x.sign, s));
    }
  }

  lemma {:induction false} FarSettled(f: Format, x: Fp, s: nat)
    requires f.Valid() && x.expo >= 2 && 8 * Sig(f, x) - 1 <= s
    ensures s > 0 && Settled(f, x.expo, s) && RoomToBump(f, x.expo, s)
  {
    OneIsEven(f);
  }

  lemma {:induction false} FarExact(f: Format, x: Fp, y: Fp)
    requires f.Valid() && Finite(f, x) && Ieee754.IsZero(y)
    ensures Attained(f, Abs(Addition.Sum(f, x, y)), 1)
  {
    Addition.ZeroUnits(f, y);
    MulOne(Units(f, x));
    assert Finite(f, x) && Mul(Units(f, x), 1) == Abs(Addition.Sum(f, x, y));
  }

  /** The delivered register leads to the right result if it is the right one, or if x alone is
      rounded away from zero for a sum just below. */
  lemma {:induction false} FarDecides(f: Format, mode: Mode, x: Fp, s: nat, t: nat, n: nat)
    requires f.Valid() && Finite(f, x) && x.expo >= 2 && IsDirected(mode)
    requires s == 8 * Sig(f, x) - 1 || s == 8 * Sig(f, x) + 1
    requires 8 * Sig(f, x) - 1 <= t <= 8 * Sig(f, x) + 1
    requires DirectedCorrect(f, mode, x.sign, Norm(f, mode, x.sign, x.expo, s).0, n, 1)
    ensures DirectedCorrect(f, mode, x.sign, Norm(f, mode, x.sign, x.expo, t).0, n, 1)
      <==> s == t || (Away(mode, x.sign) && s < t == 8 * Sig(f, x))
  {
    var r, r' := Norm(f, mode, x.sign, x.expo, t).0, Norm(f, mode, x.sign, x.expo, s).0;
    BesideDirected(f, mode, x, s);
    BesideDirected(f, mode, x, t);
    NextDiffers(f, x);
    if DirectedCorrect(f, mode, x.sign, r, n, 1) { DirectedUnique(f, mode, x.sign, r, r', n, 1); }
  }

  lemma {:induction false} NextDiffers(f: Format, x: Fp)
    requires f.Valid() && Finite(f, x) && x.expo >= 2
    ensures Units(f, Pack(f, x.sign, Sig(f, x) + 1, x.expo)) > Units(f, x)
  {
    var r := Pack(f, x.sign, Sig(f, x) + 1, x.expo);
    OneIsEven(f);
    MagnitudeOrder(f, x, r);
  }

  lemma {:induction false} ProductBump(f: Format, a: Fp, b: Fp)
    requires f.Valid() && Finite(f, a) && Finite(f, b)
    ensures RoomToBump(f, Multiply.MulExpo(f, a, b), Multiply.MulRegister(f, a, b))
  {
    var e, s, k := Multiply.MulExpo(f, a, b), Multiply.MulRegister(f, a, b), f.P() - 3;
    if e < 0 {
      OneIsEven(f);
      JamNStands(Mul(Sig(f, a), Sig(f, b)), k);
      Multiply.ProductBound(Sig(f, a), Sig(f, b), f.One());
      Multiply.RegisterBound(s, Mul(Sig(f, a), Sig(f, b)), Pow2(k));
      MulLeRight(2 * Lead(f) - 8, 2, Pow2(-e)) by { Pow2Mono(1, -e); assert Pow2(1) == 2; }
      MulComm(2 * Lead(f) - 8, 2);
      SmallMultiples(2 * Lead(f) - 8);
    }
  }

  /** ar_ifmul64 on finite operands whose product settles, as all products of normal operands do. */
  lemma {:induction false} MulDirected(f: Format, mode: Mode, a: Fp, b: Fp)
    requires f.Valid() && Finite(f, a) && Finite(f, b) && IsDirected(mode) && Multiply.MulRegister(f, a, b) > 0
    requires Settled(f, Multiply.MulExpo(f, a, b), Multiply.MulRegister(f, a, b))
    ensures var n, d, sign := Mul(Units(f, a), Units(f, b)), f.UnitsPerOne(), a.sign != b.sign;
      var (x, res) := Multiply.MulSpec(f, mode, a, b);
      var s := Reached(f, Multiply.MulExpo(f, a, b), Multiply.MulRegister(f, a, b)).1;
      && (DirectedCorrect(f, mode, sign, x, n, d)
          <==> Away(mode, sign) || (!Attained(f, n, d) && !BeyondFormat(f, n, d)))
      && (ReportsInexact(f, n, d, x, res) <==> !FlagLost(f, Away(mode, sign), s, n, d))
  {
    Multiply.ProductEncoded(f, a, b);
    ProductBump(f, a, b);
    DirectedExactly(f, mode, a.sign != b.sign, Multiply.MulExpo(f, a, b), Multiply.MulRegister(f, a, b),
                    Mul(Units(f, a), Units(f, b)), f.UnitsPerOne());
  }

  /** All other products, of which one operand is denormalized. */
  lemma {:induction false} MulDirectedUnsettled(f: Format, mode: Mode, a: Fp, b: Fp)
    requires f.Valid() && Finite(f, a) && Finite(f, b) && IsDirected(mode)
    requires !Settled(f, Multiply.MulExpo(f, a, b), Multiply.MulRegister(f, a, b))
    ensures var n, d, sign := Mul(Units(f, a), Units(f, b)), f.UnitsPerOne(), a.sign != b.sign;
      var (x, res) := Multiply.MulSpec(f, mode, a, b); var s := Multiply.MulRegister(f, a, b);
      var k := LeftShiftCount(f, Multiply.MulExpo(f, a, b), s);
      var prod, w := Mul(Sig(f, a), Sig(f, b)), Pow2(f.P() - 3);
      && (DirectedCorrect(f, mode, sign, x, n, d) <==> NearDirected(Away(mode, sign), s, k, prod, w))
      && (ReportsInexact(f, n, d, x, res) <==> Away(mode, sign) || Mul(Off(s, prod, w), Pow2(k)) != 8 * w)
  {
    var e, s := Multiply.MulExpo(f, a, b), Multiply.MulRegister(f, a, b);
    var prod, w := Mul(Sig(f, a), Sig(f, b)), Pow2(f.P() - 3);
    var c := Pow2(Effective(a.expo) + Effective(b.expo) + 1);
    Multiply.ProductEncoded(f, a, b);
    Multiply.ProductScales(f, a, b);
    DirectedFinite(f, mode, a, b);
    UnsettledDirected(f, mode, a.sign != b.sign, e, s, Mul(Units(f, a), Units(f, b)), f.UnitsPerOne());
    DirectedScale(Away(mode, a.sign != b.sign), s, LeftShiftCount(f, e, s), prod, w, c);
  }

  lemma {:induction false} DirectedFinite(f: Format, mode: Mode, a: Fp, b: Fp)
    requires f.Valid() && Finite(f, a) && Finite(f, b) && IsDirected(mode)
    requires !Settled(f, Multiply.MulExpo(f, a, b), Multiply.MulRegister(f, a, b))
    ensures Multiply.MulSpec(f, mode, a, b).0.expo <= f.MaxExpo()
  {
    if a.expo > 0 && b.expo > 0 { Multiply.NormalsSettled(f, a, b); }
    var k, m := DirectedPacks(f, mode, a.sign != b.sign, Multiply.MulExpo(f, a, b), Multiply.MulRegister(f, a, b));
  }

  lemma {:induction false} DirectedScale(away: bool, s: nat, k: nat, n: nat, d: nat, c: nat)
    requires c > 0
    ensures NearDirected(away, s, k, Mul(n, c), Mul(d, c)) <==> NearDirected(away, s, k, n, d)
    ensures Mul(Off(s, Mul(n, c), Mul(d, c)), Pow2(k)) == 8 * Mul(d, c) <==> Mul(Off(s, n, d), Pow2(k)) == 8 * d
  {
    var off := Off(s, n, d);
    OffScale(s, n, d, c);
    SwapFactors(off, c, Pow2(k));
    TimesKnown(d, c);
    MulOrder(Mul(off, Pow2(k)), 8 * d, c);
    MulOrder(8 * d, Mul(off, Pow2(k)), c);
  }
}
