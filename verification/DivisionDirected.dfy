/**
 * ar_ifdiv32 and ar_ifdiv64 in the directed modes: for which quotients the delivered value and
 * INEXACT are right.
 */
module DivisionDirected {
  import opened Powers
  import opened Ieee754
  import opened Normalizer
  import opened Exactness
  import opened Directed
  import opened Division
  import opened DivisionExactly

  // ---- The conditions ----

  /** One left shift of a quotient just below the middle, where half of an odd divisor was rounded
      down to the remainder: the loop takes it for the middle itself. */
  predicate TakenForMiddle(f: Format, e: int, q: nat, r: nat, d: nat) {
    e > 1 && q < f.One() && d % 2 == 1 && r == d / 2
  }

  /** The quotient q with remainder r at exponent e, which is num/den units, is delivered wrong: away
      from zero only after many left shifts; towards zero if it is exact, beyond the format or
      taken for the middle. */
  ghost predicate FailingDirected(f: Format, away: bool, e: int, q: nat, r: nat, d: nat, num: nat, den: nat)
    requires f.bias >= 1
  {
    if q == 0 && r == 0 then false
    else if FewShifts(f, e, q) then
      !away && (Attained(f, num, den) || BeyondFormat(f, num, den) || TakenForMiddle(f, e, q, r, d))
    else FailingFilled(f, away, e, 8 * q + TailBits(r, d), 8 * (Mul(q, d) + r), d)
  }

  /** After two or more left shifts the number must be near to the filled register, and towards zero the
      register must have a sticky bit, or it is bumped. */
  predicate FailingFilled(f: Format, away: bool, e: int, s: nat, n: nat, d: nat) {
    !NearDirected(away, s, LeftShiftCount(f, e, s), n, d) || (!away && s % 2 == 0)
  }

  /** INEXACT is wrong: for the middle that is none; away from zero for a carry with a remainder below a
      truncated quarter; towards zero for numbers of the format, which are bumped. */
  ghost predicate MisreportedDirected(f: Format, away: bool, e: int, q: nat, r: nat, d: nat, num: nat, den: nat)
    requires f.bias >= 1
  {
    if q == 0 && r == 0 then false
    else if FewShifts(f, e, q) then
      if TakenForMiddle(f, e, q, r, d) then e <= f.MaxExpo() || (e == f.MaxExpo() + 1 && (away || q + 1 < f.One()))
      else if away then 1 <= e < f.MaxExpo() && q + 1 == 2 * f.One() && 0 < r < d / 4
      else Attained(f, num, den) && num < Mul(Largest(f), den)
    else MisreportedFilled(f, away, e, 8 * q + TailBits(r, d), 8 * (Mul(q, d) + r), d)
  }

  /** After two or more left shifts: a register with a sticky bit that delivers the quotient, or one
      without that does not. */
  predicate MisreportedFilled(f: Format, away: bool, e: int, s: nat, n: nat, d: nat) {
    var off := Mul(Off(s, n, d), Pow2(LeftShiftCount(f, e, s)));
    if s % 2 == 1 then !away && off == 8 * d else !away || off != 0
  }

  // ---- The normalizer at one register ----

  /** A register that is neither shifted left nor right. */
  lemma {:induction false} DirectedAt(f: Format, mode: Mode, sign: bool, e: nat, s: nat, m: nat)
    requires f.Valid() && e >= 1 && 0 < s < 2 * Lead(f) && (s >= Lead(f) || e == 1) && m == Rounded(mode, sign, s)
    ensures var (x, res) := Norm(f, mode, sign, e, s);
      && x == Pack(f, sign, m, e) && m <= 2 * f.One()
      && (Inexact in res <==> x.expo <= f.MaxExpo() && (if m < 2 * f.One() then s % 8 != 0 else s % 8 >= 2))
  {
    var e' := if s < Lead(f) then 0 else e;
    OneIsEven(f);
    assert ShiftUp(f, e, s) == (e, s) && ShiftDown(f, e', s) == (e', s);
    FinishPacked(f, mode, sign, e', s, m);
  }

  /** The register t of the loop at exponent e, where that of an exact division is s. */
  lemma {:induction false} LoopDirected(f: Format, mode: Mode, sign: bool, e: nat, s: nat, t: nat, num: nat, den: nat,
                                        x: Fp, res: set<Flag>)
    requires f.Valid() && den > 0 && e >= 1 && IsDirected(mode) && s < 2 * Lead(f) && (s >= Lead(f) || e == 1) && t > 0
    requires Resembles(s, 8 * num, Mul(Pow2(e - 1), den)) && SameDirected(s, t) && t < 2 * Lead(f)
    requires (t >= Lead(f) || e == 1) && (x, res) == Norm(f, mode, sign, e, t)
    ensures DirectedCorrect(f, mode, sign, x, num, den)
      <==> Away(mode, sign) || (!Attained(f, num, den) && !BeyondFormat(f, num, den))
    ensures ReportsInexact(f, num, den, x, res) <==> !FlagLost(f, Away(mode, sign), t, num, den)
    ensures Away(mode, sign) && LostInCarry(f, t) ==> (num <= Mul(Largest(f), den) <==> e < f.MaxExpo())
  {
    hide Mul, Norm, Attained, BeyondFormat, Resembles, DirectedCorrect, ReportsInexact;
    var m := Rounded(mode, sign, t);
    DirectedAt(f, mode, sign, e, t, m);
    ReachedExactly(f, mode, sign, e, s, t, m, num, den, x, res);
  }

  // ---- At most one left shift ----

  lemma {:induction false} UnshiftedDirected(f: Format, mode: Mode, sign: bool, e: nat, q: nat, r: nat, d: nat, t: nat,
                                             t': nat, num: nat, den: nat, x: Fp, res: set<Flag>)
    requires f.Valid() && e >= 1 && q < 2 * f.One() && (q >= f.One() || e == 1) && t < 8 && t' < 8 && den > 0
    requires IsDirected(mode) && (x, res) == Norm(f, mode, sign, e, 8 * q + t) && 8 * q + t > 0
    requires Encodes(e, 8 * q + t', num, den) && (t == 0 <==> t' == 0) && (t == 1 <==> 0 < r < d / 4)
    ensures DirectedCorrect(f, mode, sign, x, num, den)
      <==> Away(mode, sign) || (!Attained(f, num, den) && !BeyondFormat(f, num, den))
    ensures ReportsInexact(f, num, den, x, res) <==>
      if Away(mode, sign) then !(e < f.MaxExpo() && q + 1 == 2 * f.One() && 0 < r < d / 4)
      else !(Attained(f, num, den) && num < Mul(Largest(f), den))
  {
    hide Mul, Norm, Attained, BeyondFormat, DirectedCorrect, ReportsInexact;
    MulOne(num);
    StandsResembles(8 * q + t', 8 * num, Mul(Pow2(e - 1), den));
    DivMod8(8 * q + t, q, t);
    DivMod8(8 * q + t', q, t');
    LoopDirected(f, mode, sign, e, 8 * q + t', 8 * q + t, num, den, x, res);
  }

  /** The register after one left shift: the first rounding bit joins the quotient. */
  lemma {:induction false} OneShift(f: Format, q: nat, t: nat) returns (s: nat)
    requires f.Valid() && q < f.One() && t < 8
    ensures s == 2 * (8 * q + t) + (8 * q + t) % 2 && s < 2 * Lead(f) && (f.One() <= 2 * q ==> s >= Lead(f))
    ensures s / 8 == 2 * q + t / 4 && s % 8 == 2 * (t % 4) + t % 2
  {
    DivMod2(8 * q + t, 4 * q + t / 2, t % 2);
    s := 2 * (8 * q + t) + t % 2;
    DivMod8(s, 2 * q + t / 4, 2 * (t % 4) + t % 2);
  }

  lemma {:induction false} ShiftedResembles(f: Format, e: nat, s: nat, s': nat, num: nat, den: nat)
    requires f.Valid() && e >= 2 && s < Lead(f) && Encodes(e, s, num, den) && s' == 2 * s + s % 2
    ensures Resembles(s', 8 * num, Mul(Pow2(e - 2), den))
  {
    hide Mul;
    var d := Mul(Pow2(e - 2), den);
    MulOne(num);
    MulTwo(Pow2(e - 2), den);
    if s % 2 == 1 {
      OddUp(s, 8 * num, d);
    } else {
      MulTwo(s, d);
    }
  }

  lemma {:induction false} ShiftedDirected(f: Format, mode: Mode, sign: bool, e: nat, q: nat, t: nat, t': nat,
                                           num: nat, den: nat, x: Fp, res: set<Flag>)
    requires f.Valid() && e >= 2 && q < f.One() && FewShifts(f, e, q) && t < 8 && t' < 8 && den > 0
    requires IsDirected(mode) && (x, res) == Norm(f, mode, sign, e, 8 * q + t) && 8 * q + t > 0
    requires Encodes(e, 8 * q + t', num, den) && (t == 0 <==> t' == 0) && (t >= 4 <==> t' >= 4) && (t == 4 <==> t' == 4)
    ensures DirectedCorrect(f, mode, sign, x, num, den)
      <==> Away(mode, sign) || (!Attained(f, num, den) && !BeyondFormat(f, num, den))
    ensures ReportsInexact(f, num, den, x, res)
      <==> Away(mode, sign) || !(Attained(f, num, den) && num < Mul(Largest(f), den))
  {
    hide Mul, Norm, Attained, BeyondFormat, DirectedCorrect, ReportsInexact, Resembles, Encodes, Largest;
    var s := OneShift(f, q, t);
    var s' := OneShift(f, q, t');
    ShiftedNorm(f, mode, sign, e, 8 * q + t);
    ShiftedResembles(f, e, 8 * q + t', s', num, den);
    LoopDirected(f, mode, sign, e - 1, s', s, num, den, x, res);
  }

  /** A quotient just below the middle is taken for the middle, which is right away from zero. */
  lemma {:induction false} MiddleDirected(f: Format, mode: Mode, sign: bool, e: nat, q: nat, num: nat, den: nat,
                                          x: Fp, res: set<Flag>)
    requires f.Valid() && e >= 2 && q < f.One() && FewShifts(f, e, q) && den > 0
    requires IsDirected(mode) && (x, res) == Norm(f, mode, sign, e, 8 * q + 4) && Encodes(e, 8 * q + 3, num, den)
    ensures DirectedCorrect(f, mode, sign, x, num, den) <==> Away(mode, sign)
    ensures ReportsInexact(f, num, den, x, res)
      <==> !(e <= f.MaxExpo() || (e == f.MaxExpo() + 1 && (Away(mode, sign) || q + 1 < f.One())))
  {
    hide Mul, Norm, Resembles, Encodes, RoundedUp, Pow2;
    var s := OneShift(f, q, 4);
    var s' := OneShift(f, q, 3);
    var m, w := 2 * q + 1 + (if Away(mode, sign) then 0 else 1), Pow2(e - 2);
    ShiftedNorm(f, mode, sign, e, 8 * q + 4);
    ShiftedResembles(f, e, 8 * q + 3, s', num, den);
    DirectedAt(f, mode, sign, e - 1, s, m);
    MulPositive(w, den);
    RoundZero(s', num, Mul(w, den));
    MulLe(2 * q + 1, m, Mul(w, den));
    PackUnits(f, sign, m, e - 1);
    MulAssoc(m, w, den);
    if Away(mode, sign) { AwayRight(f, sign, e - 1, s', m, num, den); }
  }

  // ---- Right shifts ----

  lemma {:induction false} JamBelowLead(f: Format, s: nat)
    requires f.Valid() && s < 2 * Lead(f)
    ensures Jam(s) < Lead(f)
  {
    OneIsEven(f);
  }

  lemma {:induction false} JamNotAbove(s: nat)
    ensures Jam(s) <= s
  {
  }

  lemma {:induction false} DownLow(f: Format, e: int, s: nat)
    requires f.Valid() && e <= 0 && s < Lead(f)
    ensures var (e', s') := ShiftDown(f, e, s); e' == 0 && s' < Lead(f)
    decreases -e
  {
    if e < 0 {
      JamNotAbove(s);
      DownLow(f, e + 1, Jam(s));
    }
  }

  lemma {:induction false} DownShape(f: Format, e: int, q: nat, t: nat)
    requires f.Valid() && e <= -1 && q < 2 * f.One() && t < 8
    ensures var (e', s) := ShiftDown(f, e, 8 * q + t);
      && e' == 0 && s < Lead(f)
      && (e == -1 ==> s == 4 * q + Jam(t)) && Jam(t) < 4 && (Jam(t) == 0 <==> t == 0)
      && (e < -1 ==> (e', s) == ShiftDown(f, e + 2, 2 * q + if t == 0 then 0 else 1))
  {
    JamTwice(q, t);
    JamBelowLead(f, 8 * q + t);
    DownLow(f, e + 1, Jam(8 * q + t));
    assert ShiftDown(f, e, 8 * q + t) == ShiftDown(f, e + 1, Jam(8 * q + t));
    if e < -1 { DownTwice(f, e, q, t); }
  }

  /** After right shifts the two registers have the same quotient, and both have rounding bits or none. */
  lemma {:induction false} DownSame(f: Format, e: int, q: nat, t: nat, t': nat)
    requires f.Valid() && e <= -1 && q < 2 * f.One() && t < 8 && t' < 8 && (t == 0 <==> t' == 0)
    ensures var (e1, s) := ShiftDown(f, e, 8 * q + t'); var (e2, s2) := ShiftDown(f, e, 8 * q + t);
      e1 == e2 == 0 && s < Lead(f) && s2 < Lead(f) && SameDirected(s, s2)
  {
    hide ShiftDown, Jam;
    DownShape(f, e, q, t);
    DownShape(f, e, q, t');
    if e == -1 {
      DivMod8(4 * q + Jam(t), q / 2, q % 2 * 4 + Jam(t));
      DivMod8(4 * q + Jam(t'), q / 2, q % 2 * 4 + Jam(t'));
    }
  }

  lemma {:induction false} QuotientBump(f: Format, e: int, s: nat)
    requires f.Valid() && s < 2 * Lead(f) && e != 0
    ensures RoomToBump(f, e, s)
  {
    if e < 0 {
      OneIsEven(f);
      Pow2Mono(1, -e);
      assert Pow2(1) == 2;
      MulLeRight(2 * Lead(f) - 8, 2, Pow2(-e));
      MulComm(2 * Lead(f) - 8, 2);
      SmallMultiples(2 * Lead(f) - 8);
    }
  }

  lemma {:induction false} LowDirected(f: Format, mode: Mode, sign: bool, e: int, q: nat, t: nat, t': nat,
                                       num: nat, den: nat, x: Fp, res: set<Flag>)
    requires f.Valid() && e <= -1 && q < 2 * f.One() && t < 8 && t' < 8 && (t == 0 <==> t' == 0) && 8 * q + t > 0
    requires den > 0 && IsDirected(mode) && Encodes(e, 8 * q + t', num, den)
    requires (x, res) == Norm(f, mode, sign, e, 8 * q + t)
    ensures DirectedCorrect(f, mode, sign, x, num, den)
      <==> Away(mode, sign) || (!Attained(f, num, den) && !BeyondFormat(f, num, den))
    ensures ReportsInexact(f, num, den, x, res)
      <==> Away(mode, sign) || !(Attained(f, num, den) && num < Mul(Largest(f), den))
  {
    hide Mul, Attained, BeyondFormat, DirectedCorrect, ReportsInexact, Encodes, Resembles, Finish, ShiftDown;
    QuotientBump(f, e, 8 * q + t');
    DownSame(f, e, q, t, t');
    LowReached(f, e, q, t', num, den);
    var s, s2 := ShiftDown(f, e, 8 * q + t').1, ShiftDown(f, e, 8 * q + t).1;
    var m := Rounded(mode, sign, s2);
    LowFinish(f, mode, sign, e, 8 * q + t, s2);
    OneIsEven(f);
    FinishPacked(f, mode, sign, 0, s2, m);
    ReachedExactly(f, mode, sign, 1, s, s2, m, num, den, x, res);
  }

  lemma {:induction false} LowFinish(f: Format, mode: Mode, sign: bool, e: int, s: nat, s2: nat)
    requires e <= -1 && s > 0 && ShiftDown(f, e, s) == (0, s2)
    ensures Norm(f, mode, sign, e, s) == Finish(f, mode, sign, 0, s2)
  {
    assert ShiftUp(f, e, s) == (e, s) && Adjust(f, e, s) == e;
  }

  lemma {:induction false} LowReached(f: Format, e: int, q: nat, t: nat, num: nat, den: nat)
    requires f.Valid() && e <= -1 && 8 * q + t > 0 && den > 0 && Encodes(e, 8 * q + t, num, den)
    requires RoomToBump(f, e, 8 * q + t) && ShiftDown(f, e, 8 * q + t).0 == 0
    ensures Resembles(ShiftDown(f, e, 8 * q + t).1, 8 * num, Mul(Pow2(0), den))
  {
    NormReaches(f, e, 8 * q + t, num, den);
    assert ShiftUp(f, e, 8 * q + t) == (e, 8 * q + t) && Adjust(f, e, 8 * q + t) == e;
  }

  // ---- More left shifts ----

  /** More about the rounding bits of the loop. */
  lemma {:induction false} TailMore(r: nat, d: nat)
    requires d >= 8 && r < d
    ensures var t := TailBits(r, d);
      && t < 8 && (t == 1 <==> 0 < r < d / 4) && (t == 0 ==> r == 0)
      && (t % 2 == 0 ==> t == 0 || t == 2 || t == 4 || t == 6)
      && (t == 2 ==> 4 * r <= d) && (t == 6 ==> 4 * r <= 3 * d)
  {
    var h := d / 2;
    var k := h / 2;
    DivMod4(d, k, h % 2 * 2 + d % 2);
    TailUnrolled(r, h, k, k / 2);
    MoreCases(r, d, h, k, k / 2);
  }

  lemma {:induction false} MoreCases(r: nat, d: nat, h: nat, k: nat, j: nat)
    requires r < d && 2 * h <= d <= 2 * h + 1 && 2 * k <= h <= 2 * k + 1 && 2 * j <= k <= 2 * j + 1 && j >= 1
    ensures var b1, r1 := if h <= r then 1 else 0, if h <= r then r - h else r;
      var b2, r2 := if k <= r1 then 1 else 0, if k <= r1 then r1 - k else r1;
      var t := if j <= r2 then Stick(4 * b1 + 2 * b2 + 1, r2 - j != 0) else Stick(4 * b1 + 2 * b2, r2 != 0);
      && t < 8 && (t == 1 <==> 0 < r < k) && (t == 0 ==> r == 0)
      && (t % 2 == 0 ==> t == 0 || t == 2 || t == 4 || t == 6)
      && (t == 2 ==> 4 * r <= d) && (t == 6 ==> 4 * r <= 3 * d)
  {
  }

  /** The quotient lies below what an odd register is filled up to, and not above an even one. */
  lemma {:induction false} BelowFilled(q: nat, r: nat, d: nat, t: nat)
    requires d >= 8 && r < d && LoopBits(t, r, d)
    requires t % 2 == 0 ==> t == 0 || t == 2 || t == 4 || t == 6
    requires (t == 2 ==> 4 * r <= d) && (t == 6 ==> 4 * r <= 3 * d)
    ensures var s, n := 8 * q + t, 8 * (Mul(q, d) + r);
      if s % 2 == 1 then n < Mul(Filled(s), d) else n <= Mul(Filled(s), d)
  {
    SmallMultiples(d);
    MulAdd(8 * q, t + t % 2, d);
    MulEight(q, d);
    DivMod2(8 * q + t, 4 * q + t / 2, t % 2);
  }

  lemma {:induction false} OddDirected(f: Format, mode: Mode, sign: bool, e: int, s: nat, n: nat, d: nat, c: nat,
                                       num: nat, den: nat, x: Fp, res: set<Flag>)
    requires f.Valid() && !Settled(f, e, s) && e < f.MaxExpo() && c > 0 && den > 0 && IsDirected(mode)
    requires (x, res) == Norm(f, mode, sign, e, s) && 8 * n < Mul(Filled(s), d)
    requires num == Mul(n, c) && Mul(Weight(e), den) == Mul(d, c)
    ensures DirectedCorrect(f, mode, sign, x, num, den)
      <==> NearDirected(Away(mode, sign), s, LeftShiftCount(f, e, s), 8 * n, d)
    ensures ReportsInexact(f, num, den, x, res)
      <==> Away(mode, sign) || Mul(Off(s, 8 * n, d), Pow2(LeftShiftCount(f, e, s))) != 8 * d
  {
    hide Mul, NearDirected, DirectedCorrect, ReportsInexact, Norm, Off;
    var k, m := DirectedPacks(f, mode, sign, e, s);
    WeightAfter(e, k, den);
    MulEight(n, c);
    OffScale(s, 8 * n, d, c);
    DirectedFilled(f, mode, sign, s, k, e - k, m, num, den, x, res);
    DirectedScale(Away(mode, sign), s, k, 8 * n, d, c);
  }

  lemma {:induction false} NormAfter(f: Format, mode: Mode, sign: bool, e: int, s: nat, e': nat, s': nat)
    requires s > 0 && s' > 0 && e' >= 1 && ShiftUp(f, e, s) == (e', s') && (s' >= Lead(f) || e' == 1)
    ensures Norm(f, mode, sign, e, s) == Norm(f, mode, sign, e', s')
  {
  }

  /** A register without a sticky bit is shifted as if it were exact. */
  lemma {:induction false} EvenPacks(f: Format, mode: Mode, sign: bool, e: int, s: nat) returns (k: nat, m: nat)
    requires f.Valid() && s % 2 == 0 && s > 0 && e > 2 && 2 * s < Lead(f) && IsDirected(mode)
    ensures 2 <= k == LeftShiftCount(f, e, s) < e && Mul(s, Pow2(k)) == 8 * m
    ensures 1 <= m < 2 * f.One() && (e - k > 1 ==> m >= f.One())
    ensures var (x, res) := Norm(f, mode, sign, e, s);
      x == Pack(f, sign, if Away(mode, sign) then m else m + 1, e - k) && Inexact !in res
  {
    hide Mul, Norm;
    k := EvenUpClosed(f, e, s);
    m := EighthOf(s, k);
    MulPositive(s, Pow2(k));
    DivMod8(8 * m, m, 0);
    NormAfter(f, mode, sign, e, s, e - k, 8 * m);
    DirectedAt(f, mode, sign, e - k, 8 * m, if Away(mode, sign) then m else m + 1);
  }

  lemma {:induction false} EvenDirected(f: Format, mode: Mode, sign: bool, e: int, s: nat, n: nat, d: nat, c: nat,
                                        num: nat, den: nat, x: Fp, res: set<Flag>)
    requires f.Valid() && s % 2 == 0 && s > 0 && 2 < e < f.MaxExpo() && 2 * s < Lead(f) && c > 0 && den > 0
    requires IsDirected(mode) && (x, res) == Norm(f, mode, sign, e, s) && 8 * n <= Mul(s, d)
    requires Mul(s, Pow2(LeftShiftCount(f, e, s))) == Lead(f) ==> 8 * n >= Mul(s, d)
    requires num == Mul(n, c) && Mul(Weight(e), den) == Mul(d, c)
    ensures DirectedCorrect(f, mode, sign, x, num, den)
      <==> Away(mode, sign) && NearDirected(true, s, LeftShiftCount(f, e, s), 8 * n, d)
    ensures ReportsInexact(f, num, den, x, res)
      <==> Away(mode, sign) && Mul(Off(s, 8 * n, d), Pow2(LeftShiftCount(f, e, s))) == 0
  {
    hide Mul, DirectedCorrect, ReportsInexact, Norm, Off;
    var k, m := EvenPacks(f, mode, sign, e, s);
    WeightAfter(e, k, den);
    MulEight(n, c);
    MulAssoc(s, d, c);
    MulLe(8 * n, Mul(s, d), c);
    if Mul(s, Pow2(k)) == Lead(f) { MulLe(Mul(s, d), 8 * n, c); }
    EvenPacked(f, mode, sign, s, k, e - k, m, num, den, x, res);
    DirectedScale(true, s, k, 8 * n, d, c);
    OffScale(s, 8 * n, d, c);
    ZeroOff(Off(s, 8 * n, d), c, Pow2(k));
  }

  lemma {:induction false} ZeroOff(off: nat, c: nat, w: nat)
    requires c > 0 && w > 0
    ensures Mul(Mul(off, c), w) == 0 <==> Mul(off, w) == 0
  {
    MulOne(c);
    MulOne(w);
    if off > 0 {
      MulPositive(off, c);
      MulPositive(Mul(off, c), w);
      MulPositive(off, w);
    }
  }

  lemma {:induction false} EvenPacked(f: Format, mode: Mode, sign: bool, s: nat, k: nat, e: nat, m: nat,
                                      num: nat, den: nat, x: Fp, res: set<Flag>)
    requires f.Valid() && s % 2 == 0 && 1 <= e < f.MaxExpo() && den > 0 && IsDirected(mode) && Inexact !in res
    requires Mul(s, Pow2(k)) == 8 * m && 1 <= m < 2 * f.One() && (e > 1 ==> m >= f.One())
    requires x == Pack(f, sign, if Away(mode, sign) then m else m + 1, e)
    requires var d := Mul(Pow2(k), Mul(Pow2(e - 1), den));
      8 * num <= Mul(s, d) && (8 * m == Lead(f) ==> 8 * num >= Mul(s, d))
    ensures var d := Mul(Pow2(k), Mul(Pow2(e - 1), den));
      && (DirectedCorrect(f, mode, sign, x, num, den) <==> Away(mode, sign) && NearDirected(true, s, k, 8 * num, d))
      && (ReportsInexact(f, num, den, x, res) <==> Away(mode, sign) && Mul(Off(s, 8 * num, d), Pow2(k)) == 0)
  {
    hide Mul, RoundedUp, RoundedDown, Off;
    var u := Mul(Pow2(e - 1), den);
    OffInPlaces(s, k, m, u, num);
    OffZero(s, k, m, u, num);
    MulPositive(Pow2(e - 1), den);
    NextMultiple(m, m - 1, u);
    NextMultiple(m, m + 1, u);
    if Away(mode, sign) {
      PackUnits(f, sign, m, e);
      MulAssoc(m, Pow2(e - 1), den);
      if num == Mul(m, u) {
        if e > 1 { MulLe(f.One(), m, u); }
        PackUp(f, sign, m, e, num, den);
      } else {
        UpExactly(f, sign, m, e, num, den);
      }
    } else {
      PackUnits(f, sign, m + 1, e);
      MulAssoc(m + 1, Pow2(e - 1), den);
      NotDown(f, x, num, den);
    }
  }

  lemma {:induction false} NotDown(f: Format, x: Fp, num: nat, den: nat)
    requires Finite(f, x) && Mul(Units(f, x), den) > num
    ensures !RoundedDown(f, x, num, den)
  {
  }

  lemma {:induction false} OffZero(s: nat, k: nat, m: nat, u: nat, num: nat)
    requires s % 2 == 0 && Mul(s, Pow2(k)) == 8 * m
    ensures Mul(Off(s, 8 * num, Mul(Pow2(k), u)), Pow2(k)) == 0 <==> Mul(m, u) == num
  {
    OffInPlaces(s, k, m, u, num);
    var off := Off(s, 8 * num, Mul(Pow2(k), u));
    MulOne(Pow2(k));
    if off > 0 { MulPositive(off, Pow2(k)); }
  }

  // ---- All quotients ----

  lemma {:induction false} FewDirected(f: Format, mode: Mode, sign: bool, e: int, q: nat, r: nat, d: nat,
                                       num: nat, den: nat, x: Fp, res: set<Flag>)
    requires f.Valid() && q < 2 * f.One() && FewShifts(f, e, q) && 8 <= d && r < d && den > 0 && (q > 0 || r > 0)
    requires IsDirected(mode) && (x, res) == Norm(f, mode, sign, Lowered(e), 8 * q + TailBits(r, d))
    requires Encodes(Lowered(e), 8 * q + TrueBits(r, d), num, den)
    ensures DirectedCorrect(f, mode, sign, x, num, den)
      <==> !FailingDirected(f, Away(mode, sign), e, q, r, d, num, den)
    ensures ReportsInexact(f, num, den, x, res)
      <==> !MisreportedDirected(f, Away(mode, sign), e, q, r, d, num, den)
  {
    hide Mul, Norm, Attained, BeyondFormat, DirectedCorrect, ReportsInexact, Encodes, Largest, TailBits, TrueBits;
    var t, t' := TailBits(r, d), TrueBits(r, d);
    TailCompare(r, d);
    TrueCompare(r, d);
    TailMore(r, d);
    if e <= 0 {
      LowDirected(f, mode, sign, e - 1, q, t, t', num, den, x, res);
    } else if q >= f.One() || e == 1 {
      UnshiftedDirected(f, mode, sign, e, q, r, d, t, t', num, den, x, res);
    } else if TakenForMiddle(f, e, q, r, d) {
      MiddleBits(r, d);
      MiddleDirected(f, mode, sign, e, q, num, den, x, res);
    } else {
      ShiftedDirected(f, mode, sign, e, q, t, t', num, den, x, res);
    }
  }

  lemma {:induction false} MiddleBits(r: nat, d: nat)
    requires d >= 8 && d % 2 == 1 && r == d / 2
    ensures TailBits(r, d) == 4 && TrueBits(r, d) == 3
  {
    TailCompare(r, d);
  }

  lemma {:induction false} ManyDirected(f: Format, mode: Mode, sign: bool, e: int, q: nat, r: nat, d: nat, c: nat,
                                        num: nat, den: nat, x: Fp, res: set<Flag>, s: nat, n: nat)
    requires f.Valid() && 2 * q < f.One() && 2 < e < f.MaxExpo() && 8 <= d < 2 * f.One() && r < d && den > 0 && c > 0
    requires (q > 0 || r > 0) && (q == 0 ==> r >= f.One()) && IsDirected(mode)
    requires s == 8 * q + TailBits(r, d) && n == 8 * (Mul(q, d) + r) && (x, res) == Norm(f, mode, sign, e, s)
    requires num == Mul(Mul(q, d) + r, c) && Mul(Weight(e), den) == Mul(d, c)
    ensures DirectedCorrect(f, mode, sign, x, num, den) <==> !FailingFilled(f, Away(mode, sign), e, s, n, d)
    ensures ReportsInexact(f, num, den, x, res) <==> !MisreportedFilled(f, Away(mode, sign), e, s, n, d)
  {
    hide Mul, Norm, DirectedCorrect, ReportsInexact, NearDirected, Off, LeftShiftCount, TailBits, Settled;
    ManyContext(f, e, q, r, d, s, Mul(q, d) + r);
    if s % 2 == 1 {
      OddDirected(f, mode, sign, e, s, Mul(q, d) + r, d, c, num, den, x, res);
    } else {
      EvenDirected(f, mode, sign, e, s, Mul(q, d) + r, d, c, num, den, x, res);
    }
  }

  lemma {:induction false} ManyContext(f: Format, e: int, q: nat, r: nat, d: nat, s: nat, n: nat)
    requires f.Valid() && 2 * q < f.One() && 2 < e && 8 <= d < 2 * f.One() && r < d && (q > 0 || r > 0)
    requires (q == 0 ==> r >= f.One()) && s == 8 * q + TailBits(r, d) && n == Mul(q, d) + r
    ensures s > 0 && 2 * s < Lead(f)
    ensures s % 2 == 1 ==> !Settled(f, e, s) && 8 * n < Mul(Filled(s), d)
    ensures s % 2 == 0 ==> 8 * n <= Mul(s, d)
    ensures s % 2 == 0 && Mul(s, Pow2(LeftShiftCount(f, e, s))) == Lead(f) ==> 8 * n >= Mul(s, d)
  {
    hide Mul, LeftShiftCount, TailBits, LoopBits;
    var t := TailBits(r, d);
    TailCompare(r, d);
    TailMore(r, d);
    BelowFilled(q, r, d, t);
    TailFilled(f, q, r, d, t, LeftShiftCount(f, e, s));
    OneIsEven(f);
  }

  lemma {:induction false} ZeroQuotient(f: Format, mode: Mode, sign: bool, e: int, num: nat, den: nat)
    requires f.Valid() && den > 0 && Encodes(e, 0, num, den) && IsDirected(mode)
    ensures var (x, res) := Norm(f, mode, sign, e, 0);
      DirectedCorrect(f, mode, sign, x, num, den) && ReportsInexact(f, num, den, x, res)
  {
    MulOne(Mul(Weight(e), den));
    if num > 0 { MulPositive(Dilution(e), num); }
    MulOne(Scale(0));
    MulOne(den);
    forall v | Finite(f, v) && Mul(Units(f, v), den) <= num
      ensures Units(f, v) == 0
    {
      if Units(f, v) > 0 { MulPositive(Units(f, v), den); }
    }
  }

  lemma {:induction false} DivDirectedCases(f: Format, mode: Mode, a: Fp, b: Fp, q: nat, r: nat, e: int, d: nat,
                                            x: Fp, res: set<Flag>, failing: bool, misreported: bool)
    requires f.Valid() && Finite(f, a) && Finite(f, b) && !Ieee754.IsZero(b) && IsDirected(mode)
    requires e == DivExpo(f, a, b) && d == DivisorSig(f, b) && Mul(Sig(f, a), f.One()) == Mul(q, d) + r && r < d
    requires (x, res) == DivSpec(f, mode, a, b)
    requires failing == FailingDirected(f, Away(mode, a.sign != b.sign), e, q, r, d, DivNum(f, a), Units(f, b))
    requires misreported == MisreportedDirected(f, Away(mode, a.sign != b.sign), e, q, r, d, DivNum(f, a), Units(f, b))
    ensures DirectedCorrect(f, mode, a.sign != b.sign, x, DivNum(f, a), Units(f, b)) <==> !failing
    ensures ReportsInexact(f, DivNum(f, a), Units(f, b), x, res) <==> !misreported
  {
    hide Mul, DirectedCorrect, ReportsInexact, Norm, DivisorSig, DivisorShift, Units, FailingFilled, MisreportedFilled,
         Encodes, Attained, BeyondFormat, Largest, TakenForMiddle;
    var num, den, sign := DivNum(f, a), Units(f, b), a.sign != b.sign;
    var c := LoopContext(f, a, b, q, r, e, d, num, den);
    if q == 0 && r == 0 {
      ZeroTail(d);
      ZeroQuotient(f, mode, sign, Lowered(e), num, den);
    } else if FewShifts(f, e, q) {
      FewDirected(f, mode, sign, e, q, r, d, num, den, x, res);
    } else {
      ManyDirected(f, mode, sign, e, q, r, d, c, num, den, x, res, 8 * q + TailBits(r, d), 8 * (Mul(q, d) + r));
    }
  }

  lemma {:induction false} ZeroTail(d: nat)
    requires d >= 8
    ensures TailBits(0, d) == 0 && TrueBits(0, d) == 0
  {
    TailCompare(0, d);
  }

  /**
   * ar_ifdiv64 in PLUS_INFINITY and MINUS_INFINITY for all finite operands with a divisor that is not zero,
   * with the exact quotient q and remainder r of the significands: the quotient is rounded in the
   * direction of the mode in all but the failing cases and never in those, and INEXACT is right
   * in all but the misreported cases and never in those.
   */
  lemma {:induction false} DivDirected(f: Format, mode: Mode, a: Fp, b: Fp, q: nat, r: nat)
    requires f.Valid() && Finite(f, a) && Finite(f, b) && !Ieee754.IsZero(b) && IsDirected(mode)
    requires Mul(Sig(f, a), f.One()) == Mul(q, DivisorSig(f, b)) + r && r < DivisorSig(f, b)
    ensures var (x, res) := DivSpec(f, mode, a, b); var e, d := DivExpo(f, a, b), DivisorSig(f, b);
      var sign, num, den := a.sign != b.sign, DivNum(f, a), Units(f, b);
      && (DirectedCorrect(f, mode, sign, x, num, den)
          <==> !FailingDirected(f, Away(mode, sign), e, q, r, d, num, den))
      && (ReportsInexact(f, num, den, x, res)
          <==> !MisreportedDirected(f, Away(mode, sign), e, q, r, d, num, den))
      && (a.expo > 0 ==> FewShifts(f, e, q))
  {
    hide DirectedCorrect, ReportsInexact, FailingDirected, MisreportedDirected, DivisorSig, DivisorShift, Units, Norm;
    var (x, res) := DivSpec(f, mode, a, b);
    var e, d, away := DivExpo(f, a, b), DivisorSig(f, b), Away(mode, a.sign != b.sign);
    var failing := FailingDirected(f, away, e, q, r, d, DivNum(f, a), Units(f, b));
    var misreported := MisreportedDirected(f, away, e, q, r, d, DivNum(f, a), Units(f, b));
    DivDirectedCases(f, mode, a, b, q, r, e, d, x, res, failing, misreported);
    LoopRegister(f, a, b, q, r);
  }
}
