/**
 * ar_ifdiv32 and ar_ifdiv64: for which quotients the last three rounds of the loop, which use a
 * truncated divisor, lead to the right result, and for which INEXACT is right.
 */
module DivisionExactly {
  import opened Powers
  import opened Ieee754
  import opened Normalizer
  import opened Numbers
  import opened Exactness
  import opened Division

  // ---- Rounding bits ----

  /** What the rounding bits t of the loop tell about the remainder r of the exact division by d. */
  predicate LoopBits(t: nat, r: nat, d: nat) {
    && t < 8 && (t == 0 <==> r == 0)
    && (t > 4 <==> r > d / 2) && (t == 4 <==> r == d / 2)
    && (t >= 6 <==> r >= d / 2 + d / 4) && (t >= 3 <==> r > d / 4)
    && (t == 1 ==> 4 * r < d) && (t == 3 ==> 2 * r < d) && (t == 5 ==> 4 * r < 3 * d)
  }

  /** What the rounding bits of an exact division would tell. */
  predicate ExactBits(t: nat, r: nat, d: nat) {
    && t < 8 && (t == 0 <==> r == 0)
    && (t > 4 <==> 2 * r > d) && (t == 4 <==> 2 * r == d)
    && (t >= 6 <==> 4 * r >= 3 * d) && (t >= 3 <==> 4 * r > d)
  }

  lemma {:induction false} TailCompare(r: nat, d: nat)
    requires d >= 8 && r < d
    ensures LoopBits(TailBits(r, d), r, d)
  {
    var h := d / 2;
    var k := h / 2;
    DivMod4(d, k, h % 2 * 2 + d % 2);
    TailUnrolled(r, h, k, k / 2);
    TailCases(r, d, h, k, k / 2);
  }

  lemma {:induction false} TailCases(r: nat, d: nat, h: nat, k: nat, j: nat)
    requires r < d && 2 * h <= d <= 2 * h + 1 && 2 * k <= h <= 2 * k + 1 && 2 * j <= k <= 2 * j + 1 && j >= 1
    ensures var b1, r1 := if h <= r then 1 else 0, if h <= r then r - h else r;
      var b2, r2 := if k <= r1 then 1 else 0, if k <= r1 then r1 - k else r1;
      var t := if j <= r2 then Stick(4 * b1 + 2 * b2 + 1, r2 - j != 0) else Stick(4 * b1 + 2 * b2, r2 != 0);
      && t < 8 && (t == 0 <==> r == 0)
      && (t > 4 <==> r > h) && (t == 4 <==> r == h)
      && (t >= 6 <==> r >= h + k) && (t >= 3 <==> r > k)
      && (t == 1 ==> 4 * r < d) && (t == 3 ==> 2 * r < d) && (t == 5 ==> 4 * r < 3 * d)
  {
  }

  lemma {:induction false} TrueCompare(r: nat, d: nat)
    requires d >= 8 && r < d
    ensures ExactBits(TrueBits(r, d), r, d)
  {
  }

  // ---- The normalizer on a quotient with rounding bits ----

  /** Neighbouring significands pack to different numbers unless both overflow. */
  lemma {:induction false} PackStep(f: Format, sign: bool, m: nat, e: nat)
    requires f.Valid() && e >= 1 && m < 2 * f.One() && (m >= f.One() || e == 1)
    ensures Pack(f, sign, m, e) == Pack(f, sign, m + 1, e) <==> e > f.MaxExpo()
  {
  }

  /** The quotient rounded by its rounding bits. */
  function Whole(mode: Mode, q: nat, t: nat): nat {
    q + if mode == Nearest && (t > 4 || (t == 4 && q % 2 == 1)) then 1 else 0
  }

  /** No shift: the rounding bits decide about the quotient's last place. */
  lemma {:induction false} NormUnshifted(f: Format, mode: Mode, sign: bool, e: int, q: nat, t: nat)
    requires f.Valid() && e >= 1 && q < 2 * f.One() && (q >= f.One() || e == 1) && t < 8 && 8 * q + t > 0
    requires mode == Nearest || mode == Zero
    ensures Norm(f, mode, sign, e, 8 * q + t).0 == Pack(f, sign, Whole(mode, q, t), e)
  {
    if q >= f.One() {
      WholeRounds(f, mode, sign, e, q, t);
      NormDirect(f, mode, sign, e, 8 * q + t);
    } else {
      WholeRounds(f, mode, sign, 0, q, t);
      NormBelow(f, mode, sign, 8 * q + t, Pack(f, sign, Whole(mode, q, t), 1));
    }
  }

  lemma {:induction false} WholeRounds(f: Format, mode: Mode, sign: bool, e: nat, q: nat, t: nat)
    requires f.Valid() && q < 2 * f.One() && t < 8 && (mode == Nearest || mode == Zero)
    requires if q >= f.One() then e >= 1 else e == 0
    ensures Finish(f, mode, sign, e, 8 * q + t).0 == Pack(f, sign, Whole(mode, q, t), Effective(e))
  {
    DivMod8(8 * q + t, q, t);
    OneIsEven(f);
    FinishValue(f, mode, sign, e, 8 * q + t, Whole(mode, q, t));
  }

  lemma {:induction false} NormBelow(f: Format, mode: Mode, sign: bool, s: nat, x: Fp)
    requires f.Valid() && 0 < s < Lead(f) && Finish(f, mode, sign, 0, s).0 == x
    ensures Norm(f, mode, sign, 1, s).0 == x
  {
    assert ShiftUp(f, 1, s) == (1, s) && ShiftDown(f, 0, s) == (0, s);
  }

  /** The quotient with one more bit, rounded by what the shifted rounding bits say. */
  function Doubled(mode: Mode, q: nat, t: nat): nat {
    2 * q + if mode == Nearest then if t >= 6 then 2 else if t >= 3 then 1 else 0 else if t >= 4 then 1 else 0
  }

  /** One left shift: the first rounding bit joins the quotient and the others decide. */
  lemma {:induction false} NormShifted(f: Format, mode: Mode, sign: bool, e: int, q: nat, t: nat)
    requires f.Valid() && e >= 2 && q < f.One() && FewShifts(f, e, q) && t < 8 && 8 * q + t > 0
    requires mode == Nearest || mode == Zero
    ensures Norm(f, mode, sign, e, 8 * q + t).0 == Pack(f, sign, Doubled(mode, q, t), e - 1)
  {
    var e' := if 2 * q < f.One() && 2 * (8 * q + t) + t % 2 < Lead(f) then 0 else e - 1;
    DivMod2(8 * q + t, 4 * q + t / 2, t % 2);
    ShiftedFinish(f, mode, sign, e', q, t);
    NormAfterShift(f, mode, sign, e, e', 8 * q + t, t % 2, Pack(f, sign, Doubled(mode, q, t), e - 1));
  }

  lemma {:induction false} ShiftedFinish(f: Format, mode: Mode, sign: bool, e: nat, q: nat, t: nat)
    requires f.Valid() && q < f.One() && t < 8 && (mode == Nearest || mode == Zero)
    requires f.One() <= 2 * q || e <= 1
    requires if 2 * (8 * q + t) + t % 2 < Lead(f) then e <= 1 else e >= 1
    ensures Finish(f, mode, sign, e, 2 * (8 * q + t) + t % 2).0 == Pack(f, sign, Doubled(mode, q, t), Effective(e))
  {
    DoubledRounds(mode, sign, q, t);
    OneIsEven(f);
    FinishValue(f, mode, sign, e, 2 * (8 * q + t) + t % 2, Doubled(mode, q, t));
  }

  lemma {:induction false} NormAfterShift(f: Format, mode: Mode, sign: bool, e: int, e': nat, s: nat, bit: nat, x: Fp)
    requires f.Valid() && e > 1 && 0 < s < Lead(f) && bit == s % 2 && (Lead(f) <= 2 * s + bit || e == 2)
    requires e' == (if 2 * s + bit < Lead(f) then 0 else e - 1) && Finish(f, mode, sign, e', 2 * s + bit).0 == x
    ensures Norm(f, mode, sign, e, s).0 == x
  {
    var t := 2 * s + bit;
    assert ShiftUp(f, e, s) == ShiftUp(f, e - 1, t) == (e - 1, t);
    assert ShiftDown(f, e', t) == (e', t);
  }

  lemma {:induction false} DoubledRounds(mode: Mode, sign: bool, q: nat, t: nat)
    requires t < 8 && (mode == Nearest || mode == Zero)
    ensures Rounded(mode, sign, 2 * (8 * q + t) + t % 2) == Doubled(mode, q, t)
  {
    var m, r := 2 * q + t / 4, 2 * (t % 4) + t % 2;
    DivMod8(2 * (8 * q + t) + t % 2, m, r);
    DivMod2(m, q, t / 4);
  }

  /** After two right shifts only whether there were any rounding bits is left. */
  lemma {:induction false} DownTwice(f: Format, e: int, q: nat, t: nat)
    requires f.Valid() && e <= -2 && q < 2 * f.One() && t < 8
    ensures ShiftDown(f, e, 8 * q + t) == ShiftDown(f, e + 2, 2 * q + if t == 0 then 0 else 1)
  {
    JamTwice(q, t);
    assert ShiftDown(f, e, 8 * q + t) == ShiftDown(f, e + 1, 4 * q + Jam(t));
    assert ShiftDown(f, e + 1, 4 * q + Jam(t)) == ShiftDown(f, e + 2, Jam(4 * q + Jam(t)));
  }

  lemma {:induction false} NormTwice(f: Format, mode: Mode, sign: bool, e: int, q: nat, t: nat)
    requires f.Valid() && e <= -2 && q < 2 * f.One() && t < 8 && 8 * q + t > 0
    ensures var (e', s) := ShiftDown(f, e + 2, 2 * q + if t == 0 then 0 else 1);
      Norm(f, mode, sign, e, 8 * q + t) == Finish(f, mode, sign, e', s)
  {
    DownTwice(f, e, q, t);
    assert ShiftUp(f, e, 8 * q + t) == (e, 8 * q + t) && Adjust(f, e, 8 * q + t) == e;
  }

  lemma {:induction false} NormOnce(f: Format, mode: Mode, sign: bool, q: nat, t: nat)
    requires f.Valid() && q < 2 * f.One() && t < 8 && 8 * q + t > 0
    ensures Norm(f, mode, sign, -1, 8 * q + t) == Finish(f, mode, sign, 0, 4 * q + Jam(t))
  {
    JamTwice(q, t);
    assert ShiftUp(f, -1, 8 * q + t) == (-1, 8 * q + t) && Adjust(f, -1, 8 * q + t) == -1;
    assert ShiftDown(f, -1, 8 * q + t) == ShiftDown(f, 0, 4 * q + Jam(t)) == (0, 4 * q + Jam(t));
  }

  /** Right shifts only keep whether there were any rounding bits. */
  lemma {:induction false} NormLowered(f: Format, mode: Mode, sign: bool, e: int, q: nat, t: nat, t': nat)
    requires f.Valid() && e <= -1 && q < 2 * f.One() && t < 8 && t' < 8 && (t == 0 <==> t' == 0)
    requires mode == Nearest || mode == Zero
    ensures Norm(f, mode, sign, e, 8 * q + t).0 == Norm(f, mode, sign, e, 8 * q + t').0
  {
    if t > 0 {
      if e == -1 {
        NormLoweredOnce(f, mode, sign, q, t);
        NormLoweredOnce(f, mode, sign, q, t');
      } else {
        NormTwice(f, mode, sign, e, q, t);
        NormTwice(f, mode, sign, e, q, t');
      }
    }
  }

  lemma {:induction false} NormLoweredOnce(f: Format, mode: Mode, sign: bool, q: nat, t: nat)
    requires f.Valid() && q < 2 * f.One() && 0 < t < 8 && (mode == Nearest || mode == Zero)
    ensures Norm(f, mode, sign, -1, 8 * q + t).0
         == Pack(f, sign, q / 2 + (if mode == Nearest && q % 2 == 1 then 1 else 0), 1)
  {
    NormOnce(f, mode, sign, q, t);
    JamSmall(t);
    FinishLowered(f, mode, sign, q, Jam(t));
  }

  lemma {:induction false} JamSmall(t: nat)
    requires t < 8
    ensures Jam(t) < 4 && (Jam(t) == 0 <==> t == 0)
  {
  }

  lemma {:induction false} JamTwice(q: nat, t: nat)
    requires t < 8
    ensures Jam(8 * q + t) == 4 * q + Jam(t) && Jam(t) < 4 && (Jam(t) == 0 <==> t == 0)
    ensures Jam(4 * q + Jam(t)) == 2 * q + if t == 0 then 0 else 1
  {
    JamOfSum(q, t);
    DivMod2(4 * q + Jam(t), 2 * q + Jam(t) / 2, Jam(t) % 2);
    DivMod4(4 * q + Jam(t), q, Jam(t));
  }

  lemma {:induction false} FinishLowered(f: Format, mode: Mode, sign: bool, q: nat, t: nat)
    requires f.Valid() && q < 2 * f.One() && t < 4 && (mode == Nearest || mode == Zero)
    ensures Finish(f, mode, sign, 0, 4 * q + t).0 == Pack(f, sign,
      q / 2 + (if mode == Nearest && q % 2 == 1 && (t > 0 || q / 2 % 2 == 1) then 1 else 0), 1)
  {
    DivMod8(4 * q + t, q / 2, q % 2 * 4 + t);
    OneIsEven(f);
    FinishPacks(f, mode, sign, 0, 4 * q + t);
  }

  // ---- At most one left shift ----

  /** At most one left shift is made of a quotient q at exponent e. */
  predicate FewShifts(f: Format, e: int, q: nat) { e <= 2 || f.One() <= 2 * q }

  /** The truncated divisors make the loop round up a quotient q with remainder r, at
      exponent e, that lies below the middle: half of an odd divisor was rounded down to
      the remainder, or half and a quarter of it were. */
  predicate Misrounded(f: Format, e: int, q: nat, r: nat, d: nat) {
    if e > 1 && q < f.One() then
      e - 1 <= f.MaxExpo() && d / 2 + d / 4 <= r && 4 * r < 3 * d
    else
      1 <= e <= f.MaxExpo() && q % 2 == 1 && d / 2 <= r && 2 * r < d
  }

  /** In ZERO only a quotient that is shifted left can be too large. */
  predicate Mistruncated(f: Format, e: int, q: nat, r: nat, d: nat) {
    e > 1 && q < f.One() && e - 1 <= f.MaxExpo() && d / 2 <= r && 2 * r < d
  }

  predicate FailingFew(f: Format, mode: Mode, e: int, q: nat, r: nat, d: nat) {
    if mode == Nearest then Misrounded(f, e, q, r, d) else Mistruncated(f, e, q, r, d)
  }

  /** The loop's rounding bits t and the true ones t' lead to different results exactly in the
      failing cases. */
  lemma {:induction false} TailDecides(f: Format, mode: Mode, sign: bool, e: int, q: nat, r: nat, d: nat, t: nat,
        t': nat)
    requires f.Valid() && q < 2 * f.One() && FewShifts(f, e, q) && 8 <= d && r < d && (mode == Nearest || mode == Zero)
    requires LoopBits(t, r, d) && ExactBits(t', r, d)
    ensures Norm(f, mode, sign, Lowered(e), 8 * q + t).0 == Norm(f, mode, sign, Lowered(e), 8 * q + t').0
       <==> !FailingFew(f, mode, e, q, r, d)
  {
    if r == 0 {
      assert t == t' == 0 && !FailingFew(f, mode, e, q, r, d);
    } else if e <= 0 {
      NormLowered(f, mode, sign, e - 1, q, t, t');
    } else if e > 1 && q < f.One() {
      ShiftedDecides(f, mode, sign, e, q, r, d, t, t');
    } else {
      UnshiftedDecides(f, mode, sign, e, q, r, d, t, t');
    }
  }

  lemma {:induction false} ShiftedDecides(f: Format, mode: Mode, sign: bool, e: int, q: nat, r: nat, d: nat, t: nat,
        t': nat)
    requires f.Valid() && e > 1 && q < f.One() && FewShifts(f, e, q) && 8 <= d && r < d && 0 < t < 8 && 0 < t' < 8
    requires mode == Nearest || mode == Zero
    requires (t >= 4 <==> r >= d / 2) && (t >= 6 <==> r >= d / 2 + d / 4) && (t >= 3 <==> r > d / 4)
    requires (t' >= 4 <==> 2 * r >= d) && (t' >= 6 <==> 4 * r >= 3 * d) && (t' >= 3 <==> 4 * r > d)
    ensures Norm(f, mode, sign, e, 8 * q + t).0 == Norm(f, mode, sign, e, 8 * q + t').0
       <==> !FailingFew(f, mode, e, q, r, d)
  {
    NormShifted(f, mode, sign, e, q, t);
    NormShifted(f, mode, sign, e, q, t');
    assert Doubled(mode, q, t) == Doubled(mode, q, t') + (if DoubledApart(mode, r, d) then 1 else 0);
    if DoubledApart(mode, r, d) { PackStep(f, sign, Doubled(mode, q, t'), e - 1); }
  }

  predicate DoubledApart(mode: Mode, r: nat, d: nat) {
    if mode == Nearest then d / 2 + d / 4 <= r && 4 * r < 3 * d else d / 2 <= r && 2 * r < d
  }

  lemma {:induction false} UnshiftedDecides(f: Format, mode: Mode, sign: bool, e: int, q: nat, r: nat, d: nat, t: nat,
        t': nat)
    requires f.Valid() && e >= 1 && q < 2 * f.One() && (q >= f.One() || e == 1)
    requires 8 <= d && r < d && 0 < t < 8 && 0 < t' < 8 && (mode == Nearest || mode == Zero)
    requires (t > 4 <==> r > d / 2) && (t == 4 <==> r == d / 2)
    requires (t' > 4 <==> 2 * r > d) && (t' == 4 <==> 2 * r == d)
    ensures Norm(f, mode, sign, e, 8 * q + t).0 == Norm(f, mode, sign, e, 8 * q + t').0
       <==> !FailingFew(f, mode, e, q, r, d)
  {
    NormUnshifted(f, mode, sign, e, q, t);
    NormUnshifted(f, mode, sign, e, q, t');
    PackStep(f, sign, q, e);
  }

  lemma {:induction false} TrueDelivers(f: Format, mode: Mode, sign: bool, e: int, q: nat, t: nat, num: nat, den: nat)
    requires f.Valid() && q < 2 * f.One() && FewShifts(f, e, q) && den > 0 && t < 8 && (mode == Nearest || mode == Zero)
    requires Encodes(Lowered(e), 8 * q + t, num, den)
    ensures var (x, res) := Norm(f, mode, sign, Lowered(e), 8 * q + t); Delivers(f, mode, sign, num, den, x, res)
  {
    QuotientRoomy(f, Lowered(e), 8 * q + t);
    if 8 * q + t > 0 {
      NormDelivers(f, mode, sign, Lowered(e), 8 * q + t, num, den);
    } else {
      ZeroDelivered(f, mode, sign, Lowered(e), num, den);
    }
  }

  lemma {:induction false} FewExactly(f: Format, mode: Mode, sign: bool, e: int, q: nat, r: nat, d: nat, t: nat,
        t': nat, num: nat, den: nat, x: Fp)
    requires f.Valid() && q < 2 * f.One() && FewShifts(f, e, q) && 8 <= d && r < d && den > 0
    requires (mode == Nearest || mode == Zero) && LoopBits(t, r, d) && ExactBits(t', r, d)
    requires Encodes(Lowered(e), 8 * q + t', num, den) && x == Norm(f, mode, sign, Lowered(e), 8 * q + t).0
    ensures Correct(f, mode, x, num, den) <==> !FailingFew(f, mode, e, q, r, d)
  {
    TrueDelivers(f, mode, sign, e, q, t', num, den);
    TailDecides(f, mode, sign, e, q, r, d, t, t');
    NormSign(f, mode, sign, Lowered(e), 8 * q + t);
    CorrectExactly(f, mode, x, Norm(f, mode, sign, Lowered(e), 8 * q + t').0, num, den);
  }

  // ---- INEXACT after at most one left shift ----

  /** INEXACT is wrong after one left shift for a quotient just below the middle, where half of
      an odd divisor was rounded down to the remainder. */
  predicate MisreportedFew(f: Format, e: int, q: nat, r: nat, d: nat) {
    e > 1 && q < f.One() && e - 1 <= f.MaxExpo() && d % 2 == 1 && r == d / 2
  }

  lemma {:induction false} NormFlag(f: Format, mode: Mode, sign: bool, e: nat, s: nat)
    requires f.Valid() && e >= 1 && 0 < s < 2 * Lead(f) && (s >= Lead(f) || e == 1) && (mode == Nearest || mode == Zero)
    ensures var (x, res) := Norm(f, mode, sign, e, s); Inexact in res <==> x.expo <= f.MaxExpo() && s % 8 != 0
  {
    OneIsEven(f);
    var e' := if s < Lead(f) then 0 else e;
    assert ShiftUp(f, e, s) == (e, s) && ShiftDown(f, e', s) == (e', s);
    FinishPacks(f, mode, sign, e', s);
  }

  lemma {:induction false} ShiftedBits(f: Format, q: nat, t: nat) returns (s: nat)
    requires f.Valid() && q < f.One() && t < 8
    ensures s == 2 * (8 * q + t) + (8 * q + t) % 2 && s < 2 * Lead(f) && (s >= Lead(f) <== f.One() <= 2 * q)
    ensures s % 8 == 0 <==> t == 0 || t == 4
  {
    DivMod2(8 * q + t, 4 * q + t / 2, t % 2);
    s := 2 * (8 * q + t) + t % 2;
    DivMod8(s, 2 * q + t / 4, 2 * (t % 4) + t % 2);
  }

  lemma {:induction false} ShiftedFlag(f: Format, mode: Mode, sign: bool, e: nat, q: nat, t: nat, x: Fp, res: set<Flag>)
    requires f.Valid() && e >= 2 && q < f.One() && FewShifts(f, e, q) && 0 < t < 8
    requires (mode == Nearest || mode == Zero) && (x, res) == Norm(f, mode, sign, e, 8 * q + t)
    ensures Inexact in res <==> x.expo <= f.MaxExpo() && t != 4
  {
    var s := ShiftedBits(f, q, t);
    ShiftedNorm(f, mode, sign, e, 8 * q + t);
    NormFlagOf(f, mode, sign, e - 1, s, x, res);
  }

  lemma {:induction false} NormFlagOf(f: Format, mode: Mode, sign: bool, e: nat, s: nat, x: Fp, res: set<Flag>)
    requires f.Valid() && e >= 1 && 0 < s < 2 * Lead(f) && (s >= Lead(f) || e == 1) && (mode == Nearest || mode == Zero)
    requires (x, res) == Norm(f, mode, sign, e, s)
    ensures Inexact in res <==> x.expo <= f.MaxExpo() && s % 8 != 0
  {
    NormFlag(f, mode, sign, e, s);
  }

  lemma {:induction false} ShiftedNorm(f: Format, mode: Mode, sign: bool, e: nat, s: nat)
    requires e >= 2 && 0 < s < Lead(f)
    ensures Norm(f, mode, sign, e, s) == Norm(f, mode, sign, e - 1, 2 * s + s % 2)
  {
    assert ShiftUp(f, e, s) == ShiftUp(f, e - 1, 2 * s + s % 2);
  }

  lemma {:induction false} LoweredFlag(f: Format, mode: Mode, sign: bool, e: int, q: nat, t: nat)
    requires f.Valid() && e <= -1 && q < 2 * f.One() && 0 < t < 8 && (mode == Nearest || mode == Zero)
    ensures var (x, res) := Norm(f, mode, sign, e, 8 * q + t); Inexact in res <==> x.expo <= f.MaxExpo()
  {
    hide Finish, ShiftDown;
    if e == -1 {
      NormOnce(f, mode, sign, q, t);
      var s := LoweredBits(q, t);
      StickyFinish(f, mode, sign, s, Jam(t));
    } else {
      NormTwice(f, mode, sign, e, q, t);
      OddDown(f, e + 2, 2 * q + 1);
      StickyFinish(f, mode, sign, ShiftDown(f, e + 2, 2 * q + 1).1, 1);
    }
  }

  lemma {:induction false} LoweredBits(q: nat, t: nat) returns (s: nat)
    requires 0 < t < 8
    ensures s == 4 * q + Jam(t) && s % 4 == Jam(t) && 0 < Jam(t) < 4
  {
    JamSmall(t);
    s := 4 * q + Jam(t);
    DivMod4(s, q, Jam(t));
  }

  lemma {:induction false} StickyFinish(f: Format, mode: Mode, sign: bool, s: nat, t: nat)
    requires f.Valid() && s < 8 * f.One() && 0 < t < 4 && (s % 2 == 1 || s % 4 == t)
             && (mode == Nearest || mode == Zero)
    ensures var (x, res) := Finish(f, mode, sign, 0, s); Inexact in res <==> x.expo <= f.MaxExpo()
  {
    OneIsEven(f);
    FinishPacks(f, mode, sign, 0, s);
  }

  /** A sticky bit stays. */
  lemma {:induction false} OddDown(f: Format, e: int, s: nat)
    requires f.Valid() && e <= 0 && s % 2 == 1 && s < Lead(f)
    ensures var (e', s') := ShiftDown(f, e, s); e' == 0 && s' % 2 == 1 && s' <= s
    decreases -e
  {
    if e < 0 { OddDown(f, e + 1, Jam(s)); }
  }

  /** A quotient with a remainder is no multiple of the last place, and of half of it only if
      twice the remainder is the divisor. */
  lemma {:induction false} NoMultiple(m: nat, q: nat, r: nat, d: nat)
    requires 0 < r < d
    ensures Mul(m, d) != Mul(q, d) + r
    ensures Mul(m, d) == 2 * (Mul(q, d) + r) <==> 2 * r == d && m == 2 * q + 1
  {
    QuotientDiffers(m, q, r, d);
    MulTwo(q, d);
    MulAdd(2 * q, 1, d);
    MulOne(d);
    if 2 * r < d {
      QuotientDiffers(m, 2 * q, 2 * r, d);
    } else if 2 * r > d {
      QuotientDiffers(m, 2 * q + 1, 2 * r - d, d);
    } else {
      MulOrder(m, 2 * q + 1, d);
    }
  }

  lemma {:induction false} QuotientDiffers(m: nat, q: nat, r: nat, d: nat)
    requires 0 < r < d
    ensures Mul(m, d) != Mul(q, d) + r
  {
    if m <= q {
      MulLe(m, q, d);
    } else {
      MulLt(q, m, d);
    }
  }

  /** Whether a delivered significand m at exponent e is the quotient of n and d. */
  lemma {:induction false} PackedQuotient(f: Format, sign: bool, m: nat, e: nat, n: nat, d: nat, c: nat, num: nat,
        den: nat)
    requires f.Valid() && e >= 1 && m <= 2 * f.One() && (m < f.One() ==> e == 1) && c > 0
    requires num == Mul(n, c) && Mul(Pow2(e - 1), den) == Mul(d, c) && Pack(f, sign, m, e).expo <= f.MaxExpo()
    ensures Mul(Units(f, Pack(f, sign, m, e)), den) == num <==> Mul(m, d) == n
  {
    PackUnits(f, sign, m, e);
    MulAssoc(m, Pow2(e - 1), den);
    MulAssoc(m, d, c);
    MulOrder(Mul(m, d), n, c);
  }

  lemma {:induction false} UnshiftedReports(f: Format, mode: Mode, sign: bool, e: nat, q: nat, r: nat, d: nat, t: nat,
                                            c: nat, num: nat, den: nat, x: Fp, res: set<Flag>)
    requires f.Valid() && e >= 1 && q < 2 * f.One() && (q >= f.One() || e == 1) && 0 < t < 8 && 0 < r < d && c > 0
    requires (mode == Nearest || mode == Zero) && (x, res) == Norm(f, mode, sign, e, 8 * q + t)
    requires num == Mul(Mul(q, d) + r, c) && Mul(Weight(e), den) == Mul(d, c)
    ensures ReportsInexact(f, num, den, x, res)
  {
    var m := Whole(mode, q, t);
    NormUnshifted(f, mode, sign, e, q, t);
    UnshiftedFlag(f, mode, sign, e, q, t);
    QuotientDiffers(m, q, r, d);
    if x.expo <= f.MaxExpo() { PackedQuotient(f, sign, m, e, Mul(q, d) + r, d, c, num, den); }
  }

  lemma {:induction false} UnshiftedFlag(f: Format, mode: Mode, sign: bool, e: nat, q: nat, t: nat)
    requires f.Valid() && e >= 1 && q < 2 * f.One() && (q >= f.One() || e == 1) && 0 < t < 8
    requires mode == Nearest || mode == Zero
    ensures var (x, res) := Norm(f, mode, sign, e, 8 * q + t); Inexact in res <==> x.expo <= f.MaxExpo()
  {
    DivMod8(8 * q + t, q, t);
    NormFlag(f, mode, sign, e, 8 * q + t);
  }

  lemma {:induction false} ShiftedReports(f: Format, mode: Mode, sign: bool, e: nat, q: nat, r: nat, d: nat, t: nat,
                                          c: nat, num: nat, den: nat, x: Fp, res: set<Flag>)
    requires f.Valid() && e >= 2 && q < f.One() && FewShifts(f, e, q) && 0 < t < 8 && 0 < r < d && c > 0
    requires t == 4 <==> r == d / 2
    requires (mode == Nearest || mode == Zero) && (x, res) == Norm(f, mode, sign, e, 8 * q + t)
    requires num == Mul(Mul(q, d) + r, c) && Mul(Weight(e), den) == Mul(d, c)
    ensures ReportsInexact(f, num, den, x, res) <==> !(e - 1 <= f.MaxExpo() && d % 2 == 1 && r == d / 2)
  {
    var m, n := Doubled(mode, q, t), Mul(q, d) + r;
    NormShifted(f, mode, sign, e, q, t);
    ShiftedFlag(f, mode, sign, e, q, t, x, res);
    NoMultiple(m, q, r, d);
    MulTwo(n, c);
    MulTwo(Pow2(e - 2), den);
    DoublePlace(f, sign, e, m, n, d, c, num, den);
    PackRange(f, sign, m, e - 1, q, t, mode);
  }

  lemma {:induction false} DoublePlace(f: Format, sign: bool, e: nat, m: nat, n: nat, d: nat, c: nat, num: nat,
        den: nat)
    requires f.Valid() && e >= 2 && m <= 2 * f.One() && (m < f.One() ==> e == 2) && c > 0
    requires num == Mul(n, c) && Mul(Weight(e), den) == Mul(d, c)
    ensures var x := Pack(f, sign, m, e - 1);
            x.expo <= f.MaxExpo() ==> (Mul(Units(f, x), den) == num <==> Mul(m, d) == 2 * n)
  {
    MulTwo(n, c);
    MulTwo(Pow2(e - 2), den);
    MulTwo(Pow2(e - 2), 2 * den);
    if Pack(f, sign, m, e - 1).expo <= f.MaxExpo() {
      PackedQuotient(f, sign, m, e - 1, 2 * n, d, c, 2 * num, 2 * den);
      MulTwo(Units(f, Pack(f, sign, m, e - 1)), den);
    }
  }

  /** With rounding bits 4 the delivered significand has no carry. */
  lemma {:induction false} PackRange(f: Format, sign: bool, m: nat, e: nat, q: nat, t: nat, mode: Mode)
    requires f.Valid() && q < f.One() && m == Doubled(mode, q, t) && e >= 1 && (mode == Nearest || mode == Zero)
    requires f.One() <= 2 * q || e == 1
    ensures t == 4 ==> m == 2 * q + 1 && (Pack(f, sign, m, e).expo <= f.MaxExpo() <==> e <= f.MaxExpo())
  {
  }

  lemma {:induction false} FewReports(f: Format, mode: Mode, sign: bool, e: int, q: nat, r: nat, d: nat, t: nat,
        t': nat, c: nat, num: nat, den: nat, x: Fp, res: set<Flag>)
    requires f.Valid() && q < 2 * f.One() && FewShifts(f, e, q) && 8 <= d && r < d && den > 0 && c > 0
    requires (mode == Nearest || mode == Zero) && LoopBits(t, r, d) && ExactBits(t', r, d)
    requires Encodes(Lowered(e), 8 * q + t', num, den) && (x, res) == Norm(f, mode, sign, Lowered(e), 8 * q + t)
    requires e >= 1 ==> num == Mul(Mul(q, d) + r, c) && Mul(Weight(e), den) == Mul(d, c)
    ensures ReportsInexact(f, num, den, x, res) <==> !MisreportedFew(f, e, q, r, d)
  {
    if r == 0 {
      TrueDelivers(f, mode, sign, e, q, t', num, den);
    } else if e <= 0 {
      LowReports(f, mode, sign, e, q, t, t', num, den, x, res);
    } else if e > 1 && q < f.One() {
      ShiftedReports(f, mode, sign, e, q, r, d, t, c, num, den, x, res);
    } else {
      UnshiftedReports(f, mode, sign, e, q, r, d, t, c, num, den, x, res);
    }
  }

  lemma {:induction false} LowReports(f: Format, mode: Mode, sign: bool, e: int, q: nat, t: nat, t': nat,
                                      num: nat, den: nat, x: Fp, res: set<Flag>)
    requires f.Valid() && q < 2 * f.One() && e <= 0 && den > 0 && 0 < t < 8 && 0 < t' < 8
             && (mode == Nearest || mode == Zero)
    requires Encodes(Lowered(e), 8 * q + t', num, den) && (x, res) == Norm(f, mode, sign, Lowered(e), 8 * q + t)
    ensures ReportsInexact(f, num, den, x, res)
  {
    TrueDelivers(f, mode, sign, e, q, t', num, den);
    NormLowered(f, mode, sign, e - 1, q, t, t');
    LoweredFlag(f, mode, sign, e - 1, q, t);
    LoweredFlag(f, mode, sign, e - 1, q, t');
  }

  // ---- More left shifts ----

  /** After two or more left shifts, as only a denormalized dividend needs, what counts is how
      far the quotient n / 8d is from the filled register s. */
  predicate FarFromFilled(f: Format, mode: Mode, e: int, s: nat, n: nat, d: nat) {
    !NearFilled(mode, s, LeftShiftCount(f, e, s), n, d)
  }

  /** INEXACT is wrong if the register has a sticky bit and delivers the quotient all the same, or
      has none and does not. */
  predicate MisreportedMany(f: Format, mode: Mode, e: int, s: nat, n: nat, d: nat) {
    (s % 2 == 0) != FilledExact(mode, s, LeftShiftCount(f, e, s), n, d)
  }

  /** A multiple of a power of two by an odd number is no power of two unless the number is one. */
  lemma {:induction false} OddFactor(j: nat, i: nat, n: nat)
    requires Mul(2 * j + 1, Pow2(i)) == Pow2(n)
    ensures j == 0
  {
    MulPositive(2 * j + 1, Pow2(i));
    if n < i {
      Pow2Mono(n, i);
    } else {
      Pow2Add(n - i, i);
      MulOrder(2 * j + 1, Pow2(n - i), Pow2(i));
    }
  }

  /** Rounding bits that are even and not zero make a power of two only with a zero quotient. */
  lemma {:induction false} PowerRegister(q: nat, t: nat, k: nat, n: nat)
    requires t == 2 || t == 4 || t == 6
    requires Mul(8 * q + t, Pow2(k)) == Pow2(n)
    ensures q == 0 && t != 6
  {
    MulTwo(4 * q + t / 2, Pow2(k));
    if t == 4 {
      MulTwo(2 * q + 1, Pow2(k + 1));
      OddFactor(q, k + 2, n);
    } else {
      OddFactor(2 * q + t / 4, k + 1, n);
    }
  }

  /** An odd register is filled up to at least the quotient. */
  lemma {:induction false} OddTail(q: nat, r: nat, d: nat, t: nat)
    requires d >= 8 && r < d && t % 2 == 1 && LoopBits(t, r, d)
    ensures 8 * (Mul(q, d) + r) <= Mul(8 * q + t + 1, d)
  {
    SmallMultiples(d);
    MulAdd(8 * q, t + 1, d);
    MulEight(q, d);
  }

  /** The quotient can be compared with the neighbours of what is delivered. */
  lemma {:induction false} TailFilled(f: Format, q: nat, r: nat, d: nat, t: nat, k: nat)
    requires f.Valid() && 8 <= d < 2 * f.One() && r < d && (q == 0 ==> r == 0 || r >= f.One()) && LoopBits(t, r, d)
    ensures var s, n := 8 * q + t, 8 * (Mul(q, d) + r);
      && (s % 2 == 1 ==> n <= Mul(s + 1, d))
      && (s % 2 == 0 && Mul(s, Pow2(k)) == Lead(f) ==> n >= Mul(s, d))
  {
    var s := 8 * q + t;
    DivMod2(s, 4 * q + t / 2, t % 2);
    LeadIsPow2(f);
    if t % 2 == 1 {
      OddTail(q, r, d, t);
    } else if Mul(s, Pow2(k)) == Lead(f) {
      if t != 0 { PowerRegister(q, t, k, f.P() + 3); }
      MulEight(q, d);
    }
  }

  lemma {:induction false} FilledQuotient(f: Format, mode: Mode, sign: bool, e: int, s: nat, k: nat, n: nat, d: nat,
        c: nat, num: nat, den: nat, x: Fp, res: set<Flag>)
    requires f.Valid() && den > 0 && s > 0 && 2 < e < f.MaxExpo() && 2 * s < Lead(f) && c > 0
             && (mode == Nearest || mode == Zero)
    requires (x, res) == Norm(f, mode, sign, e, s) && x.expo <= f.MaxExpo() && k == LeftShiftCount(f, e, s)
    requires num == Mul(n, c) && Mul(Weight(e), den) == Mul(d, c)
    requires s % 2 == 1 ==> 8 * n <= Mul(s + 1, d)
    requires s % 2 == 0 && Mul(s, Pow2(k)) == Lead(f) ==> 8 * n >= Mul(s, d)
    ensures Correct(f, mode, x, num, den) <==> NearFilled(mode, s, k, 8 * n, d)
    ensures ReportsInexact(f, num, den, x, res) <==> (s % 2 == 0 <==> FilledExact(mode, s, k, 8 * n, d))
  {
    MulEight(n, c);
    MulAssoc(Filled(s), d, c);
    if s % 2 == 1 {
      MulLe(8 * n, Mul(s + 1, d), c);
    } else if Mul(s, Pow2(k)) == Lead(f) {
      MulLe(Mul(s, d), 8 * n, c);
    }
    FilledScale(mode, s, k, 8 * n, d, c);
    FilledExactly(f, mode, sign, e, s, num, den);
  }

  lemma {:induction false} ManyShifts(f: Format, mode: Mode, sign: bool, e: int, q: nat, r: nat, d: nat, t: nat,
                                      c: nat, num: nat, den: nat, x: Fp, res: set<Flag>)
    requires f.Valid() && 2 * q < f.One() && 2 < e < f.MaxExpo() && 8 <= d < 2 * f.One() && r < d && den > 0 && c > 0
    requires (q == 0 ==> r == 0 || r >= f.One()) && LoopBits(t, r, d) && 8 * q + t > 0
             && (mode == Nearest || mode == Zero)
    requires (x, res) == Norm(f, mode, sign, e, 8 * q + t)
    requires num == Mul(Mul(q, d) + r, c) && Mul(Weight(e), den) == Mul(d, c)
    ensures Correct(f, mode, x, num, den) <==> !FarFromFilled(f, mode, e, 8 * q + t, 8 * (Mul(q, d) + r), d)
    ensures ReportsInexact(f, num, den, x, res) <==> !MisreportedMany(f, mode, e, 8 * q + t, 8 * (Mul(q, d) + r), d)
  {
    hide NearFilled, FilledExact, Correct, ReportsInexact, Norm, LeftShiftCount;
    var s := 8 * q + t;
    OneIsEven(f);
    ManyFinite(f, mode, sign, e, s);
    TailFilled(f, q, r, d, t, LeftShiftCount(f, e, s));
    FilledQuotient(f, mode, sign, e, s, LeftShiftCount(f, e, s), Mul(q, d) + r, d, c, num, den, x, res);
  }

  lemma {:induction false} ManyFinite(f: Format, mode: Mode, sign: bool, e: int, s: nat)
    requires f.Valid() && s > 0 && 2 < e < f.MaxExpo() && 2 * s < Lead(f) && (mode == Nearest || mode == Zero)
    ensures Norm(f, mode, sign, e, s).0.expo <= f.MaxExpo()
  {
    var k, m := FilledPacks(f, mode, sign, e, s);
  }

  lemma {:induction false} ZeroNearFilled(f: Format, mode: Mode, e: int, d: nat)
    requires d >= 8
    ensures !FarFromFilled(f, mode, e, 0, 0, d) && !MisreportedMany(f, mode, e, 0, 0, d)
  {
    MulOne(d);
    MulOne(Pow2(LeftShiftCount(f, e, 0)));
  }

  // ---- All quotients ----

  /** A quotient q with remainder r at exponent e is delivered wrong. */
  predicate Failing(f: Format, mode: Mode, e: int, q: nat, r: nat, d: nat) {
    if FewShifts(f, e, q) then FailingFew(f, mode, e, q, r, d)
    else FarFromFilled(f, mode, e, 8 * q + TailBits(r, d), 8 * (Mul(q, d) + r), d)
  }

  /** Its INEXACT flag is wrong. */
  predicate Misreported(f: Format, mode: Mode, e: int, q: nat, r: nat, d: nat) {
    if FewShifts(f, e, q) then MisreportedFew(f, e, q, r, d)
    else MisreportedMany(f, mode, e, 8 * q + TailBits(r, d), 8 * (Mul(q, d) + r), d)
  }

  lemma {:induction false} FewQuotient(f: Format, mode: Mode, sign: bool, e: int, q: nat, r: nat, d: nat, c: nat,
                                       num: nat, den: nat, x: Fp, res: set<Flag>, failing: bool, misreported: bool)
    requires f.Valid() && q < 2 * f.One() && FewShifts(f, e, q) && 8 <= d && r < d && den > 0 && c > 0
    requires (mode == Nearest || mode == Zero) && (x, res) == Norm(f, mode, sign, Lowered(e), 8 * q + TailBits(r, d))
    requires Encodes(Lowered(e), 8 * q + TrueBits(r, d), num, den)
    requires e >= 1 ==> num == Mul(Mul(q, d) + r, c) && Mul(Weight(e), den) == Mul(d, c)
    requires failing == FailingFew(f, mode, e, q, r, d) && misreported == MisreportedFew(f, e, q, r, d)
    ensures Correct(f, mode, x, num, den) <==> !failing
    ensures ReportsInexact(f, num, den, x, res) <==> !misreported
  {
    var t, t' := TailBits(r, d), TrueBits(r, d);
    TailCompare(r, d);
    TrueCompare(r, d);
    FewExactly(f, mode, sign, e, q, r, d, t, t', num, den, x);
    FewReports(f, mode, sign, e, q, r, d, t, t', c, num, den, x, res);
  }

  lemma {:induction false} ManyQuotient(f: Format, mode: Mode, sign: bool, e: int, q: nat, r: nat, d: nat, c: nat,
                                        num: nat, den: nat, x: Fp, res: set<Flag>, s: nat, n: nat)
    requires f.Valid() && 2 * q < f.One() && 2 < e < f.MaxExpo() && 8 <= d < 2 * f.One() && r < d && den > 0 && c > 0
    requires (q == 0 ==> r == 0 || r >= f.One()) && (mode == Nearest || mode == Zero)
    requires s == 8 * q + TailBits(r, d) && n == 8 * (Mul(q, d) + r) && (x, res) == Norm(f, mode, sign, e, s)
    requires Encodes(e, 8 * q + TrueBits(r, d), num, den)
    requires num == Mul(Mul(q, d) + r, c) && Mul(Weight(e), den) == Mul(d, c)
    ensures Correct(f, mode, x, num, den) <==> !FarFromFilled(f, mode, e, s, n, d)
    ensures ReportsInexact(f, num, den, x, res) <==> !MisreportedMany(f, mode, e, s, n, d)
  {
    TailCompare(r, d);
    if s == 0 {
      MulOne(d);
      ZeroDelivered(f, mode, sign, e, num, den);
      ZeroNearFilled(f, mode, e, d);
    } else {
      ManyShifts(f, mode, sign, e, q, r, d, TailBits(r, d), c, num, den, x, res);
    }
  }

  lemma {:induction false} LoopRegister(f: Format, a: Fp, b: Fp, q: nat, r: nat)
    requires f.Valid() && a.coeff < f.One() && !Ieee754.IsZero(b) && b.coeff < f.One()
    requires Mul(Sig(f, a), f.One()) == Mul(q, DivisorSig(f, b)) + r && r < DivisorSig(f, b)
    ensures DivRegister(f, a, b) == 8 * q + TailBits(r, DivisorSig(f, b)) && q < 2 * f.One() && DivisorSig(f, b) >= 8
    ensures a.expo > 0 ==> FewShifts(f, DivExpo(f, a, b), q)
  {
    var q', r' := RegisterOfQuotient(f, a, b);
    QuotientUnique(q, r, q', r', DivisorSig(f, b));
    OneIsEven(f);
    if a.expo > 0 { QuotientHalf(f, Sig(f, a), q, r, DivisorSig(f, b)); }
  }

  lemma {:induction false} QuotientUnique(q: nat, r: nat, q': nat, r': nat, d: nat)
    requires Mul(q, d) + r == Mul(q', d) + r' && r < d && r' < d
    ensures q == q' && r == r'
  {
    if q < q' { MulLt(q, q', d); }
    if q' < q { MulLt(q', q, d); }
  }

  /** A denormalized dividend makes a quotient that does not overflow. */
  lemma {:induction false} SmallDividend(f: Format, a: Fp, b: Fp, q: nat, r: nat)
    requires f.Valid() && a.coeff < f.One() && b.coeff < f.One() && !Ieee754.IsZero(b)
    requires Mul(Sig(f, a), f.One()) == Mul(q, DivisorSig(f, b)) + r && r < DivisorSig(f, b) && 2 * q < f.One()
    ensures a.expo == 0 && DivExpo(f, a, b) < f.MaxExpo() && (q == 0 ==> r == 0 || r >= f.One())
  {
    DivisorNormal(f, b);
    if a.expo > 0 { QuotientHalf(f, Sig(f, a), q, r, DivisorSig(f, b)); }
    if b.expo == 0 {
      MulLe(1, b.coeff, Pow2(DivisorShift(f, b)));
      MulOne(Pow2(DivisorShift(f, b)));
      if DivisorShift(f, b) > f.P() { Pow2Mono(f.P() + 1, DivisorShift(f, b)); }
    }
    if a.coeff > 0 {
      MulPositive(a.coeff, f.One());
    } else {
      MulOne(f.One());
    }
  }

  /** The quotient in units and in multiples of the divisor significand. */
  lemma {:induction false} QuotientScales(f: Format, a: Fp, b: Fp)
    requires f.Valid() && !Ieee754.IsZero(b) && b.coeff < f.One() && DivExpo(f, a, b) >= 1
    ensures var c := Pow2(Effective(a.expo) + f.bias - 2);
      && DivNum(f, a) == Mul(Mul(Sig(f, a), f.One()), c)
      && Mul(Weight(DivExpo(f, a, b)), Units(f, b)) == Mul(DivisorSig(f, b), c)
  {
    var i, j, k := Effective(a.expo) - 1, Effective(b.expo) - 1, DivisorShift(f, b);
    var w := i + f.bias - 1;
    DivisorNormal(f, b);
    TwoScales(Sig(f, a), i, f.bias + f.P() - 1);
    TwoScales(Sig(f, a), f.P(), w);
    TwoScales(Sig(f, b), j, i - j + f.bias + k - 1);
    TwoScales(Sig(f, b), k, w);
  }

  lemma {:induction false} LoopCases(f: Format, mode: Mode, sign: bool, e: int, q: nat, r: nat, d: nat, c: nat,
                                     num: nat, den: nat, x: Fp, res: set<Flag>, failing: bool, misreported: bool)
    requires f.Valid() && q < 2 * f.One() && 8 <= d < 2 * f.One() && r < d && den > 0 && c > 0
    requires (mode == Nearest || mode == Zero) && (x, res) == Norm(f, mode, sign, Lowered(e), 8 * q + TailBits(r, d))
    requires Encodes(Lowered(e), 8 * q + TrueBits(r, d), num, den)
    requires e >= 1 ==> num == Mul(Mul(q, d) + r, c) && Mul(Weight(e), den) == Mul(d, c)
    requires !FewShifts(f, e, q) ==> e < f.MaxExpo() && (q == 0 ==> r == 0 || r >= f.One())
    requires failing == Failing(f, mode, e, q, r, d) && misreported == Misreported(f, mode, e, q, r, d)
    ensures Correct(f, mode, x, num, den) <==> !failing
    ensures ReportsInexact(f, num, den, x, res) <==> !misreported
  {
    if FewShifts(f, e, q) {
      FewQuotient(f, mode, sign, e, q, r, d, c, num, den, x, res, failing, misreported);
    } else {
      ManyQuotient(f, mode, sign, e, q, r, d, c, num, den, x, res, 8 * q + TailBits(r, d), 8 * (Mul(q, d) + r));
    }
  }

  /** Everything that the cases above ask of the operands. */
  lemma {:induction false} LoopContext(f: Format, a: Fp, b: Fp, q: nat, r: nat, e: int, d: nat, num: nat, den: nat)
    returns (c: nat)
    requires f.Valid() && Finite(f, a) && Finite(f, b) && !Ieee754.IsZero(b) && e == DivExpo(f, a, b)
             && d == DivisorSig(f, b)
    requires num == DivNum(f, a) && den == Units(f, b) && Mul(Sig(f, a), f.One()) == Mul(q, d) + r && r < d
    ensures DivRegister(f, a, b) == 8 * q + TailBits(r, d) && q < 2 * f.One() && 8 <= d < 2 * f.One() && den > 0
            && c > 0
    ensures Encodes(Lowered(e), 8 * q + TrueBits(r, d), num, den)
    ensures e >= 1 ==> num == Mul(Mul(q, d) + r, c) && Mul(Weight(e), den) == Mul(d, c)
    ensures !FewShifts(f, e, q) ==> e < f.MaxExpo() && (q == 0 ==> r == 0 || r >= f.One())
    ensures a.expo > 0 ==> FewShifts(f, e, q)
  {
    LoopRegister(f, a, b, q, r);
    DivisorNormal(f, b);
    TrueEncoded(f, a, b, q, r);
    c := Pow2(Effective(a.expo) + f.bias - 2);
    if e >= 1 { QuotientScales(f, a, b); }
    if !FewShifts(f, e, q) { SmallDividend(f, a, b, q, r); }
  }

  lemma {:induction false} DivCases(f: Format, mode: Mode, a: Fp, b: Fp, q: nat, r: nat, e: int, d: nat, x: Fp,
        res: set<Flag>, failing: bool, misreported: bool)
    requires f.Valid() && Finite(f, a) && Finite(f, b) && !Ieee754.IsZero(b) && (mode == Nearest || mode == Zero)
    requires e == DivExpo(f, a, b) && d == DivisorSig(f, b) && Mul(Sig(f, a), f.One()) == Mul(q, d) + r && r < d
    requires (x, res) == DivSpec(f, mode, a, b)
    requires failing == Failing(f, mode, e, q, r, d) && misreported == Misreported(f, mode, e, q, r, d)
    ensures Correct(f, mode, x, DivNum(f, a), Units(f, b)) <==> !failing
    ensures ReportsInexact(f, DivNum(f, a), Units(f, b), x, res) <==> !misreported
    ensures a.expo > 0 ==> FewShifts(f, e, q)
  {
    hide Failing, Misreported, Correct, ReportsInexact, Norm, DivisorSig, DivisorShift, Units;
    var c := LoopContext(f, a, b, q, r, e, d, DivNum(f, a), Units(f, b));
    LoopCases(f, mode, a.sign != b.sign, e, q, r, d, c, DivNum(f, a), Units(f, b), x, res, failing, misreported);
  }

  /**
   * For all finite operands with a divisor that is not zero, with the exact quotient q and
   * remainder r of the significands: ar_ifdiv64 delivers the correctly rounded quotient in
   * NEAREST and ZERO in all but the failing cases and never in those, and reports INEXACT
   * correctly in all but the misreported cases and never in those.
   */
  lemma {:induction false} DivExactly(f: Format, mode: Mode, a: Fp, b: Fp, q: nat, r: nat)
    requires f.Valid() && Finite(f, a) && Finite(f, b) && !Ieee754.IsZero(b) && (mode == Nearest || mode == Zero)
    requires Mul(Sig(f, a), f.One()) == Mul(q, DivisorSig(f, b)) + r && r < DivisorSig(f, b)
    ensures var (x, res) := DivSpec(f, mode, a, b); var e, d := DivExpo(f, a, b), DivisorSig(f, b);
      && (Correct(f, mode, x, DivNum(f, a), Units(f, b)) <==> !Failing(f, mode, e, q, r, d))
      && (ReportsInexact(f, DivNum(f, a), Units(f, b), x, res) <==> !Misreported(f, mode, e, q, r, d))
      && (a.expo > 0 ==> FewShifts(f, e, q))
  {
    var (x, res) := DivSpec(f, mode, a, b);
    var e, d := DivExpo(f, a, b), DivisorSig(f, b);
    DivCases(f, mode, a, b, q, r, e, d, x, res, Failing(f, mode, e, q, r, d), Misreported(f, mode, e, q, r, d));
  }

  /** Such divisions exist: the quotient of these two numbers lies below the middle of two
      neighbours and is delivered as the upper one. */
  lemma {:induction false} DivisionFails(a: Fp, b: Fp)
    requires a == Fp(false, 1023, 3752999689475419) && b == Fp(false, 1023, 3)
    ensures !NearestEven(IEEE64, DivSpec(IEEE64, Nearest, a, b).0, DivNum(IEEE64, a), Units(IEEE64, b))
  {
    var q, r := 8256599316845909, 2251799813685249;
    One64();
    MulIs(8256599316845915, 0x10000000000000);
    MulIs(q, 4503599627370499);
    DivExactly(IEEE64, Nearest, a, b, q, r);
  }
}
