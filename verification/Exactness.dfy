/**
 * When ar_i64norm and ar_i32norm round correctly, exactly: the condition on the number that a
 * register stands for, and the registers for which it holds of all such numbers.
 */
module Exactness {
  import opened Powers
  import opened Ieee754
  import opened Normalizer

  /** A result is right exactly if it is the right one. */
  lemma {:induction false} CorrectExactly(f: Format, mode: Mode, x: Fp, x': Fp, num: nat, den: nat)
    requires f.Valid() && den > 0 && (mode == Nearest || mode == Zero)
    requires Correct(f, mode, x', num, den) && x.sign == x'.sign
    ensures Correct(f, mode, x, num, den) <==> x == x'
  {
    if Correct(f, mode, x, num, den) { CorrectUnique(f, mode, x, x', num, den); }
  }

  // ---- The numbers that a packed significand is right for ----

  /** A packed significand is the nearest number if and only if it is the nearest multiple of
      its last place. */
  lemma {:induction false} PackNearestExactly(f: Format, sign: bool, m: nat, e: nat, num: nat, den: nat)
    requires f.Valid() && e >= 1 && den > 0 && 1 <= m <= 2 * f.One() && Pack(f, sign, m, e).expo <= f.MaxExpo()
    requires e > 1 ==> m > f.One() || (m == f.One() && num >= Mul(m, Mul(Pow2(e - 1), den)))
    requires num > Mul(m, Mul(Pow2(e - 1), den)) ==> e < f.MaxExpo() && m < 2 * f.One()
    ensures NearestEven(f, Pack(f, sign, m, e), num, den) <==> NearestMultiple(m, Mul(Pow2(e - 1), den), num)
  {
    var u := Mul(Pow2(e - 1), den);
    if NearestMultiple(m, u, num) {
      if e > 1 { EnoughForBinade(f.One(), m, u, num); }
      PackNearest(f, sign, m, e, num, den);
    } else if num < Mul(m, u) {
      NeighbourCloser(f, sign, m, m - 1, e, num, den);
    } else {
      NeighbourCloser(f, sign, m, m + 1, e, num, den);
    }
  }

  lemma {:induction false} EnoughForBinade(p: nat, m: nat, u: nat, num: nat)
    requires NearestMultiple(m, u, num) && (m > p || (m == p && num >= Mul(m, u)))
    ensures num >= Mul(p, u)
  {
    if m > p {
      MulLe(p + 1, m, u);
      MulAdd(p, 1, u);
      MulOne(u);
    }
  }

  /** A neighbour is nearer, or as near when the delivered significand is odd. */
  lemma {:induction false} NeighbourCloser(f: Format, sign: bool, m: nat, m': nat, e: nat, num: nat, den: nat)
    requires f.Valid() && e >= 1 && den > 0 && m <= 2 * f.One() && m' <= 2 * f.One()
    requires (e > 1 ==> m >= f.One() && m' >= f.One())
    requires m' == (if num < Mul(m, Mul(Pow2(e - 1), den)) then m - 1 else m + 1)
    requires Pack(f, sign, m, e).expo <= f.MaxExpo() && Pack(f, sign, m', e).expo <= f.MaxExpo()
    requires !NearestMultiple(m, Mul(Pow2(e - 1), den), num)
    ensures !NearestEven(f, Pack(f, sign, m, e), num, den)
  {
    var x, v, w := Pack(f, sign, m, e), Pack(f, sign, m', e), Pow2(e - 1);
    PackUnits(f, sign, m, e);
    PackUnits(f, sign, m', e);
    MulAssoc(m, w, den);
    MulAssoc(m', w, den);
    MulPositive(w, den);
    MulOrder(m, m', w);
    NextMultiple(m, m', Mul(w, den));
    assert !Closer(f, x, v, num, den);
  }

  lemma {:induction false} NextMultiple(m: nat, m': nat, u: nat)
    requires m' == m + 1 || m == m' + 1
    ensures Mul(m', u) == if m' == m + 1 then Mul(m, u) + u else Mul(m, u) - u
    ensures m > m' ==> Mul(m, u) >= u
  {
    MulAdd(m, 1, u);
    MulAdd(m', 1, u);
    MulOne(u);
  }

  /** The same for truncation. */
  lemma {:induction false} PackZeroExactly(f: Format, sign: bool, m: nat, e: nat, num: nat, den: nat)
    requires f.Valid() && e >= 1 && den > 0 && m < 2 * f.One() && (e > 1 ==> m >= f.One()) && e <= f.MaxExpo()
    ensures Truncated(f, Pack(f, sign, m, e), num, den)
      <==> Mul(m, Mul(Pow2(e - 1), den)) <= num < Mul(m + 1, Mul(Pow2(e - 1), den))
  {
    var x, v, w := Pack(f, sign, m, e), Pack(f, sign, m + 1, e), Pow2(e - 1);
    var u := Mul(w, den);
    PackUnits(f, sign, m, e);
    PackUnits(f, sign, m + 1, e);
    MulAssoc(m, w, den);
    MulAssoc(m + 1, w, den);
    MulOrder(m, m + 1, w);
    if Mul(m, u) <= num < Mul(m + 1, u) {
      PackTruncated(f, sign, m, e, num, den);
    } else if Mul(m, u) <= num && v.expo > f.MaxExpo() {
      assert m + 1 == 2 * f.One() && w == TopPlace(f);
    }
  }

  // ---- The numbers that the normalizer is right for ----

  /** The register after all left shifts of an odd one: the sticky bit has filled every
      place that was shifted in. */
  lemma {:induction false} OddUpClosed(f: Format, e: int, s: nat) returns (k: nat)
    requires s % 2 == 1 && e >= 1
    ensures Mul(s + 1, Pow2(k)) >= 1
    ensures ShiftUp(f, e, s) == (e - k, Mul(s + 1, Pow2(k)) - 1) && e - k >= 1
    ensures !Settled(f, e, s) ==> k >= 2
    ensures k >= 1 ==> Mul(s + 1, Pow2(k)) - 1 < 2 * Lead(f)
    ensures e - k > 1 ==> Mul(s + 1, Pow2(k)) - 1 >= Lead(f)
    decreases e
  {
    if e > 1 && s < Lead(f) {
      k := OddUpClosed(f, e - 1, 2 * s + 1);
      MulTwo(s + 1, Pow2(k));
      k := k + 1;
    } else {
      k := 0;
      MulOne(s + 1);
    }
  }

  lemma {:induction false} EvenUpClosed(f: Format, e: int, s: nat) returns (k: nat)
    requires s % 2 == 0 && s > 0 && e >= 1
    ensures ShiftUp(f, e, s) == (e - k, Mul(s, Pow2(k))) && e - k >= 1
    ensures e > 2 && 2 * s < Lead(f) ==> k >= 2
    ensures k >= 1 ==> Mul(s, Pow2(k)) < 2 * Lead(f)
    ensures e - k > 1 ==> Mul(s, Pow2(k)) >= Lead(f)
    decreases e
  {
    if e > 1 && s < Lead(f) {
      DivMod2(2 * s, s, 0);
      k := EvenUpClosed(f, e - 1, 2 * s);
      MulTwo(s, Pow2(k));
      k := k + 1;
    } else {
      k := 0;
      MulOne(s);
    }
  }

  /** How often the normalizer shifts left. */
  function LeftShiftCount(f: Format, e: int, s: nat): nat { e - ShiftUp(f, e, s).0 }

  /** The register with its sticky bit counted as a full place: what the left shifts fill it up to. */
  function Filled(s: nat): nat { s + s % 2 }

  /** How far the filled register is from n/d, in multiples of 1/d. */
  function Off(s: nat, n: nat, d: nat): nat { Abs(Mul(Filled(s), d) - n) }

  /** After k >= 2 left shifts n/d is rounded correctly: in NEAREST if it is within half of the
      new last place of the filled register, the middle included if the delivered significand
      is even; in ZERO if it is in the last place below a filled odd register or above an even one. */
  predicate NearFilled(mode: Mode, s: nat, k: nat, n: nat, d: nat) {
    var off := Mul(Off(s, n, d), Pow2(k));
    if mode == Nearest then off < 4 * d || (off == 4 * d && Mul(Filled(s), Pow2(k)) % 16 == 0)
    else if s % 2 == 1 then n < Mul(s + 1, d) && off <= 8 * d
    else Mul(s, d) <= n && off < 8 * d
  }

  /** What is delivered after k >= 2 left shifts is n/d itself. */
  predicate FilledExact(mode: Mode, s: nat, k: nat, n: nat, d: nat) {
    if mode == Zero && s % 2 == 1 then n < Mul(s + 1, d) && Mul(Off(s, n, d), Pow2(k)) == 8 * d else Off(s, n, d) == 0
  }

  /** Registers at a negative exponent that are too large make a late carry, in ZERO a late
      right shift. */
  predicate RoomyIn(f: Format, mode: Mode, e: int, s: nat)
    requires f.Valid()
  {
    e < 0 ==> s < Mul(2 * Lead(f) - (if mode == Nearest then 4 else 0), Pow2(-e))
  }

  /** num/den units become infinity in the mode. */
  predicate TooLarge(f: Format, mode: Mode, num: nat, den: nat)
    requires f.bias >= 1
  {
    if mode == Nearest then RoundsToInfinity(f, num, den) else BeyondFormat(f, num, den)
  }

  /** What the left shifts fill the register up to is beyond the format, the first power of two
      beyond counting if it is delivered itself. */
  predicate Overfull(f: Format, e: int, s: nat, itself: bool)
    requires f.bias >= 1
  {
    var filled, top := Mul(Filled(s), Weight(e)), 8 * Mul(2 * f.One(), TopPlace(f));
    filled > top || (itself && filled == top)
  }

  /** The register s at exponent e is rounded correctly as num/den: with room at a negative exponent, where
      a register without it is taken for half of what it stands for; settled, or else near enough to
      what the left shifts fill it up to, or with it beyond the format. */
  predicate RightFor(f: Format, mode: Mode, e: int, s: nat, num: nat, den: nat)
    requires f.Valid()
  {
    if e < 0 then RoomyIn(f, mode, e, s) || TooLarge(f, mode, num, 2 * den)
    else
      || Settled(f, e, s)
      || if Overfull(f, e, s, mode == Nearest) then TooLarge(f, mode, num, den)
         else NearFilled(mode, s, LeftShiftCount(f, e, s), 8 * num, Mul(Weight(e), den))
  }

  /** Only the ratio of n and d matters. */
  lemma {:induction false} FilledScale(mode: Mode, s: nat, k: nat, n: nat, d: nat, c: nat)
    requires c > 0
    ensures NearFilled(mode, s, k, Mul(n, c), Mul(d, c)) <==> NearFilled(mode, s, k, n, d)
    ensures FilledExact(mode, s, k, Mul(n, c), Mul(d, c)) <==> FilledExact(mode, s, k, n, d)
  {
    var off := Off(s, n, d);
    OffScale(s, n, d, c);
    SwapFactors(off, c, Pow2(k));
    TimesKnown(d, c);
    MulOrder(Mul(off, Pow2(k)), 4 * d, c);
    MulOrder(Mul(off, Pow2(k)), 8 * d, c);
    MulOrder(8 * d, Mul(off, Pow2(k)), c);
    MulOrder(off, 0, c);
    MulOne(c);
  }

  lemma {:induction false} TimesKnown(d: nat, c: nat)
    ensures Mul(4 * d, c) == 4 * Mul(d, c) && Mul(8 * d, c) == 8 * Mul(d, c)
  {
    MulTwo(d, c);
    MulTwo(2 * d, c);
    MulTwo(4 * d, c);
  }

  lemma {:induction false} SwapFactors(a: nat, b: nat, c: nat)
    ensures Mul(Mul(a, b), c) == Mul(Mul(a, c), b)
  {
    MulAssoc(a, b, c);
    MulAssoc(a, c, b);
    MulComm(b, c);
  }

  lemma {:induction false} OffScale(s: nat, n: nat, d: nat, c: nat)
    requires c > 0
    ensures Off(s, Mul(n, c), Mul(d, c)) == Mul(Off(s, n, d), c)
    ensures Mul(n, c) < Mul(Filled(s), Mul(d, c)) <==> n < Mul(Filled(s), d)
  {
    var t := Mul(Filled(s), d);
    MulAssoc(Filled(s), d, c);
    MulOrder(n, t, c);
    if n < t { MulSub(t, n, c); } else { MulSub(n, t, c); }
  }

  /** What the register is packed to after two or more left shifts. */
  lemma {:induction false} FilledPacks(f: Format, mode: Mode, sign: bool, e: int, s: nat) returns (k: nat, m: nat)
    requires f.Valid() && s > 0 && e > 2 && 2 * s < Lead(f) && (mode == Nearest || mode == Zero)
    ensures 2 <= k == LeftShiftCount(f, e, s) < e && Mul(Filled(s), Pow2(k)) == 8 * m
    ensures 1 <= m <= 2 * f.One() && (e - k > 1 ==> m >= f.One())
    ensures if s % 2 == 1 then e - k > 1 ==> m > f.One() else m < 2 * f.One()
    ensures var (x, res) := Norm(f, mode, sign, e, s);
      && x == Pack(f, sign, if mode == Zero && s % 2 == 1 then m - 1 else m, e - k)
      && (Inexact in res <==> x.expo <= f.MaxExpo() && s % 2 == 1)
  {
    if s % 2 == 1 { k := OddUpClosed(f, e, s); } else { k := EvenUpClosed(f, e, s); }
    m := EighthOf(s, k);
    MulPositive(Filled(s), Pow2(k));
    ShiftedPacks(f, mode, sign, e, s, e - k, 8 * m - s % 2, if mode == Zero && s % 2 == 1 then m - 1 else m);
  }

  lemma {:induction false} EighthOf(s: nat, k: nat) returns (m: nat)
    requires s > 0 && k >= 2
    ensures Mul(Filled(s), Pow2(k)) == 8 * m
  {
    var h := (s + 1) / 2;
    MulTwo(h, Pow2(k));
    MulTwo(h, Pow2(k - 1));
    MulTwo(h, Pow2(k - 2));
    m := Mul(h, Pow2(k - 2));
  }

  lemma {:induction false} ShiftedPacks(f: Format, mode: Mode, sign: bool, e: int, s: nat, e': nat, t: nat, m: nat)
    requires f.Valid() && s > 0 && e' >= 1 && ShiftUp(f, e, s) == (e', t) && (mode == Nearest || mode == Zero)
    requires t < 2 * Lead(f) && (e' > 1 ==> t >= Lead(f)) && (t == 8 * m || t == 8 * m + 7 || t == 8 * m - 1)
    requires t == 8 * m + 7 ==> mode == Zero
    requires t == 8 * m - 1 ==> mode == Nearest && m > 0
    ensures var (x, res) := Norm(f, mode, sign, e, s);
      x == Pack(f, sign, m, e') && (Inexact in res <==> x.expo <= f.MaxExpo() && t != 8 * m)
  {
    var a := Adjust(f, e', t);
    DivMod8(t, if t == 8 * m - 1 then m - 1 else m, if t == 8 * m then 0 else 7);
    FinishPacks(f, mode, sign, a, t);
    assert ShiftDown(f, a, t) == (a, t);
    assert Effective(a) == e';
  }

  /** The distance from the filled register in last places of the delivered significand. */
  lemma {:induction false} OffInPlaces(s: nat, k: nat, m: nat, u: nat, num: nat)
    requires Mul(Filled(s), Pow2(k)) == 8 * m
    ensures Mul(Filled(s), Mul(Pow2(k), u)) == 8 * Mul(m, u)
    ensures Mul(Off(s, 8 * num, Mul(Pow2(k), u)), Pow2(k)) < 4 * Mul(Pow2(k), u) <==> 2 * Abs(Mul(m, u) - num) < u
    ensures Mul(Off(s, 8 * num, Mul(Pow2(k), u)), Pow2(k)) == 4 * Mul(Pow2(k), u) <==> 2 * Abs(Mul(m, u) - num) == u
    ensures Mul(Off(s, 8 * num, Mul(Pow2(k), u)), Pow2(k)) < 8 * Mul(Pow2(k), u) <==> Abs(Mul(m, u) - num) < u
    ensures Mul(Off(s, 8 * num, Mul(Pow2(k), u)), Pow2(k)) == 8 * Mul(Pow2(k), u) <==> Abs(Mul(m, u) - num) == u
  {
    var d := Mul(Pow2(k), u);
    MulAssoc(Filled(s), Pow2(k), u);
    MulEight(m, u);
    var off := Off(s, 8 * num, d);
    assert off == 8 * Abs(Mul(m, u) - num);
    MulComm(Pow2(k), u);
    TimesKnown(u, Pow2(k));
    MulOrder(off, 4 * u, Pow2(k));
    MulOrder(off, 8 * u, Pow2(k));
  }

  lemma {:induction false} EvenByEight(m: nat)
    ensures 8 * m % 16 == 0 <==> m % 2 == 0
  {
  }

  lemma {:induction false} NearInPlaces(mode: Mode, s: nat, k: nat, m: nat, u: nat, num: nat)
    requires Mul(Filled(s), Pow2(k)) == 8 * m && u > 0 && m > 0 && (mode == Nearest || mode == Zero)
    ensures var m' := if mode == Zero && s % 2 == 1 then m - 1 else m; var d := Mul(Pow2(k), u);
      && (NearFilled(mode, s, k, 8 * num, d)
          <==> (if mode == Nearest then NearestMultiple(m, u, num) else Mul(m', u) <= num < Mul(m' + 1, u)))
      && (FilledExact(mode, s, k, 8 * num, d) <==> Mul(m', u) == num)
  {
    OffInPlaces(s, k, m, u, num);
    EvenByEight(m);
    NextMultiple(m, m - 1, u);
    NextMultiple(m, m + 1, u);
  }

  /** Two or more left shifts, for any register and any number, as long as the number can be
      compared with the neighbours of the delivered significand. */
  lemma {:induction false} FilledExactly(f: Format, mode: Mode, sign: bool, e: int, s: nat, num: nat, den: nat)
    requires f.Valid() && den > 0 && s > 0 && e > 2 && 2 * s < Lead(f) && (mode == Nearest || mode == Zero)
    requires Norm(f, mode, sign, e, s).0.expo <= f.MaxExpo()
    requires 8 * num > Mul(Filled(s), Mul(Weight(e), den)) ==> s % 2 == 0 && e <= f.MaxExpo()
    requires s % 2 == 0 && Mul(s, Pow2(LeftShiftCount(f, e, s))) == Lead(f) ==> 8 * num >= Mul(s, Mul(Weight(e), den))
    ensures var (x, res) := Norm(f, mode, sign, e, s); var k, d := LeftShiftCount(f, e, s), Mul(Weight(e), den);
      && (Correct(f, mode, x, num, den) <==> NearFilled(mode, s, k, 8 * num, d))
      && (ReportsInexact(f, num, den, x, res) <==> (s % 2 == 0 <==> FilledExact(mode, s, k, 8 * num, d)))
  {
    var k, m := FilledPacks(f, mode, sign, e, s);
    var (x, res) := Norm(f, mode, sign, e, s);
    WeightAfter(e, k, den);
    FilledAt(f, mode, sign, s, k, e - k, m, num, den, x, res);
  }

  lemma {:induction false} WeightAfter(e: int, k: nat, den: nat)
    requires e > k
    ensures Mul(Weight(e), den) == Mul(Pow2(k), Mul(Pow2(e - k - 1), den))
  {
    Pow2Add(k, e - k - 1);
    MulAssoc(Pow2(k), Pow2(e - k - 1), den);
  }

  lemma {:induction false} FilledAt(f: Format, mode: Mode, sign: bool, s: nat, k: nat, e: nat, m: nat, num: nat,
        den: nat, x: Fp, res: set<Flag>)
    requires f.Valid() && den > 0 && e >= 1 && k >= 2 && (mode == Nearest || mode == Zero) && x.expo <= f.MaxExpo()
    requires 1 <= m <= 2 * f.One() && (e > 1 ==> m >= f.One()) && Mul(Filled(s), Pow2(k)) == 8 * m
    requires if s % 2 == 1 then e > 1 ==> m > f.One() else m < 2 * f.One()
    requires x == Pack(f, sign, if mode == Zero && s % 2 == 1 then m - 1 else m, e) && (Inexact in res <==> s % 2 == 1)
    requires 8 * num > Mul(Filled(s), Mul(Pow2(k), Mul(Pow2(e - 1), den))) ==> s % 2 == 0 && e < f.MaxExpo()
    requires s % 2 == 0 && Mul(s, Pow2(k)) == Lead(f) ==> 8 * num >= Mul(s, Mul(Pow2(k), Mul(Pow2(e - 1), den)))
    ensures var d := Mul(Pow2(k), Mul(Pow2(e - 1), den));
      && (Correct(f, mode, x, num, den) <==> NearFilled(mode, s, k, 8 * num, d))
      && (ReportsInexact(f, num, den, x, res) <==> (s % 2 == 0 <==> FilledExact(mode, s, k, 8 * num, d)))
  {
    OffInPlaces(s, k, m, Mul(Pow2(e - 1), den), num);
    PackedExactly(f, mode, sign, s, k, e, m, if mode == Zero && s % 2 == 1 then m - 1 else m, num, den, x);
  }

  lemma {:induction false} PackedExactly(f: Format, mode: Mode, sign: bool, s: nat, k: nat, e: nat, m: nat, m': nat,
                                         num: nat, den: nat, x: Fp)
    requires f.Valid() && den > 0 && e >= 1 && (mode == Nearest || mode == Zero)
    requires 1 <= m <= 2 * f.One() && m' == (if mode == Zero && s % 2 == 1 then m - 1 else m)
    requires if s % 2 == 1 then e > 1 ==> m > f.One() else m < 2 * f.One() && (e > 1 ==> m >= f.One())
    requires Mul(Filled(s), Pow2(k)) == 8 * m && x == Pack(f, sign, m', e) && x.expo <= f.MaxExpo()
    requires num > Mul(m, Mul(Pow2(e - 1), den)) ==> s % 2 == 0 && e < f.MaxExpo()
    requires e > 1 && m == f.One() ==> num >= Mul(m, Mul(Pow2(e - 1), den))
    ensures var d := Mul(Pow2(k), Mul(Pow2(e - 1), den));
      && (Correct(f, mode, x, num, den) <==> NearFilled(mode, s, k, 8 * num, d))
      && (Mul(Units(f, x), den) == num <==> FilledExact(mode, s, k, 8 * num, d))
  {
    var u := Mul(Pow2(e - 1), den);
    MulPositive(Pow2(e - 1), den);
    NearInPlaces(mode, s, k, m, u, num);
    PackUnits(f, sign, m', e);
    MulAssoc(m', Pow2(e - 1), den);
    if mode == Nearest {
      PackNearestExactly(f, sign, m, e, num, den);
    } else {
      PackZeroExactly(f, sign, m', e, num, den);
    }
  }

  /** The packed significand is infinite exactly if it is beyond the format. */
  lemma {:induction false} PackOverfull(f: Format, sign: bool, m: nat, e: nat, itself: bool)
    requires f.Valid() && e >= 1 && 1 <= m <= 2 * f.One() && (e > 1 ==> m > f.One())
    ensures var n, top := Mul(m, Pow2(e - 1)), Mul(2 * f.One(), TopPlace(f));
      Pack(f, sign, if itself then m else m - 1, e).expo > f.MaxExpo() <==> n > top || (itself && n == top)
  {
    var p, u, w := f.One(), TopPlace(f), Pow2(e - 1);
    if e > f.MaxExpo() {
      Pow2Mono(f.MaxExpo(), e - 1);
      MulTwo(p, u);
      MulLt(p, m, w);
      MulLeRight(p, 2 * u, w);
    } else if e == f.MaxExpo() {
      MulOrder(m, 2 * p, w);
    } else {
      Pow2Mono(e, f.MaxExpo() - 1);
      MulLe(m, 2 * p, w);
      MulLeRight(2 * p, 2 * w, u);
      MulTwo(2 * p, w);
      MulPositive(2 * p, w);
    }
  }

  /** Two or more left shifts of a sticky bit. */
  lemma {:induction false} UnsettledExactly(f: Format, mode: Mode, sign: bool, e: int, s: nat, num: nat, den: nat)
    requires f.Valid() && den > 0 && Encodes(e, s, num, den) && !Settled(f, e, s) && (mode == Nearest || mode == Zero)
    ensures var (x, res) := Norm(f, mode, sign, e, s); var k, d := LeftShiftCount(f, e, s), Mul(Weight(e), den);
      var over := Overfull(f, e, s, mode == Nearest);
      && (Correct(f, mode, x, num, den)
          <==> if over then TooLarge(f, mode, num, den) else NearFilled(mode, s, k, 8 * num, d))
      && (ReportsInexact(f, num, den, x, res) <==> over || !FilledExact(mode, s, k, 8 * num, d))
      && (x.expo > f.MaxExpo() <==> over)
  {
    hide Mul, Correct, NearFilled, FilledExact, Norm;
    MulOne(num);
    var k, m := FilledPacks(f, mode, sign, e, s);
    var (x, res) := Norm(f, mode, sign, e, s);
    PackOverfull(f, sign, m, e - k, mode == Nearest);
    FilledWeight(e, s, k, m);
    if x.expo > f.MaxExpo() {
      InfiniteExactly(f, mode, x, num, den);
    } else {
      FilledExactly(f, mode, sign, e, s, num, den);
    }
  }

  lemma {:induction false} FilledWeight(e: int, s: nat, k: nat, m: nat)
    requires e > k && Mul(Filled(s), Pow2(k)) == 8 * m
    ensures Mul(Filled(s), Weight(e)) == 8 * Mul(m, Pow2(e - k - 1))
  {
    Pow2Add(k, e - k - 1);
    MulAssoc(Filled(s), Pow2(k), Pow2(e - k - 1));
    MulEight(m, Pow2(e - k - 1));
  }

  lemma {:induction false} InfiniteExactly(f: Format, mode: Mode, x: Fp, num: nat, den: nat)
    requires f.Valid() && IsInf(f, x) && (mode == Nearest || mode == Zero)
    ensures Correct(f, mode, x, num, den) <==> TooLarge(f, mode, num, den)
  {
  }

  // ---- Negative exponents ----

  lemma {:induction false} JamNOf(s: nat, k: nat, n: nat, d: nat)
    requires Stands(s, n, d) && d > 0
    ensures Stands(JamN(s, k), n, Mul(Pow2(k), d)) && (s > 0 ==> JamN(s, k) > 0)
  {
    MulOne(d);
    if k > 0 {
      JamNOf(s, k - 1, n, d);
      MulPositive(Pow2(k - 1), d);
      JamStands(JamN(s, k - 1), n, Mul(Pow2(k - 1), d));
      MulTwo(Pow2(k - 1), d);
    }
  }

  /** Comparing a shifted register with an even number. */
  lemma {:induction false} JamNBelow(s: nat, k: nat, c: nat)
    requires c % 2 == 0
    ensures JamN(s, k) < c <==> s < Mul(c, Pow2(k))
  {
    var t, w := JamN(s, k), Pow2(k);
    JamNStands(s, k);
    if t % 2 == 0 {
      MulOrder(t, c, w);
    } else if t < c {
      MulLe(t + 1, c, w);
    } else {
      MulLe(c, t - 1, w);
    }
  }

  lemma {:induction false} DownToZero(f: Format, e: int, s: nat)
    requires e <= 0
    ensures ShiftDown(f, e, s) == ShiftDown(f, 0, JamN(s, -e))
    decreases -e
  {
    if e < 0 {
      DownToZero(f, e + 1, Jam(s));
      JamNFirst(s, -e);
    }
  }

  lemma {:induction false} JamNFirst(s: nat, k: nat)
    requires k > 0
    ensures JamN(s, k) == JamN(Jam(s), k - 1)
  {
    if k > 1 { JamNFirst(s, k - 1); }
  }

  /** Right shifts from the next exponent end at the next exponent. */
  lemma {:induction false} DownNext(f: Format, e: nat, s: nat)
    ensures ShiftDown(f, e + 1, s) == (ShiftDown(f, e, s).0 + 1, ShiftDown(f, e, s).1)
    decreases s
  {
    if s >= 2 * Lead(f) { DownNext(f, e + 1, Jam(s)); }
  }

  lemma {:induction false} DownLead(f: Format, e: nat, s: nat)
    requires f.Valid() && s >= Lead(f)
    ensures ShiftDown(f, e, s).1 >= Lead(f) && ShiftDown(f, e, s).0 >= e
    ensures s >= 2 * Lead(f) ==> ShiftDown(f, e, s).0 > e
    decreases s
  {
    if s >= 2 * Lead(f) {
      JamLead(s, f.One());
      DownLead(f, e + 1, Jam(s));
    }
  }

  lemma {:induction false} JamLead(s: nat, p: nat)
    requires s >= 16 * p
    ensures Jam(s) >= 8 * p
  {
  }

  /** Shifted up to exponent 0 the register s is rounded with the scale of exponent 1: the same
      as at exponent 1, unless it has to be shifted once more. */
  lemma {:induction false} ZeroOrOne(f: Format, mode: Mode, sign: bool, s: nat)
    requires f.Valid() && s > 0 && (mode == Nearest || mode == Zero)
    ensures var (e, t) := ShiftDown(f, 0, s); var x := Finish(f, mode, sign, e, t).0;
      x.expo <= f.MaxExpo() ==>
        (x == Norm(f, mode, sign, 1, s).0 <==> s < 2 * Lead(f) - if mode == Nearest then 4 else 0)
  {
    var (e, t) := ShiftDown(f, 0, s);
    assert ShiftUp(f, 1, s) == (1, s);
    OneIsEven(f);
    if s < 2 * Lead(f) {
      assert ShiftDown(f, 0, s) == (0, s) && ShiftDown(f, 1, s) == (1, s);
      if s >= Lead(f) { FinishScales(f, mode, sign, s); }
    } else {
      DownNext(f, 0, s);
      DownLead(f, 0, s);
      FinishNext(f, mode, sign, e, t);
    }
  }

  lemma {:induction false} FinishScales(f: Format, mode: Mode, sign: bool, s: nat)
    requires f.Valid() && Lead(f) <= s < 2 * Lead(f) && (mode == Nearest || mode == Zero)
    ensures Finish(f, mode, sign, 0, s).0 == Finish(f, mode, sign, 1, s).0
      <==> s < 2 * Lead(f) - if mode == Nearest then 4 else 0
  {
    OneIsEven(f);
  }

  lemma {:induction false} FinishNext(f: Format, mode: Mode, sign: bool, e: nat, s: nat)
    requires f.Valid() && e >= 1 && Lead(f) <= s < 2 * Lead(f)
    ensures Finish(f, mode, sign, e, s).0.expo <= f.MaxExpo()
      ==> Finish(f, mode, sign, e, s).0 != Finish(f, mode, sign, e + 1, s).0
  {
    OneIsEven(f);
  }

  /** At a negative exponent the normalizer is right exactly for the registers that have room, and
      for those that are beyond the format even when they are taken for half of what they stand for. */
  lemma {:induction false} LowExactly(f: Format, mode: Mode, sign: bool, e: int, s: nat, num: nat, den: nat)
    requires f.Valid() && den > 0 && s > 0 && e < 0 && Encodes(e, s, num, den) && (mode == Nearest || mode == Zero)
    ensures Correct(f, mode, Norm(f, mode, sign, e, s).0, num, den)
      <==> RoomyIn(f, mode, e, s) || TooLarge(f, mode, num, 2 * den)
  {
    hide Mul, Norm, RoundsToInfinity, BeyondFormat;
    var x := Norm(f, mode, sign, e, s).0;
    if RoomyIn(f, mode, e, s) {
      RoomyFinite(f, mode, sign, e, s);
    } else {
      CrampedInfinite(f, mode, sign, e, s, num, den);
    }
    if x.expo <= f.MaxExpo() {
      LowFinite(f, mode, sign, e, s, num, den);
    } else {
      TooLargeHalf(f, mode, num, den);
      InfiniteExactly(f, mode, x, num, den);
    }
  }

  lemma {:induction false} LowFinite(f: Format, mode: Mode, sign: bool, e: int, s: nat, num: nat, den: nat)
    requires f.Valid() && den > 0 && s > 0 && e < 0 && Encodes(e, s, num, den) && (mode == Nearest || mode == Zero)
    requires Norm(f, mode, sign, e, s).0.expo <= f.MaxExpo()
    ensures Correct(f, mode, Norm(f, mode, sign, e, s).0, num, den) <==> RoomyIn(f, mode, e, s)
  {
    var t := JamN(s, -e);
    AtExponentOne(f, e, s, num, den);
    NormDelivers(f, mode, sign, 1, t, num, den);
    LowSame(f, mode, sign, e, s);
    NormSign(f, mode, sign, e, s);
    CorrectExactly(f, mode, Norm(f, mode, sign, e, s).0, Norm(f, mode, sign, 1, t).0, num, den);
  }

  lemma {:induction false} TooLargeHalf(f: Format, mode: Mode, num: nat, den: nat)
    requires f.Valid() && TooLarge(f, mode, num, 2 * den)
    ensures TooLarge(f, mode, num, den)
  {
    MulTwo(TopPlace(f), den);
    MulLeRight(4 * f.One() - 1, Mul(TopPlace(f), den), Mul(TopPlace(f), 2 * den));
    MulLeRight(2 * f.One(), Mul(TopPlace(f), den), Mul(TopPlace(f), 2 * den));
  }

  lemma {:induction false} RoomyFinite(f: Format, mode: Mode, sign: bool, e: int, s: nat)
    requires f.Valid() && s > 0 && e < 0 && (mode == Nearest || mode == Zero) && RoomyIn(f, mode, e, s)
    ensures Norm(f, mode, sign, e, s).0.expo <= f.MaxExpo()
  {
    var t := JamN(s, -e);
    LowNorm(f, mode, sign, e, s);
    EvenLead(f);
    JamNBelow(s, -e, 2 * Lead(f) - if mode == Nearest then 4 else 0);
    OneIsEven(f);
    assert ShiftDown(f, 0, t) == (0, t);
    FinishPacks(f, mode, sign, 0, t);
  }

  /** Without room the result is that of half the number, as far as infinity is concerned. */
  lemma {:induction false} CrampedInfinite(f: Format, mode: Mode, sign: bool, e: int, s: nat, num: nat, den: nat)
    requires f.Valid() && den > 0 && s > 0 && e < 0 && Encodes(e, s, num, den) && (mode == Nearest || mode == Zero)
    requires !RoomyIn(f, mode, e, s)
    ensures var x := Norm(f, mode, sign, e, s).0;
      (x.expo > f.MaxExpo() <==> TooLarge(f, mode, num, 2 * den)) && (x.expo > f.MaxExpo() ==> IsInf(f, x))
  {
    hide Mul, Norm, RoundsToInfinity, BeyondFormat;
    var t := JamN(s, -e);
    LowNorm(f, mode, sign, e, s);
    AtExponentOne(f, e, s, num, den);
    EvenLead(f);
    JamNBelow(s, -e, 2 * Lead(f) - if mode == Nearest then 4 else 0);
    if t < 2 * Lead(f) {
      LateCarryFinite(f, sign, t, num, den);
    } else {
      HalfDelivers(f, mode, sign, t, num, den);
    }
  }

  lemma {:induction false} LateCarryFinite(f: Format, sign: bool, t: nat, num: nat, den: nat)
    requires f.Valid() && den > 0 && Encodes(1, t, num, den) && 2 * Lead(f) - 4 <= t < 2 * Lead(f)
    ensures var (e', t') := ShiftDown(f, 0, t); Finish(f, Nearest, sign, e', t').0.expo <= f.MaxExpo()
    ensures !RoundsToInfinity(f, num, 2 * den)
  {
    hide Mul;
    var p := f.One();
    OneIsEven(f);
    assert ShiftDown(f, 0, t) == (0, t);
    DivMod8(t, 2 * p - 1, t - (16 * p - 8));
    DivMod2(2 * p, p, 0);
    MulOne(num);
    assert Pow2(0) == 1;
    MulOne(den);
    MulLe(t, 16 * p, den);
    MulLe(t + 1, 16 * p, den);
    MulEight(2 * p, den);
    SmallFinite(f, num, den);
  }

  /** Numbers up to the least number of exponent 2 are far from the limit. */
  lemma {:induction false} SmallFinite(f: Format, num: nat, den: nat)
    requires f.Valid() && den > 0 && num <= Mul(2 * f.One(), den)
    ensures !RoundsToInfinity(f, num, 2 * den)
  {
    hide Mul, Pow2;
    var p, v := f.One(), Mul(TopPlace(f), 2 * den);
    assert TopPlace(f) >= 2 by { LargeTop(f); }
    MulLe(2, TopPlace(f), 2 * den);
    SmallMultiples(2 * den);
    MulTwo(p, den);
    MulLe(2 * p, 4 * p - 1, v);
    MulLeRight(2 * p, 4 * den, v);
    MulEight(p, den);
    MulTwo(p, 2 * den);
    MulTwo(2 * p, den);
    MulTwo(2 * p, 2 * den);
    MulPositive(2 * p, den);
    MulTwo(p, 4 * den);
  }

  lemma {:induction false} LargeTop(f: Format)
    requires f.Valid()
    ensures TopPlace(f) >= 2
  {
    Pow2Mono(1, f.MaxExpo() - 1);
    assert Pow2(1) == 2;
  }

  lemma {:induction false} HalfDelivers(f: Format, mode: Mode, sign: bool, t: nat, num: nat, den: nat)
    requires f.Valid() && den > 0 && Encodes(1, t, num, den) && t >= 2 * Lead(f) && (mode == Nearest || mode == Zero)
    ensures var (e, t') := ShiftDown(f, 0, t); Correct(f, mode, Finish(f, mode, sign, e, t').0, num, 2 * den)
  {
    var (e, t') := ShiftDown(f, 0, t);
    DownNext(f, 0, t);
    DownLead(f, 0, t);
    DownStands(f, 1, t, num, den);
    MulOne(num);
    StandsResembles(t', 8 * num, Mul(Weight(e + 1), den));
    MulTwo(Pow2(e - 1), den);
    FinishDelivers(f, mode, sign, e, t', num, 2 * den);
  }

  lemma {:induction false} LowSame(f: Format, mode: Mode, sign: bool, e: int, s: nat)
    requires f.Valid() && s > 0 && e < 0 && (mode == Nearest || mode == Zero) && JamN(s, -e) > 0
    requires Norm(f, mode, sign, e, s).0.expo <= f.MaxExpo()
    ensures Norm(f, mode, sign, e, s).0 == Norm(f, mode, sign, 1, JamN(s, -e)).0 <==> RoomyIn(f, mode, e, s)
  {
    LowNorm(f, mode, sign, e, s);
    ZeroOrOne(f, mode, sign, JamN(s, -e));
    EvenLead(f);
    JamNBelow(s, -e, 2 * Lead(f) - if mode == Nearest then 4 else 0);
  }

  lemma {:induction false} EvenLead(f: Format)
    ensures 2 * Lead(f) % 2 == 0 && (2 * Lead(f) - 4) % 2 == 0
  {
    DivMod2(2 * Lead(f), Lead(f), 0);
    DivMod2(2 * Lead(f) - 4, Lead(f) - 2, 0);
  }

  lemma {:induction false} LowNorm(f: Format, mode: Mode, sign: bool, e: int, s: nat)
    requires s > 0 && e < 0
    ensures var (e', t) := ShiftDown(f, 0, JamN(s, -e)); Norm(f, mode, sign, e, s) == Finish(f, mode, sign, e', t)
  {
    DownToZero(f, e, s);
    assert ShiftUp(f, e, s) == (e, s) && Adjust(f, e, s) == e;
  }

  lemma {:induction false} AtExponentOne(f: Format, e: int, s: nat, num: nat, den: nat)
    requires f.Valid() && den > 0 && s > 0 && e < 0 && Encodes(e, s, num, den)
    ensures Encodes(1, JamN(s, -e), num, den) && JamN(s, -e) > 0
    ensures Settled(f, 1, JamN(s, -e)) && Roomy(f, 1, JamN(s, -e))
  {
    var k := -e;
    MulOne(den);
    MulOne(num);
    assert Pow2(0) == 1;
    JamNOf(s, k, 8 * Mul(Pow2(k), num), den);
    MulComm(Pow2(k), num);
    MulComm(Pow2(k), den);
    MulEight(num, Pow2(k));
    StandsScale(JamN(s, k), 8 * num, den, Pow2(k));
  }

  /**
   * ar_i64norm in NEAREST and ZERO: correctly rounded exactly if the register has room at a negative
   * exponent, and settles or stands for a number near enough to what the left shifts fill it up
   * to; an infinity that comes of the lack of either is right exactly for the numbers that are too large.
   */
  lemma {:induction false} NormExactly(f: Format, mode: Mode, sign: bool, e: int, s: nat, num: nat, den: nat)
    requires f.Valid() && den > 0 && s > 0 && Encodes(e, s, num, den) && (mode == Nearest || mode == Zero)
    ensures Correct(f, mode, Norm(f, mode, sign, e, s).0, num, den) <==> RightFor(f, mode, e, s, num, den)
  {
    hide Mul, Norm, Correct, NearFilled, TooLarge;
    if e < 0 {
      LowExactly(f, mode, sign, e, s, num, den);
    } else if Settled(f, e, s) {
      NormDelivers(f, mode, sign, e, s, num, den);
    } else {
      UnsettledExactly(f, mode, sign, e, s, num, den);
    }
  }

  /** In ZERO two left shifts of a sticky bit are right for every number. */
  lemma {:induction false} TwoShiftsInZero(f: Format, e: int, s: nat, n: nat, d: nat)
    requires f.Valid() && e >= 0 && Stands(s, n, d) && (4 * s >= Lead(f) || e <= 3) && !Settled(f, e, s)
    ensures NearFilled(Zero, s, LeftShiftCount(f, e, s), n, d)
  {
    ShiftsTwice(f, e, s);
    MulAdd(s - 1, 2, d);
    SmallMultiples(d);
    assert Pow2(1) == 2 && Pow2(2) == 4;
    TimesFour(Off(s, n, d));
  }

  lemma {:induction false} TimesFour(n: nat)
    ensures Mul(n, 4) == 4 * n
  {
    MulComm(n, 4);
    SmallMultiples(n);
  }

  lemma {:induction false} ShiftsTwice(f: Format, e: int, s: nat)
    requires f.Valid() && e >= 0 && s % 2 == 1 && (4 * s >= Lead(f) || e <= 3) && !Settled(f, e, s)
    ensures LeftShiftCount(f, e, s) == 2
  {
    DivMod2(2 * s + 1, s, 1);
    assert ShiftUp(f, e, s) == ShiftUp(f, e - 1, 2 * s + 1) == ShiftUp(f, e - 2, 4 * s + 3) == (e - 2, 4 * s + 3);
  }

  // ---- The registers that are right for every number they can stand for ----

  /** Eight times a number just above (s - 1) / 8 last places of weight w. */
  function Above(s: nat, w: nat): nat
    requires s >= 1
  {
    Mul(s - 1, w) + 1
  }

  lemma {:induction false} JustAboveEncodes(e: int, s: nat)
    requires s % 2 == 1 && e > 1
    ensures Encodes(e, s, Above(s, Pow2(e - 1)), 8)
  {
    var w := Pow2(e - 1);
    MulOne(Above(s, w));
    MulComm(w, 8);
    SmallMultiples(w);
    MulEight(s - 1, w);
    MulEight(s + 1, w);
    MulAdd(s - 1, 2, w);
  }

  /** Even the least of the numbers that the register stands for rounds to infinity, at a negative
      exponent even half of it. */
  predicate AlwaysInfinite(f: Format, e: int, s: nat)
    requires f.bias >= 1
  {
    if e < 0 then RoundsToInfinity(f, s - s % 2, 2 * (8 * Pow2(-e)))
    else RoundsToInfinity(f, Mul(s - s % 2, Weight(e)), 8)
  }

  /** Larger numbers round to infinity too. */
  lemma {:induction false} InfiniteAbove(f: Format, n: nat, d: nat, n': nat, d': nat)
    requires f.Valid() && d > 0 && Mul(n, d') <= Mul(n', d) && RoundsToInfinity(f, n, d)
    ensures RoundsToInfinity(f, n', d')
  {
    var c := Mul(4 * f.One() - 1, TopPlace(f));
    MulAssoc(4 * f.One() - 1, TopPlace(f), d);
    MulAssoc(4 * f.One() - 1, TopPlace(f), d');
    MulLe(Mul(c, d), 2 * n, d');
    MulTwo(n, d');
    MulTwo(n', d);
    SwapFactors(c, d, d');
    MulOrder(2 * n', Mul(c, d'), d);
  }

  /** Two or more left shifts of a sticky bit: the register stands for a number that is
      rounded to the wrong neighbour, unless all round to infinity. */
  lemma {:induction false} UnsettledFails(f: Format, sign: bool, e: int, s: nat) returns (num: nat, den: nat)
    requires f.Valid() && s % 2 == 1 && !Settled(f, e, s) && !AlwaysInfinite(f, e, s)
    ensures den > 0 && Encodes(e, s, num, den)
    ensures !NearestEven(f, Norm(f, Nearest, sign, e, s).0, num, den)
  {
    hide NearFilled, Norm, RoundsToInfinity, NearestEven;
    var w := Pow2(e - 1);
    var k := OddUpClosed(f, e, s);
    num, den := Above(s, w), 8;
    JustAboveEncodes(e, s);
    UnsettledExactly(f, Nearest, sign, e, s, num, den);
    Pow2Mono(2, e - 1);
    Pow2Mono(2, k);
    assert Pow2(1) == 2 && Pow2(2) == 4;
    JustAboveGap(s, w, k);
    JustAboveFinite(f, e, s, w);
  }

  /** The limit is a multiple of four eighths, and so is the least number. */
  lemma {:induction false} JustAboveFinite(f: Format, e: int, s: nat, w: nat)
    requires f.Valid() && e > 2 && s % 2 == 1 && w == Pow2(e - 1) && !AlwaysInfinite(f, e, s)
    ensures !RoundsToInfinity(f, Above(s, w), 8)
  {
    var c := Mul(4 * f.One() - 1, TopPlace(f));
    MulAssoc(4 * f.One() - 1, TopPlace(f), 8);
    TimesEight(c);
    MulTwo(s - 1, Pow2(e - 2));
    ParityGap(Mul(s - 1, Pow2(e - 2)), c);
  }

  lemma {:induction false} ParityGap(a: nat, c: nat)
    requires 2 * (2 * a) < 8 * c
    ensures 2 * (2 * a + 1) < 8 * c
  {
  }

  /** A number just above s - 1 is nearly two places short of s + 1. */
  lemma {:induction false} JustAboveGap(s: nat, w: nat, k: nat)
    requires s % 2 == 1 && w >= 4 && Pow2(k) >= 4
    ensures !NearFilled(Nearest, s, k, 8 * Above(s, w), Mul(w, 8))
  {
    TimesEight(w);
    MulEight(s + 1, w);
    MulAdd(s - 1, 2, w);
    SmallMultiples(w);
    var off := Off(s, 8 * Above(s, w), 8 * w);
    MulLeRight(off, 4, Pow2(k));
    TimesFour(off);
  }

  /** A register without room stands for a number that is not rounded correctly, unless all
      are too large: s / 2^(3-e), or the middle between it and the number a place below. */
  lemma {:induction false} CrampedFails(f: Format, sign: bool, e: int, s: nat) returns (num: nat, den: nat)
    requires f.Valid() && s > 0 && !Roomy(f, e, s) && !AlwaysInfinite(f, e, s)
    ensures den > 0 && Encodes(e, s, num, den)
    ensures !NearestEven(f, Norm(f, Nearest, sign, e, s).0, num, den)
  {
    hide Norm, RoundsToInfinity, NearestEven;
    var w := Pow2(-e);
    num, den := 2 * s - s % 2, 16 * w;
    MiddleEncodes(e, s, w);
    MiddleFinite(f, s, w);
    LowExactly(f, Nearest, sign, e, s, num, den);
  }

  lemma {:induction false} MiddleEncodes(e: int, s: nat, w: nat)
    requires e < 0 && s > 0 && w == Pow2(-e)
    ensures Encodes(e, s, 2 * s - s % 2, 16 * w)
  {
    hide Mul;
    var n := 2 * s - s % 2;
    MulOne(16 * w);
    MulComm(w, n);
    MulEight(n, w);
    MulTwo(s, 8 * w);
    MulTwo(s + 1, 8 * w);
    MulTwo(s - 1, 8 * w);
    MulEight(n, w);
    MulLt(n, 2 * s + 2, 8 * w);
    if s % 2 == 1 { MulLt(2 * s - 2, n, 8 * w); }
  }

  lemma {:induction false} MiddleFinite(f: Format, s: nat, w: nat)
    requires f.Valid() && s > 0 && w > 0 && !RoundsToInfinity(f, s - s % 2, 2 * (8 * w))
    ensures !RoundsToInfinity(f, 2 * s - s % 2, 2 * (16 * w))
  {
    var c := Mul(4 * f.One() - 1, TopPlace(f));
    MulAssoc(4 * f.One() - 1, TopPlace(f), 16 * w);
    MulAssoc(4 * f.One() - 1, TopPlace(f), 32 * w);
    MulTwo(c, 16 * w);
    MulTwo(c, 8 * w);
  }

  /** The settled registers with room, and those that always round to infinity, are exactly the
      registers that are rounded correctly whatever number they stand for. */
  lemma {:induction false} SettledExactly(f: Format, sign: bool, e: int, s: nat)
    requires f.Valid() && s > 0
    ensures (Settled(f, e, s) && Roomy(f, e, s)) || AlwaysInfinite(f, e, s) <==>
      forall num: nat, den: nat :: den > 0 && Encodes(e, s, num, den)
          ==> NearestEven(f, Norm(f, Nearest, sign, e, s).0, num, den)
  {
    hide Norm, AlwaysInfinite, NearestEven, Encodes;
    if (Settled(f, e, s) && Roomy(f, e, s)) || AlwaysInfinite(f, e, s) {
      forall num: nat, den: nat | den > 0 && Encodes(e, s, num, den)
        ensures NearestEven(f, Norm(f, Nearest, sign, e, s).0, num, den)
      {
        if Settled(f, e, s) && Roomy(f, e, s) {
          NormDelivers(f, Nearest, sign, e, s, num, den);
        } else {
          AlwaysRight(f, sign, e, s, num, den);
        }
      }
    } else if !Settled(f, e, s) {
      var num, den := UnsettledFails(f, sign, e, s);
    } else {
      var num, den := CrampedFails(f, sign, e, s);
    }
  }

  lemma {:induction false} LowBound(e: int, s: nat, num: nat, den: nat)
    requires e < 0 && Encodes(e, s, num, den)
    ensures Mul(s - s % 2, 2 * den) <= Mul(num, 2 * (8 * Pow2(-e)))
  {
    var w := Pow2(-e);
    MulOne(den);
    MulComm(w, num);
    MulEight(num, w);
    MulTwo(num, 8 * w);
    MulTwo(s - s % 2, den);
  }

  lemma {:induction false} UpBound(e: int, s: nat, num: nat, den: nat)
    requires e >= 0 && Encodes(e, s, num, den)
    ensures Mul(Mul(s - s % 2, Weight(e)), den) <= Mul(num, 8)
  {
    MulOne(num);
    TimesEight(num);
    MulAssoc(s - s % 2, Weight(e), den);
  }

  lemma {:induction false} AlwaysOverfull(f: Format, e: int, s: nat)
    requires f.Valid() && !Settled(f, e, s) && AlwaysInfinite(f, e, s)
    ensures Overfull(f, e, s, true)
  {
    hide Mul, Norm, RoundsToInfinity;
    var k, m := FilledPacks(f, Nearest, false, e, s);
    PackOverfull(f, false, m, e - k, true);
    FilledWeight(e, s, k, m);
    MulAdd(s - 1, 2, Weight(e));
    SmallMultiples(Weight(e));
    JustBelowFilled(f, Mul(s - 1, Weight(e)), m, e - k);
  }

  lemma {:induction false} JustBelowFilled(f: Format, n: nat, m: nat, e: nat)
    requires f.Valid() && e >= 1 && m <= 2 * f.One() && n < 8 * Mul(m, Pow2(e - 1)) && RoundsToInfinity(f, n, 8)
    ensures e <= f.MaxExpo() ==> Mul(m, Pow2(e - 1)) >= Mul(2 * f.One(), TopPlace(f))
  {
    var p, u, w := f.One(), TopPlace(f), Pow2(e - 1);
    TimesEight(u);
    FourLessOne(p, 8 * u);
    MulEight(p, u);
    MulTwo(p, u);
    MulLe(1, p, u);
    MulOne(u);
    if e == f.MaxExpo() {
      MulSub(2 * p, 1, u);
      if m < 2 * p { MulLe(m, 2 * p - 1, u); }
    } else if e < f.MaxExpo() {
      Pow2Mono(e, f.MaxExpo() - 1);
      MulLe(m, 2 * p, w);
      MulLeRight(p, 2 * w, u);
      MulTwo(p, w);
    }
  }

  lemma {:induction false} AlwaysRight(f: Format, sign: bool, e: int, s: nat, num: nat, den: nat)
    requires f.Valid() && s > 0 && den > 0 && Encodes(e, s, num, den) && AlwaysInfinite(f, e, s)
    requires !Settled(f, e, s) || !Roomy(f, e, s)
    ensures NearestEven(f, Norm(f, Nearest, sign, e, s).0, num, den)
  {
    hide Norm, RoundsToInfinity, NearestEven;
    if e < 0 {
      LowBound(e, s, num, den);
      InfiniteAbove(f, s - s % 2, 2 * (8 * Pow2(-e)), num, 2 * den);
      LowExactly(f, Nearest, sign, e, s, num, den);
    } else {
      UpBound(e, s, num, den);
      InfiniteAbove(f, Mul(s - s % 2, Weight(e)), 8, num, den);
      var k := OddUpClosed(f, e, s);
      AlwaysOverfull(f, e, s);
      UnsettledExactly(f, Nearest, sign, e, s, num, den);
    }
  }

  /** A late carry, in every format: the exact value 2^(P+1) - 1/2 units, held at exponent
      -1 (LateCarryInput), should round to the least number of exponent 2 (LateCarryNearest);
      the normalizer delivers half of it (LateCarryNorm). */
  function LateCarryInput(p: nat): nat
    requires p > 0
  {
    32 * p - 8
  }

  lemma {:induction false} LateCarryEncodes(p: nat)
    requires p > 0
    ensures Encodes(-1, LateCarryInput(p), 4 * p - 1, 2)
    ensures LateCarryInput(p) >= Mul(16 * p - 4, Pow2(1))
  {
    var n := 16 * p - 4;
    assert Pow2(1) == 2;
    MulComm(n, 2);
    SmallMultiples(n);
    SmallMultiples(4 * p - 1);
    SmallMultiples(2);
    MulComm(2 * n, 2);
    SmallMultiples(2 * n);
    DivMod2(2 * n, n, 0);
  }

  lemma {:induction false} LateCarryNearest(f: Format, sign: bool)
    requires f.Valid()
    ensures NearestEven(f, Fp(sign, 2, 0), 4 * f.One() - 1, 2)
    ensures !NearestEven(f, Fp(sign, 1, 0), 4 * f.One() - 1, 2)
  {
    var p := f.One();
    assert Pow2(0) == 1 && Mul(1, 2) == 2;
    MulComm(2 * p, 2);
    SmallMultiples(2 * p);
    PackNearest(f, sign, 2 * p, 1, 4 * p - 1, 2);
    OnlyNearest(f, Fp(sign, 2, 0), Fp(sign, 1, 0), 4 * p - 1, 2);
  }

  lemma {:induction false} OnlyNearest(f: Format, x: Fp, y: Fp, num: nat, den: nat)
    requires f.Valid() && den > 0 && NearestEven(f, x, num, den) && (x.expo != y.expo || x.coeff != y.coeff)
    ensures !NearestEven(f, y, num, den)
  {
    if NearestEven(f, y, num, den) { NearestUnique(f, x, y, num, den); }
  }

  lemma {:induction false} LateCarryNorm(f: Format, sign: bool)
    requires f.Valid()
    ensures Norm(f, Nearest, sign, -1, LateCarryInput(f.One())).0 == Fp(sign, 1, 0)
  {
    var p := f.One();
    DivMod2(4 * Lead(f) - 8, 2 * Lead(f) - 4, 0);
    assert ShiftDown(f, -1, 4 * Lead(f) - 8) == ShiftDown(f, 0, 2 * Lead(f) - 4);
    DivMod8(2 * Lead(f) - 4, 2 * p - 1, 4);
    DivMod2(2 * p - 1, p - 1, 1);
    DivMod2(2 * p, p, 0);
  }
}
