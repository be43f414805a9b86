/**
 * convert.c: ar_i64to32 and ar_i32to64, as conversions between a wide format g and a
 * narrow format f.
 */
module Narrowing {
  import opened Powers
  import opened Limbs
  import opened Ieee754
  import opened Normalizer
  import opened Numbers
  import opened Words
  import Addition

  /** g has three more coefficient bits than f at least, and so much more range that its
      denormalized numbers are nothing to f. */
  predicate Wider(f: Format, g: Format) {
    f.Valid() && g.Valid() && g.P() >= f.P() + 3 && g.bias >= f.bias + f.P() + 1
  }

  /** Coefficient bits of g that become rounding bits or are lost. */
  function Dropped(f: Format, g: Format): nat
    requires Wider(f, g)
  {
    g.P() - f.P()
  }

  /** n right shifts that lose what they shift out. */
  function Drop(c: nat, n: nat): nat
    decreases n, c
  {
    if n == 0 then c else Drop(c / 2, n - 1)
  }

  /** ar_i64to32 as a function of its operand. */
  function NarrowSpec(f: Format, g: Format, mode: Mode, x: Fp): (Fp, set<Flag>)
    requires Wider(f, g)
  {
    if x.expo > g.MaxExpo() then
      if x.coeff != 0 then
        var c := Drop(x.coeff, Dropped(f, g));
        (Fp(x.sign, f.MaxExpo() + 1, if c == 0 then 1 else c), {Undefined})
      else
        (Fp(x.sign, f.MaxExpo() + 1, 0), SignFlag(x.sign) + {Overflow})
    else if x.expo == 0 then
      (Fp(x.sign, 0, 0), SignFlag(x.sign) + {ZeroResult} + if x.coeff != 0 then {Undefined} else {})
    else
      Norm(f, mode, x.sign, Lowered(x.expo - g.bias + f.bias), JamN(Sig(g, x), Dropped(f, g) - 3))
  }

  /** ar_i32to64 as a function of its operand. */
  function WidenSpec(f: Format, g: Format, x: Fp): (Fp, set<Flag>)
    requires Wider(f, g)
  {
    var c := Mul(x.coeff, Pow2(Dropped(f, g)));
    if x.expo > f.MaxExpo() then
      if x.coeff != 0 then (Fp(x.sign, g.MaxExpo() + 1, c), {Undefined})
      else (Fp(x.sign, g.MaxExpo() + 1, 0), SignFlag(x.sign) + {Overflow})
    else
      var e := if x.expo == 0 then 0 else x.expo - f.bias + g.bias;
      Norm(g, Nearest, x.sign, e, 8 * ((if x.expo == 0 then 0 else g.One()) + c))
  }

  /** Units of g in one unit of f. */
  function UnitRatio(f: Format, g: Format): nat
    requires Wider(f, g)
  {
    Pow2(g.bias - f.bias + Dropped(f, g))
  }

  // ---- Narrowing is correctly rounded ----

  lemma {:induction false} NarrowEncodes(f: Format, g: Format, x: Fp)
    requires Wider(f, g) && x.expo > 0
    ensures Encodes(Lowered(x.expo - g.bias + f.bias), JamN(Sig(g, x), Dropped(f, g) - 3), Units(g, x), UnitRatio(f, g))
  {
    var k := Dropped(f, g) - 3;
    JamNStands(Sig(g, x), k);
    ScaledEncodes(JamN(Sig(g, x), k), Sig(g, x), k, x.expo - 1, g.bias - f.bias);
  }

  lemma {:induction false} NarrowSettled(f: Format, g: Format, x: Fp)
    requires Wider(f, g) && x.expo > 0 && x.coeff < g.One()
    ensures var s, e := JamN(Sig(g, x), Dropped(f, g) - 3), Lowered(x.expo - g.bias + f.bias);
      Lead(f) <= s && Settled(f, e, s) && Roomy(f, e, s)
  {
    var k := Dropped(f, g) - 3;
    LeadIsPow2(f);
    BinadeKept(Sig(g, x), k, f.P() + 2);
    NarrowRoomy(f, Lowered(x.expo - g.bias + f.bias), JamN(Sig(g, x), k));
  }

  /** Right shifts of a number of one binade end in the binade k places below. */
  lemma {:induction false} BinadeKept(m: nat, k: nat, n: nat)
    requires Pow2(n + 1 + k) <= m < 2 * Pow2(n + 1 + k)
    ensures Pow2(n + 1) <= JamN(m, k) <= 2 * Pow2(n + 1)
  {
    JamNStands(m, k);
    Pow2Add(n + 1, k);
    DivMod2(Pow2(n + 1), Pow2(n), 0);
    StandsBetween(JamN(m, k), m, Pow2(k), Pow2(n + 1));
  }

  /** A register for a number of one binade lies in that binade. */
  lemma {:induction false} StandsBetween(s: nat, n: nat, d: nat, lead: nat)
    requires Stands(s, n, d) && d > 0 && Mul(lead, d) <= n < 2 * Mul(lead, d) && lead % 2 == 0
    ensures lead <= s <= 2 * lead
  {
    MulTwo(lead, d);
    if s < lead {
      MulLe(s + 1, lead, d);
      MulLt(s, lead, d);
    }
    if s > 2 * lead {
      MulLe(2 * lead, s - 1, d);
      MulLt(2 * lead, s, d);
    }
  }

  lemma {:induction false} NarrowRoomy(f: Format, e: int, s: nat)
    requires f.Valid() && s <= 2 * Lead(f) && e != 0
    ensures Roomy(f, e, s)
  {
    if e < 0 {
      OneIsEven(f);
      Pow2Mono(1, -e);
      assert Pow2(1) == 2;
      MulLeRight(2 * Lead(f) - 4, 2, Pow2(-e));
      MulComm(2 * Lead(f) - 4, 2);
      SmallMultiples(2 * Lead(f) - 4);
    }
  }

  /** ar_i64to32 delivers every normal number correctly rounded, with the right flags. */
  lemma {:induction false} NarrowDelivers(f: Format, g: Format, mode: Mode, x: Fp)
    requires Wider(f, g) && Finite(g, x) && x.expo > 0 && (mode == Nearest || mode == Zero)
    ensures var (y, res) := NarrowSpec(f, g, mode, x);
      Delivers(f, mode, x.sign, Units(g, x), UnitRatio(f, g), y, res)
  {
    NarrowEncodes(f, g, x);
    NarrowSettled(f, g, x);
    NormDelivers(f, mode, x.sign, Lowered(x.expo - g.bias + f.bias), JamN(Sig(g, x), Dropped(f, g) - 3),
                 Units(g, x), UnitRatio(f, g));
  }

  /** Zeros and denormalized numbers of the wide format become the zero that is nearest to
      them; a denormalized one is reported as UNDEFINED instead of INEXACT. */
  lemma {:induction false} NarrowDenormal(f: Format, g: Format, mode: Mode, x: Fp)
    requires Wider(f, g) && Finite(g, x) && x.expo == 0 && (mode == Nearest || mode == Zero)
    ensures var (y, res) := NarrowSpec(f, g, mode, x);
      && Rounds(f, mode, x.sign, Units(g, x), UnitRatio(f, g), y, res)
      && (ReportsInexact(f, Units(g, x), UnitRatio(f, g), y, res) <==> x.coeff == 0)
      && (ReportsUnderflow(Units(g, x), y, res) <==> x.coeff == 0)
      && (Undefined in res <==> x.coeff != 0)
  {
    MulOne(x.coeff);
    MulOne(Scale(0));
    assert Pow2(g.P() + 1) == 2 * g.One();
    Pow2Mono(g.P() + 1, g.bias - f.bias + Dropped(f, g));
    ZeroNearest(f, mode, x.sign, x.coeff, UnitRatio(f, g));
    MulOne(UnitRatio(f, g));
  }

  /** Up to half of the least denormalized number zero is the correct result. */
  lemma {:induction false} ZeroNearest(f: Format, mode: Mode, sign: bool, num: nat, den: nat)
    requires f.Valid() && den > 0 && 2 * num <= den && (mode == Nearest || mode == Zero)
    ensures Correct(f, mode, Fp(sign, 0, 0), num, den)
  {
    MulOne(den);
    PackNearest(f, sign, 0, 1, num, den);
    PackTruncated(f, sign, 0, 1, num, den);
  }

  // ---- Widening ----

  lemma {:induction false} WidenNormal(f: Format, g: Format, x: Fp)
    requires Wider(f, g) && Finite(f, x) && x.expo > 0
    ensures WidenSpec(f, g, x)
         == (Fp(x.sign, x.expo - f.bias + g.bias, Mul(x.coeff, Pow2(Dropped(f, g)))), SignFlag(x.sign))
    ensures Mul(x.coeff, Pow2(Dropped(f, g))) < g.One()
  {
    var k := Dropped(f, g);
    var c, e := Mul(x.coeff, Pow2(k)), x.expo - f.bias + g.bias;
    Pow2Add(f.P(), k);
    MulLt(x.coeff, f.One(), Pow2(k));
    NormExact(g, Nearest, x.sign, e, g.One() + c);
  }

  /** An exact register with its leading bit in place is packaged as it is. */
  lemma {:induction false} NormExact(f: Format, mode: Mode, sign: bool, e: nat, m: nat)
    requires f.Valid() && 1 <= e <= f.MaxExpo() && f.One() <= m < 2 * f.One() && (mode == Nearest || mode == Zero)
    ensures Norm(f, mode, sign, e, 8 * m) == (Fp(sign, e, m - f.One()), SignFlag(sign))
  {
    NormDirect(f, mode, sign, e, 8 * m);
    DivMod8(8 * m, m, 0);
    Addition.PackageFinite(f, sign, e, m, 0);
    assert SignFlag(sign) + {} == SignFlag(sign);
  }

  lemma {:induction false} WidenDenormal(f: Format, g: Format, x: Fp)
    requires Wider(f, g) && Finite(f, x) && x.expo == 0
    ensures var c := Mul(x.coeff, Pow2(Dropped(f, g)));
      WidenSpec(f, g, x) == (Fp(x.sign, 0, c), SignFlag(x.sign) + if c == 0 then {ZeroResult} else {}) && c < g.One()
  {
    var k := Dropped(f, g);
    var c := Mul(x.coeff, Pow2(k));
    Pow2Add(f.P(), k);
    MulLt(x.coeff, f.One(), Pow2(k));
    DivMod8(8 * c, c, 0);
    assert SignFlag(x.sign) + {} == SignFlag(x.sign);
    if c > 0 { assert ShiftUp(g, 0, 8 * c) == (0, 8 * c) && ShiftDown(g, 0, 8 * c) == (0, 8 * c); }
  }

  /** ar_i32to64 keeps the value of normal numbers and zeros; the exponent 0 it gives to a
      denormalized number means something smaller in the wide format. */
  lemma {:induction false} WidenExactly(f: Format, g: Format, x: Fp)
    requires Wider(f, g) && Finite(f, x)
    ensures Units(g, WidenSpec(f, g, x).0) == Mul(Units(f, x), UnitRatio(f, g)) <==> x.expo > 0 || x.coeff == 0
  {
    if x.expo > 0 { WidenKeeps(f, g, x); } else { WidenShrinks(f, g, x); }
  }

  lemma {:induction false} WidenKeeps(f: Format, g: Format, x: Fp)
    requires Wider(f, g) && Finite(f, x) && x.expo > 0
    ensures Units(g, WidenSpec(f, g, x).0) == Mul(Units(f, x), UnitRatio(f, g))
  {
    var k := Dropped(f, g);
    WidenNormal(f, g, x);
    Pow2Add(f.P(), k);
    MulAdd(f.One(), x.coeff, Pow2(k));
    Rescale(Sig(f, x), k, x.expo - 1, g.bias - f.bias);
  }

  lemma {:induction false} WidenShrinks(f: Format, g: Format, x: Fp)
    requires Wider(f, g) && Finite(f, x) && x.expo == 0
    ensures Units(g, WidenSpec(f, g, x).0) == Mul(Units(f, x), UnitRatio(f, g)) <==> x.coeff == 0
  {
    var k := Dropped(f, g);
    WidenDenormal(f, g, x);
    MulOne(x.coeff);
    MulOne(Mul(x.coeff, Pow2(k)));
    SmallerScale(x.coeff, k, g.bias - f.bias);
  }

  lemma {:induction false} SmallerScale(m: nat, k: nat, d: nat)
    requires d > 0
    ensures Mul(m, Pow2(k)) == Mul(m, Pow2(d + k)) <==> m == 0
  {
    MulOne(Pow2(k));
    MulOne(Pow2(d + k));
    Pow2Mono(k, d + k);
    MulComm(m, Pow2(k));
    MulComm(m, Pow2(d + k));
    if m > 0 { MulLt(Pow2(k), Pow2(d + k), m); }
  }

  lemma {:induction false} Rescale(m: nat, k: nat, i: nat, d: nat)
    ensures Mul(Mul(m, Pow2(k)), Pow2(i + d)) == Mul(Mul(m, Pow2(i)), Pow2(d + k))
  {
    Pow2Add(k, i + d);
    Pow2Add(i, d + k);
    MulAssoc(m, Pow2(k), Pow2(i + d));
    MulAssoc(m, Pow2(i), Pow2(d + k));
  }

  // ---- Round trip ----

  lemma {:induction false} DropExact(c: nat, k: nat)
    ensures Drop(Mul(c, Pow2(k)), k) == c
  {
    MulOne(c);
    if k > 0 {
      MulTwo(c, Pow2(k - 1));
      DivMod2(Mul(c, Pow2(k)), Mul(c, Pow2(k - 1)), 0);
      DropExact(c, k - 1);
    }
  }

  lemma {:induction false} NarrowWidenNormal(f: Format, g: Format, mode: Mode, x: Fp)
    requires Wider(f, g) && Finite(f, x) && x.expo > 0 && (mode == Nearest || mode == Zero)
    ensures NarrowSpec(f, g, mode, WidenSpec(f, g, x).0) == (x, SignFlag(x.sign))
  {
    WidenNormal(f, g, x);
    RegisterBack(f, g, x.coeff);
    NarrowExact(f, g, mode, Fp(x.sign, x.expo - f.bias + g.bias, Mul(x.coeff, Pow2(Dropped(f, g)))), Sig(f, x));
  }

  /** The shifts that narrow a widened significand lose nothing. */
  lemma {:induction false} RegisterBack(f: Format, g: Format, c: nat)
    requires Wider(f, g)
    ensures JamN(g.One() + Mul(c, Pow2(Dropped(f, g))), Dropped(f, g) - 3) == 8 * (f.One() + c)
  {
    var k, m := Dropped(f, g) - 3, f.One() + c;
    Pow2Add(f.P(), k + 3);
    MulAdd(f.One(), c, Pow2(k + 3));
    EightTimesPow2(m, k);
    MulEight(m, Pow2(k));
    JamNValue(Mul(m, Pow2(k + 3)), k, 8 * m, 0);
  }

  lemma {:induction false} NarrowExact(f: Format, g: Format, mode: Mode, x: Fp, m: nat)
    requires Wider(f, g) && Finite(g, x) && 1 <= x.expo - g.bias + f.bias <= f.MaxExpo()
             && (mode == Nearest || mode == Zero)
    requires f.One() <= m < 2 * f.One() && JamN(Sig(g, x), Dropped(f, g) - 3) == 8 * m
    ensures NarrowSpec(f, g, mode, x) == (Fp(x.sign, x.expo - g.bias + f.bias, m - f.One()), SignFlag(x.sign))
  {
    NormExact(f, mode, x.sign, x.expo - g.bias + f.bias, m);
  }

  /** Narrowing undoes widening bit for bit on normal numbers, zeros, infinities and NaNs,
      and loses every nonzero denormalized number. */
  lemma {:induction false} NarrowWiden(f: Format, g: Format, mode: Mode, x: Fp)
    requires Wider(f, g) && IsFp(f, x) && (mode == Nearest || mode == Zero)
    ensures NarrowSpec(f, g, mode, WidenSpec(f, g, x).0).0 == x <==> !(x.expo == 0 && x.coeff != 0)
  {
    var k := Dropped(f, g);
    if x.expo > f.MaxExpo() {
      DropExact(x.coeff, k);
      if x.coeff != 0 { MulPositive(x.coeff, Pow2(k)); }
    } else if x.expo > 0 {
      NarrowWidenNormal(f, g, mode, x);
    } else {
      WidenDenormal(f, g, x);
      MulOne(Pow2(k));
    }
  }

  // ---- The operations on records ----

  lemma {:induction false} DropValue(c: nat, k: nat, q: nat, rem: nat)
    requires c == Mul(q, Pow2(k)) + rem && rem < Pow2(k)
    ensures Drop(c, k) == q
  {
    MulOne(q);
    if k > 0 {
      MulTwo(q, Pow2(k - 1));
      DivMod2(c, Mul(q, Pow2(k - 1)) + rem / 2, rem % 2);
      DropValue(c / 2, k - 1, q, rem / 2);
    }
  }

  lemma {:induction false} PowersForNarrowing()
    ensures Pow2(26) == 0x4000000 && Pow2(29) == 0x20000000 && IEEE32.One() == 0x800000 && Pow2(4) == 16
            && Pow2(7) == 128
  {
    Times16(0);
    Times16(3);
    Times16(7);
    Times16(11);
    Times16(15);
    Times16(19);
    Times16(2);
    Times16(6);
    Times16(10);
    Times16(14);
    Times16(18);
    Times16(22);
    Times16(1);
    Times16(5);
    Times16(9);
    Times16(13);
    Times16(17);
    Times16(21);
    Times16(25);
    assert Pow2(1) == 2 && Pow2(2) == 4 && Pow2(3) == 8;
  }

  /** The upper 23 of 52 coefficient bits, limb by limb. */
  method UpperBits(c: seq<nat>) returns (r: seq<nat>)
    requires IsRow(IEEE64, c)
    ensures IsRow(IEEE32, r) && Val(c) == Val(r) * 0x20000000 + c[2] % 8192 * 65536 + c[3]
  {
    PowersForNarrowing();
    r := [c[1] / 8192 + c[0] * 8, c[2] / 8192 + c[1] % 8192 * 8];
    Val2(r);
    Val4(c);
  }

  lemma {:induction false} NarrowRegisterBits(v: nat, r: nat, c2: nat, c3: nat)
    requires v == r * 0x20000000 + c2 % 8192 * 65536 + c3 && c3 < 65536
    ensures Drop(v, 29) == r
    ensures Register(IEEE32, 1, r, Stick(c2 / 1024 % 8, c2 % 1024 != 0 || c3 != 0)) == JamN(IEEE64.One() + v, 26)
  {
    var g, l, a := c2 / 1024 % 8, c2 % 1024, IEEE32.One() + r;
    PowersForNarrowing();
    One64();
    LowThirteen(c2);
    MulIs(r, 0x20000000);
    DropValue(v, 29, r, c2 % 8192 * 65536 + c3);
    MulIs(8 * a + g, 0x4000000);
    JamNValue(IEEE64.One() + v, 26, 8 * a + g, l * 65536 + c3);
    DivMod2(8 * a + g, 4 * a + g / 2, g % 2);
    MulOne(IEEE32.One());
  }

  lemma {:induction false} LowThirteen(n: nat)
    ensures n % 8192 == n / 1024 % 8 * 1024 + n % 1024
  {
    var q, l := n / 1024, n % 1024;
    var h, g := q / 8, q % 8;
    assert n == 8192 * h + (1024 * g + l);
  }

  /** Upper coefficient bits, and the other 29 squeezed into guard, round and sticky bit. */
  method NarrowBits(c: seq<nat>) returns (r: seq<nat>, rbits: nat)
    requires IsRow(IEEE64, c)
    ensures IsRow(IEEE32, r) && rbits < 8 && Val(r) == Drop(Val(c), 29)
    ensures Register(IEEE32, 1, Val(r), rbits) == JamN(IEEE64.One() + Val(c), 26)
  {
    hide Pow2, Mul;
    r := UpperBits(c);
    rbits := Stick(c[2] / 1024 % 8, c[2] % 1024 != 0 || c[3] != 0);
    StickBound(c[2] / 1024 % 8, c[2] % 1024 != 0 || c[3] != 0);
    NarrowRegisterBits(Val(c), Val(r), c[2], c[3]);
  }

  /** NaNs keep their upper bits, or else one bit; infinities stay. */
  method NarrowSpecial(s: Number, d: Number) returns (res: set<Flag>)
    requires s.f == IEEE32 && d.f == IEEE64 && d.Valid() && d.expo > IEEE64.MaxExpo()
    modifies s
    ensures s.Valid()
    ensures forall mode :: (s.Abs(), res) == NarrowSpec(IEEE32, IEEE64, mode, old(d.Abs()))
  {
    if d.IsZeroCoeff() {
      s.SetCoeff(d.sign, 255, Zeros(2));
      return SignFlag(d.sign) + {Overflow};
    }
    var r, _ := NarrowBits(d.coeff);
    if Limbs.IsZero(r) {
      r := UnitRow(IEEE32, 1);
    }
    s.SetCoeff(d.sign, 255, r);
    return {Undefined};
  }

  /** ar_i64to32 */
  method NarrowNumber(s: Number, d: Number, mode: Mode) returns (res: set<Flag>)
    requires s.f == IEEE32 && d.f == IEEE64 && d.Valid()
    modifies s
    ensures s.Valid()
    ensures (s.Abs(), res) == NarrowSpec(IEEE32, IEEE64, mode, old(d.Abs()))
  {
    hide Norm, Pow2;
    if d.expo > IEEE64.MaxExpo() {
      res := NarrowSpecial(s, d);
    } else if d.expo == 0 {
      // Too small for the narrow format
      NarrowIsZero(mode, d.Abs());
      s.SetCoeff(d.sign, 0, Zeros(2));
      res := SignFlag(d.sign) + {ZeroResult} + if d.IsZeroCoeff() then {} else {Undefined};
    } else {
      NarrowIsNorm(mode, d.Abs());
      res := NarrowNormal(s, d, mode);
    }
  }

  lemma {:induction false} NarrowIsZero(mode: Mode, x: Fp)
    requires x.expo == 0
    ensures NarrowSpec(IEEE32, IEEE64, mode, x)
         == (Fp(x.sign, 0, 0), SignFlag(x.sign) + {ZeroResult} + if x.coeff != 0 then {Undefined} else {})
  {
  }

  lemma {:induction false} NarrowIsNorm(mode: Mode, x: Fp)
    requires 0 < x.expo <= IEEE64.MaxExpo()
    ensures NarrowSpec(IEEE32, IEEE64, mode, x)
         == Norm(IEEE32, mode, x.sign, Lowered(x.expo - 896), JamN(IEEE64.One() + x.coeff, 26))
  {
  }

  method NarrowNormal(s: Number, d: Number, mode: Mode) returns (res: set<Flag>)
    requires s.f == IEEE32 && d.f == IEEE64 && d.Valid() && 0 < d.expo <= IEEE64.MaxExpo()
    modifies s
    ensures s.Valid()
    ensures (s.Abs(), res)
         == Norm(IEEE32, mode, old(d.sign), Lowered(old(d.expo) - 896), JamN(IEEE64.One() + old(d.C()), 26))
  {
    var expo: int := d.expo - 1023 + 127;
    if expo <= 0 { expo := expo - 1; }
    ghost var register := JamN(IEEE64.One() + d.C(), 26);
    var r, rbits := NarrowBits(d.coeff);
    s.SetCoeff(d.sign, 0, r);
    assert Register(s.f, 1, s.C(), rbits) == register;
    res := Normalize(s, expo, 1, rbits, mode);
  }

  lemma {:induction false} Times29(v: nat, k: nat)
    requires k == 29
    ensures Mul(v, Pow2(k)) == v * 0x20000000
  {
    PowersForNarrowing();
    MulIs(v, 0x20000000);
  }

  /** Copy the coefficient into the upper 23 bits of the wide one. */
  method WidenBits(c: seq<nat>) returns (r: seq<nat>)
    requires IsRow(IEEE32, c)
    ensures IsRow(IEEE64, r) && Val(r) == Val(c) * 0x20000000
  {
    PowersForNarrowing();
    r := [c[0] / 8, c[0] % 8 * 8192 + c[1] / 8, c[1] % 8 * 8192, 0];
    Val2(c);
    Val4(r);
  }

  /** ar_i32to64 */
  method WidenNumber(d: Number, s: Number) returns (res: set<Flag>)
    requires d.f == IEEE64 && s.f == IEEE32 && s.Valid()
    modifies d
    ensures d.Valid() && Wider(s.f, d.f)
    ensures (d.Abs(), res) == WidenSpec(s.f, d.f, old(s.Abs()))
  {
    var c := WidenBits(s.coeff);
    Times29(s.C(), Dropped(s.f, d.f));
    res := WidenWith(d, s, c);
  }

  /** The branches of ar_i32to64, with c the coefficient moved into place. A NaN's
      coefficient is not zero and stays so. */
  method WidenWith(d: Number, s: Number, c: seq<nat>) returns (res: set<Flag>)
    requires Wider(s.f, d.f) && s.Valid() && IsRow(d.f, c) && Val(c) == Mul(s.C(), Pow2(Dropped(s.f, d.f)))
    modifies d
    ensures d.Valid()
    ensures (d.Abs(), res) == WidenSpec(s.f, d.f, old(s.Abs()))
  {
    if s.expo > s.f.MaxExpo() {
      if s.IsZeroCoeff() {
        d.SetCoeff(s.sign, d.f.MaxExpo() + 1, Zeros(d.f.low + 1));
        res := SignFlag(s.sign) + {Overflow};
      } else {
        d.SetCoeff(s.sign, d.f.MaxExpo() + 1, c);
        res := {Undefined};
      }
    } else {
      res := WidenFinite(d, s, c);
    }
  }

  method WidenFinite(d: Number, s: Number, c: seq<nat>) returns (res: set<Flag>)
    requires Wider(s.f, d.f) && s.Valid() && IsRow(d.f, c) && Val(c) == Mul(s.C(), Pow2(Dropped(s.f, d.f)))
    requires s.expo <= s.f.MaxExpo()
    modifies d
    ensures d.Valid()
    ensures (d.Abs(), res) == WidenSpec(s.f, d.f, old(s.Abs()))
  {
    hide Norm, Pow2, Mul, WidenSpec;
    WidenIsNorm(s.f, d.f, s.Abs());
    var expo: nat := if s.expo == 0 then 0 else s.expo - s.f.bias + d.f.bias;
    res := PackExact(d, c, s.sign, expo, s.expo != 0);
  }

  /** Normalize a coefficient without rounding bits. */
  method PackExact(d: Number, c: seq<nat>, sign: bool, expo: nat, leading: bool) returns (res: set<Flag>)
    requires d.f.Valid() && IsRow(d.f, c)
    modifies d
    ensures d.Valid()
    ensures (d.Abs(), res) == Norm(d.f, Nearest, sign, expo, 8 * ((if leading then d.f.One() else 0) + Val(c)))
  {
    hide Mul;
    MulOne(d.f.One());
    d.SetCoeff(sign, 0, c);
    res := Normalize(d, expo, if leading then 1 else 0, 0, Nearest);
  }

  lemma {:induction false} WidenIsNorm(f: Format, g: Format, x: Fp)
    requires Wider(f, g) && x.expo <= f.MaxExpo()
    ensures WidenSpec(f, g, x) == Norm(g, Nearest, x.sign, if x.expo == 0 then 0 else x.expo - f.bias + g.bias,
        8 * ((if x.expo == 0 then 0 else g.One()) + Mul(x.coeff, Pow2(Dropped(f, g)))))
  {
  }
}
