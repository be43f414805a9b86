/**
 * AR_IEEE_32 and AR_IEEE_64 as one record with a row of
 * coefficient limbs, and ar_i32norm / ar_i64norm on it.
 */
module Numbers {
  import opened Powers
  import opened Limbs
  import opened Ieee754
  import opened Normalizer

  class Number {
    const f: Format
    var sign: bool
    var expo: nat
    var coeff: seq<nat>

    ghost predicate Valid()
      reads this
    {
      f.Valid() && expo <= f.MaxExpo() + 1 && IsRow(f, coeff)
    }

    ghost function Abs(): Fp
      reads this
    {
      Fp(sign, expo, C())
    }

    constructor (f: Format)
      requires f.Valid()
      ensures Valid() && this.f == f && Abs() == Fp(false, 0, 0)
    {
      this.f := f;
      sign, expo, coeff := false, 0, Zeros(f.low + 1);
    }

    /** Structure assignment. */
    method Assign(other: Number)
      requires other.Valid() && other.f == f
      modifies this
      ensures Valid() && Abs() == old(other.Abs()) && coeff == old(other.coeff)
    {
      sign, expo, coeff := other.sign, other.expo, other.coeff;
    }

    method SetCoeff(s: bool, e: nat, c: seq<nat>)
      requires f.Valid() && e <= f.MaxExpo() + 1 && IsRow(f, c)
      modifies this
      ensures Valid() && Abs() == Fp(s, e, Val(c)) && coeff == c
    {
      sign, expo, coeff := s, e, c;
    }

    /** QNaNIEEE64 on a host that is not MIPS: an all-ones coefficient. */
    method SetQuietNaN()
      requires f.Valid()
      modifies this
      ensures Valid() && Abs() == QuietNaN(f)
    {
      RangeIsPow2(f.top, f.low + 1);
      sign, expo, coeff := false, f.MaxExpo() + 1, Not(f.top, Zeros(f.low + 1));
    }

    predicate IsNaNNumber()
      reads this
      requires Valid()
      ensures IsNaNNumber() == IsNaN(f, Abs())
    {
      expo > f.MaxExpo() && !IsZeroCoeff()
    }

    /** The coefficient as a number. */
    ghost function C(): nat
      reads this
    {
      Val(coeff)
    }

    lemma {:induction false} CoeffBound()
      requires Valid()
      ensures C() < f.One() == Range(f.top, f.low + 1) && IsFp(f, Abs())
    {
      RangeIsPow2(f.top, f.low + 1);
      ValBound(f.top, coeff);
    }

    function LowBit(): (bit: nat)
      reads this
      requires Valid()
      ensures bit == C() % 2
    {
      ParityOfVal(coeff);
      coeff[f.low] % 2
    }

    /** x->coeff0 >> (C0_BITS - 1) */
    function LeadingBit(): (bit: nat)
      reads this
      requires Valid()
      ensures bit == if 2 * C() >= f.One() then 1 else 0
    {
      CoeffBound();
      TopBit(f.top, coeff)
    }

    /** SHLEFTIEEE64; the leading bit is dropped and `bit` enters on the right. */
    method ShiftLeft(bit: nat)
      requires Valid() && bit <= 1
      modifies this`coeff
      ensures Valid() && C() < f.One()
      ensures C() == 2 * old(C()) + bit - if 2 * old(C()) >= f.One() then f.One() else 0
    {
      CoeffBound();
      OneIsEven(f);
      coeff := Limbs.ShiftLeft(f.top, coeff, bit).0;
      CoeffBound();
    }

    /** SHRIGHTIEEE64, then `bit` ORed into the leading position. */
    method ShiftRight(bit: nat)
      requires Valid() && bit <= 1
      modifies this`coeff
      ensures Valid() && C() < f.One()
      ensures 2 * C() + old(C()) % 2 == old(C()) + if bit == 1 then f.One() else 0
    {
      coeff := Limbs.ShiftRight(f.top, coeff, bit);
      CoeffBound();
    }

    /** INCIEEE64 */
    method Increment(carry: nat) returns (out: nat)
      requires Valid()
      modifies this`coeff
      ensures Valid() && C() < f.One()
      ensures C() + Mul(out, f.One()) == old(C()) + carry
    {
      var sum := Limbs.Inc(f.top, coeff, carry);
      coeff, out := sum.0, sum.1;
      CoeffBound();
    }

    /** ADDIEEE64 with this number as sum and first operand. */
    method AddCoeff(y: seq<nat>, carry: nat) returns (out: nat)
      requires Valid() && |y| == |coeff|
      modifies this`coeff
      ensures Valid() && C() < f.One()
      ensures C() + Mul(out, f.One()) == old(C()) + Val(y) + carry
    {
      var sum := Limbs.Add(f.top, coeff, y, carry);
      coeff, out := sum.0, sum.1;
      CoeffBound();
    }

    /** NOTIEEE64 */
    method Complement()
      requires Valid()
      modifies this`coeff
      ensures Valid() && C() == f.One() - 1 - old(C())
    {
      CoeffBound();
      coeff := Limbs.Not(f.top, coeff);
    }

    function IsZeroCoeff(): (z: bool)
      reads this
      ensures z <==> C() == 0
    {
      Limbs.IsZero(coeff)
    }
  }

  /** A coefficient and its extension to the right, as one number. */
  ghost function Pair(high: nat, low: nat, p: nat): nat { Mul(high, p) + low }

  lemma {:induction false} One64()
    ensures IEEE64.One() == 0x10000000000000
  {
    Times16(0);
    Times16(4);
    Times16(8);
    Times16(12);
    Times16(16);
    Times16(20);
    Times16(24);
    Times16(28);
    Times16(32);
    Times16(36);
    Times16(40);
    Times16(44);
    Times16(48);
  }

  // ---- Local records: only their coefficient rows matter ----

  ghost predicate IsRow(f: Format, c: seq<nat>) {
    |c| == f.low + 1 && Fits(f.top, c)
  }

  lemma {:induction false} RowBound(f: Format, c: seq<nat>)
    requires f.Valid() && IsRow(f, c)
    ensures Val(c) < f.One() == Range(f.top, f.low + 1)
  {
    RangeIsPow2(f.top, f.low + 1);
    ValBound(f.top, c);
  }

  /** ZEROIEEE64, then `bit` in the last coefficient limb. */
  method UnitRow(f: Format, bit: nat) returns (r: seq<nat>)
    requires f.Valid() && bit <= 1
    ensures IsRow(f, r) && Val(r) == bit
  {
    ValSnoc(Zeros(f.low), bit);
    r := Zeros(f.low) + [bit];
  }

  /** The low bit of a row. */
  method LowBitOf(f: Format, c: seq<nat>) returns (bit: nat)
    requires IsRow(f, c)
    ensures bit == Val(c) % 2
  {
    ParityOfVal(c);
    bit := c[f.low] % 2;
  }

  /** The leading bit of a row, and SHLEFTIEEE64. */
  method ShiftLeftRow(f: Format, c: seq<nat>) returns (out: nat, r: seq<nat>)
    requires f.Valid() && IsRow(f, c)
    ensures IsRow(f, r) && out == if 2 * Val(c) >= f.One() then 1 else 0
    ensures Val(r) == 2 * Val(c) - if 2 * Val(c) >= f.One() then f.One() else 0
  {
    RowBound(f, c);
    var res := Limbs.ShiftLeft(f.top, c, 0);
    out, r := res.1, res.0;
    RowBound(f, r);
  }

  /** SHLEFTIEEE64_2: the pair of rows y, y2 doubled; the leading bit is dropped. */
  method ShiftLeftPair(f: Format, y: seq<nat>, y2: seq<nat>) returns (r: seq<nat>, r2: seq<nat>)
    requires f.Valid() && IsRow(f, y) && IsRow(f, y2)
    ensures IsRow(f, r) && IsRow(f, r2)
    ensures var p := f.One(); var bit := if 2 * Val(y2) >= p then 1 else 0;
      && Val(r) + (if 2 * Val(y) + bit >= p then p else 0) == 2 * Val(y) + bit
      && Val(r2) + (if 2 * Val(y2) >= p then p else 0) == 2 * Val(y2)
  {
    RowBound(f, y);
    RowBound(f, y2);
    var low := Limbs.ShiftLeft(f.top, y2, 0);
    var high := Limbs.ShiftLeft(f.top, y, low.1);
    r, r2 := high.0, low.0;
    RowBound(f, r);
    RowBound(f, r2);
  }

  /** SHRIGHTIEEE64, then `bit` ORed into the leading position. */
  method ShiftRightRow(f: Format, c: seq<nat>, bit: nat) returns (r: seq<nat>)
    requires f.Valid() && IsRow(f, c) && bit <= 1
    ensures IsRow(f, r)
    ensures 2 * Val(r) + Val(c) % 2 == Val(c) + if bit == 1 then f.One() else 0
  {
    RowBound(f, c);
    r := Limbs.ShiftRight(f.top, c, bit);
  }

  /** NOTIEEE64 */
  method NotRow(f: Format, c: seq<nat>) returns (r: seq<nat>)
    requires f.Valid() && IsRow(f, c)
    ensures IsRow(f, r) && Val(c) < f.One() && Val(r) == f.One() - 1 - Val(c)
  {
    RowBound(f, c);
    r := Limbs.Not(f.top, c);
  }

  /** ADDIEEE64 */
  method AddRows(f: Format, a: seq<nat>, b: seq<nat>, carry: nat) returns (sum: seq<nat>, out: nat)
    requires f.Valid() && IsRow(f, a) && IsRow(f, b)
    ensures IsRow(f, sum)
    ensures Val(sum) + Mul(out, f.One()) == Val(a) + Val(b) + carry
  {
    RowBound(f, a);
    var r := Limbs.Add(f.top, a, b, carry);
    sum, out := r.0, r.1;
  }

  /** The top three coefficient bits, with anything below them ORed into the last. */
  method RoundingBits(f: Format, c: seq<nat>) returns (bits: nat, ghost q: nat, ghost rem: nat)
    requires f.Valid() && IsRow(f, c)
    ensures rem < Pow2(f.P() - 3) && Val(c) == Mul(q, Pow2(f.P() - 3)) + rem
    ensures q < 8 && bits == Stick(q, rem != 0) < 8
  {
    assert f.P() - 3 == f.top - 3 + 16 * (|c| - 1);
    var guard := GuardBits(f.top, c);
    q, rem := guard.0, Val(c) - Mul(guard.0, Pow2(f.P() - 3));
    bits := Stick(guard.0, guard.1);
    StickBound(q, rem != 0);
  }

  /** Left bits, coefficient and rounding bits side by side. */
  ghost function Register(f: Format, lbits: nat, c: nat, rbits: nat): nat {
    (Mul(lbits, f.One()) + c) * 8 + rbits
  }

  /** One left shift of the register. */
  lemma {:induction false} UpBits(v: nat, r: nat, p: nat, v': nat, bit: nat, r': nat)
    requires r < 8 && v' == 2 * v + r / 4 - if 2 * v >= p then p else 0
    requires bit == if 2 * v >= p then 1 else 0
    requires r' == r * 2 % 8 + r % 2
    ensures var s := (Mul(0, p) + v) * 8 + r;
      (Mul(bit, p) + v') * 8 + r' == 2 * s + s % 2
  {
    DivMod2(v * 8 + r, v * 4 + r / 2, r % 2);
    DivMod8(r * 2, r / 4, r * 2 - 8 * (r / 4));
  }

  /** One right shift of the register. */
  lemma {:induction false} DownBits(l: nat, v: nat, r: nat, p: nat, v': nat, r': nat)
    requires r < 8 && 2 * v' + v % 2 == v + if l % 2 == 1 then p else 0
    requires r' == Jam(r) + v % 2 * 4
    ensures (Mul(l / 2, p) + v') * 8 + r' == Jam((Mul(l, p) + v) * 8 + r)
    ensures r' < 8
  {
    MulHalf(l, p);
    JamOfSum(Mul(l, p) + v, r);
  }

  lemma {:induction false} MulHalf(l: nat, p: nat)
    ensures Mul(l, p) == 2 * Mul(l / 2, p) + if l % 2 == 1 then p else 0
  {
    MulAdd(2 * (l / 2), l % 2, p);
    MulTwo(l / 2, p);
    MulOne(p);
  }

  lemma {:induction false} JamOfSum(n: nat, r: nat)
    requires r < 8
    ensures Jam(n * 8 + r) == 4 * n + Jam(r)
  {
    DivMod2(n * 8 + r, 4 * n + r / 2, r % 2);
    DivMod4(n * 8 + r, 2 * n + r / 4, r % 4);
  }

  /** ar_i64norm, ar_i32norm: normalize, round, package. */
  method Normalize(x: Number, expo0: int, lbits0: nat, rbits0: nat, mode: Mode) returns (res: set<Flag>)
    requires x.Valid() && rbits0 < 8
    modifies x
    ensures x.Valid()
    ensures var (value, flags) :=
        Norm(x.f, mode, old(x.sign), expo0, Register(x.f, lbits0, old(x.C()), rbits0));
      x.Abs() == value && res == flags
  {
    res := {};
    if x.sign { res := res + {Negative}; }
    LeadBit(x, lbits0, rbits0);

    // Nothing is set anywhere
    if lbits0 == 0 && x.IsZeroCoeff() && rbits0 == 0 {
      x.expo := 0;
      assert Register(x.f, lbits0, x.C(), rbits0) == 0;
      return res + {ZeroResult};
    }

    var expo, lbits, rbits := NormalizeLeft(x, expo0, lbits0, rbits0);
    LeadBit(x, lbits, rbits);
    if expo == 1 && lbits == 0 {
      expo := 0;
    } else if expo == 0 && lbits != 0 {
      expo := 1;
    }
    expo, lbits, rbits := NormalizeRight(x, expo, lbits, rbits);
    LeadBit(x, lbits, rbits);
    res := RoundAndPack(x, expo, lbits, rbits, mode, res);
  }

  /** Shift up to the leading bit; preserve the sticky bit. */
  method NormalizeLeft(x: Number, expo0: int, lbits0: nat, rbits0: nat)
    returns (expo: int, lbits: nat, rbits: nat)
    requires x.Valid() && rbits0 < 8
    modifies x`coeff
    ensures x.Valid() && rbits < 8
    ensures ShiftUp(x.f, expo0, Register(x.f, lbits0, old(x.C()), rbits0))
         == (expo, Register(x.f, lbits, x.C(), rbits))
  {
    expo, lbits, rbits := expo0, lbits0, rbits0;
    ghost var f, s0 := x.f, Register(x.f, lbits0, x.C(), rbits0);
    LeadBit(x, lbits, rbits);
    while expo > 1 && lbits == 0
      invariant x.Valid() && rbits < 8
      invariant lbits == 0 <==> Register(f, lbits, x.C(), rbits) < Lead(f)
      invariant ShiftUp(f, expo, Register(f, lbits, x.C(), rbits)) == ShiftUp(f, expo0, s0)
      decreases expo
    {
      ghost var v, r := x.C(), rbits;
      lbits := x.LeadingBit();
      x.ShiftLeft(rbits / 4);
      rbits := rbits * 2 % 8 + rbits % 2;
      expo := expo - 1;
      UpBits(v, r, f.One(), x.C(), lbits, rbits);
      LeadBit(x, lbits, rbits);
    }
  }

  /** Shift right if carry or if the exponent is too small; keep the sticky bit. */
  method NormalizeRight(x: Number, expo0: int, lbits0: nat, rbits0: nat)
    returns (expo: nat, lbits: nat, rbits: nat)
    requires x.Valid() && rbits0 < 8
    modifies x`coeff
    ensures x.Valid() && rbits < 8
    ensures (expo, Register(x.f, lbits, x.C(), rbits))
         == ShiftDown(x.f, expo0, Register(x.f, lbits0, old(x.C()), rbits0))
  {
    var e: int := expo0;
    lbits, rbits := lbits0, rbits0;
    ghost var f := x.f;
    ghost var s := Register(f, lbits0, x.C(), rbits0);
    ghost var s0 := s;
    LeadBit(x, lbits, rbits);
    while lbits > 1 || e < 0
      invariant x.Valid() && rbits < 8
      invariant s == Register(f, lbits, x.C(), rbits)
      invariant lbits <= 1 <==> s < 2 * Lead(f)
      invariant ShiftDown(f, e, s) == ShiftDown(f, expo0, s0)
      decreases s + if e < 0 then -e else 0
    {
      ghost var l, v, r := lbits, x.C(), rbits;
      rbits := Jam(rbits) + x.LowBit() * 4;
      x.ShiftRight(lbits % 2);
      lbits := lbits / 2;
      e := e + 1;
      DownBits(l, v, r, f.One(), x.C(), rbits);
      s := Jam(s);
      LeadBit(x, lbits, rbits);
    }
    expo := e;
  }

  lemma {:induction false} LeadBit(x: Number, lbits: nat, rbits: nat)
    requires x.Valid() && rbits < 8
    ensures var s := Register(x.f, lbits, x.C(), rbits);
      && (lbits == 0 <==> s < Lead(x.f))
      && (lbits <= 1 <==> s < 2 * Lead(x.f))
  {
    x.CoeffBound();
    LeadBits(lbits, x.C(), rbits, x.f.One());
  }

  lemma {:induction false} LeadBits(l: nat, v: nat, r: nat, p: nat)
    requires v < p && r < 8
    ensures var s := (Mul(l, p) + v) * 8 + r;
      && (l == 0 <==> s < 8 * p)
      && (l <= 1 <==> s < 16 * p)
      && s / 8 == Mul(l, p) + v && s % 8 == r
      && (l <= 1 ==> Mul(l, p) == if l == 1 then p else 0)
  {
    if l > 1 { MulLe(2, l, p); }
    DivMod8((Mul(l, p) + v) * 8 + r, Mul(l, p) + v, r);
  }

  /** The rounding decision and the increment: afterwards lbits and coefficient hold the
      rounded significand m. */
  method RoundCoeff(x: Number, lbits0: nat, rbits: nat, mode: Mode) returns (lbits: nat)
    requires x.Valid() && lbits0 <= 1 && rbits < 8
    modifies x`coeff
    ensures x.Valid()
    ensures var m := Rounded(mode, x.sign, Register(x.f, lbits0, old(x.C()), rbits));
      Splits(m, x.f.One(), lbits, x.C())
  {
    hide Mul, Pow2;
    lbits := lbits0;
    ghost var p, v := x.f.One(), x.C();
    x.CoeffBound();
    LeadBits(lbits, v, rbits, p);
    DecisionBits(x.f, lbits, v, rbits);
    var up: bool;
    match mode {
      case PlusInfinity => up := (rbits == 0) != !x.sign;
      case MinusInfinity => up := (rbits == 0) == !x.sign;
      case Zero => up := false;
      case Nearest => up := rbits / 4 != 0 && (rbits % 4 != 0 || x.LowBit() != 0);
    }
    if up {
      var carry := x.Increment(1);
      CarryBits(v, p, x.C(), carry);
      lbits := lbits + carry;
    }
  }

  /** lbits and coefficient v after rounding to m. */
  ghost predicate Splits(m: nat, p: nat, lbits: nat, v: nat) {
    && m <= 2 * p
    && lbits == (if m < p then 0 else if m < 2 * p then 1 else 2)
    && v == (if m < p then m else if m < 2 * p then m - p else 0)
  }

  /** The test on the rounding bits and the last coefficient bit is the rule of rounding to nearest even. */
  lemma {:induction false} DecisionBits(f: Format, l: nat, v: nat, r: nat)
    requires f.Valid() && l <= 1 && r < 8
    ensures var s := (Mul(l, f.One()) + v) * 8 + r;
      && s % 8 == r && s / 8 == Mul(l, f.One()) + v
      && (RoundsUp(Nearest, true, s) <==> r / 4 != 0 && (r % 4 != 0 || v % 2 != 0))
      && (RoundsUp(Nearest, false, s) <==> r / 4 != 0 && (r % 4 != 0 || v % 2 != 0))
  {
    OneIsEven(f);
    MulOne(f.One());
    var n := Mul(l, f.One()) + v;
    DivMod8(n * 8 + r, n, r);
    DivMod2(n, (if l == 1 then 4 * Pow2(f.P() - 3) else 0) + v / 2, v % 2);
  }

  lemma {:induction false} CarryBits(v: nat, p: nat, v': nat, carry: nat)
    requires v < p && v' < p && v' + Mul(carry, p) == v + 1
    ensures carry == (if v + 1 < p then 0 else 1) && v' == if v + 1 < p then v + 1 else 0
  {
    if carry >= 2 { MulLe(2, carry, p); }
  }

  /** The rounding decision and the carry it may make. */
  method RoundAndPack(x: Number, expo0: nat, lbits0: nat, rbits0: nat, mode: Mode, res0: set<Flag>)
    returns (res: set<Flag>)
    requires x.Valid() && lbits0 <= 1 && rbits0 < 8 && res0 == SignFlag(x.sign)
    modifies x
    ensures x.Valid()
    ensures var (value, flags) :=
        Finish(x.f, mode, old(x.sign), expo0, Register(x.f, lbits0, old(x.C()), rbits0));
      x.Abs() == value && res == flags
  {
    hide Package, Rounded;
    var expo, rbits := expo0, rbits0;
    ghost var p, s := x.f.One(), Register(x.f, lbits0, x.C(), rbits0);
    ghost var m := Rounded(mode, x.sign, s);
    assert s % 8 == rbits && s < 16 * p by {
      x.CoeffBound();
      LeadBits(lbits0, x.C(), rbits, p);
    }
    var lbits := RoundCoeff(x, lbits0, rbits, mode);

    // A carry out of the rounding
    if lbits > 1 {
      assert m == 2 * p && x.C() == 0 && lbits == 2;
      DivMod2(m, p, 0);
      rbits := rbits / 2 + x.LowBit() * 4;
      x.ShiftRight(lbits % 2);
      lbits := lbits / 2;
      expo := expo + 1;
      assert x.C() == 0 && lbits == 1 && rbits == s % 8 / 2 + m % 2 * 4;
    } else if lbits != 0 {
      if expo == 0 { expo := 1; }
    } else {
      expo := 0;
    }
    res := PackageNumber(x, expo, lbits, rbits, res0);
  }

  /** Zero, out-of-range and inexact results. */
  method PackageNumber(x: Number, expo0: nat, lbits: nat, rbits: nat, res0: set<Flag>) returns (res: set<Flag>)
    requires x.Valid() && lbits <= 1 && res0 == SignFlag(x.sign)
    modifies x
    ensures x.Valid()
    ensures var (value, flags) :=
        Package(x.f, old(x.sign), expo0, (if lbits == 1 then x.f.One() else 0) + old(x.C()), rbits);
      x.Abs() == value && res == flags
  {
    var expo := expo0;
    res := res0;
    x.CoeffBound();
    if lbits == 0 && x.IsZeroCoeff() {
      expo := 0;
      res := res + {ZeroResult, Underflow};
    }

    // Out of range becomes a signed infinity
    if expo > x.f.MaxExpo() {
      x.expo := x.f.MaxExpo() + 1;
      x.coeff := Zeros(x.f.low + 1);
      return res + {Overflow};
    }

    if rbits != 0 { res := res + {Inexact}; }
    x.expo := expo;
  }
}
