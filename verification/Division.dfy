/**
 * ieee_fdiv.c: ar_ifdiv32 and ar_ifdiv64.
 */
module Division {
  import opened Powers
  import opened Limbs
  import opened Ieee754
  import opened Normalizer
  import opened Numbers
  import Addition

  /** Division by repeated subtraction: quotient bits go into q, the divisor z is halved
      after every round and loses what falls off its right end. */
  function DivRounds(q: nat, r: nat, z: nat, n: nat): (nat, nat)
    decreases n
  {
    if n == 0 then (q, r)
    else if z <= r then DivRounds(2 * q + 1, r - z, z / 2, n - 1)
    else DivRounds(2 * q, r, z / 2, n - 1)
  }

  /** A divisor significand shifted left until it has its leading bit, and the number of shifts. */
  function Leading(m: nat, p: nat): (nat, nat)
    requires m > 0
    decreases p - m
  {
    if m >= p then (m, 0) else
      var (m', k) := Leading(2 * m, p);
      (m', k + 1)
  }

  /** Significand of a nonzero divisor, normalized if the divisor is denormalized. */
  function DivisorSig(f: Format, b: Fp): nat
    requires !Ieee754.IsZero(b)
  {
    if b.expo == 0 then Leading(b.coeff, f.One()).0 else Sig(f, b)
  }

  function DivisorShift(f: Format, b: Fp): nat
    requires !Ieee754.IsZero(b)
  {
    if b.expo == 0 then Leading(b.coeff, f.One()).1 else 0
  }

  function DivExpo(f: Format, a: Fp, b: Fp): int
    requires !Ieee754.IsZero(b)
  {
    Effective(a.expo) - Effective(b.expo) + f.bias + DivisorShift(f, b)
  }

  /** The quotient bits, the remainder of the loop being ORed into the last one. */
  function DivRegister(f: Format, a: Fp, b: Fp): nat
    requires !Ieee754.IsZero(b)
  {
    var (q, r) := DivRounds(0, Mul(Sig(f, a), f.One()), Mul(DivisorSig(f, b), f.One()), f.P() + 4);
    Stick(q, r != 0)
  }

  /** ar_ifdiv64 as a function of its operands. */
  function DivSpec(f: Format, mode: Mode, a: Fp, b: Fp): (Fp, set<Flag>) {
    var neg := a.sign != b.sign;
    if IsNaN(f, a) then (a, {Undefined})
    else if IsNaN(f, b) then (b, {Undefined})
    else if b.expo > f.MaxExpo() then
      if a.expo > f.MaxExpo() then (QuietNaN(f), {Undefined})
      else (Fp(neg, 0, 0), SignFlag(neg) + {Underflow, ZeroResult})
    else if a.expo > f.MaxExpo() then (Fp(neg, a.expo, a.coeff), SignFlag(neg) + {Overflow})
    else if Ieee754.IsZero(b) then
      if Ieee754.IsZero(a) then (QuietNaN(f), {Undefined})
      else (Fp(neg, f.MaxExpo() + 1, 0), SignFlag(neg) + {Overflow})
    else
      Norm(f, mode, neg, Lowered(DivExpo(f, a, b)), DivRegister(f, a, b))
  }

  // ---- The first P + 1 rounds are exact ----

  /** While the divisor is a multiple of the power of two it is still to be shifted by,
      the rounds divide exactly; the last three use a truncated divisor. */
  lemma {:induction false} ExactPart(q: nat, r: nat, d: nat, t: nat) returns (q': nat, r': nat)
    requires r < Mul(d, Pow2(t + 1))
    ensures DivRounds(q, r, Mul(d, Pow2(t)), t + 4) == DivRounds(q', r', d / 2, 3)
    ensures Mul(q', d) + r' == Mul(q, Mul(d, Pow2(t + 1))) + r && r' < d
    decreases t
  {
    var z := Mul(d, Pow2(t));
    MulTwo(d, Pow2(t));
    var q1, r1 := ExactStep(q, r, z);
    if t == 0 {
      MulOne(d);
      q', r' := q1, r1;
    } else {
      MulTwo(d, Pow2(t - 1));
      DivMod2(z, Mul(d, Pow2(t - 1)), 0);
      q', r' := ExactPart(q1, r1, d, t - 1);
    }
  }

  /** Quotient bits of the last three rounds: the remainder r of the exact division is
      compared with halves, quarters and eighths of the divisor, each rounded down. */
  function TailBits(r: nat, d: nat): nat {
    var (bits, rest) := DivRounds(0, r, d / 2, 3);
    Stick(bits, rest != 0)
  }

  lemma {:induction false} TailShift(q: nat, r: nat, z: nat, n: nat)
    ensures DivRounds(q, r, z, n).1 == DivRounds(0, r, z, n).1
    ensures DivRounds(q, r, z, n).0 == Mul(q, Pow2(n)) + DivRounds(0, r, z, n).0
    ensures DivRounds(0, r, z, n).0 < Pow2(n)
    decreases n
  {
    MulOne(q);
    if n > 0 {
      var bit, r' := if z <= r then 1 else 0, if z <= r then r - z else r;
      TailShift(2 * q + bit, r', z / 2, n - 1);
      TailShift(bit, r', z / 2, n - 1);
      MulTwo(q, Pow2(n - 1));
      MulAdd(2 * q, bit, Pow2(n - 1));
      MulOne(Pow2(n - 1));
    }
  }

  /** The register of a division with exact quotient q and remainder r. */
  lemma {:induction false} RegisterOfQuotient(f: Format, a: Fp, b: Fp) returns (q: nat, r: nat)
    requires f.Valid() && a.coeff < f.One() && !Ieee754.IsZero(b) && b.coeff < f.One()
    ensures Mul(Sig(f, a), f.One()) == Mul(q, DivisorSig(f, b)) + r && r < DivisorSig(f, b)
    ensures f.One() <= DivisorSig(f, b) < 2 * f.One() && q < 2 * f.One()
    ensures TailBits(r, DivisorSig(f, b)) < 8
    ensures DivRegister(f, a, b) == 8 * q + TailBits(r, DivisorSig(f, b))
  {
    var p, m, d := f.One(), Sig(f, a), DivisorSig(f, b);
    DivisorNormal(f, b);
    FirstBelow(m, d, p);
    q, r := ExactPart(0, Mul(m, p), d, f.P());
    MulOne(Mul(d, 2 * p));
    TailRegister(q, r, d);
    QuotientBound(m, q, r, d, p);
  }

  lemma {:induction false} TailRegister(q: nat, r: nat, d: nat)
    ensures var (q', r') := DivRounds(q, r, d / 2, 3); Stick(q', r' != 0) == 8 * q + TailBits(r, d)
    ensures TailBits(r, d) < 8
  {
    TailShift(q, r, d / 2, 3);
    assert Pow2(1) == 2 && Pow2(2) == 4 && Pow2(3) == 8;
    MulComm(q, 8);
    SmallMultiples(q);
    var bits := DivRounds(0, r, d / 2, 3).0;
    DivMod2(8 * q + bits, 4 * q + bits / 2, bits % 2);
    StickBound(bits, DivRounds(0, r, d / 2, 3).1 != 0);
  }

  lemma {:induction false} FirstBelow(m: nat, d: nat, p: nat)
    requires m < 2 * p && d >= p
    ensures Mul(m, p) < Mul(d, 2 * p)
  {
    MulLt(m, 2 * p, p);
    MulTwo(p, p);
    MulLe(p, d, 2 * p);
    MulTwo(p, p);
  }

  lemma {:induction false} QuotientBound(m: nat, q: nat, r: nat, d: nat, p: nat)
    requires Mul(m, p) == Mul(q, d) + r && m < 2 * p <= 2 * d
    ensures q < 2 * p
  {
    FirstBelow(m, d, p);
    MulComm(d, 2 * p);
    if d > 0 { MulOrder(q, 2 * p, d); }
  }

  lemma {:induction false} DivisorNormal(f: Format, b: Fp)
    requires !Ieee754.IsZero(b) && b.coeff < f.One()
    ensures f.One() <= DivisorSig(f, b) < 2 * f.One()
    ensures DivisorSig(f, b) == Mul(Sig(f, b), Pow2(DivisorShift(f, b)))
  {
    MulOne(Sig(f, b));
    if b.expo == 0 { LeadingNormal(b.coeff, f.One()); }
  }

  lemma {:induction false} LeadingNormal(m: nat, p: nat)
    requires 0 < m < 2 * p
    ensures p <= Leading(m, p).0 < 2 * p
    ensures Leading(m, p).0 == Mul(m, Pow2(Leading(m, p).1))
    decreases p - m
  {
    MulOne(m);
    if m < p {
      LeadingNormal(2 * m, p);
      MulTwo(m, Pow2(Leading(2 * m, p).1));
    }
  }

  // ---- What the register stands for ----

  /** a / b in units is DivNum / DivDen. */
  function DivNum(f: Format, a: Fp): nat
    requires f.bias >= 1
  {
    Mul(Units(f, a), f.UnitsPerOne())
  }

  lemma {:induction false} TwoScales(m: nat, i: nat, j: nat)
    ensures Mul(Mul(m, Pow2(i)), Pow2(j)) == Mul(m, Pow2(i + j)) == Mul(Pow2(j), Mul(m, Pow2(i)))
  {
    Pow2Add(i, j);
    MulAssoc(m, Pow2(i), Pow2(j));
    MulComm(Pow2(j), Mul(m, Pow2(i)));
  }

  /** A register that stands for the quotient of the significands encodes the quotient of
      the operands. */
  lemma {:induction false} QuotientEncodes(f: Format, a: Fp, b: Fp, s: nat)
    requires f.Valid() && !Ieee754.IsZero(b) && b.coeff < f.One()
    requires Stands(s, 8 * Mul(Sig(f, a), f.One()), DivisorSig(f, b))
    ensures Encodes(Lowered(DivExpo(f, a, b)), s, DivNum(f, a), Units(f, b))
  {
    var e := DivExpo(f, a, b);
    var i, j, k := Effective(a.expo) - 1, Effective(b.expo) - 1, DivisorShift(f, b);
    DivisorNormal(f, b);
    if e >= 1 {
      EncodesAtLeastOne(s, Sig(f, a), f.P(), Sig(f, b), i, j, k, f.bias);
    } else {
      assert k == 0;
      MulOne(Sig(f, b));
      EncodesBelowOne(s, Sig(f, a), f.P(), Sig(f, b), i, j, f.bias);
    }
  }

  lemma {:induction false} EncodesAtLeastOne(s: nat, m: nat, n: nat, m': nat, i: nat, j: nat, k: nat, bias: nat)
    requires i - j + bias + k >= 1 && bias >= 1 && Stands(s, 8 * Mul(m, Pow2(n)), Mul(m', Pow2(k)))
    ensures Encodes(i - j + bias + k, s, Mul(Mul(m, Pow2(i)), Pow2(bias + n - 1)), Mul(m', Pow2(j)))
  {
    var w := i + bias - 1;
    TwoScales(m, i, bias + n - 1);
    TwoScales(m, n, w);
    TwoScales(m', j, i - j + bias + k - 1);
    TwoScales(m', k, w);
    MulOne(Mul(Mul(m, Pow2(i)), Pow2(bias + n - 1)));
    ScaledStands(s, Mul(m, Pow2(n)), Mul(m', Pow2(k)), w);
  }

  lemma {:induction false} EncodesBelowOne(s: nat, m: nat, n: nat, m': nat, i: nat, j: nat, bias: nat)
    requires i - j + bias < 1 && bias >= 1 && Stands(s, 8 * Mul(m, Pow2(n)), m')
    ensures Encodes(i - j + bias - 1, s, Mul(Mul(m, Pow2(i)), Pow2(bias + n - 1)), Mul(m', Pow2(j)))
  {
    TwoScales(m, i, bias + n - 1);
    TwoScales(m, n, j);
    TwoScales(m, i + bias + n - 1, j + 1 - i - bias);
    MulOne(Mul(m', Pow2(j)));
    ScaledStands(s, Mul(m, Pow2(n)), m', j);
  }

  lemma {:induction false} ScaledStands(s: nat, n: nat, d: nat, w: nat)
    requires Stands(s, 8 * n, d)
    ensures Stands(s, 8 * Mul(n, Pow2(w)), Mul(d, Pow2(w)))
  {
    StandsScale(s, 8 * n, d, Pow2(w));
    MulEight(n, Pow2(w));
  }

  /** The rounding bits an exact division would have left. */
  function TrueBits(r: nat, d: nat): (bits: nat)
    ensures bits < 8
  {
    var e := 8 * r;
    if e == 0 then 0 else if e < 2 * d then 1 else if e == 2 * d then 2 else if e < 4 * d then 3
    else if e == 4 * d then 4 else if e < 6 * d then 5 else if e == 6 * d then 6 else 7
  }

  lemma {:induction false} TrueStands(n: nat, q: nat, r: nat, d: nat)
    requires n == Mul(q, d) + r && r < d
    ensures Stands(8 * q + TrueBits(r, d), 8 * n, d)
  {
    var t := TrueBits(r, d);
    MulAdd(8 * q, t, d);
    MulAdd(8 * q, t + 1, d);
    if t > 0 { MulAdd(8 * q, t - 1, d); }
    MulEight(q, d);
    SmallMultiples(d);
    DivMod2(8 * q + t, 4 * q + t / 2, t % 2);
  }

  /** With a divisor significand divisible by eight the last three rounds are exact, too. */
  lemma {:induction false} TailExact(r: nat, d: nat)
    requires d % 8 == 0 && r < d
    ensures TailBits(r, d) == TrueBits(r, d)
  {
    var j := d / 8;
    DivMod2(d, 4 * j, 0);
    DivMod2(4 * j, 2 * j, 0);
    DivMod2(2 * j, j, 0);
    TailUnrolled(r, 4 * j, 2 * j, j);
  }

  /** The last three rounds, written out. */
  lemma {:induction false} TailUnrolled(r: nat, h: nat, k: nat, j: nat)
    requires h / 2 == k && k / 2 == j
    ensures DivRounds(0, r, h, 3) ==
      var b1, r1 := if h <= r then 1 else 0, if h <= r then r - h else r;
      var b2, r2 := if k <= r1 then 1 else 0, if k <= r1 then r1 - k else r1;
      if j <= r2 then (4 * b1 + 2 * b2 + 1, r2 - j) else (4 * b1 + 2 * b2, r2)
  {
    var b1, r1 := if h <= r then 1 else 0, if h <= r then r - h else r;
    var b2, r2 := if k <= r1 then 1 else 0, if k <= r1 then r1 - k else r1;
    assert DivRounds(0, r, h, 3) == DivRounds(b1, r1, k, 2) == DivRounds(2 * b1 + b2, r2, j, 1);
    assert DivRounds(2 * b1 + b2, r2, j, 1)
        == DivRounds(2 * (2 * b1 + b2) + (if j <= r2 then 1 else 0), if j <= r2 then r2 - j else r2, j / 2, 0);
  }

  // ---- Divisors for which division is correctly rounded ----

  lemma {:induction false} QuotientRoomy(f: Format, e: int, s: nat)
    requires f.Valid() && s < 2 * Lead(f) && e != 0
    ensures Roomy(f, e, s)
  {
    if e < 0 {
      OneIsEven(f);
      Pow2Mono(1, -e);
      assert Pow2(1) == 2;
      MulLeRight(2 * Lead(f) - 4, 2, Pow2(-e));
      MulComm(2 * Lead(f) - 4, 2);
      SmallMultiples(2 * Lead(f) - 4);
    }
  }

  /** A normal dividend gives a quotient of at least half the leading bit. */
  lemma {:induction false} QuotientHalf(f: Format, m: nat, q: nat, r: nat, d: nat)
    requires f.Valid() && m >= f.One() && d < 2 * f.One() && Mul(m, f.One()) == Mul(q, d) + r && r < d
    ensures 2 * q >= f.One()
  {
    var p := f.One();
    OneIsEven(f);
    MulLe(p, m, p);
    MulAdd(q, 1, d);
    MulOne(d);
    MulLeRight(q + 1, d, 2 * p);
    MulTwo(q + 1, p);
    MulOrder(p, 2 * (q + 1), p);
    HalfOfEven(q, 4 * Pow2(f.P() - 3));
  }

  lemma {:induction false} HalfOfEven(q: nat, h: nat)
    requires 2 * h < 2 * (q + 1)
    ensures 2 * q >= 2 * h
  {
  }

  /** The exactly rounded outcome, from the register of an exact division. */
  lemma {:induction false} TrueQuotientDelivers(f: Format, mode: Mode, a: Fp, b: Fp, q: nat, r: nat)
    requires f.Valid() && Finite(f, a) && Finite(f, b) && !Ieee754.IsZero(b) && (mode == Nearest || mode == Zero)
    requires q < 2 * f.One() && r < DivisorSig(f, b) && Mul(Sig(f, a), f.One()) == Mul(q, DivisorSig(f, b)) + r
    requires a.expo > 0 || Settled(f, Lowered(DivExpo(f, a, b)), 8 * q + TrueBits(r, DivisorSig(f, b)))
    ensures var (x, res) :=
              Norm(f, mode, a.sign != b.sign, Lowered(DivExpo(f, a, b)), 8 * q + TrueBits(r, DivisorSig(f, b)));
      Delivers(f, mode, a.sign != b.sign, DivNum(f, a), Units(f, b), x, res)
  {
    var d, e := DivisorSig(f, b), Lowered(DivExpo(f, a, b));
    var s := 8 * q + TrueBits(r, d);
    DivisorNormal(f, b);
    TrueEncoded(f, a, b, q, r);
    QuotientRoomy(f, e, s);
    if a.expo > 0 { QuotientHalf(f, Sig(f, a), q, r, d); }
    if s == 0 {
      ZeroDelivered(f, mode, a.sign != b.sign, e, DivNum(f, a), Units(f, b));
    } else {
      NormDelivers(f, mode, a.sign != b.sign, e, s, DivNum(f, a), Units(f, b));
    }
  }

  /**
   * ar_ifdiv64 delivers the quotient of finite operands correctly rounded, with the right
   * flags, in NEAREST and ZERO, if the divisor significand is a multiple of eight and the
   * quotient needs no left shift of a sticky bit, as for every normal dividend.
   */
  lemma {:induction false} DivDelivers(f: Format, mode: Mode, a: Fp, b: Fp)
    requires f.Valid() && Finite(f, a) && Finite(f, b) && !Ieee754.IsZero(b) && (mode == Nearest || mode == Zero)
    requires DivisorSig(f, b) % 8 == 0
    requires a.expo > 0 || Settled(f, Lowered(DivExpo(f, a, b)), DivRegister(f, a, b))
    ensures var (x, res) := DivSpec(f, mode, a, b);
      Delivers(f, mode, a.sign != b.sign, DivNum(f, a), Units(f, b), x, res)
  {
    var q, r := RegisterOfQuotient(f, a, b);
    TailExact(r, DivisorSig(f, b));
    TrueQuotientDelivers(f, mode, a, b, q, r);
  }

  lemma {:induction false} TrueEncoded(f: Format, a: Fp, b: Fp, q: nat, r: nat)
    requires f.Valid() && a.coeff < f.One() && !Ieee754.IsZero(b) && b.coeff < f.One()
    requires r < DivisorSig(f, b) && Mul(Sig(f, a), f.One()) == Mul(q, DivisorSig(f, b)) + r
    ensures Encodes(Lowered(DivExpo(f, a, b)), 8 * q + TrueBits(r, DivisorSig(f, b)), DivNum(f, a), Units(f, b))
    ensures Units(f, b) > 0
  {
    TrueStands(Mul(Sig(f, a), f.One()), q, r, DivisorSig(f, b));
    QuotientEncodes(f, a, b, 8 * q + TrueBits(r, DivisorSig(f, b)));
    Addition.ZeroUnits(f, b);
  }

  // ---- The operation on records ----

  /** Leading bit, coefficient and extension as one number. */
  ghost function Wide(f: Format, bit: nat, high: seq<nat>, low: seq<nat>): nat {
    Pair(Mul(bit, f.One()) + Val(high), Val(low), f.One())
  }

  lemma {:induction false} PairOrder(h: nat, l: nat, h': nat, l': nat, p: nat)
    requires l < p && l' < p
    ensures Mul(h, p) + l < Mul(h', p) + l' <==> h < h' || (h == h' && l < l')
    ensures Mul(h, p) + l == Mul(h', p) + l' <==> h == h' && l == l'
  {
    if h < h' { MulLt(h, h', p); }
    if h' < h { MulLt(h', h, p); }
  }

  /** z <= y, compared leading bit first and then limb by limb. */
  method AtMost(f: Format, zBit: nat, z: seq<nat>, z2: seq<nat>, yBit: nat, y: seq<nat>, y2: seq<nat>)
    returns (le: bool)
    requires f.Valid() && IsRow(f, z) && IsRow(f, z2) && IsRow(f, y) && IsRow(f, y2)
    ensures le <==> Wide(f, zBit, z, z2) <= Wide(f, yBit, y, y2)
  {
    RowOrder(f.top, z, y);
    RowOrder(f.top, z2, y2);
    WideOrder(f, zBit, z, z2, yBit, y, y2);
    var c, c2 := CompareRows(z, y, 0), CompareRows(z2, y2, 0);
    le := zBit < yBit || (zBit == yBit && (c < 0 || (c == 0 && c2 <= 0)));
  }

  lemma {:induction false} WideOrder(f: Format, zBit: nat, z: seq<nat>, z2: seq<nat>, yBit: nat, y: seq<nat>,
        y2: seq<nat>)
    requires f.Valid() && IsRow(f, z) && IsRow(f, z2) && IsRow(f, y) && IsRow(f, y2)
    ensures Wide(f, zBit, z, z2) <= Wide(f, yBit, y, y2) <==>
      zBit < yBit || (zBit == yBit && (Val(z) < Val(y) || (Val(z) == Val(y) && Val(z2) <= Val(y2))))
  {
    var p := f.One();
    Numbers.RowBound(f, z);
    Numbers.RowBound(f, z2);
    Numbers.RowBound(f, y);
    Numbers.RowBound(f, y2);
    PairOrder(Mul(zBit, p) + Val(z), Val(z2), Mul(yBit, p) + Val(y), Val(y2), p);
    PairOrder(zBit, Val(z), yBit, Val(y), p);
  }

  /** Complement-and-add subtracts, the leading bits being taken modulo two. */
  lemma {:induction false} WideMinus(yBit: nat, y: nat, y2: nat, zBit: nat, z: nat, z2: nat, p: nat, c: nat, r2: nat,
        c': nat, r: nat)
    requires yBit <= 1 && zBit <= 1 && y < p && y2 < p && z < p && z2 < p && r < p && r2 < p
    requires r2 + Mul(c, p) == y2 + (p - 1 - z2) + 1 && r + Mul(c', p) == y + (p - 1 - z) + c
    requires Pair(Mul(zBit, p) + z, z2, p) <= Pair(Mul(yBit, p) + y, y2, p)
    ensures Pair(Mul((yBit + c' + (1 - zBit)) % 2, p) + r, r2, p)
         == Pair(Mul(yBit, p) + y, y2, p) - Pair(Mul(zBit, p) + z, z2, p)
  {
    hide Mul;
    Addition.CarryIsBit(c, p, r2, y2 + (p - 1 - z2) + 1);
    Addition.CarryIsBit(c', p, r, y + (p - 1 - z) + c);
    PairOrder(Mul(zBit, p) + z, z2, Mul(yBit, p) + y, y2, p);
    SmallMultiples(p);
    var hy, hz := Mul(yBit, p) + y, Mul(zBit, p) + z;
    assert hz + (1 - c) <= hy;
    HighMinus(yBit, y, zBit, z, p, c, c', r);
    MulSub(hy, hz + (1 - c), p);
    MulAdd(hz, 1 - c, p);
  }

  lemma {:induction false} HighMinus(yBit: nat, y: nat, zBit: nat, z: nat, p: nat, c: nat, c': nat, r: nat)
    requires yBit <= 1 && zBit <= 1 && y < p && z < p && r < p && c <= 1 && c' <= 1
    requires r + Mul(c', p) == y + (p - 1 - z) + c
    requires Mul(zBit, p) + z + (1 - c) <= Mul(yBit, p) + y
    ensures Mul((yBit + c' + (1 - zBit)) % 2, p) + r == Mul(yBit, p) + y - (Mul(zBit, p) + z + (1 - c))
  {
    SmallMultiples(p);
  }

  /** One row of a difference: add the complement. */
  method SubtractRow(f: Format, a: seq<nat>, b: seq<nat>, carry: nat) returns (d: seq<nat>, out: nat)
    requires f.Valid() && IsRow(f, a) && IsRow(f, b)
    ensures IsRow(f, d) && Val(a) < f.One() && Val(b) < f.One() && Val(d) < f.One()
    ensures Val(d) + Mul(out, f.One()) == Val(a) + (f.One() - 1 - Val(b)) + carry
  {
    Numbers.RowBound(f, a);
    var complement := NotRow(f, b);
    d, out := AddRows(f, a, complement, carry);
    Numbers.RowBound(f, d);
  }

  /** Take the scaled denominator from the numerator. */
  method WideSubtract(f: Format, zBit: nat, z: seq<nat>, z2: seq<nat>, yBit0: nat, y0: seq<nat>, y20: seq<nat>)
    returns (yBit: nat, y: seq<nat>, y2: seq<nat>)
    requires f.Valid() && IsRow(f, z) && IsRow(f, z2) && IsRow(f, y0) && IsRow(f, y20) && zBit <= 1 && yBit0 <= 1
    requires Wide(f, zBit, z, z2) <= Wide(f, yBit0, y0, y20)
    ensures yBit <= 1 && IsRow(f, y) && IsRow(f, y2)
    ensures Wide(f, yBit, y, y2) == Wide(f, yBit0, y0, y20) - Wide(f, zBit, z, z2)
  {
    var carry, out;
    y2, carry := SubtractRow(f, y20, z2, 1);
    y, out := SubtractRow(f, y0, z, carry);
    yBit := (yBit0 + out + (1 - zBit)) % 2;
    WideMinus(yBit0, Val(y0), Val(y20), zBit, Val(z), Val(z2), f.One(), carry, Val(y2), out, Val(y));
  }

  lemma {:induction false} WideHalf(bit: nat, z: nat, z2: nat, p: nat, r: nat, r2: nat)
    requires bit <= 1 && 2 * r + z % 2 == z + (if bit == 1 then p else 0)
    requires 2 * r2 + z2 % 2 == z2 + if z % 2 == 1 then p else 0
    ensures Pair(Mul(0, p) + r, r2, p) == Pair(Mul(bit, p) + z, z2, p) / 2
  {
    var h := Mul(bit, p) + z;
    SmallMultiples(p);
    MulTwo(r, p);
    MulAdd(2 * r, z % 2, p);
    DivMod2(Pair(h, z2, p), Pair(r, r2, p), z2 % 2);
  }

  /** SHRIGHTIEEE64_2, then the leading bit ORed in. */
  method WideShiftRight(f: Format, bit: nat, z: seq<nat>, z2: seq<nat>) returns (r: seq<nat>, r2: seq<nat>)
    requires f.Valid() && IsRow(f, z) && IsRow(f, z2) && bit <= 1
    ensures IsRow(f, r) && IsRow(f, r2)
    ensures Wide(f, 0, r, r2) == Wide(f, bit, z, z2) / 2
  {
    var low := LowBitOf(f, z);
    r2 := ShiftRightRow(f, z2, low);
    r := ShiftRightRow(f, z, bit);
    WideHalf(bit, Val(z), Val(z2), f.One(), Val(r), Val(r2));
  }

  /** The quotient register shifted left, its last bit free. */
  lemma {:induction false} QuotientShift(v: nat, r: nat, p: nat, v': nat, l': nat)
    requires v < p && r < 8 && v' == 2 * v + r / 4 - if 2 * v >= p then p else 0
    requires l' == if 2 * v >= p then 1 else 0
    ensures (Mul(l', p) + v') * 8 + r * 2 % 8 == 2 * ((Mul(0, p) + v) * 8 + r) && r * 2 % 8 <= 6
  {
    SmallMultiples(p);
    DivMod8(r * 2, r / 4, r * 2 - 8 * (r / 4));
  }

  /** Shift the quotient register left and put in the new bit. */
  method ShiftQuotient(x: Number, ghost lbits0: nat, rbits0: nat, bit: nat) returns (lbits: nat, rbits: nat)
    requires x.Valid() && rbits0 < 8 && bit <= 1 && Register(x.f, lbits0, x.C(), rbits0) < Lead(x.f)
    modifies x`coeff
    ensures x.Valid() && rbits < 8
    ensures Register(x.f, lbits, x.C(), rbits) == 2 * Register(x.f, lbits0, old(x.C()), rbits0) + bit
  {
    ghost var v := x.C();
    x.CoeffBound();
    LeadBit(x, lbits0, rbits0);
    lbits := x.LeadingBit();
    x.ShiftLeft(rbits0 / 4);
    rbits := rbits0 * 2 % 8 + bit;
    QuotientShift(v, rbits0, x.f.One(), x.C(), lbits);
  }

  /** One quotient bit a round: quotient bits in x, the remainder in y and y2. */
  method DivideLoop(x: Number, y0: seq<nat>, yBit0: nat, z0: seq<nat>, zBit0: nat)
    returns (lbits: nat, rbits: nat, yBit: nat, y: seq<nat>, y2: seq<nat>)
    requires x.Valid() && x.C() == 0 && IsRow(x.f, y0) && IsRow(x.f, z0) && yBit0 <= 1 && zBit0 <= 1
    modifies x`coeff
    ensures x.Valid() && rbits < 8 && IsRow(x.f, y) && IsRow(x.f, y2)
    ensures (Register(x.f, lbits, x.C(), rbits), Wide(x.f, yBit, y, y2))
         == DivRounds(0, Mul(Mul(yBit0, x.f.One()) + Val(y0), x.f.One()),
             Mul(Mul(zBit0, x.f.One()) + Val(z0), x.f.One()), x.f.P() + 4)
  {
    ghost var f, n := x.f, x.f.P() + 4;
    ghost var r0, d0 := Mul(Mul(yBit0, f.One()) + Val(y0), f.One()), Mul(Mul(zBit0, f.One()) + Val(z0), f.One());
    lbits, rbits, y, yBit := 0, 0, y0, yBit0;
    y2 := Zeros(x.f.low + 1);
    var z, zBit, z2 := z0, zBit0, Zeros(x.f.low + 1);
    MulOne(f.One());
    ghost var q, r, d := 0, r0, d0;
    var i := 0;
    while i < x.f.P() + 4
      invariant i <= n && x.Valid() && rbits < 8 && yBit <= 1 && zBit <= 1
      invariant IsRow(f, y) && IsRow(f, y2) && IsRow(f, z) && IsRow(f, z2)
      invariant q == Register(f, lbits, x.C(), rbits) < Pow2(i)
      invariant r == Wide(f, yBit, y, y2) && d == Wide(f, zBit, z, z2)
      invariant DivRounds(q, r, d, n - i) == DivRounds(0, r0, d0, n)
    {
      lbits, rbits, yBit, y, y2, z, z2 := DivideRound(x, lbits, rbits, yBit, y, y2, zBit, z, z2, i);
      zBit := 0;
      q, r, d := if d <= r then 2 * q + 1 else 2 * q, if d <= r then r - d else r, d / 2;
      i := i + 1;
    }
  }

  /** One round of the loop. */
  method DivideRound(x: Number, lbits0: nat, rbits0: nat, yBit0: nat, y0: seq<nat>, y20: seq<nat>,
                     zBit: nat, z0: seq<nat>, z20: seq<nat>, ghost i: nat)
    returns (lbits: nat, rbits: nat, yBit: nat, y: seq<nat>, y2: seq<nat>, z: seq<nat>, z2: seq<nat>)
    requires x.Valid() && rbits0 < 8 && yBit0 <= 1 && zBit <= 1 && i < x.f.P() + 4
    requires IsRow(x.f, y0) && IsRow(x.f, y20) && IsRow(x.f, z0) && IsRow(x.f, z20)
    requires Register(x.f, lbits0, x.C(), rbits0) < Pow2(i)
    modifies x`coeff
    ensures x.Valid() && rbits < 8 && yBit <= 1 && Register(x.f, lbits, x.C(), rbits) < Pow2(i + 1)
    ensures IsRow(x.f, y) && IsRow(x.f, y2) && IsRow(x.f, z) && IsRow(x.f, z2)
    ensures var q := Register(x.f, lbits0, old(x.C()), rbits0);
            var r, d := Wide(x.f, yBit0, y0, y20), Wide(x.f, zBit, z0, z20);
      && Register(x.f, lbits, x.C(), rbits) == (if d <= r then 2 * q + 1 else 2 * q)
      && Wide(x.f, yBit, y, y2) == (if d <= r then r - d else r)
      && Wide(x.f, 0, z, z2) == d / 2
  {
    BelowLead(x.f, Register(x.f, lbits0, x.C(), rbits0), i);
    var bit;
    bit, yBit, y, y2 := SubtractIfAtMost(x.f, zBit, z0, z20, yBit0, y0, y20);
    z, z2 := WideShiftRight(x.f, zBit, z0, z20);
    lbits, rbits := ShiftQuotient(x, lbits0, rbits0, bit);
  }

  lemma {:induction false} BelowLead(f: Format, q: nat, i: nat)
    requires q < Pow2(i) && i < f.P() + 4
    ensures q < Lead(f)
  {
    LeadIsPow2(f);
    Pow2Mono(i, f.P() + 3);
  }

  /** The scaled divisor goes into the remainder. */
  method SubtractIfAtMost(f: Format, zBit: nat, z: seq<nat>, z2: seq<nat>, yBit0: nat, y0: seq<nat>, y20: seq<nat>)
    returns (bit: nat, yBit: nat, y: seq<nat>, y2: seq<nat>)
    requires f.Valid() && IsRow(f, z) && IsRow(f, z2) && IsRow(f, y0) && IsRow(f, y20) && zBit <= 1 && yBit0 <= 1
    ensures yBit <= 1 && IsRow(f, y) && IsRow(f, y2)
    ensures var r, d := Wide(f, yBit0, y0, y20), Wide(f, zBit, z, z2);
      bit == (if d <= r then 1 else 0) && Wide(f, yBit, y, y2) == if d <= r then r - d else r
  {
    bit, yBit, y, y2 := 0, yBit0, y0, y20;
    var le := AtMost(f, zBit, z, z2, yBit0, y0, y20);
    if le {
      yBit, y, y2 := WideSubtract(f, zBit, z, z2, yBit0, y0, y20);
      bit := 1;
    }
  }

  /** A denormalized divisor is shifted until its leading bit is set. */
  method NormalizeDivisor(f: Format, z0: seq<nat>, expo0: int) returns (z: seq<nat>, zBit: nat, expo: int)
    requires f.Valid() && IsRow(f, z0) && Val(z0) > 0
    ensures IsRow(f, z) && zBit == 1
    ensures Mul(zBit, f.One()) + Val(z) == Leading(Val(z0), f.One()).0 && expo == expo0 + Leading(Val(z0), f.One()).1
  {
    z, zBit, expo := z0, 0, expo0;
    ghost var m := Val(z0);
    Numbers.RowBound(f, z);
    MulOne(f.One());
    while zBit == 0
      invariant IsRow(f, z) && zBit <= 1 && m > 0 && m == Mul(zBit, f.One()) + Val(z) && (zBit == 0 <==> m < f.One())
      invariant Leading(Val(z0), f.One()) == (Leading(m, f.One()).0, Leading(m, f.One()).1 + (expo - expo0))
      decreases f.One() - m
    {
      zBit, z := ShiftLeftRow(f, z);
      Numbers.RowBound(f, z);
      m := 2 * m;
      expo := expo + 1;
    }
  }

  /** The remainder that is left fits the extension, whose limbs make the sticky bit. */
  lemma {:induction false} LastRemainder(f: Format, a: Fp, b: Fp)
    requires f.Valid() && a.coeff < f.One() && b.coeff < f.One() && !Ieee754.IsZero(b)
    ensures DivRounds(0, Mul(Sig(f, a), f.One()), Mul(DivisorSig(f, b), f.One()), f.P() + 4).1 < f.One()
  {
    var m, d, p := Sig(f, a), DivisorSig(f, b), f.One();
    DivisorNormal(f, b);
    FirstBelow(m, d, p);
    var q, r := ExactPart(0, Mul(m, p), d, f.P());
    TailShift(q, r, d / 2, 3);
    TailUnrolled(r, d / 2, d / 2 / 2, d / 2 / 2 / 2);
    TailSmall(r, d, p);
  }

  lemma {:induction false} TailSmall(r: nat, d: nat, p: nat)
    requires r < d < 2 * p
    ensures if d / 2 <= r then r - d / 2 < p else r < p
  {
  }

  lemma {:induction false} LowIsAll(f: Format, bit: nat, y: seq<nat>, y2: seq<nat>)
    requires f.Valid() && IsRow(f, y) && IsRow(f, y2) && Wide(f, bit, y, y2) < f.One()
    ensures Wide(f, bit, y, y2) == Val(y2)
  {
    var h := Mul(bit, f.One()) + Val(y);
    MulOne(f.One());
    MulOrder(h, 1, f.One());
    MulOne(Val(y));
  }

  /** Quotient of finite operands with a nonzero divisor. */
  method DivideFinite(x: Number, a: Number, b: Number, neg: bool, mode: Mode) returns (res: set<Flag>)
    requires x.Valid() && a.Valid() && b.Valid() && a.f == x.f && b.f == x.f && neg == (a.sign != b.sign)
    requires a.expo <= x.f.MaxExpo() && b.expo <= x.f.MaxExpo() && !Ieee754.IsZero(b.Abs())
    modifies x
    ensures x.Valid()
    ensures (x.Abs(), res) == DivSpec(x.f, mode, old(a.Abs()), old(b.Abs()))
  {
    ghost var A, B := a.Abs(), b.Abs();
    a.CoeffBound();
    b.CoeffBound();
    MulOne(x.f.One());
    var y, yBit := a.coeff, if a.expo != 0 then 1 else 0;
    var z, zBit, expo := ScaleDivisor(a, b);
    x.SetCoeff(neg, 0, Zeros(x.f.low + 1));
    var lbits, rbits := QuotientBits(x, y, yBit, z, zBit, A, B);
    res := Normalize(x, expo, lbits, rbits, mode);
  }

  /** The normalized divisor and the exponent of the result. */
  method ScaleDivisor(a: Number, b: Number) returns (z: seq<nat>, zBit: nat, expo: int)
    requires a.Valid() && b.Valid() && a.f == b.f && !Ieee754.IsZero(b.Abs())
    ensures IsRow(b.f, z) && zBit <= 1 && expo == Lowered(DivExpo(b.f, a.Abs(), b.Abs()))
    ensures Mul(zBit, b.f.One()) + Val(z) == DivisorSig(b.f, b.Abs())
  {
    MulOne(b.f.One());
    z, zBit := b.coeff, if b.expo != 0 then 1 else 0;
    expo := a.expo - b.expo + (if a.expo == 0 then 1 else 0) - (if b.expo == 0 then 1 else 0) + b.f.bias;
    if zBit == 0 {
      z, zBit, expo := NormalizeDivisor(b.f, z, expo);
    }
    if expo <= 0 { expo := expo - 1; }
  }

  /** The loop and the sticky rounding bit. */
  method QuotientBits(x: Number, y0: seq<nat>, yBit0: nat, z0: seq<nat>, zBit0: nat, ghost a: Fp, ghost b: Fp)
    returns (lbits: nat, rbits: nat)
    requires x.Valid() && x.C() == 0 && IsRow(x.f, y0) && IsRow(x.f, z0) && yBit0 <= 1 && zBit0 <= 1
    requires a.coeff < x.f.One() && b.coeff < x.f.One() && !Ieee754.IsZero(b)
    requires Mul(yBit0, x.f.One()) + Val(y0) == Sig(x.f, a) && Mul(zBit0, x.f.One()) + Val(z0) == DivisorSig(x.f, b)
    modifies x`coeff
    ensures x.Valid() && rbits < 8
    ensures Register(x.f, lbits, x.C(), rbits) == DivRegister(x.f, a, b)
  {
    var yBit, y, y2;
    lbits, rbits, yBit, y, y2 := DivideLoop(x, y0, yBit0, z0, zBit0);
    LastRemainder(x.f, a, b);
    LowIsAll(x.f, yBit, y, y2);
    ghost var r := rbits;
    if !Limbs.IsZero(y2) && rbits % 2 == 0 {
      rbits := rbits + 1;
    }
    ghost var n := Mul(lbits, x.f.One()) + x.C();
    DivMod2(n * 8 + r, 4 * n + r / 2, r % 2);
  }

  /** NaN operands, infinities and a zero divisor. */
  method DivideSpecial(x: Number, a: Number, b: Number, neg: bool) returns (res: set<Flag>)
    requires x.Valid() && a.Valid() && b.Valid() && a.f == x.f && b.f == x.f && neg == (a.sign != b.sign)
    requires a.expo > x.f.MaxExpo() || b.expo > x.f.MaxExpo() || Ieee754.IsZero(b.Abs())
    modifies x
    ensures x.Valid()
    ensures forall mode :: (x.Abs(), res) == DivSpec(x.f, mode, old(a.Abs()), old(b.Abs()))
  {
    if a.IsNaNNumber() {
      x.Assign(a);
      return {Undefined};
    }
    if b.IsNaNNumber() {
      x.Assign(b);
      return {Undefined};
    }
    if b.expo > x.f.MaxExpo() {
      if a.expo > x.f.MaxExpo() {
        x.SetQuietNaN();
        return {Undefined};
      }
      x.SetCoeff(neg, 0, Zeros(x.f.low + 1));
      return SignFlag(neg) + {Underflow, ZeroResult};
    }
    if a.expo > x.f.MaxExpo() {
      x.Assign(a);
      x.sign := neg;
      return SignFlag(neg) + {Overflow};
    }
    if a.expo == 0 && a.IsZeroCoeff() {
      x.SetQuietNaN();
      return {Undefined};
    }
    x.SetCoeff(neg, x.f.MaxExpo() + 1, Zeros(x.f.low + 1));
    return SignFlag(neg) + {Overflow};
  }

  /** ar_ifdiv32, ar_ifdiv64. The result may be the same object as an operand. */
  method Divide(x: Number, a: Number, b: Number, mode: Mode) returns (res: set<Flag>)
    requires x.Valid() && a.Valid() && b.Valid() && a.f == x.f && b.f == x.f
    modifies x
    ensures x.Valid()
    ensures (x.Abs(), res) == DivSpec(x.f, mode, old(a.Abs()), old(b.Abs()))
  {
    var neg := a.sign != b.sign;
    if a.expo > x.f.MaxExpo() || b.expo > x.f.MaxExpo() || (b.expo == 0 && b.IsZeroCoeff()) {
      res := DivideSpecial(x, a, b, neg);
    } else {
      res := DivideFinite(x, a, b, neg, mode);
    }
  }
}
