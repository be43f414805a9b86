/**
 * ieee_fmul.c: ar_ifmul32 and ar_ifmul64.
 */
module Multiply {
  import opened Powers
  import opened Limbs
  import opened Ieee754
  import opened Normalizer
  import opened Exactness
  import opened Numbers

  function MulExpo(f: Format, a: Fp, b: Fp): int {
    Lowered(Effective(a.expo) + Effective(b.expo) - f.bias)
  }

  /** The exact product of the significands, cut to three rounding bits. */
  function MulRegister(f: Format, a: Fp, b: Fp): nat
    requires f.Valid()
  {
    JamN(Mul(Sig(f, a), Sig(f, b)), f.P() - 3)
  }

  /** ar_ifmul64 as a function of its operands. */
  function MulSpec(f: Format, mode: Mode, a: Fp, b: Fp): (Fp, set<Flag>)
    requires f.Valid()
  {
    var neg := a.sign != b.sign;
    if IsNaN(f, a) then (a, {Undefined})
    else if IsNaN(f, b) then (b, {Undefined})
    else if b.expo > f.MaxExpo() then
      if Ieee754.IsZero(a) then (QuietNaN(f), {Undefined})
      else (Fp(neg, b.expo, b.coeff), SignFlag(neg) + {Overflow})
    else if a.expo > f.MaxExpo() then
      if Ieee754.IsZero(b) then (QuietNaN(f), {Undefined})
      else (Fp(neg, a.expo, a.coeff), SignFlag(neg) + {Overflow})
    else
      Norm(f, mode, neg, MulExpo(f, a, b), MulRegister(f, a, b))
  }

  // ---- The product is correctly rounded ----

  /** The register stands for the exact product, in units. */
  lemma {:induction false} ProductEncoded(f: Format, a: Fp, b: Fp)
    requires f.Valid()
    ensures Encodes(MulExpo(f, a, b), MulRegister(f, a, b), Mul(Units(f, a), Units(f, b)), f.UnitsPerOne())
  {
    var prod, k := Mul(Sig(f, a), Sig(f, b)), f.P() - 3;
    var i, j := Effective(a.expo) - 1, Effective(b.expo) - 1;
    JamNStands(prod, k);
    MulSwap(Sig(f, a), Pow2(i), Sig(f, b), Pow2(j));
    Pow2Add(i, j);
    ScaledEncodes(MulRegister(f, a, b), prod, k, i + j, f.bias - 1);
  }

  /** A product of significands is too small to make a late carry. */
  lemma {:induction false} ProductRoomy(f: Format, a: Fp, b: Fp)
    requires f.Valid() && Finite(f, a) && Finite(f, b)
    ensures Roomy(f, MulExpo(f, a, b), MulRegister(f, a, b))
  {
    var e, s := MulExpo(f, a, b), MulRegister(f, a, b);
    var p, k := f.One(), f.P() - 3;
    if e < 0 {
      OneIsEven(f);
      JamNStands(Mul(Sig(f, a), Sig(f, b)), k);
      ProductBound(Sig(f, a), Sig(f, b), p);
      RegisterBound(s, Mul(Sig(f, a), Sig(f, b)), Pow2(k));
      MulLeRight(16 * p - 4, 2, Pow2(-e)) by { Pow2Mono(1, -e); assert Pow2(1) == 2; }
      MulComm(16 * p - 4, 2);
      SmallMultiples(16 * p - 4);
    }
  }

  lemma {:induction false} ProductBound(m: nat, n: nat, p: nat)
    requires m < 2 * p && n < 2 * p && p > 0
    ensures Mul(m, n) + 4 * p <= 4 * Mul(p, p) + 1
  {
    MulLe(m, 2 * p - 1, n);
    MulLeRight(2 * p - 1, n, 2 * p - 1);
    MulSub(2 * p, 1, 2 * p - 1);
    MulOne(2 * p - 1);
    MulComm(2 * p, 2 * p - 1);
    MulSub(2 * p, 1, 2 * p);
    MulOne(2 * p);
    MulTwo(p, 2 * p);
    MulTwo(p, p);
  }

  lemma {:induction false} RegisterBound(s: nat, prod: nat, w: nat)
    requires w > 0 && Stands(s, prod, w) && prod + 32 * w <= 4 * Mul(8 * w, 8 * w) + 1
    ensures s + 16 < 32 * (8 * w)
  {
    var p := 8 * w;
    StandsAbove(s, prod, w);
    ThirtyTwo(p, w);
    if s + 16 >= 32 * p {
      MulLe(32 * p, s + 16, w);
      MulAdd(s, 16, w);
      MulIs(16, w);
    }
  }

  lemma {:induction false} StandsAbove(s: nat, prod: nat, w: nat)
    requires Stands(s, prod, w)
    ensures Mul(s, w) <= prod + w
  {
    if s % 2 == 1 {
      MulSub(s, 1, w);
      MulOne(w);
    }
  }

  lemma {:induction false} ThirtyTwo(p: nat, w: nat)
    ensures Mul(32 * p, w) == 4 * Mul(p, 8 * w)
  {
    MulEight(p, w);
    MulTwo(8 * p, w);
    MulTwo(16 * p, w);
  }

  /** Both operands normal: the product has its leading bit, and no left shift is made. */
  lemma {:induction false} NormalsSettled(f: Format, a: Fp, b: Fp)
    requires f.Valid() && Finite(f, a) && Finite(f, b) && a.expo > 0 && b.expo > 0
    ensures MulRegister(f, a, b) >= Lead(f)
  {
    var s, prod, w := MulRegister(f, a, b), Mul(Sig(f, a), Sig(f, b)), Pow2(f.P() - 3);
    var p := f.One();
    OneIsEven(f);
    JamNStands(prod, f.P() - 3);
    MulLe(p, Sig(f, a), Sig(f, b));
    MulLeRight(p, p, Sig(f, b));
    MulEight(p, w);
    MulLt(s, s + 1, w);
    if s < 8 * p {
      MulLe(s + 1, 8 * p, w);
    }
  }

  /**
   * ar_ifmul64 in NEAREST and ZERO delivers the exact product correctly rounded, for all
   * finite operands whose product needs no left shift of a sticky bit: in particular for
   * all normal operands, down to denormalized and zero results and up to infinity.
   */
  lemma {:induction false} MulDelivers(f: Format, mode: Mode, a: Fp, b: Fp)
    requires f.Valid() && Finite(f, a) && Finite(f, b) && (mode == Nearest || mode == Zero)
    requires (a.expo > 0 && b.expo > 0) || Settled(f, MulExpo(f, a, b), MulRegister(f, a, b))
    ensures var (x, res) := MulSpec(f, mode, a, b);
      Delivers(f, mode, a.sign != b.sign, Mul(Units(f, a), Units(f, b)), f.UnitsPerOne(), x, res)
  {
    var e, s := MulExpo(f, a, b), MulRegister(f, a, b);
    ProductEncoded(f, a, b);
    ProductRoomy(f, a, b);
    if a.expo > 0 && b.expo > 0 { NormalsSettled(f, a, b); }
    if s > 0 {
      NormDelivers(f, mode, a.sign != b.sign, e, s, Mul(Units(f, a), Units(f, b)), f.UnitsPerOne());
    } else {
      ZeroDelivered(f, mode, a.sign != b.sign, e, Mul(Units(f, a), Units(f, b)), f.UnitsPerOne());
    }
  }

  // ---- All products ----

  /** The quotient that decides about an unsettled product: what it is in units, and what its
      register is in multiples of the rounding bits. */
  lemma {:induction false} ProductScales(f: Format, a: Fp, b: Fp)
    requires f.Valid() && MulExpo(f, a, b) >= 1
    ensures var c := Pow2(Effective(a.expo) + Effective(b.expo) + 1);
      && 8 * Mul(Units(f, a), Units(f, b)) == Mul(Mul(Sig(f, a), Sig(f, b)), c)
      && Mul(Weight(MulExpo(f, a, b)), f.UnitsPerOne()) == Mul(Pow2(f.P() - 3), c)
  {
    var i, j := Effective(a.expo) - 1, Effective(b.expo) - 1;
    MulSwap(Sig(f, a), Pow2(i), Sig(f, b), Pow2(j));
    Pow2Add(i, j);
    EightTimesPow2(Mul(Sig(f, a), Sig(f, b)), i + j);
    Pow2Add(i + j + 1 - f.bias, f.bias + f.P() - 1);
    Pow2Add(f.P() - 3, i + j + 3);
  }

  /** Only a product with a denormalized operand can be unsettled, and it is too small to overflow. */
  lemma {:induction false} UnsettledFinite(f: Format, mode: Mode, a: Fp, b: Fp)
    requires f.Valid() && Finite(f, a) && Finite(f, b) && (mode == Nearest || mode == Zero)
    requires !Settled(f, MulExpo(f, a, b), MulRegister(f, a, b))
    ensures MulSpec(f, mode, a, b).0.expo <= f.MaxExpo() && MulExpo(f, a, b) > 2
  {
    var e, s := MulExpo(f, a, b), MulRegister(f, a, b);
    if a.expo > 0 && b.expo > 0 { NormalsSettled(f, a, b); }
    var k, m := FilledPacks(f, mode, a.sign != b.sign, e, s);
  }

  /**
   * ar_ifmul64 in NEAREST and ZERO, for all finite operands: correctly rounded exactly if the
   * register of the product settles, as it does for normal operands, or if the product of the
   * significands is near enough to what the left shifts fill its register up to. INEXACT is
   * right in NEAREST, and in ZERO but for a product that the filled register happens to deliver.
   */
  lemma {:induction false} MulExactly(f: Format, mode: Mode, a: Fp, b: Fp)
    requires f.Valid() && Finite(f, a) && Finite(f, b) && (mode == Nearest || mode == Zero)
    ensures var e, s := MulExpo(f, a, b), MulRegister(f, a, b); var k := LeftShiftCount(f, e, s);
      var n, w := Mul(Sig(f, a), Sig(f, b)), Pow2(f.P() - 3);
      var (x, res) := MulSpec(f, mode, a, b); var num, den := Mul(Units(f, a), Units(f, b)), f.UnitsPerOne();
      && (Correct(f, mode, x, num, den) <==> Settled(f, e, s) || NearFilled(mode, s, k, n, w))
      && (ReportsInexact(f, num, den, x, res)
         <==> Settled(f, e, s) || mode == Nearest || !FilledExact(mode, s, k, n, w))
      && (a.expo > 0 && b.expo > 0 ==> Settled(f, e, s))
  {
    if a.expo > 0 && b.expo > 0 { NormalsSettled(f, a, b); }
    if Settled(f, MulExpo(f, a, b), MulRegister(f, a, b)) {
      MulDelivers(f, mode, a, b);
    } else {
      var (x, res) := MulSpec(f, mode, a, b);
      UnsettledProduct(f, mode, a, b, x, res);
    }
  }

  lemma {:induction false} UnsettledProduct(f: Format, mode: Mode, a: Fp, b: Fp, x: Fp, res: set<Flag>)
    requires f.Valid() && Finite(f, a) && Finite(f, b) && (mode == Nearest || mode == Zero)
    requires !Settled(f, MulExpo(f, a, b), MulRegister(f, a, b)) && (x, res) == MulSpec(f, mode, a, b)
    ensures var s := MulRegister(f, a, b); var k := LeftShiftCount(f, MulExpo(f, a, b), s);
      var n, w := Mul(Sig(f, a), Sig(f, b)), Pow2(f.P() - 3);
      var num, den := Mul(Units(f, a), Units(f, b)), f.UnitsPerOne();
      && (Correct(f, mode, x, num, den) <==> NearFilled(mode, s, k, n, w))
      && (ReportsInexact(f, num, den, x, res) <==> mode == Nearest || !FilledExact(mode, s, k, n, w))
  {
    hide Mul, Norm, Correct, ReportsInexact, NearFilled;
    var e, s, n, w := MulExpo(f, a, b), MulRegister(f, a, b), Mul(Sig(f, a), Sig(f, b)), Pow2(f.P() - 3);
    ProductEncoded(f, a, b);
    UnsettledFinite(f, mode, a, b);
    ProductScales(f, a, b);
    UnsettledExactly(f, mode, a.sign != b.sign, e, s, Mul(Units(f, a), Units(f, b)), f.UnitsPerOne());
    FilledScale(mode, s, LeftShiftCount(f, e, s), n, w, Pow2(Effective(a.expo) + Effective(b.expo) + 1));
    JamNStands(n, f.P() - 3);
  }

  // ---- A denormalized operand can be rounded to the wrong neighbour ----

  /** A denormalized number and one in [8, 16): their product needs two left shifts. */
  function DenormalOperand(f: Format): Fp
    requires f.Valid()
  {
    Fp(false, 0, 2 * Pow2(f.P() - 3) + 1)
  }

  function NormalOperand(f: Format): Fp { Fp(false, f.bias + 2, 1) }

  lemma {:induction false} DenormalProduct(w: nat)
    ensures Mul(2 * w + 1, 8 * w + 1) == Mul(16 * w + 10, w) + 1
    ensures Mul(2 * w + 1, 8 * w + 1) == 2 * Mul(8 * w + 5, w) + 1
  {
    MulAdd(2 * w, 1, 8 * w + 1);
    MulTwo(w, 8 * w + 1);
    MulComm(w, 8 * w + 1);
    MulAdd(8 * w, 1, w);
    MulAdd(8 * w, 5, w);
    SmallMultiples(w);
    MulOne(8 * w + 1);
    MulTwo(8 * w + 5, w);
  }

  lemma {:induction false} DenormalProductRegister(f: Format)
    requires f.Valid()
    ensures MulRegister(f, DenormalOperand(f), NormalOperand(f)) == 16 * Pow2(f.P() - 3) + 11
    ensures Lead(f) == 64 * Pow2(f.P() - 3) && Pow2(f.P() - 3) >= 8
  {
    var w := Pow2(f.P() - 3);
    OneIsEven(f);
    Pow2Mono(3, f.P() - 3);
    assert Pow2(1) == 2 && Pow2(2) == 4 && Pow2(3) == 8;
    DenormalProduct(w);
    JamNValue(Mul(2 * w + 1, 8 * w + 1), f.P() - 3, 16 * w + 10, 1);
    DivMod2(16 * w + 10, 8 * w + 5, 0);
  }

  /** The product of these operands is delivered one last place too high. */
  lemma {:induction false} DenormalMultiplyResult(f: Format)
    requires f.Valid() && f.bias >= 2
    ensures MulSpec(f, Nearest, DenormalOperand(f), NormalOperand(f)).0 == Fp(false, 1, 6)
  {
    var w := Pow2(f.P() - 3);
    DenormalProductRegister(f);
    OneIsEven(f);
    DivMod2(16 * w + 11, 8 * w + 5, 1);
    DivMod2(32 * w + 23, 16 * w + 11, 1);
    DivMod8(64 * w + 47, 8 * w + 5, 7);
    assert ShiftUp(f, 3, 16 * w + 11) == ShiftUp(f, 2, 32 * w + 23) == (1, 64 * w + 47);
  }

  lemma {:induction false} DenormalMultiplyNearest(f: Format)
    requires f.Valid() && f.bias >= 2
    ensures var num, den := Mul(Units(f, DenormalOperand(f)), Units(f, NormalOperand(f))), f.UnitsPerOne();
      NearestEven(f, Fp(false, 1, 5), num, den) && !NearestEven(f, Fp(false, 1, 6), num, den)
  {
    var w, u := Pow2(f.P() - 3), Pow2(f.bias + 1);
    var num, den := Mul(Units(f, DenormalOperand(f)), Units(f, NormalOperand(f))), f.UnitsPerOne();
    DenormalProductRegister(f);
    OneIsEven(f);
    MulOne(2 * w + 1);
    Pow2Add(f.P() - 2, f.bias + 1);
    DenormalNearest(w, u, num, den);
    MulOne(den);
    PackNearest(f, false, 8 * w + 5, 1, num, den);
    OnlyNearest(f, Fp(false, 1, 5), Fp(false, 1, 6), num, den);
  }

  lemma {:induction false} DenormalNearest(w: nat, u: nat, num: nat, den: nat)
    requires num == Mul(2 * w + 1, Mul(8 * w + 1, u)) && den == Mul(2 * w, u) && w > 1 && u > 0
    ensures NearestMultiple(8 * w + 5, den, num)
  {
    MulAssoc(2 * w + 1, 8 * w + 1, u);
    DenormalProduct(w);
    MulAssoc(8 * w + 5, 2 * w, u);
    MulTwo(8 * w + 5, w);
    MulAdd(2 * Mul(8 * w + 5, w), 1, u);
    MulLt(2, 2 * w, u);
    SmallMultiples(u);
  }

  // ---- The pyramid ----

  /** SHLEFTIEEE64_2 drops p * p from the doubled pair when its leading bit is set. */
  lemma {:induction false} PairDoubles(y: nat, y2: nat, p: nat, h: nat)
    requires p == 2 * h && y < p && y2 < p
    ensures var bit := if 2 * y2 >= p then 1 else 0;
      var y' := 2 * y + bit - if 2 * y >= p then p else 0;
      var pp := Mul(p, p);
      && y' >= 0
      && Pair(y', 2 * y2 - (if 2 * y2 >= p then p else 0), p) + (if 2 * y >= p then pp else 0) == 2 * Pair(y, y2, p)
      && (2 * y >= p <==> 2 * Pair(y, y2, p) >= pp)
  {
    hide Mul;
    var bit := if 2 * y2 >= p then 1 else 0;
    MulTwo(y, p);
    MulAdd(2 * y, bit, p);
    MulOne(p);
    if 2 * y >= p {
      MulSub(2 * y + bit, p, p);
      MulLe(p, 2 * y, p);
    } else {
      MulLe(2 * y + 2, p, p);
      MulAdd(2 * y, 2, p);
      SmallMultiples(p);
    }
  }

  /** Adding the pairs limb row by limb row adds the numbers. */
  lemma {:induction false} PairsAdd(l: nat, x: nat, x2: nat, y: nat, y2: nat, c1: nat, c2: nat, x': nat, x2': nat,
        p: nat)
    requires x2' + Mul(c1, p) == x2 + y2 && x' + Mul(c2, p) == x + y + c1
    ensures Pair(Mul(l + c2, p) + x', x2', p) == Pair(Mul(l, p) + x, x2, p) + Pair(y, y2, p)
  {
    MulAdd(l, c2, p);
    MulAdd(Mul(l, p) + x + y, c1, p);
    MulAdd(Mul(l, p) + x, y, p);
  }

  /** Where the pyramid stands after i rows: `sum` has been collected, y is the next row
      and z holds the multiplier bits not used yet. When both leading bits are set the sum
      starts p * p too high, which is what the last row loses on the left. */
  ghost predicate Rows(n: nat, ma: nat, mb: nat, i: nat, sum: nat, y: nat, z: nat) {
    var p, row := Pow2(n), Mul(ma, Pow2(i));
    && 1 <= i <= n + 1
    && Mul(z, Pow2(i)) <= mb < Mul(z + 1, Pow2(i))
    && (i < n ==> y == row)
    && (i == n ==> y + (if ma >= p then Mul(p, p) else 0) == row)
    && (if i <= n then sum + Mul(z, row) == Mul(ma, mb) + (if ma >= p && mb >= p then Mul(p, p) else 0)
        else sum == Mul(ma, mb))
  }

  lemma {:induction false} FirstRow(n: nat, ma: nat, mb: nat, sum: nat, y: nat, z: nat)
    requires n >= 2 && ma < 2 * Pow2(n)
    requires mb == 2 * z + mb % 2 && y == 2 * ma
    requires sum == (if mb % 2 == 1 then ma else 0)
                    + if ma >= Pow2(n) && mb >= Pow2(n) then Mul(Pow2(n), Pow2(n)) else 0
    ensures Rows(n, ma, mb, 1, sum, y, z)
  {
    hide Mul;
    assert Pow2(1) == 2;
    MulComm(z, 2);
    MulComm(z + 1, 2);
    SmallMultiples(z);
    SmallMultiples(z + 1);
    MulComm(ma, 2);
    SmallMultiples(ma);
    MulTwo(z, ma);
    MulComm(ma, mb);
    MulAdd(2 * z, mb % 2, ma);
    SmallMultiples(ma);
  }

  /** One more row. */
  lemma {:induction false} NextRow(n: nat, ma: nat, mb: nat, i: nat, sum: nat, y: nat, z: nat, sum': nat, y': nat,
        z': nat)
    requires Rows(n, ma, mb, i, sum, y, z) && i <= n && ma < 2 * Pow2(n) && mb < 2 * Pow2(n)
    requires y' + (if 2 * y >= Mul(Pow2(n), Pow2(n)) then Mul(Pow2(n), Pow2(n)) else 0) == 2 * y
    requires sum' == sum + (if z % 2 == 1 then y else 0) && 2 * z' + z % 2 == z
    ensures Rows(n, ma, mb, i + 1, sum', y', z')
  {
    var p, row := Pow2(n), Mul(ma, Pow2(i));
    DivMod2(z, z', z % 2);
    MulTwo(ma, Pow2(i));
    HalfBracket(z, Pow2(i), mb);
    HalfRow(z, row);
    if i < n {
      TermBound(n, ma, i);
    } else {
      LastDigit(z, p, mb);
      MulOne(row);
    }
  }

  lemma {:induction false} HalfBracket(z: nat, w: nat, mb: nat)
    requires Mul(z, w) <= mb < Mul(z + 1, w)
    ensures Mul(z / 2, 2 * w) <= mb < Mul(z / 2 + 1, 2 * w)
  {
    MulTwo(z / 2, w);
    MulTwo(z / 2 + 1, w);
    MulLe(2 * (z / 2), z, w);
    MulLe(z + 1, 2 * (z / 2 + 1), w);
  }

  lemma {:induction false} HalfRow(z: nat, row: nat)
    ensures Mul(z, row) == Mul(z / 2, 2 * row) + if z % 2 == 1 then row else 0
  {
    MulTwo(z / 2, row);
    MulAdd(2 * (z / 2), z % 2, row);
    MulOne(row);
  }

  /** Only the last row can reach p * p, and it does exactly for a normal multiplicand. */
  lemma {:induction false} TermBound(n: nat, ma: nat, i: nat)
    requires i < n && ma < 2 * Pow2(n)
    ensures var row := 2 * Mul(ma, Pow2(i));
      if i + 1 < n then row < Mul(Pow2(n), Pow2(n)) else row >= Mul(Pow2(n), Pow2(n)) <==> ma >= Pow2(n)
  {
    var p, w := Pow2(n), Pow2(i + 1);
    MulTwo(ma, Pow2(i));
    if i + 1 < n {
      Pow2Mono(i + 1, n);
      MulLt(ma, 2 * p, w);
      MulTwo(p, w);
      MulLeRight(p, 2 * w, p);
    } else {
      MulOrder(ma, p, p);
    }
  }

  lemma {:induction false} LastDigit(z: nat, p: nat, mb: nat)
    requires Mul(z, p) <= mb < Mul(z + 1, p) && mb < 2 * p
    ensures z == if mb >= p then 1 else 0
  {
    SmallMultiples(p);
    if p > 0 { MulOrder(z, 2, p); }
  }

  lemma {:induction false} SigBounds(a: Number)
    requires a.Valid()
    ensures a.C() < a.f.One() && Sig(a.f, a.Abs()) < 2 * a.f.One()
    ensures Sig(a.f, a.Abs()) >= a.f.One() <==> a.expo != 0
  {
    a.CoeffBound();
  }

  /** Shift the row pair y, y2 of the pyramid. */
  method ShiftPair(f: Format, y: seq<nat>, y2: seq<nat>) returns (r: seq<nat>, r2: seq<nat>)
    requires f.Valid() && IsRow(f, y) && IsRow(f, y2)
    ensures IsRow(f, r) && IsRow(f, r2)
    ensures var p, pair := f.One(), Pair(Val(y), Val(y2), f.One());
      Pair(Val(r), Val(r2), p) + (if 2 * pair >= Mul(p, p) then Mul(p, p) else 0) == 2 * pair
  {
    OneIsEven(f);
    Numbers.RowBound(f, y);
    Numbers.RowBound(f, y2);
    PairDoubles(Val(y), Val(y2), f.One(), 4 * Pow2(f.P() - 3));
    r, r2 := ShiftLeftPair(f, y, y2);
  }

  /** ADDIEEE64 on the extensions, then with its carry on the coefficients. */
  method AddPair(x: Number, x2: seq<nat>, y: seq<nat>, y2: seq<nat>, lbits0: nat) returns (lbits: nat, sum2: seq<nat>)
    requires x.Valid() && IsRow(x.f, x2) && IsRow(x.f, y) && IsRow(x.f, y2)
    modifies x`coeff
    ensures x.Valid() && IsRow(x.f, sum2)
    ensures Total(x.f, lbits, x.C(), sum2) == Total(x.f, lbits0, old(x.C()), x2) + Pair(Val(y), Val(y2), x.f.One())
  {
    ghost var c := x.C();
    var carry, out;
    sum2, carry := AddRows(x.f, x2, y2, 0);
    out := x.AddCoeff(y, carry);
    lbits := lbits0 + out;
    PairsAdd(lbits0, c, Val(x2), Val(y), Val(y2), carry, out, x.C(), Val(sum2), x.f.One());
  }

  /** The number that left bits, coefficient and extension hold. */
  ghost function Total(f: Format, lbits: nat, x: nat, x2: seq<nat>): nat {
    Pair(Mul(lbits, f.One()) + x, Val(x2), f.One())
  }

  /** The state before the first shift: the first row is entered at once, and the product
      of the leading bits starts the left bits. */
  ghost predicate Start(p: nat, ma: nat, mb: nat, lbits: nat, x: nat, x2: nat, y: nat, y2: nat, z: nat, zBit: nat) {
    && y == (if ma >= p then 1 else 0) && y2 == ma - (if ma >= p then p else 0)
    && zBit == (if mb >= p then 1 else 0) && z == mb - (if mb >= p then p else 0)
    && lbits == (if ma >= p && mb >= p then 1 else 0)
    && x == (if z % 2 == 1 then y else 0) && x2 == (if z % 2 == 1 then y2 else 0)
  }

  lemma {:induction false} StartRows(f: Format, ma: nat, mb: nat, lbits: nat, x: nat, x2: nat, sum: nat,
                                     y: nat, y2: nat, z: nat, zBit: nat, y': nat, z': nat)
    requires f.Valid() && ma < 2 * f.One() && mb < 2 * f.One()
    requires Start(f.One(), ma, mb, lbits, x, x2, y, y2, z, zBit)
    requires y' + (if 2 * Pair(y, y2, f.One()) >= Mul(f.One(), f.One()) then Mul(f.One(), f.One()) else 0)
             == 2 * Pair(y, y2, f.One())
    requires 2 * z' + z % 2 == z + if zBit == 1 then f.One() else 0
    requires sum == Pair(Mul(lbits, f.One()) + x, x2, f.One())
    ensures Rows(f.P(), ma, mb, 1, sum, y', z')
  {
    var p := f.One();
    OneIsEven(f);
    MulOne(p);
    assert Pair(y, y2, p) == ma;
    MulLe(8, p, p);
    SmallMultiples(p);
    DivMod2(mb, z', z % 2);
    MulAdd(Mul(lbits, p), x, p);
    FirstRow(f.P(), ma, mb, sum, y', z');
  }

  /** The first row of the pyramid, before any shift. */
  method FirstTerm(f: Format, a: seq<nat>, aBit: nat, b: seq<nat>, bBit: nat)
    returns (lbits: nat, x: seq<nat>, x2: seq<nat>, y: seq<nat>)
    requires f.Valid() && IsRow(f, a) && IsRow(f, b) && aBit <= 1 && bBit <= 1
    ensures IsRow(f, x) && IsRow(f, x2) && IsRow(f, y)
    ensures Val(y) == aBit && lbits == (if aBit == 1 && bBit == 1 then 1 else 0)
    ensures Val(x) == (if Val(b) % 2 == 1 then aBit else 0) && Val(x2) == (if Val(b) % 2 == 1 then Val(a) else 0)
  {
    y := UnitRow(f, aBit);
    lbits := if bBit == 1 then aBit else 0;
    var bit := LowBitOf(f, b);
    if bit == 1 {
      x2, x := a, y;
    } else {
      x2, x := Zeros(f.low + 1), Zeros(f.low + 1);
    }
  }

  /** Before row i: the sum in x and x2, the multiplicand where it stands in y and y2, and the rest of the
      multiplier in z. */
  ghost predicate AtRow(f: Format, ma: nat, mb: nat, i: nat, lbits: nat, x: seq<nat>, x2: seq<nat>, y: seq<nat>,
                        y2: seq<nat>, z: seq<nat>) {
    && IsRow(f, x) && IsRow(f, x2) && IsRow(f, y) && IsRow(f, y2) && IsRow(f, z)
    && Rows(f.P(), ma, mb, i, Total(f, lbits, Val(x), x2), Pair(Val(y), Val(y2), f.One()), Val(z))
  }

  /** The first row of the pyramid, and the first shift. */
  method StartPyramid(f: Format, a: seq<nat>, aBit: nat, b: seq<nat>, bBit: nat, ghost ma: nat, ghost mb: nat)
    returns (lbits: nat, x: seq<nat>, x2: seq<nat>, y: seq<nat>, y2: seq<nat>, z: seq<nat>)
    requires f.Valid() && IsRow(f, a) && IsRow(f, b) && aBit <= 1 && bBit <= 1
    requires ma == Val(a) + (if aBit == 1 then f.One() else 0)
    requires mb == Val(b) + (if bBit == 1 then f.One() else 0)
    ensures AtRow(f, ma, mb, 1, lbits, x, x2, y, y2, z)
  {
    Numbers.RowBound(f, a);
    Numbers.RowBound(f, b);
    var y0;
    lbits, x, x2, y0 := FirstTerm(f, a, aBit, b, bBit);
    y, y2 := ShiftPair(f, y0, a);
    z := ShiftRightRow(f, b, bBit);
    StartRows(f, ma, mb, lbits, Val(x), Val(x2), Total(f, lbits, Val(x), x2), aBit, Val(a), Val(b), bBit,
        Pair(Val(y), Val(y2), f.One()), Val(z));
  }

  /** All rows of the product: coefficient and left bits in x, its extension in x2. */
  method SumPyramid(x: Number, a: Number, b: Number) returns (lbits: nat, x2: seq<nat>)
    requires x.Valid() && a.Valid() && b.Valid() && a.f == x.f && b.f == x.f
    modifies x
    ensures x.Valid() && IsRow(x.f, x2)
    ensures Total(x.f, lbits, x.C(), x2) == Mul(Sig(x.f, old(a.Abs())), Sig(x.f, old(b.Abs())))
  {
    hide Mul, Pow2;
    ghost var f, n, ma, mb := x.f, x.f.P(), Sig(x.f, a.Abs()), Sig(x.f, b.Abs());
    SigBounds(a);
    SigBounds(b);
    var first, y, y2, z;
    lbits, first, x2, y, y2, z :=
      StartPyramid(x.f, a.coeff, if a.expo != 0 then 1 else 0, b.coeff, if b.expo != 0 then 1 else 0, ma, mb);
    x.SetCoeff(false, 0, first);
    var i := 1;
    while i < x.f.P() + 1
      invariant 1 <= i <= n + 1 && x.Valid()
      invariant AtRow(f, ma, mb, i, lbits, x.coeff, x2, y, y2, z)
    {
      lbits, x2, y, y2, z := OneRow(x, x2, y, y2, z, lbits, ma, mb, i);
      i := i + 1;
    }
  }

  /** One iteration: add the row if the multiplier bit is set, then shift. */
  method OneRow(x: Number, x20: seq<nat>, y0: seq<nat>, y20: seq<nat>, z0: seq<nat>, lbits0: nat,
                ghost ma: nat, ghost mb: nat, ghost i: nat)
    returns (lbits: nat, x2: seq<nat>, y: seq<nat>, y2: seq<nat>, z: seq<nat>)
    requires x.Valid() && ma < 2 * x.f.One() && mb < 2 * x.f.One() && i <= x.f.P()
    requires AtRow(x.f, ma, mb, i, lbits0, x.coeff, x20, y0, y20, z0)
    modifies x`coeff
    ensures x.Valid() && AtRow(x.f, ma, mb, i + 1, lbits, x.coeff, x2, y, y2, z)
  {
    ghost var f, sum, row := x.f, Total(x.f, lbits0, x.C(), x20), Pair(Val(y0), Val(y20), x.f.One());
    lbits, x2 := lbits0, x20;
    var bit := LowBitOf(x.f, z0);
    if bit == 1 {
      lbits, x2 := AddPair(x, x2, y0, y20, lbits);
    }
    y, y2 := ShiftPair(x.f, y0, y20);
    z := ShiftRightRow(x.f, z0, 0);
    NextRow(f.P(), ma, mb, i, sum, row, Val(z0), Total(f, lbits, x.C(), x2), Pair(Val(y), Val(y2), f.One()), Val(z));
  }

  /** The extension supplies the rounding bits. */
  lemma {:induction false} PairJams(f: Format, a: nat, q: nat, rem: nat)
    requires f.Valid() && q < 8 && rem < Pow2(f.P() - 3)
    ensures JamN(Pair(a, Mul(q, Pow2(f.P() - 3)) + rem, f.One()), f.P() - 3) == a * 8 + Stick(q, rem != 0)
  {
    var w := Pow2(f.P() - 3);
    OneIsEven(f);
    MulEight(a, w);
    MulAdd(8 * a, q, w);
    JamNValue(Pair(a, Mul(q, w) + rem, f.One()), f.P() - 3, 8 * a + q, rem);
    DivMod2(8 * a + q, 4 * a + q / 2, q % 2);
  }

  /** NaN operands and infinities, before any arithmetic. */
  predicate SpecialOperands(f: Format, a: Fp, b: Fp) {
    a.expo > f.MaxExpo() || b.expo > f.MaxExpo()
  }

  method MultiplySpecial(x: Number, a: Number, b: Number, neg: bool) returns (res: set<Flag>)
    requires x.Valid() && a.Valid() && b.Valid() && a.f == x.f && b.f == x.f
    requires SpecialOperands(x.f, a.Abs(), b.Abs()) && neg == (a.sign != b.sign)
    modifies x
    ensures x.Valid()
    ensures forall mode :: (x.Abs(), res) == MulSpec(x.f, mode, old(a.Abs()), old(b.Abs()))
  {
    if a.IsNaNNumber() {
      x.Assign(a);
      return {Undefined};
    }
    if b.IsNaNNumber() {
      x.Assign(b);
      return {Undefined};
    }
    if b.expo > x.f.MaxExpo() {
      if a.expo == 0 && a.IsZeroCoeff() {
        x.SetQuietNaN();
        return {Undefined};
      }
      x.Assign(b);
      x.sign := neg;
      return SignFlag(neg) + {Overflow};
    }
    if b.expo == 0 && b.IsZeroCoeff() {
      x.SetQuietNaN();
      return {Undefined};
    }
    x.Assign(a);
    x.sign := neg;
    return SignFlag(neg) + {Overflow};
  }

  /** ar_ifmul32, ar_ifmul64. The result may be the same object as an operand. */
  method Multiply(x: Number, a: Number, b: Number, mode: Mode) returns (res: set<Flag>)
    requires x.Valid() && a.Valid() && b.Valid() && a.f == x.f && b.f == x.f
    modifies x
    ensures x.Valid()
    ensures (x.Abs(), res) == MulSpec(x.f, mode, old(a.Abs()), old(b.Abs()))
  {
    var neg := a.sign != b.sign;
    if a.expo > x.f.MaxExpo() || b.expo > x.f.MaxExpo() {
      res := MultiplySpecial(x, a, b, neg);
      return;
    }
    a.CoeffBound();
    b.CoeffBound();
    res := MultiplyFinite(x, a, b, neg, mode);
  }

  /** Product of finite operands. */
  method MultiplyFinite(x: Number, a: Number, b: Number, neg: bool, mode: Mode) returns (res: set<Flag>)
    requires x.Valid() && a.Valid() && b.Valid() && a.f == x.f && b.f == x.f
    modifies x
    ensures x.Valid()
    ensures (x.Abs(), res)
         == Norm(x.f, mode, neg, MulExpo(x.f, old(a.Abs()), old(b.Abs())), MulRegister(x.f, old(a.Abs()), old(b.Abs())))
  {
    var expo: int := a.expo + b.expo + (if a.expo == 0 then 1 else 0) + (if b.expo == 0 then 1 else 0) - x.f.bias;
    if expo <= 0 { expo := expo - 1; }
    var lbits, rbits := MultiplySignificands(x, a, b);
    x.sign := neg;
    res := Normalize(x, expo, lbits, rbits, mode);
  }

  /** Left bits, coefficient and rounding bits of the product. */
  method MultiplySignificands(x: Number, a: Number, b: Number) returns (lbits: nat, rbits: nat)
    requires x.Valid() && a.Valid() && b.Valid() && a.f == x.f && b.f == x.f
    modifies x
    ensures x.Valid() && rbits < 8
    ensures Register(x.f, lbits, x.C(), rbits) == MulRegister(x.f, old(a.Abs()), old(b.Abs()))
  {
    var x2;
    ghost var q: nat, rem: nat;
    lbits, x2 := SumPyramid(x, a, b);
    rbits, q, rem := RoundingBits(x.f, x2);
    PairJams(x.f, Mul(lbits, x.f.One()) + x.C(), q, rem);
  }
}
