/**
 * math.c: ar_multiply_integer, ar_divide_integer and AR_divide on 64-bit integers.
 */
module Integers {
  import opened Powers
  import opened Limbs
  import opened Words
  import opened Ieee754

  /** The number a word stands for in its type. */
  function Number(n: nat, isSigned: bool): int { if isSigned then Signed(n) else n }

  /** Whether the type holds a number. */
  predicate InRange(v: int, isSigned: bool) {
    if isSigned then 0 <= 2 * v + MODULUS < 2 * MODULUS else 0 <= v < MODULUS
  }

  /** x * y */
  function Product(x: int, y: int): int {
    if (x < 0) == (y < 0) then Mul(Abs(x), Abs(y)) else -(Mul(Abs(x), Abs(y)) as int)
  }

  /** AR_status of an integer. */
  function IntStatus(n: nat, isSigned: bool): set<Flag> {
    if n == 0 then {ZeroResult} else if isSigned && 2 * n >= MODULUS then {Negative} else {}
  }

  // ---- Multiplication ----

  /** The accumulator has collected the exact total, modulo 2^64, and overflow tells
      whether anything has been lost. */
  ghost predicate Collected(total: nat, acc: nat, high: nat, overflow: bool) {
    total == acc + high * MODULUS && acc < MODULUS && (overflow <==> high > 0)
  }

  /** n * 65536^place */
  function Shifted(n: nat, place: nat): nat
    decreases place, n
  {
    if place == 0 then n else 65536 * Shifted(n, place - 1)
  }

  lemma {:induction false} ShiftedStep(x: nat, y: nat, r: nat)
    ensures Shifted(x * 65536 + y, r) == Shifted(x, r + 1) + Shifted(y, r)
    decreases r
  {
    if r > 0 { ShiftedStep(x, y, r - 1); }
  }

  lemma {:induction false} ShiftedSmall(n: nat)
    ensures Shifted(n, 0) == n && Shifted(n, 1) == 0x1_0000 * n && Shifted(n, 2) == 0x1_0000_0000 * n
    ensures Shifted(n, 3) == 0x1_0000_0000_0000 * n
  {
    assert Shifted(n, 2) == 65536 * Shifted(n, 1) && Shifted(n, 3) == 65536 * Shifted(n, 2);
  }

  lemma {:induction false} ShiftedZero(r: nat)
    ensures Shifted(0, r) == 0
    decreases r
  {
    if r > 0 { ShiftedZero(r - 1); }
  }

  /** Four limbs or more to the left is outside the word. */
  lemma {:induction false} ShiftedOut(n: nat, place: nat)
    requires place >= 4
    ensures Shifted(n, place) == Shifted(n, place - 4) * MODULUS
    ensures n > 0 ==> Shifted(n, place - 4) > 0
    decreases place
  {
    if place == 4 {
      ShiftedSmall(n);
      assert Shifted(n, 4) == 65536 * Shifted(n, 3);
    } else {
      ShiftedOut(n, place - 1);
    }
  }

  /** A partial product moved left by `place` limbs, and the part of it that leaves the word. */
  method PlaceTerm(m: nat, place: nat) returns (temp: seq<nat>, lost: nat)
    requires m < 0x1_0000_0000 && place <= 3
    ensures IsWord(temp) && Val(temp) + lost * MODULUS == Shifted(m, place)
  {
    var hi, lo := m / 65536, m % 65536;
    Pow2Of16();
    temp := if place == 0 then [0, 0, hi, lo] else if place == 1 then [0, hi, lo, 0]
      else if place == 2 then [hi, lo, 0, 0] else [lo, 0, 0, 0];
    lost := if place == 3 then hi else 0;
    Val4(temp);
    ShiftedSmall(m);
  }

  /** Add the product of two limbs, `place` limbs from the right: what fits the word is
      added, anything else is overflow. Far to the left a nonzero limb is enough to know. */
  method AddPartial(acc0: seq<nat>, overflow0: bool, p: nat, q: nat, place: nat, ghost total: nat, ghost high0: nat)
    returns (acc: seq<nat>, overflow: bool, ghost high: nat)
    requires IsWord(acc0) && p < 65536 && 0 < q < 65536
    requires Collected(total, Val(acc0), high0, overflow0)
    ensures IsWord(acc)
    ensures Collected(total + Shifted(Mul(p, q), place), Val(acc), high, overflow)
  {
    acc, overflow, high := acc0, overflow0, high0;
    MulOne(q);
    ShiftedZero(place);
    if p != 0 {
      MulPositive(p, q);
      if place <= 3 {
        var m := PartialProduct(p, q);
        var temp, lost := PlaceTerm(m, place);
        var carry;
        acc, carry := AddWithCarry(acc, temp);
        overflow := overflow || lost != 0 || carry != 0;
        high := high + lost + carry;
      } else {
        ShiftedOut(Mul(p, q), place);
        overflow := true;
        high := high + Shifted(Mul(p, q), place - 4);
      }
    }
  }

  method PartialProduct(p: nat, q: nat) returns (m: nat)
    requires p < 65536 && q < 65536
    ensures m == Mul(p, q) < 0x1_0000_0000
  {
    m := p * q;
    MulIs(p, q);
    MulLe(p, 65535, q);
    MulLeRight(65535, q, 65535);
    MulIs(65535, 65535);
  }

  /** The sixteen limb products make the product. */
  lemma {:induction false} RowExpands(a: nat, b: nat, c: nat, d: nat, q: nat)
    ensures Mul(((a * 65536 + b) * 65536 + c) * 65536 + d, q)
         == ((Mul(a, q) * 65536 + Mul(b, q)) * 65536 + Mul(c, q)) * 65536 + Mul(d, q)
  {
    StepExpands(a, b, q);
    StepExpands(a * 65536 + b, c, q);
    StepExpands((a * 65536 + b) * 65536 + c, d, q);
  }

  lemma {:induction false} StepExpands(a: nat, b: nat, q: nat)
    ensures Mul(a * 65536 + b, q) == Mul(a, q) * 65536 + Mul(b, q)
  {
    MulAdd(a * 65536, b, q);
    MulComm(a * 65536, q);
    Mul65536(q, a);
    MulComm(q, a);
  }

  lemma {:induction false} RowTotal(a: nat, b: nat, c: nat, d: nat, q: nat, r: nat)
    ensures Shifted(Mul(((a * 65536 + b) * 65536 + c) * 65536 + d, q), r)
         == Shifted(Mul(d, q), r) + Shifted(Mul(c, q), r + 1) + Shifted(Mul(b, q), r + 2) + Shifted(Mul(a, q), r + 3)
  {
    RowExpands(a, b, c, d, q);
    ShiftedStep((Mul(a, q) * 65536 + Mul(b, q)) * 65536 + Mul(c, q), Mul(d, q), r);
    ShiftedStep(Mul(a, q) * 65536 + Mul(b, q), Mul(c, q), r + 1);
    ShiftedStep(Mul(a, q), Mul(b, q), r + 2);
  }

  /** The partial products of limbs a to d with one multiplier limb that is not zero. */
  method AddProducts(acc0: seq<nat>, overflow0: bool, a: nat, b: nat, c: nat, d: nat, q: nat, r: nat,
        ghost total: nat, ghost high0: nat)
    returns (acc: seq<nat>, overflow: bool, ghost high: nat)
    requires IsWord(acc0) && a < 65536 && b < 65536 && c < 65536 && d < 65536 && 0 < q < 65536
    requires Collected(total, Val(acc0), high0, overflow0)
    ensures IsWord(acc)
    ensures Collected(total + Shifted(Mul(d, q), r) + Shifted(Mul(c, q), r + 1) + Shifted(Mul(b, q), r + 2)
            + Shifted(Mul(a, q), r + 3),
                      Val(acc), high, overflow)
  {
    ghost var t := total;
    acc, overflow, high := AddPartial(acc0, overflow0, d, q, r, t, high0);
    t := t + Shifted(Mul(d, q), r);
    acc, overflow, high := AddPartial(acc, overflow, c, q, r + 1, t, high);
    t := t + Shifted(Mul(c, q), r + 1);
    acc, overflow, high := AddPartial(acc, overflow, b, q, r + 2, t, high);
    t := t + Shifted(Mul(b, q), r + 2);
    acc, overflow, high := AddPartial(acc, overflow, a, q, r + 3, t, high);
  }

  /** All partial products of one multiplier limb, which stands r limbs from the right. */
  method AddRow(acc0: seq<nat>, overflow0: bool, m: seq<nat>, q: nat, r: nat, ghost total: nat, ghost high0: nat)
    returns (acc: seq<nat>, overflow: bool, ghost high: nat)
    requires IsWord(acc0) && IsWord(m) && q < 65536
    requires Collected(total, Val(acc0), high0, overflow0)
    ensures IsWord(acc)
    ensures Collected(total + Shifted(Mul(Val(m), q), r), Val(acc), high, overflow)
  {
    acc, overflow, high := acc0, overflow0, high0;
    if q == 0 {
      MulOne(Val(m));
      ShiftedZero(r);
    } else {
      WordBound(m);
      RowTotal(m[0], m[1], m[2], m[3], q, r);
      acc, overflow, high := AddProducts(acc, overflow, m[0], m[1], m[2], m[3], q, r, total, high);
    }
  }

  /** The rows of all multiplier limbs make the product. */
  lemma {:induction false} ProductTotal(m: nat, a: nat, b: nat, c: nat, d: nat)
    ensures Mul(m, ((a * 65536 + b) * 65536 + c) * 65536 + d)
         == Shifted(Mul(m, d), 0) + Shifted(Mul(m, c), 1) + Shifted(Mul(m, b), 2) + Shifted(Mul(m, a), 3)
  {
    RowTotal(a, b, c, d, m, 0);
    MulComm(m, ((a * 65536 + b) * 65536 + c) * 65536 + d);
    MulComm(m, a);
    MulComm(m, b);
    MulComm(m, c);
    MulComm(m, d);
  }

  /** Magnitudes multiplied modulo 2^64, with the exact overflow test. */
  method MultiplyMagnitudes(m: seq<nat>, n: seq<nat>) returns (acc: seq<nat>, overflow: bool, ghost high: nat)
    requires IsWord(m) && IsWord(n)
    ensures IsWord(acc) && Collected(Mul(Val(m), Val(n)), Val(acc), high, overflow)
  {
    Pow2Of16();
    ghost var w := Val(m);
    assert n[0] < 65536 && n[1] < 65536 && n[2] < 65536 && n[3] < 65536;
    acc, overflow, high := Zeros(4), false, 0;
    ghost var t := 0;
    acc, overflow, high := AddRow(acc, overflow, m, n[3], 0, t, high);
    t := t + Shifted(Mul(w, n[3]), 0);
    acc, overflow, high := AddRow(acc, overflow, m, n[2], 1, t, high);
    t := t + Shifted(Mul(w, n[2]), 1);
    acc, overflow, high := AddRow(acc, overflow, m, n[1], 2, t, high);
    t := t + Shifted(Mul(w, n[1]), 2);
    acc, overflow, high := AddRow(acc, overflow, m, n[0], 3, t, high);
    t := t + Shifted(Mul(w, n[0]), 3);
    assert t == Mul(w, Val(n)) by {
      Val4(n);
      ProductTotal(w, n[0], n[1], n[2], n[3]);
    }
  }

  // ---- Signs ----

  /** Magnitude of an operand in its type. */
  method MagnitudeOf(n: seq<nat>, isSigned: bool) returns (m: seq<nat>, neg: bool)
    requires IsWord(n)
    ensures IsWord(m) && Val(m) < MODULUS && Val(n) < MODULUS
    ensures Val(m) == Abs(Number(Val(n), isSigned)) && neg == (Number(Val(n), isSigned) < 0)
  {
    WordBound(n);
    var top := SignBit(n);
    m, neg := n, isSigned && top;
    if neg {
      m := NegateWord(n);
      WordBound(m);
    }
  }

  /** Set the sign of a magnitude and detect a result that does not fit. */
  method SetSign(acc: seq<nat>, neg: bool, isSigned: bool) returns (result: seq<nat>, overflow: bool)
    requires IsWord(acc) && (neg ==> isSigned)
    ensures IsWord(result) && Val(result) < MODULUS && Val(acc) < MODULUS
    ensures Val(result) == if neg then Words.Negative(Val(acc)) else Val(acc)
    ensures overflow <==> !InRange(if neg then -(Val(acc) as int) else Val(acc), isSigned)
  {
    WordBound(acc);
    result := acc;
    if neg {
      result := NegateWord(acc);
    }
    WordBound(result);
    var top := SignBit(result);
    overflow := if neg then !top && !Limbs.IsZero(result) else top && isSigned;
  }

  /** ar_multiply_integer: the product modulo 2^64, with OVERFLOW exactly if the type does
      not hold the product. */
  method MultiplyInteger(a: seq<nat>, b: seq<nat>, isSigned: bool)
    returns (result: seq<nat>, status: set<Flag>, ghost lost: int)
    requires IsWord(a) && IsWord(b)
    ensures IsWord(result) && Val(result) < MODULUS && Val(a) < MODULUS && Val(b) < MODULUS
    ensures var v := Product(Number(Val(a), isSigned), Number(Val(b), isSigned));
      && v == Val(result) + lost * MODULUS
      && (Overflow in status <==> !InRange(v, isSigned))
      && (InRange(v, isSigned) ==> Number(Val(result), isSigned) == v)
    ensures status - {Overflow} == IntStatus(Val(result), isSigned)
  {
    var m, aNeg := MagnitudeOf(a, isSigned);
    var n, bNeg := MagnitudeOf(b, isSigned);
    var acc, over;
    ghost var high: nat;
    acc, over, high := MultiplyMagnitudes(m, n);
    var beyond;
    result, beyond := SetSign(acc, aNeg != bNeg, isSigned);
    ghost var x, y := Number(Val(a), isSigned), Number(Val(b), isSigned);
    ghost var v := Product(x, y);
    MulOne(Abs(x));
    MulOne(Abs(y));
    lost := ProductLost(v, aNeg != bNeg, isSigned, Val(acc), high, Val(result));
    ghost var inRange := InRange(v, isSigned);
    var top := SignBit(result);
    status := (if over || beyond then {Overflow} else {})
      + (if Limbs.IsZero(result) then {ZeroResult} else if isSigned && top then {Ieee754.Negative} else {});
  }

  lemma {:induction false} ProductLost(v: int, neg: bool, isSigned: bool, acc: nat, high: nat, result: nat)
    returns (lost: int)
    requires acc < MODULUS && (neg ==> isSigned)
    requires var t := acc + high * MODULUS; v == if neg then -(t as int) else t
    requires result == if neg then Words.Negative(acc) else acc
    ensures v == result + lost * MODULUS
    ensures high > 0 || !InRange(if neg then -(acc as int) else acc, isSigned) <==> !InRange(v, isSigned)
    ensures InRange(v, isSigned) ==> Number(result, isSigned) == v
  {
    var h: int := high;
    lost := if neg then if acc == 0 then -h else -h - 1 else h;
  }

  // ---- Division ----

  /** The position of the leading bit: 2^(63 - zeros) <= n < 2^(64 - zeros). */
  ghost predicate LeadingZeros(n: nat, zeros: nat) {
    if n == 0 then zeros == 64 else zeros < 64 && Pow2(63 - zeros) <= n < Pow2(64 - zeros)
  }

  /** The loop of AR_leadz on one limb. */
  method LeadingZerosOfLimb(limb: nat) returns (zeros: nat)
    requires 0 < limb < 65536
    ensures zeros < 16 && Pow2(15 - zeros) <= limb < Pow2(16 - zeros)
  {
    zeros := 0;
    var mask := 0x8000;
    Pow2Of16();
    BitOfLimb(limb, mask);
    while limb / mask % 2 == 0
      invariant zeros < 16 && mask == Pow2(15 - zeros) && limb < 2 * mask
      invariant limb / mask % 2 == 0 <==> limb < mask
      decreases mask
    {
      assert Pow2(0) == 1;
      zeros := zeros + 1;
      mask := mask / 2;
      DivMod2(Pow2(16 - zeros), Pow2(15 - zeros), 0);
      BitOfLimb(limb, mask);
    }
  }

  lemma {:induction false} BitOfLimb(limb: nat, mask: nat)
    requires limb < 2 * mask
    ensures limb / mask % 2 == 0 <==> limb < mask
  {
    MulOne(mask);
    DivModUnique(limb, mask, if limb < mask then 0 else 1, if limb < mask then limb else limb - mask);
  }

  /** AR_leadz */
  method LeadingZerosOf(x: seq<nat>) returns (zeros: nat)
    requires IsWord(x)
    ensures LeadingZeros(Val(x), zeros)
  {
    WordBound(x);
    if x[0] != 0 {
      zeros := LeadingZerosOfLimb(x[0]);
      LimbToWord(x[0], zeros, 48, 0x1_0000_0000_0000, x[1] * 0x1_0000_0000 + x[2] * 65536 + x[3], Val(x));
    } else if x[1] != 0 {
      zeros := LeadingZerosOfLimb(x[1]);
      LimbToWord(x[1], zeros, 32, 0x1_0000_0000, x[2] * 65536 + x[3], Val(x));
      zeros := zeros + 16;
    } else if x[2] != 0 {
      zeros := LeadingZerosOfLimb(x[2]);
      LimbToWord(x[2], zeros, 16, 0x1_0000, x[3], Val(x));
      zeros := zeros + 32;
    } else if x[3] != 0 {
      zeros := LeadingZerosOfLimb(x[3]);
      LimbToWord(x[3], zeros, 0, 1, 0, Val(x));
      zeros := zeros + 48;
    } else {
      zeros := 64;
    }
  }

  lemma {:induction false} PowersOfLimbs()
    ensures Pow2(16) == 0x1_0000 && Pow2(32) == 0x1_0000_0000 && Pow2(48) == 0x1_0000_0000_0000
  {
    Pow2Of16();
    Times16(16);
    Times16(20);
    Times16(24);
    Times16(28);
    Times16(32);
    Times16(36);
    Times16(40);
    Times16(44);
  }

  lemma {:induction false} LimbToWord(limb: nat, zeros: nat, place: nat, w: nat, rest: nat, n: nat)
    requires zeros < 16 && Pow2(15 - zeros) <= limb < Pow2(16 - zeros) && rest < w && n == limb * w + rest
    requires (place == 48 && w == 0x1_0000_0000_0000) || (place == 32 && w == 0x1_0000_0000)
      || (place == 16 && w == 0x1_0000) || (place == 0 && w == 1)
    ensures LeadingZeros(n, zeros + (48 - place))
  {
    PowersOfLimbs();
    MulIs(limb, w);
    InBinade(limb, zeros, place, w, rest);
  }

  lemma {:induction false} InBinade(limb: nat, zeros: nat, place: nat, w: nat, rest: nat)
    requires zeros < 16 && Pow2(15 - zeros) <= limb < Pow2(16 - zeros) && rest < w && w == Pow2(place)
    ensures Pow2(15 + place - zeros) <= Mul(limb, w) + rest < Pow2(16 + place - zeros)
  {
    Pow2Add(15 - zeros, place);
    Pow2Add(16 - zeros, place);
    MulLe(Pow2(15 - zeros), limb, w);
    MulLt(limb, Pow2(16 - zeros), w);
  }

  /** accum |= 1 on an even word. */
  method SetLowBit(a: seq<nat>) returns (r: seq<nat>)
    requires IsWord(a) && Val(a) % 2 == 0
    ensures IsWord(r) && Val(r) == Val(a) + 1
  {
    ParityOfVal(a);
    r := a[3 := a[3] + 1];
    Val4(a);
    Val4(r);
  }

  /** Before n more rounds: q is the quotient so far, r the rest of the dividend, and z the
      divisor where it stands. The sign bit of r - z, modulo 2^64, tells whether r < z. */
  ghost predicate Dividing(dividend: nat, d: nat, n: nat, q: nat, r: nat, z: nat) {
    && Mul(q, Mul(d, Pow2(n))) + r == dividend && r < Mul(d, Pow2(n))
    && (n > 0 ==> z == Mul(d, Pow2(n - 1)) && 2 * r < 2 * z + MODULUS && 2 * z <= 2 * r + MODULUS)
  }

  lemma {:induction false} DividingStep(dividend: nat, d: nat, n: nat, q: nat, r: nat, z: nat)
    requires Dividing(dividend, d, n, q, r, z) && n > 0 && d > 0 && dividend < MODULUS && z < MODULUS
    ensures var q', r' := if z <= r then 2 * q + 1 else 2 * q, if z <= r then r - z else r;
      Dividing(dividend, d, n - 1, q', r', z / 2) && q' < MODULUS
  {
    MulTwo(d, Pow2(n - 1));
    var q', r' := ExactStep(q, r, z);
    MulPositive(d, Pow2(n - 1));
    if q' > 0 { MulPositive(q', z); }
    if n > 1 {
      MulTwo(d, Pow2(n - 2));
      DivMod2(z, Mul(d, Pow2(n - 2)), 0);
    }
  }

  /** The words of the loop. */
  ghost predicate DividingWords(total: nat, d: nat, n: nat, accum: seq<nat>, dividend: seq<nat>, divisor: seq<nat>) {
    && IsWord(accum) && IsWord(dividend) && IsWord(divisor)
    && Dividing(total, d, n, Val(accum), Val(dividend), Val(divisor))
  }

  /** One round of the do-while loop. */
  method DivideRound(accum0: seq<nat>, dividend0: seq<nat>, divisor0: seq<nat>, ghost total: nat, ghost d: nat,
        ghost n: nat)
    returns (accum: seq<nat>, dividend: seq<nat>, divisor: seq<nat>)
    requires n > 0 && d > 0 && total < MODULUS && DividingWords(total, d, n, accum0, dividend0, divisor0)
    ensures DividingWords(total, d, n - 1, accum, dividend, divisor)
  {
    WordBound(divisor0);
    DividingStep(total, d, n, Val(accum0), Val(dividend0), Val(divisor0));
    accum := ShiftLeftWord(accum0);
    DivMod2(Val(accum), Val(accum0), 0);
    dividend := dividend0;
    var temp := SubtractWords(dividend0, divisor0);
    var top := SignBit(temp);
    if !top {
      accum := SetLowBit(accum);
      dividend := temp;
    }
    var out;
    divisor, out := ShiftRightWord(divisor0);
    DivMod2(Val(divisor0), Val(divisor), out);
  }

  /** Numbers of the same length: the divisor scaled up to the dividend. */
  lemma {:induction false} ScaledDivisor(dividend: nat, d: nat, zeros: nat, shift: nat)
    requires LeadingZeros(dividend, zeros) && LeadingZeros(d, zeros + shift) && dividend > 0 && d > 0
    ensures LeftShifts(d, shift) == Mul(d, Pow2(shift)) < MODULUS
    ensures Dividing(dividend, d, shift + 1, 0, dividend, LeftShifts(d, shift))
  {
    var z := Mul(d, Pow2(shift));
    Pow2Add(63 - zeros - shift, shift);
    Pow2Add(64 - zeros - shift, shift);
    MulLe(Pow2(63 - zeros - shift), d, Pow2(shift));
    MulLt(d, Pow2(64 - zeros - shift), Pow2(shift));
    SameBinade(dividend, z, zeros);
    LeftShiftsExact(d, shift);
    MulTwo(d, Pow2(shift));
    MulOne(Mul(d, Pow2(shift + 1)));
  }

  lemma {:induction false} SameBinade(x: nat, z: nat, zeros: nat)
    requires zeros < 64 && Pow2(63 - zeros) <= x < Pow2(64 - zeros) && Pow2(63 - zeros) <= z < Pow2(64 - zeros)
    ensures z < MODULUS && 2 * x < 2 * z + MODULUS && 2 * z <= 2 * x + MODULUS && x < 2 * z
  {
    ModulusIsPow2();
    Pow2Mono(64 - zeros, 64);
  }

  lemma {:induction false} ShorterDividend(dividend: nat, d: nat, zeros: nat, zeros': nat)
    requires LeadingZeros(dividend, zeros) && LeadingZeros(d, zeros') && zeros' < zeros && d > 0
    ensures dividend < d
  {
    if dividend > 0 { Pow2Mono(64 - zeros, 63 - zeros'); }
  }

  /** Unsigned division by shifting and subtracting. */
  method DivideMagnitudes(dividend0: seq<nat>, divisor0: seq<nat>) returns (accum: seq<nat>, dividend: seq<nat>)
    requires IsWord(dividend0) && IsWord(divisor0) && Val(divisor0) > 0
    ensures IsWord(accum) && IsWord(dividend) && Val(accum) < MODULUS && Val(dividend) < Val(divisor0) < MODULUS
    ensures Val(dividend0) == Mul(Val(accum), Val(divisor0)) + Val(dividend)
  {
    ghost var total, d := Val(dividend0), Val(divisor0);
    WordBound(dividend0);
    WordBound(divisor0);
    Pow2Of16();
    accum, dividend := Zeros(4), dividend0;
    MulOne(d);
    var lzDividend := LeadingZerosOf(dividend0);
    var lzDivisor := LeadingZerosOf(divisor0);
    if lzDivisor >= lzDividend {
      var shift := lzDivisor - lzDividend;
      var divisor := ShiftLeftBy(divisor0, shift);
      ScaledDivisor(total, d, lzDividend, shift);
      accum, dividend := DivideLoop(dividend, divisor, shift + 1, total, d);
      MulOne(d);
    } else {
      ShorterDividend(total, d, lzDividend, lzDivisor);
    }
    WordBound(accum);
  }

  /** The do-while loop, which runs seqcount times. */
  method DivideLoop(dividend0: seq<nat>, divisor0: seq<nat>, seqcount0: nat, ghost total: nat, ghost d: nat)
    returns (accum: seq<nat>, dividend: seq<nat>)
    requires IsWord(dividend0) && IsWord(divisor0) && seqcount0 > 0 && d > 0 && total < MODULUS
    requires Dividing(total, d, seqcount0, 0, Val(dividend0), Val(divisor0))
    ensures IsWord(accum) && IsWord(dividend) && Dividing(total, d, 0, Val(accum), Val(dividend), 0)
  {
    Pow2Of16();
    accum, dividend := Zeros(4), dividend0;
    var divisor, seqcount := divisor0, seqcount0;
    while seqcount > 0
      invariant IsWord(accum) && IsWord(dividend) && IsWord(divisor)
      invariant Dividing(total, d, seqcount, Val(accum), Val(dividend), Val(divisor))
    {
      accum, dividend, divisor := DivideRound(accum, dividend, divisor, total, d, seqcount);
      seqcount := seqcount - 1;
    }
  }

  /** q and r are quotient and remainder of the magnitudes of x and y. */
  ghost predicate Divides(x: int, y: int, q: nat, r: nat) {
    y != 0 && Abs(x) == Mul(q, Abs(y)) + r && r < Abs(y)
  }

  /** ar_divide_integer: magnitudes divided, the quotient negative if the signs differ and
      the remainder with the sign of the dividend, as division that truncates has it. */
  method DivideInteger(a: seq<nat>, b: seq<nat>, isSigned: bool)
    returns (quotient: seq<nat>, remainder: seq<nat>, status: set<Flag>, ghost q: nat, ghost r: nat)
    requires IsWord(a) && IsWord(b)
    ensures IsWord(quotient) && IsWord(remainder) && Val(a) < MODULUS && Val(b) < MODULUS && q < MODULUS && r < MODULUS
    ensures var x, y := Number(Val(a), isSigned), Number(Val(b), isSigned);
      if y == 0 then Val(quotient) == 0 && Val(remainder) == 0 && status == {Overflow}
      else
        && Divides(x, y, q, r) && status == (if x == 0 then {ZeroResult} else {})
        && Val(quotient) == (if (x < 0) != (y < 0) then Words.Negative(q) else q)
        && Val(remainder) == (if x < 0 then Words.Negative(r) else r)
  {
    Pow2Of16();
    WordBound(a);
    WordBound(b);
    q, r := 0, 0;
    if Limbs.IsZero(b) {
      return Zeros(4), Zeros(4), {Overflow}, 0, 0;
    }
    MulOne(Abs(Number(Val(b), isSigned)));
    if Limbs.IsZero(a) {
      return Zeros(4), Zeros(4), {ZeroResult}, 0, 0;
    }
    var dividend, aNeg := MagnitudeOf(a, isSigned);
    var divisor, bNeg := MagnitudeOf(b, isSigned);
    var accum, rest := DivideMagnitudes(dividend, divisor);
    q, r := Val(accum), Val(rest);
    quotient, remainder := accum, rest;
    if aNeg != bNeg {
      quotient := NegateWord(accum);
    }
    if aNeg {
      remainder := NegateWord(rest);
    }
    status := {};
  }

  /** A nonzero quotient has the wrong sign exactly for the least number divided by -1. */
  lemma {:induction false} WrongSign(x: int, y: int, q: nat, r: nat, v: nat)
    requires Divides(x, y, q, r) && InRange(x, true) && InRange(y, true) && q < MODULUS
    requires v == if (x < 0) != (y < 0) then Words.Negative(q) else q
    ensures (v != 0 && ((x < 0) != (y < 0)) != (2 * v >= MODULUS)) <==> 2 * x == -(MODULUS as int) && y == -1
    ensures !(2 * x == -(MODULUS as int) && y == -1) ==> Signed(v) == if (x < 0) != (y < 0) then -(q as int) else q
  {
    MulOne(q);
    MulOne(Abs(y));
    if Abs(y) == 1 {
    } else {
      MulLeRight(q, 2, Abs(y));
      MulComm(q, 2);
      SmallMultiples(q);
    }
  }

  lemma {:induction false} LeastByMinusOne(x: int, y: int, q: nat, r: nat)
    requires Divides(x, y, q, r)
    ensures y == -1 ==> q == Abs(x)
  {
    MulOne(q);
  }

  /** AR_divide on integers: OVERFLOW exactly for a zero divisor and for the least signed
      number divided by -1, and otherwise the truncated quotient. */
  method Divide(a: seq<nat>, b: seq<nat>, isSigned: bool)
    returns (result: seq<nat>, status: set<Flag>, ghost q: nat, ghost r: nat)
    requires IsWord(a) && IsWord(b)
    ensures IsWord(result) && Val(result) < MODULUS && Val(a) < MODULUS && Val(b) < MODULUS
    ensures var x, y := Number(Val(a), isSigned), Number(Val(b), isSigned);
      && (Overflow in status <==> y == 0 || (isSigned && 2 * x == -(MODULUS as int) && y == -1))
      && (Overflow !in status ==> Divides(x, y, q, r))
      && (Overflow !in status ==> Number(Val(result), isSigned) == if (x < 0) != (y < 0) then -(q as int) else q)
      && (Overflow in status ==> Val(result) == if y == 0 then 0 else Val(a))
    ensures status - {Overflow} == IntStatus(Val(result), isSigned)
  {
    WordBound(a);
    WordBound(b);
    var rest;
    result, rest, status, q, r := DivideInteger(a, b, isSigned);
    WordBound(result);
    var aTop := SignBit(a);
    var bTop := SignBit(b);
    var top := SignBit(result);
    ghost var x, y := Number(Val(a), isSigned), Number(Val(b), isSigned);
    if isSigned && !Limbs.IsZero(result) && (aTop != bTop) != top {
      status := status + {Overflow};
    }
    if isSigned && y != 0 {
      WrongSign(x, y, q, r, Val(result));
      LeastByMinusOne(x, y, q, r);
    }
    status := status
      + if Limbs.IsZero(result) then {ZeroResult} else if isSigned && top then {Ieee754.Negative} else {};
  }

  /** AR_mod: OVERFLOW exactly for a zero divisor, and otherwise the remainder with the
      sign of the dividend. */
  method Mod(a: seq<nat>, b: seq<nat>, isSigned: bool)
    returns (result: seq<nat>, status: set<Flag>, ghost q: nat, ghost r: nat)
    requires IsWord(a) && IsWord(b)
    ensures IsWord(result) && Val(result) < MODULUS && Val(a) < MODULUS && Val(b) < MODULUS
    ensures var x, y := Number(Val(a), isSigned), Number(Val(b), isSigned);
      && (Overflow in status <==> y == 0)
      && (y != 0 ==> Divides(x, y, q, r))
      && (y != 0 ==> Number(Val(result), isSigned) == if x < 0 then -(r as int) else r)
      && (y == 0 ==> Val(result) == 0)
    ensures status - {Overflow} == IntStatus(Val(result), isSigned)
  {
    WordBound(a);
    WordBound(b);
    var quotient;
    quotient, result, status, q, r := DivideInteger(a, b, isSigned);
    WordBound(result);
    var aTop := SignBit(a);
    var top := SignBit(result);
    if isSigned && !Limbs.IsZero(result) && top != aTop {
      status := status + {Overflow};
    }
    status := status
      + if Limbs.IsZero(result) then {ZeroResult} else if isSigned && top then {Ieee754.Negative} else {};
  }
}
