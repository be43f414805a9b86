/**
 * Multi-limb naturals, most significant limb first. The first limb is `top`
 * bits wide and every other limb 16 bits, as in the coefficient fields of
 * AR_IEEE_32, AR_IEEE_64, AR_CRAY_64 and AR_INT_64. Each function is one of
 * the C macros on such fields; its postcondition says what the macro does to
 * the number that the limbs spell.
 */
module Limbs {
  import opened Powers

  predicate Fits(top: nat, c: seq<nat>) {
    c != [] && c[0] < Pow2(top) && forall i :: 1 <= i < |c| ==> c[i] < 65536
  }

  /** One more than the largest number that n limbs can spell. */
  ghost function Range(top: nat, n: nat): (r: nat)
    requires n > 0
    ensures r > 0
  {
    if n == 1 then Pow2(top) else 65536 * Range(top, n - 1)
  }

  /** The number the limbs spell. */
  ghost function Val(c: seq<nat>): nat {
    if c == [] then 0 else Val(c[..|c| - 1]) * 65536 + c[|c| - 1]
  }

  lemma {:induction false} RangeIsPow2(top: nat, n: nat)
    requires n > 0
    ensures Range(top, n) == Pow2(top + 16 * (n - 1))
  {
    if n > 1 {
      RangeIsPow2(top, n - 1);
      var k := top + 16 * (n - 2);
      Times16(k);
      Times16(k + 4);
      Times16(k + 8);
      Times16(k + 12);
    }
  }

  lemma {:induction false} Times16(k: nat)
    ensures Pow2(k + 4) == 16 * Pow2(k)
  {
    assert Pow2(k + 1) == 2 * Pow2(k) && Pow2(k + 2) == 2 * Pow2(k + 1);
  }

  lemma {:induction false} ValSnoc(c: seq<nat>, limb: nat)
    ensures Val(c + [limb]) == Val(c) * 65536 + limb
  {
    assert (c + [limb])[..|c|] == c;
  }

  lemma {:induction false} ValBound(top: nat, c: seq<nat>)
    requires Fits(top, c)
    ensures Val(c) < Range(top, |c|)
  {
    if |c| > 1 {
      ValBound(top, c[..|c| - 1]);
    }
  }

  function Zeros(n: nat): (c: seq<nat>)
    requires n > 0
    ensures |c| == n && Val(c) == 0 && forall i :: 0 <= i < n ==> c[i] == 0
  {
    if n == 1 then [0] else
      ValSnoc(Zeros(n - 1), 0);
      Zeros(n - 1) + [0]
  }

  /** A row of limbs that is zero everywhere spells zero, and no other does. */
  predicate IsZero(c: seq<nat>)
    ensures IsZero(c) <==> Val(c) == 0
  {
    c == [] || (c[|c| - 1] == 0 && IsZero(c[..|c| - 1]))
  }

  /** ADDIEEE64, ADD64: limbwise sum from the right with a carry. */
  function Add(top: nat, a: seq<nat>, b: seq<nat>, carry: nat): (r: (seq<nat>, nat))
    requires |a| == |b| > 0
    ensures |r.0| == |a| && Fits(top, r.0)
    ensures Val(r.0) + Mul(r.1, Range(top, |a|)) == Val(a) + Val(b) + carry
  {
    var n := |a| - 1;
    var t := a[n] + b[n] + carry;
    if n == 0 then
      ValSnoc([], t % Pow2(top));
      Divide(t, Pow2(top));
      ValOne(a);
      ValOne(b);
      ([t % Pow2(top)], t / Pow2(top))
    else
      var (high, k) := Add(top, a[..n], b[..n], t / 65536);
      ValSnoc(high, t % 65536);
      AddStep(Val(high), k, Range(top, n), Val(a[..n]) + Val(b[..n]), t);
      (high + [t % 65536], k)
  }

  lemma {:induction false} ValOne(a: seq<nat>)
    requires |a| == 1
    ensures Val(a) == a[0]
  {
  }

  lemma {:induction false} Divide(t: nat, d: nat)
    requires d > 0
    ensures t == Mul(t / d, d) + t % d && t % d < d
  {
    MulIs(t / d, d);
  }

  lemma {:induction false} AddStep(high: nat, k: nat, range: nat, sum: nat, t: nat)
    requires high + Mul(k, range) == sum + t / 65536
    ensures (high * 65536 + t % 65536) + Mul(k, 65536 * range) == sum * 65536 + t
  {
    MulIs(k, range);
    MulIs(k, 65536 * range);
    assert k * (65536 * range) == 65536 * (k * range);
  }

  /** INCIEEE64, INC64: add a carry and return the carry out of the top limb. */
  function Inc(top: nat, a: seq<nat>, carry: nat): (r: (seq<nat>, nat))
    requires a != []
    ensures |r.0| == |a| && Fits(top, r.0)
    ensures Val(r.0) + Mul(r.1, Range(top, |a|)) == Val(a) + carry
  {
    Add(top, a, Zeros(|a|), carry)
  }

  /** NOTIEEE64, NOT64: complement every limb. */
  function Not(top: nat, a: seq<nat>): (r: seq<nat>)
    requires Fits(top, a)
    ensures |r| == |a| && Fits(top, r)
    ensures Val(r) == Range(top, |a|) - 1 - Val(a)
  {
    var n := |a| - 1;
    if n == 0 then
      ValSnoc([], Pow2(top) - 1 - a[0]);
      [Pow2(top) - 1 - a[0]]
    else
      ValSnoc(Not(top, a[..n]), 65535 - a[n]);
      Not(top, a[..n]) + [65535 - a[n]]
  }

  /** The top bit of the first limb, which tells whether the number reaches half its range. */
  function TopBit(top: nat, a: seq<nat>): (bit: nat)
    requires Fits(top, a) && top > 0
    ensures bit == if 2 * Val(a) >= Range(top, |a|) then 1 else 0
  {
    TopBitValue(top, a);
    var h := Pow2(top - 1);
    MulOne(h);
    DivModUnique(a[0], h, if a[0] < h then 0 else 1, if a[0] < h then a[0] else a[0] - h);
    a[0] / h
  }

  lemma {:induction false} TopBitValue(top: nat, a: seq<nat>)
    requires Fits(top, a) && top > 0
    ensures a[0] >= Pow2(top - 1) <==> 2 * Val(a) >= Range(top, |a|)
  {
    var n := |a| - 1;
    if n > 0 {
      TopBitValue(top, a[..n]);
      var half := HalfRange(top, n);
      HalfOrder(Val(a[..n]), a[n], half);
    } else {
      assert Val(a) == a[0];
    }
  }

  lemma {:induction false} HalfOrder(high: nat, limb: nat, half: nat)
    requires limb < 65536
    ensures 2 * high >= 2 * half <==> 2 * (high * 65536 + limb) >= 65536 * (2 * half)
  {
  }

  lemma {:induction false} HalfRange(top: nat, n: nat) returns (half: nat)
    requires n > 0 && top > 0
    ensures Range(top, n) == 2 * half
  {
    if n == 1 {
      half := Pow2(top - 1);
    } else {
      half := HalfRange(top, n - 1);
      half := 65536 * half;
    }
  }

  /** SHLEFTIEEE64, SHLEFT64: every limb shifted left by one takes in the top bit of the limb after
      it, the last one a bit from the right; the top bit of the first goes out. */
  function ShiftLeft(top: nat, a: seq<nat>, bit: nat): (r: (seq<nat>, nat))
    requires Fits(top, a) && bit <= 1 && top > 0
    ensures |r.0| == |a| && Fits(top, r.0) && r.1 <= 1
    ensures Val(r.0) + (if r.1 == 1 then Range(top, |a|) else 0) == 2 * Val(a) + bit
  {
    var n := |a| - 1;
    if n == 0 then
      var out := TopBit(top, a);
      var limb := 2 * a[0] - (if out == 1 then Pow2(top) else 0) + bit;
      OneLimbLeft(top, a, bit, out, limb);
      ([limb], out)
    else
      var (high, out) := ShiftLeft(top, a[..n], a[n] / 32768);
      var limb := a[n] * 2 % 65536 + bit;
      ShiftLeftStep(Val(a[..n]), a[n], bit, Val(high), if out == 1 then Range(top, n) else 0);
      ValSnoc(high, limb);
      (high + [limb], out)
  }

  lemma {:induction false} OneLimbLeft(top: nat, a: seq<nat>, bit: nat, out: nat, limb: int)
    requires |a| == 1 && Fits(top, a) && bit <= 1 && top > 0 && out == (if 2 * Val(a) >= Range(top, 1) then 1 else 0)
    requires limb == 2 * a[0] - (if out == 1 then Pow2(top) else 0) + bit
    ensures 0 <= limb < Pow2(top) && Val([limb]) + (if out == 1 then Range(top, 1) else 0) == 2 * Val(a) + bit
  {
    hide Val;
    ValOne(a);
    EvenRange(a[0], bit, Pow2(top - 1), out);
    if limb >= 0 { ValOne([limb]); }
  }

  lemma {:induction false} EvenRange(a: nat, bit: nat, h: nat, out: nat)
    requires bit <= 1 && a < 2 * h && out == if 2 * a >= 2 * h then 1 else 0
    ensures 0 <= 2 * a - (if out == 1 then 2 * h else 0) + bit < 2 * h
  {
  }

  lemma {:induction false} ShiftLeftStep(v: nat, limb: nat, bit: nat, high: nat, outgoing: nat)
    requires limb < 65536 && bit <= 1 && high + outgoing == 2 * v + limb / 32768
    ensures limb * 2 % 65536 + bit < 65536
    ensures high * 65536 + (limb * 2 % 65536 + bit) + 65536 * outgoing == 2 * (v * 65536 + limb) + bit
  {
    var q, r := limb / 32768, limb % 32768;
    assert limb * 2 == 65536 * q + 2 * r;
  }

  /** SHRIGHTIEEE64, SHRIGHT64, with `bit` ORed into the emptied top position. */
  function ShiftRight(top: nat, a: seq<nat>, bit: nat): (r: seq<nat>)
    requires Fits(top, a) && bit <= 1 && top > 0
    ensures |r| == |a| && Fits(top, r)
    ensures 2 * Val(r) + Val(a) % 2 == Val(a) + if bit == 1 then Range(top, |a|) else 0
  {
    var n := |a| - 1;
    ParityOfVal(a);
    if n == 0 then
      var limb := a[0] / 2 + if bit == 1 then Pow2(top - 1) else 0;
      ValSnoc([], limb);
      ValOne(a);
      [limb]
    else
      var high := ShiftRight(top, a[..n], bit);
      var limb := a[n] / 2 + a[n - 1] % 2 * 32768;
      ValSnoc(high, limb);
      ParityOfVal(a[..n]);
      assert a[..n][n - 1] == a[n - 1];
      ShiftRightStep(Val(a[..n]), a[n], Val(high), if bit == 1 then Range(top, n) else 0);
      high + [limb]
  }

  lemma {:induction false} ShiftRightStep(v: nat, limb: nat, high: nat, incoming: nat)
    requires 2 * high + v % 2 == v + incoming
    ensures 2 * (high * 65536 + (limb / 2 + v % 2 * 32768)) + limb % 2 == v * 65536 + limb + 65536 * incoming
  {
    var q, r, lq, lr := v / 2, v % 2, limb / 2, limb % 2;
    assert v == 2 * q + r && limb == 2 * lq + lr;
  }

  /** The low bit of the number is the low bit of the last limb. */
  lemma {:induction false} ParityOfVal(c: seq<nat>)
    requires c != []
    ensures Val(c) % 2 == c[|c| - 1] % 2
  {
  }

  /** Two rows of limbs spell the same number only if they are the same row. */
  lemma {:induction false} ValInjective(top: nat, a: seq<nat>, b: seq<nat>)
    requires |a| == |b| && Fits(top, a) && Fits(top, b) && Val(a) == Val(b)
    ensures a == b
  {
    var n := |a| - 1;
    if n == 0 {
      assert a[..0] == b[..0] == [];
    } else {
      ValInjective(top, a[..n], b[..n]);
      assert a == a[..n] + [a[n]] && b == b[..n] + [b[n]];
    }
  }

  /** The top three bits, and whether any bit below them is set. */
  function GuardBits(top: nat, a: seq<nat>): (r: (nat, bool))
    requires Fits(top, a) && top >= 3
    ensures r.0 < 8
    ensures GuardSplit(a, Pow2(top - 3 + 16 * (|a| - 1)), r.0, r.1)
  {
    var w := Pow2(top - 3);
    Divide(a[0], w);
    GuardSplitLemma(top, a, a[0] / w, a[0] % w);
    (a[0] / w, a[0] % w != 0 || !IsZero(a[1..]))
  }

  /** The number is bits * w plus less than w, and rest tells whether that is more than nothing. */
  ghost predicate GuardSplit(a: seq<nat>, w: nat, bits: nat, rest: bool) {
    Mul(bits, w) <= Val(a) < Mul(bits, w) + w && (rest <==> Val(a) != Mul(bits, w))
  }

  lemma {:induction false} GuardSplitLemma(top: nat, a: seq<nat>, bits: nat, r: nat)
    requires Fits(top, a) && top >= 3
    requires a[0] == Mul(bits, Pow2(top - 3)) + r && r < Pow2(top - 3)
    ensures bits < 8
    ensures GuardSplit(a, Pow2(top - 3 + 16 * (|a| - 1)), bits, r != 0 || !IsZero(a[1..]))
  {
    var n := |a| - 1;
    if n == 0 {
      if bits >= 8 { MulLe(8, bits, Pow2(top - 3)); }
      assert Pow2(top - 1) == 2 * Pow2(top - 2) && Pow2(top - 2) == 2 * Pow2(top - 3);
      MulEightOf(Pow2(top - 3));
      assert Val(a) == a[0] && a[1..] == [];
    } else {
      GuardSplitLemma(top, a[..n], bits, r);
      var k := top - 3 + 16 * (n - 1);
      Times16(k);
      Times16(k + 4);
      Times16(k + 8);
      Times16(k + 12);
      Mul65536(bits, Pow2(k));
      assert a[1..][..n - 1] == a[..n][1..] && a[1..][n - 1] == a[n];
    }
  }

  lemma {:induction false} MulEightOf(w: nat)
    ensures Mul(8, w) == 8 * w
  {
    MulIs(8, w);
  }

  lemma {:induction false} Mul65536(a: nat, w: nat)
    ensures Mul(a, 65536 * w) == 65536 * Mul(a, w)
  {
    MulIs(a, w);
    MulIs(a, 65536 * w);
    assert a * (65536 * w) == 65536 * (a * w);
  }

  /** Whether row a is below, at or above row b, comparing limb by limb from the top. */
  function CompareRows(a: seq<nat>, b: seq<nat>, k: nat): (c: int)
    requires k <= |a| == |b|
    decreases |a| - k
  {
    if k == |a| then 0 else if a[k] != b[k] then if a[k] < b[k] then -1 else 1 else CompareRows(a, b, k + 1)
  }

  /** The limbwise order is the order of the numbers. */
  lemma {:induction false} RowOrder(top: nat, a: seq<nat>, b: seq<nat>)
    requires |a| == |b| && Fits(top, a) && Fits(top, b)
    ensures CompareRows(a, b, 0) == if Val(a) < Val(b) then -1 else if Val(a) > Val(b) then 1 else 0
  {
    var n := |a| - 1;
    if n == 0 {
      ValOne(a);
      ValOne(b);
      assert CompareRows(a, b, 1) == 0;
    } else {
      RowOrder(top, a[..n], b[..n]);
      CompareLast(a, b, 0);
    }
  }

  /** The last limbs decide only if all limbs before them are equal. */
  lemma {:induction false} CompareLast(a: seq<nat>, b: seq<nat>, k: nat)
    requires k < |a| == |b|
    ensures var n := |a| - 1; var c := CompareRows(a[..n], b[..n], k);
      CompareRows(a, b, k) == if c != 0 then c else if a[n] < b[n] then -1 else if a[n] > b[n] then 1 else 0
    decreases |a| - k
  {
    var n := |a| - 1;
    if k == n {
      assert CompareRows(a, b, n + 1) == 0;
    } else {
      CompareLast(a, b, k + 1);
    }
  }
}
