/**
 * cray_fmul.c: the two texts of the truncating multiply ar_cfmul64, and the exact
 * product with one rounding of ar_cfmul128.
 */
module Cray {
  import opened Powers
  import opened Limbs

  // ---- The pyramid ----

  /** Sum the multiplicand, halved and truncated once more for every multiplier bit, over
      the n bits of z from the top. */
  function Pyramid(v: nat, z: nat, n: nat): nat
    decreases n, v, z
  {
    if n == 0 then 0
    else if z >= Pow2(n - 1) then v + Pyramid(v / 2, z - Pow2(n - 1), n - 1)
    else Pyramid(v / 2, z, n - 1)
  }

  /** v halved and truncated n times. */
  function Halved(v: nat, n: nat): nat
    decreases n, v
  {
    if n == 0 then v else Halved(v / 2, n - 1)
  }

  lemma {:induction false} HalvedAdd(v: nat, n: nat, m: nat)
    ensures Halved(Halved(v, n), m) == Halved(v, n + m)
    decreases n
  {
    if n > 0 { HalvedAdd(v / 2, n - 1, m); }
  }

  lemma {:induction false} PyramidOfZero(v: nat, n: nat)
    ensures Pyramid(v, 0, n) == 0
    decreases n
  {
    if n > 0 { PyramidOfZero(v / 2, n - 1); }
  }

  /** The multiplier may be taken in pieces. */
  lemma {:induction false} PyramidSplits(v: nat, hi: nat, lo: nat, n: nat, m: nat)
    requires hi < Pow2(n) && lo < Pow2(m)
    ensures Pyramid(v, Mul(hi, Pow2(m)) + lo, n + m) == Pyramid(v, hi, n) + Pyramid(Halved(v, n), lo, m)
    decreases n
  {
    if n == 0 {
      MulOne(Pow2(m));
    } else {
      var w := Pow2(n - 1);
      Pow2Add(n - 1, m);
      if hi >= w {
        MulSub(hi, w, Pow2(m));
        MulLe(w, hi, Pow2(m));
        PyramidSplits(v / 2, hi - w, lo, n - 1, m);
      } else {
        MulLt(hi, w, Pow2(m));
        PyramidSplits(v / 2, hi, lo, n - 1, m);
      }
    }
  }

  // ---- Error bound ----

  /** p approximates v * z / w from below, by less than k. */
  predicate Near(v: nat, z: nat, p: nat, w: nat, k: nat) {
    Mul(p, w) <= Mul(v, z) < Mul(p + k, w)
  }

  /** A leading multiplier bit adds v exactly. */
  lemma {:induction false} NearTop(v: nat, z: nat, p: nat, w: nat, k: nat)
    requires Near(v, z, p, w, k)
    ensures Near(v, z + w, v + p, w, k)
  {
    MulComm(v, z);
    MulComm(v, z + w);
    MulAdd(z, w, v);
    MulComm(w, v);
    MulAdd(v, p, w);
    MulAdd(v, p + k, w);
  }

  /** A halving loses at most one more. */
  lemma {:induction false} NearHalved(v: nat, z: nat, p: nat, w: nat, k: nat)
    requires z < 2 * w && Mul(p, w) <= Mul(v / 2, z) <= Mul(p + k, w)
    ensures Near(v, z, p, 2 * w, k + 1)
  {
    MulTwo(p, w);
    MulTwo(p + k, w);
    MulTwo(v / 2, z);
    MulAdd(2 * (v / 2), v % 2, z);
    MulOne(z);
    MulAdd(p + k, 1, 2 * w);
    MulOne(2 * w);
  }

  /** A halving of an even number loses nothing. */
  lemma {:induction false} NearHalvedEven(v: nat, z: nat, p: nat, w: nat, k: nat)
    requires Near(v, z, p, w, k)
    ensures Near(2 * v, z, p, 2 * w, k)
  {
    MulTwo(v, z);
    MulTwo(p, w);
    MulTwo(p + k, w);
  }

  /** What the truncations lose of v * z: less than one last place for every halving. */
  lemma {:induction false} PyramidLoss(v: nat, z: nat, n: nat)
    requires z < Pow2(n) && n > 1
    ensures Near(v, z, Pyramid(v, z, n), Pow2(n - 1), n - 1)
    decreases n
  {
    var w := Pow2(n - 1);
    var z' := if z >= w then z - w else z;
    var p := Pyramid(v / 2, z', n - 1);
    if n == 2 {
      OneBit(v / 2, z');
      NearHalved(v, z', p, 1, 0);
    } else {
      PyramidLoss(v / 2, z', n - 1);
      NearHalved(v, z', p, Pow2(n - 2), n - 2);
    }
    if z >= w { NearTop(v, z', p, w, n - 1); }
  }

  lemma {:induction false} OneBit(v: nat, z: nat)
    requires z < 2
    ensures Pow2(0) == 1 && Pow2(1) == 2 && Mul(Pyramid(v, z, 1), 1) == Mul(v, z)
  {
    MulOne(v);
    assert Pyramid(v, z, 1) == if z == 1 then v else 0;
    MulOne(0);
  }

  /** Halvings that lose nothing do not count. */
  lemma {:induction false} ExactHalvings(v: nat, z: nat, n: nat, j: nat)
    requires z < Pow2(n) && j + 1 < n
    ensures Near(Mul(v, Pow2(j)), z, Pyramid(Mul(v, Pow2(j)), z, n), Pow2(n - 1), n - 1 - j)
    decreases j
  {
    if j == 0 {
      MulOne(v);
      PyramidLoss(v, z, n);
    } else {
      var w, h := Pow2(n - 1), Mul(v, Pow2(j - 1));
      var z' := if z >= w then z - w else z;
      MulTwo(v, Pow2(j - 1));
      DivMod2(2 * h, h, 0);
      ExactHalvings(v, z', n - 1, j - 1);
      NearHalvedEven(h, z', Pyramid(h, z', n - 1), Pow2(n - 2), n - 1 - j);
      if z >= w { NearTop(2 * h, z', Pyramid(h, z', n - 1), w, n - 1 - j); }
    }
  }

  // ---- Rows of 16-bit limbs ----

  ghost predicate IsRow(c: seq<nat>, n: nat) {
    n > 0 && |c| == n && Fits(16, c)
  }

  lemma {:induction false} RowBound(c: seq<nat>, n: nat)
    requires IsRow(c, n)
    ensures Val(c) < Pow2(16 * n) == Range(16, n)
  {
    RangeIsPow2(16, n);
    ValBound(16, c);
  }

  /** ADDCRAY64, ADDCRAY128 */
  method AddRows(a: seq<nat>, b: seq<nat>, carry: nat, n: nat) returns (sum: seq<nat>, out: nat)
    requires IsRow(a, n) && IsRow(b, n)
    ensures IsRow(sum, n) && Val(sum) + Mul(out, Pow2(16 * n)) == Val(a) + Val(b) + carry
  {
    RowBound(a, n);
    var r := Limbs.Add(16, a, b, carry);
    sum, out := r.0, r.1;
  }

  /** SHRIGHTCRAY64, SHRIGHTCRAY128, with a bit entering from the left, and the bit shifted out. */
  method ShiftRightRow(a: seq<nat>, bit: nat, n: nat) returns (r: seq<nat>, out: nat)
    requires IsRow(a, n) && bit <= 1
    ensures IsRow(r, n) && out <= 1 && 2 * Val(r) + out == Val(a) + if bit == 1 then Pow2(16 * n) else 0
  {
    RowBound(a, n);
    ParityOfVal(a);
    out := a[n - 1] % 2;
    r := Limbs.ShiftRight(16, a, bit);
  }

  /** The leading bit of a row, and SHLEFTCRAY64, SHLEFTCRAY128. */
  method ShiftLeftRow(a: seq<nat>, n: nat) returns (top: nat, r: seq<nat>)
    requires IsRow(a, n)
    ensures IsRow(r, n) && top == (if 2 * Val(a) >= Pow2(16 * n) then 1 else 0)
    ensures Val(r) + (if top == 1 then Pow2(16 * n) else 0) == 2 * Val(a)
  {
    RowBound(a, n);
    var s := Limbs.ShiftLeft(16, a, 0);
    top, r := s.1, s.0;
    RowBound(r, n);
  }

  // ---- Multiplier bits from the top ----

  /** After i shifts the multiplier row of w bits shows the remaining bits, left-justified. */
  ghost predicate Remaining(z: nat, rem: nat, i: nat, w: nat) {
    i <= w && z == Mul(rem, Pow2(i)) && rem < Pow2(w - i)
  }

  lemma {:induction false} NextBit(z: nat, rem: nat, i: nat, w: nat)
    requires Remaining(z, rem, i, w) && i < w
    ensures 2 * z >= Pow2(w) <==> rem >= Pow2(w - i - 1)
    ensures 2 * z >= Pow2(w) ==> Remaining(2 * z - Pow2(w), rem - Pow2(w - i - 1), i + 1, w)
    ensures 2 * z < Pow2(w) ==> Remaining(2 * z, rem, i + 1, w)
  {
    var h := Pow2(w - i - 1);
    Pow2Add(w - i - 1, i + 1);
    MulTwo(rem, Pow2(i));
    MulOrder(rem, h, Pow2(i + 1));
    if rem >= h { MulSub(rem, h, Pow2(i + 1)); }
  }

  // ---- The simple text ----

  /** Left bits, coefficient and seven rounding bits side by side. */
  ghost function Register(lbits: nat, x: seq<nat>, rbits: nat): nat {
    (Mul(lbits, Pow2(16 * |x|)) + Val(x)) * 128 + rbits
  }

  /** Add the scaled operand to the sum, with truncation. */
  method AddScaled(x0: seq<nat>, lbits0: nat, rbits0: nat, y: seq<nat>, yr: nat, n: nat)
    returns (x: seq<nat>, lbits: nat, rbits: nat)
    requires IsRow(x0, n) && IsRow(y, n) && rbits0 < 128 && yr < 128
    ensures IsRow(x, n) && rbits < 128
    ensures Register(lbits, x, rbits) == Register(lbits0, x0, rbits0) + (Val(y) * 128 + yr)
  {
    var t := rbits0 + yr;
    rbits := t % 128;
    var carry;
    x, carry := AddRows(x0, y, t / 128, n);
    lbits := lbits0 + carry;
    MulAdd(lbits0, carry, Pow2(16 * n));
  }

  /** One position of the simple loop. */
  lemma {:induction false} HalfScaled(y: nat, yr: nat, y': nat, out: nat, yr': nat)
    requires yr < 128 && out <= 1 && 2 * y' + out == y && yr' == yr / 2 + out * 64
    ensures yr' < 128 && y' * 128 + yr' == (y * 128 + yr) / 2
  {
    DivMod2(y * 128 + yr, y' * 128 + yr', yr % 2);
  }

  /** The bit loop, one step for every one of the 16 * n coefficient bits. */
  method SimplePyramid(x0: seq<nat>, lbits0: nat, rbits0: nat, a: seq<nat>, b: seq<nat>, n: nat)
    returns (x: seq<nat>, lbits: nat, rbits: nat)
    requires IsRow(x0, n) && IsRow(a, n) && IsRow(b, n) && rbits0 < 128
    ensures IsRow(x, n) && rbits < 128
    ensures Register(lbits, x, rbits) == Register(lbits0, x0, rbits0) + Pyramid(Val(a) * 128, Val(b), 16 * |b|)
  {
    x, lbits, rbits := x0, lbits0, rbits0;
    var y, yr, z := a, 0, b;
    ghost var v, rem, w := Val(a) * 128, Val(b), 16 * n;
    ghost var total := Register(lbits0, x0, rbits0) + Pyramid(v, rem, w);
    RowBound(b, n);
    MulOne(rem);
    var i := 0;
    while i < 16 * n
      invariant i <= w && IsRow(x, n) && IsRow(y, n) && IsRow(z, n) && rbits < 128 && yr < 128
      invariant v == Val(y) * 128 + yr && Remaining(Val(z), rem, i, w)
      invariant Register(lbits, x, rbits) + Pyramid(v, rem, w - i) == total
    {
      x, lbits, rbits, z, rem := AddIfSet(x, lbits, rbits, y, yr, z, n, v, rem, i, w);
      y, yr := HalveScaled(y, yr, n);
      v := v / 2;
      i := i + 1;
    }
  }

  /** Shift the multiplier, and add the scaled operand if its leading bit was set. */
  method AddIfSet(x0: seq<nat>, lbits0: nat, rbits0: nat, y: seq<nat>, yr: nat, z0: seq<nat>, n: nat,
                  ghost v: nat, ghost rem0: nat, ghost i: nat, ghost w: nat)
    returns (x: seq<nat>, lbits: nat, rbits: nat, z: seq<nat>, ghost rem: nat)
    requires IsRow(x0, n) && IsRow(y, n) && IsRow(z0, n) && rbits0 < 128 && yr < 128 && w == 16 * n
    requires v == Val(y) * 128 + yr && Remaining(Val(z0), rem0, i, w) && i < w
    ensures IsRow(x, n) && IsRow(z, n) && rbits < 128 && Remaining(Val(z), rem, i + 1, w)
    ensures Register(lbits, x, rbits) + Pyramid(v / 2, rem, w - (i + 1))
         == Register(lbits0, x0, rbits0) + Pyramid(v, rem0, w - i)
  {
    NextBit(Val(z0), rem0, i, w);
    var top;
    top, z := ShiftLeftRow(z0, n);
    x, lbits, rbits, rem := x0, lbits0, rbits0, rem0;
    if top == 1 {
      x, lbits, rbits := AddScaled(x0, lbits0, rbits0, y, yr, n);
      rem := rem0 - Pow2(w - i - 1);
    }
  }

  method HalveScaled(y0: seq<nat>, yr0: nat, n: nat) returns (y: seq<nat>, yr: nat)
    requires IsRow(y0, n) && yr0 < 128
    ensures IsRow(y, n) && yr < 128 && Val(y) * 128 + yr == (Val(y0) * 128 + yr0) / 2
  {
    var out;
    y, out := ShiftRightRow(y0, 0, n);
    yr := yr0 / 2 + out * 64;
    HalfScaled(Val(y0), yr0, Val(y), out, yr);
  }

  // ---- The fast text ----

  /** The rounding word keeps more of the low bits of v than the seven that are added: all
      those below 2^n. */
  ghost predicate Window(v: nat, y: seq<nat>, yr: nat, h: nat, n: nat) {
    7 <= n <= 23 && Val(y) == v / 128 && v == Mul(h, Pow2(n)) + yr && yr < Pow2(n)
  }

  /** The low seven bits of the rounding word are those of v. */
  lemma {:induction false} WindowLow(v: nat, y: seq<nat>, yr: nat, h: nat, n: nat)
    requires Window(v, y, yr, h, n)
    ensures v == Val(y) * 128 + yr % 128
  {
    Pow2Add(n - 7, 7);
    Pow2Seven();
    MulAssoc(h, Pow2(n - 7), 128);
    Times128(Mul(h, Pow2(n - 7)));
    SameLow(v, Mul(h, Pow2(n - 7)), yr);
  }

  lemma {:induction false} SameLow(v: nat, q: nat, yr: nat)
    requires v == 128 * q + yr
    ensures v == v / 128 * 128 + yr % 128
  {
    var l := yr / 128;
    assert v == 128 * (q + l) + yr % 128;
  }

  lemma {:induction false} Pow2Seven()
    ensures Pow2(7) == 128 && Pow2(23) == 128 * 65536 && Pow2(16) == 65536
  {
    assert Pow2(3) == 8;
    Times16(3);
    Times16(7);
    Times16(11);
    Times16(15);
    Times16(19);
    Times16(0);
    Times16(4);
    Times16(8);
    Times16(12);
  }

  lemma {:induction false} Times128(n: nat)
    ensures Mul(n, 128) == 128 * n
  {
    MulIs(n, 128);
  }

  lemma {:induction false} WindowHalves(v: nat, y: nat, yr: nat, h: nat, n: nat, y': nat, out: nat)
    requires 8 <= n && y == v / 128 && v == Mul(h, Pow2(n)) + yr && yr < Pow2(n) && y == 2 * y' + out && out <= 1
    ensures y' == v / 2 / 128 && v / 2 == Mul(h, Pow2(n - 1)) + yr / 2 && yr / 2 < Pow2(n - 1)
  {
    MulTwo(h, Pow2(n - 1));
    DivMod2(v, Mul(h, Pow2(n - 1)) + yr / 2, yr % 2);
    var r := v % 128;
    assert v / 2 == 128 * y' + (out * 64 + r / 2);
  }

  method HalveWindow(y0: seq<nat>, yr0: nat, ghost v: nat, ghost h: nat, ghost n: nat) returns (y: seq<nat>, yr: nat)
    requires IsRow(y0, 3) && Window(v, y0, yr0, h, n) && n >= 8
    ensures IsRow(y, 3) && Window(v / 2, y, yr, h, n - 1)
  {
    var out;
    y, out := ShiftRightRow(y0, 0, 3);
    yr := yr0 / 2;
    WindowHalves(v, Val(y0), yr0, h, n, Val(y), out);
  }

  /** One pass over the bits of a multiplier limb; it ends when no set bit is left, with i
      shifts still to be made. */
  method ChunkLoop(x0: seq<nat>, lbits0: nat, rbits0: nat, y0: seq<nat>, yr0: nat, z0: nat, ghost v0: nat,
        ghost h: nat, ghost w: nat)
    returns (x: seq<nat>, lbits: nat, rbits: nat, y: seq<nat>, yr: nat, i: nat)
    requires IsRow(x0, 3) && IsRow(y0, 3) && rbits0 < 128 && z0 < 65536 && Window(v0, y0, yr0, h, 23) && w == 16
    ensures IsRow(x, 3) && IsRow(y, 3) && rbits < 128 && i <= w
    ensures Window(Halved(v0, w - i), y, yr, h, 7 + i)
    ensures Register(lbits, x, rbits) == Register(lbits0, x0, rbits0) + Pyramid(v0, z0, w)
  {
    x, lbits, rbits, y, yr, i := x0, lbits0, rbits0, y0, yr0, 16;
    var zcoeff := z0;
    ghost var k, v, rem := 0, v0, z0;
    ghost var total := Register(lbits0, x0, rbits0) + Pyramid(v, rem, w);
    MulOne(rem);
    Pow2Of16(w);
    while zcoeff != 0
      invariant k == w - i <= w && IsRow(x, 3) && IsRow(y, 3) && rbits < 128
      invariant v == Halved(v0, k) && Window(v, y, yr, h, 7 + i) && Remaining(zcoeff, rem, k, w)
      invariant Register(lbits, x, rbits) + Pyramid(v, rem, w - k) == total
      decreases i
    {
      SomeBitLeft(zcoeff, rem, k, w);
      x, lbits, rbits, zcoeff, rem := AddChunkBit(x, lbits, rbits, y, yr, zcoeff, v, h, rem, k, w);
      y, yr := HalveWindow(y, yr, v, h, 7 + i);
      HalvedAdd(v0, k, 1);
      v := v / 2;
      k := k + 1;
      i := i - 1;
    }
    NoBitLeft(rem, k);
    PyramidOfZero(v, w - k);
  }

  lemma {:induction false} Pow2Of16(w: nat)
    requires w == 16
    ensures Pow2(w) == 65536
  {
    Pow2Seven();
  }

  lemma {:induction false} SomeBitLeft(z: nat, rem: nat, k: nat, w: nat)
    requires Remaining(z, rem, k, w) && z != 0
    ensures k < w
  {
    MulOne(Pow2(k));
  }

  lemma {:induction false} NoBitLeft(rem: nat, k: nat)
    requires Mul(rem, Pow2(k)) == 0
    ensures rem == 0
  {
    if rem > 0 { MulPositive(rem, Pow2(k)); }
  }

  method AddChunkBit(x0: seq<nat>, lbits0: nat, rbits0: nat, y: seq<nat>, yr: nat, z0: nat, ghost v: nat, ghost h: nat,
                     ghost rem0: nat, ghost k: nat, ghost w: nat)
    returns (x: seq<nat>, lbits: nat, rbits: nat, z: nat, ghost rem: nat)
    requires IsRow(x0, 3) && IsRow(y, 3) && rbits0 < 128 && w == 16 && k < w && z0 < 65536
    requires Window(v, y, yr, h, 23 - k) && Remaining(z0, rem0, k, w)
    ensures IsRow(x, 3) && rbits < 128 && z < 65536 && Remaining(z, rem, k + 1, w)
    ensures Register(lbits, x, rbits) + Pyramid(v / 2, rem, w - (k + 1))
            == Register(lbits0, x0, rbits0) + Pyramid(v, rem0, w - k)
  {
    NextBit(z0, rem0, k, w);
    Pow2Seven();
    x, lbits, rbits, rem := x0, lbits0, rbits0, rem0;
    if z0 / 0x8000 != 0 {
      WindowLow(v, y, yr, h, 23 - k);
      x, lbits, rbits := AddScaled(x0, lbits0, rbits0, y, yr % 128, 3);
      rem := rem0 - Pow2(w - k - 1);
    }
    z := z0 % 0x8000 * 2;
  }

  // ---- The shifts that a pass did not get to, made at once ----

  /** v shifted right by n, and what is shifted out. */
  lemma {:induction false} HalvedSplit(v: nat, n: nat) returns (r: nat)
    ensures v == Mul(Halved(v, n), Pow2(n)) + r && r < Pow2(n)
    decreases n
  {
    if n == 0 {
      MulOne(v);
      r := 0;
    } else {
      r := HalvedSplit(v / 2, n - 1);
      MulTwo(Halved(v, n), Pow2(n - 1));
      r := 2 * r + v % 2;
    }
  }

  /** A limb shifted right by i, with the bits that come in from the limb above. */
  function Joined(hi: nat, lo: nat, i: nat): nat
    requires i <= 16
  {
    Halved(lo, i) + Mul(hi, Pow2(16 - i)) % 65536
  }

  /** The bits that come in are the last i of the limb above. */
  lemma {:induction false} LowBitsUp(hi: nat, h: nat, r: nat, q: nat, p: nat)
    requires hi == Mul(h, q) + r && r < q && Mul(q, p) == 65536 && p > 0
    ensures Mul(hi, p) % 65536 == Mul(r, p) && Mul(r, p) + p <= 65536
  {
    MulAdd(Mul(h, q), r, p);
    MulAssoc(h, q, p);
    MulLt(r, q, p);
    Divided65536(Mul(hi, p), h, Mul(r, p));
  }

  lemma {:induction false} Divided65536(n: nat, h: nat, r: nat)
    requires n == Mul(h, 65536) + r && r < 65536
    ensures n % 65536 == r
  {
    MulIs(h, 65536);
  }

  lemma {:induction false} SixteenBits(i: nat)
    requires i <= 16
    ensures Mul(Pow2(i), Pow2(16 - i)) == 65536 && Mul(Pow2(16 - i), Pow2(i)) == 65536
  {
    Pow2Add(i, 16 - i);
    Pow2Seven();
    MulComm(Pow2(i), Pow2(16 - i));
  }

  /** Two limbs of which the upper one leaves r on the right. */
  lemma {:induction false} JoinedIs(hi: nat, h: nat, r: nat, lo: nat, i: nat) returns (rest: nat)
    requires i <= 16 && hi == Mul(h, Pow2(i)) + r && r < Pow2(i) && lo < 65536
    ensures rest < Pow2(i) && Mul(Joined(hi, lo, i), Pow2(i)) + rest == Mul(r, 65536) + lo
    ensures Joined(hi, lo, i) < 65536 && lo == Mul(Halved(lo, i), Pow2(i)) + rest
  {
    var q, p := Pow2(i), Pow2(16 - i);
    SixteenBits(i);
    LowBitsUp(hi, h, r, q, p);
    rest := HalvedSplit(lo, i);
    MulOrder(Halved(lo, i), p, q);
    MulAdd(Halved(lo, i), Mul(r, p), q);
    MulAssoc(r, p, q);
  }

  /** Three limbs of which the upper one is shifted out. */
  lemma {:induction false} ThreeLimbs(y0: nat, y1: nat, y2: nat, i: nat) returns (rest: nat)
    requires i <= 16 && y0 < Pow2(i) && y1 < 65536 && y2 < 65536
    ensures rest < Pow2(i)
    ensures Mul(Joined(y0, y1, i) * 65536 + Joined(y1, y2, i), Pow2(i)) + rest == (y0 * 65536 + y1) * 65536 + y2
    ensures Joined(y0, y1, i) < 65536 && Joined(y1, y2, i) < 65536
  {
    hide Joined;
    var q, j0, j1 := Pow2(i), Joined(y0, y1, i), Joined(y1, y2, i);
    MulOne(q);
    var r1 := JoinedIs(y0, 0, y0, y1, i);
    rest := JoinedIs(y1, Halved(y1, i), r1, y2, i);
    JoinTwice(j0, j1, q, y0, y1, y2, r1, rest);
  }

  lemma {:induction false} JoinTwice(j0: nat, j1: nat, q: nat, y0: nat, y1: nat, y2: nat, r1: nat, rest: nat)
    requires Mul(j0, q) + r1 == Mul(y0, 65536) + y1 && Mul(j1, q) + rest == Mul(r1, 65536) + y2
    ensures Mul(j0 * 65536 + j1, q) + rest == (y0 * 65536 + y1) * 65536 + y2
  {
    MulAdd(j0 * 65536, j1, q);
    Times65536(j0, q);
    MulIs(y0, 65536);
    MulIs(r1, 65536);
  }

  lemma {:induction false} Times65536(a: nat, b: nat)
    ensures Mul(a * 65536, b) == Mul(a, b) * 65536
  {
    MulComm(a * 65536, b);
    MulComm(a, b);
    Mul65536(b, a);
  }

  lemma {:induction false} HalvedBound(v: nat, n: nat, m: nat)
    requires v < Pow2(n + m)
    ensures Halved(v, n) < Pow2(m)
    decreases n
  {
    if n > 0 { HalvedBound(v / 2, n - 1, m); }
  }

  lemma {:induction false} HalvedIs(v: nat, n: nat, q: nat, r: nat)
    requires v == Mul(q, Pow2(n)) + r && r < Pow2(n)
    ensures Halved(v, n) == q
    decreases n
  {
    if n == 0 {
      MulOne(q);
    } else {
      MulTwo(q, Pow2(n - 1));
      DivMod2(v, Mul(q, Pow2(n - 1)) + r / 2, r % 2);
      HalvedIs(v / 2, n - 1, q, r / 2);
    }
  }

  /** The window after i shifts at once: the limbs shifted right, the rounding word likewise. */
  lemma {:induction false} WindowSkips(v: nat, y: nat, yr: nat, h: nat, i: nat, y': nat, rest: nat)
    requires v == Mul(h, Pow2(7 + i)) + yr && yr < Pow2(7 + i) && y == v / 128 && y == Mul(y', Pow2(i)) + rest
             && rest < Pow2(i)
    ensures y' == h && Halved(v, i) == y' * 128 + Halved(yr, i) && Halved(yr, i) < 128
  {
    var q := Pow2(i);
    Pow2Add(7, i);
    Pow2Seven();
    MulAssoc(h, 128, q);
    Times128(h);
    Times128Left(q);
    var r := HalvedSplit(yr, i);
    MulOrder(Halved(yr, i), 128, q);
    MulAdd(h * 128, Halved(yr, i), q);
    HalvedIs(v, i, h * 128 + Halved(yr, i), r);
    MulAssoc(h, q, 128);
    MulComm(128, q);
    Times128(Mul(h, q));
    WindowQuotient(v, Mul(h, q), yr, q);
    SameQuotient(y', rest, h, yr / 128, q);
  }

  lemma {:induction false} Times128Left(n: nat)
    ensures Mul(128, n) == 128 * n
  {
    MulComm(128, n);
    Times128(n);
  }

  lemma {:induction false} SameQuotient(a: nat, r: nat, b: nat, t: nat, q: nat)
    requires Mul(a, q) + r == Mul(b, q) + t && r < q && t < q
    ensures a == b
  {
    if a < b { MulLt(a, b, q); }
    if b < a { MulLt(b, a, q); }
  }

  lemma {:induction false} WindowQuotient(v: nat, hq: nat, yr: nat, q: nat)
    requires v == 128 * hq + yr && yr < 128 * q
    ensures v / 128 == hq + yr / 128 && yr / 128 < q
  {
    var j, r := yr / 128, yr % 128;
    assert v == 128 * (hq + j) + r;
  }

  lemma {:induction false} RowOf3(y: seq<nat>)
    requires IsRow(y, 3)
    ensures Val(y) == (y[0] * 65536 + y[1]) * 65536 + y[2] && Val(y[..2]) == y[0] * 65536 + y[1]
    ensures y[0] < 65536 && y[1] < 65536 && y[2] < 65536
  {
    Pow2Seven();
    ValOne(y[..1]);
    ValSnoc(y[..1], y[1]);
    ValSnoc(y[..2], y[2]);
    assert y[..1] + [y[1]] == y[..2] && y[..2] + [y[2]] == y;
  }

  lemma {:induction false} RowFrom3(y: seq<nat>)
    requires |y| == 3 && y[0] < 65536 && y[1] < 65536 && y[2] < 65536
    ensures IsRow(y, 3)
  {
    Pow2Seven();
  }

  /** A row below 2^(32+i) has a small first limb, one below 2^(16+i) none and a small second one. */
  lemma {:induction false} SmallTop(y: seq<nat>, i: nat, w: nat)
    requires IsRow(y, 3) && w == 16 && Val(y) < Pow2(w + w + i)
    ensures y[0] < Pow2(i)
    ensures Val(y) < Pow2(w + i) && i <= w ==> y[0] == 0 && y[1] < Pow2(i)
  {
    RowOf3(y);
    Pow2Of16(w);
    Pow2Add(w, w);
    Pow2Add(w + w, i);
    Pow2Add(w, i);
    MulComm(65536, Pow2(i));
    MulIs(Pow2(i), 65536);
    Pow2Mono(i, i);
    MulAssoc(65536, 65536, Pow2(i));
    MulIs(65536, Pow2(i));
    MulIs(65536, Mul(65536, Pow2(i)));
    if i <= w { Pow2Mono(i, w); }
  }

  /** The first two limbs shifted into the others, and the rounding word filled up again. */
  method SkipFirst(y0: seq<nat>, yr0: nat, i: nat, ghost v: nat, ghost h0: nat)
    returns (y: seq<nat>, yr: nat, ghost h: nat)
    requires IsRow(y0, 3) && i <= 16 && Window(v, y0, yr0, h0, 7 + i) && y0[0] < Pow2(i)
    ensures IsRow(y, 3) && Window(Halved(v, i), y, yr, h, 23)
  {
    hide Window, Joined, Halved;
    RowOf3(y0);
    ghost var rest := ThreeLimbs(y0[0], y0[1], y0[2], i);
    y := [0, Joined(y0[0], y0[1], i), Joined(y0[1], y0[2], i)];
    RowFrom3(y);
    RowOf3(y);
    SkippedWindow(v, y0, yr0, h0, i, y, rest);
    yr := Halved(yr0, i) + y[2] * 128;
    h := Val(y[..2]);
  }

  /** The second limb shifted into the third; the first has been shifted out before. */
  method SkipSecond(y0: seq<nat>, yr0: nat, i: nat, ghost v: nat, ghost h0: nat)
    returns (y: seq<nat>, yr: nat, ghost h: nat)
    requires IsRow(y0, 3) && i <= 16 && Window(v, y0, yr0, h0, 7 + i) && y0[0] == 0 && y0[1] < Pow2(i)
    ensures IsRow(y, 3) && Window(Halved(v, i), y, yr, h, 23)
  {
    hide Window, Joined, Halved;
    RowOf3(y0);
    ghost var rest := ThreeLimbs(0, y0[1], y0[2], i);
    NothingJoined(y0[1], i);
    y := [y0[0], 0, Joined(y0[1], y0[2], i)];
    RowFrom3(y);
    RowOf3(y);
    SkippedWindow(v, y0, yr0, h0, i, y, rest);
    yr := Halved(yr0, i) + y[2] * 128;
    h := Val(y[..2]);
  }

  lemma {:induction false} NothingJoined(lo: nat, i: nat)
    requires i <= 16 && lo < Pow2(i)
    ensures Joined(0, lo, i) == 0
  {
    MulOne(Pow2(i));
    MulOne(Pow2(16 - i));
    HalvedIs(lo, i, 0, lo);
  }

  lemma {:induction false} SkippedWindow(v: nat, y0: seq<nat>, yr0: nat, h0: nat, i: nat, y: seq<nat>, rest: nat)
    requires IsRow(y, 3) && Window(v, y0, yr0, h0, 7 + i) && Mul(Val(y), Pow2(i)) + rest == Val(y0) && rest < Pow2(i)
    ensures Window(Halved(v, i), y, Halved(yr0, i) + y[2] * 128, Val(y[..2]), 23)
  {
    WindowSkips(v, Val(y0), yr0, h0, i, Val(y), rest);
    RefilledWindow(Halved(v, i), y, Halved(yr0, i), Val(y[..2]));
  }

  lemma {:induction false} RefilledWindow(v: nat, y: seq<nat>, r: nat, h: nat)
    requires IsRow(y, 3) && v == Val(y) * 128 + r && r < 128 && h == Val(y[..2])
    ensures Window(v, y, r + y[2] * 128, h, 23)
  {
    RowOf3(y);
    Pow2Seven();
    Refilled(v, Val(y), r, h, y[2]);
  }

  lemma {:induction false} Refilled(v: nat, y: nat, r: nat, h: nat, limb: nat)
    requires v == y * 128 + r && r < 128 && y == h * 65536 + limb && limb < 65536
    ensures v / 128 == y && v == Mul(h, 128 * 65536) + (r + limb * 128) && r + limb * 128 < 128 * 65536
  {
    MulIs(h, 128 * 65536);
  }

  /** How small the scaled operand has become when a pass ends. */
  lemma {:induction false} WindowBound(v: nat, y: nat, n: nat)
    requires v < Pow2(n + 7) && y == v / 128
    ensures y < Pow2(n)
  {
    Pow2Add(n, 7);
    Pow2Seven();
    Times128(Pow2(n));
  }

  /** The pass over the first multiplier limb, and the shifts it skipped. */
  method FirstChunk(x0: seq<nat>, lbits0: nat, rbits0: nat, y0: seq<nat>, yr0: nat, z0: nat,
                    ghost v: nat, ghost h0: nat, ghost w: nat)
    returns (x: seq<nat>, lbits: nat, rbits: nat, y: seq<nat>, yr: nat, ghost h: nat)
    requires IsRow(x0, 3) && IsRow(y0, 3) && rbits0 < 128 && z0 < 65536 && Window(v, y0, yr0, h0, 23) && w == 16
    requires v < Pow2(w + (w + w + 7))
    ensures IsRow(x, 3) && IsRow(y, 3) && rbits < 128 && Window(Halved(v, w), y, yr, h, 23)
    ensures Register(lbits, x, rbits) == Register(lbits0, x0, rbits0) + Pyramid(v, z0, w)
  {
    var i;
    x, lbits, rbits, y, yr, i := ChunkLoop(x0, lbits0, rbits0, y0, yr0, z0, v, h0, w);
    HalvedAdd(v, w - i, i);
    HalvedBound(v, w - i, w + w + i + 7);
    WindowBound(Halved(v, w - i), Val(y), w + w + i);
    SmallTop(y, i, w);
    y, yr, h := SkipFirst(y, yr, i, Halved(v, w - i), h0);
  }

  /** The same for the second. */
  method SecondChunk(x0: seq<nat>, lbits0: nat, rbits0: nat, y0: seq<nat>, yr0: nat, z0: nat,
                     ghost v: nat, ghost h0: nat, ghost w: nat)
    returns (x: seq<nat>, lbits: nat, rbits: nat, y: seq<nat>, yr: nat, ghost h: nat)
    requires IsRow(x0, 3) && IsRow(y0, 3) && rbits0 < 128 && z0 < 65536 && Window(v, y0, yr0, h0, 23) && w == 16
    requires v < Pow2(w + (w + 7))
    ensures IsRow(x, 3) && IsRow(y, 3) && rbits < 128 && Window(Halved(v, w), y, yr, h, 23)
    ensures Register(lbits, x, rbits) == Register(lbits0, x0, rbits0) + Pyramid(v, z0, w)
  {
    var i;
    x, lbits, rbits, y, yr, i := ChunkLoop(x0, lbits0, rbits0, y0, yr0, z0, v, h0, w);
    HalvedAdd(v, w - i, i);
    HalvedBound(v, w - i, w + i + 7);
    WindowBound(Halved(v, w - i), Val(y), w + i);
    Pow2Mono(w + i, w + w + i);
    SmallTop(y, i, w);
    y, yr, h := SkipSecond(y, yr, i, Halved(v, w - i), h0);
  }

  /** One shift of the third limb alone. */
  method HalveLast(y0: seq<nat>, yr0: nat, ghost v: nat, ghost h: nat, ghost n: nat) returns (y: seq<nat>, yr: nat)
    requires IsRow(y0, 3) && y0[0] == 0 && y0[1] == 0 && Window(v, y0, yr0, h, n) && n >= 8
    ensures IsRow(y, 3) && y[0] == 0 && y[1] == 0 && Window(v / 2, y, yr, h, n - 1)
  {
    RowOf3(y0);
    y := [y0[0], y0[1], y0[2] / 2];
    RowFrom3(y);
    RowOf3(y);
    yr := yr0 / 2;
    WindowHalves(v, Val(y0), yr0, h, n, Val(y), y0[2] % 2);
  }

  /** The pass over the last multiplier limb: only the third limb is left to be shifted. */
  method LastChunk(x0: seq<nat>, lbits0: nat, rbits0: nat, y0: seq<nat>, yr0: nat, z0: nat,
                   ghost v0: nat, ghost h: nat, ghost w: nat)
    returns (x: seq<nat>, lbits: nat, rbits: nat)
    requires IsRow(x0, 3) && IsRow(y0, 3) && rbits0 < 128 && z0 < 65536 && Window(v0, y0, yr0, h, 23) && w == 16
    requires y0[0] == 0 && y0[1] == 0
    ensures IsRow(x, 3) && rbits < 128
    ensures Register(lbits, x, rbits) == Register(lbits0, x0, rbits0) + Pyramid(v0, z0, w)
  {
    x, lbits, rbits := x0, lbits0, rbits0;
    var y, yr, zcoeff := y0, yr0, z0;
    ghost var k, v, rem := 0, v0, z0;
    ghost var total := Register(lbits0, x0, rbits0) + Pyramid(v, rem, w);
    MulOne(rem);
    Pow2Of16(w);
    while zcoeff != 0
      invariant k <= w && IsRow(x, 3) && IsRow(y, 3) && y[0] == 0 && y[1] == 0 && rbits < 128
      invariant v == Halved(v0, k) && Window(v, y, yr, h, 23 - k) && Remaining(zcoeff, rem, k, w)
      invariant Register(lbits, x, rbits) + Pyramid(v, rem, w - k) == total
      decreases w - k
    {
      SomeBitLeft(zcoeff, rem, k, w);
      x, lbits, rbits, zcoeff, rem := AddChunkBit(x, lbits, rbits, y, yr, zcoeff, v, h, rem, k, w);
      y, yr := HalveLast(y, yr, v, h, 23 - k);
      HalvedAdd(v0, k, 1);
      v := v / 2;
      k := k + 1;
    }
    NoBitLeft(rem, k);
    PyramidOfZero(v, w - k);
  }

  lemma {:induction false} ThreeChunks(v: nat, z0: nat, z1: nat, z2: nat, k: nat)
    requires z0 < Pow2(k) && z1 < Pow2(k) && z2 < Pow2(k)
    ensures Pyramid(v, Mul(Mul(z0, Pow2(k)) + z1, Pow2(k)) + z2, 3 * k)
         == Pyramid(v, z0, k) + Pyramid(Halved(v, k), z1, k) + Pyramid(Halved(v, 2 * k), z2, k)
  {
    Pow2Add(k, k);
    MulLe(z0 + 1, Pow2(k), Pow2(k));
    MulAdd(z0, 1, Pow2(k));
    MulOne(Pow2(k));
    PyramidSplits(v, Mul(z0, Pow2(k)) + z1, z2, 2 * k, k);
    PyramidSplits(v, z0, z1, k, k);
  }

  /** The three-chunk loop with early exits: for every start it leaves the register as the
      bit loop does. */
  method FastPyramid(x0: seq<nat>, lbits0: nat, rbits0: nat, a: seq<nat>, b: seq<nat>)
    returns (x: seq<nat>, lbits: nat, rbits: nat)
    requires IsRow(x0, 3) && IsRow(a, 3) && IsRow(b, 3) && rbits0 < 128
    ensures IsRow(x, 3) && rbits < 128
    ensures Register(lbits, x, rbits) == Register(lbits0, x0, rbits0) + Pyramid(Val(a) * 128, Val(b), 16 * |b|)
  {
    FirstWindow(a);
    ghost var w := 16;
    Pow2Of16(w);
    Val3(b, Pow2(w));
    FirstBound(a, w);
    x, lbits, rbits := ThreePasses(x0, lbits0, rbits0, a, a[2] * 128, b[0], b[1], b[2], Val(a) * 128, Val(a[..2]), w);
    MultiplierChunks(Val(a) * 128, b, w);
  }

  method ThreePasses(x0: seq<nat>, lbits0: nat, rbits0: nat, y0: seq<nat>, yr0: nat, z0: nat, z1: nat, z2: nat,
                     ghost v: nat, ghost h0: nat, ghost w: nat)
    returns (x: seq<nat>, lbits: nat, rbits: nat)
    requires IsRow(x0, 3) && IsRow(y0, 3) && rbits0 < 128 && Window(v, y0, yr0, h0, 23) && w == 16
    requires z0 < 65536 && z1 < 65536 && z2 < 65536 && v < Pow2(w + (w + w + 7))
    ensures IsRow(x, 3) && rbits < 128
    ensures Register(lbits, x, rbits) == Register(lbits0, x0, rbits0)
      + (Pyramid(v, z0, w) + Pyramid(Halved(v, w), z1, w) + Pyramid(Halved(v, 2 * w), z2, w))
  {
    var y, yr;
    ghost var h: nat;
    x, lbits, rbits, y, yr, h := FirstChunk(x0, lbits0, rbits0, y0, yr0, z0, v, h0, w);
    HalvedBound(v, w, w + w + 7);
    x, lbits, rbits, y, yr, h := SecondChunk(x, lbits, rbits, y, yr, z1, Halved(v, w), h, w);
    HalvedAdd(v, w, w);
    HalvedBound(Halved(v, w), w, w + 7);
    UpperLimbsGone(Halved(v, 2 * w), y, w);
    x, lbits, rbits := LastChunk(x, lbits, rbits, y, yr, z2, Halved(v, 2 * w), h, w);
  }

  /** After 32 shifts the upper two limbs are zero. */
  lemma {:induction false} UpperLimbsGone(v: nat, y: seq<nat>, w: nat)
    requires IsRow(y, 3) && w == 16 && v < Pow2(w + 7) && Val(y) == v / 128
    ensures y[0] == 0 && y[1] == 0
  {
    WindowBound(v, Val(y), w);
    Pow2Mono(w, w + w);
    SmallTop(y, 0, w);
  }

  lemma {:induction false} MultiplierChunks(v: nat, b: seq<nat>, k: nat)
    requires |b| == 3 && b[0] < Pow2(k) && b[1] < Pow2(k) && b[2] < Pow2(k)
    requires Val(b) == Mul(Mul(b[0], Pow2(k)) + b[1], Pow2(k)) + b[2]
    ensures Pyramid(v, Val(b), 3 * k)
         == Pyramid(v, b[0], k) + Pyramid(Halved(v, k), b[1], k) + Pyramid(Halved(v, 2 * k), b[2], k)
  {
    ThreeChunks(v, b[0], b[1], b[2], k);
  }

  lemma {:induction false} FirstBound(a: seq<nat>, w: nat)
    requires IsRow(a, 3) && w == 16
    ensures Val(a) * 128 < Pow2(w + (w + w + 7))
  {
    RowBound(a, 3);
    Pow2Add(3 * w, 7);
    Pow2Seven();
    MulLt(Val(a), Pow2(3 * w), 128);
    Times128(Val(a));
  }

  lemma {:induction false} FirstWindow(a: seq<nat>)
    requires IsRow(a, 3)
    ensures Window(Val(a) * 128, a, a[2] * 128, Val(a[..2]), 23)
  {
    Pow2Seven();
    Refilled(Val(a) * 128, Val(a), 0, Val(a[..2]), a[2]);
  }

  lemma {:induction false} Val3(b: seq<nat>, p: nat)
    requires |b| == 3 && p == 65536
    ensures Val(b) == Mul(Mul(b[0], p) + b[1], p) + b[2]
  {
    ValOne(b[..1]);
    ValSnoc(b[..1], b[1]);
    ValSnoc(b[..2], b[2]);
    assert b[..1] + [b[1]] == b[..2] && b[..2] + [b[2]] == b;
    MulIs(b[0], p);
    MulIs(Mul(b[0], p) + b[1], p);
  }

  /** The register determines its parts, so both texts leave the same ones. */
  lemma {:induction false} RegisterDetermines(l: nat, x: seq<nat>, r: nat, l': nat, x': seq<nat>, r': nat, n: nat)
    requires IsRow(x, n) && IsRow(x', n) && r < 128 && r' < 128
    requires Register(l, x, r) == Register(l', x', r')
    ensures l == l' && x == x' && r == r'
  {
    RowBound(x, n);
    RowBound(x', n);
    var p := Pow2(16 * n);
    if l < l' { MulLt(l, l', p); }
    if l' < l { MulLt(l', l, p); }
    ValInjective(16, x, x');
  }

  /** The two texts side by side: same coefficient, same left bits, same rounding bits, from
      any start, which is what the three round modes differ in. */
  method BothTexts(x0: seq<nat>, lbits0: nat, rbits0: nat, a: seq<nat>, b: seq<nat>)
    returns (fast: (seq<nat>, nat, nat), simple: (seq<nat>, nat, nat))
    requires IsRow(x0, 3) && IsRow(a, 3) && IsRow(b, 3) && rbits0 < 128
    ensures fast == simple
    ensures Register(fast.1, fast.0, fast.2) == Register(lbits0, x0, rbits0) + Pyramid(Val(a) * 128, Val(b), 16 * |b|)
  {
    var x, lbits, rbits := FastPyramid(x0, lbits0, rbits0, a, b);
    var x', lbits', rbits' := SimplePyramid(x0, lbits0, rbits0, a, b, 3);
    RegisterDetermines(lbits, x, rbits, lbits', x', rbits', 3);
    fast, simple := (x, lbits, rbits), (x', lbits', rbits');
  }

  /** The sum never exceeds the product, and falls short of it by less than w - 8 of 128
      parts of the last place, 40 of 128 for the 48 bits of a single precision coefficient. */
  lemma {:induction false} TruncationError(a: nat, b: nat, w: nat)
    requires b < Pow2(w) && w > 8
    ensures Mul(Pyramid(a * 128, b, w), Pow2(w - 1)) <= Mul(a * 128, b)
            < Mul(Pyramid(a * 128, b, w) + (w - 8), Pow2(w - 1))
  {
    Pow2Seven();
    Times128(a);
    ExactHalvings(a, b, w, 7);
  }

  // ---- ar_cfmul128 ----

  /** Coefficient with left bits and extension as one number. */
  ghost function Total(lbits: nat, x: nat, x2: nat, p: nat): nat {
    Mul(Mul(lbits, p) + x, p) + x2
  }

  lemma {:induction false} PairsAdd(l: nat, x: nat, x2: nat, y: nat, y2: nat, c1: nat, c2: nat, x': nat, x2': nat,
        p: nat)
    requires x2' + Mul(c1, p) == x2 + y2 && x' + Mul(c2, p) == x + y + c1
    ensures Total(l + c2, x', x2', p) == Total(l, x, x2, p) + (Mul(y, p) + y2)
  {
    MulAdd(l, c2, p);
    MulAdd(Mul(l, p) + x + y, c1, p);
    MulAdd(Mul(l, p) + x, y, p);
  }

  /** The row y with its extension y2 has been added to the sum x0, x20. */
  ghost predicate DoubleSum(n: nat, lbits0: nat, x0: seq<nat>, x20: seq<nat>, y: seq<nat>, y2: seq<nat>, lbits: nat,
                            x: seq<nat>, x2: seq<nat>) {
    && IsRow(x, n) && IsRow(x2, n)
    && Total(lbits, Val(x), Val(x2), Pow2(16 * n))
       == Total(lbits0, Val(x0), Val(x20), Pow2(16 * n)) + (Mul(Val(y), Pow2(16 * n)) + Val(y2))
  }

  /** Add the scaled operand and its extension. */
  method AddDouble(x0: seq<nat>, x20: seq<nat>, lbits0: nat, y: seq<nat>, y2: seq<nat>, n: nat)
    returns (x: seq<nat>, x2: seq<nat>, lbits: nat)
    requires IsRow(x0, n) && IsRow(x20, n) && IsRow(y, n) && IsRow(y2, n)
    ensures DoubleSum(n, lbits0, x0, x20, y, y2, lbits, x, x2)
  {
    var carry, out;
    x2, carry := AddRows(x20, y2, 0, n);
    x, out := AddRows(x0, y, carry, n);
    lbits := lbits0 + out;
    PairsAdd(lbits0, Val(x0), Val(x20), Val(y), Val(y2), carry, out, Val(x), Val(x2), Pow2(16 * n));
  }

  /** SHRIGHTCRAY128 of the pair y, y2: exact while the pair is even. */
  method HalvePair(y0: seq<nat>, y20: seq<nat>, n: nat, ghost half: nat) returns (y: seq<nat>, y2: seq<nat>)
    requires IsRow(y0, n) && IsRow(y20, n) && Mul(Val(y0), Pow2(16 * n)) + Val(y20) == 2 * half
    ensures IsRow(y, n) && IsRow(y2, n) && Mul(Val(y), Pow2(16 * n)) + Val(y2) == half
  {
    var low, out;
    y, low := ShiftRightRow(y0, 0, n);
    y2, out := ShiftRightRow(y20, low, n);
    HalfPair(Val(y0), Val(y20), Val(y), low, Val(y2), out, Pow2(16 * n), half);
  }

  lemma {:induction false} HalfPair(y: nat, y2: nat, y': nat, low: nat, y2': nat, out: nat, p: nat, half: nat)
    requires low <= 1 && out <= 1 && 2 * y' + low == y && 2 * y2' + out == y2 + if low == 1 then p else 0
    requires Mul(y, p) + y2 == 2 * half
    ensures Mul(y', p) + y2' == half
  {
    MulTwo(y', p);
    MulAdd(2 * y', low, p);
    MulOne(p);
  }

  /** Where the double precision loop stands after i positions: the sum x, x2, the scaled multiplicand
      y, y2 and the multiplier bits z that are left, which are worth rem. */
  ghost predicate DoubleState(x: seq<nat>, x2: seq<nat>, lbits: nat, y: seq<nat>, y2: seq<nat>, z: seq<nat>, n: nat,
                              m: nat, rem: nat, i: nat, total: nat) {
    var w := 16 * n;
    && i <= w && IsRow(x, n) && IsRow(x2, n) && IsRow(y, n) && IsRow(y2, n) && IsRow(z, n)
    && Remaining(Val(z), rem, i, w) && Mul(Val(y), Pow2(w)) + Val(y2) == Mul(m, Pow2(w - i))
    && Total(lbits, Val(x), Val(x2), Pow2(w)) + 2 * Mul(m, rem) == total
  }

  /** The pyramid of the double precision product: twice the exact product is left in x and x2. */
  method ExactPyramid(a: seq<nat>, b: seq<nat>, n: nat) returns (x: seq<nat>, x2: seq<nat>, lbits: nat)
    requires IsRow(a, n) && IsRow(b, n)
    ensures IsRow(x, n) && IsRow(x2, n) && Total(lbits, Val(x), Val(x2), Pow2(16 * n)) == 2 * Mul(Val(a), Val(b))
  {
    hide Mul;
    x, x2, lbits := Zeros(n), Zeros(n), 0;
    var y, y2, z := a, Zeros(n), b;
    ghost var m, rem := Val(a), Val(b);
    RowBound(b, n);
    MulOne(rem);
    MulOne(Pow2(16 * n));
    var i := 0;
    while i < 16 * n
      invariant DoubleState(x, x2, lbits, y, y2, z, n, m, rem, i, 2 * Mul(m, Val(b)))
    {
      x, x2, lbits, y, y2, z, rem := DoubleStep(x, x2, lbits, y, y2, z, n, m, rem, i, 2 * Mul(m, Val(b)));
      i := i + 1;
    }
    NoneLeft(rem, m);
  }

  /** One position of the double precision loop. */
  method DoubleStep(x0: seq<nat>, x20: seq<nat>, lbits0: nat, y0: seq<nat>, y20: seq<nat>, z0: seq<nat>, n: nat,
                    ghost m: nat, ghost rem0: nat, ghost i: nat, ghost total: nat)
    returns (x: seq<nat>, x2: seq<nat>, lbits: nat, y: seq<nat>, y2: seq<nat>, z: seq<nat>, ghost rem: nat)
    requires i < 16 * n && DoubleState(x0, x20, lbits0, y0, y20, z0, n, m, rem0, i, total)
    ensures DoubleState(x, x2, lbits, y, y2, z, n, m, rem, i + 1, total)
  {
    ghost var w := 16 * n;
    x, x2, lbits, z, rem := AddDoubleIfSet(x0, x20, lbits0, y0, y20, z0, n, m, rem0, i, total);
    MulTwo(m, Pow2(w - i - 1));
    y, y2 := HalvePair(y0, y20, n, Mul(m, Pow2(w - i - 1)));
  }

  lemma {:induction false} NoneLeft(rem: nat, m: nat)
    requires rem < Pow2(0)
    ensures Mul(m, rem) == 0
  {
    MulOne(m);
  }

  /** Add the multiplicand if the leading multiplier bit is set, and shift that bit out. */
  method AddDoubleIfSet(x0: seq<nat>, x20: seq<nat>, lbits0: nat, y: seq<nat>, y2: seq<nat>, z0: seq<nat>, n: nat,
                        ghost m: nat, ghost rem0: nat, ghost i: nat, ghost total: nat)
    returns (x: seq<nat>, x2: seq<nat>, lbits: nat, z: seq<nat>, ghost rem: nat)
    requires i < 16 * n && DoubleState(x0, x20, lbits0, y, y2, z0, n, m, rem0, i, total)
    ensures IsRow(x, n) && IsRow(x2, n) && IsRow(z, n) && Remaining(Val(z), rem, i + 1, 16 * n)
    ensures Total(lbits, Val(x), Val(x2), Pow2(16 * n)) + 2 * Mul(m, rem) == total
  {
    ghost var w := 16 * n;
    NextBit(Val(z0), rem0, i, w);
    var top;
    top, z := ShiftLeftRow(z0, n);
    x, x2, lbits, rem := x0, x20, lbits0, rem0;
    if top == 1 {
      x, x2, lbits := AddDouble(x0, x20, lbits0, y, y2, n);
      rem := rem0 - Pow2(w - i - 1);
      TakeTop(m, rem0, Pow2(w - i - 1));
    }
  }

  lemma {:induction false} TakeTop(m: nat, rem: nat, h: nat)
    requires rem >= h
    ensures 2 * Mul(m, rem) == 2 * Mul(m, rem - h) + Mul(m, 2 * h)
  {
    MulComm(m, rem);
    MulComm(m, rem - h);
    MulAdd(rem - h, h, m);
    MulComm(h, m);
    MulTwo(m, h);
  }

  /** r is d / h rounded to the nearest integer, halves upward. */
  predicate HalfUp(d: nat, h: nat, r: nat) {
    2 * Mul(r, h) <= 2 * d + h < 2 * Mul(r + 1, h)
  }

  /** The leading bit of the extension rounds to the nearest last place, and after a carry
      one more is added unless it has been, which rounds at the next place from the
      unrounded sum: one rounding in either case. */
  lemma {:induction false} OneRounding(t: nat, x2: nat, d: nat, h: nat)
    requires Mul(t, 2 * h) + x2 == 2 * d && x2 < 2 * h
    ensures HalfUp(d, h, if x2 >= h then t + 1 else t)
    ensures HalfUp(d, 2 * h, (t + 1) / 2)
  {
    RoundsHere(t, x2, d, h);
    RoundsNext(t, x2, d, h, (t + 1) / 2);
  }

  lemma {:induction false} RoundsHere(t: nat, x2: nat, d: nat, h: nat)
    requires Mul(t, 2 * h) + x2 == 2 * d && x2 < 2 * h
    ensures HalfUp(d, h, if x2 >= h then t + 1 else t)
  {
    MulTwo(t, h);
    MulTwo(t + 1, h);
    MulTwo(t + 2, h);
    MulAdd(t, 1, 2 * h);
    MulAdd(t, 2, 2 * h);
    SmallMultiples(2 * h);
  }

  lemma {:induction false} RoundsNext(t: nat, x2: nat, d: nat, h: nat, r: nat)
    requires Mul(t, 2 * h) + x2 == 2 * d && x2 < 2 * h && 2 * r <= t + 1 <= 2 * r + 1
    ensures HalfUp(d, 2 * h, r)
  {
    MulAdd(t, 1, 2 * h);
    MulAdd(t, 2, 2 * h);
    SmallMultiples(2 * h);
    MulTwo(r, 2 * h);
    MulTwo(r + 1, 2 * h);
    MulLe(2 * r, t + 1, 2 * h);
    MulLe(t + 2, 2 * (r + 1), 2 * h);
  }

  /** The doubled product of two coefficients leaves room for both increments. */
  lemma {:induction false} RoomToRound(t: nat, x2: nat, m: nat, k: nat, p: nat)
    requires m < p && k < p && Mul(t, p) + x2 == 2 * Mul(m, k)
    ensures t + 2 <= 2 * p
  {
    hide Mul, Pow2;
    MulLe(m, p - 1, k);
    MulLeRight(p - 1, k, p - 1);
    MulComm(p - 1, p - 1);
    MulSub(p, 1, p - 1);
    MulOne(p - 1);
    MulComm(p, p - 1);
    MulSub(p, 1, p);
    MulOne(p);
    MulTwo(p, p);
    MulSub(2 * p, 1, p);
    if t + 1 >= 2 * p { MulLe(2 * p - 1, t, p); }
  }

  /** n is a multiple of d. */
  ghost predicate Multiple(n: nat, d: nat) { exists k: nat :: Mul(k, d) == n }

  /** The product d rounded once, halves upward: to a multiple m of h or, if that would take one bit
      more than 2 * h has room for, of 2 * h. What lies below h makes it inexact. */
  ghost predicate RoundsOnce(d: nat, h: nat, m: nat, carried: bool, inexact: bool) {
    && (carried <==> 2 * d + h >= 2 * Mul(2 * h, h))
    && HalfUp(d, if carried then 2 * h else h, m)
    && (inexact <==> !Multiple(d, h))
  }

  lemma {:induction false} WholeProduct(t: nat, x2: nat, d: nat, h: nat)
    requires Mul(t, 2 * h) + x2 == 2 * d && x2 < 2 * h
    ensures x2 == 0 <==> Multiple(d, h)
  {
    MulTwo(t, h);
    forall k: nat | Mul(k, h) == d
      ensures x2 == 0
    {
      MulTwo(k, h);
      MulOrder(t, k + 1, 2 * h);
      MulOrder(k, t + 1, 2 * h);
      MulAdd(t, 1, 2 * h);
      MulAdd(k, 1, 2 * h);
      MulOne(2 * h);
    }
  }

  /** Rounding and normalization: the coefficient, whether the exponent grows by one, and whether
      something lay below the last place. */
  method RoundProduct(x0: seq<nat>, x2: seq<nat>, lbits0: nat, n: nat, ghost m: nat, ghost k: nat, ghost h: nat)
    returns (x: seq<nat>, carried: bool, inexact: bool)
    requires IsRow(x0, n) && IsRow(x2, n) && m < 2 * h && k < 2 * h && Pow2(16 * n) == 2 * h
    requires Total(lbits0, Val(x0), Val(x2), 2 * h) == 2 * Mul(m, k)
    ensures IsRow(x, n) && RoundsOnce(Mul(m, k), h, Val(x), carried, inexact)
  {
    hide Mul, Pow2, Multiple;
    ghost var t, d := Mul(lbits0, 2 * h) + Val(x0), Mul(m, k);
    RowBound(x2, n);
    OneRounding(t, Val(x2), d, h);
    RoomToRound(t, Val(x2), m, k, 2 * h);
    WholeProduct(t, Val(x2), d, h);
    inexact := !Limbs.IsZero(x2);
    var rnd, _ := ShiftLeftRow(x2, n);
    var lbits;
    x, lbits := RoundUpBy(x0, lbits0, rnd, n, t, 2 * h);
    CarryDecides(d, h, t + rnd);
    carried := lbits != 0;
    RowBound(x, n);
    if carried {
      x := CarryProduct(x, 1 - rnd, n, t, h);
    }
  }

  lemma {:induction false} CarryDecides(d: nat, h: nat, r: nat)
    requires HalfUp(d, h, r)
    ensures r >= 2 * h <==> 2 * d + h >= 2 * Mul(2 * h, h)
  {
    if r >= 2 * h { MulLe(2 * h, r, h); } else { MulLe(r + 1, 2 * h, h); }
  }

  /** INCCRAY128 by the rounding bit; its carry joins the left bits. */
  method RoundUpBy(x0: seq<nat>, lbits0: nat, rnd: nat, n: nat, ghost t: nat, ghost p: nat)
    returns (x: seq<nat>, lbits: nat)
    requires IsRow(x0, n) && rnd <= 1 && Pow2(16 * n) == p && t == Mul(lbits0, p) + Val(x0) && t + 1 < 2 * p
    ensures IsRow(x, n) && lbits <= 1 && Val(x) + (if lbits == 1 then p else 0) == t + rnd
  {
    var carry;
    x, carry := AddRows(x0, Zeros(n), rnd, n);
    lbits := lbits0 + carry;
    MulAdd(lbits0, carry, p);
    RowBound(x, n);
    LeftBits(lbits, Val(x), p);
  }

  lemma {:induction false} LeftBits(l: nat, x: nat, p: nat)
    requires x < p && Mul(l, p) + x < 2 * p
    ensures l <= 1 && Mul(l, p) == if l == 1 then p else 0
  {
    SmallMultiples(p);
    MulOrder(l, 2, p);
  }

  /** Normalize right after a carry. */
  method CarryProduct(x0: seq<nat>, rnd: nat, n: nat, ghost t: nat, ghost h: nat) returns (x: seq<nat>)
    requires IsRow(x0, n) && rnd <= 1 && Pow2(16 * n) == 2 * h
    requires Val(x0) + 2 * h + rnd == t + 1 && t + 2 <= 4 * h
    ensures IsRow(x, n) && Val(x) == (t + 1) / 2 && Val(x) >= h
  {
    var carry, out;
    x, carry := AddRows(x0, Zeros(n), rnd, n);
    RowBound(x, n);
    LeftBits(carry, Val(x), 2 * h);
    ghost var v := Val(x);
    x, out := ShiftRightRow(x, 1, n);
    DivMod2(t + 1, Val(x), out);
  }

  /** ar_cfmul128's coefficient: the exact product of two 96-bit coefficients rounded once,
      halves upward, to a coefficient of the same length, with or without a carry into the exponent. */
  method MultiplyDouble(a: seq<nat>, b: seq<nat>, n: nat, ghost h: nat)
    returns (x: seq<nat>, carried: bool, inexact: bool)
    requires IsRow(a, n) && IsRow(b, n) && Pow2(16 * n) == 2 * h
    ensures IsRow(x, n) && RoundsOnce(Mul(Val(a), Val(b)), h, Val(x), carried, inexact)
  {
    RowBound(a, n);
    RowBound(b, n);
    var x2, lbits;
    x, x2, lbits := ExactPyramid(a, b, n);
    x, carried, inexact := RoundProduct(x, x2, lbits, n, Val(a), Val(b), h);
  }
}
