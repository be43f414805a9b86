/**
 * bits.c: the circular double shifter ar_dblshift, and AR_ishftc built on it, for
 * integers of any number of 16-bit limbs.
 */
module Bits {

  // ---- Bits of a limb ----

  /** Bit k of x. */
  predicate Bit(x: nat, k: nat)
    decreases k, x
  {
    if k == 0 then x % 2 == 1 else Bit(x / 2, k - 1)
  }

  /** x >> n */
  function Shr(x: nat, n: nat): nat
    decreases n, x
  {
    if n == 0 then x else Shr(x / 2, n - 1)
  }

  /** x << n, in a host integer wide enough */
  function Shl(x: nat, n: nat): nat
    decreases n, x
  {
    if n == 0 then x else 2 * Shl(x, n - 1)
  }

  /** x & MASKR(n) */
  function Low(x: nat, n: nat): nat
    decreases n, x
  {
    if n == 0 then 0 else 2 * Low(x / 2, n - 1) + x % 2
  }

  /** x | y */
  function Or(x: nat, y: nat): nat {
    if x == 0 && y == 0 then 0 else 2 * Or(x / 2, y / 2) + if x % 2 == 1 || y % 2 == 1 then 1 else 0
  }

  /** x & y */
  function And(x: nat, y: nat): nat {
    if x == 0 || y == 0 then 0 else 2 * And(x / 2, y / 2) + if x % 2 == 1 && y % 2 == 1 then 1 else 0
  }

  lemma {:induction false} BitOfZero(k: nat)
    ensures !Bit(0, k)
    decreases k
  {
    if k > 0 { BitOfZero(k - 1); }
  }

  lemma {:induction false} BitOfShr(x: nat, n: nat, k: nat)
    ensures Bit(Shr(x, n), k) == Bit(x, n + k)
    decreases n
  {
    if n > 0 { BitOfShr(x / 2, n - 1, k); }
  }

  lemma {:induction false} BitOfShl(x: nat, n: nat, k: nat)
    ensures Bit(Shl(x, n), k) == (k >= n && Bit(x, k - n))
    decreases n, k
  {
    if n > 0 {
      var y := Shl(x, n - 1);
      assert (2 * y) % 2 == 0 && (2 * y) / 2 == y;
      if k > 0 { BitOfShl(x, n - 1, k - 1); }
    }
  }

  lemma {:induction false} BitOfLow(x: nat, n: nat, k: nat)
    ensures Bit(Low(x, n), k) == (k < n && Bit(x, k))
    decreases n
  {
    if n == 0 {
      BitOfZero(k);
    } else {
      var y, b := Low(x / 2, n - 1), x % 2;
      assert (2 * y + b) % 2 == b && (2 * y + b) / 2 == y;
      if k > 0 { BitOfLow(x / 2, n - 1, k - 1); }
    }
  }

  lemma {:induction false} BitOfOr(x: nat, y: nat, k: nat)
    ensures Bit(Or(x, y), k) == (Bit(x, k) || Bit(y, k))
    decreases k
  {
    if x == 0 && y == 0 {
      BitOfZero(k);
    } else {
      var z, b := Or(x / 2, y / 2), if x % 2 == 1 || y % 2 == 1 then 1 else 0;
      assert (2 * z + b) % 2 == b && (2 * z + b) / 2 == z;
      if k > 0 { BitOfOr(x / 2, y / 2, k - 1); }
    }
  }

  lemma {:induction false} BitOfAnd(x: nat, y: nat, k: nat)
    ensures Bit(And(x, y), k) == (Bit(x, k) && Bit(y, k))
    decreases k
  {
    if x == 0 || y == 0 {
      BitOfZero(k);
    } else {
      var z, b := And(x / 2, y / 2), if x % 2 == 1 && y % 2 == 1 then 1 else 0;
      assert (2 * z + b) % 2 == b && (2 * z + b) / 2 == z;
      if k > 0 { BitOfAnd(x / 2, y / 2, k - 1); }
    }
  }

  lemma {:induction false} LowBound(x: nat, n: nat)
    ensures Low(x, n) < Shl(1, n)
    decreases n
  {
    if n > 0 { LowBound(x / 2, n - 1); }
  }

  /** Numbers below 2^n with the same n bits are the same. */
  lemma {:induction false} SameBits(x: nat, y: nat, n: nat)
    requires x < Shl(1, n) && y < Shl(1, n) && forall k :: 0 <= k < n ==> Bit(x, k) == Bit(y, k)
    ensures x == y
    decreases n
  {
    if n > 0 {
      assert Bit(x, 0) == Bit(y, 0);
      forall k | 0 <= k < n - 1
        ensures Bit(x / 2, k) == Bit(y / 2, k)
      {
        assert Bit(x, k + 1) == Bit(y, k + 1);
      }
      SameBits(x / 2, y / 2, n - 1);
    }
  }

  // ---- Bits of a row of limbs ----

  predicate IsInteger(c: seq<nat>) {
    c != [] && forall i :: 0 <= i < |c| ==> c[i] < 65536
  }

  /** Bit i of the integer, counted from the right. */
  predicate BitAt(c: seq<nat>, i: nat)
    requires i < 16 * |c|
  {
    Bit(c[|c| - 1 - i / 16], i % 16)
  }

  /** The double word (hi, lo) rotated right by count: where bit i of its low word comes from. */
  function RotatedFrom(m: nat, i: nat, count: nat): (j: nat)
    requires i < 16 * m && count <= 32 * m
    ensures j < 32 * m
  {
    if i + count >= 32 * m then i + count - 32 * m else i + count
  }

  /** One chunk: a limb shifted right, its left neighbour's low bits entering. */
  function Chunk(left: nat, limb: nat, sc: nat): nat
    requires sc <= 16
  {
    Or(Shr(limb, sc), Shl(left, 16 - sc))
  }

  lemma {:induction false} BitOfChunk(left: nat, limb: nat, sc: nat, k: nat)
    requires sc < 16 && k < 16 && limb < 65536
    ensures Bit(Low(Chunk(left, limb, sc), 16), k) == if k + sc < 16 then Bit(limb, k + sc) else Bit(left, k + sc - 16)
  {
    BitOfFunnel(left, limb, sc, k, 16);
    if k + sc >= 16 { HighBits(limb, k + sc); }
  }

  lemma {:induction false} BitOfFunnel(left: nat, limb: nat, sc: nat, k: nat, w: nat)
    requires sc < w && k < w
    ensures Bit(Low(Or(Shr(limb, sc), Shl(left, w - sc)), w), k)
         == (Bit(limb, k + sc) || (k + sc >= w && Bit(left, k + sc - w)))
  {
    BitOfLow(Or(Shr(limb, sc), Shl(left, w - sc)), w, k);
    BitOfOr(Shr(limb, sc), Shl(left, w - sc), k);
    BitOfShr(limb, sc, k);
    BitOfShl(left, w - sc, k);
  }

  lemma {:induction false} HighBits(x: nat, k: nat)
    requires x < 65536 && k >= 16
    ensures !Bit(x, k)
  {
    BitOfShr(x, 16, k - 16);
    ShrSixteen(x);
    BitOfZero(k - 16);
  }

  lemma {:induction false} ShrSixteen(x: nat)
    requires x < 65536
    ensures Shr(x, 16) == 0
  {
    ShrBound(x, 16);
    assert Shl(1, 16) == 2 * Shl(1, 15);
  }

  lemma {:induction false} ShrBound(x: nat, n: nat)
    requires x < Shl(1, n)
    ensures Shr(x, n) == 0
    decreases n
  {
    if n > 0 { ShrBound(x / 2, n - 1); }
  }

  // ---- ar_dblshift ----

  /** An index that runs round p places once. */
  function Around(n: nat, p: nat): nat
    requires n < 2 * p
  {
    if n >= p then n - p else n
  }

  /** The limb of the shifted double word that becomes limb j of the result. */
  function ChunkIndex(m: nat, j: nat, count: nat): (t: nat)
    requires j < m && count <= 32 * m
    ensures t < 2 * m
  {
    Around(2 * m - count / 16 + m + j, 2 * m)
  }

  /** The double word's chunks, each funnelled from two neighbouring limbs. */
  ghost predicate Chunks(u: seq<nat>, chunk: seq<nat>, sc: nat)
    requires u != [] && |chunk| == |u| && sc < 16
  {
    forall i :: 0 <= i < |u| ==> chunk[i] == Chunk(u[if i == 0 then |u| - 1 else i - 1], u[i], sc)
  }

  lemma {:induction false} ChunkBits(u: seq<nat>, chunk: seq<nat>, m: nat, count: nat, i: nat, limb: nat)
    requires m > 0 && |u| == 2 * m == |chunk| && IsInteger(u) && count <= 32 * m && i < 16 * m
    requires Chunks(u, chunk, count % 16) && limb == Low(chunk[ChunkIndex(m, m - 1 - i / 16, count)], 16)
    ensures Bit(limb, i % 16) == BitAt(u, RotatedFrom(m, i, count))
  {
    var t := ChunkIndex(m, m - 1 - i / 16, count);
    FunnelBit(u, chunk, count % 16, t, i % 16, limb);
    PositionBits(u, m, i / 16, i % 16, count / 16, count % 16, t, Bit(limb, i % 16), RotatedFrom(m, i, count));
  }

  lemma {:induction false} PositionBits(u: seq<nat>, m: nat, a: nat, b: nat, q: nat, sc: nat, t: nat, bit: bool, j: nat)
    requires |u| == 2 * m && a < m && b < 16 && sc < 16 && 16 * q + sc <= 32 * m
    requires t == Around(2 * m - q + m + (m - 1 - a), 2 * m)
    requires bit == if b + sc < 16 then Bit(u[t], b + sc) else Bit(u[if t == 0 then 2 * m - 1 else t - 1], b + sc - 16)
    requires var n := 16 * a + b + 16 * q + sc; j == if n >= 32 * m then n - 32 * m else n
    ensures j < 32 * m && bit == BitAt(u, j)
  {
    SplitPosition(m, a, b, q, sc, j);
  }

  lemma {:induction false} FunnelBit(u: seq<nat>, chunk: seq<nat>, sc: nat, t: nat, b: nat, limb: nat)
    requires t < |u| == |chunk| && IsInteger(u) && sc < 16 && Chunks(u, chunk, sc) && b < 16
    requires limb == Low(chunk[t], 16)
    ensures Bit(limb, b)
         == if b + sc < 16 then Bit(u[t], b + sc) else Bit(u[if t == 0 then |u| - 1 else t - 1], b + sc - 16)
  {
    BitOfChunk(u[if t == 0 then |u| - 1 else t - 1], u[t], sc, b);
  }

  /** Limb and bit of a position after the rotation. */
  lemma {:induction false} SplitPosition(m: nat, a: nat, b: nat, q: nat, sc: nat, j: nat)
    requires a < m && b < 16 && sc < 16 && 16 * q + sc <= 32 * m
    requires var n := 16 * a + b + 16 * q + sc; j == if n >= 32 * m then n - 32 * m else n
    ensures var t := Around(2 * m - q + m + (m - 1 - a), 2 * m);
      if b + sc < 16 then j / 16 == 2 * m - 1 - t && j % 16 == b + sc
      else j / 16 == 2 * m - 1 - (if t == 0 then 2 * m - 1 else t - 1) && j % 16 == b + sc - 16
  {
    var n := 16 * (a + q) + (b + sc);
    var limb := if b + sc < 16 then a + q else a + q + 1;
    var bit := if b + sc < 16 then b + sc else b + sc - 16;
    var limb' := if n >= 32 * m then limb - 2 * m else limb;
    assert j == 16 * limb' + bit && 0 <= bit < 16;
  }

  /** The rest of the count moves bits between neighbouring chunks. */
  method Funnel(u: seq<nat>, sc: nat) returns (chunks: seq<nat>)
    requires u != [] && sc < 16
    ensures |chunks| == |u| && Chunks(u, chunks, sc)
  {
    var chunk := new nat[|u|];
    var i := 0;
    while i < |u|
      invariant i <= |u|
      invariant forall k :: 0 <= k < i ==> chunk[k] == Chunk(u[if k == 0 then |u| - 1 else k - 1], u[k], sc)
    {
      chunk[i] := Chunk(u[if i == 0 then |u| - 1 else i - 1], u[i], sc);
      i := i + 1;
    }
    chunks := chunk[..];
  }

  /** Move the chunks corresponding to the rightmost bits into the result. */
  method Collect(chunk: seq<nat>, m: nat, count: nat) returns (result: seq<nat>)
    requires |chunk| == 2 * m && m > 0 && count <= 32 * m
    ensures IsInteger(result) && |result| == m
    ensures forall j :: 0 <= j < m ==> result[j] == Low(chunk[ChunkIndex(m, j, count)], 16)
  {
    result := [];
    var j := 0;
    while j < m
      invariant j <= m && |result| == j
      invariant forall k :: 0 <= k < j ==> result[k] < 65536
      invariant forall k :: 0 <= k < j ==> result[k] == Low(chunk[ChunkIndex(m, k, count)], 16)
    {
      LowSixteen(chunk[ChunkIndex(m, j, count)]);
      result := result + [Low(chunk[ChunkIndex(m, j, count)], 16)];
      j := j + 1;
    }
  }

  /** ar_dblshift: the low word of the double word (hi, lo) rotated right. */
  method DoubleShift(hi: seq<nat>, lo: seq<nat>, count: nat) returns (result: seq<nat>)
    requires IsInteger(hi) && IsInteger(lo) && |hi| == |lo| && count <= 32 * |hi|
    ensures IsInteger(result) && |result| == |hi|
    ensures forall i :: 0 <= i < 16 * |hi| ==> BitAt(result, i) == BitAt(hi + lo, RotatedFrom(|hi|, i, count))
  {
    var chunk := Funnel(hi + lo, count % 16);
    result := Collect(chunk, |hi|, count);
    CollectedBits(hi + lo, chunk, |hi|, count, result);
  }

  lemma {:induction false} CollectedBits(u: seq<nat>, chunk: seq<nat>, m: nat, count: nat, result: seq<nat>)
    requires m > 0 && |u| == 2 * m == |chunk| && IsInteger(u) && count <= 32 * m && |result| == m
    requires Chunks(u, chunk, count % 16)
    requires forall j :: 0 <= j < m ==> result[j] == Low(chunk[ChunkIndex(m, j, count)], 16)
    ensures forall i :: 0 <= i < 16 * m ==> BitAt(result, i) == BitAt(u, RotatedFrom(m, i, count))
  {
    forall i | 0 <= i < 16 * m
      ensures BitAt(result, i) == BitAt(u, RotatedFrom(m, i, count))
    {
      ChunkBits(u, chunk, m, count, i, result[m - 1 - i / 16]);
    }
  }

  lemma {:induction false} LowSixteen(x: nat)
    ensures Low(x, 16) < 65536
  {
    LowBound(x, 16);
    ShlSixteen();
  }

  lemma {:induction false} ShlSixteen()
    ensures Shl(1, 16) == 65536
  {
    assert Shl(1, 4) == 16 && Shl(1, 8) == 256 && Shl(1, 12) == 4096;
  }

  // ---- AR_ishftc ----

  /** Bitwise operations limb by limb: AR_bitand, AR_bitor. */
  function AndRows(a: seq<nat>, b: seq<nat>): (r: seq<nat>)
    requires |a| == |b|
    ensures |r| == |a| && forall i :: 0 <= i < |a| ==> r[i] == And(a[i], b[i])
  {
    seq(|a|, i requires 0 <= i < |a| => And(a[i], b[i]))
  }

  function OrRows(a: seq<nat>, b: seq<nat>): (r: seq<nat>)
    requires |a| == |b|
    ensures |r| == |a| && forall i :: 0 <= i < |a| ==> r[i] == Or(a[i], b[i])
  {
    seq(|a|, i requires 0 <= i < |a| => Or(a[i], b[i]))
  }

  function Zeros(m: nat): (c: seq<nat>)
    ensures |c| == m && forall i :: 0 <= i < m ==> c[i] == 0
  {
    seq(m, i => 0)
  }

  function Ones(m: nat): (c: seq<nat>)
    ensures |c| == m && forall i :: 0 <= i < m ==> c[i] == 65535
  {
    seq(m, i => 65535)
  }

  /** MASKR(n) */
  function Mask(n: nat): nat {
    if n == 0 then 0 else 2 * Mask(n - 1) + 1
  }

  lemma {:induction false} BitOfMask(n: nat, k: nat)
    requires k < n
    ensures Bit(Mask(n), k)
    decreases n
  {
    var y := Mask(n - 1);
    assert (2 * y + 1) % 2 == 1 && (2 * y + 1) / 2 == y;
    if k > 0 { BitOfMask(n - 1, k - 1); }
  }

  lemma {:induction false} BitOfOnes(k: nat)
    requires k < 16
    ensures Bit(65535, k)
  {
    BitOfMask(16, k);
    MaskStep(0);
    MaskStep(4);
    MaskStep(8);
    MaskStep(12);
  }

  lemma {:induction false} MaskStep(n: nat)
    ensures Mask(n + 4) == 16 * Mask(n) + 15
  {
    assert Mask(n + 1) == 2 * Mask(n) + 1 && Mask(n + 2) == 2 * Mask(n + 1) + 1;
  }

  lemma {:induction false} BitAtOnes(m: nat, i: nat)
    requires i < 16 * m
    ensures BitAt(Ones(m), i) && !BitAt(Zeros(m), i)
  {
    BitOfOnes(i % 16);
    BitOfZero(i % 16);
  }

  /** A double word's upper half supplies the upper positions. */
  lemma {:induction false} BitAtPair(hi: seq<nat>, lo: seq<nat>, j: nat)
    requires |hi| == |lo| && j < 32 * |hi|
    ensures BitAt(hi + lo, j) == if j >= 16 * |hi| then BitAt(hi, j - 16 * |hi|) else BitAt(lo, j)
  {
    var m := |hi|;
    if j >= 16 * m {
      assert (j - 16 * m) / 16 == j / 16 - m && (j - 16 * m) % 16 == j % 16;
    }
  }

  lemma {:induction false} BitAtAnd(a: seq<nat>, b: seq<nat>, i: nat)
    requires |a| == |b| && i < 16 * |a|
    ensures BitAt(AndRows(a, b), i) == (BitAt(a, i) && BitAt(b, i))
    ensures BitAt(OrRows(a, b), i) == (BitAt(a, i) || BitAt(b, i))
  {
    var k := |a| - 1 - i / 16;
    BitOfAnd(a[k], b[k], i % 16);
    BitOfOr(a[k], b[k], i % 16);
  }

  lemma {:induction false} IntegerRows(a: seq<nat>, b: seq<nat>)
    requires IsInteger(a) && IsInteger(b) && |a| == |b|
    ensures IsInteger(AndRows(a, b)) && IsInteger(OrRows(a, b))
  {
    forall i | 0 <= i < |a|
      ensures And(a[i], b[i]) < 65536 && Or(a[i], b[i]) < 65536
    {
      ShlSixteen();
      AndBound(a[i], b[i]);
      OrBound(a[i], b[i], 16);
    }
  }

  lemma {:induction false} AndBound(x: nat, y: nat)
    ensures And(x, y) <= x
  {
    if x > 0 && y > 0 { AndBound(x / 2, y / 2); }
  }

  lemma {:induction false} OrBound(x: nat, y: nat, n: nat)
    requires x < Shl(1, n) && y < Shl(1, n)
    ensures Or(x, y) < Shl(1, n)
    decreases n
  {
    if n > 0 { OrBound(x / 2, y / 2, n - 1); }
  }

  /** Bits of a from position `from` on, moved to position 0, and zeros above them. */
  ghost predicate MovedRight(a: seq<nat>, r: seq<nat>, from: nat) {
    |r| == |a| && forall i :: 0 <= i < 16 * |a| ==> BitAt(r, i) == (i + from < 16 * |a| && BitAt(a, i + from))
  }

  /** Bits of a moved left by n positions, and zeros below them. */
  ghost predicate MovedLeft(a: seq<nat>, r: seq<nat>, n: nat) {
    |r| == |a| && forall i :: 0 <= i < 16 * |a| ==> BitAt(r, i) == (i >= n && BitAt(a, i - n))
  }

  /** ar_dblshift with a zero upper operand is a logical shift right. */
  method ShiftRightBy(a: seq<nat>, n: nat) returns (r: seq<nat>)
    requires IsInteger(a) && n <= 16 * |a|
    ensures IsInteger(r) && MovedRight(a, r, n)
  {
    r := DoubleShift(Zeros(|a|), a, n);
    forall i | 0 <= i < 16 * |a|
      ensures BitAt(r, i) == (i + n < 16 * |a| && BitAt(a, i + n))
    {
      BitAtPair(Zeros(|a|), a, i + n);
      if i + n >= 16 * |a| { BitAtOnes(|a|, i + n - 16 * |a|); }
    }
  }

  /** ar_dblshift with a zero lower operand is a shift left by the rest of the width. */
  method ShiftLeftFrom(a: seq<nat>, n: nat) returns (r: seq<nat>)
    requires IsInteger(a) && n <= 16 * |a|
    ensures IsInteger(r) && MovedLeft(a, r, 16 * |a| - n)
  {
    r := DoubleShift(a, Zeros(|a|), n);
    forall i | 0 <= i < 16 * |a|
      ensures BitAt(r, i) == (i >= 16 * |a| - n && BitAt(a, i - (16 * |a| - n)))
    {
      BitAtPair(a, Zeros(|a|), i + n);
      if i + n < 16 * |a| { BitAtOnes(|a|, i + n); }
    }
  }

  /** Where bit i of the result of ISHFTC comes from: the low `size` bits are rotated left by
      count, the others stay (section 13.13 of ISO/IEC 1539:1991). */
  function FieldFrom(i: nat, size: nat, count: nat): nat
    requires count <= size
  {
    if i >= size then i else if i >= count then i - count else i + size - count
  }

  ghost predicate Rotated(a: seq<nat>, r: seq<nat>, size: nat, count: nat)
    requires count <= size <= 16 * |a|
  {
    |r| == |a| && IsInteger(r) && forall i :: 0 <= i < 16 * |a| ==> BitAt(r, i) == BitAt(a, FieldFrom(i, size, count))
  }

  /** Ones from position `size` on. */
  method MaskOutside(m: nat, size: nat) returns (mask: seq<nat>)
    requires 1 <= size <= 16 * m
    ensures IsInteger(mask) && |mask| == m && forall i :: 0 <= i < 16 * m ==> BitAt(mask, i) == (i >= size)
  {
    mask := ShiftLeftFrom(Ones(m), 16 * m - size);
    forall i | 0 <= i < 16 * m
      ensures BitAt(mask, i) == (i >= size)
    {
      if i >= size { BitAtOnes(m, i - size); }
    }
  }

  /** Ones below position `size`. */
  method MaskInside(m: nat, size: nat) returns (mask: seq<nat>)
    requires 1 <= size <= 16 * m
    ensures IsInteger(mask) && |mask| == m && forall i :: 0 <= i < 16 * m ==> BitAt(mask, i) == (i < size)
  {
    mask := ShiftRightBy(Ones(m), 16 * m - size);
    forall i | 0 <= i < 16 * m
      ensures BitAt(mask, i) == (i < size)
    {
      if i < size { BitAtOnes(m, i + (16 * m - size)); }
    }
  }

  method AndIntegers(a: seq<nat>, b: seq<nat>) returns (r: seq<nat>)
    requires IsInteger(a) && IsInteger(b) && |a| == |b|
    ensures IsInteger(r) && |r| == |a| && forall i :: 0 <= i < 16 * |a| ==> BitAt(r, i) == (BitAt(a, i) && BitAt(b, i))
  {
    r := AndRows(a, b);
    IntegerRows(a, b);
    forall i | 0 <= i < 16 * |a|
      ensures BitAt(r, i) == (BitAt(a, i) && BitAt(b, i))
    {
      BitAtAnd(a, b, i);
    }
  }

  /** The unchanged part of the operand, without insignificant high bits. */
  method FixedPart(a: seq<nat>, size: nat) returns (fixed: seq<nat>)
    requires IsInteger(a) && 1 <= size <= 16 * |a|
    ensures IsInteger(fixed) && |fixed| == |a|
    ensures forall i :: 0 <= i < 16 * |a| ==> BitAt(fixed, i) == (i >= size && BitAt(a, i))
  {
    var mask := MaskOutside(|a|, size);
    fixed := AndIntegers(a, mask);
    fixed := AndIntegers(fixed, Ones(|a|));
    forall i | 0 <= i < 16 * |a|
      ensures BitAt(fixed, i) == (i >= size && BitAt(a, i))
    {
      BitAtOnes(|a|, i);
    }
  }

  /** The part that rotates. */
  method FieldPart(a: seq<nat>, size: nat) returns (rotatee: seq<nat>)
    requires IsInteger(a) && 1 <= size <= 16 * |a|
    ensures IsInteger(rotatee) && |rotatee| == |a|
    ensures forall i :: 0 <= i < 16 * |a| ==> BitAt(rotatee, i) == (i < size && BitAt(a, i))
  {
    var mask := MaskInside(|a|, size);
    rotatee := AndIntegers(a, mask);
  }

  /** The field rotated left by count: the right part moved right, and the left part moved to
      the left end and back. */
  method RotateField(rotatee: seq<nat>, size: nat, count: nat) returns (right: seq<nat>, left: seq<nat>)
    requires IsInteger(rotatee) && count <= size <= 16 * |rotatee|
    requires forall i :: size <= i < 16 * |rotatee| ==> !BitAt(rotatee, i)
    ensures IsInteger(right) && IsInteger(left) && |right| == |left| == |rotatee|
    ensures forall i :: 0 <= i < 16 * |rotatee| ==> BitAt(right, i) == (i < count && BitAt(rotatee, i + size - count))
    ensures forall i :: 0 <= i < 16 * |rotatee| ==> BitAt(left, i) == (count <= i < size && BitAt(rotatee, i - count))
  {
    right := ShiftRightBy(rotatee, size - count);
    var temp := ShiftLeftFrom(rotatee, size - count);
    left := ShiftRightBy(temp, 16 * |rotatee| - size);
  }

  /** An integer of a caller; one variable may be operand and result at once. */
  class Variable {
    var limbs: seq<nat>

    constructor (limbs: seq<nat>)
      ensures this.limbs == limbs
    {
      this.limbs := limbs;
    }
  }

  /** a with its low `size` bits cleared. */
  ghost predicate Cleared(a: seq<nat>, r: seq<nat>, size: nat) {
    |r| == |a| && IsInteger(r) && forall i :: 0 <= i < 16 * |a| ==> BitAt(r, i) == (i >= size && BitAt(a, i))
  }

  /** AR_ishftc: undefined for a field or a shift outside the type, and otherwise the low
      `size` bits rotated and the others kept. A negative shift rotates right. The result is written
      before the field is read, which is lost if the result is the operand. */
  method CircularShift(result: Variable, opnd: Variable, shift: int, size: int) returns (defined: bool)
    requires IsInteger(opnd.limbs)
    modifies result
    ensures defined <==> 1 <= size <= 16 * |old(opnd.limbs)| && -size <= shift <= size
    ensures !defined ==> result.limbs == old(result.limbs)
    ensures defined ==>
      if result == opnd then Cleared(old(opnd.limbs), result.limbs, size)
      else Rotated(opnd.limbs, result.limbs, size, if shift < 0 then size + shift else shift)
  {
    var a := opnd.limbs;
    var count := if shift < 0 then size + shift else shift;
    if size < 1 || size > 16 * |a| || count < 0 || count > size {
      return false;
    }
    result.limbs := FixedPart(opnd.limbs, size);
    ghost var fixed := result.limbs;
    ghost var b := opnd.limbs;
    var rotatee := FieldPart(opnd.limbs, size);
    var right, left := RotateField(rotatee, size, count);
    result.limbs := OrRows(result.limbs, right);
    result.limbs := OrRows(result.limbs, left);
    defined := true;
    FieldJoined(a, b, fixed, rotatee, right, left, size, count);
  }

  /** Bits `size` and up from a, and the others from the rotated field of b. */
  lemma {:induction false} FieldJoined(a: seq<nat>, b: seq<nat>, fixed: seq<nat>, rotatee: seq<nat>, right: seq<nat>,
                                       left: seq<nat>, size: nat, count: nat)
    requires count <= size <= 16 * |a| && |b| == |fixed| == |rotatee| == |right| == |left| == |a|
    requires IsInteger(fixed) && IsInteger(right) && IsInteger(left)
    requires forall i :: 0 <= i < 16 * |a| ==> BitAt(fixed, i) == (i >= size && BitAt(a, i))
    requires forall i :: 0 <= i < 16 * |a| ==> BitAt(rotatee, i) == (i < size && BitAt(b, i))
    requires forall i :: 0 <= i < 16 * |a| ==> BitAt(right, i) == (i < count && BitAt(rotatee, i + size - count))
    requires forall i :: 0 <= i < 16 * |a| ==> BitAt(left, i) == (count <= i < size && BitAt(rotatee, i - count))
    ensures var r := OrRows(OrRows(fixed, right), left);
      && |r| == |a| && IsInteger(r)
      && forall i :: 0 <= i < 16 * |a| ==>
           BitAt(r, i) == if i >= size then BitAt(a, i) else BitAt(b, FieldFrom(i, size, count))
  {
    IntegerRows(fixed, right);
    IntegerRows(OrRows(fixed, right), left);
    forall i | 0 <= i < 16 * |a|
      ensures BitAt(OrRows(OrRows(fixed, right), left), i)
           == if i >= size then BitAt(a, i) else BitAt(b, FieldFrom(i, size, count))
    {
      BitAtAnd(fixed, right, i);
      BitAtAnd(OrRows(fixed, right), left, i);
    }
  }

  /** A result that is the operand is still the rotated operand exactly if the field is zero. */
  lemma {:induction false} AliasedExactly(a: seq<nat>, r: seq<nat>, size: nat, count: nat)
    requires count <= size <= 16 * |a| && Cleared(a, r, size)
    ensures Rotated(a, r, size, count) <==> forall i :: 0 <= i < size ==> !BitAt(a, i)
  {
    if Rotated(a, r, size, count) {
      forall j | 0 <= j < size
        ensures !BitAt(a, j)
      {
        var i := if j + count < size then j + count else j + count - size;
        assert FieldFrom(i, size, count) == j && BitAt(r, i) == BitAt(a, j);
      }
    }
  }

  // ---- Shifting back ----

  /** Rows with the same bits are the same. */
  lemma {:induction false} SameRows(a: seq<nat>, b: seq<nat>)
    requires IsInteger(a) && IsInteger(b) && |a| == |b| && forall i :: 0 <= i < 16 * |a| ==> BitAt(a, i) == BitAt(b, i)
    ensures a == b
  {
    forall j | 0 <= j < |a|
      ensures a[j] == b[j]
    {
      forall k | 0 <= k < 16
        ensures Bit(a[j], k) == Bit(b[j], k)
      {
        var i := 16 * (|a| - 1 - j) + k;
        assert i / 16 == |a| - 1 - j && i % 16 == k;
        assert BitAt(a, i) == BitAt(b, i);
      }
      ShlSixteen();
      SameBits(a[j], b[j], 16);
    }
  }

  /** A rotation by count and one by -count, which is size - count, give the operand back. */
  lemma {:induction false} RotatedBack(a: seq<nat>, b: seq<nat>, c: seq<nat>, size: nat, count: nat)
    requires IsInteger(a) && count <= size <= 16 * |a|
    requires Rotated(a, b, size, count) && Rotated(b, c, size, size - count)
    ensures c == a
  {
    forall i | 0 <= i < 16 * |a|
      ensures BitAt(c, i) == BitAt(a, i)
    {
      var j := FieldFrom(i, size, size - count);
      assert j < 16 * |a| && BitAt(b, j) == BitAt(a, FieldFrom(j, size, count));
    }
    SameRows(c, a);
  }
}
