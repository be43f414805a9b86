/**
 * int64.h: 64-bit integers as four limbs of 16 bits, most significant first.
 */
module Words {
  import opened Powers
  import opened Limbs

  /** 2^64 */
  const MODULUS: nat := 0x1_0000_0000_0000_0000

  ghost predicate IsWord(c: seq<nat>) {
    |c| == 4 && Fits(16, c)
  }

  lemma {:induction false} ModulusIsPow2()
    ensures MODULUS == Pow2(64) == Range(16, 4)
  {
    RangeIsPow2(16, 4);
    Pow2Of16();
    assert Range(16, 2) == 65536 * Range(16, 1) && Range(16, 3) == 65536 * Range(16, 2)
        && Range(16, 4) == 65536 * Range(16, 3);
  }

  lemma {:induction false} Pow2Of16()
    ensures Pow2(16) == 65536
  {
    Times16(0);
    Times16(4);
    Times16(8);
    Times16(12);
  }

  lemma {:induction false} WordBound(c: seq<nat>)
    requires IsWord(c)
    ensures Val(c) < MODULUS
    ensures Val(c) == ((c[0] * 65536 + c[1]) * 65536 + c[2]) * 65536 + c[3]
    ensures c[0] < 65536 && c[1] < 65536 && c[2] < 65536 && c[3] < 65536
  {
    ModulusIsPow2();
    Pow2Of16();
    ValBound(16, c);
    Val4(c);
  }

  lemma {:induction false} Val4(c: seq<nat>)
    requires |c| == 4
    ensures Val(c) == ((c[0] * 65536 + c[1]) * 65536 + c[2]) * 65536 + c[3]
  {
    ValOne(c[..1]);
    ValSnoc(c[..1], c[1]);
    ValSnoc(c[..2], c[2]);
    ValSnoc(c[..3], c[3]);
    assert c[..1] + [c[1]] == c[..2] && c[..2] + [c[2]] == c[..3] && c[..3] + [c[3]] == c;
  }

  lemma {:induction false} Val2(c: seq<nat>)
    requires |c| == 2
    ensures Val(c) == c[0] * 65536 + c[1]
  {
    ValOne(c[..1]);
    ValSnoc(c[..1], c[1]);
    assert c[..1] + [c[1]] == c;
  }

  /** Reduce a number below 2 * 2^64 modulo 2^64. */
  function Wrap(n: nat): nat { if n >= MODULUS then n - MODULUS else n }

  /** Two's complement negation. */
  function Negative(n: nat): nat
    requires n < MODULUS
  {
    if n == 0 then 0 else MODULUS - n
  }

  /** The integer that a two's complement word stands for. */
  function Signed(n: nat): int { if 2 * n >= MODULUS then n - MODULUS else n }

  lemma {:induction false} CarryIsBit(v: nat, carry: nat, n: nat)
    requires v < MODULUS && v + Mul(carry, MODULUS) == n && n < 2 * MODULUS
    ensures carry <= 1 && v + carry * MODULUS == n && v == Wrap(n)
  {
    MulOne(MODULUS);
    MulOrder(carry, 2, MODULUS);
    MulTwo(1, MODULUS);
  }

  /** ar_add_integer on unsigned words: the sum and the carry that it reports as overflow. */
  method AddWithCarry(a: seq<nat>, b: seq<nat>) returns (sum: seq<nat>, carry: nat)
    requires IsWord(a) && IsWord(b)
    ensures IsWord(sum) && Val(sum) < MODULUS && carry <= 1 && Val(sum) + carry * MODULUS == Val(a) + Val(b)
  {
    WordBound(a);
    WordBound(b);
    ModulusIsPow2();
    var r := Limbs.Add(16, a, b, 0);
    sum, carry := r.0, r.1;
    WordBound(sum);
    CarryIsBit(Val(sum), carry, Val(a) + Val(b));
  }

  /** INC64 */
  method IncrementWord(a: seq<nat>) returns (sum: seq<nat>)
    requires IsWord(a)
    ensures IsWord(sum) && Val(sum) == Wrap(Val(a) + 1)
  {
    WordBound(a);
    ModulusIsPow2();
    var r := Limbs.Inc(16, a, 1);
    sum := r.0;
    WordBound(sum);
    CarryIsBit(Val(sum), r.1, Val(a) + 1);
  }

  /** NEG64 */
  method NegateWord(a: seq<nat>) returns (n: seq<nat>)
    requires IsWord(a)
    ensures IsWord(n) && Val(a) < MODULUS && Val(n) == Negative(Val(a))
  {
    WordBound(a);
    ModulusIsPow2();
    n := IncrementWord(Limbs.Not(16, a));
  }

  /** SHLEFT64 */
  method ShiftLeftWord(a: seq<nat>) returns (r: seq<nat>)
    requires IsWord(a)
    ensures IsWord(r) && Val(r) == Wrap(2 * Val(a))
  {
    WordBound(a);
    ModulusIsPow2();
    var s := Limbs.ShiftLeft(16, a, 0);
    r := s.0;
    WordBound(r);
  }

  /** SHRIGHT64 and the bit it shifts out. */
  method ShiftRightWord(a: seq<nat>) returns (r: seq<nat>, out: nat)
    requires IsWord(a)
    ensures IsWord(r) && out <= 1 && Val(a) == 2 * Val(r) + out
  {
    ParityOfVal(a);
    out := a[3] % 2;
    r := Limbs.ShiftRight(16, a, 0);
  }

  /** SIGNBIT */
  method SignBit(a: seq<nat>) returns (bit: bool)
    requires IsWord(a)
    ensures bit <==> 2 * Val(a) >= MODULUS
  {
    WordBound(a);
    bit := a[0] / 32768 == 1;
  }

  /** k left shifts of a 64-bit word. */
  function LeftShifts(n: nat, k: nat): nat
    decreases k, n
  {
    if k == 0 then n else LeftShifts(Wrap(2 * n), k - 1)
  }

  lemma {:induction false} LeftShiftsExact(n: nat, k: nat)
    requires Mul(n, Pow2(k)) < MODULUS
    ensures LeftShifts(n, k) == Mul(n, Pow2(k))
    decreases k
  {
    MulOne(n);
    if k > 0 {
      MulTwo(n, Pow2(k - 1));
      MulLeRight(2 * n, 1, Pow2(k - 1));
      MulOne(2 * n);
      LeftShiftsExact(2 * n, k - 1);
    }
  }

  /** SHLEFT64 k times. */
  method ShiftLeftBy(a: seq<nat>, k: nat) returns (r: seq<nat>)
    requires IsWord(a)
    ensures IsWord(r) && Val(r) == LeftShifts(Val(a), k)
  {
    r := a;
    var i: nat := k;
    while i > 0
      invariant i <= k && IsWord(r) && LeftShifts(Val(r), i) == LeftShifts(Val(a), k)
    {
      r := ShiftLeftWord(r);
      i := i - 1;
    }
  }

  /** ar_subtract_integer on unsigned words, without its flags. */
  method SubtractWords(a: seq<nat>, b: seq<nat>) returns (d: seq<nat>)
    requires IsWord(a) && IsWord(b)
    ensures IsWord(d) && Val(a) < MODULUS && Val(b) < MODULUS
    ensures Val(d) == if Val(a) >= Val(b) then Val(a) - Val(b) else Val(a) + MODULUS - Val(b)
  {
    WordBound(a);
    WordBound(b);
    ModulusIsPow2();
    var r := Limbs.Add(16, a, Limbs.Not(16, b), 1);
    d := r.0;
    WordBound(d);
    CarryIsBit(Val(d), r.1, Val(a) + (MODULUS - 1 - Val(b)) + 1);
  }
}
