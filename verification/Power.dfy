/**
 * native.c: ar_power with a 64-bit base and power, each signed or unsigned.
 */
module Power {
  import opened Powers
  import opened Limbs
  import opened Words
  import opened Ieee754
  import opened Integers

  /** x^n */
  function IntPow(x: int, n: nat): int {
    if n == 0 then 1 else Product(x, IntPow(x, n - 1))
  }

  lemma {:induction false} ProductMagnitude(x: int, y: int)
    ensures Abs(Product(x, y)) == Mul(Abs(x), Abs(y))
    ensures Product(x, y) == 0 <==> x == 0 || y == 0
    ensures x != 0 && y != 0 ==> (Product(x, y) < 0 <==> (x < 0) != (y < 0))
  {
    MulOne(Abs(x));
    MulOne(Abs(y));
    if x != 0 && y != 0 { MulPositive(Abs(x), Abs(y)); }
  }

  lemma {:induction false} ProductAssoc(x: int, y: int, z: int)
    ensures Product(Product(x, y), z) == Product(x, Product(y, z))
  {
    ProductMagnitude(x, y);
    ProductMagnitude(y, z);
    ProductMagnitude(Product(x, y), z);
    ProductMagnitude(x, Product(y, z));
    MulAssoc(Abs(x), Abs(y), Abs(z));
  }

  lemma {:induction false} ProductOne(x: int)
    ensures Product(x, 1) == x && Product(1, x) == x
  {
    MulOne(Abs(x));
  }

  /** Squaring the base halves the power. */
  lemma {:induction false} PowSquare(t: int, k: nat)
    ensures IntPow(Product(t, t), k) == IntPow(t, 2 * k)
  {
    if k > 0 {
      PowSquare(t, k - 1);
      ProductAssoc(t, t, IntPow(t, 2 * k - 2));
      assert IntPow(t, 2 * k) == Product(t, IntPow(t, 2 * k - 1));
    }
  }

  /** One round of repeated squaring keeps the power that is to be computed. */
  lemma {:induction false} SquareStep(r: int, t: int, p: nat)
    requires p > 0
    ensures Product(r, IntPow(t, p)) == Product(if p % 2 == 1 then Product(r, t) else r, IntPow(Product(t, t), p / 2))
  {
    var k := p / 2;
    PowSquare(t, k);
    if p % 2 == 1 {
      assert p == 2 * k + 1;
      ProductAssoc(r, t, IntPow(t, 2 * k));
    } else {
      assert p == 2 * k;
    }
  }

  lemma {:induction false} PowMagnitude(t: int, k: nat)
    requires Abs(t) >= 1
    ensures Abs(IntPow(t, k)) >= 1 && (k > 0 ==> Abs(IntPow(t, k)) >= Abs(t))
  {
    if k > 0 {
      PowMagnitude(t, k - 1);
      ProductMagnitude(t, IntPow(t, k - 1));
      MulPositive(Abs(t), Abs(IntPow(t, k - 1)));
    }
  }

  /** 2^63 is not a perfect square. */
  lemma {:induction false} NotASquare(t: nat)
    ensures 2 * Mul(t, t) != MODULUS
  {
    MulIs(3037000499, 3037000499);
    MulIs(3037000500, 3037000500);
    if t <= 3037000499 {
      MulLe(t, 3037000499, t);
      MulLeRight(3037000499, t, 3037000499);
    } else {
      MulLe(3037000500, t, 3037000500);
      MulLeRight(t, 3037000500, t);
    }
  }

  /** A square beyond the type makes every further power too large, for either sign. */
  lemma {:induction false} SquareTooLarge(r: int, s: int, p: nat)
    requires r != 0 && 2 * s > MODULUS && p > 0
    ensures !InRange(Product(r, IntPow(s, p)), true)
  {
    PowMagnitude(s, p);
    ProductMagnitude(r, IntPow(s, p));
    MulPositive(Abs(r), Abs(IntPow(s, p)));
  }

  /** A partial product beyond the type, with a base of at least two, stays beyond it. */
  lemma {:induction false} PartialTooLarge(m: int, s: int, k: nat)
    requires !InRange(m, true) && s >= 4
    ensures !InRange(Product(m, IntPow(s, k)), true)
  {
    if k == 0 {
      ProductOne(m);
    } else {
      PowMagnitude(s, k);
      ProductMagnitude(m, IntPow(s, k));
      MulLeRight(Abs(m), 4, Abs(IntPow(s, k)));
      MulComm(Abs(m), 4);
      MulLe(4, 4, Abs(m));
      FourTimes(Abs(m));
    }
  }

  lemma {:induction false} FourTimes(n: nat)
    ensures Mul(n, 4) == 4 * n
  {
    MulTwo(n, 2);
    MulTwo(n, 1);
    MulOne(n);
  }

  // ---- The bases that ar_power treats apart ----

  lemma {:induction false} PowOfZero(n: nat)
    requires n > 0
    ensures IntPow(0, n) == 0
  {
  }

  lemma {:induction false} PowOfUnit(x: int, n: nat)
    requires Abs(x) == 1
    ensures IntPow(x, n) == if x == 1 || n % 2 == 0 then 1 else -1
  {
    if n > 0 {
      PowOfUnit(x, n - 1);
      MulOne(1);
    }
  }

  /** ONE of the type. */
  function OneWord(): seq<nat> { [0, 0, 0, 1] }

  function MinusOneWord(): seq<nat> { [65535, 65535, 65535, 65535] }

  lemma {:induction false} Units(a: seq<nat>)
    requires IsWord(a)
    ensures IsWord(OneWord()) && IsWord(MinusOneWord()) && Val(OneWord()) == 1
    ensures Val(a) < MODULUS && (a == OneWord() <==> Signed(Val(a)) == 1)
            && (a == MinusOneWord() <==> Signed(Val(a)) == -1)
  {
    hide Pow2;
    Pow2Of16();
    Val4(OneWord());
    Val4(MinusOneWord());
    WordBound(a);
  }

  // ---- Products of unsigned words ----

  /** Products of congruent numbers are congruent. */
  lemma {:induction false} MulWraps(x: nat, y: nat, i: nat, j: nat) returns (k: nat)
    ensures Mul(x + i * MODULUS, y + j * MODULUS) == Mul(x, y) + k * MODULUS
  {
    var m, y' := MODULUS, y + j * MODULUS;
    k := Mul(i, y') + Mul(x, j);
    MulAdd(x, i * m, y');
    MulTimes(i, y', m);
    MulComm(x, y');
    MulAdd(y, j * m, x);
    MulTimes(j, x, m);
    MulComm(y, x);
    MulComm(j, x);
  }

  lemma {:induction false} MulTimes(i: nat, y: nat, m: nat)
    requires m == MODULUS
    ensures Mul(i * MODULUS, y) == Mul(i, y) * MODULUS
  {
    MulIs(i, m);
    MulIs(Mul(i, y), m);
    MulAssoc(i, m, y);
    MulComm(m, y);
    MulAssoc(i, y, m);
  }

  /** The powers of the largest word, which the code takes for -1. */
  lemma {:induction false} PowOfLast(n: nat) returns (k: nat)
    ensures IntPow(MODULUS - 1, n) == (if n % 2 == 0 then 1 else MODULUS - 1) + k * MODULUS
  {
    k := 0;
    if n > 0 {
      var j := PowOfLast(n - 1);
      var l := MODULUS - 1;
      k := MulWraps(l, if n % 2 == 1 then 1 else l, 0, j);
      MulOne(l);
      if n % 2 == 0 {
        MulIs(l, l);
        k := k + MODULUS - 2;
      }
    }
  }

  // ---- Repeated multiplication ----

  /** Where the loop stands: the exact numbers r and the power p of s make up the result v. A signed
      type holds them, unless the last square has overflowed and is beyond the type; an unsigned
      type holds them modulo 2^64. */
  ghost predicate Raising(isSigned: bool, v: int, result: nat, tbase: nat, r: int, s: int, p: nat, overflown: bool) {
    && v == Product(r, IntPow(s, p))
    && if isSigned
       then r == Signed(result) != 0 && Abs(s) >= 2 && if overflown then 2 * s > MODULUS else Signed(tbase) == s
       else !overflown && Wraps(r, result) && Wraps(s, tbase)
  }

  /** r is n and a number of whole turns. */
  ghost predicate Wraps(r: int, n: nat) { exists k: nat :: Turns(r, n, k) }

  predicate Turns(r: int, n: nat, k: nat) { r == n + k * MODULUS }

  lemma {:induction false} WrapsProduct(x: int, y: int, i: nat, j: nat, n: nat, lost: nat)
    requires Wraps(x, i) && Wraps(y, j) && Product(i, j) == n + lost * MODULUS
    ensures Wraps(Product(x, y), n)
  {
    var a: nat :| Turns(x, i, a);
    var b: nat :| Turns(y, j, b);
    var k := MulWraps(i, j, a, b);
    assert Turns(Product(x, y), n, k + lost);
  }

  lemma {:induction false} SquareIsLarge(t: int)
    requires Abs(t) >= 2
    ensures Product(t, t) >= 4 && 2 * Product(t, t) != MODULUS
  {
    ProductMagnitude(t, t);
    MulLe(2, Abs(t), Abs(t));
    MulTwo(1, Abs(t));
    MulOne(Abs(t));
    NotASquare(Abs(t));
  }

  /** AR_multiply on integers: an unsigned type ignores the overflow. */
  method MultiplyTyped(a: seq<nat>, b: seq<nat>, isSigned: bool) returns (result: seq<nat>, overflow: bool)
    requires IsWord(a) && IsWord(b)
    ensures IsWord(result) && Val(result) < MODULUS && Val(a) < MODULUS && Val(b) < MODULUS
    ensures isSigned ==>
      var v := Product(Signed(Val(a)), Signed(Val(b)));
      (overflow <==> !InRange(v, true)) && (!overflow ==> Signed(Val(result)) == v)
    ensures !isSigned ==> !overflow && exists k: nat :: Turns(Product(Val(a), Val(b)), Val(result), k)
  {
    var status;
    ghost var lost: int;
    result, status, lost := MultiplyInteger(a, b, isSigned);
    overflow := isSigned && Overflow in status;
    if !isSigned { assert Turns(Product(Val(a), Val(b)), Val(result), lost); }
  }

  /** The word is the number r of the type: of a signed type r itself and not zero, of an unsigned one r modulo 2^64. */
  ghost predicate Holds(isSigned: bool, r: int, word: nat) {
    if isSigned then r == Signed(word) != 0 else Wraps(r, word)
  }

  /** The result of a multiplication that can be too large only if the power v is. */
  ghost predicate Multiplied(isSigned: bool, product: int, v: int, tooLarge: bool, word: nat) {
    if tooLarge then isSigned && !InRange(v, true) else Holds(isSigned, product, word)
  }

  /** Multiply the base into the result. */
  method RaiseResult(result0: seq<nat>, tbase: seq<nat>, isSigned: bool, ghost v: int, ghost r: int, ghost s: int,
                     ghost k: nat)
    returns (result: seq<nat>, tooLarge: bool)
    requires IsWord(result0) && IsWord(tbase)
    requires v == Product(Product(r, s), IntPow(Product(s, s), k))
    requires Holds(isSigned, r, Val(result0)) && Holds(isSigned, s, Val(tbase)) && (isSigned ==> Abs(s) >= 2)
    ensures IsWord(result) && Multiplied(isSigned, Product(r, s), v, tooLarge, Val(result))
  {
    hide Mul, IntPow;
    result, tooLarge := MultiplyTyped(result0, tbase, isSigned);
    if isSigned {
      ProductMagnitude(r, s);
      SquareIsLarge(s);
      if tooLarge { PartialTooLarge(Product(r, s), Product(s, s), k); }
    } else {
      ghost var lost: nat :| Turns(Product(Val(result0), Val(tbase)), Val(result), lost);
      WrapsProduct(r, s, Val(result0), Val(tbase), Val(result), lost);
    }
  }

  /** Square the base; an overflow is only remembered. */
  method RaiseBase(tbase0: seq<nat>, isSigned: bool, ghost s: int) returns (tbase: seq<nat>, failed: bool)
    requires IsWord(tbase0)
    requires if isSigned then s == Signed(Val(tbase0)) && Abs(s) >= 2 else Wraps(s, Val(tbase0))
    ensures IsWord(tbase)
    ensures var s' := Product(s, s);
      if isSigned then s' >= 4 && if failed then 2 * s' > MODULUS else Signed(Val(tbase)) == s'
      else !failed && Wraps(s', Val(tbase))
  {
    hide Mul;
    tbase, failed := MultiplyTyped(tbase0, tbase0, isSigned);
    if isSigned {
      SquareIsLarge(s);
    } else {
      ghost var lost: nat :| Turns(Product(Val(tbase0), Val(tbase0)), Val(tbase), lost);
      WrapsProduct(s, s, Val(tbase0), Val(tbase0), Val(tbase), lost);
    }
  }

  /** ar_power's loop. A signed type: base raised to the power if the type holds it, and zero with an
      error status if it does not. An unsigned type: the power modulo 2^64. */
  method RaiseLoop(base: seq<nat>, power: seq<nat>, isSigned: bool) returns (result: seq<nat>, overflow: bool)
    requires IsWord(base) && IsWord(power) && (isSigned ==> Abs(Signed(Val(base))) >= 2)
    ensures IsWord(result) && Val(result) < MODULUS
    ensures var v := IntPow(Number(Val(base), isSigned), Val(power));
      && (overflow <==> isSigned && !InRange(v, true))
      && (if overflow then Val(result) == 0 else if isSigned then Signed(Val(result)) == v else Wraps(v, Val(result)))
  {
    hide Mul, IntPow, Product;
    Units(base);
    Pow2Of16();
    ghost var r, s, v := 1, Number(Val(base), isSigned), IntPow(Number(Val(base), isSigned), Val(power));
    ProductOne(v);
    result := OneWord();
    var tbase, tpow, failed := base, power, false;
    if !isSigned { assert Turns(1, 1, 0) && Turns(s, Val(base), 0); }
    while !Limbs.IsZero(tpow)
      invariant IsWord(result) && IsWord(tbase) && IsWord(tpow)
      invariant Raising(isSigned, v, Val(result), Val(tbase), r, s, Val(tpow), failed)
      decreases Val(tpow)
    {
      if failed {
        SquareTooLarge(r, s, Val(tpow));
        return Zeros(4), true;
      }
      ghost var p := Val(tpow);
      SquareStep(r, s, p);
      ParityOfVal(tpow);
      if tpow[3] % 2 == 1 {
        var tooLarge;
        result, tooLarge := RaiseResult(result, tbase, isSigned, v, r, s, p / 2);
        if tooLarge {
          return Zeros(4), true;
        }
        r := Product(r, s);
      }
      tbase, failed := RaiseBase(tbase, isSigned, s);
      s := Product(s, s);
      var out;
      tpow, out := ShiftRightWord(tpow);
      DivMod2(p, Val(tpow), out);
    }
    WordBound(result);
    PowOfNone(r, s);
    overflow := false;
  }

  lemma {:induction false} PowOfNone(r: int, s: int)
    ensures Product(r, IntPow(s, 0)) == r
  {
    ProductOne(r);
  }

  /** AR_status of a result. */
  method StatusOf(a: seq<nat>, isSigned: bool) returns (res: set<Flag>)
    requires IsWord(a)
    ensures res == IntStatus(Val(a), isSigned)
  {
    WordBound(a);
    var top := SignBit(a);
    res := if Limbs.IsZero(a) then {ZeroResult} else if isSigned && top then {Ieee754.Negative} else {};
  }

  /** The bases that are neither zero nor a unit; the code takes the largest unsigned word for -1. */
  predicate Ordinary(x: int) { Abs(x) >= 2 && x != MODULUS - 1 }

  /**
   * What ar_power makes of the words b and p: undefined for zero to a power that is not positive, zero
   * for an ordinary base if the leading bit of the power is set, and otherwise the power, for a signed
   * base if the type holds it and for an unsigned one modulo 2^64.
   */
  ghost predicate Delivered(b: nat, p: nat, baseSigned: bool, powerSigned: bool, r0: nat, r: nat, status: set<Flag>) {
    var x, n := Number(b, baseSigned), Number(p, powerSigned);
    if x == 0 && n <= 0 then r == r0 && status == {Undefined}
    else if Ordinary(x) && 2 * p >= MODULUS then r == 0 && status == {ZeroResult}
    else if n >= 0 && baseSigned && !InRange(IntPow(x, n), true) then r == 0 && status == {Overflow}
    else
      && status == IntStatus(r, baseSigned)
      && if n >= 0 then if baseSigned then Signed(r) == IntPow(x, n) else Wraps(IntPow(x, n), r)
         else if x == MODULUS - 1 then r == if n % 2 == 1 then MODULUS - 1 else 1
         else Number(r, baseSigned) == IntPow(x, -n)
  }

  /** ar_power on 64-bit integers. The sign test on the power does not look at its type. */
  method PowerInteger(result0: seq<nat>, base: seq<nat>, power: seq<nat>, baseSigned: bool, powerSigned: bool)
    returns (result: seq<nat>, status: set<Flag>)
    requires IsWord(result0) && IsWord(base) && IsWord(power)
    ensures IsWord(result) && Val(base) < MODULUS && Val(power) < MODULUS && Val(result) < MODULUS
    ensures Delivered(Val(base), Val(power), baseSigned, powerSigned, Val(result0), Val(result), status)
  {
    hide Mul, Product, IntPow, Wraps, Delivered;
    Units(base);
    Units(power);
    WordBound(result0);
    Pow2Of16();
    ghost var b, p := Val(base), Val(power);
    var top := SignBit(power);
    if Limbs.IsZero(base) && (Limbs.IsZero(power) || (powerSigned && top)) {
      UndefinedDelivered(b, p, baseSigned, powerSigned, Val(result0));
      return result0, {Undefined};
    }
    if Limbs.IsZero(base) || base == OneWord() || power == OneWord() {
      SpecialDelivered(b, p, baseSigned, powerSigned, Val(result0));
      status := StatusOf(base, baseSigned);
      return base, status;
    }
    if base == MinusOneWord() {
      ParityOfWord(power, powerSigned);
      result := if power[3] % 2 == 1 then base else OneWord();
      LastDelivered(b, p, baseSigned, powerSigned, Val(result0), Val(result));
      status := StatusOf(result, baseSigned);
      return result, status;
    }
    OrdinaryBase(b, baseSigned);
    if top {
      result := Zeros(4);
      TopDelivered(b, p, baseSigned, powerSigned, Val(result0));
      status := StatusOf(result, baseSigned);
      return result, status;
    }
    var overflow;
    result, overflow := RaiseLoop(base, power, baseSigned);
    status := StatusOf(result, baseSigned);
    LoopDelivered(b, p, baseSigned, powerSigned, Val(result0), Val(result), overflow);
    if overflow { status := {Overflow}; }
  }

  lemma {:induction false} UndefinedDelivered(b: nat, p: nat, baseSigned: bool, powerSigned: bool, r0: nat)
    requires b == 0 && Number(p, powerSigned) <= 0
    ensures Delivered(b, p, baseSigned, powerSigned, r0, r0, {Undefined})
  {
  }

  lemma {:induction false} SpecialDelivered(b: nat, p: nat, baseSigned: bool, powerSigned: bool, r0: nat)
    requires b < MODULUS && p < MODULUS && (b == 0 || b == 1 || p == 1) && (b == 0 ==> Number(p, powerSigned) > 0)
    ensures Delivered(b, p, baseSigned, powerSigned, r0, b, IntStatus(b, baseSigned))
  {
    hide IntPow, Wraps;
    SpecialPower(Number(b, baseSigned), Number(p, powerSigned), baseSigned);
  }

  lemma {:induction false} LastDelivered(b: nat, p: nat, baseSigned: bool, powerSigned: bool, r0: nat, r: nat)
    requires b == MODULUS - 1 && p < MODULUS
    requires r == if Number(p, powerSigned) % 2 == 1 then b else 1
    ensures Delivered(b, p, baseSigned, powerSigned, r0, r, IntStatus(r, baseSigned))
  {
    hide IntPow, Wraps;
    SpecialPower(Number(b, baseSigned), Number(p, powerSigned), baseSigned);
  }

  lemma {:induction false} OrdinaryBase(b: nat, baseSigned: bool)
    requires 1 < b < MODULUS - 1
    ensures Ordinary(Number(b, baseSigned))
  {
  }

  lemma {:induction false} TopDelivered(b: nat, p: nat, baseSigned: bool, powerSigned: bool, r0: nat)
    requires Ordinary(Number(b, baseSigned)) && MODULUS <= 2 * p
    ensures Delivered(b, p, baseSigned, powerSigned, r0, 0, {ZeroResult})
  {
  }

  lemma {:induction false} LoopDelivered(b: nat, p: nat, baseSigned: bool, powerSigned: bool, r0: nat, r: nat,
                                         overflow: bool)
    requires b < MODULUS && 2 * p < MODULUS && r < MODULUS && Ordinary(Number(b, baseSigned))
    requires var v := IntPow(Number(b, baseSigned), p);
      && (overflow <==> baseSigned && !InRange(v, true))
      && (if overflow then r == 0 else if baseSigned then Signed(r) == v else Wraps(v, r))
    ensures Delivered(b, p, baseSigned, powerSigned, r0, r, if overflow then {Overflow} else IntStatus(r, baseSigned))
  {
    hide IntPow, Wraps;
  }

  /** The powers that need no loop. */
  lemma {:induction false} SpecialPower(x: int, n: int, isSigned: bool)
    ensures x == 0 && n > 0 ==> IntPow(x, n) == 0 && Wraps(0, 0)
    ensures n == 1 ==> IntPow(x, n) == x && (x >= 0 ==> Wraps(x, x))
    ensures Abs(x) == 1 ==> IntPow(x, Abs(n)) == if x == 1 || n % 2 == 0 then 1 else -1
    ensures x == 1 && n >= 0 ==> Wraps(IntPow(x, n), 1)
    ensures x == MODULUS - 1 && n >= 0 ==> Wraps(IntPow(x, n), if n % 2 == 0 then 1 else MODULUS - 1)
  {
    assert Turns(0, 0, 0) && Turns(1, 1, 0);
    if x == 0 && n > 0 { PowOfZero(n); }
    if n == 1 {
      PowOfNone(x, x);
      assert IntPow(x, 1) == Product(x, IntPow(x, 0));
      if x >= 0 { assert Turns(x, x, 0); }
    }
    if Abs(x) == 1 {
      PowOfUnit(x, Abs(n));
      if n < 0 { assert -n == 2 * (-n / 2) + -n % 2; }
    }
    if x == MODULUS - 1 && n >= 0 {
      var k := PowOfLast(n);
      assert Turns(IntPow(x, n), if n % 2 == 0 then 1 else MODULUS - 1, k);
    }
  }

  lemma {:induction false} ParityOfWord(a: seq<nat>, isSigned: bool)
    requires IsWord(a)
    ensures Val(a) < MODULUS && Number(Val(a), isSigned) % 2 == a[3] % 2
  {
    WordBound(a);
    ParityOfVal(a);
  }

  // ---- When the result is the power ----

  /** The result that is asked for: the power or an error, the power modulo 2^64, or for a negative
      power the truncated reciprocal. */
  ghost predicate RightPower(x: int, n: int, isSigned: bool, r: nat, status: set<Flag>) {
    if n < 0 then Number(r, isSigned) == if Abs(x) == 1 then IntPow(x, -n) else 0
    else if !isSigned then Wraps(IntPow(x, n), r)
    else if InRange(IntPow(x, n), true) then Overflow !in status && Signed(r) == IntPow(x, n)
    else Overflow in status
  }

  /** Large powers of numbers of magnitude at least two are beyond a signed type. */
  lemma {:induction false} PowLarge(x: int, n: nat)
    requires Abs(x) >= 2
    ensures Abs(IntPow(x, n)) >= Pow2(n)
  {
    if n > 0 {
      PowLarge(x, n - 1);
      ProductMagnitude(x, IntPow(x, n - 1));
      MulLe(2, Abs(x), Abs(IntPow(x, n - 1)));
      SmallMultiples(Abs(IntPow(x, n - 1)));
    }
  }

  lemma {:induction false} PowBeyond(x: int, n: nat)
    requires Abs(x) >= 2 && n >= 64
    ensures !InRange(IntPow(x, n), true)
  {
    PowLarge(x, n);
    Pow2Mono(64, n);
    ModulusIsPow2();
  }

  lemma {:induction false} PowNat(x: nat, n: nat)
    ensures IntPow(x, n) >= 0
  {
    if n > 0 {
      PowNat(x, n - 1);
      ProductMagnitude(x, IntPow(x, n - 1));
    }
  }

  /** Powers of odd numbers are odd. */
  lemma {:induction false} PowOdd(x: nat, n: nat)
    requires x % 2 == 1
    ensures IntPow(x, n) % 2 == 1
  {
    if n > 0 {
      var y := IntPow(x, n - 1);
      PowOdd(x, n - 1);
      PowNat(x, n - 1);
      MulTwo(x / 2, y);
      MulAdd(2 * (x / 2), 1, y);
      MulOne(y);
      assert IntPow(x, n) == 2 * Mul(x / 2, y) + y;
    }
  }

  /** Powers of even numbers are multiples of powers of two. */
  lemma {:induction false} PowEven(x: nat, n: nat) returns (k: nat)
    requires x % 2 == 0
    ensures IntPow(x, n) == Mul(k, Pow2(n))
  {
    if n == 0 {
      k := 1;
      MulOne(1);
    } else {
      var j := PowEven(x, n - 1);
      var y := Mul(j, Pow2(n - 1));
      k := Mul(x / 2, j);
      MulTwo(x / 2, y);
      MulAssoc(x / 2, j, Pow2(n - 1));
      MulTwo(k, Pow2(n - 1));
      assert IntPow(x, n) == Product(x, y) == Mul(2 * (x / 2), y);
    }
  }

  /** Zero is a large power modulo 2^64 exactly for even bases. */
  lemma {:induction false} ZeroExactly(x: nat, n: nat)
    requires n >= 64
    ensures Wraps(IntPow(x, n), 0) <==> x % 2 == 0
  {
    hide IntPow;
    ModulusIsPow2();
    if x % 2 == 0 {
      var k := PowEven(x, n);
      Pow2Add(n - 64, 64);
      MulAssoc(k, Pow2(n - 64), MODULUS);
      MulIs(Mul(k, Pow2(n - 64)), MODULUS);
      assert Turns(IntPow(x, n), 0, Mul(k, Pow2(n - 64)));
    } else {
      PowOdd(x, n);
      forall k: nat
        ensures !Turns(IntPow(x, n), 0, k)
      {
        assert k * MODULUS % 2 == 0;
      }
    }
  }

  /**
   * The delivered power is the right one, if zero is not raised to a power that is not positive:
   * for negative powers exactly if the base is not the largest unsigned word, and for others exactly
   * if the leading bit of the power is clear, or the base is 0, 1, -1 or the largest unsigned
   * word, or the base is unsigned and even.
   */
  lemma {:induction false} PowerExactly(b: nat, p: nat, baseSigned: bool, powerSigned: bool, r0: nat, r: nat,
                                        status: set<Flag>)
    requires b < MODULUS && p < MODULUS && r < MODULUS
    requires Delivered(b, p, baseSigned, powerSigned, r0, r, status)
    requires b != 0 || Number(p, powerSigned) > 0
    ensures var x, n := Number(b, baseSigned), Number(p, powerSigned);
      RightPower(x, n, baseSigned, r, status) <==>
        if n < 0 then x != MODULUS - 1 else 2 * p < MODULUS || !Ordinary(x) || (!baseSigned && x % 2 == 0)
  {
    hide IntPow, Wraps;
    var x, n := Number(b, baseSigned), Number(p, powerSigned);
    if n >= 0 && 2 * p >= MODULUS && Ordinary(x) {
      if baseSigned { PowBeyond(x, n); } else { ZeroExactly(x, n); }
    }
  }

  /** Such powers exist: 3 to the power 2^63, both unsigned, is delivered as zero without an error. */
  lemma {:induction false} PowerFails(n: nat, r0: nat, r: nat, status: set<Flag>)
    requires 2 * n == MODULUS && Delivered(3, n, false, false, r0, r, status)
    ensures r == 0 && status == {ZeroResult} && !Wraps(IntPow(3, n), r)
  {
    hide IntPow;
    ZeroExactly(3, n);
  }
}
