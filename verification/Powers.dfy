/**
 * Powers of two and products.
 *
 * Products of two unknowns are written Mul(a, b), multiplication by repeated
 * addition, wherever they appear in definitions: the solver then treats them
 * as ordinary terms, and every law it may use is one of the lemmas here.
 */
module Powers {

  function Pow2(n: nat): (r: nat)
    ensures r > 0
  {
    if n == 0 then 1 else 2 * Pow2(n - 1)
  }

  /** a * b */
  function Mul(a: nat, b: nat): nat {
    if a == 0 then 0 else Mul(a - 1, b) + b
  }

  lemma {:induction false} MulIs(a: nat, b: nat)
    ensures Mul(a, b) == a * b
  {
    if a > 0 { MulIs(a - 1, b); }
  }

  lemma {:induction false} MulComm(a: nat, b: nat)
    ensures Mul(a, b) == Mul(b, a)
  {
    MulIs(a, b);
    MulIs(b, a);
  }

  lemma {:induction false} MulAdd(a: nat, b: nat, c: nat)
    ensures Mul(a + b, c) == Mul(a, c) + Mul(b, c)
  {
    if a > 0 { MulAdd(a - 1, b, c); }
  }

  lemma {:induction false} MulSub(a: nat, b: nat, c: nat)
    requires a >= b
    ensures Mul(a - b, c) == Mul(a, c) - Mul(b, c)
  {
    MulAdd(a - b, b, c);
  }

  lemma {:induction false} MulAssoc(a: nat, b: nat, c: nat)
    ensures Mul(a, Mul(b, c)) == Mul(Mul(a, b), c)
  {
    if a > 0 {
      MulAssoc(a - 1, b, c);
      MulAdd(Mul(a - 1, b), b, c);
    }
  }

  /** A known factor moves out of a product. */
  lemma {:induction false} MulTwo(a: nat, b: nat)
    ensures Mul(2 * a, b) == 2 * Mul(a, b) == Mul(a, 2 * b)
  {
    if a > 0 { MulTwo(a - 1, b); }
  }

  lemma {:induction false} MulEight(a: nat, b: nat)
    ensures Mul(8 * a, b) == 8 * Mul(a, b) == Mul(a, 8 * b)
  {
    MulTwo(a, b);
    MulTwo(2 * a, b);
    MulTwo(4 * a, b);
    MulTwo(a, 2 * b);
    MulTwo(a, 4 * b);
  }

  lemma {:induction false} MulOne(a: nat)
    ensures Mul(1, a) == a && Mul(a, 1) == a && Mul(0, a) == 0 && Mul(a, 0) == 0
  {
    MulComm(a, 1);
    MulComm(a, 0);
  }

  /** Products with small numbers. */
  lemma {:induction false} SmallMultiples(d: nat)
    ensures Mul(0, d) == 0 && Mul(1, d) == d && Mul(2, d) == 2 * d && Mul(3, d) == 3 * d
    ensures Mul(4, d) == 4 * d && Mul(5, d) == 5 * d && Mul(6, d) == 6 * d
    ensures Mul(7, d) == 7 * d && Mul(8, d) == 8 * d
  {
    assert Mul(1, d) == Mul(0, d) + d;
    assert Mul(2, d) == Mul(1, d) + d;
    assert Mul(3, d) == Mul(2, d) + d;
    assert Mul(4, d) == Mul(3, d) + d;
    assert Mul(5, d) == Mul(4, d) + d;
    assert Mul(6, d) == Mul(5, d) + d;
    assert Mul(7, d) == Mul(6, d) + d;
  }

  lemma {:induction false} TimesEight(n: nat)
    ensures Mul(n, 8) == 8 * n
  {
    MulComm(n, 8);
    SmallMultiples(n);
  }

  lemma {:induction false} MulLe(a: nat, b: nat, k: nat)
    requires a <= b
    ensures Mul(a, k) <= Mul(b, k)
  {
    MulAdd(b - a, a, k);
  }

  lemma {:induction false} MulLeRight(k: nat, a: nat, b: nat)
    requires a <= b
    ensures Mul(k, a) <= Mul(k, b)
  {
    if k > 0 { MulLeRight(k - 1, a, b); }
  }

  lemma {:induction false} MulLt(a: nat, b: nat, k: nat)
    requires a < b && k > 0
    ensures Mul(a, k) < Mul(b, k)
    ensures Mul(a, k) + k <= Mul(b, k)
  {
    MulLe(a + 1, b, k);
  }

  /** Comparing multiples of a positive number compares the factors. */
  lemma {:induction false} MulOrder(a: nat, b: nat, k: nat)
    requires k > 0
    ensures a < b <==> Mul(a, k) < Mul(b, k)
    ensures a == b <==> Mul(a, k) == Mul(b, k)
  {
    if a < b { MulLt(a, b, k); }
    if b < a { MulLt(b, a, k); }
  }

  lemma {:induction false} MulPositive(a: nat, b: nat)
    requires a > 0 && b > 0
    ensures Mul(a, b) > 0
    ensures Mul(a, b) >= b && Mul(a, b) >= a
  {
    MulLt(0, a, b);
    MulComm(a, b);
    MulLt(0, b, a);
  }

  lemma {:induction false} Pow2Add(a: nat, b: nat)
    ensures Pow2(a + b) == Mul(Pow2(a), Pow2(b))
  {
    if a > 0 {
      Pow2Add(a - 1, b);
      MulTwo(Pow2(a - 1), Pow2(b));
    } else {
      MulOne(Pow2(b));
    }
  }

  lemma {:induction false} Pow2Mono(a: nat, b: nat)
    requires a <= b
    ensures Pow2(a) <= Pow2(b)
    ensures a < b ==> 2 * Pow2(a) <= Pow2(b)
    decreases b - a
  {
    if a < b {
      Pow2Mono(a + 1, b);
    }
  }

  lemma {:induction false} EightTimesPow2(n: nat, t: nat)
    ensures 8 * Mul(n, Pow2(t)) == Mul(n, Pow2(t + 3))
  {
    MulTwo(n, Pow2(t));
    MulTwo(n, Pow2(t + 1));
    MulTwo(n, Pow2(t + 2));
  }

  /** One step of long division: a new quotient bit, the divisor being halved. */
  lemma {:induction false} ExactStep(q: nat, r: nat, z: nat) returns (q': nat, r': nat)
    requires r < 2 * z
    ensures q' == (if z <= r then 2 * q + 1 else 2 * q) && r' == if z <= r then r - z else r
    ensures Mul(q', z) + r' == Mul(q, 2 * z) + r && r' < z
  {
    q', r' := if z <= r then 2 * q + 1 else 2 * q, if z <= r then r - z else r;
    MulTwo(q, z);
    MulAdd(2 * q, 1, z);
    MulOne(z);
  }

  /** Euclidean division is determined by its defining equation; the instances for small
      divisors spare the solver an unbounded search. */
  lemma {:induction false} DivModUnique(n: nat, d: nat, q: nat, r: nat)
    requires r < d && n == Mul(q, d) + r
    ensures n / d == q && n % d == r
  {
    var q', r' := n / d, n % d;
    MulIs(q', d);
    assert n == Mul(q', d) + r' && r' < d;
    if q' < q { MulLt(q', q, d); }
    if q < q' { MulLt(q, q', d); }
  }

  lemma {:induction false} DivMod2(n: nat, q: nat, r: nat)
    requires r < 2 && n == 2 * q + r
    ensures n / 2 == q && n % 2 == r
  {
    if n / 2 < q {
    } else if n / 2 > q {
    }
  }

  lemma {:induction false} DivMod4(n: nat, q: nat, r: nat)
    requires r < 4 && n == 4 * q + r
    ensures n / 4 == q && n % 4 == r
  {
    if n / 4 < q {
    } else if n / 4 > q {
    }
  }

  lemma {:induction false} DivMod8(n: nat, q: nat, r: nat)
    requires r < 8 && n == 8 * q + r
    ensures n / 8 == q && n % 8 == r
  {
    if n / 8 < q {
    } else if n / 8 > q {
    }
  }

  lemma {:induction false} MulSwap(a: nat, x: nat, b: nat, y: nat)
    ensures Mul(Mul(a, x), Mul(b, y)) == Mul(Mul(a, b), Mul(x, y))
  {
    MulAssoc(a, x, Mul(b, y));
    MulAssoc(x, b, y);
    MulComm(x, b);
    MulAssoc(b, x, y);
    MulAssoc(a, b, Mul(x, y));
  }
}
