/**
 * compare.c: ar_ifcmp32 and ar_ifcmp64.
 */
module Compare {
  import opened Powers
  import opened Limbs
  import opened Ieee754
  import opened Numbers
  import opened Addition

  /** The outcome that section 5.7 asks for: unordered, equal, less or greater. An infinity
      has a value beyond every finite one, and both zeros have the value 0. */
  function Ordering(f: Format, a: Fp, b: Fp): set<Flag> {
    if IsNaN(f, a) || IsNaN(f, b) then {Undefined}
    else if Value(f, a) == Value(f, b) then {ZeroResult}
    else if Value(f, a) < Value(f, b) then {Negative}
    else {}
  }

  /** ar_ifcmp32, ar_ifcmp64: the order of the represented numbers. */
  function CompareNumbers(a: Number, b: Number): (res: set<Flag>)
    reads a, b
    requires a.Valid() && b.Valid() && a.f == b.f
    ensures res == Ordering(a.f, a.Abs(), b.Abs())
  {
    assert a.C() < a.f.One() && b.C() < b.f.One() by { a.CoeffBound(); b.CoeffBound(); }
    SignedOrder(a.f, a.Abs(), b.Abs());
    RowOrder(a.f.top, a.coeff, b.coeff);
    if a.IsNaNNumber() || b.IsNaNNumber() then {Undefined}
    else if a.expo == 0 && a.IsZeroCoeff() && b.expo == 0 && b.IsZeroCoeff() then {ZeroResult}
    else if a.sign != b.sign then if a.sign then {Negative} else {}
    else if a.expo != b.expo then
      if a.expo < b.expo then if a.sign then {} else {Negative}
      else if a.sign then {Negative} else {}
    else
      var c := CompareRows(a.coeff, b.coeff, 0);
      if c < 0 then if a.sign then {} else {Negative}
      else if c > 0 then if a.sign then {Negative} else {}
      else {ZeroResult}
  }

  /** Sign, exponent and coefficient, in this order of importance, order the values. */
  lemma {:induction false} SignedOrder(f: Format, a: Fp, b: Fp)
    requires a.coeff < f.One() && b.coeff < f.One()
    ensures var below := a.expo < b.expo || (a.expo == b.expo && a.coeff < b.coeff);
      var same := a.expo == b.expo && a.coeff == b.coeff;
      var zeros := Ieee754.IsZero(a) && Ieee754.IsZero(b);
      && (Value(f, a) == Value(f, b) <==> zeros || (a.sign == b.sign && same))
      && (Value(f, a) < Value(f, b) <==>
            !zeros && if a.sign != b.sign then a.sign else if a.sign then !below && !same else below)
  {
    MagnitudeOrder(f, a, b);
    ZeroUnits(f, a);
    ZeroUnits(f, b);
  }

  // ---- Gradual underflow ----

  /** Only the exact zero rounds to zero. */
  lemma {:induction false} ZeroIsExact(f: Format, x: Fp, n: nat)
    requires f.Valid() && NearestEven(f, x, n, 1)
    ensures Ieee754.IsZero(x) <==> n == 0
  {
    var zero, least := Fp(false, 0, 0), Fp(false, 0, 1);
    OneIsEven(f);
    Pow2Mono(0, f.P() - 3);
    MulOne(1);
    MulOne(0);
    MulOne(Scale(0));
    ZeroUnits(f, x);
    MulOne(Units(f, x));
    assert Finite(f, least) && (x.expo <= f.MaxExpo() ==> Closer(f, x, least, n, 1));
    if n == 0 {
      PackNearest(f, false, 0, 1, 0, 1);
      NearestUnique(f, x, zero, 0, 1);
    }
  }

  /** a - b is zero exactly if a and b compare equal, and otherwise has the sign of the
      comparison: denormalized results make this true without exception. */
  lemma {:induction false} GradualUnderflow(f: Format, a: Fp, b: Fp)
    requires f.Valid() && Finite(f, a) && Finite(f, b)
    ensures var (x, res) := SubSpec(f, Nearest, a, b);
      && (ZeroResult in res <==> Ordering(f, a, b) == {ZeroResult})
      && (ZeroResult !in res ==> (Negative in res <==> Ordering(f, a, b) == {Negative}))
  {
    var (x, res) := SubSpec(f, Nearest, a, b);
    SubDelivers(f, Nearest, a, b);
    ZeroIsExact(f, x, Abs(Value(f, a) - Value(f, b)));
    assert {ZeroResult} != {Negative} by { assert ZeroResult !in {Negative}; }
    assert {ZeroResult} != {} && {Negative} != {};
  }
}
