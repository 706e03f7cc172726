/** Fixed-point arithmetic: rescaling of decimals with rounding half away from zero and
    exact overflow detection (Datum.cpp, Expr.cpp). */
module Decimals {
  import opened Basics

  const INT64_MAX: int := 0x7FFF_FFFF_FFFF_FFFF
  const INT64_MIN: int := -0x8000_0000_0000_0000

  predicate IsInt64(v: int) { INT64_MIN <= v <= INT64_MAX }

  datatype Result = Ok(value: int) | Overflow

  function Pow10(n: nat): (p: int)
    ensures p >= 1
  {
    if n == 0 then 1 else 10 * Pow10(n - 1)
  }

  // ---------------------------------------------------------------------------
  // The code
  // ---------------------------------------------------------------------------

  // The unsigned quotient, plus one if the remainder is at least half the divisor.
  function RoundedQuotient(u: nat, pow: int): (q: int)
    requires pow >= 1
  {
    u / pow + (if pow / 2 <= u % pow then 1 else 0)
  }

  /** convert_decimal_value_to_scale_internal: `v * 10^dscale`.  The absolute value of the
      least integer is undefined, so scaling down excludes it. */
  function ConvertScale(v: int, dscale: int): (r: Result)
    requires IsInt64(v) && (dscale < 0 ==> v > INT64_MIN)
  {
    if dscale < 0 then
      if dscale < -19 then Ok(0)
      else Ok(Signed(v < 0, RoundedQuotient(Abs(v), Pow10(-dscale))))
    else if dscale < 19 && IsInt64(v * Pow10(dscale)) then Ok(v * Pow10(dscale))
    else if v == 0 then Ok(0)
    else Overflow
  }

  predicate FitsBytes(v: int, size: nat) {
    match size
    case 1 => -0x80 <= v <= 0x7F
    case 2 => -0x8000 <= v <= 0x7FFF
    case 4 => -0x8000_0000 <= v <= 0x7FFF_FFFF
    case _ => IsInt64(v)
  }

  // safeNarrow; a 64-bit target needs no check.
  function SafeNarrow(v: int, size: nat): Result
    requires IsInt64(v)
  {
    if FitsBytes(v, size) then Ok(v) else Overflow
  }

  /** roundDecimal: a decimal to an integer of `size` bytes. */
  function RoundDecimal(n: int, scale: nat, size: nat): Result
    requires INT64_MIN < n <= INT64_MAX
  {
    if scale == 0 then SafeNarrow(n, size)
    else if scale > 19 then Ok(0)
    else
      QuotientFits(Abs(n), Pow10(scale));
      SafeNarrow(Signed(n < 0, RoundedQuotient(Abs(n), Pow10(scale))), size)
  }

  /** safeScale: an integer to a decimal. */
  function SafeScale(from: int, scale: nat): Result
    requires IsInt64(from)
  {
    if scale < 19 && IsInt64(from * Pow10(scale)) then Ok(from * Pow10(scale))
    else if from == 0 then Ok(0)
    else Overflow
  }

  lemma QuotientFits(u: nat, pow: int)
    requires u <= INT64_MAX && pow >= 2
    ensures 0 <= RoundedQuotient(u, pow) <= INT64_MAX
  {
  }

  // ---------------------------------------------------------------------------
  // Division
  // ---------------------------------------------------------------------------

  lemma DivIs(a: int, p: int, x: int)
    requires p >= 1 && x * p <= a < (x + 1) * p
    ensures a / p == x
  {
    var y := a / p;
    assert y * p <= a < (y + 1) * p;
    if y < x { MulMono(y + 1, x, p); } else if y > x { MulMono(x + 1, y, p); }
  }

  lemma DivBounds(a: int, p: int)
    requires p >= 1
    ensures (a / p) * p <= a < (a / p + 1) * p
  {
  }

  lemma MulAssoc(a: int, b: int, c: int)
    ensures (a * b) * c == a * (b * c)
  {
  }

  lemma DivMono(a: int, b: int, p: int)
    requires a <= b && p >= 1
    ensures a / p <= b / p
  {
    DivBounds(a, p);
    DivBounds(b, p);
    if a / p > b / p { MulMono(b / p + 1, a / p, p); }
  }

  lemma DivShift(a: int, b: int, p: int)
    requires p >= 1
    ensures (a + b * p) / p == a / p + b
  {
    DivBounds(a, p);
    DivIs(a + b * p, p, a / p + b);
  }

  lemma DivDiv(a: int, p: int, q: int)
    requires p >= 1 && q >= 1
    ensures p * q >= 1 && a / p / q == a / (p * q)
  {
    var x, y := a / p, a / p / q;
    MulMono(1, q, p);
    DivBounds(a, p);
    DivBounds(x, q);
    MulMono(y * q, x, p);
    MulMono(x + 1, (y + 1) * q, p);
    MulAssoc(y, q, p);
    MulAssoc(y + 1, q, p);
    assert q * p == p * q;
    DivIs(a, p * q, y);
  }

  // ---------------------------------------------------------------------------
  // Powers of ten
  // ---------------------------------------------------------------------------

  lemma Pow10Even(n: nat)
    requires n >= 1
    ensures Pow10(n) % 2 == 0 && Pow10(n) >= 10
  {
    assert Pow10(n) == 2 * (5 * Pow10(n - 1));
  }

  lemma {:induction false} Pow10Add(a: nat, b: nat)
    ensures Pow10(a + b) == Pow10(a) * Pow10(b)
  {
    if a > 0 {
      Pow10Add(a - 1, b);
      MulAssoc(10, Pow10(a - 1), Pow10(b));
    }
  }

  lemma {:induction false} Pow10Mono(a: nat, b: nat)
    requires a <= b
    ensures Pow10(a) <= Pow10(b)
  {
    if a < b { Pow10Mono(a, b - 1); }
  }

  lemma Pow10Values()
    ensures Pow10(17) == 100_000_000_000_000_000
    ensures Pow10(18) == 1_000_000_000_000_000_000
    ensures Pow10(19) == 10_000_000_000_000_000_000
    ensures Pow10(20) == 100_000_000_000_000_000_000
  {
    assert Pow10(5) == 100_000;
    Pow10Add(5, 5);
    Pow10Add(10, 5);
    Pow10Add(15, 2);
    assert Pow10(2) == 100;
  }

  // ---------------------------------------------------------------------------
  // Rounding half away from zero
  // ---------------------------------------------------------------------------

  /** `r` is a nearest integer to `v / p`, and the one away from zero on a tie. */
  predicate RoundsHalfAway(v: int, p: int, r: int) {
    2 * Abs(v - r * p) <= p && (2 * Abs(v - r * p) == p ==> Abs(r * p) > Abs(v))
  }

  lemma RoundedQuotientIs(u: nat, p: int)
    requires p >= 2 && p % 2 == 0
    ensures RoundedQuotient(u, p) == (u + p / 2) / p
    ensures RoundsHalfAway(u, p, RoundedQuotient(u, p))
  {
    var q, rem := u / p, u % p;
    assert u == q * p + rem;
    if p / 2 <= rem {
      assert (q + 1) * p == q * p + p;
      assert (q + 2) * p == q * p + 2 * p;
      DivIs(u + p / 2, p, q + 1);
    } else {
      assert (q + 1) * p == q * p + p;
      DivIs(u + p / 2, p, q);
    }
  }

  lemma NegatedRounding(v: int, p: int, r: int)
    requires RoundsHalfAway(v, p, r)
    ensures RoundsHalfAway(-v, p, -r)
  {
  }

  /** Rounding is determined by its specification. */
  lemma {:induction false} RoundingUnique(v: int, p: int, r: int, s: int)
    requires p >= 1 && RoundsHalfAway(v, p, r) && RoundsHalfAway(v, p, s)
    ensures r == s
  {
    if r < s {
      RoundingOrdered(v, p, r, s);
    } else if s < r {
      RoundingOrdered(v, p, s, r);
    }
  }

  lemma RoundingOrdered(v: int, p: int, r: int, s: int)
    requires p >= 1 && RoundsHalfAway(v, p, r) && RoundsHalfAway(v, p, s)
    ensures r >= s
  {
    if r < s {
      MulMono(r + 1, s, p);
      assert (r + 1) * p == r * p + p;
      // both are ties, one on each side of v
      assert s * p == r * p + p && 2 * (v - r * p) == p;
      if v >= 0 {
        if r < 0 { MulMono(r, -1, p); } else { MulMono(0, r, p); }
      } else {
        if s > 0 { MulMono(1, s, p); } else { MulMono(s, 0, p); }
      }
      assert false;
    }
  }

  /** Scaling down rounds half away from zero, for every scale difference. */
  lemma {:induction false} ScaleDownRounds(v: int, d: int)
    requires INT64_MIN < v <= INT64_MAX && d >= 1
    ensures ConvertScale(v, -d).Ok?
    ensures RoundsHalfAway(v, Pow10(d), ConvertScale(v, -d).value)
  {
    if d > 19 {
      Pow10Mono(20, d);
      Pow10Values();
      assert 0 * Pow10(d) == 0;
    } else {
      Pow10Even(d);
      RoundedQuotientIs(Abs(v), Pow10(d));
      if v < 0 { NegatedRounding(-v, Pow10(d), RoundedQuotient(-v, Pow10(d))); }
    }
  }

  /** Scaling up is exact, or reports an overflow exactly when the product does not fit. */
  lemma {:induction false} ScaleUpExact(v: int, d: nat)
    requires IsInt64(v)
    ensures ConvertScale(v, d) == if IsInt64(v * Pow10(d)) then Ok(v * Pow10(d)) else Overflow
  {
    if d >= 19 && v != 0 {
      Pow10Mono(19, d);
      Pow10Values();
      if v > 0 { MulMono(1, v, Pow10(d)); } else { MulMono(v, -1, Pow10(d)); }
    }
  }

  /** Rescaling is monotone, in both directions. */
  lemma {:induction false} ScaleMonotone(v: int, w: int, dscale: int)
    requires INT64_MIN < v <= w <= INT64_MAX
    requires ConvertScale(v, dscale).Ok? && ConvertScale(w, dscale).Ok?
    ensures ConvertScale(v, dscale).value <= ConvertScale(w, dscale).value
  {
    if dscale >= 0 {
      MulMono(v, w, Pow10(dscale));
    } else if dscale >= -19 {
      var p := Pow10(-dscale);
      Pow10Even(-dscale);
      RoundedQuotientIs(Abs(v), p);
      RoundedQuotientIs(Abs(w), p);
      if 0 <= v {
        DivMono(v + p / 2, w + p / 2, p);
      } else if w < 0 {
        DivMono(-w + p / 2, -v + p / 2, p);
      } else {
        DivMono(p / 2, -v + p / 2, p);
        DivMono(p / 2, w + p / 2, p);
        DivIs(p / 2, p, 0);
      }
    }
  }

  /** What was scaled up comes back. */
  lemma {:induction false} UpThenDown(v: int, d: int)
    requires d >= 0 && IsInt64(v) && ConvertScale(v, d).Ok? && ConvertScale(v, d).value > INT64_MIN
    ensures IsInt64(ConvertScale(v, d).value)
    ensures ConvertScale(ConvertScale(v, d).value, -d) == Ok(v)
  {
    ScaleUpExact(v, d);
    if d > 0 {
      ScaledValueComesBack(v, d);
    } else {
      ScaleUpExact(v, 0);
    }
  }

  lemma ScaledValueComesBack(v: int, d: int)
    requires d >= 1 && INT64_MIN < v * Pow10(d) <= INT64_MAX
    ensures ConvertScale(v * Pow10(d), -d) == Ok(v)
  {
    var p := Pow10(d);
    var w := v * p;
    ScaleDownRounds(w, d);
    assert RoundsHalfAway(w, p, v);
    RoundingUnique(w, p, v, ConvertScale(w, -d).value);
  }

  /** Rounding in two steps differs from rounding at once by at most one unit, and never
      toward zero; it differs exactly when the value falls short of a tie of the second
      step by no more than half a unit of the first. */
  lemma {:induction false} TwoStepRounding(u: nat, p: int, q: int)
    requires p >= 2 && p % 2 == 0 && q >= 2 && q % 2 == 0
    ensures p * q >= 2 && (p * q) % 2 == 0
    ensures var one, two := RoundedQuotient(u, p * q), RoundedQuotient(RoundedQuotient(u, p), q);
            && 0 <= one <= two <= one + 1
            && (one == two <==> (u + p * q / 2) % (p * q) + p / 2 < p * q)
  {
    var h := q / 2;
    var m, n := p * h, p * q;
    TwoStepFloors(u, p, h, q, m, n);
    RoundedQuotientIs(u, p);
    RoundedQuotientIs(u, n);
    RoundedQuotientIs((u + p / 2) / p, q);
  }

  // The same with the rounding written as a floor.
  lemma TwoStepFloors(u: nat, p: int, h: int, q: int, m: int, n: int)
    requires p >= 2 && h >= 1 && q == 2 * h && m == p * h && n == p * q && 0 <= p / 2 <= p
    ensures n >= 2 && n % 2 == 0 && n / 2 == m && (u + p / 2) / p >= 0
    ensures 0 <= (u + m) / n <= ((u + p / 2) / p + h) / q <= (u + m) / n + 1
    ensures (u + m) / n == ((u + p / 2) / p + h) / q <==> (u + m) % n + p / 2 < n
  {
    EvenProduct(p, h, q, m, n);
    OneFloor(u + p / 2, p, h, q, m, n);
    DivMono(0, u + p / 2, p);
    DivMono(0, u + m, n);
    FloorNear(u + m, p / 2, n);
  }

  lemma OneFloor(a: int, p: int, h: int, q: int, m: int, n: int)
    requires p >= 1 && q >= 1 && m == p * h && n == p * q && n >= 1
    ensures (a / p + h) / q == (a + m) / n
  {
    NestedFloor(a, p, h, q);
  }

  lemma EvenProduct(p: int, h: int, q: int, m: int, n: int)
    requires p >= 2 && h >= 1 && q == 2 * h && m == p * h && n == p * q
    ensures n == 2 * m && n >= 2 * p && n % 2 == 0 && n / 2 == m
  {
  }

  lemma NestedFloor(a: int, p: int, h: int, q: int)
    requires p >= 1 && q >= 1
    ensures p * q >= 1 && (a / p + h) / q == (a + p * h) / (p * q)
  {
    assert h * p == p * h;
    DivShift(a, h, p);
    DivDiv(a + p * h, p, q);
  }

  lemma FloorNear(a: int, e: int, n: int)
    requires n >= 1 && 0 <= e <= n
    ensures a / n <= (a + e) / n <= a / n + 1
    ensures a / n == (a + e) / n <==> a % n + e < n
  {
    var x, r := a / n, a % n;
    assert a == x * n + r && (x + 1) * n == x * n + n && (x + 2) * n == x * n + 2 * n;
    DivIs(a + e, n, if r + e < n then x else x + 1);
  }

  // The quotient formula also describes the scale differences past the table of powers.
  lemma {:induction false} ScaleDownIs(v: int, d: int)
    requires INT64_MIN < v <= INT64_MAX && d >= 1
    ensures ConvertScale(v, -d) == Ok(Signed(v < 0, RoundedQuotient(Abs(v), Pow10(d))))
  {
    if d > 19 {
      Pow10Mono(20, d);
      Pow10Values();
      SmallRoundsToZero(Abs(v), Pow10(d));
    }
  }

  lemma SmallRoundsToZero(u: nat, p: int)
    requires p >= 2 && 2 * u + 2 <= p
    ensures RoundedQuotient(u, p) == 0
  {
  }

  /** The same for values: two rescalings down, against one. */
  lemma {:induction false} TwoStepScaling(v: int, a: int, b: int, one: int, mid: int, two: int)
    requires INT64_MIN < v <= INT64_MAX && 1 <= a && 1 <= b
    requires ConvertScale(v, -(a + b)) == Ok(one) && ConvertScale(v, -a) == Ok(mid)
    requires INT64_MIN < mid <= INT64_MAX && ConvertScale(mid, -b) == Ok(two)
    ensures Abs(one) <= Abs(two) <= Abs(one) + 1
    ensures one == two <==> (Abs(v) + Pow10(a + b) / 2) % Pow10(a + b) + Pow10(a) / 2 < Pow10(a + b)
    ensures (v >= 0 ==> two >= 0) && (v <= 0 ==> two <= 0)
  {
    TwoStepMagnitudes(Abs(v), a, b);
    ScaleDownIs(v, a + b);
    ScaleDownIs(v, a);
    ScaleDownIs(mid, b);
    var r := RoundedQuotient(Abs(v), Pow10(a));
    assert mid == Signed(v < 0, r) && Abs(mid) == r;
    var s := RoundedQuotient(r, Pow10(b));
    assert two == Signed(mid < 0, s);
    assert s >= 0 && (mid == 0 ==> s == 0) && (v == 0 ==> r == 0);
  }

  lemma TwoStepMagnitudes(u: nat, a: int, b: int)
    requires u <= INT64_MAX && 1 <= a && 1 <= b
    ensures 0 <= RoundedQuotient(u, Pow10(a)) <= INT64_MAX
    ensures var one, two := RoundedQuotient(u, Pow10(a + b)), RoundedQuotient(RoundedQuotient(u, Pow10(a)), Pow10(b));
            && 0 <= one <= two <= one + 1
            && (one == two <==> (u + Pow10(a + b) / 2) % Pow10(a + b) + Pow10(a) / 2 < Pow10(a + b))
    ensures RoundedQuotient(0, Pow10(a)) == 0 && RoundedQuotient(0, Pow10(b)) == 0
  {
    Pow10Even(a);
    Pow10Even(b);
    Pow10Add(a, b);
    QuotientFits(u, Pow10(a));
    TwoStepRounding(u, Pow10(a), Pow10(b));
    ZeroRoundsToZero(Pow10(a));
    ZeroRoundsToZero(Pow10(b));
  }

  lemma ZeroRoundsToZero(p: int)
    requires p >= 2
    ensures RoundedQuotient(0, p) == 0
  {
  }

  // ---------------------------------------------------------------------------
  // Casts of constants
  // ---------------------------------------------------------------------------

  datatype Type = Integer(size: nat) | Decimal(scale: nat)

  /** The integer and decimal arms of Constant::castNumber. */
  function CastNumber(v: int, from: Type, to: Type): Result
    requires INT64_MIN < v <= INT64_MAX
  {
    match (from, to)
    case (Integer(_), Integer(size)) => SafeNarrow(v, size)
    case (Integer(_), Decimal(scale)) => SafeScale(v, scale)
    case (Decimal(scale), Integer(size)) => RoundDecimal(v, scale, size)
    case (Decimal(s), Decimal(t)) => ConvertScale(v, t - s)
  }

  function ScaleOf(t: Type): nat { if t.Decimal? then t.scale else 0 }

  /** All casts agree with one rescaling followed by a range check of the target: the scale
      of an integer is zero. */
  lemma {:induction false} CastIsRescaling(v: int, from: Type, to: Type)
    requires INT64_MIN < v <= INT64_MAX
    ensures CastNumber(v, from, to) ==
      var r := ConvertScale(v, ScaleOf(to) - ScaleOf(from));
      if r.Ok? && to.Integer? && !FitsBytes(r.value, to.size) then Overflow else r
  {
  }

  /** A cast to a decimal and back gives the integer again. */
  lemma {:induction false} CastRoundTrip(v: int, size: nat, scale: nat)
    requires INT64_MIN < v <= INT64_MAX && FitsBytes(v, size)
    requires CastNumber(v, Integer(size), Decimal(scale)).Ok?
    requires CastNumber(v, Integer(size), Decimal(scale)).value > INT64_MIN
    ensures var d := CastNumber(v, Integer(size), Decimal(scale)).value;
            IsInt64(d) && CastNumber(d, Decimal(scale), Integer(size)) == Ok(v)
  {
    CastIsRescaling(v, Integer(size), Decimal(scale));
    UpThenDown(v, scale);
    CastIsRescaling(ConvertScale(v, scale).value, Decimal(scale), Integer(size));
  }
}
