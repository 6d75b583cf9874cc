/** Overflow-checked conversion between units of size, in 64-bit arithmetic. */
module ByteUnits {
  import opened Results

  const LONG_MAX: int := 0x7fff_ffff_ffff_ffff
  const LONG_MIN: int := -0x8000_0000_0000_0000

  type Long = n: int | LONG_MIN <= n <= LONG_MAX

  datatype ByteUnit = BYTE | KiB | MiB | GiB | TiB | PiB
  {
    function Multiplier(): (m: Long)
      ensures m > 0
    {
      match this
      case BYTE => 1
      case KiB => 0x400
      case MiB => 0x10_0000
      case GiB => 0x4000_0000
      case TiB => 0x100_0000_0000
      case PiB => 0x4_0000_0000_0000
    }
  }

  /** The 64-bit product or sum that n overflows to. */
  function Wrap64(n: int): (r: Long)
    ensures LONG_MIN <= n <= LONG_MAX ==> r == n
  {
    (n - LONG_MIN) % 0x1_0000_0000_0000_0000 + LONG_MIN
  }

  /** Division that rounds towards zero. */
  function Quotient(n: int, d: int): int
    requires d > 0
  {
    if n >= 0 then n / d else -(-n / d)
  }

  /** `u.convertTo(d, v)`; the only exception is the one for a result out of range. */
  function ConvertTo(u: ByteUnit, d: Long, v: ByteUnit): Option<Long> {
    if u.Multiplier() > v.Multiplier() then
      var ratio := Quotient(u.Multiplier(), v.Multiplier());
      RatioIsExact(u, v);
      if Quotient(LONG_MAX, ratio) < d then None else Some(Wrap64(d * ratio))
    else
      RatioIsExact(v, u);
      Some(Quotient(d, Quotient(v.Multiplier(), u.Multiplier())))
  }

  /** `u.convertFrom(d, v)` */
  function ConvertFrom(u: ByteUnit, d: Long, v: ByteUnit): Option<Long> {
    ConvertTo(v, d, u)
  }

  /** A larger unit is a whole number of smaller ones. */
  lemma RatioIsExact(u: ByteUnit, v: ByteUnit)
    requires u.Multiplier() >= v.Multiplier()
    ensures var ratio := Quotient(u.Multiplier(), v.Multiplier());
      ratio > 0 && ratio * v.Multiplier() == u.Multiplier()
  {
  }

  // ----- Quotients

  lemma Spread(x: int, y: int, k: int)
    ensures (x + y) * k == x * k + y * k
    ensures (x - y) * k == x * k - y * k
  {
  }

  lemma Regroup(x: int, y: int, k: int)
    ensures x * y * k == x * (y * k)
  {
  }

  lemma Scale(x: int, y: int, k: int)
    requires k > 0
    ensures x < y <==> x * k < y * k
  {
    Spread(y, x, k);
    assert (y - x) * k > 0 <==> y - x > 0;
  }

  lemma Division(n: int, d: int)
    requires d > 0
    ensures n == n / d * d + n % d && 0 <= n % d < d
  {
  }

  /** Quotient and remainder of a division are unique. */
  lemma DivisionIsUnique(n: int, d: int, q: int, r: int)
    requires n == q * d + r && 0 <= r < d
    ensures n / d == q
  {
    Division(n, d);
    Spread(n / d, q, d);
    var x := n / d - q;
    assert -d < x * d < d;
    Spread(x, 1, d);
    Scale(x, 1, d);
    Scale(-1, x, d);
  }

  /** Scaling number and divisor alike leaves the quotient. */
  lemma QuotientOfScaled(n: int, d: int, k: int)
    requires d > 0 && k > 0
    ensures d * k > 0 && n * k / (d * k) == n / d
  {
    var q, r := n / d, n % d;
    Division(n, d);
    Spread(q * d, r, k);
    Regroup(q, d, k);
    Scale(0, d, k);
    Scale(r, d, k);
    Scale(r, 0, k);
    DivisionIsUnique(n * k, d * k, q, r * k);
  }

  /** Rounding twice is rounding once. */
  lemma QuotientOfQuotient(n: int, a: int, b: int)
    requires a > 0 && b > 0
    ensures b * a > 0 && n / a / b == n / (b * a)
  {
    var p, r := n / a, n % a;
    var q, t := p / b, p % b;
    Division(n, a);
    Division(p, b);
    Spread(q * b, t, a);
    Regroup(q, b, a);
    Scale(0, b, a);
    Scale(t, 0, a);
    Scale(b - 1, t, a);
    Spread(b, 1, a);
    DivisionIsUnique(n, b * a, q, t * a + r);
  }

  // ----- What conversion means

  /** Whether d units u, as a number of bytes, are more than the largest number of units v. */
  predicate TooMany(u: ByteUnit, d: Long, v: ByteUnit) {
    d * u.Multiplier() > LONG_MAX * v.Multiplier()
  }

  /** Whether d units u are less than the smallest number of units v. */
  predicate TooFew(u: ByteUnit, d: Long, v: ByteUnit) {
    d * u.Multiplier() < LONG_MIN * v.Multiplier()
  }

  /**
    Conversion throws exactly when the true value exceeds the largest 64-bit number, and gives the
    true value, rounded towards zero, exactly when that is not below the smallest. A value below it
    is not refused: it wraps around.
   */
  lemma ConversionIsExact(u: ByteUnit, d: Long, v: ByteUnit)
    ensures ConvertTo(u, d, v).None? <==> TooMany(u, d, v)
    ensures ConvertTo(u, d, v) == Some(Quotient(d * u.Multiplier(), v.Multiplier())) <==>
      !TooMany(u, d, v) && !TooFew(u, d, v)
  {
    var mu, mv := u.Multiplier(), v.Multiplier();
    if mu > mv {
      RatioIsExact(u, v);
      Refined(d, mv, Quotient(mu, mv));
    } else {
      RatioIsExact(v, u);
      Coarsened(d, mu, Quotient(mv, mu));
    }
  }

  /** The finer direction: the guard compares with a rounded quotient, and still is exact. */
  lemma Refined(d: Long, m: int, ratio: int)
    requires m > 0 && ratio > 0
    ensures Quotient(LONG_MAX, ratio) < d <==> d * (ratio * m) > LONG_MAX * m
    ensures Quotient(d * (ratio * m), m) == d * ratio
    ensures d * (ratio * m) < LONG_MIN * m <==> d * ratio < LONG_MIN
  {
    Regroup(d, ratio, m);
    Scale(LONG_MAX, d * ratio, m);
    Scale(d * ratio, LONG_MIN, m);
    GuardIsExact(d, ratio);
    QuotientOfProduct(d * ratio, m);
  }

  lemma GuardIsExact(d: Long, ratio: int)
    requires ratio > 0
    ensures LONG_MAX / ratio < d <==> LONG_MAX < d * ratio
  {
    QuotientBelow(LONG_MAX, ratio, d);
  }

  lemma QuotientBelow(n: int, d: int, x: int)
    requires d > 0
    ensures n / d < x <==> n < x * d
  {
    var q := n / d;
    Division(n, d);
    Spread(q, 1, d);
    Scale(x, q + 1, d);
    Scale(q, x, d);
  }

  lemma QuotientOfProduct(n: int, d: int)
    requires d > 0
    ensures Quotient(n * d, d) == n
  {
    Scale(n, 0, d);
    DivisionIsUnique(n * d, d, n, 0);
    Spread(0, n, d);
    DivisionIsUnique((0 - n) * d, d, 0 - n, 0);
  }

  /** The coarser direction: neither side can be out of range. */
  lemma Coarsened(d: Long, m: int, ratio: int)
    requires m > 0 && ratio > 0
    ensures LONG_MIN * (ratio * m) <= d * m <= LONG_MAX * (ratio * m)
    ensures Quotient(d * m, ratio * m) == Quotient(d, ratio)
  {
    Scale(ratio, 1, m);
    Scale(LONG_MAX, d, m);
    Scale(d, LONG_MIN, m);
    Scale(d, 0, m);
    Spread(0, d, m);
    QuotientOfScaled(d, ratio, m);
    QuotientOfScaled(0 - d, ratio, m);
  }

  /**
    A conversion to a finer unit and back gives the number back exactly when it did not wrap
    around, as it never does for a number that is not negative.
   */
  lemma FinerAndBack(u: ByteUnit, d: Long, v: ByteUnit)
    requires u.Multiplier() >= v.Multiplier()
    requires ConvertTo(u, d, v).Some?
    ensures ConvertFrom(u, ConvertTo(u, d, v).value, v) == Some(d) <==> !TooFew(u, d, v)
    ensures d >= 0 ==> !TooFew(u, d, v)
  {
    var ratio := Quotient(u.Multiplier(), v.Multiplier());
    RatioIsExact(u, v);
    Refined(d, v.Multiplier(), ratio);
    QuotientOfProduct(d, ratio);
    if TooFew(u, d, v) {
      Wraps(d, ratio, ConvertTo(u, d, v).value);
    }
  }

  /** Dividing a number in range never leads back to one whose product is below the range. */
  lemma Wraps(d: Long, ratio: int, x: Long)
    requires ratio > 0 && d * ratio < LONG_MIN
    ensures Quotient(x, ratio) != d
  {
    Scale(d, 0, ratio);
    if x < 0 {
      Spread(0, d, ratio);
      QuotientBelow(0 - x, ratio, 0 - d);
    } else {
      QuotientSign(x, ratio);
    }
  }

  /** Two conversions to coarser units are one. */
  lemma CoarserTwice(u: ByteUnit, d: Long, v: ByteUnit, w: ByteUnit)
    requires u.Multiplier() <= v.Multiplier() <= w.Multiplier()
    ensures ConvertTo(u, d, v).Some?
    ensures ConvertTo(v, ConvertTo(u, d, v).value, w) == ConvertTo(u, d, w)
  {
    var a, b := Quotient(v.Multiplier(), u.Multiplier()), Quotient(w.Multiplier(), v.Multiplier());
    RatiosMultiply(u, v, w);
    RoundedTwice(d, a, b);
  }

  lemma RoundedTwice(d: int, a: int, b: int)
    requires a > 0 && b > 0
    ensures b * a > 0 && Quotient(Quotient(d, a), b) == Quotient(d, b * a)
  {
    QuotientOfQuotient(d, a, b);
    QuotientOfQuotient(0 - d, a, b);
    QuotientSign(d, a);
    QuotientSign(0 - d, a);
  }

  lemma QuotientSign(n: int, d: int)
    requires d > 0
    ensures n >= 0 ==> n / d >= 0
  {
  }

  lemma RatiosMultiply(u: ByteUnit, v: ByteUnit, w: ByteUnit)
    requires u.Multiplier() <= v.Multiplier() <= w.Multiplier()
    ensures var a, b := Quotient(v.Multiplier(), u.Multiplier()), Quotient(w.Multiplier(), v.Multiplier());
      a > 0 && b > 0 && b * a == Quotient(w.Multiplier(), u.Multiplier())
  {
  }

  /** Converting in two steps; an exception in the first is one of both. */
  function ConvertVia(u: ByteUnit, d: Long, v: ByteUnit, w: ByteUnit): Option<Long> {
    var first := ConvertTo(u, d, v);
    if first.None? then None else ConvertTo(v, first.value, w)
  }

  /**
    Going through a finer unit, unless the first step wraps around, makes no difference if and only
    if the first step is not refused or the direct conversion is refused as well.
   */
  lemma ThroughFiner(u: ByteUnit, d: Long, v: ByteUnit, w: ByteUnit)
    requires u.Multiplier() >= v.Multiplier() && !TooFew(u, d, v)
    ensures ConvertVia(u, d, v, w) == ConvertTo(u, d, w) <==> !TooMany(u, d, v) || TooMany(u, d, w)
  {
    ConversionIsExact(u, d, v);
    ConversionIsExact(u, d, w);
    if !TooMany(u, d, v) {
      RefinedIsProduct(u, d, v);
      SameBytes(u, d, v, ConvertTo(u, d, v).value, w);
    }
  }

  /** Equal numbers of bytes convert to equal numbers, also where both wrap around. */
  lemma SameBytes(u: ByteUnit, d: Long, v: ByteUnit, x: Long, w: ByteUnit)
    requires u.Multiplier() >= v.Multiplier() && x * v.Multiplier() == d * u.Multiplier()
    ensures ConvertTo(v, x, w) == ConvertTo(u, d, w)
  {
    ConversionIsExact(v, x, w);
    ConversionIsExact(u, d, w);
    if TooFew(u, d, w) {
      WrapsAlike(u, d, v, x, w);
    }
  }

  lemma WrapsAlike(u: ByteUnit, d: Long, v: ByteUnit, x: Long, w: ByteUnit)
    requires u.Multiplier() >= v.Multiplier() && x * v.Multiplier() == d * u.Multiplier()
    requires TooFew(u, d, w)
    ensures ConvertTo(v, x, w) == ConvertTo(u, d, w)
  {
    WrappedProduct(v, x, w);
    WrappedProduct(u, d, w);
  }

  /** A product that is too small is that of a conversion to a finer unit, and wraps around. */
  lemma WrappedProduct(u: ByteUnit, d: Long, w: ByteUnit)
    requires TooFew(u, d, w)
    ensures ConvertTo(u, d, w) == Some(Wrap64(Quotient(d * u.Multiplier(), w.Multiplier())))
  {
    if u.Multiplier() > w.Multiplier() {
      var ratio := Quotient(u.Multiplier(), w.Multiplier());
      RatioIsExact(u, w);
      Refined(d, w.Multiplier(), ratio);
      Scale(d, 0, u.Multiplier());
      Scale(d, LONG_MAX, ratio);
      ConversionIsExact(u, d, w);
      assert LONG_MAX * w.Multiplier() > LONG_MIN * w.Multiplier();
    } else {
      var ratio := Quotient(w.Multiplier(), u.Multiplier());
      RatioIsExact(w, u);
      Coarsened(d, u.Multiplier(), ratio);
    }
  }

  /**
    Where the first step wraps around and the second does not go back to a coarser unit, the two ways
    agree if and only if the second step is not refused.
   */
  lemma ThroughWrapped(u: ByteUnit, d: Long, v: ByteUnit, w: ByteUnit)
    requires u.Multiplier() >= v.Multiplier() >= w.Multiplier() && TooFew(u, d, v)
    ensures ConvertTo(u, d, v).Some?
    ensures ConvertVia(u, d, v, w) == ConvertTo(u, d, w) <==> !TooMany(v, ConvertTo(u, d, v).value, w)
  {
    var a, b := Quotient(u.Multiplier(), v.Multiplier()), Quotient(v.Multiplier(), w.Multiplier());
    RatiosMultiply(w, v, u);
    FinerWraps(u, d, v);
    var x := ConvertTo(u, d, v).value;
    ConversionIsExact(v, x, w);
    TooFewBelow(u, d, v, w);
    FinerWraps(u, d, w);
    if !TooMany(v, x, w) {
      FinerIsProduct(v, x, w);
      WrapOfProduct(d * a, b);
      Regroup(d, a, b);
    }
  }

  /**
    Where the first step wraps around and the second goes back to a coarser unit, the two ways agree
    if and only if the direct conversion is to a finer unit too, and its result could be converted to
    the unit between without wrapping around or being refused.
   */
  lemma ThroughWrappedBack(u: ByteUnit, d: Long, v: ByteUnit, w: ByteUnit)
    requires u.Multiplier() >= v.Multiplier() && w.Multiplier() > v.Multiplier() && TooFew(u, d, v)
    ensures ConvertTo(u, d, w).Some?
    ensures ConvertVia(u, d, v, w) == ConvertTo(u, d, w) <==>
      && u.Multiplier() > w.Multiplier()
      && !TooMany(w, ConvertTo(u, d, w).value, v) && !TooFew(w, ConvertTo(u, d, w).value, v)
  {
    FinerWraps(u, d, v);
    if u.Multiplier() > w.Multiplier() {
      BackToBetween(u, d, v, w);
    } else {
      BackToCoarser(u, d, v, w);
    }
  }

  lemma BackToBetween(u: ByteUnit, d: Long, v: ByteUnit, w: ByteUnit)
    requires u.Multiplier() > w.Multiplier() > v.Multiplier() && TooFew(u, d, v)
    ensures ConvertTo(u, d, w).Some?
    ensures ConvertVia(u, d, v, w) == ConvertTo(u, d, w) <==>
      !TooMany(w, ConvertTo(u, d, w).value, v) && !TooFew(w, ConvertTo(u, d, w).value, v)
  {
    var b, c := Quotient(w.Multiplier(), v.Multiplier()), Quotient(u.Multiplier(), w.Multiplier());
    RatiosMultiply(v, w, u);
    RatioIsExact(w, v);
    FinerWraps(u, d, v);
    ConversionIsExact(u, d, w);
    FinerIsProduct(u, d, w);
    var y := ConvertTo(u, d, w).value;
    Regroup(d, c, b);
    WrapOfProduct(d * c, b);
    InRange(y, b, v.Multiplier());
    QuotientOfWrapped(y, b);
  }

  lemma BackToCoarser(u: ByteUnit, d: Long, v: ByteUnit, w: ByteUnit)
    requires w.Multiplier() >= u.Multiplier() >= v.Multiplier() && w.Multiplier() > v.Multiplier() && TooFew(u, d, v)
    ensures ConvertTo(u, d, w).Some? && ConvertVia(u, d, v, w) != ConvertTo(u, d, w)
  {
    var a, c := Quotient(u.Multiplier(), v.Multiplier()), Quotient(w.Multiplier(), u.Multiplier());
    RatiosMultiply(v, u, w);
    RatioIsExact(u, v);
    RatioIsExact(w, u);
    FinerWraps(u, d, v);
    InRange(d, a, v.Multiplier());
    Coarsened(d, a, c);
    FarApart(d * a, c * a);
  }

  lemma FarApart(n: int, d: int)
    requires n < LONG_MIN && 0 < d <= 0x4_0000_0000_0000
    ensures Quotient(Wrap64(n), d) != Quotient(n, d)
  {
    Nearby(Wrap64(n), d);
    Nearby(n, d);
  }

  lemma InRange(y: int, ratio: int, m: int)
    requires ratio > 0 && m > 0
    ensures y * (ratio * m) > LONG_MAX * m <==> y * ratio > LONG_MAX
    ensures y * (ratio * m) < LONG_MIN * m <==> y * ratio < LONG_MIN
  {
    Regroup(y, ratio, m);
    Scale(LONG_MAX, y * ratio, m);
    Scale(y * ratio, LONG_MIN, m);
  }

  /** Dividing undoes multiplying exactly where the product does not wrap around. */
  lemma QuotientOfWrapped(y: Long, ratio: int)
    requires 0 < ratio <= 0x4_0000_0000_0000
    ensures Quotient(Wrap64(y * ratio), ratio) == y <==> LONG_MIN <= y * ratio <= LONG_MAX
  {
    QuotientOfProduct(y, ratio);
    Nearby(Wrap64(y * ratio), ratio);
  }

  /** A rounded quotient times the divisor is less than the divisor away. */
  lemma Nearby(n: int, d: int)
    requires d > 0
    ensures -d < n - Quotient(n, d) * d < d
  {
    Division(n, d);
    Division(0 - n, d);
    Spread(0, (0 - n) / d, d);
  }

  /** Too few for a unit is too few for a finer one. */
  lemma TooFewBelow(u: ByteUnit, d: Long, v: ByteUnit, w: ByteUnit)
    requires v.Multiplier() >= w.Multiplier() && TooFew(u, d, v)
    ensures TooFew(u, d, w)
  {
  }

  lemma FinerWraps(u: ByteUnit, d: Long, v: ByteUnit)
    requires u.Multiplier() >= v.Multiplier() && TooFew(u, d, v)
    ensures ConvertTo(u, d, v) == Some(Wrap64(d * Quotient(u.Multiplier(), v.Multiplier())))
  {
    var ratio := Quotient(u.Multiplier(), v.Multiplier());
    RatioIsExact(u, v);
    Refined(d, v.Multiplier(), ratio);
    WrappedProduct(u, d, v);
  }

  lemma FinerIsProduct(u: ByteUnit, d: Long, v: ByteUnit)
    requires u.Multiplier() >= v.Multiplier() && !TooMany(u, d, v)
    ensures ConvertTo(u, d, v) == Some(Wrap64(d * Quotient(u.Multiplier(), v.Multiplier())))
  {
    var ratio := Quotient(u.Multiplier(), v.Multiplier());
    RatioIsExact(u, v);
    if u.Multiplier() > v.Multiplier() {
      Refined(d, v.Multiplier(), ratio);
      assert !(Quotient(LONG_MAX, ratio) < d);
    } else {
      assert ratio == 1 && Quotient(d, 1) == d;
    }
  }

  /** Wrapping before or after a multiplication is the same once the product is wrapped. */
  lemma WrapOfProduct(n: int, ratio: int)
    ensures Wrap64(Wrap64(n) * ratio) == Wrap64(n * ratio)
  {
    var width := 0x1_0000_0000_0000_0000;
    var k := (n - LONG_MIN) / width;
    Division(n - LONG_MIN, width);
    assert n == Wrap64(n) + k * width;
    Spread(Wrap64(n), k * width, ratio);
    Regroup(k, width, ratio);
    Regroup(k, ratio, width);
    WrapOfShift(Wrap64(n) * ratio, k * ratio);
  }

  lemma WrapOfShift(n: int, k: int)
    ensures Wrap64(n + k * 0x1_0000_0000_0000_0000) == Wrap64(n)
  {
    var width, m := 0x1_0000_0000_0000_0000, n - LONG_MIN;
    Division(m, width);
    Division(m + k * width, width);
    Spread(m / width, k, width);
    DivisionIsUnique(m + k * width, width, m / width + k, m % width);
  }

  lemma RefinedIsProduct(u: ByteUnit, d: Long, v: ByteUnit)
    requires u.Multiplier() >= v.Multiplier()
    requires ConvertTo(u, d, v).Some? && !TooFew(u, d, v)
    ensures ConvertTo(u, d, v).value * v.Multiplier() == d * u.Multiplier()
  {
    var ratio := Quotient(u.Multiplier(), v.Multiplier());
    RatioIsExact(u, v);
    ConversionIsExact(u, d, v);
    FinerIsProduct(u, d, v);
    InRange(d, ratio, v.Multiplier());
    Regroup(d, ratio, v.Multiplier());
  }
}
