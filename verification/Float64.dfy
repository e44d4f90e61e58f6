/** float64(int64) as round-half-to-even to 53 significant bits, and when comparing through it is exact. */
module Float64 {

  const TWO_53 := 0x20_0000_0000_0000

  /** The spacing of float64 values around a magnitude. */
  function Unit(m: nat): (u: nat)
    ensures u >= 1
  {
    if m < TWO_53 then 1 else 2 * Unit(m / 2)
  }

  lemma ProductMonotone(a: nat, b: nat, c: nat)
    requires a <= b
    ensures 0 <= a * c <= b * c
  {
    assert b * c == a * c + (b - a) * c;
  }

  /** The multiple of u nearest to m, the even multiple when m lies half way. */
  function RoundHalfEven(m: nat, u: nat): nat
    requires u >= 1
  {
    var q, r := m / u, m % u;
    var multiple := if 2 * r < u || (2 * r == u && q % 2 == 0) then q else q + 1;
    ProductMonotone(0, multiple, u);
    multiple * u
  }

  /** The value an int64 takes when SQL comparison promotes it to float64. */
  function ToFloat(n: int): int {
    if n >= 0 then RoundHalfEven(n, Unit(n)) else 0 - RoundHalfEven(-n, Unit(-n))
  }

  lemma SmallIsExact(n: int)
    requires -TWO_53 < n < TWO_53
    ensures ToFloat(n) == n
  {
  }

  lemma {:induction false} UnitQuotient(m: nat)
    requires m >= TWO_53
    ensures m / Unit(m) >= TWO_53 / 2 && Unit(m) >= 2
  {
    var half := m / 2;
    if half < TWO_53 {
      assert Unit(half) == 1;
    } else {
      UnitQuotient(half);
      var u := Unit(half);
      DivTwice(m, u);
    }
  }

  lemma DivTwice(m: nat, u: nat)
    requires u >= 1
    ensures m / (2 * u) == (m / 2) / u
  {
    var q := (m / 2) / u;
    var r := (m / 2) % u;
    assert m / 2 == q * u + r;
    var low := m % 2;
    assert m == 2 * (q * u + r) + low;
    var rest := 2 * r + low;
    assert m == q * (2 * u) + rest && 0 <= rest < 2 * u;
    DivUnique(m, 2 * u, q, rest);
  }

  lemma DivUnique(m: nat, d: nat, q: nat, r: nat)
    requires d >= 1 && m == q * d + r && r < d
    ensures m / d == q
  {
    var p, s := m / d, m % d;
    var apart := q - p;
    assert apart * d == s - r by { assert m == p * d + s; }
    if apart > 0 {
      ProductMonotone(1, apart, d);
    } else if apart < 0 {
      assert -apart * d == r - s;
      ProductMonotone(1, -apart, d);
    }
  }

  lemma LargeStaysLarge(m: nat)
    requires m >= TWO_53
    ensures RoundHalfEven(m, Unit(m)) >= TWO_53
  {
    UnitQuotient(m);
    var q, u := m / Unit(m), Unit(m);
    ProductMonotone(2, u, q);
    ProductMonotone(q, q + 1, u);
  }

  /**
   Comparing an int64 with a literal strictly inside +-2^53 through float64 is the exact comparison, on
   whatever side of the range the int64 lies.
   */
  lemma FloatCompareExact(v: int, n: int)
    requires -TWO_53 < n < TWO_53
    ensures ToFloat(v) < ToFloat(n) <==> v < n
    ensures ToFloat(v) == ToFloat(n) <==> v == n
  {
    SmallIsExact(n);
    if -TWO_53 < v < TWO_53 {
      SmallIsExact(v);
    } else if v >= 0 {
      LargeStaysLarge(v);
    } else {
      LargeStaysLarge(-v);
    }
  }

  /** The guard is tight: at 2^53 and at -2^53 two different integers already compare equal. */
  lemma FloatCompareBoundary()
    ensures ToFloat(TWO_53 + 1) == ToFloat(TWO_53) && ToFloat(-TWO_53 - 1) == ToFloat(-TWO_53)
  {
    assert Unit(TWO_53 / 2) == 1 && (TWO_53 + 1) / 2 == TWO_53 / 2;
    assert Unit(TWO_53 + 1) == 2 && Unit(TWO_53) == 2;
  }
}
