/** Binary floating point numbers with a significand of `p` digits, as real numbers: which numbers
    they can hold, and rounding to the nearest one with ties to even.  Exponents are unbounded. */
module Rounding {
  import opened Arith

  // ---- scaling

  /** `x` times 2 to the power of `e`. */
  function Shift(x: real, e: int): real
    decreases if e < 0 then 0 - e else e
  {
    if e == 0 then x else if e > 0 then 2.0 * Shift(x, e - 1) else Shift(x, e + 1) / 2.0
  }

  lemma ShiftNext(x: real, e: int)
    ensures Shift(x, e + 1) == 2.0 * Shift(x, e)
  {
  }

  lemma {:induction false} ShiftSum(x: real, a: int, b: int)
    ensures Shift(Shift(x, a), b) == Shift(x, a + b)
    decreases if b < 0 then 0 - b else b
  {
    if b > 0 {
      ShiftSum(x, a, b - 1);
      ShiftNext(x, a + b - 1);
    } else if b < 0 {
      ShiftSum(x, a, b + 1);
      ShiftNext(x, a + b);
    }
  }

  /** Scaling is linear, so it keeps the order. */
  lemma {:induction false} ShiftLinear(x: real, y: real, e: int)
    ensures Shift(x - y, e) == Shift(x, e) - Shift(y, e)
    ensures Shift(x, e) < Shift(y, e) <==> x < y
    decreases if e < 0 then 0 - e else e
  {
    if e > 0 {
      ShiftLinear(x, y, e - 1);
    } else if e < 0 {
      ShiftLinear(x, y, e + 1);
    }
  }

  lemma {:induction false} ShiftNegated(x: real, e: int)
    ensures Shift(-x, e) == -Shift(x, e)
    decreases if e < 0 then 0 - e else e
  {
    if e > 0 {
      ShiftNegated(x, e - 1);
    } else if e < 0 {
      ShiftNegated(x, e + 1);
    }
  }

  /** A larger exponent does not make a number that is not negative smaller. */
  lemma {:induction false} ShiftGrows(x: real, a: int, b: int)
    requires x >= 0.0 && a <= b
    ensures 0.0 <= Shift(x, a) <= Shift(x, b)
    decreases b - a
  {
    if a < b {
      ShiftNext(x, b - 1);
      ShiftGrows(x, a, b - 1);
    } else {
      ShiftOfZero(a);
      ShiftLinear(x, 0.0, a);
    }
  }

  lemma {:induction false} ShiftOfZero(e: int)
    ensures Shift(0.0, e) == 0.0
    decreases if e < 0 then 0 - e else e
  {
    if e > 0 {
      ShiftOfZero(e - 1);
    } else if e < 0 {
      ShiftOfZero(e + 1);
    }
  }

  lemma {:induction false} ShiftOfInt(m: int, d: nat)
    ensures Shift(m as real, d) == (m * Pow2(d)) as real
  {
    if d > 0 {
      ShiftOfInt(m, d - 1);
      Doubled(m, Pow2(d - 1));
    }
  }

  lemma Doubled(m: int, q: int)
    ensures m * (2 * q) == 2 * (m * q)
  {
  }

  lemma {:induction false} ShiftOfOne(n: nat)
    ensures Shift(1.0, n) == Pow2(n) as real
  {
    if n > 0 {
      ShiftOfOne(n - 1);
    }
  }

  // ---- which numbers can be held

  /** Is the number `m * 2^e` for an `m` of at most `p` digits? */
  ghost predicate Held(r: real, p: nat)
  {
    exists m: int, e: int :: IsParts(r, p, m, e)
  }

  predicate IsParts(r: real, p: nat, m: int, e: int)
  {
    0 - Pow2(p) < m < Pow2(p) && r == Shift(m as real, e)
  }

  lemma HeldByMore(r: real, p: nat, q: nat)
    requires Held(r, p) && p <= q
    ensures Held(r, q)
  {
    var m: int, e: int :| IsParts(r, p, m, e);
    Pow2Grows(p, q);
    assert IsParts(r, q, m, e);
  }

  lemma HeldNegated(r: real, p: nat)
    requires Held(r, p)
    ensures Held(-r, p)
  {
    var m: int, e: int :| IsParts(r, p, m, e);
    ShiftNegated(m as real, e);
    assert (0 - m) as real == -(m as real);
    assert IsParts(-r, p, 0 - m, e);
  }

  // ---- rounding

  /** The place of the highest digit of a positive number. */
  function Exponent(r: real): (e: int)
    requires r > 0.0
    ensures Shift(1.0, e) <= r < Shift(1.0, e + 1)
    decreases if r >= 2.0 then r.Floor else (1.0 / r).Floor
  {
    if r >= 2.0 then 1 + Exponent(r / 2.0)
    else if r < 1.0 then Exponent(2.0 * r) - 1
    else 0
  }

  /** The nearest integer, the even one of two. */
  function NearestInt(x: real): (n: int)
    ensures n as real - 1.0 < x < n as real + 1.0
    ensures x == n as real - 0.5 || x == n as real + 0.5 ==> n % 2 == 0
  {
    var f := x.Floor;
    var d := x - f as real;
    if d > 0.5 || (d == 0.5 && f % 2 == 1) then f + 1 else f
  }

  function Distance(x: real, y: real): real
  {
    if x < y then y - x else x - y
  }

  lemma NearestIntIsNearest(x: real, k: int)
    ensures Distance(NearestInt(x) as real, x) <= Distance(k as real, x)
  {
    var f := x.Floor;
    assert k <= f || k >= f + 1;
  }

  /** The exponent of the last digit of the significand. */
  function LastDigit(r: real, p: nat): int
    requires r > 0.0
  {
    Exponent(r) - p + 1
  }

  /** The number counted in units of its last digit. */
  function Scaled(r: real, p: nat): real
    requires r > 0.0
  {
    Shift(r, 0 - LastDigit(r, p))
  }

  function RoundPositive(r: real, p: nat): real
    requires r > 0.0
  {
    Shift(NearestInt(Scaled(r, p)) as real, LastDigit(r, p))
  }

  /** The nearest number with a significand of `p` digits. */
  function Round(r: real, p: nat): real
  {
    if r == 0.0 then 0.0 else if r > 0.0 then RoundPositive(r, p) else -RoundPositive(-r, p)
  }

  lemma ScaledBack(r: real, p: nat)
    requires r > 0.0
    ensures Shift(Scaled(r, p), LastDigit(r, p)) == r
  {
    ShiftSum(r, 0 - LastDigit(r, p), LastDigit(r, p));
  }

  lemma PowerInUnits(n: nat, i: int)
    ensures Shift(1.0, n + i) == Shift(Pow2(n) as real, i)
  {
    ShiftOfOne(n);
    ShiftSum(1.0, n, i);
  }

  /** The significand has its highest digit in place. */
  lemma Significand(r: real, p: nat)
    requires r > 0.0 && p > 0
    ensures Pow2(p - 1) as real <= Scaled(r, p) < Pow2(p) as real
  {
    var i := LastDigit(r, p);
    ScaledBack(r, p);
    PowerInUnits(p - 1, i);
    PowerInUnits(p, i);
    ShiftLinear(Scaled(r, p), Pow2(p - 1) as real, i);
    ShiftLinear(Scaled(r, p), Pow2(p) as real, i);
  }

  /** A number that can be held and is not below `2^e` is a multiple of the last digit for that exponent. */
  lemma HeldIsMultiple(h: real, p: nat, e: int) returns (k: int)
    requires Held(h, p) && h >= Shift(1.0, e)
    ensures h == Shift(k as real, e - p + 1)
  {
    var m: int, i: int :| IsParts(h, p, m, i);
    if i <= e - p {
      TooSmall(m, i, p, e);
      assert false;
    }
    var d: nat := i - (e - p + 1);
    k := m * Pow2(d);
    ShiftOfInt(m, d);
    ShiftSum(m as real, d, e - p + 1);
  }

  lemma TooSmall(m: int, i: int, p: nat, e: int)
    requires m < Pow2(p) && i <= e - p
    ensures Shift(m as real, i) < Shift(1.0, e)
  {
    ShiftLinear(m as real, Pow2(p) as real, i);
    ShiftGrows(Pow2(p) as real, i, e - p);
    PowerInUnits(p, e - p);
  }

  lemma RoundedIsHeld(r: real, p: nat)
    requires p > 0
    ensures Held(Round(r, p), p)
  {
    if r == 0.0 {
      assert IsParts(0.0, p, 0, 0);
    } else if r > 0.0 {
      PositiveIsHeld(r, p);
    } else {
      PositiveIsHeld(-r, p);
      HeldNegated(RoundPositive(-r, p), p);
    }
  }

  lemma PositiveIsHeld(r: real, p: nat)
    requires r > 0.0 && p > 0
    ensures Held(RoundPositive(r, p), p)
  {
    var i, m := LastDigit(r, p), NearestInt(Scaled(r, p));
    Significand(r, p);
    assert 0 <= m <= Pow2(p);
    if m < Pow2(p) {
      assert IsParts(RoundPositive(r, p), p, m, i);
    } else {
      PowerInUnits(p, i);
      PowerInUnits(p - 1, i + 1);
      assert IsParts(RoundPositive(r, p), p, Pow2(p - 1), i + 1);
    }
  }

  /** Rounding changes nothing exactly if the number can be held. */
  lemma RoundIsExact(r: real, p: nat)
    requires p > 0
    ensures Round(r, p) == r <==> Held(r, p)
  {
    RoundedIsHeld(r, p);
    if Held(r, p) {
      if r > 0.0 {
        HeldStays(r, p);
      } else if r < 0.0 {
        HeldNegated(r, p);
        HeldStays(-r, p);
      }
    }
  }

  lemma HeldStays(r: real, p: nat)
    requires r > 0.0 && p > 0 && Held(r, p)
    ensures RoundPositive(r, p) == r
  {
    var i := LastDigit(r, p);
    var k := HeldIsMultiple(r, p, Exponent(r));
    ShiftSum(k as real, i, 0 - i);
    assert Scaled(r, p) == k as real;
    assert NearestInt(k as real) == k;
  }

  /** Of all numbers that can be held none is closer. */
  lemma RoundIsNearest(r: real, p: nat, h: real)
    requires p > 0 && Held(h, p)
    ensures Held(Round(r, p), p) && Distance(Round(r, p), r) <= Distance(h, r)
  {
    RoundedIsHeld(r, p);
    if r > 0.0 {
      PositiveIsNearest(r, p, h);
    } else if r < 0.0 {
      HeldNegated(h, p);
      PositiveIsNearest(-r, p, -h);
    }
  }

  lemma ShiftDistance(x: real, y: real, e: int)
    ensures Distance(Shift(x, e), Shift(y, e)) == Shift(Distance(x, y), e)
  {
    ShiftLinear(x, y, e);
    ShiftLinear(y, x, e);
  }

  /** No multiple of the last digit is closer. */
  lemma NoMultipleCloser(r: real, p: nat, k: int)
    requires r > 0.0
    ensures Distance(RoundPositive(r, p), r) <= Distance(Shift(k as real, LastDigit(r, p)), r)
  {
    var i, x := LastDigit(r, p), Scaled(r, p);
    var n := NearestInt(x);
    ScaledBack(r, p);
    NearestIntIsNearest(x, k);
    ShiftDistance(n as real, x, i);
    ShiftDistance(k as real, x, i);
    ShiftLinear(Distance(k as real, x), Distance(n as real, x), i);
  }

  lemma PositiveIsNearest(r: real, p: nat, h: real)
    requires r > 0.0 && p > 0 && Held(h, p)
    ensures Distance(RoundPositive(r, p), r) <= Distance(h, r)
  {
    var e, i := Exponent(r), LastDigit(r, p);
    if h < Shift(1.0, e) {
      PowerInUnits(p - 1, i);
      NoMultipleCloser(r, p, Pow2(p - 1));
    } else if h > Shift(1.0, e + 1) {
      PowerInUnits(p, i);
      NoMultipleCloser(r, p, Pow2(p));
    } else {
      var k := HeldIsMultiple(h, p, e);
      NoMultipleCloser(r, p, k);
    }
  }

  // ---- integers

  /** Is the integer one of at most `p` digits with zeros behind them? */
  ghost predicate HeldNat(n: nat, p: nat)
  {
    exists m: nat, e: nat :: IsNatParts(n, p, m, e)
  }

  predicate IsNatParts(n: nat, p: nat, m: nat, e: nat)
  {
    m < Pow2(p) && n == m * Pow2(e)
  }

  /** An integer can be held exactly if it is such a one. */
  lemma HeldInteger(n: nat, p: nat)
    ensures Held(n as real, p) <==> HeldNat(n, p)
  {
    if HeldNat(n, p) {
      var m: nat, e: nat :| IsNatParts(n, p, m, e);
      ShiftOfInt(m, e);
      assert IsParts(n as real, p, m, e);
    }
    if Held(n as real, p) {
      var m: int, e: int :| IsParts(n as real, p, m, e);
      IntegerParts(n, p, m, e);
    }
  }

  lemma IntegerParts(n: nat, p: nat, m: int, e: int)
    requires IsParts(n as real, p, m, e)
    ensures HeldNat(n, p)
  {
    ShiftOfZero(e);
    ShiftLinear(m as real, 0.0, e);
    if e >= 0 {
      ShiftOfInt(m, e);
      assert IsNatParts(n, p, m, e);
    } else {
      ShiftGrows(m as real, e, 0);
      ShortIsHeld(n, p);
    }
  }

  /** Integers of at most `p` digits can be held. */
  lemma ShortIsHeld(n: nat, p: nat)
    requires n < Pow2(p)
    ensures HeldNat(n, p)
  {
    assert Pow2(0) == 1;
    assert IsNatParts(n, p, n, 0);
  }

  /** What rounding does to an integer. */
  lemma RoundedInteger(n: nat, p: nat, h: real)
    requires p > 0 && Held(h, p)
    ensures Round(n as real, p) == n as real <==> HeldNat(n, p)
    ensures Held(Round(n as real, p), p) && Distance(Round(n as real, p), n as real) <= Distance(h, n as real)
  {
    HeldInteger(n, p);
    RoundIsExact(n as real, p);
    RoundIsNearest(n as real, p, h);
  }
}
