/** Powers of two, multiples, and rounding up to a power of two. */
module Arith {

  /** Words of 32 bits. */
  const W32 := 0x1_0000_0000

  function Pow2(p: nat): (r: nat)
    ensures r >= 1
  {
    if p == 0 then 1 else 2 * Pow2(p - 1)
  }

  lemma {:induction false} Pow2Grows(p: nat, q: nat)
    requires p <= q
    ensures Pow2(p) <= Pow2(q)
    decreases q
  {
    if p < q {
      Pow2Grows(p, q - 1);
    }
  }

  /** `x` is a multiple of `m`. */
  ghost predicate Divides(m: nat, x: int)
  {
    exists k: int :: x == k * m
  }

  lemma DividesSum(m: nat, x: int, y: int)
    requires Divides(m, x) && Divides(m, y)
    ensures Divides(m, x + y)
  {
    var k, l :| x == k * m && y == l * m;
    assert x + y == (k + l) * m;
  }

  lemma DividesTrans(m: nat, n: nat, x: int)
    requires Divides(m, n) && Divides(n, x)
    ensures Divides(m, x)
  {
    var k, l :| n == k * m && x == l * n;
    assert x == (l * k) * m;
  }

  lemma {:induction false} Pow2Divides(p: nat, q: nat)
    requires p <= q
    ensures Divides(Pow2(p), Pow2(q))
    decreases q
  {
    if p == q {
      assert Pow2(q) == 1 * Pow2(p);
    } else {
      Pow2Divides(p, q - 1);
      var k :| Pow2(q - 1) == k * Pow2(p);
      assert Pow2(q) == (2 * k) * Pow2(p);
    }
  }

  /** Division with remainder, in the form the proofs use. */
  lemma DivMod(x: nat, m: nat)
    requires m > 0
    ensures x == (x / m) * m + x % m && 0 <= x % m < m
  {
  }

  /** Two multiples of `m` that differ are at least `m` apart. */
  lemma MultiplesApart(m: nat, k: int, l: int)
    requires k < l
    ensures k * m + m <= l * m
  {
    assert l * m - k * m == (l - k) * m;
    assert (l - k) * m >= 1 * m by {
      MulGrows(1, l - k, m);
    }
  }

  lemma MulGrows(x: nat, y: nat, m: nat)
    requires x <= y
    ensures x * m <= y * m
  {
  }

  lemma ModUnique(z: int, w: nat, k: int, r: nat)
    requires z == k * w + r && r < w
    ensures z % w == r
  {
    var q := z / w;
    assert z == q * w + z % w;
    if k < q {
      MultiplesApart(w, k, q);
    } else if q < k {
      MultiplesApart(w, q, k);
    }
  }

  lemma DivUnique(z: int, w: nat, k: int, r: nat)
    requires z == k * w + r && r < w
    ensures z / w == k
  {
    ModUnique(z, w, k, r);
    var q := z / w;
    assert z == q * w + z % w;
    if k < q {
      MultiplesApart(w, k, q);
    } else if q < k {
      MultiplesApart(w, q, k);
    }
  }

  /** Dropping the remainder leaves the greatest multiple that is not above. */
  lemma RoundDown(x: nat, m: nat)
    requires m > 0
    ensures x - x % m == x / m * m && Divides(m, x - x % m)
    ensures x - m < x / m * m <= x && x / m * m % m == 0
  {
    DivMod(x, m);
    ModUnique(x / m * m, m, x / m, 0);
  }

  lemma ModSmall(x: nat, w: nat)
    requires w > 0
    ensures x % w <= x && (x < w ==> x % w == x)
  {
    if x < w {
      ModUnique(x, w, 0, x);
    }
  }

  /** Reducing a summand first makes no difference. */
  lemma ModSum(x: int, y: int, w: nat)
    requires w > 0
    ensures (x % w + y) % w == (x + y) % w
  {
    var q, r := x / w, x % w;
    assert x == q * w + r;
    var q', r' := (r + y) / w, (r + y) % w;
    assert r + y == q' * w + r';
    assert (q + q') * w == q * w + q' * w;
    ModUnique(x + y, w, q + q', r');
  }

  /** The number an `int32_t` holds after a conversion. */
  function Signed32(v: int): (r: int)
    ensures -0x8000_0000 <= r < 0x8000_0000
  {
    var u := v % W32;
    if u < 0x8000_0000 then u else u - W32
  }

  lemma SignedSmall(v: int)
    requires -0x8000_0000 <= v < 0x8000_0000
    ensures Signed32(v) == v
  {
    if v >= 0 {
      ModSmall(v, W32);
    } else {
      ModUnique(v, W32, -1, v + W32);
    }
  }

  lemma EightMore(p: nat)
    ensures Pow2(p + 8) == 256 * Pow2(p)
  {
    assert Pow2(p + 4) == 2 * Pow2(p + 3) && Pow2(p + 3) == 2 * Pow2(p + 2) && Pow2(p + 2) == 2 * Pow2(p + 1);
    assert Pow2(p + 8) == 2 * Pow2(p + 7) && Pow2(p + 7) == 2 * Pow2(p + 6) && Pow2(p + 6) == 2 * Pow2(p + 5);
    assert Pow2(p + 5) == 2 * Pow2(p + 4) && Pow2(p + 1) == 2 * Pow2(p);
  }

  lemma Powers()
    ensures Pow2(0) == 1 && Pow2(10) == 0x400 && Pow2(22) == 0x40_0000 && Pow2(24) == 0x100_0000 && Pow2(32) == W32
  {
    EightMore(0);
    EightMore(8);
    EightMore(16);
    EightMore(24);
    assert Pow2(10) == 2 * Pow2(9) && Pow2(9) == 2 * Pow2(8);
    assert Pow2(22) == 2 * Pow2(21) && Pow2(21) == 2 * Pow2(20) && Pow2(20) == 2 * Pow2(19);
    assert Pow2(19) == 2 * Pow2(18) && Pow2(18) == 2 * Pow2(17) && Pow2(17) == 2 * Pow2(16);
  }
}
