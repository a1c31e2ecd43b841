/** Powers of two, used for register layouts and bit shifts. */
module Powers {

  function Pow2(n: nat): (r: nat)
    ensures r > 0
  {
    if n == 0 then 1 else 2 * Pow2(n - 1)
  }

  lemma {:induction false} Pow2Add(m: nat, n: nat)
    ensures Pow2(m + n) == Pow2(m) * Pow2(n)
  {
    if m > 0 {
      Pow2Add(m - 1, n);
      assert Pow2(m + n) == 2 * (Pow2(m - 1) * Pow2(n));
    }
  }

  lemma {:induction false} Pow2Monotone(m: nat, n: nat)
    requires m <= n
    ensures Pow2(m) <= Pow2(n)
    decreases n
  {
    if m < n {
      Pow2Monotone(m, n - 1);
    }
  }

  lemma DoublePower(n: nat)
    ensures Pow2(n + 1) == 2 * Pow2(n)
  {
  }

  lemma MulMonotone(x: int, y: int, k: nat)
    requires x <= y
    ensures x * k <= y * k
  {
  }

  lemma Pow2Values()
    ensures Pow2(8) == 0x100 && Pow2(11) == 0x800 && Pow2(16) == 0x1_0000
    ensures Pow2(19) == 0x8_0000 && Pow2(27) == 0x800_0000
  {
    assert Pow2(5) == 32;
    assert Pow2(8) == 256;
    Pow2Add(8, 8);
    Pow2Add(8, 3);
    Pow2Add(11, 8);
    Pow2Add(19, 8);
  }

  /** v >> n for a non-negative v. */
  function ShiftRight(v: nat, n: nat): (q: nat)
    ensures q <= v
    ensures q * Pow2(n) <= v < (q + 1) * Pow2(n)
  {
    QuotientBounds(v, Pow2(n));
    v / Pow2(n)
  }

  lemma Euclid(n: int, p: nat)
    requires 0 < p
    ensures n / p * p <= n < (n / p + 1) * p
  {
    MulOneMore(n / p, p);
    assert n == n / p * p + n % p;
  }

  lemma QuotientBounds(v: nat, d: nat)
    requires 0 < d
    ensures 0 <= v / d <= v
    ensures v / d * d <= v < (v / d + 1) * d
  {
    ProductBounds(v / d, d, v % d);
    assert v == v / d * d + v % d;
  }

  lemma ProductBounds(q: int, d: int, m: int)
    requires 0 <= m < d && 0 <= q * d + m
    ensures 0 <= q <= q * d + m < (q + 1) * d
  {
    MulOneMore(q, d);
    if q < 0 {
      MulSign(-(q + 1), d);
      MulNegated(q + 1, d);
    } else {
      MulSign(q, d - 1);
      MulOneMore(d - 1, q);
    }
  }

  /** n / p, from below and above. */
  lemma FloorIs(n: int, p: nat, q: int)
    requires 0 < p && q * p <= n < (q + 1) * p
    ensures n / p == q
  {
    var k := n / p;
    Euclid(n, p);
    if k < q {
      MulMonotone(k + 1, q, p);
    } else if q < k {
      MulMonotone(q + 1, k, p);
    }
  }

  lemma MulOneMore(x: int, k: int)
    ensures (x + 1) * k == x * k + k
    ensures k * (x + 1) == k * x + k
  {
  }

  lemma MulSign(x: nat, y: nat)
    ensures 0 <= x * y
  {
  }

  lemma MulAssoc(x: int, y: int, z: int)
    ensures x * y * z == x * (y * z)
  {
  }

  lemma MulPlus(x: int, y: int, k: int)
    ensures (x + y) * k == x * k + y * k
  {
  }

  lemma MulMinus(x: int, y: int, k: int)
    ensures (x - y) * k == x * k - y * k
  {
  }

  /** A common factor can be dropped. */
  lemma Cancel(x: int, y: int, k: nat)
    requires 0 < k && x * k == y * k
    ensures x == y
  {
    MulPlus(x, -y, k);
    MulNegated(y, k);
    if x > y {
      MulMore(x - y, k);
    } else if x < y {
      MulMore(y - x, k);
      MulNegated(x - y, k);
    }
  }

  lemma MulMore(x: nat, y: nat)
    requires 0 < x && 0 < y
    ensures 0 < x * y
  {
  }

  lemma DivMod(v: nat, d: nat)
    requires 0 < d
    ensures v == v / d * d + v % d && 0 <= v % d < d
  {
  }

  lemma MulNegated(x: int, y: int)
    ensures -x * y == -(x * y)
  {
  }

  lemma HalvesTwice(v: int, p: nat)
    requires 0 < p
    ensures v / (2 * p) == v / p / 2
  {
    var q := v / p;
    var h := q / 2;
    Euclid(v, p);
    MulMonotone(h * 2, q, p);
    MulMonotone(q + 1, (h + 1) * 2, p);
    MulAssoc(h, 2, p);
    MulAssoc(h + 1, 2, p);
    FloorIs(v, 2 * p, h);
  }
}
