/** Multiplication and remainder facts about variable moduli. */
module Arith {

  lemma MulMonotone(m: nat, a: int, b: int)
    requires a <= b
    ensures m * a <= m * b
  {
    assert m * (b - a) >= 0;
  }

  /** Quotient and remainder are unique. */
  lemma DivMod(x: int, m: nat, q: int, r: int)
    requires 0 <= r < m && x == m * q + r
    ensures x / m == q && x % m == r
  {
    var q', r' := x / m, x % m;
    assert m * q' + r' == m * q + r;
    if q' < q {
      MulMonotone(m, q' + 1, q);
    } else if q < q' {
      MulMonotone(m, q + 1, q');
    }
  }

  lemma MultipleMod(m: nat, q: int)
    requires m > 0
    ensures (m * q) % m == 0
  {
    DivMod(m * q, m, q, 0);
  }

  /** Reducing one factor first does not change a product's remainder. */
  lemma MulMod(x: nat, k: nat, m: nat)
    requires m > 0
    ensures ((x % m) * k) % m == (k * x) % m
  {
    var q, r := x / m, x % m;
    var q', r' := (r * k) / m, (r * k) % m;
    calc {
      k * x;
      { assert x == m * q + r; }
      k * (m * q + r);
      k * (m * q) + k * r;
      { assert k * (m * q) == m * (k * q) && k * r == r * k; }
      m * (k * q) + (m * q' + r');
      m * (k * q + q') + r';
    }
    DivMod(k * x, m, k * q + q', r');
  }

  lemma DivBelow(x: nat, m: nat, b: nat)
    requires m > 0 && x < b * m
    ensures x / m < b
  {
    if x / m >= b {
      MulMonotone(m, b, x / m);
    }
  }

  lemma DivBounds(x: nat, m: nat)
    requires m > 0
    ensures x / m * m <= x < (x / m + 1) * m
  {
    assert x / m * m == m * (x / m) && (x / m + 1) * m == m * (x / m) + m;
  }

  lemma DivMonotone(x: nat, y: nat, m: nat)
    requires m > 0 && x <= y
    ensures x / m <= y / m
  {
    if x / m > y / m {
      MulMonotone(m, y / m + 1, x / m);
    }
  }
}
