/** The few facts about products and quotients the other modules share. */
module Arith {
  lemma MulMono(m: int, a: int, b: int)
    requires 0 <= m && a <= b
    ensures m * a <= m * b
  {
    assert m * b - m * a == m * (b - a);
  }

  lemma MulStep(m: int, a: int)
    ensures m * (a + 1) == m * a + m
  {
  }

  lemma MulCancel(m: int, a: int, b: int)
    requires 0 < m && m * a < m * b
    ensures a < b
  {
    if a >= b {
      MulMono(m, b, a);
    }
  }

  /** The Euclidean quotient is the only integer whose multiple brackets the dividend. */
  lemma DivUnique(t: int, m: int, q: int)
    requires m > 0
    ensures t / m == q <==> m * q <= t < m * q + m
  {
    var z, r := t / m, t % m;
    assert t == m * z + r && 0 <= r < m;
    if q > z {
      MulMono(m, z + 1, q);
      MulStep(m, z);
    } else if q < z {
      MulMono(m, q + 1, z);
      MulStep(m, q);
    }
  }

  lemma DivMono(s: int, t: int, m: int)
    requires m > 0 && s <= t
    ensures s / m <= t / m
  {
    DivUnique(s, m, s / m);
    DivUnique(t, m, t / m);
    if s / m > t / m {
      MulMono(m, t / m + 1, s / m);
      MulStep(m, t / m);
    }
  }
}
