/** Facts about Euclidean division by a positive divisor that the solver
    does not find on its own when the divisor is a variable. */
module Arith {

  lemma MulAtLeast(w: int, d: int)
    requires w > 0 && d >= 1
    ensures w * d >= w
    decreases d
  {
    if d > 1 {
      MulAtLeast(w, d - 1);
      assert w * d == w * (d - 1) + w;
    }
  }

  /** Quotient and remainder by a positive divisor are unique. */
  lemma DivModUnique(a: int, w: int, q: int, r: int)
    requires w > 0 && 0 <= r < w && a == w * q + r
    ensures a / w == q && a % w == r
  {
    var q', r' := a / w, a % w;
    assert a == w * q' + r';
    var d := q - q';
    assert w * d == r' - r by {
      assert w * q - w * q' == r' - r;
    }
    if d >= 1 {
      MulAtLeast(w, d);
    } else if d <= -1 {
      MulAtLeast(w, -d);
    }
  }

  lemma MultipleMod(k: int, w: int)
    requires w > 0
    ensures (w * k) % w == 0 && (w * k) / w == k
  {
    DivModUnique(w * k, w, k, 0);
  }

  /** Adding at most one divisor's worth to a multiple leaves the remainder
      of the addend. */
  lemma ModOfSum(k: int, m: int, b: int)
    requires 0 <= b <= m && m > 0
    ensures (m * k + b) % m == b % m
  {
    if b == m {
      assert m * k + b == m * (k + 1);
      DivModUnique(m * k + b, m, k + 1, 0);
      DivModUnique(b, m, 1, 0);
    } else {
      DivModUnique(m * k + b, m, k, b);
      DivModUnique(b, m, 0, b);
    }
  }
}
