/** Facts about integer division by a positive divisor, proved once from the definition of / and %. */
module Arith {

  lemma {:induction false} MulAtLeast(d: int, a: int)
    requires d >= 1 && a > 0
    ensures d * a >= a
    decreases d
  {
    if d > 1 {
      MulAtLeast(d - 1, a);
      assert d * a == (d - 1) * a + a;
    }
  }

  /** The quotient and remainder are the only ones with x == q * a + r and 0 <= r < a. */
  lemma DivModUnique(x: int, a: int, q: int, r: int)
    requires a > 0 && x == q * a + r && 0 <= r < a
    ensures x / a == q && x % a == r
  {
    var q', r' := x / a, x % a;
    assert x == q' * a + r';
    var d := q - q';
    assert d * a == r' - r by {
      assert q * a - q' * a == (q - q') * a;
    }
    if d >= 1 {
      MulAtLeast(d, a);
      assert false;
    } else if d <= -1 {
      assert false;
    }
  }

  /** A multiple of a leaves no remainder. */
  lemma MulMod(q: int, a: int)
    requires a > 0
    ensures (q * a) % a == 0 && (q * a) / a == q
  {
    DivModUnique(q * a, a, q, 0);
  }

  /** Adding whole multiples of m does not change the remainder. */
  lemma ModShift(x: int, k: int, m: int)
    requires m > 0
    ensures (x + k * m) % m == x % m
  {
    var q := x / m;
    assert x == q * m + x % m;
    assert x + k * m == (q + k) * m + x % m by {
      assert (q + k) * m == q * m + k * m;
    }
    DivModUnique(x + k * m, m, q + k, x % m);
  }

  /** A value already below m is its own remainder. */
  lemma ModSmall(x: int, m: int)
    requires 0 <= x < m
    ensures x % m == x && x / m == 0
  {
    DivModUnique(x, m, 0, x);
  }

  /** Reducing before adding does not change the remainder. */
  lemma ModAddMod(x: int, y: int, m: int)
    requires m > 0
    ensures (x % m + y) % m == (x + y) % m
  {
    var q := x / m;
    assert x == q * m + x % m;
    ModShift(x % m + y, q, m);
    assert x % m + y + q * m == x + y;
  }

  /** Rounding down to a multiple of a stays within a of the value. */
  lemma RoundDown(v: int, a: int)
    requires a > 0 && v >= 0
    ensures 0 <= v / a * a <= v < v / a * a + a
    ensures (v / a * a) % a == 0
  {
    assert v == v / a * a + v % a;
    MulMod(v / a, a);
  }
}
