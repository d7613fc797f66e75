/** Division, and multiplication modulo a number. */
module Arithmetic {
  lemma MulAtLeast(k: int, d: int)
    requires k >= 1 && d > 0
    ensures k * d >= d
  {
  }

  lemma DivUnique(x: int, d: int, q: int, r: int)
    requires d > 0 && x == q * d + r && 0 <= r < d
    ensures x / d == q && x % d == r
  {
    var q' := x / d;
    assert (q - q') * d == q * d - q' * d;
    if q > q' { MulAtLeast(q - q', d); }
    if q < q' { MulAtLeast(q' - q, d); }
  }

  lemma DivMod(x: nat, d: nat)
    requires d > 0
    ensures x == x / d * d + x % d && 0 <= x % d < d
  {
  }

  lemma Commute(x: int, y: int)
    ensures x * y == y * x
  {
  }

  lemma ModShift(x: int, k: int, d: int)
    requires d > 0
    ensures (x + k * d) % d == x % d
  {
    assert x + k * d == (x / d + k) * d + x % d;
    DivUnique(x + k * d, d, x / d + k, x % d);
  }

  lemma ModMul(x: nat, y: nat, d: nat)
    requires d > 0
    ensures (x % d) * y % d == x * y % d
    ensures y * (x % d) % d == x * y % d
  {
    var q := x / d;
    assert x * y == (x % d) * y + q * y * d by {
      assert x == q * d + x % d;
      assert x * y == q * d * y + (x % d) * y;
      assert q * d * y == q * y * d;
    }
    ModShift((x % d) * y, q * y, d);
    assert y * (x % d) == (x % d) * y;
  }
}
