/** Facts about division that need a product of two variables. */
module Arith {

  lemma QuotientFits(m: nat, d: nat)
    requires d > 0
    ensures m / d >= 0 && 0 <= m - d * (m / d) < d
  {
    assert m == d * (m / d) + m % d;
  }

  lemma Factor(d: nat, j: int)
    ensures j >= 1 ==> d * j >= d
    ensures d * -j == -(d * j)
  {
    if j >= 1 {
      assert d * j == d * (j - 1) + d;
    }
  }

  lemma ModUnique(n: nat, d: nat, q: nat, r: nat)
    requires n == d * q + r && r < d
    ensures n % d == r && n / d == q
  {
    var j := n / d - q;
    assert d * j == r - n % d by {
      assert n == d * (n / d) + n % d;
      assert d * j == d * (n / d) - d * q;
    }
    Factor(d, j);
    Factor(d, -j);
  }

  lemma AddMod(n: nat, d: nat)
    requires d > 0
    ensures (n + d) % d == n % d
  {
    QuotientFits(n, d);
    var q := n / d;
    assert n + d == d * (q + 1) + n % d;
    ModUnique(n + d, d, q + 1, n % d);
  }

  lemma MulUp(x: nat, y: nat, m: nat)
    requires x <= m
    ensures x * y <= m * y
  {
    assert m * y == x * y + (m - x) * y;
  }

  lemma ModAdd(a: nat, b: nat, d: nat)
    requires d > 0
    ensures (a % d + b) % d == (a + b) % d
  {
    QuotientFits(a, d);
    var q, r := a / d, a % d;
    QuotientFits(r + b, d);
    var p := (r + b) / d;
    assert a + b == d * (q + p) + (r + b) % d by {
      assert d * (q + p) == d * q + d * p;
    }
    ModUnique(a + b, d, q + p, (r + b) % d);
  }
}
