/** Division by a variable divisor, as far as page boundaries need it. */
module Arith {

  lemma MulAtLeast(p: int, n: int)
    requires 0 < p
    ensures n > 0 ==> p * n >= p
    ensures n < 0 ==> p * n <= -p
  {
  }

  lemma DivModUnique(x: int, p: int, k: int, d: int)
    requires 0 < p && 0 <= d < p && x == p * k + d
    ensures x / p == k && x % p == d
  {
    var m, r := x / p, x % p;
    assert x == p * m + r;
    assert p * (k - m) == r - d by {
      assert p * (k - m) == p * k - p * m;
    }
    MulAtLeast(p, k - m);
    assert k == m;
  }

  /** The remainder `d` bytes above a boundary. */
  lemma ModStep(a: int, d: int, p: int)
    requires 0 < p && a % p == 0 && 0 <= d <= p
    ensures (a + d) % p == if d == p then 0 else d
  {
    var k := a / p;
    assert a == p * k;
    if d == p {
      assert a + p == p * (k + 1);
      DivModUnique(a + p, p, k + 1, 0);
    } else {
      DivModUnique(a + d, p, k, d);
    }
  }

  /** Between two boundaries there is at least one whole page. */
  lemma BoundariesApart(a: int, b: int, p: int)
    requires 0 < p && a % p == 0 && b % p == 0 && a < b
    ensures a + p <= b
  {
    if b < a + p {
      ModStep(a, b - a, p);
    }
  }

  lemma Multiples(a: int, b: int, p: int)
    requires 0 < p && a % p == 0 && b % p == 0
    ensures (a + b) % p == 0
  {
    var j, k := a / p, b / p;
    assert a == p * j && b == p * k;
    assert a + b == p * (j + k) by {
      assert p * (j + k) == p * j + p * k;
    }
    DivModUnique(a + b, p, j + k, 0);
  }

  lemma AlignedDown(ea: int, p: int)
    requires 0 < p
    ensures (ea - ea % p) % p == 0
    ensures ea % p == 0 ==> ea - ea % p == ea
  {
    assert ea - ea % p == p * (ea / p) + 0;
    DivModUnique(ea - ea % p, p, ea / p, 0);
  }
}
