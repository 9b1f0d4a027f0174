/** Quotients and remainders, where the divisor is a variable. */
module Arithmetic {
  lemma {:induction false} Product(x: nat, y: nat)
    ensures x * y >= 0
  {
    if y > 0 {
      Product(x, y - 1);
      assert x * y == x * (y - 1) + x;
    }
  }

  lemma Times(n: nat, a: int, b: int)
    requires a < b
    ensures n * a + n <= n * b
  {
    Product(n, b - a - 1);
    assert n * (b - a - 1) == n * b - n * a - n;
  }

  lemma DivisionIs(a: nat, n: nat, q: nat)
    requires n > 0 && n * q <= a < n * q + n
    ensures a / n == q
  {
    var r := a / n;
    assert n * r + a % n == a;
    if q < r {
      Times(n, q, r);
    } else if r < q {
      Times(n, r, q);
    }
  }

  lemma CycleStep(k: nat, count: nat)
    ensures (k + 1) % (count + 1) == if k % (count + 1) < count then k % (count + 1) + 1 else 0
  {
    var q, r, n := k / (count + 1), k % (count + 1), count + 1;
    assert k + 1 == n * q + (r + 1);
    if r < count {
      ModuloIs(k + 1, n, q, r + 1);
    } else {
      assert k + 1 == n * (q + 1) + 0;
      ModuloIs(k + 1, n, q + 1, 0);
    }
  }

  lemma ModuloIs(a: nat, n: nat, q: nat, r: nat)
    requires 0 < n && a == n * q + r && r < n
    ensures a % n == r
  {
    DivisionIs(a, n, q);
    assert a == n * (a / n) + a % n;
  }

  lemma SmallModulo(a: nat, n: nat)
    requires a < n
    ensures a % n == a
  {
  }

  lemma ModuloShift(a: nat, b: nat, n: nat)
    requires n > 0
    ensures (a + b) % n == a % n <==> b % n == 0
  {
    var q, r := a / n, a % n;
    var p, s := b / n, b % n;
    assert a + b == n * (q + p) + (r + s);
    if r + s < n {
      ModuloIs(a + b, n, q + p, r + s);
    } else {
      assert a + b == n * (q + p + 1) + (r + s - n);
      ModuloIs(a + b, n, q + p + 1, r + s - n);
    }
  }
}
