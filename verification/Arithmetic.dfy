/** Integer facts that need multiplication or division, each proved from the one before. */
module Arithmetic {
  lemma MulAtLeast(x: int, b: int)
    requires x >= 1 && b >= 0
    ensures x * b >= b
  {
    assert x * b == (x - 1) * b + b;
  }

  lemma UniqueQuotient(b: int, q: int, r: int, q': int, r': int)
    requires b > 0 && q * b + r == q' * b + r' && 0 <= r < b && 0 <= r' < b
    ensures q == q' && r == r'
  {
    if q < q' {
      assert (q' - q) * b == q' * b - q * b;
      MulAtLeast(q' - q, b);
      assert false;
    }
    if q' < q {
      assert (q - q') * b == q * b - q' * b;
      MulAtLeast(q - q', b);
      assert false;
    }
  }

  lemma DivMod(a: int, b: int, q: int, r: int)
    requires b > 0 && a == q * b + r && 0 <= r < b
    ensures a / b == q && a % b == r
  {
    var q', r' := a / b, a % b;
    assert a == q' * b + r';
    UniqueQuotient(b, q, r, q', r');
  }

  lemma SplitParts(x: int, p: int, k: int, y: int, r: int, q: int, d: int)
    requires p >= 1 && k >= 1 && x == y * p + r && y == q * k + d && 0 <= r < p && 0 <= d < k
    ensures x == q * (k * p) + (d * p + r)
    ensures 0 <= d * p + r < k * p
  {
    assert (q * k + d) * p == q * k * p + d * p;
    assert q * k * p == q * (k * p);
    assert d * p >= 0;
    assert (k - d) * p == k * p - d * p;
    MulAtLeast(k - d, p);
  }

  lemma SplitDigit(x: int, p: int, k: int)
    requires p >= 1 && k >= 1
    ensures k * p >= 1
    ensures x % (k * p) == x / p % k * p + x % p
  {
    MulAtLeast(k, p);
    var y, r := x / p, x % p;
    var q, d := y / k, y % k;
    assert x == y * p + r;
    assert y == q * k + d;
    SplitParts(x, p, k, y, r, q, d);
    DivMod(x, k * p, q, d * p + r);
  }

  lemma LexicographicSum(p: int, dx: int, rx: int, dy: int, ry: int)
    requires 0 <= rx < p && 0 <= ry < p
    ensures dx * p + rx <= dy * p + ry <==> dx < dy || (dx == dy && rx <= ry)
  {
    if dx < dy {
      assert (dy - dx) * p == dy * p - dx * p;
      MulAtLeast(dy - dx, p);
    } else if dy < dx {
      assert (dx - dy) * p == dx * p - dy * p;
      MulAtLeast(dx - dy, p);
    }
  }

  lemma MulMonotone(x: int, y: int, f: int)
    requires x <= y && f >= 0
    ensures f * x <= f * y && x * f <= y * f
  {
  }

  lemma MulNext(x: int, f: int)
    ensures (x + 1) * f == x * f + f
  {
  }

  lemma MulRotate(x: int, y: int, z: int)
    ensures x * y * z == y * z * x
  {
    assert x * y * z == x * (y * z);
  }

  function Pow(k: nat, n: nat): nat {
    if n == 0 then 1 else k * Pow(k, n - 1)
  }

  lemma {:induction false} PowPositive(k: nat, n: nat)
    requires k >= 1
    ensures Pow(k, n) >= 1
  {
    if n > 0 {
      PowPositive(k, n - 1);
      MulAtLeast(k, Pow(k, n - 1));
    }
  }

  /** Powers are repeated products. */
  lemma {:induction false} PowSum(k: nat, m: nat, n: nat)
    ensures Pow(k, 0) == 1 && Pow(k, 1) == k
    ensures Pow(k, m + n) == Pow(k, m) * Pow(k, n)
  {
    if m > 0 {
      PowSum(k, m - 1, n);
      assert k * (Pow(k, m - 1) * Pow(k, n)) == k * Pow(k, m - 1) * Pow(k, n);
    }
  }

  /** The quotient and the remainder of a division. */
  lemma DivFacts(x: int, y: int)
    requires y >= 1
    ensures x == x / y * y + x % y && 0 <= x % y < y
    ensures x / y * y <= x < (x / y + 1) * y
  {
    MulNext(x / y, y);
  }

  lemma DivNonNegative(x: int, y: int)
    requires y >= 1 && x >= 0
    ensures x / y >= 0
  {
    DivFacts(x, y);
    if x / y < 0 {
      MulMonotone(x / y, -1, y);
    }
  }

  lemma QuotientBelow(x: int, y: int, n: int)
    requires y >= 1 && x < n * y
    ensures x / y < n
  {
    DivFacts(x, y);
    if x / y >= n {
      MulMonotone(n, x / y, y);
    }
  }

  /** t is the number of the block of length y in which x lies. */
  lemma InBlock(x: int, y: int, t: int)
    requires y >= 1
    ensures t * y <= x < (t + 1) * y <==> t == x / y
    ensures t == x / y ==> x % y == x - t * y
  {
    DivFacts(x, y);
    MulNext(t, y);
    if t * y <= x < (t + 1) * y {
      DivMod(x, y, t, x - t * y);
    }
  }
}
