/** Remainders, as ring positions use them. */
module Modular {

  lemma {:induction false} AtLeast(n: nat, d: nat)
    requires d >= 1
    ensures n * d >= n
  {
    if d > 1 {
      AtLeast(n, d - 1);
      assert n * d == n * (d - 1) + n;
    }
  }

  lemma SmallMultiple(n: int, d: int)
    requires -n < n * d < n
    ensures d == 0
  {
    if d >= 1 {
      AtLeast(n, d);
    } else if d <= -1 {
      assert n * -d == -(n * d);
      AtLeast(n, -d);
    }
  }

  lemma ModIs(x: nat, n: nat, q: nat, r: nat)
    requires r < n && x == n * q + r
    ensures x % n == r
  {
    assert n * (x / n - q) == n * (x / n) - n * q;
    SmallMultiple(n, x / n - q);
  }

  /** Two positions less than a ring apart never share a cell. */
  lemma CellsDiffer(a: nat, b: nat, size: nat)
    requires 0 < size && a < b < a + size
    ensures a % size != b % size
  {
    var q, r := a / size, a % size + (b - a);
    if r < size {
      ModIs(b, size, q, r);
    } else {
      assert b == size * (q + 1) + (r - size);
      ModIs(b, size, q + 1, r - size);
    }
  }

  /** Reducing first to a multiple of `n` does not change the remainder by `n`. */
  lemma ModOfMod(x: nat, n: nat, m: nat)
    requires n > 0 && m > 0
    ensures n * m > 0 && x % (n * m) % n == x % n
  {
    Positive(n, m);
    var q, r := x / (n * m), x % (n * m);
    Regroup(x, n, m, q, r, r / n, r % n);
    ModIs(x, n, m * q + r / n, r % n);
  }

  lemma Positive(n: nat, m: nat)
    requires n > 0 && m > 0
    ensures n * m > 0
  {
  }

  lemma Regroup(x: nat, n: nat, m: nat, q: nat, r: nat, a: nat, b: nat)
    requires x == (n * m) * q + r && r == n * a + b
    ensures x == n * (m * q + a) + b
  {
    assert (n * m) * q == n * (m * q);
    assert n * (m * q) + n * a == n * (m * q + a);
  }
}
