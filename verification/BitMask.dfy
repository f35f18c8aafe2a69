/** Bit masks on naturals: what `n & (n - 1)` and `x & (CAP - 1)` compute. */
module BitMask {
  import opened Modular

  /** Bitwise and. */
  function And(a: nat, b: nat): nat {
    if a == 0 || b == 0 then 0 else 2 * And(a / 2, b / 2) + if a % 2 == 1 && b % 2 == 1 then 1 else 0
  }

  function Pow2(k: nat): (r: nat)
    ensures r > 0
  {
    if k == 0 then 1 else 2 * Pow2(k - 1)
  }

  predicate IsPowerOfTwo(n: nat) {
    n > 0 && And(n, n - 1) == 0
  }

  lemma {:induction false} AndSelf(a: nat)
    ensures And(a, a) == a
  {
    if a > 0 {
      AndSelf(a / 2);
      assert a == 2 * (a / 2) + a % 2;
    }
  }

  lemma {:induction false} PowersPass(k: nat)
    ensures IsPowerOfTwo(Pow2(k))
  {
    if k > 0 {
      PowersPass(k - 1);
      var m := Pow2(k - 1);
      assert (2 * m - 1) / 2 == m - 1;
    }
  }

  lemma {:induction false} OnlyPowersPass(n: nat) returns (k: nat)
    requires IsPowerOfTwo(n)
    ensures n == Pow2(k)
  {
    k := 0;
    if n == 1 {
      assert Pow2(0) == 1;
    } else if n % 2 == 1 {
      assert (n - 1) / 2 == n / 2;
      AndSelf(n / 2);
      assert false;
    } else {
      var m := n / 2;
      assert (n - 1) / 2 == m - 1;
      var j := OnlyPowersPass(m);
      k := j + 1;
    }
  }

  /** The compile-time assertion lets through the powers of two and nothing else. */
  lemma PowerOfTwoTestIsExact(n: nat)
    ensures IsPowerOfTwo(n) <==> exists k :: n == Pow2(k)
  {
    if IsPowerOfTwo(n) {
      var k := OnlyPowersPass(n);
    }
    forall k | n == Pow2(k)
      ensures IsPowerOfTwo(n)
    {
      PowersPass(k);
    }
  }

  lemma HalfMod(h: nat, m: nat)
    requires m > 0
    ensures h % (2 * m) == 2 * (h / 2 % m) + h % 2
  {
    var q, r := h / 2 / m, h / 2 % m;
    assert h / 2 == m * q + r;
    assert h == (2 * m) * q + (2 * r + h % 2) by {
      assert h == 2 * (h / 2) + h % 2;
      assert 2 * (m * q) == (2 * m) * q;
    }
    ModIs(h, 2 * m, q, 2 * r + h % 2);
  }

  /** Masking with a power of two minus one is the remainder. */
  lemma {:induction false} MaskIsMod(h: nat, k: nat)
    ensures And(h, Pow2(k) - 1) == h % Pow2(k)
  {
    if k == 0 {
      assert Pow2(0) == 1;
    } else if h == 0 {
    } else {
      var m := Pow2(k - 1);
      assert (2 * m - 1) / 2 == m - 1 && (2 * m - 1) % 2 == 1;
      MaskIsMod(h / 2, k - 1);
      HalfMod(h, m);
    }
  }

  lemma {:induction false} PowSplit(j: nat, k: nat)
    ensures Pow2(j + k) == Pow2(j) * Pow2(k)
  {
    if j == 0 {
      assert Pow2(0) == 1;
    } else {
      PowSplit(j - 1, k);
    }
  }
}
