/** Bitwise operations on naturals, written out digit by digit, with the two
    power-of-two facts that scrypt's parameter check and table lookup rest on. */
module Bits {

  /** Go's `&` on non-negative integers. */
  function BitAnd(a: nat, b: nat): nat
    decreases a
  {
    if a == 0 then 0 else 2 * BitAnd(a / 2, b / 2) + (if a % 2 == 1 && b % 2 == 1 then 1 else 0)
  }

  function Pow2(k: nat): (p: nat)
    ensures p > 0
  {
    if k == 0 then 1 else 2 * Pow2(k - 1)
  }

  ghost predicate IsPow2(n: nat) {
    exists k: nat :: n == Pow2(k)
  }

  /** Masking with 2^k - 1 is reduction modulo 2^k. */
  lemma {:induction false} MaskIsMod(x: nat, k: nat)
    ensures BitAnd(x, Pow2(k) - 1) == x % Pow2(k)
    decreases k, x
  {
    if k == 0 {
      AndZero(x);
    } else {
      var p := Pow2(k - 1);
      MaskIsMod(x / 2, k - 1);
      ModHalves(x, p);
      AndOdd(x, p);
    }
  }

  lemma {:induction false} AndZero(x: nat)
    ensures BitAnd(x, 0) == 0
  {
    if x != 0 { AndZero(x / 2); }
  }

  lemma AndOdd(x: nat, p: nat)
    requires p > 0
    ensures BitAnd(x, 2 * p - 1) == 2 * BitAnd(x / 2, p - 1) + x % 2
  {
    var m := 2 * p - 1;
    assert m / 2 == p - 1 && m % 2 == 1;
  }

  lemma ModHalves(x: nat, p: nat)
    requires p > 0
    ensures x % (2 * p) == 2 * ((x / 2) % p) + x % 2
  {
    var h, q, r := x / 2, x / 2 / p, (x / 2) % p;
    assert h == q * p + r;
    assert x == q * (2 * p) + (2 * r + x % 2) by {
      assert x == 2 * h + x % 2;
    }
    ModUnique(x, 2 * p, q, 2 * r + x % 2);
  }

  lemma ModUnique(x: int, d: nat, q: int, r: nat)
    requires d > 0 && x == q * d + r && r < d
    ensures x % d == r && x / d == q
  {
    var q', r' := x / d, x % d;
    assert x == q' * d + r' && 0 <= r' < d;
    if q' < q { assert (q - q') * d >= d by { MulMono(1, q - q', d); } }
    if q' > q { assert (q' - q) * d >= d by { MulMono(1, q' - q, d); } }
  }

  lemma MulMono(a: int, b: int, c: nat)
    requires a <= b
    ensures a * c <= b * c
  {
  }

  lemma {:induction false} AndSelf(x: nat)
    ensures BitAnd(x, x) == x
  {
    if x != 0 { AndSelf(x / 2); }
  }

  /** `n & (n-1) == 0` holds of exactly the powers of two. */
  lemma {:induction false} PowerOfTwoTest(n: nat)
    requires n >= 1
    ensures BitAnd(n, n - 1) == 0 <==> IsPow2(n)
  {
    if n == 1 {
      assert n == Pow2(0);
      assert BitAnd(0, 0) == 0;
    } else if n % 2 == 0 {
      var h := n / 2;
      PowerOfTwoTest(h);
      assert (n - 1) / 2 == h - 1;
      if IsPow2(h) {
        var k: nat :| h == Pow2(k);
        assert n == Pow2(k + 1);
      }
      if IsPow2(n) {
        var k: nat :| n == Pow2(k);
        assert k > 0;
        assert h == Pow2(k - 1);
      }
    } else {
      AndSelf(n / 2);
      assert (n - 1) / 2 == n / 2;
      assert !IsPow2(n) by {
        forall k: nat ensures n != Pow2(k) {}
      }
    }
  }

  /** A power of two below another one divides it. */
  lemma {:induction false} Pow2Split(j: nat, k: nat)
    ensures Pow2(j + k) == Pow2(j) * Pow2(k)
  {
    if j != 0 {
      Pow2Split(j - 1, k);
      assert Pow2(j + k) == 2 * Pow2(j - 1 + k);
      assert 2 * (Pow2(j - 1) * Pow2(k)) == (2 * Pow2(j - 1)) * Pow2(k);
    } else {
      assert Pow2(0) == 1;
    }
  }

  lemma {:induction false} Pow2Monotone(j: nat, k: nat)
    requires j <= k
    ensures Pow2(j) <= Pow2(k)
  {
    if j < k { Pow2Monotone(j, k - 1); }
  }
}
