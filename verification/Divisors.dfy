/** Common divisors, primes and inverses. */
module Divisors {
  import opened Modular

  ghost predicate DividesBy(d: int, x: int, k: int) {
    x == d * k
  }

  ghost predicate Divides(d: int, x: int) {
    exists k: int :: DividesBy(d, x, k)
  }

  ghost predicate Common(d: int, x: int, y: int) {
    Divides(d, x) && Divides(d, y)
  }

  /** x and y have the same common divisors as u and v, hence the same gcd. */
  ghost predicate SameDivisors(x: int, y: int, u: int, v: int) {
    forall d: int :: Common(d, x, y) <==> Common(d, u, v)
  }

  ghost predicate Coprime(x: int, y: int) {
    forall d: int :: d > 0 && Common(d, x, y) ==> d == 1
  }

  ghost predicate Gcd(g: int, x: int, y: int) {
    g > 0 && Common(g, x, y) && forall d: int :: Common(d, x, y) ==> Divides(d, g)
  }

  lemma DividesSum(d: int, x: int, y: int)
    requires Divides(d, x) && Divides(d, y)
    ensures Divides(d, x + y) && Divides(d, x - y)
  {
    var k :| DividesBy(d, x, k);
    var l :| DividesBy(d, y, l);
    assert d * (k + l) == d * k + d * l && d * (k - l) == d * k - d * l;
    assert DividesBy(d, x + y, k + l) && DividesBy(d, x - y, k - l);
  }

  /** Subtracting one number from the other keeps the common divisors. */
  lemma SubtractKeeps(x: int, y: int)
    ensures SameDivisors(x, y, x, y - x) && SameDivisors(x, y, x - y, y)
  {
    forall d: int
      ensures Common(d, x, y) <==> Common(d, x, y - x)
      ensures Common(d, x, y) <==> Common(d, x - y, y)
    {
      if Common(d, x, y) {
        DividesSum(d, y, x);
        DividesSum(d, x, y);
      }
      if Common(d, x, y - x) {
        DividesSum(d, y - x, x);
      }
      if Common(d, x - y, y) {
        DividesSum(d, x - y, y);
      }
    }
  }

  lemma HalfDivides(d: int, x: int, y: int)
    requires Divides(d, 2 * x) && Divides(d, y) && y % 2 == 1
    ensures Divides(d, x)
  {
    var k :| DividesBy(d, 2 * x, k);
    var l :| DividesBy(d, y, l);
    if k % 2 == 1 {
      OddProduct(d, k, 2 * x);
      OddTimes(d, l, y);
    } else {
      assert d * (k / 2) == x by {
        assert d * (2 * (k / 2)) == 2 * (d * (k / 2));
      }
      assert DividesBy(d, x, k / 2);
    }
  }

  /** An even product of d and an odd number makes d even. */
  lemma OddProduct(d: int, k: int, p: int)
    requires d * k == p && p % 2 == 0 && k % 2 == 1
    ensures d % 2 == 0
  {
    var h := k / 2;
    assert d * (2 * h + 1) == 2 * (d * h) + d;
  }

  /** An odd multiple of d makes d odd. */
  lemma OddTimes(d: int, l: int, y: int)
    requires d * l == y && y % 2 == 1
    ensures d % 2 == 1
  {
    var h, r := d / 2, d % 2;
    assert (2 * h + r) * l == 2 * (h * l) + r * l;
  }

  /** Halving one number keeps the common divisors while the other is odd. */
  lemma HalveKeeps(x: int, y: int)
    requires y % 2 == 1
    ensures SameDivisors(2 * x, y, x, y) && SameDivisors(y, 2 * x, y, x)
  {
    forall d: int
      ensures Common(d, 2 * x, y) <==> Common(d, x, y)
      ensures Common(d, y, 2 * x) <==> Common(d, y, x)
    {
      if Common(d, 2 * x, y) {
        HalfDivides(d, x, y);
      }
      if Common(d, x, y) {
        DividesSum(d, x, x);
      }
    }
  }

  lemma SameDivisorsTrans(x: int, y: int, u: int, v: int, s: int, t: int)
    requires SameDivisors(x, y, u, v) && SameDivisors(u, v, s, t)
    ensures SameDivisors(x, y, s, t)
  {
    forall d: int
      ensures Common(d, x, y) <==> Common(d, s, t)
    {
      assert Common(d, x, y) <==> Common(d, u, v);
      assert Common(d, u, v) <==> Common(d, s, t);
    }
  }

  // ---- primes ---------------------------------------------------------------------------

  ghost predicate Prime(n: int) {
    n > 1 && forall d: int :: d > 0 && Divides(d, n) ==> d == 1 || d == n
  }

  lemma {:induction false} Bezout(a: nat, b: nat) returns (x: int, y: int, g: int)
    requires a > 0
    ensures g > 0 && Common(g, a, b) && a * x + b * y == g
    decreases b
  {
    if b == 0 {
      x, y, g := 1, 0, a;
      assert DividesBy(a, a, 1) && DividesBy(a, 0, 0);
    } else {
      var q, r := a / b, a % b;
      var s, t;
      s, t, g := Bezout(b, r);
      x, y := t, s - q * t;
      var k :| DividesBy(g, b, k);
      assert DividesBy(g, q * b, q * k) by {
        assert q * (g * k) == g * (q * k);
      }
      DividesSum(g, q * b, r);
      assert a == q * b + r;
      assert a * t + b * (s - q * t) == b * s + (a - q * b) * t;
    }
  }

  lemma DivisorBound(d: int, x: int)
    requires d > 0 && x > 0 && Divides(d, x)
    ensures d <= x
  {
    var k :| DividesBy(d, x, k);
    assert k <= 0 ==> d * k <= 0;
    assert k > 0 ==> d * (k - 1) >= 0;
  }

  lemma PrimeCoprime(n: int, a: int)
    requires Prime(n) && a % n != 0
    ensures Coprime(n, a)
  {
    forall d: int | d > 0 && Common(d, n, a)
      ensures d == 1
    {
      if d == n {
        var k :| DividesBy(n, a, k);
        DivModUnique(k, 0, n, a);
      }
    }
  }

  /** Modulo a prime, what is not zero has an inverse. */
  lemma PrimeInverse(n: int, a: int) returns (i: int)
    requires Prime(n) && 0 < a < n
    ensures Cong(a * i, 1, n)
  {
    var x, y, g := Bezout(a, n);
    DivisorBound(g, a);
    i := x;
    CongIntro(a * i, 1, n, -y);
  }
}
