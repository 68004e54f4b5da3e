/** Congruence modulo any integer, with explicit witnesses. */
module Modular {

  ghost predicate CongBy(a: int, b: int, m: int, k: int) {
    a == b + k * m
  }

  /** a and b differ by a multiple of m. */
  ghost predicate Cong(a: int, b: int, m: int) {
    exists k: int :: CongBy(a, b, m, k)
  }

  lemma CongIntro(a: int, b: int, m: int, k: int)
    requires a == b + k * m
    ensures Cong(a, b, m)
  {
    assert CongBy(a, b, m, k);
  }

  lemma CongRefl(a: int, m: int)
    ensures Cong(a, a, m)
  {
    CongIntro(a, a, m, 0);
  }

  lemma CongSym(a: int, b: int, m: int)
    requires Cong(a, b, m)
    ensures Cong(b, a, m)
  {
    var k :| CongBy(a, b, m, k);
    assert b == a + (-k) * m;
    CongIntro(b, a, m, -k);
  }

  lemma CongTrans(a: int, b: int, c: int, m: int)
    requires Cong(a, b, m) && Cong(b, c, m)
    ensures Cong(a, c, m)
  {
    var k :| CongBy(a, b, m, k);
    var l :| CongBy(b, c, m, l);
    assert a == c + (k + l) * m;
    CongIntro(a, c, m, k + l);
  }

  lemma CongAdd(a: int, b: int, c: int, d: int, m: int)
    requires Cong(a, b, m) && Cong(c, d, m)
    ensures Cong(a + c, b + d, m)
  {
    var k :| CongBy(a, b, m, k);
    var l :| CongBy(c, d, m, l);
    assert a + c == b + d + (k + l) * m;
    CongIntro(a + c, b + d, m, k + l);
  }

  lemma CongSub(a: int, b: int, c: int, d: int, m: int)
    requires Cong(a, b, m) && Cong(c, d, m)
    ensures Cong(a - c, b - d, m)
  {
    var k :| CongBy(a, b, m, k);
    var l :| CongBy(c, d, m, l);
    assert a - c == b - d + (k - l) * m;
    CongIntro(a - c, b - d, m, k - l);
  }

  lemma CongScale(a: int, b: int, c: int, m: int)
    requires Cong(a, b, m)
    ensures Cong(a * c, b * c, m)
  {
    var k :| CongBy(a, b, m, k);
    assert a * c == b * c + (k * c) * m by {
      assert (k * m) * c == (k * c) * m;
    }
    CongIntro(a * c, b * c, m, k * c);
  }

  lemma CongMul(a: int, b: int, c: int, d: int, m: int)
    requires Cong(a, b, m) && Cong(c, d, m)
    ensures Cong(a * c, b * d, m)
  {
    CongScale(a, b, c, m);
    CongScale(c, d, b, m);
    CongTrans(a * c, b * c, b * d, m);
  }

  /** A factor with an inverse can be cancelled. */
  lemma CongCancel(a: int, b: int, c: int, inv: int, m: int)
    requires Cong(a * c, b * c, m) && Cong(c * inv, 1, m)
    ensures Cong(a, b, m)
  {
    CongScale(a * c, b * c, inv, m);
    CongScale(c * inv, 1, a, m);
    CongScale(c * inv, 1, b, m);
    assert (a * c) * inv == (c * inv) * a && (b * c) * inv == (c * inv) * b;
    CongSym((c * inv) * a, 1 * a, m);
    CongTrans(a, (a * c) * inv, (b * c) * inv, m);
    CongTrans(a, (b * c) * inv, b, m);
  }

  lemma Distribute(a: int, b: int, w: int)
    ensures (a + b) * w == a * w + b * w
  {
  }

  /** One more digit below wd on top of a number below w. */
  lemma DigitBound(v: int, d: int, w: int, wd: int)
    requires 0 <= v < w && 0 <= d < wd
    ensures 0 <= v + d * w < w * wd
  {
    assert 0 <= d * w && d * w <= (wd - 1) * w;
    assert (wd - 1) * w == w * wd - w;
  }

  /** Zero is the only multiple of m strictly between -m and m. */
  lemma SmallMultiple(k: int, m: int)
    requires m > 0
    ensures -m < k * m < m ==> k == 0
  {
    if k >= 1 {
      assert (k - 1) * m >= 0;
    } else if k <= -1 {
      assert (-1 - k) * m >= 0;
    }
  }

  lemma DivModUnique(q: int, r: int, m: int, x: int)
    requires m > 0 && 0 <= r < m && x == q * m + r
    ensures x / m == q && x % m == r
  {
    var d := x / m - q;
    assert x == m * (x / m) + x % m;
    assert d * m == r - x % m;
    SmallMultiple(d, m);
  }

  lemma CongMod(a: int, b: int, m: int)
    requires m > 0 && Cong(a, b, m)
    ensures a % m == b % m
  {
    var k :| CongBy(a, b, m, k);
    assert b == (b / m) * m + b % m;
    assert a == (b / m + k) * m + b % m;
    DivModUnique(b / m + k, b % m, m, a);
  }

  lemma CongOfMod(a: int, b: int, m: int)
    requires m > 0 && a % m == b % m
    ensures Cong(a, b, m)
  {
    assert a == (a / m) * m + a % m && b == (b / m) * m + b % m;
    assert a == b + (a / m - b / m) * m;
    CongIntro(a, b, m, a / m - b / m);
  }

  lemma CongReduce(a: int, m: int)
    requires m > 0
    ensures Cong(a % m, a, m)
  {
    assert a == (a / m) * m + a % m;
    CongIntro(a % m, a, m, -(a / m));
  }

  /** Two residues of the same class are the same number. */
  lemma CongUnique(a: int, b: int, m: int)
    requires Cong(a, b, m) && 0 <= a < m && 0 <= b < m
    ensures a == b
  {
    var k :| CongBy(a, b, m, k);
    SmallMultiple(k, m);
  }

  lemma ScaledMod(x: int, below: int, scale: int)
    requires below > 0 && scale > 0
    ensures below * scale > 0
    ensures (x * scale) % (below * scale) == (x % below) * scale
  {
    var q, r := x / below, x % below;
    assert below * scale > 0;
    assert r * scale < below * scale;
    assert x * scale == q * (below * scale) + r * scale by {
      assert x == q * below + r;
      assert (q * below + r) * scale == q * (below * scale) + r * scale;
    }
    DivModUnique(q, r * scale, below * scale, x * scale);
  }

  lemma ModMod(y: int, m: int, n: int)
    requires m > 0 && n > 0
    ensures n * m > 0
    ensures (y % (n * m)) % m == y % m
  {
    var q, w := y / (n * m), y % (n * m);
    assert y == (n * m) * q + w;
    assert w == y + (-(n * q)) * m by {
      assert (n * m) * q == (n * q) * m;
    }
    CongIntro(w, y, m, -(n * q));
    CongMod(w, y, m);
  }

  // ---- powers ----------------------------------------------------------------------

  function Pow(b: int, e: nat): int {
    if e == 0 then 1 else b * Pow(b, e - 1)
  }

  lemma {:induction false} PowAdd(b: int, i: nat, j: nat)
    ensures Pow(b, i + j) == Pow(b, i) * Pow(b, j)
  {
    if i > 0 {
      PowAdd(b, i - 1, j);
      assert b * (Pow(b, i - 1) * Pow(b, j)) == (b * Pow(b, i - 1)) * Pow(b, j);
    }
  }

  lemma PowOne(b: int)
    ensures Pow(b, 1) == b
  {
    assert Pow(b, 0) == 1;
  }
}
