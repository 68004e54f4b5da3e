/** The doubling and addition formulas of Jacobian against the chord-and-tangent law: on points that
    stand for affine points they compute the tangent and the chord, so what ScalarMult asks of a
    curve follows from the law on affine coordinates alone. */
module Formulas {
  import opened Modular
  import opened Divisors
  import opened Felem
  import opened Jacobian
  import opened ScalarMult

  // ---- the formulas over the integers --------------------------------------------------------------

  /** Doubling is the tangent law cleared of denominators: slope l/(z u) with u = 2y. */
  lemma TangentLaw(p: Jac)
    ensures var l, u, d := 3 * (p.x * p.x - (p.z * p.z) * (p.z * p.z)), 2 * p.y, Doubled(p);
      && d.z == p.z * u
      && d.x == l * l - 2 * p.x * (u * u)
      && d.y == l * (p.x * (u * u) - d.x) - p.y * (u * (u * u))
  {
    var delta, gamma, u := p.z * p.z, p.y * p.y, 2 * p.y;
    var alpha, beta := 3 * ((p.x + delta) * (p.x - delta)), p.x * gamma;
    assert alpha == 3 * (p.x * p.x - delta * delta);
    assert u * u == 4 * gamma;
    assert p.x * (u * u) == 4 * beta;
    assert p.y * (u * (u * u)) == 8 * (gamma * gamma) by {
      assert p.y * (u * (4 * gamma)) == 8 * ((p.y * p.y) * gamma);
    }
    assert (p.y + p.z) * (p.y + p.z) - gamma - delta == p.z * u;
  }

  lemma Doubles(a: int)
    ensures (a + a) * (a + a) == 4 * (a * a)
  {
  }

  lemma PullFour(a: int, q: int)
    ensures a * (4 * q) == 4 * (a * q)
  {
  }

  lemma SumTimes(u: int, e: int, q: int)
    ensures (u + (u + e)) * q == 2 * (u * q) + e * q
  {
  }

  lemma SlopeTimes(v: int, x: int, s: int)
    ensures (4 * v - 4 * x) * (s + s) == 8 * (s * (v - x))
  {
  }

  /** The common tail of the additions is the chord law, scaled by 2: slope s/e with e = u2 - u1
      and s = s2 - s1. */
  lemma ChordLaw(u1: int, s1: int, u2: int, s2: int, t: int)
    ensures var e, s, c := u2 - u1, s2 - s1, Combined(u1, s1, u2, s2, t);
      var x := s * s - (u1 + u2) * (e * e);
      c.z == t * e && c.x == 4 * x && c.y == 8 * (s * (u1 * (e * e) - x) - s1 * (e * (e * e)))
  {
    var e, s := u2 - u1, s2 - s1;
    var q := e * e;
    Doubles(e);
    Doubles(s);
    PullFour(e, q);
    PullFour(u1, q);
    PullFour(s1, e * q);
    SumTimes(u1, e, q);
    assert u2 == u1 + e;
    SlopeTimes(u1 * q, s * s - (u1 + u2) * q, s);
  }

  lemma CrossZIs(p: Jac, q: Jac)
    ensures CrossZ(p, q) == 2 * (p.z * q.z)
  {
  }

  // ---- scaling --------------------------------------------------------------------------------------

  /** Another name of the same affine point. */
  ghost function Scaled(p: Jac, l: int): Jac {
    Jac(p.x * (l * l), p.y * (l * (l * l)), p.z * l)
  }

  lemma CubeSquared(l: int, q: int, f: int)
    requires q == l * l && f == q * q
    ensures (l * q) * (l * q) == f * q && (l * q) * l == f
  {
    ProductsPair(l, q, l, q);
    assert (l * q) * l == q * (l * l);
  }

  lemma GammaScales(y: int, l: int, q: int, f: int)
    requires q == l * l && f == q * q
    ensures (y * (l * q)) * (y * (l * q)) == (y * y) * (f * q)
  {
    ProductsScale(y, y, l * q);
    CubeSquared(l, q, f);
  }

  lemma AlphaScales(x: int, d: int, q: int, f: int)
    requires f == q * q
    ensures (x * q + d * q) * (x * q - d * q) == ((x + d) * (x - d)) * f
  {
    Distribute(x, d, q);
    Distribute(x, -d, q);
    ProductsScale(x + d, x - d, q);
  }

  lemma BetaScales(x: int, g: int, q: int, f: int)
    requires f == q * q
    ensures (x * q) * (g * (f * q)) == (x * g) * (f * f)
  {
    ProductsPair(x, q, g, f * q);
    assert q * (f * q) == f * (q * q);
  }

  lemma DoubledZScales(y: int, z: int, l: int, q: int, f: int)
    requires q == l * l && f == q * q
    ensures (y * (l * q) + z * l) * (y * (l * q) + z * l) - (y * (l * q)) * (y * (l * q)) - (z * l) * (z * l)
         == ((y + z) * (y + z) - y * y - z * z) * f
  {
    Binomial(y * (l * q), z * l);
    Binomial(y, z);
    ProductsPair(y, l * q, z, l);
    CubeSquared(l, q, f);
  }

  lemma ProductsScale(a: int, b: int, q: int)
    ensures (a * q) * (b * q) == (a * b) * (q * q)
  {
  }

  lemma Binomial(a: int, b: int)
    ensures (a + b) * (a + b) - a * a - b * b == 2 * (a * b)
  {
  }

  lemma DoubledFrom(p: Jac, delta: int, gamma: int, alpha: int, beta: int)
    requires delta == p.z * p.z && gamma == p.y * p.y && alpha == 3 * ((p.x + delta) * (p.x - delta)) && beta == p.x * gamma
    ensures Doubled(p) == Jac(alpha * alpha - 8 * beta, alpha * (4 * beta - (alpha * alpha - 8 * beta)) - 8 * (gamma * gamma),
                              (p.y + p.z) * (p.y + p.z) - gamma - delta)
  {
  }

  /** The doubling formula is homogeneous. */
  lemma DoubledScales(p: Jac, l: int)
    ensures Doubled(Scaled(p, l)) == Scaled(Doubled(p), (l * l) * (l * l))
  {
    var q := l * l;
    var f := q * q;
    var s := Scaled(p, l);
    var delta, gamma := p.z * p.z, p.y * p.y;
    var a, beta := (p.x + delta) * (p.x - delta), p.x * gamma;
    ProductsScale(p.z, p.z, l);
    GammaScales(p.y, l, q, f);
    AlphaScales(p.x, delta, q, f);
    BetaScales(p.x, gamma, q, f);
    DoubledZScales(p.y, p.z, l, q, f);
    DoubledFrom(p, delta, gamma, 3 * a, beta);
    DoubledFrom(s, delta * q, gamma * (f * q), (3 * a) * f, beta * (f * f));
    DoubledTail(3 * a, beta, gamma, f, q);
  }

  lemma DoubledTail(a: int, b: int, g: int, f: int, q: int)
    requires f == q * q
    ensures (a * f) * (a * f) - 8 * (b * (f * f)) == (a * a - 8 * b) * (f * f)
    ensures (a * f) * (4 * (b * (f * f)) - (a * a - 8 * b) * (f * f)) - 8 * ((g * (f * q)) * (g * (f * q)))
         == (a * (4 * b - (a * a - 8 * b)) - 8 * (g * g)) * (f * (f * f))
  {
    ProductsScale(a, a, f);
    var x, k := a * a - 8 * b, f * f;
    assert (a * a) * k - 8 * (b * k) == x * k;
    assert (a * f) * (4 * (b * k) - x * k) == (a * (4 * b - x)) * (f * k);
    ProductsScale(g, g, f * q);
    assert (f * q) * (f * q) == f * k;
    Distribute(a * (4 * b - x), -(8 * (g * g)), f * k);
  }

  lemma CombinedFrom(u1: int, s1: int, u2: int, s2: int, t: int, e: int, r: int, i: int, j: int, v: int, x: int)
    requires e == u2 - u1 && r == (s2 - s1) + (s2 - s1) && i == (e + e) * (e + e) && j == e * i && v == u1 * i
    requires x == r * r - j - v - v
    ensures Combined(u1, s1, u2, s2, t) == Jac(x, (v - x) * r - s1 * j - s1 * j, t * e)
  {
  }

  lemma ChordScales(e: int, u1: int, r: int, i: int, f: int, q: int, g: int)
    requires q == f * f && g == f * q && i == (e + e) * (e + e)
    ensures (e * q + e * q) * (e * q + e * q) == i * (q * q)
    ensures (e * q) * (i * (q * q)) == (e * i) * (g * g) && (u1 * q) * (i * (q * q)) == (u1 * i) * (g * g)
    ensures (r * g) * (r * g) == (r * r) * (g * g)
  {
    Distribute(e, e, q);
    ProductsScale(e + e, e + e, q);
    ProductsPair(f, q, f, q);
    assert q * (q * q) == g * g;
    ProductsPair(e, q, i, q * q);
    ProductsPair(u1, q, i, q * q);
    ProductsScale(r, r, g);
  }

  /** So is the tail of the additions. */
  lemma CombinedScales(u1: int, s1: int, u2: int, s2: int, t: int, f: int)
    ensures Combined(u1 * (f * f), s1 * (f * (f * f)), u2 * (f * f), s2 * (f * (f * f)), t * f)
         == Scaled(Combined(u1, s1, u2, s2, t), f * (f * f))
  {
    var q := f * f;
    var g := f * q;
    var e, r := u2 - u1, (s2 - s1) + (s2 - s1);
    var i := (e + e) * (e + e);
    var j, v := e * i, u1 * i;
    var x := r * r - j - v - v;
    CombinedFrom(u1, s1, u2, s2, t, e, r, i, j, v, x);
    Distribute(u2, -u1, q);
    Distribute(s2, -s1, g);
    ChordScales(e, u1, r, i, f, q, g);
    CombinedTail(r, j, v, s1, x, g);
    CombinedFrom(u1 * q, s1 * g, u2 * q, s2 * g, t * f, e * q, r * g, i * (q * q), j * (g * g), v * (g * g), x * (g * g));
    ProductsPair(t, f, e, q);
  }

  lemma ProductsPair(a: int, b: int, c: int, d: int)
    ensures (a * b) * (c * d) == (a * c) * (b * d)
  {
  }

  lemma CombinedTail(r: int, j: int, v: int, s1: int, x: int, g: int)
    requires x == r * r - j - v - v
    ensures (r * r) * (g * g) - j * (g * g) - v * (g * g) - v * (g * g) == x * (g * g)
    ensures (v * (g * g) - x * (g * g)) * (r * g) - (s1 * g) * (j * (g * g)) - (s1 * g) * (j * (g * g))
         == ((v - x) * r - s1 * j - s1 * j) * (g * (g * g))
  {
    var k := g * g;
    assert (v * k - x * k) * (r * g) == ((v - x) * r) * (g * k);
    ProductsPair(s1, g, j, k);
  }

  // ---- congruence -------------------------------------------------------------------------------------

  /** The same coordinates modulo m. */
  ghost predicate Same(m: int, p: Jac, q: Jac) {
    Cong(p.x, q.x, m) && Cong(p.y, q.y, m) && Cong(p.z, q.z, m)
  }

  lemma SquareSame(m: int, a: int, b: int)
    requires Cong(a, b, m)
    ensures Cong(a * a, b * b, m)
  {
    CongMul(a, b, a, b, m);
  }

  lemma TimesSame(m: int, k: int, a: int, b: int)
    requires Cong(a, b, m)
    ensures Cong(k * a, k * b, m)
  {
    CongScale(a, b, k, m);
    assert a * k == k * a && b * k == k * b;
  }

  lemma AlphaSame(m: int, x: int, x2: int, d: int, d2: int)
    requires Cong(x, x2, m) && Cong(d, d2, m)
    ensures Cong(3 * ((x + d) * (x - d)), 3 * ((x2 + d2) * (x2 - d2)), m)
  {
    CongAdd(x, x2, d, d2, m);
    CongSub(x, x2, d, d2, m);
    CongMul(x + d, x2 + d2, x - d, x2 - d2, m);
    TimesSame(m, 3, (x + d) * (x - d), (x2 + d2) * (x2 - d2));
  }

  lemma DoubledXSame(m: int, a: int, a2: int, b: int, b2: int)
    requires Cong(a, a2, m) && Cong(b, b2, m)
    ensures Cong(a * a - 8 * b, a2 * a2 - 8 * b2, m)
  {
    SquareSame(m, a, a2);
    TimesSame(m, 8, b, b2);
    CongSub(a * a, a2 * a2, 8 * b, 8 * b2, m);
  }

  lemma DoubledYSame(m: int, a: int, a2: int, b: int, b2: int, x: int, x2: int, g: int, g2: int)
    requires Cong(a, a2, m) && Cong(b, b2, m) && Cong(x, x2, m) && Cong(g, g2, m)
    ensures Cong(a * (4 * b - x) - 8 * (g * g), a2 * (4 * b2 - x2) - 8 * (g2 * g2), m)
  {
    TimesSame(m, 4, b, b2);
    CongSub(4 * b, 4 * b2, x, x2, m);
    CongMul(a, a2, 4 * b - x, 4 * b2 - x2, m);
    SquareSame(m, g, g2);
    TimesSame(m, 8, g * g, g2 * g2);
    CongSub(a * (4 * b - x), a2 * (4 * b2 - x2), 8 * (g * g), 8 * (g2 * g2), m);
  }

  lemma DoubledZSame(m: int, y: int, y2: int, z: int, z2: int, g: int, g2: int, d: int, d2: int)
    requires Cong(y, y2, m) && Cong(z, z2, m) && Cong(g, g2, m) && Cong(d, d2, m)
    ensures Cong((y + z) * (y + z) - g - d, (y2 + z2) * (y2 + z2) - g2 - d2, m)
  {
    CongAdd(y, y2, z, z2, m);
    SquareSame(m, y + z, y2 + z2);
    CongSub((y + z) * (y + z), (y2 + z2) * (y2 + z2), g, g2, m);
    CongSub((y + z) * (y + z) - g, (y2 + z2) * (y2 + z2) - g2, d, d2, m);
  }

  /** Doubling respects congruence. */
  lemma DoubledSame(m: int, p: Jac, q: Jac)
    requires Same(m, p, q)
    ensures Same(m, Doubled(p), Doubled(q))
  {
    var d, d2, g, g2 := p.z * p.z, q.z * q.z, p.y * p.y, q.y * q.y;
    SquareSame(m, p.z, q.z);
    SquareSame(m, p.y, q.y);
    var a, a2 := 3 * ((p.x + d) * (p.x - d)), 3 * ((q.x + d2) * (q.x - d2));
    AlphaSame(m, p.x, q.x, d, d2);
    var b, b2 := p.x * g, q.x * g2;
    CongMul(p.x, q.x, g, g2, m);
    DoubledXSame(m, a, a2, b, b2);
    DoubledYSame(m, a, a2, b, b2, a * a - 8 * b, a2 * a2 - 8 * b2, g, g2);
    DoubledZSame(m, p.y, q.y, p.z, q.z, g, g2, d, d2);
    DoubledFrom(p, d, g, a, b);
    DoubledFrom(q, d2, g2, a2, b2);
  }

  lemma ChordXSame(m: int, r: int, r2: int, j: int, j2: int, v: int, v2: int)
    requires Cong(r, r2, m) && Cong(j, j2, m) && Cong(v, v2, m)
    ensures Cong(r * r - j - v - v, r2 * r2 - j2 - v2 - v2, m)
  {
    SquareSame(m, r, r2);
    CongSub(r * r, r2 * r2, j, j2, m);
    CongSub(r * r - j, r2 * r2 - j2, v, v2, m);
    CongSub(r * r - j - v, r2 * r2 - j2 - v2, v, v2, m);
  }

  lemma ChordYSame(m: int, r: int, r2: int, j: int, j2: int, v: int, v2: int, x: int, x2: int, s: int, s2: int)
    requires Cong(r, r2, m) && Cong(j, j2, m) && Cong(v, v2, m) && Cong(x, x2, m) && Cong(s, s2, m)
    ensures Cong((v - x) * r - s * j - s * j, (v2 - x2) * r2 - s2 * j2 - s2 * j2, m)
  {
    CongSub(v, v2, x, x2, m);
    CongMul(v - x, v2 - x2, r, r2, m);
    CongMul(s, s2, j, j2, m);
    CongSub((v - x) * r, (v2 - x2) * r2, s * j, s2 * j2, m);
    CongSub((v - x) * r - s * j, (v2 - x2) * r2 - s2 * j2, s * j, s2 * j2, m);
  }

  /** So does the tail of the additions. */
  lemma CombinedSame(m: int, u1: int, s1: int, u2: int, s2: int, t: int, w1: int, y1: int, w2: int, y2: int, t2: int)
    requires Cong(u1, w1, m) && Cong(s1, y1, m) && Cong(u2, w2, m) && Cong(s2, y2, m) && Cong(t, t2, m)
    ensures Same(m, Combined(u1, s1, u2, s2, t), Combined(w1, y1, w2, y2, t2))
  {
    var e, f, r, q := u2 - u1, w2 - w1, (s2 - s1) + (s2 - s1), (y2 - y1) + (y2 - y1);
    CongSub(u2, w2, u1, w1, m);
    CongSub(s2, y2, s1, y1, m);
    CongAdd(s2 - s1, y2 - y1, s2 - s1, y2 - y1, m);
    var i, h := (e + e) * (e + e), (f + f) * (f + f);
    CongAdd(e, f, e, f, m);
    SquareSame(m, e + e, f + f);
    CongMul(e, f, i, h, m);
    CongMul(u1, w1, i, h, m);
    CongMul(t, t2, e, f, m);
    var x, z := r * r - e * i - u1 * i - u1 * i, q * q - f * h - w1 * h - w1 * h;
    ChordXSame(m, r, q, e * i, f * h, u1 * i, w1 * h);
    ChordYSame(m, r, q, e * i, f * h, u1 * i, w1 * h, x, z, s1, y1);
    CombinedFrom(u1, s1, u2, s2, t, e, r, i, e * i, u1 * i, x);
    CombinedFrom(w1, y1, w2, y2, t2, f, q, h, f * h, w1 * h, z);
  }

  /** Cross-multiplied coordinates of scaled points. */
  lemma CrossScales(p: Jac, q: Jac, l: int, k: int, f: int)
    requires f == l * k
    ensures CrossX(Scaled(p, l), Scaled(q, k)) == CrossX(p, q) * (f * f)
    ensures CrossY(Scaled(p, l), Scaled(q, k)) == CrossY(p, q) * (f * (f * f))
    ensures CrossZ(Scaled(p, l), Scaled(q, k)) == CrossZ(p, q) * f
  {
    ProductsPair(l, k, l, k);
    ProductsScale(q.z, q.z, k);
    ProductsPair(p.x, l * l, q.z * q.z, k * k);
    ProductsPair(q.z, k, q.z * q.z, k * k);
    ProductsPair(p.y, l * (l * l), q.z * (q.z * q.z), k * (k * k));
    ProductsPair(l, l * l, k, k * k);
    CrossZIs(p, q);
    CrossZIs(Scaled(p, l), Scaled(q, k));
    ProductsPair(p.z, l, q.z, k);
  }

  lemma CrossSame(m: int, p: Jac, q: Jac, r: Jac, s: Jac)
    requires Same(m, p, r) && Same(m, q, s)
    ensures Cong(CrossX(p, q), CrossX(r, s), m) && Cong(CrossY(p, q), CrossY(r, s), m) && Cong(CrossZ(p, q), CrossZ(r, s), m)
  {
    SquareSame(m, q.z, s.z);
    CongMul(p.x, r.x, q.z * q.z, s.z * s.z, m);
    CongMul(q.z, s.z, q.z * q.z, s.z * s.z, m);
    CongMul(p.y, r.y, q.z * (q.z * q.z), s.z * (s.z * s.z), m);
    CongMul(p.z, r.z, q.z, s.z, m);
    TimesSame(m, 2, p.z * q.z, r.z * s.z);
    CrossZIs(p, q);
    CrossZIs(r, s);
  }

  // ---- points that stand for affine points ----------------------------------------------------------------

  /** p stands for the affine point (x, y): p.x is x z^2 and p.y is y z^3 modulo m, z not zero. */
  ghost predicate StandsFor(m: int, p: Jac, x: int, y: int) {
    !Cong(p.z, 0, m) && Same(m, p, Scaled(Jac(x, y, 1), p.z))
  }

  lemma SameTrans(m: int, p: Jac, q: Jac, r: Jac)
    requires Same(m, p, q) && Same(m, q, r)
    ensures Same(m, p, r)
  {
    CongTrans(p.x, q.x, r.x, m);
    CongTrans(p.y, q.y, r.y, m);
    CongTrans(p.z, q.z, r.z, m);
  }

  lemma ScaledSame(m: int, p: Jac, q: Jac, l: int, k: int)
    requires Same(m, p, q) && Cong(l, k, m)
    ensures Same(m, Scaled(p, l), Scaled(q, k))
  {
    SquareSame(m, l, k);
    CongMul(l, k, l * l, k * k, m);
    CongMul(p.x, q.x, l * l, k * k, m);
    CongMul(p.y, q.y, l * (l * l), k * (k * k), m);
    CongMul(p.z, q.z, l, k, m);
  }

  lemma ScaledTwice(p: Jac, l: int, k: int)
    ensures Scaled(Scaled(p, l), k) == Scaled(p, l * k)
  {
    ProductsPair(l, k, l, k);
    assert (p.x * (l * l)) * (k * k) == p.x * ((l * l) * (k * k));
    ProductsPair(l, l * l, k, k * k);
    assert (p.y * (l * (l * l))) * (k * (k * k)) == p.y * ((l * (l * l)) * (k * (k * k)));
  }

  /** There are no zero divisors modulo a prime. */
  lemma NonZeroProduct(m: int, a: int, b: int)
    requires Prime(m) && !Cong(a, 0, m) && !Cong(b, 0, m)
    ensures !Cong(a * b, 0, m)
  {
    if Cong(a * b, 0, m) {
      var i := InverseModulo(m, a);
      CongScale(a * b, 0, i, m);
      CongScale(a * i, 1, b, m);
      assert (a * b) * i == (a * i) * b;
      CongSym((a * i) * b, 1 * b, m);
      CongTrans(b, (a * i) * b, 0, m);
    }
  }

  lemma InverseModulo(m: int, a: int) returns (i: int)
    requires Prime(m) && !Cong(a, 0, m)
    ensures Cong(a * i, 1, m)
  {
    CongReduce(a, m);
    if a % m == 0 {
      CongSym(a % m, a, m);
    }
    i := PrimeInverse(m, a % m);
    CongSym(a % m, a, m);
    CongScale(a, a % m, i, m);
    CongTrans(a * i, a % m * i, 1, m);
  }

  lemma NonZeroSame(m: int, a: int, b: int)
    requires Cong(a, b, m) && !Cong(b, 0, m)
    ensures !Cong(a, 0, m)
  {
    if Cong(a, 0, m) {
      CongSym(a, b, m);
      CongTrans(b, a, 0, m);
    }
  }

  /** Scaling and congruence do not change what a point stands for. */
  lemma StandsFrom(m: int, p: Jac, q: Jac, l: int, x: int, y: int)
    requires Prime(m) && StandsFor(m, q, x, y) && Same(m, p, Scaled(q, l)) && !Cong(l, 0, m)
    ensures StandsFor(m, p, x, y)
  {
    var a := Jac(x, y, 1);
    NonZeroProduct(m, q.z, l);
    NonZeroSame(m, p.z, q.z * l);
    CongRefl(l, m);
    ScaledSame(m, q, Scaled(a, q.z), l, l);
    ScaledTwice(a, q.z, l);
    SameTrans(m, p, Scaled(q, l), Scaled(a, q.z * l));
    CongSym(p.z, q.z * l, m);
    SameRefl(m, a);
    ScaledSame(m, a, a, q.z * l, p.z);
    SameTrans(m, p, Scaled(a, q.z * l), Scaled(a, p.z));
  }

  lemma SameRefl(m: int, p: Jac)
    ensures Same(m, p, p)
  {
    CongRefl(p.x, m);
    CongRefl(p.y, m);
    CongRefl(p.z, m);
  }

  // ---- the law on affine coordinates ------------------------------------------------------------------------

  /** (x2, y2) is the double of (x, y) on y^2 = x^3 - 3x + b: the tangent of slope (3x^2 - 3)/(2y),
      cleared of denominators. */
  ghost predicate Tangent(m: int, x: int, y: int, x2: int, y2: int) {
    var l, u := 3 * (x * x - 1), 2 * y;
    && Cong(x2 * (u * u), l * l - 2 * x * (u * u), m)
    && Cong(y2 * (u * (u * u)), l * (x * (u * u) - x2 * (u * u)) - y * (u * (u * u)), m)
  }

  /** (x3, y3) is the sum of (x1, y1) and (x2, y2): the chord of slope (y2 - y1)/(x2 - x1). */
  ghost predicate Chord(m: int, x1: int, y1: int, x2: int, y2: int, x3: int, y3: int) {
    var e, s := x2 - x1, y2 - y1;
    && Cong(x3 * (e * e), s * s - (x1 + x2) * (e * e), m)
    && Cong(y3 * (e * (e * e)), s * (x1 * (e * e) - x3 * (e * e)) - y1 * (e * (e * e)), m)
  }

  lemma ThirdCoordinate(m: int, l: int, a: int, b: int, b2: int, c: int, y: int)
    requires Cong(b, b2, m) && Cong(y, l * (a - b2) - c, m)
    ensures Cong(l * (a - b) - c, y, m)
  {
    CongRefl(a, m);
    CongRefl(c, m);
    CongSub(a, a, b, b2, m);
    TimesSame(m, l, a - b, a - b2);
    CongSub(l * (a - b), l * (a - b2), c, c, m);
    CongSym(y, l * (a - b2) - c, m);
    CongTrans(l * (a - b) - c, l * (a - b2) - c, y, m);
  }

  lemma TangentPoint(m: int, x: int, y: int, x2: int, y2: int)
    requires Tangent(m, x, y, x2, y2) && !Cong(2 * y, 0, m)
    ensures StandsFor(m, Doubled(Jac(x, y, 1)), x2, y2)
  {
    var q := Jac(x, y, 1);
    var l, u, d := 3 * (x * x - 1), 2 * y, Doubled(q);
    TangentLaw(q);
    CongSym(x2 * (u * u), l * l - 2 * x * (u * u), m);
    ThirdCoordinate(m, l, x * (u * u), d.x, x2 * (u * u), y * (u * (u * u)), y2 * (u * (u * u)));
    CongRefl(u, m);
  }

  lemma DoubledPower(x: int, e: int)
    ensures 4 * (x * (e * e)) == x * ((2 * e) * (2 * e)) && 8 * (x * (e * (e * e))) == x * ((2 * e) * ((2 * e) * (2 * e)))
  {
    ProductsPair(2, e, 2, e);
    assert (2 * e) * (4 * (e * e)) == 8 * (e * (e * e));
  }

  lemma ChordSides(m: int, x1: int, y1: int, e: int, s: int, x3: int, y3: int, q: int, x: int)
    requires q == e * e && Cong(x3 * q, x, m)
    requires Cong(y3 * (e * q), s * (x1 * q - x3 * q) - y1 * (e * q), m)
    ensures Cong(x, x3 * q, m) && Cong(s * (x1 * q - x) - y1 * (e * q), y3 * (e * q), m)
  {
    CongSym(x3 * q, x, m);
    ThirdCoordinate(m, s, x1 * q, x, x3 * q, y1 * (e * q), y3 * (e * q));
  }

  lemma FourTimes(m: int, c: int, x: int, x3: int, e: int)
    requires c == 4 * x && Cong(x, x3 * (e * e), m)
    ensures Cong(c, x3 * ((2 * e) * (2 * e)), m)
  {
    TimesSame(m, 4, x, x3 * (e * e));
    DoubledPower(x3, e);
  }

  lemma EightTimes(m: int, c: int, w: int, y3: int, e: int)
    requires c == 8 * w && Cong(w, y3 * (e * (e * e)), m)
    ensures Cong(c, y3 * ((2 * e) * ((2 * e) * (2 * e))), m)
  {
    TimesSame(m, 8, w, y3 * (e * (e * e)));
    DoubledPower(y3, e);
  }

  lemma ChordPoint(m: int, x1: int, y1: int, x2: int, y2: int, x3: int, y3: int, c: Jac)
    requires Chord(m, x1, y1, x2, y2, x3, y3) && !Cong(2 * (x2 - x1), 0, m) && c == Combined(x1, y1, x2, y2, 2)
    ensures StandsFor(m, c, x3, y3)
  {
    var e, s := x2 - x1, y2 - y1;
    var q := e * e;
    var x := s * s - (x1 + x2) * q;
    ChordLaw(x1, y1, x2, y2, 2);
    ChordSides(m, x1, y1, e, s, x3, y3, q, x);
    FourTimes(m, c.x, x, x3, e);
    EightTimes(m, c.y, s * (x1 * q - x) - y1 * (e * q), y3, e);
    CongRefl(2 * e, m);
  }

  // ---- the formulas on such points ----------------------------------------------------------------------------

  lemma Power4NonZero(m: int, z: int)
    requires Prime(m) && !Cong(z, 0, m)
    ensures !Cong((z * z) * (z * z), 0, m)
  {
    NonZeroProduct(m, z, z);
    NonZeroProduct(m, z * z, z * z);
  }

  /** point_double doubles. */
  lemma DoubledStands(m: int, p: Jac, x: int, y: int, x2: int, y2: int)
    requires Prime(m) && StandsFor(m, p, x, y) && Tangent(m, x, y, x2, y2) && !Cong(2 * y, 0, m)
    ensures StandsFor(m, Doubled(p), x2, y2)
  {
    var a := Jac(x, y, 1);
    TangentPoint(m, x, y, x2, y2);
    DoubledSame(m, p, Scaled(a, p.z));
    DoubledScales(a, p.z);
    Power4NonZero(m, p.z);
    StandsFrom(m, Doubled(p), Doubled(a), (p.z * p.z) * (p.z * p.z), x2, y2);
  }

  lemma CubeNonZero(m: int, f: int)
    requires Prime(m) && !Cong(f, 0, m)
    ensures !Cong(f * f, 0, m) && !Cong(f * (f * f), 0, m)
  {
    NonZeroProduct(m, f, f);
    NonZeroProduct(m, f, f * f);
  }

  lemma CrossAffine(x1: int, y1: int, x2: int, y2: int)
    ensures CrossX(Jac(x1, y1, 1), Jac(x2, y2, 1)) == x1 && CrossY(Jac(x1, y1, 1), Jac(x2, y2, 1)) == y1
    ensures CrossZ(Jac(x1, y1, 1), Jac(x2, y2, 1)) == 2
  {
  }

  /** The cross-multiplied coordinates of two points that stand for affine points. */
  lemma CrossStands(m: int, p: Jac, q: Jac, x1: int, y1: int, x2: int, y2: int, f: int)
    requires StandsFor(m, p, x1, y1) && StandsFor(m, q, x2, y2) && f == p.z * q.z
    ensures Cong(CrossX(p, q), x1 * (f * f), m) && Cong(CrossY(p, q), y1 * (f * (f * f)), m) && Cong(CrossZ(p, q), 2 * f, m)
  {
    var a, b := Jac(x1, y1, 1), Jac(x2, y2, 1);
    CrossSame(m, p, q, Scaled(a, p.z), Scaled(b, q.z));
    CrossScales(a, b, p.z, q.z, f);
    CrossAffine(x1, y1, x2, y2);
  }

  lemma AddedFrom(m: int, p: Jac, q: Jac, x1: int, y1: int, x2: int, y2: int, f: int)
    requires StandsFor(m, p, x1, y1) && StandsFor(m, q, x2, y2) && f == p.z * q.z
    ensures Same(m, Added(p, q), Combined(x1 * (f * f), y1 * (f * (f * f)), x2 * (f * f), y2 * (f * (f * f)), 2 * f))
  {
    CrossStands(m, p, q, x1, y1, x2, y2, f);
    CrossStands(m, q, p, x2, y2, x1, y1, q.z * p.z);
    assert q.z * p.z == f;
    CombinedSame(m, CrossX(p, q), CrossY(p, q), CrossX(q, p), CrossY(q, p), CrossZ(p, q),
                 x1 * (f * f), y1 * (f * (f * f)), x2 * (f * f), y2 * (f * (f * f)), 2 * f);
  }

  /** point_add adds. */
  lemma AddedStands(m: int, p: Jac, q: Jac, x1: int, y1: int, x2: int, y2: int, x3: int, y3: int)
    requires Prime(m) && StandsFor(m, p, x1, y1) && StandsFor(m, q, x2, y2)
    requires Chord(m, x1, y1, x2, y2, x3, y3) && !Cong(2 * (x2 - x1), 0, m)
    ensures StandsFor(m, Added(p, q), x3, y3)
  {
    AddedFrom(m, p, q, x1, y1, x2, y2, p.z * q.z);
    NonZeroProduct(m, p.z, q.z);
    CombinedStands(m, Added(p, q), x1, y1, x2, y2, x3, y3, p.z * q.z);
  }

  lemma CombinedStands(m: int, r: Jac, x1: int, y1: int, x2: int, y2: int, x3: int, y3: int, f: int)
    requires Prime(m) && Chord(m, x1, y1, x2, y2, x3, y3) && !Cong(2 * (x2 - x1), 0, m) && !Cong(f, 0, m)
    requires Same(m, r, Combined(x1 * (f * f), y1 * (f * (f * f)), x2 * (f * f), y2 * (f * (f * f)), 2 * f))
    ensures StandsFor(m, r, x3, y3)
  {
    ChordPoint(m, x1, y1, x2, y2, x3, y3, Combined(x1, y1, x2, y2, 2));
    CombinedScales(x1, y1, x2, y2, 2, f);
    CubeNonZero(m, f);
    StandsFrom(m, r, Combined(x1, y1, x2, y2, 2), f * (f * f), x3, y3);
  }

  /** point_add_mixed adds an affine point. */
  lemma AddedMixedStands(m: int, p: Jac, x1: int, y1: int, u: int, v: int, x2: int, y2: int, x3: int, y3: int)
    requires Prime(m) && StandsFor(m, p, x1, y1) && Cong(u, x2, m) && Cong(v, y2, m)
    requires Chord(m, x1, y1, x2, y2, x3, y3) && !Cong(2 * (x2 - x1), 0, m)
    ensures StandsFor(m, AddedMixed(p, u, v), x3, y3)
  {
    var f := p.z;
    CongRefl(f * f, m);
    CongMul(u, x2, f * f, f * f, m);
    CongRefl(f * (f * f), m);
    CongMul(v, y2, f * (f * f), f * (f * f), m);
    CongRefl(f + f, m);
    CombinedSame(m, p.x, p.y, u * (f * f), v * (f * (f * f)), f + f,
                 x1 * (f * f), y1 * (f * (f * f)), x2 * (f * f), y2 * (f * (f * f)), 2 * f);
    CombinedStands(m, AddedMixed(p, u, v), x1, y1, x2, y2, x3, y3, f);
  }

  // ---- the group law follows -------------------------------------------------------------------------------------

  /** The affine coordinates of the nonzero multiples of the base point, in the field of m elements. */
  datatype Points = Points(m: int, x: int -> int, y: int -> int)

  ghost predicate Reduced(c: Points) {
    && (forall k: int :: 0 < k < N ==> 0 <= c.x(k) < c.m)
    && (forall k: int :: 0 < k < N ==> 0 <= c.y(k) < c.m)
  }

  /** They are told apart by their coordinates, up to sign by the first, and never on the x axis. */
  ghost predicate Apart(c: Points) {
    && Prime(c.m) && c.m > 2
    && (forall k: int :: 0 < k < N ==> !Cong(c.y(k), 0, c.m))
    && (forall a: int, b: int :: 0 < a < N && 0 < b < N ==> (Cong(c.x(a), c.x(b), c.m) <==> a == b || a + b == N))
    && (forall a: int, b: int :: 0 < a < N && 0 < b < N && Cong(c.x(a), c.x(b), c.m) && Cong(c.y(a), c.y(b), c.m) ==> a == b)
  }

  ghost function SumOf(a: int, b: int): int {
    (a + b) % N
  }

  /** They are added by tangent and chord. */
  ghost predicate AddedUp(c: Points) {
    && (forall a: int {:trigger SumOf(a, a)} :: 0 < a < N ==> Tangent(c.m, c.x(a), c.y(a), c.x(SumOf(a, a)), c.y(SumOf(a, a))))
    && (forall a: int, b: int {:trigger SumOf(a, b)} :: 0 < a < N && 0 < b < N && Unrelated(a, b)
          ==> Chord(c.m, c.x(a), c.y(a), c.x(b), c.y(b), c.x(SumOf(a, b)), c.y(SumOf(a, b))))
  }

  /** What is known of the multiples. Nothing here mentions the formulas. */
  ghost predicate AffineGroup(c: Points) {
    Apart(c) && AddedUp(c) && Prime(N)
  }

  ghost predicate StandsAt(c: Points, p: Jac, k: int) {
    0 < k < N && StandsFor(c.m, p, c.x(k), c.y(k))
  }

  /** The multiple coordinates stand for. */
  ghost function Reading(c: Points, p: Jac): Element {
    if Cong(p.z, 0, c.m) then Infinity
    else if exists k: int :: StandsAt(c, p, k) then var k: int :| StandsAt(c, p, k); Multiple(k)
    else Junk
  }

  ghost function CurveOf(c: Points): Curve {
    Curve((p: Jac) => Reading(c, p), c.x, c.y)
  }

  lemma CancelNonZero(m: int, a: int, b: int, q: int, v: int)
    requires Prime(m) && !Cong(q, 0, m) && Cong(v, a * q, m) && Cong(v, b * q, m)
    ensures Cong(a, b, m)
  {
    CongSym(v, a * q, m);
    CongTrans(a * q, v, b * q, m);
    var i := InverseModulo(m, q);
    CongCancel(a, b, q, i, m);
  }

  /** A point stands for one affine point only. */
  lemma StandsUnique(m: int, p: Jac, x1: int, y1: int, x2: int, y2: int)
    requires Prime(m) && StandsFor(m, p, x1, y1) && StandsFor(m, p, x2, y2)
    ensures Cong(x1, x2, m) && Cong(y1, y2, m)
  {
    CubeNonZero(m, p.z);
    CancelNonZero(m, x1, x2, p.z * p.z, p.x);
    CancelNonZero(m, y1, y2, p.z * (p.z * p.z), p.y);
  }

  lemma ReadingIs(c: Points, p: Jac, k: int)
    requires Apart(c)
    ensures IsMultiple(CurveOf(c), p, k) <==> StandsAt(c, p, k)
  {
    if StandsAt(c, p, k) {
      var a: int :| Reading(c, p) == Multiple(a) && StandsAt(c, p, a);
      StandsUnique(c.m, p, c.x(a), c.y(a), c.x(k), c.y(k));
    }
  }

  lemma TwiceNonZero(m: int, a: int)
    requires Prime(m) && m > 2 && !Cong(a, 0, m)
    ensures !Cong(2 * a, 0, m)
  {
    if Cong(2, 0, m) {
      CongUnique(2, 0, m);
    }
    NonZeroProduct(m, 2, a);
  }

  /** The sum of multiples is no multiple of the order unless they are opposite, nor is a double. */
  lemma SumInRange(a: int, b: int)
    requires 0 < a < N && 0 < b < N && a + b != N
    ensures 0 < (a + b) % N < N
  {
  }

  lemma OddOrder(a: int)
    ensures a + a != N
  {
  }

  lemma DoubleTangent(c: Points, k: int, d: int)
    requires AddedUp(c) && 0 < k < N && d == 2 * k % N
    ensures Tangent(c.m, c.x(k), c.y(k), c.x(d), c.y(d))
  {
    assert SumOf(k, k) == d;
  }

  lemma DoublingHolds(c: Points, p: Jac, k: int, d: int)
    requires Apart(c) && AddedUp(c) && StandsAt(c, p, k) && d == 2 * k % N
    ensures StandsAt(c, Doubled(p), d)
  {
    OddOrder(k);
    SumInRange(k, k);
    TwiceNonZero(c.m, c.y(k));
    DoubleTangent(c, k, d);
    DoubledStands(c.m, p, c.x(k), c.y(k), c.x(d), c.y(d));
  }

  /** Unrelated multiples differ in their x coordinates. */
  lemma ApartNonZero(m: int, x1: int, x2: int)
    requires Prime(m) && m > 2 && !Cong(x2, x1, m)
    ensures !Cong(2 * (x2 - x1), 0, m)
  {
    if Cong(x2 - x1, 0, m) {
      CongRefl(x1, m);
      CongAdd(x2 - x1, 0, x1, x1, m);
    }
    TwiceNonZero(m, x2 - x1);
  }

  lemma AffineStands(m: int, x: int, y: int, x2: int, y2: int)
    requires StandsFor(m, Jac(x, y, 1), x2, y2)
    ensures Cong(x, x2, m) && Cong(y, y2, m)
  {
  }

  /** Two unrelated multiples and their sum. */
  lemma SumChord(c: Points, a: int, b: int, k: int)
    requires AddedUp(c) && 0 < a < N && 0 < b < N && Unrelated(a, b) && k == (a + b) % N
    ensures Chord(c.m, c.x(a), c.y(a), c.x(b), c.y(b), c.x(k), c.y(k))
  {
    assert SumOf(a, b) == k;
  }

  lemma SumApart(c: Points, a: int, b: int)
    requires Apart(c) && 0 < a < N && 0 < b < N && Unrelated(a, b)
    ensures !Cong(2 * (c.x(b) - c.x(a)), 0, c.m)
  {
    ApartNonZero(c.m, c.x(a), c.x(b));
  }

  lemma AdditionHolds(c: Points, p: Jac, a: int, q: Jac, b: int, k: int)
    requires Apart(c) && AddedUp(c) && StandsAt(c, p, a) && StandsAt(c, q, b) && Unrelated(a, b) && k == (a + b) % N
    ensures StandsAt(c, Added(p, q), k)
  {
    SumInRange(a, b);
    SumChord(c, a, b, k);
    SumApart(c, a, b);
    AddedStands(c.m, p, q, c.x(a), c.y(a), c.x(b), c.y(b), c.x(k), c.y(k));
  }

  lemma MixedHolds(c: Points, p: Jac, a: int, x: int, y: int, b: int, k: int)
    requires Apart(c) && AddedUp(c) && StandsAt(c, p, a) && StandsAt(c, Jac(x, y, 1), b) && Unrelated(a, b) && k == (a + b) % N
    ensures StandsAt(c, AddedMixed(p, x, y), k)
  {
    SumInRange(a, b);
    SumChord(c, a, b, k);
    SumApart(c, a, b);
    AffineStands(c.m, x, y, c.x(b), c.y(b));
    AddedMixedStands(c.m, p, c.x(a), c.y(a), x, y, c.x(b), c.y(b), c.x(k), c.y(k));
  }

  /** A difference of cross-multiplied coordinates vanishes exactly when the coordinates agree. */
  lemma DifferenceVanishes(m: int, u: int, v: int, a: int, b: int, q: int)
    requires Prime(m) && !Cong(q, 0, m) && Cong(u, a * q, m) && Cong(v, b * q, m)
    ensures Cong(v - u, 0, m) <==> Cong(a, b, m)
  {
    CongSub(v, b * q, u, a * q, m);
    if Cong(a, b, m) {
      CongScale(a, b, q, m);
      CongSub(b * q, b * q, a * q, b * q, m) by {
        CongRefl(b * q, m);
      }
      CongTrans(v - u, b * q - a * q, 0, m);
    }
    if Cong(v - u, 0, m) {
      CongRefl(u, m);
      CongAdd(v - u, 0, u, u, m);
      CongSym(v, u, m);
      CongTrans(u, v, b * q, m);
      CancelNonZero(m, a, b, q, u);
    }
  }

  lemma CoordinatesHold(c: Points, p: Jac, a: int, q: Jac, b: int)
    requires Apart(c) && c.m == P && StandsAt(c, p, a) && StandsAt(c, q, b)
    ensures Cong(CrossX(q, p) - CrossX(p, q), 0, P) <==> a == b || a + b == N
    ensures SameAffine(p, q) <==> a == b
  {
    CoordinatesAgree(c.m, p, q, c.x(a), c.y(a), c.x(b), c.y(b), p.z * q.z);
    CongRefl(c.y(a), c.m);
  }

  lemma CoordinatesAgree(m: int, p: Jac, q: Jac, x1: int, y1: int, x2: int, y2: int, f: int)
    requires Prime(m) && StandsFor(m, p, x1, y1) && StandsFor(m, q, x2, y2) && f == p.z * q.z
    ensures Cong(CrossX(q, p) - CrossX(p, q), 0, m) <==> Cong(x1, x2, m)
    ensures Cong(CrossY(q, p) - CrossY(p, q), 0, m) <==> Cong(y1, y2, m)
  {
    CrossStands(m, p, q, x1, y1, x2, y2, f);
    CrossStands(m, q, p, x2, y2, x1, y1, q.z * p.z);
    assert q.z * p.z == f;
    NonZeroProduct(m, p.z, q.z);
    CubeNonZero(m, f);
    DifferenceVanishes(m, CrossX(p, q), CrossX(q, p), x1, x2, f * f);
    DifferenceVanishes(m, CrossY(p, q), CrossY(q, p), y1, y2, f * (f * f));
  }

  lemma DividedIs(m: int, v: int, x: int, q: int, i: int)
    requires Cong(v, x * q, m) && Cong(q * i, 1, m)
    ensures Cong(v * i, x, m)
  {
    CongScale(v, x * q, i, m);
    CongScale(q * i, 1, x, m);
    assert (x * q) * i == (q * i) * x;
    CongTrans(v * i, (x * q) * i, x, m);
  }

  lemma DividedHolds(m: int, p: Jac, x: int, y: int, i: int)
    requires StandsFor(m, p, x, y) && Cong(p.z * i, 1, m)
    ensures Cong(DividedX(p, i), x, m) && Cong(DividedY(p, i), y, m)
  {
    CongMul(p.z * i, 1, p.z * i, 1, m);
    ProductsPair(p.z, i, p.z, i);
    CongMul(p.z * i, 1, (p.z * p.z) * (i * i), 1, m);
    ProductsPair(p.z, i, p.z * p.z, i * i);
    DividedIs(m, p.x, x, p.z * p.z, i * i);
    DividedIs(m, p.y, y, p.z * (p.z * p.z), i * (i * i));
  }

  lemma DoublingLawHolds(c: Points)
    requires Apart(c) && AddedUp(c)
    ensures DoublingLaw(CurveOf(c))
  {
    forall p: Jac, k: int | IsMultiple(CurveOf(c), p, k)
      ensures 0 < k < N && IsMultiple(CurveOf(c), Doubled(p), 2 * k % N)
    {
      ReadingIs(c, p, k);
      DoublingHolds(c, p, k, 2 * k % N);
      ReadingIs(c, Doubled(p), 2 * k % N);
    }
  }

  lemma AdditionLawHolds(c: Points)
    requires Apart(c) && AddedUp(c)
    ensures AdditionLaw(CurveOf(c))
  {
    forall p: Jac, a: int, q: Jac, b: int | IsMultiple(CurveOf(c), p, a) && IsMultiple(CurveOf(c), q, b) && Unrelated(a, b)
      ensures IsMultiple(CurveOf(c), Added(p, q), (a + b) % N)
    {
      ReadingIs(c, p, a);
      ReadingIs(c, q, b);
      AdditionHolds(c, p, a, q, b, (a + b) % N);
      ReadingIs(c, Added(p, q), (a + b) % N);
    }
  }

  lemma MixedLawHolds(c: Points)
    requires Apart(c) && AddedUp(c)
    ensures MixedLaw(CurveOf(c))
  {
    forall p: Jac, a: int, x: int, y: int, b: int
      | IsMultiple(CurveOf(c), p, a) && IsMultiple(CurveOf(c), Jac(x, y, 1), b) && Unrelated(a, b)
      ensures IsMultiple(CurveOf(c), AddedMixed(p, x, y), (a + b) % N)
    {
      ReadingIs(c, p, a);
      ReadingIs(c, Jac(x, y, 1), b);
      MixedHolds(c, p, a, x, y, b, (a + b) % N);
      ReadingIs(c, AddedMixed(p, x, y), (a + b) % N);
    }
  }

  lemma CoordinateLawHolds(c: Points)
    requires Apart(c) && c.m == P
    ensures CoordinateLaw(CurveOf(c))
  {
    forall p: Jac, a: int, q: Jac, b: int | IsMultiple(CurveOf(c), p, a) && IsMultiple(CurveOf(c), q, b)
      ensures (Cong(CrossX(q, p) - CrossX(p, q), 0, P) <==> a == b || a + b == N) && (SameAffine(p, q) <==> a == b)
    {
      ReadingIs(c, p, a);
      ReadingIs(c, q, b);
      CoordinatesHold(c, p, a, q, b);
    }
  }

  lemma DividedCurve(c: Points, p: Jac, k: int, i: int)
    requires Apart(c) && IsMultiple(CurveOf(c), p, k) && Cong(p.z * i, 1, c.m)
    ensures Cong(DividedX(p, i), c.x(k), c.m) && Cong(DividedY(p, i), c.y(k), c.m)
  {
    ReadingIs(c, p, k);
    DividedHolds(c.m, p, c.x(k), c.y(k), i);
  }

  lemma ZeroIsInfinite(c: Points, p: Jac)
    requires Cong(p.z, 0, c.m)
    ensures CurveOf(c).rep(p) == Infinity
  {
  }

  lemma DivisionLawHolds(c: Points, u: Curve)
    requires Apart(c) && c.m == P && u == CurveOf(c)
    ensures DivisionLaw(u)
  {
    forall p: Jac, k: int, i: int | IsMultiple(u, p, k) && Cong(p.z * i, 1, c.m)
      ensures Cong(DividedX(p, i), u.x(k), c.m) && Cong(DividedY(p, i), u.y(k), c.m)
    {
      DividedCurve(c, p, k, i);
    }
  }

  lemma AffineLawHolds(c: Points, u: Curve)
    requires Reduced(c) && c.m == P && u == CurveOf(c) && DivisionLaw(u)
    ensures AffineLaw(u)
  {
    forall p: Jac | Cong(p.z, 0, c.m)
      ensures u.rep(p) == Infinity
    {
      ZeroIsInfinite(c, p);
    }
  }

  /** What the scalar multiplications ask of a curve holds of every group that is added by chord and
      tangent: the formulas compute both. */
  lemma GroupLawHolds(c: Points)
    requires AffineGroup(c) && Reduced(c) && c.m == P
    ensures GroupLaw(CurveOf(c))
  {
    DoublingLawHolds(c);
    AdditionLawHolds(c);
    MixedLawHolds(c);
    CoordinateLawHolds(c);
    DivisionLawHolds(c, CurveOf(c));
    AffineLawHolds(c, CurveOf(c));
  }
}
