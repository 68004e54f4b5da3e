/** The public entry points of p256_ec.c: p256_base_point_mul and p256_points_mul_vartime, from
    256-bit integers to 256-bit integers. */
module PointsMul {
  import opened Words
  import opened Modular
  import opened Digits
  import opened P256
  import P256Arith
  import opened Felem
  import opened FelemInv
  import FelemMul
  import opened Jacobian
  import opened ScalarMult
  import opened Montgomery

  /** Fermat's little theorem for p. */
  ghost predicate Fermat() {
    forall a: int :: !Cong(a, 0, P) ==> Cong(Pow(a, P - 1), 1, P)
  }

  // ---- out of affine form ------------------------------------------------------------------

  /** from_montgomery of an affine coordinate. */
  method Unload(out: array<u32>, s: seq<u32>, ghost x: int)
    requires out.Length == 8 && Kept(s, x) && FelemMul.Settled(s)
    modifies out
    ensures 0 <= Nat(out[..]) < P && Cong(Nat(out[..]), x, P)
  {
    var a := ToArray(s);
    FromMontgomery(out, a);
    SettledIsExact(s);
    CongTrans(Nat(out[..]), Value(s) * RINV, x, P);
  }

  // ---- affine coordinates --------------------------------------------------------------------

  lemma MultipleIsFinite(c: Curve, v: Jac, k: int)
    requires GroupLaw(c) && IsMultiple(c, v, k)
    ensures !Cong(v.z, 0, P)
  {
  }

  lemma AffineOfMultiple(c: Curve, v: Jac, k: int)
    requires GroupLaw(c) && Fermat() && IsMultiple(c, v, k)
    ensures Cong(AffineX(v), c.x(k), P) && Cong(AffineY(v), c.y(k), P)
  {
    MultipleIsFinite(c, v, k);
    var i := Pow(v.z, P - 2);
    CongRefl(i, P);
    InverseByFermat(v.z, i);
    assert AffineX(v) == DividedX(v, i) && AffineY(v) == DividedY(v, i);
  }

  lemma ZeroTimes(a: int, b: int)
    requires Cong(b, 0, P)
    ensures Cong(a * b, 0, P) && Cong(b * a, 0, P)
  {
    CongScale(b, 0, a, P);
    assert b * a == a * b;
  }

  /** Infinity has the affine coordinates (0, 0), as the comment on point_to_affine says. */
  lemma AffineOfInfinity(v: Jac, n: nat)
    requires Cong(v.z, 0, P) && n == P - 2
    ensures Cong(AffineX(v), 0, P) && Cong(AffineY(v), 0, P)
  {
    var i := Pow(v.z, n);
    assert i == v.z * Pow(v.z, n - 1);
    ZeroTimes(Pow(v.z, n - 1), v.z);
    ZeroTimes(i, i);
    ZeroTimes(i, i * i);
    ZeroTimes(v.x, i * i);
    ZeroTimes(v.y, i * (i * i));
  }

  /** So has (0, 0, 1), what scalar_base_mult leaves for scalar 0. */
  lemma AffineOfOrigin(v: Jac)
    requires v.x == 0 && v.y == 0
    ensures AffineX(v) == 0 && AffineY(v) == 0
  {
  }

  /** The coordinates written for k times the base point, 0 <= k < N: those of the point,
      or (0, 0) for infinity. */
  ghost predicate Written(c: Curve, k: int, x: int, y: int) {
    if k == 0 then x == 0 && y == 0 else x == c.x(k) && y == c.y(k)
  }

  lemma ClassWritten(out: int, a: int, x: int)
    requires 0 <= out < P && 0 <= x < P && Cong(a, x, P) && Cong(out, a, P)
    ensures out == x
  {
    CongTrans(out, a, x, P);
    CongUnique(out, x, P);
  }

  lemma WrittenFrom(c: Curve, k: int, ax: int, ay: int, x: int, y: int)
    requires 0 <= k && 0 <= x < P && 0 <= y < P && Cong(x, ax, P) && Cong(y, ay, P)
    requires k > 0 ==> 0 <= c.x(k) < P && 0 <= c.y(k) < P && Cong(ax, c.x(k), P) && Cong(ay, c.y(k), P)
    requires k == 0 ==> Cong(ax, 0, P) && Cong(ay, 0, P)
    ensures Written(c, k, x, y)
  {
    if k == 0 {
      ClassWritten(x, ax, 0);
      ClassWritten(y, ay, 0);
    } else {
      ClassWritten(x, ax, c.x(k));
      ClassWritten(y, ay, c.y(k));
    }
  }

  /** point_to_affine and the two from_montgomery calls that end both entry points. */
  method WriteAffine(n: Point, outX: array<u32>, outY: array<u32>, ghost c: Curve, ghost v: Jac, ghost k: int)
    requires outX.Length == 8 && outY.Length == 8 && outX != outY
    requires GroupLaw(c) && 0 <= k < N && n.Keeps(v)
    requires Affine(c, v, k)
    modifies outX, outY
    ensures Written(c, k, Nat(outX[..]), Nat(outY[..]))
  {
    var x, y := ToAffine(n, v);
    Unload(outX, x, AffineX(v));
    Unload(outY, y, AffineY(v));
    WrittenFrom(c, k, AffineX(v), AffineY(v), Nat(outX[..]), Nat(outY[..]));
  }

  // ---- entry points ----------------------------------------------------------------------------

  /** p256_base_point_mul: n times the base point, (0, 0) for n == 0. */
  method BasePointMul(table: seq<u32>, n: array<u32>, outX: array<u32>, outY: array<u32>, ghost c: Curve)
    requires GroupLaw(c) && TableOk(c, table) && Fermat()
    requires n.Length == 8 && outX.Length == 8 && outY.Length == 8 && outX != outY && Nat(n[..]) < N
    modifies outX, outY
    ensures Written(c, old(Nat(n[..])), Nat(outX[..]), Nat(outY[..]))
  {
    ghost var k := Nat(n[..]);
    NumBound(n[..]);
    var p, v := ScalarBaseMult(table, n, c);
    if k > 0 {
      AffineOfMultiple(c, v, k);
    } else {
      AffineOfOrigin(v);
      CongRefl(0, P);
    }
    WriteAffine(p, outX, outY, c, v, k);
  }

  /** The multiple n1*G + n2*Q, Q being d times the base point. */
  ghost function Combination(n1: int, n2: int, d: int): int {
    (n1 + Times(n2, d)) % N
  }

  /** The final addition of two nonzero multiples, which may be equal or opposite. */
  lemma Totalled(c: Curve, v: Jac, a: int, w: Jac, b: int, r: Jac)
    requires GroupLaw(c) && Fermat() && IsMultiple(c, v, a) && IsMultiple(c, w, b)
    requires 0 < a < N && 0 < b < N && r == if SameAffine(v, w) then Doubled(v) else Added(v, w)
    ensures (a + b) % N > 0 ==> Cong(AffineX(r), c.x((a + b) % N), P) && Cong(AffineY(r), c.y((a + b) % N), P)
    ensures (a + b) % N == 0 ==> Cong(AffineX(r), 0, P) && Cong(AffineY(r), 0, P)
  {
    if a + b == N {
      OddOrder(a, b);
      ZeroTimes(CrossZ(v, w), CrossX(w, v) - CrossX(v, w));
      var n := P - 2;
      AffineOfInfinity(r, n);
    } else {
      assert SameAffine(v, w) <==> a == b;
      AffineOfMultiple(c, r, (a + b) % N);
      NonZeroSum(a, b);
    }
  }

  /** No point is its own opposite: the order is odd. */
  lemma OddOrder(a: int, b: int)
    requires a + b == N
    ensures a != b && (a + b) % N == 0
  {
  }

  lemma NonZeroSum(a: int, b: int)
    requires 0 < a < N && 0 < b < N && a + b != N
    ensures (a + b) % N > 0
  {
  }

  /** What the final coordinates must be. */
  ghost predicate Affine(c: Curve, r: Jac, k: int) {
    && (k > 0 ==> Cong(AffineX(r), c.x(k), P) && Cong(AffineY(r), c.y(k), P))
    && (k == 0 ==> Cong(AffineX(r), 0, P) && Cong(AffineY(r), 0, P))
  }

  /** The sum of the two multiples, with the zero tests that keep infinity out. */
  method Total(p: Point, q: Point, zero1: bool, zero2: bool, ghost c: Curve, ghost v: Jac, ghost w: Jac,
               ghost a: int, ghost b: int, ghost d: int)
    returns (ghost r: Jac)
    requires GroupLaw(c) && Fermat() && 0 < d < N && 0 <= a < N && 0 <= b < N && (a > 0 || b > 0)
    requires p.Keeps(v) && q.Keeps(w) && p != q && (zero1 <==> a == 0) && (zero2 <==> b == 0)
    requires a > 0 ==> IsMultiple(c, v, a)
    requires b > 0 ==> IsMultiple(c, w, Times(b, d))
    modifies p
    ensures p.Keeps(r) && Affine(c, r, Combination(a, b, d))
  {
    r := v;
    if zero2 {
      BaseOnly(a, d);
      AffineOfMultiple(c, v, a);
    } else if zero1 {
      NotZeroMultiple(b, d);
      KeyOnly(b, d);
      AffineOfMultiple(c, w, Times(b, d));
      p.x, p.y, p.z := q.x, q.y, q.z;
      r := w;
    } else {
      NotZeroMultiple(b, d);
      TimesRange(b, d);
      r := if SameAffine(v, w) then Doubled(v) else Added(v, w);
      Totalled(c, v, a, w, Times(b, d), r);
      AddOrDouble(p, p, q, v, w);
    }
  }

  /** scalar_base_mult, scalar_mult and their sum. */
  method Combine(table: seq<u32>, n1: array<u32>, n2: array<u32>, x: seq<u32>, y: seq<u32>,
                 ghost c: Curve, ghost vx: int, ghost vy: int, ghost d: int)
    returns (p: Point, ghost r: Jac)
    requires GroupLaw(c) && TableOk(c, table) && Fermat() && 0 < d < N
    requires n1.Length == 8 && n2.Length == 8 && Nat(n1[..]) < N && Nat(n2[..]) < N
    requires Nat(n1[..]) > 0 || Nat(n2[..]) > 0
    requires Kept(x, vx) && Kept(y, vy) && IsMultiple(c, Jac(vx, vy, 1), d)
    ensures fresh(p) && p.Keeps(r) && Affine(c, r, Combination(Nat(n1[..]), Nat(n2[..]), d))
  {
    ghost var a, b := Nat(n1[..]), Nat(n2[..]);
    NumBound(n1[..]);
    NumBound(n2[..]);
    ghost var v, w;
    var q;
    p, v := ScalarBaseMult(table, n1, c);
    q, w := ScalarMul(x, y, n2, c, vx, vy, d);
    var zero2 := P256Arith.IsZero(n2);
    var zero1 := P256Arith.IsZero(n1);
    r := Total(p, q, zero1, zero2, c, v, w, a, b, d);
  }

  lemma BaseOnly(a: int, d: int)
    requires 0 <= a < N
    ensures Combination(a, 0, d) == a
  {
  }

  lemma TimesRange(b: int, d: int)
    ensures 0 <= Times(b, d) < N
  {
  }

  lemma KeyOnly(b: int, d: int)
    ensures Combination(0, b, d) == Times(b, d)
  {
    TimesRange(b, d);
  }

  method Clear(a: array<u32>)
    requires a.Length == 8
    modifies a
    ensures Nat(a[..]) == 0
  {
    for i := 0 to 8
      invariant forall k :: 0 <= k < i ==> a[k] == 0
    {
      a[i] := 0;
    }
    ZeroNat(a[..]);
  }

  /** p256_points_mul_vartime: n1*G + n2*(x, y), for every n1 and n2 below the order. The
      outputs may be the scalars. */
  method Mul(table: seq<u32>, n1: array<u32>, n2: array<u32>, inX: array<u32>, inY: array<u32>,
             outX: array<u32>, outY: array<u32>, ghost c: Curve, ghost d: int)
    requires GroupLaw(c) && TableOk(c, table) && Fermat() && 0 < d < N
    requires n1.Length == 8 && n2.Length == 8 && inX.Length == 8 && inY.Length == 8 && outX.Length == 8 && outY.Length == 8
    requires outX != outY && Nat(n1[..]) < N && Nat(n2[..]) < N
    requires IsMultiple(c, Jac(Nat(inX[..]), Nat(inY[..]), 1), d)
    modifies outX, outY
    ensures Written(c, old(Combination(Nat(n1[..]), Nat(n2[..]), d)), Nat(outX[..]), Nat(outY[..]))
  {
    ghost var a, b := Nat(n1[..]), Nat(n2[..]);
    NumBound(n1[..]);
    NumBound(n2[..]);
    var zero1 := P256Arith.IsZero(n1);
    var zero2 := P256Arith.IsZero(n2);
    if zero1 && zero2 {
      BaseOnly(0, d);
      Clear(outX);
      Clear(outY);
      return;
    }
    var px, py := new u32[9], new u32[9];
    ToMontgomery(px, inX);
    ToMontgomery(py, inY);
    TightBounded(px[..]);
    TightBounded(py[..]);
    var p, r := Combine(table, n1, n2, px[..], py[..], c, Nat(inX[..]), Nat(inY[..]), d);
    WriteAffine(p, outX, outY, c, r, Combination(a, b, d));
  }

  lemma TightBounded(s: seq<int>)
    requires |s| == 9 && Tight(s)
    ensures Bounded(s)
  {
  }
}
