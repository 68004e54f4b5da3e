/** Points in Jacobian coordinates (point_double, point_add_mixed, point_add,
    point_add_or_double_vartime and point_to_affine of p256_ec.c). Every operation keeps the
    limb bounds and computes the published formulas on the numbers its inputs stand for. */
module Jacobian {
  import opened Words
  import opened Modular
  import opened Felem
  import opened FelemInv
  import FelemMul
  import FelemArith

  // ---- field elements as values ------------------------------------------------------

  /** The limbs s are bounded and stand for v in Montgomery form. */
  ghost predicate Denotes(s: seq<int>, v: int) {
    Bounded(s) && Cong(Value(s) * RINV, v, P)
  }

  /** What every field operation leaves: limb 8 is within its own 29 bits. */
  ghost predicate Kept(s: seq<int>, v: int) {
    Denotes(s, v) && s[8] < 0x2000_0000
  }

  method ToArray(s: seq<u32>) returns (a: array<u32>)
    requires |s| == 9
    ensures fresh(a) && a.Length == 9 && a[..] == s
  {
    a := new u32[9](k requires 0 <= k < 9 => s[k]);
  }

  method Mul(a: seq<u32>, b: seq<u32>, ghost x: int, ghost y: int) returns (r: seq<u32>)
    requires Denotes(a, x) && Denotes(b, y)
    ensures Kept(r, x * y)
    ensures a[8] < 0x2000_0000 && b[8] < 0x2000_0000 ==> FelemMul.Settled(r)
  {
    var u := ToArray(a);
    var v := ToArray(b);
    var out := new u32[9];
    FelemMul.Mul(out, u, v);
    MontProduct(Value(out[..]), Value(a), Value(b), x, y);
    r := out[..];
  }

  method Square(a: seq<u32>, ghost x: int) returns (r: seq<u32>)
    requires Denotes(a, x)
    ensures Kept(r, x * x)
  {
    var u := ToArray(a);
    FelemMul.Square(u, u);
    MontProduct(Value(u[..]), Value(a), Value(a), x, x);
    r := u[..];
  }

  lemma ScaleRinv(v: int, w: int, x: int)
    requires Cong(v, w, P) && Cong(w * RINV, x, P)
    ensures Cong(v * RINV, x, P)
  {
    CongScale(v, w, RINV, P);
    CongTrans(v * RINV, w * RINV, x, P);
  }

  method Sum(a: seq<u32>, b: seq<u32>, ghost x: int, ghost y: int) returns (r: seq<u32>)
    requires Denotes(a, x) && Denotes(b, y)
    ensures Kept(r, x + y)
  {
    var u := ToArray(a);
    var v := ToArray(b);
    var out := new u32[9];
    FelemArith.BoundedFits(a, b, 9);
    FelemArith.Sum(out, u, v);
    CongAdd(Value(a) * RINV, x, Value(b) * RINV, y, P);
    assert (Value(a) + Value(b)) * RINV == Value(a) * RINV + Value(b) * RINV;
    ScaleRinv(Value(out[..]), Value(a) + Value(b), x + y);
    r := out[..];
  }

  method Diff(a: seq<u32>, b: seq<u32>, ghost x: int, ghost y: int) returns (r: seq<u32>)
    requires Denotes(a, x) && Denotes(b, y)
    ensures Kept(r, x - y)
  {
    var u := ToArray(a);
    var v := ToArray(b);
    var out := new u32[9];
    FelemArith.Diff(out, u, v);
    CongSub(Value(a) * RINV, x, Value(b) * RINV, y, P);
    assert (Value(a) - Value(b)) * RINV == Value(a) * RINV - Value(b) * RINV;
    ScaleRinv(Value(out[..]), Value(a) - Value(b), x - y);
    r := out[..];
  }

  lemma ScaleDenoted(v: int, w: int, k: int, x: int)
    requires Cong(v, k * w, P) && Cong(w * RINV, x, P)
    ensures Cong(v * RINV, k * x, P)
  {
    CongScale(w * RINV, x, k, P);
    assert (w * RINV) * k == (k * w) * RINV && x * k == k * x;
    ScaleRinv(v, k * w, k * x);
  }

  method Triple(a: seq<u32>, ghost x: int) returns (r: seq<u32>)
    requires Denotes(a, x)
    ensures Kept(r, 3 * x)
  {
    var u := ToArray(a);
    FelemArith.Scalar3(u);
    ScaleDenoted(Value(u[..]), Value(a), 3, x);
    r := u[..];
  }

  method Fourfold(a: seq<u32>, ghost x: int) returns (r: seq<u32>)
    requires Denotes(a, x)
    ensures Kept(r, 4 * x)
  {
    var u := ToArray(a);
    FelemArith.Scalar4(u);
    ScaleDenoted(Value(u[..]), Value(a), 4, x);
    r := u[..];
  }

  /** felem_scalar_8 on a product, whose top limb is within its own width. */
  method Eightfold(a: seq<u32>, ghost x: int) returns (r: seq<u32>)
    requires Kept(a, x)
    ensures Kept(r, 8 * x)
  {
    var u := ToArray(a);
    FelemArith.Scalar8(u);
    ScaleDenoted(Value(u[..]), Value(a), 8, x);
    r := u[..];
  }

  lemma ZeroDenoted(v: int, x: int)
    requires Cong(v * RINV, x, P)
    ensures Cong(v, 0, P) <==> Cong(x, 0, P)
  {
    if Cong(v, 0, P) {
      CongScale(v, 0, RINV, P);
      CongSym(v * RINV, x, P);
      CongTrans(x, v * RINV, 0, P);
    }
    if Cong(x, 0, P) {
      CongTrans(v * RINV, x, 0, P);
      RInverse();
      assert TWO_257 * RINV == RINV * TWO_257;
      CongCancel(v, 0, RINV, TWO_257, P);
    }
  }

  method IsZero(a: seq<u32>, ghost x: int) returns (r: bool)
    requires Denotes(a, x)
    ensures r <==> Cong(x, 0, P)
  {
    var u := ToArray(a);
    r := FelemArith.IsZero(u);
    ZeroDenoted(Value(a), x);
  }

  method Invert(a: seq<u32>, ghost x: int) returns (r: seq<u32>)
    requires Denotes(a, x)
    ensures Kept(r, Pow(x, P - 2))
  {
    var u := ToArray(a);
    var out := new u32[9];
    Inv(out, u);
    PowCong(Value(a) * RINV, x, P - 2);
    CongTrans(Value(out[..]) * RINV, Pow(Value(a) * RINV, P - 2), Pow(x, P - 2), P);
    r := out[..];
  }

  lemma {:induction false} PowCong(a: int, b: int, e: nat)
    requires Cong(a, b, P)
    ensures Cong(Pow(a, e), Pow(b, e), P)
  {
    if e == 0 {
      CongRefl(1, P);
    } else {
      PowCong(a, b, e - 1);
      CongMul(a, b, Pow(a, e - 1), Pow(b, e - 1), P);
    }
  }

  // ---- the formulas --------------------------------------------------------------------

  /** The numbers a point's coordinates stand for: the affine point (x/z^2, y/z^3). */
  datatype Jac = Jac(x: int, y: int, z: int)

  /** Doubling on y^2 = x^3 - 3x + b (dbl-2001-b). */
  ghost function Doubled(p: Jac): Jac {
    var delta, gamma := p.z * p.z, p.y * p.y;
    var alpha, beta := 3 * ((p.x + delta) * (p.x - delta)), p.x * gamma;
    var x := alpha * alpha - 8 * beta;
    Jac(x, alpha * (4 * beta - x) - 8 * (gamma * gamma), (p.y + p.z) * (p.y + p.z) - gamma - delta)
  }

  /** The common tail of the addition formulas (add-2007-bl), from the cross-multiplied
      coordinates. */
  ghost function Combined(u1: int, s1: int, u2: int, s2: int, t: int): Jac {
    var h, r := u2 - u1, (s2 - s1) + (s2 - s1);
    var i := (h + h) * (h + h);
    var j, v := h * i, u1 * i;
    var x := r * r - j - v - v;
    Jac(x, (v - x) * r - s1 * j - s1 * j, t * h)
  }

  /** Addition of the affine point (x2, y2). */
  ghost function AddedMixed(p: Jac, x2: int, y2: int): Jac {
    var zz := p.z * p.z;
    Combined(p.x, p.y, x2 * zz, y2 * (p.z * zz), p.z + p.z)
  }

  ghost function CrossX(p: Jac, q: Jac): int {
    p.x * (q.z * q.z)
  }

  ghost function CrossY(p: Jac, q: Jac): int {
    p.y * (q.z * (q.z * q.z))
  }

  ghost function CrossZ(p: Jac, q: Jac): int {
    (p.z + q.z) * (p.z + q.z) - p.z * p.z - q.z * q.z
  }

  ghost function Added(p: Jac, q: Jac): Jac {
    Combined(CrossX(p, q), CrossY(p, q), CrossX(q, p), CrossY(q, p), CrossZ(p, q))
  }

  /** The doubling test of point_add_or_double_vartime. */
  ghost predicate SameAffine(p: Jac, q: Jac) {
    Cong(CrossX(q, p) - CrossX(p, q), 0, P) && Cong(CrossY(q, p) - CrossY(p, q), 0, P)
  }

  // ---- the operations ------------------------------------------------------------------

  /** Three coordinates, written one after another through pointers. */
  class Point {
    var x: seq<u32>
    var y: seq<u32>
    var z: seq<u32>

    constructor (x: seq<u32>, y: seq<u32>, z: seq<u32>)
      ensures this.x == x && this.y == y && this.z == z
    {
      this.x, this.y, this.z := x, y, z;
    }

    /** What an operation asks of its input. */
    ghost predicate Is(p: Jac)
      reads this
    {
      Denotes(x, p.x) && Denotes(y, p.y) && Denotes(z, p.z)
    }

    /** What it leaves. */
    ghost predicate Keeps(p: Jac)
      reads this
    {
      Kept(x, p.x) && Kept(y, p.y) && Kept(z, p.z)
    }
  }

  /** point_double, down to z_out, which is written after the last use of p. */
  method DoubleZ(out: Point, p: Point, ghost v: Jac) returns (alpha: seq<u32>, beta: seq<u32>, gamma: seq<u32>)
    requires p.Is(v)
    modifies out`z
    ensures Kept(alpha, 3 * ((v.x + v.z * v.z) * (v.x - v.z * v.z)))
    ensures Kept(beta, v.x * (v.y * v.y)) && Kept(gamma, v.y * v.y)
    ensures Kept(out.z, Doubled(v).z)
  {
    var delta := Square(p.z, v.z);
    gamma := Square(p.y, v.y);
    ghost var d, g := v.z * v.z, v.y * v.y;
    beta := Mul(p.x, gamma, v.x, g);
    var tmp := Sum(p.x, delta, v.x, d);
    var tmp2 := Diff(p.x, delta, v.x, d);
    alpha := Mul(tmp, tmp2, v.x + d, v.x - d);
    alpha := Triple(alpha, (v.x + d) * (v.x - d));
    tmp := Sum(p.y, p.z, v.y, v.z);
    tmp := Square(tmp, v.y + v.z);
    ghost var s := (v.y + v.z) * (v.y + v.z);
    tmp := Diff(tmp, gamma, s, g);
    out.z := Diff(tmp, delta, s - g, d);
  }

  /** x_out, from which y_out is computed. */
  method DoubleX(out: Point, alpha: seq<u32>, beta: seq<u32>, ghost a: int, ghost b: int) returns (beta4: seq<u32>)
    requires Denotes(alpha, a) && Denotes(beta, b)
    modifies out`x
    ensures Kept(beta4, 4 * b) && Kept(out.x, a * a - 8 * b)
  {
    beta4 := Fourfold(beta, b);
    out.x := Square(alpha, a);
    out.x := Diff(out.x, beta4, a * a, 4 * b);
    out.x := Diff(out.x, beta4, a * a - 4 * b, 4 * b);
  }

  /** point_double. out may be the input itself. */
  method Double(out: Point, p: Point, ghost v: Jac)
    requires p.Is(v)
    modifies out
    ensures out.Keeps(Doubled(v))
  {
    ghost var d, g := v.z * v.z, v.y * v.y;
    ghost var a, b := 3 * ((v.x + d) * (v.x - d)), v.x * g;
    var alpha, beta, gamma := DoubleZ(out, p, v);
    beta := DoubleX(out, alpha, beta, a, b);
    var y := DoubleY(out.x, alpha, beta, gamma, a * a - 8 * b, a, b, g);
    out.y := y;
  }

  method DoubleY(x: seq<u32>, alpha: seq<u32>, beta4: seq<u32>, gamma: seq<u32>, ghost vx: int, ghost a: int, ghost b: int, ghost g: int)
    returns (y: seq<u32>)
    requires Denotes(x, vx) && Denotes(alpha, a) && Denotes(beta4, 4 * b) && Denotes(gamma, g)
    ensures Kept(y, a * (4 * b - vx) - 8 * (g * g))
  {
    var tmp := Diff(beta4, x, 4 * b, vx);
    tmp := Mul(alpha, tmp, a, 4 * b - vx);
    var tmp2 := Square(gamma, g);
    tmp2 := Eightfold(tmp2, g * g);
    y := Diff(tmp, tmp2, a * (4 * b - vx), 8 * (g * g));
  }

  /** point_add_mixed. Its tail reads p while it writes out, so the two must differ. */
  method AddMixed(out: Point, p: Point, x2: seq<u32>, y2: seq<u32>, ghost v: Jac, ghost vx: int, ghost vy: int)
    requires p.Is(v) && Denotes(x2, vx) && Denotes(y2, vy) && out != p
    modifies out
    ensures out.Keeps(AddedMixed(v, vx, vy))
  {
    ghost var zz := v.z * v.z;
    var z1z1 := Square(p.z, v.z);
    var tmp := Sum(p.z, p.z, v.z, v.z);
    var u2 := Mul(x2, z1z1, vx, zz);
    var z1z1z1 := Mul(p.z, z1z1, v.z, zz);
    var s2 := Mul(y2, z1z1z1, vy, v.z * zz);
    ghost var gu, gs := vx * zz, vy * (v.z * zz);
    var h := Diff(u2, p.x, gu, v.x);
    var d := Diff(s2, p.y, gs, v.y);
    Tail(out, p, h, d, tmp, v.x, v.y, gu - v.x, gs - v.y, v.z + v.z);
  }

  /** The cross-multiplication both full additions begin with. */
  method Cross(p: Point, q: Point, ghost v: Jac, ghost w: Jac)
    returns (u1: seq<u32>, s1: seq<u32>, u2: seq<u32>, s2: seq<u32>, t: seq<u32>)
    requires p.Is(v) && q.Is(w)
    ensures Denotes(u1, CrossX(v, w)) && Denotes(s1, CrossY(v, w))
    ensures Denotes(u2, CrossX(w, v)) && Denotes(s2, CrossY(w, v))
    ensures Denotes(t, CrossZ(v, w))
  {
    ghost var vv, ww := v.z * v.z, w.z * w.z;
    var z1z1 := Square(p.z, v.z);
    var z2z2 := Square(q.z, w.z);
    u1 := Mul(p.x, z2z2, v.x, ww);
    t := Sum(p.z, q.z, v.z, w.z);
    t := Square(t, v.z + w.z);
    ghost var s := (v.z + w.z) * (v.z + w.z);
    t := Diff(t, z1z1, s, vv);
    t := Diff(t, z2z2, s - vv, ww);
    var z2z2z2 := Mul(q.z, z2z2, w.z, ww);
    s1 := Mul(p.y, z2z2z2, v.y, w.z * ww);
    u2 := Mul(q.x, z1z1, w.x, vv);
    var z1z1z1 := Mul(p.z, z1z1, v.z, vv);
    s2 := Mul(q.y, z1z1z1, w.y, v.z * vv);
  }

  /** What follows in all three additions, from h = u2 - u1 and the undoubled r = s2 - s1;
      u1 and s1 are the coordinates x and y of base. First z_out and x_out. */
  method TailX(out: Point, base: Point, h: seq<u32>, d: seq<u32>, t: seq<u32>,
               ghost gu: int, ghost gh: int, ghost gd: int, ghost gt: int, ghost gi: int)
    returns (j: seq<u32>, r: seq<u32>, w: seq<u32>)
    requires Denotes(base.x, gu) && Denotes(h, gh) && Denotes(d, gd) && Denotes(t, gt) && out != base
    requires gi == (gh + gh) * (gh + gh)
    modifies out`x, out`z
    ensures Kept(j, gh * gi) && Kept(r, gd + gd) && Kept(w, gu * gi) && Kept(out.z, gt * gh)
    ensures Kept(out.x, (gd + gd) * (gd + gd) - gh * gi - gu * gi - gu * gi)
  {
    var i := Sum(h, h, gh, gh);
    i := Square(i, gh + gh);
    j := Mul(h, i, gh, gi);
    r := Sum(d, d, gd, gd);
    w := Mul(base.x, i, gu, gi);
    out.z := Mul(t, h, gt, gh);
    var rr := Square(r, gd + gd);
    ghost var s := (gd + gd) * (gd + gd);
    out.x := Diff(rr, j, s, gh * gi);
    out.x := Diff(out.x, w, s - gh * gi, gu * gi);
    out.x := Diff(out.x, w, s - gh * gi - gu * gi, gu * gi);
  }

  method Tail(out: Point, base: Point, h: seq<u32>, d: seq<u32>, t: seq<u32>,
              ghost gu: int, ghost gs: int, ghost gh: int, ghost gd: int, ghost gt: int)
    requires Denotes(base.x, gu) && Denotes(base.y, gs) && out != base
    requires Denotes(h, gh) && Denotes(d, gd) && Denotes(t, gt)
    modifies out
    ensures out.Keeps(Combined(gu, gs, gu + gh, gs + gd, gt))
  {
    ghost var gi, gr := (gh + gh) * (gh + gh), gd + gd;
    ghost var gj, gw := gh * gi, gu * gi;
    ghost var gx := gr * gr - gj - gw - gw;
    var j, r, w := TailX(out, base, h, d, t, gu, gh, gd, gt, gi);
    var y := TailY(out.x, base.y, j, r, w, gx, gs, gj, gr, gw);
    out.y := y;
  }

  method TailY(x: seq<u32>, s1: seq<u32>, j: seq<u32>, r: seq<u32>, w: seq<u32>,
               ghost gx: int, ghost gs: int, ghost gj: int, ghost gr: int, ghost gw: int)
    returns (y: seq<u32>)
    requires Denotes(x, gx) && Denotes(s1, gs) && Denotes(j, gj) && Denotes(r, gr) && Denotes(w, gw)
    ensures Kept(y, (gw - gx) * gr - gs * gj - gs * gj)
  {
    var tmp := Diff(w, x, gw, gx);
    y := Mul(tmp, r, gw - gx, gr);
    tmp := Mul(s1, j, gs, gj);
    y := Diff(y, tmp, (gw - gx) * gr, gs * gj);
    y := Diff(y, tmp, (gw - gx) * gr - gs * gj, gs * gj);
  }

  /** point_add. out may be an input. */
  method Add(out: Point, p: Point, q: Point, ghost v: Jac, ghost w: Jac)
    requires p.Is(v) && q.Is(w)
    modifies out
    ensures out.Keeps(Added(v, w))
  {
    var u1, s1, u2, s2, t := Cross(p, q, v, w);
    var h := Diff(u2, u1, CrossX(w, v), CrossX(v, w));
    var d := Diff(s2, s1, CrossY(w, v), CrossY(v, w));
    var base := new Point(u1, s1, t);
    Tail(out, base, h, d, t, CrossX(v, w), CrossY(v, w), CrossX(w, v) - CrossX(v, w), CrossY(w, v) - CrossY(v, w), CrossZ(v, w));
  }

  /** point_add_or_double_vartime. out may be an input. */
  method AddOrDouble(out: Point, p: Point, q: Point, ghost v: Jac, ghost w: Jac)
    requires p.Is(v) && q.Is(w)
    modifies out
    ensures out.Keeps(if SameAffine(v, w) then Doubled(v) else Added(v, w))
  {
    var u1, s1, u2, s2, t := Cross(p, q, v, w);
    var h := Diff(u2, u1, CrossX(w, v), CrossX(v, w));
    var xEqual := IsZero(h, CrossX(w, v) - CrossX(v, w));
    var d := Diff(s2, s1, CrossY(w, v), CrossY(v, w));
    var yEqual := IsZero(d, CrossY(w, v) - CrossY(v, w));
    if xEqual && yEqual {
      Double(out, p, v);
      return;
    }
    var base := new Point(u1, s1, t);
    Tail(out, base, h, d, t, CrossX(v, w), CrossY(v, w), CrossX(w, v) - CrossX(v, w), CrossY(w, v) - CrossY(v, w), CrossZ(v, w));
  }

  /** The affine coordinates x/z^2 and y/z^3, with 1/z as z^(p - 2). */
  ghost function AffineX(p: Jac): int {
    var i := Pow(p.z, P - 2);
    p.x * (i * i)
  }

  ghost function AffineY(p: Jac): int {
    var i := Pow(p.z, P - 2);
    p.y * (i * (i * i))
  }

  /** point_to_affine. Its results are products of operands with narrow top limbs. */
  method ToAffine(p: Point, ghost v: Jac) returns (x: seq<u32>, y: seq<u32>)
    requires p.Is(v)
    ensures Kept(x, AffineX(v)) && Kept(y, AffineY(v))
    ensures p.Keeps(v) ==> FelemMul.Settled(x) && FelemMul.Settled(y)
  {
    ghost var i := Pow(v.z, P - 2);
    var zInv := Invert(p.z, v.z);
    var zInvSq := Square(zInv, i);
    x := Mul(p.x, zInvSq, v.x, i * i);
    zInv := Mul(zInv, zInvSq, i, i * i);
    y := Mul(p.y, zInv, v.y, i * (i * i));
  }
}
