/** Inversion of field elements by Fermat's theorem (felem_inv of p256_ec.c), and the
    Montgomery reading of an element: it stands for its value times 1/R. */
module FelemInv {
  import opened Words
  import opened Modular
  import opened Bits
  import opened Felem
  import opened FelemMul

  // 1 / 2^257 modulo p (kRInv).
  const RINV: int := 0x7fffffff_00000001_fffffffe_80000001_00000000_ffffffff_00000001_80000000

  lemma RInverse()
    ensures Cong(TWO_257 * RINV, 1, P)
  {
    CongIntro(TWO_257 * RINV, 1, P, (TWO_257 * RINV - 1) / P);
  }

  /** s is a bounded element that stands for b^e. */
  ghost predicate Stands(s: seq<int>, b: int, e: nat) {
    Bounded(s) && Cong(Value(s) * RINV, Pow(b, e), P)
  }

  /** A Montgomery product stands for the product. */
  lemma MontProduct(vo: int, va: int, vb: int, x: int, y: int)
    requires Cong(TWO_257 * vo, va * vb, P) && Cong(va * RINV, x, P) && Cong(vb * RINV, y, P)
    ensures Cong(vo * RINV, x * y, P)
  {
    CongMul(va * RINV, x, vb * RINV, y, P);
    CongScale(TWO_257 * vo, va * vb, RINV * RINV, P);
    assert (va * vb) * (RINV * RINV) == (va * RINV) * (vb * RINV);
    RInverse();
    CongScale(TWO_257 * RINV, 1, vo * RINV, P);
    assert (TWO_257 * vo) * (RINV * RINV) == (TWO_257 * RINV) * (vo * RINV);
    CongSym((TWO_257 * RINV) * (vo * RINV), 1 * (vo * RINV), P);
    CongTrans(vo * RINV, (TWO_257 * vo) * (RINV * RINV), (va * RINV) * (vb * RINV), P);
    CongTrans(vo * RINV, (va * RINV) * (vb * RINV), x * y, P);
  }

  /** felem_mul on temporaries, with the exponents they stand for. */
  method MulPow(a: seq<u32>, c: seq<u32>, ghost b: int, ghost i: nat, ghost j: nat) returns (r: seq<u32>)
    requires Stands(a, b, i) && Stands(c, b, j)
    ensures Stands(r, b, i + j) && r[8] < 0x2000_0000
  {
    var x, y, out := new u32[9](k requires 0 <= k < 9 => a[k]), new u32[9](k requires 0 <= k < 9 => c[k]), new u32[9];
    assert x[..] == a && y[..] == c;
    Mul(out, x, y);
    MontProduct(Value(out[..]), Value(a), Value(c), Pow(b, i), Pow(b, j));
    PowAdd(b, i, j);
    r := out[..];
  }

  /** felem_square in place doubles the exponent. */
  method SquareOnce(x: array<u32>, ghost b: int, ghost d: nat)
    requires x.Length == 9 && Stands(x[..], b, d)
    modifies x
    ensures Stands(x[..], b, d + d)
  {
    ghost var v := Value(x[..]);
    Square(x, x);
    MontProduct(Value(x[..]), v, v, Pow(b, d), Pow(b, d));
    PowAdd(b, d, d);
  }

  lemma DoubledExponent(e: nat, i: nat)
    ensures e * Pow2(i) + e * Pow2(i) == e * Pow2(i + 1)
  {
  }

  /** n calls of felem_square in place; the exponent is multiplied by 2^n. */
  method SquareTimes(a: seq<u32>, n: nat, ghost b: int, ghost e: nat, ghost f: nat) returns (r: seq<u32>)
    requires Stands(a, b, e) && f == e * Pow2(n)
    ensures Stands(r, b, f)
  {
    var x := new u32[9](k requires 0 <= k < 9 => a[k]);
    assert x[..] == a;
    for i := 0 to n
      invariant Stands(x[..], b, e * Pow2(i))
    {
      SquareOnce(x, b, e * Pow2(i));
      DoubledExponent(e, i);
    }
    r := x[..];
  }

  /** The powers felem_inv uses, from the doublings of one another. */
  lemma Pow2Table(one: nat)
    requires one == 1
    ensures Pow2(one) == 2 && Pow2(2 * one) == 4 && Pow2(4 * one) == 16 && Pow2(8 * one) == 0x100
    ensures Pow2(16 * one) == 0x1_0000 && Pow2(32 * one) == 0x1_0000_0000
    ensures Pow2(192 * one) == 0x1_0000_0000_0000_0000_0000_0000_0000_0000_0000_0000_0000_0000
  {
    assert Pow2(one) == 2 * Pow2(one - 1);
    Pow2Double(one, 2);
    Pow2Double(2 * one, 4);
    Pow2Double(4 * one, 16);
    Pow2Double(8 * one, 0x100);
    Pow2Double(16 * one, 0x1_0000);
    Pow2Double(32 * one, 0x1_0000_0000);
    Pow2Double(64 * one, 0x1_0000_0000_0000_0000);
    Pow2Add(128 * one, 64 * one);
  }

  /** `for (i = 0; i < n; i++) felem_square(x, x)` for the counts felem_inv uses. */
  method Squares(a: seq<u32>, n: nat, ghost b: int, ghost e: nat, ghost scale: nat) returns (r: seq<u32>)
    requires Stands(a, b, e)
    requires (n == 1 && scale == 2) || (n == 2 && scale == 4) || (n == 4 && scale == 16) || (n == 8 && scale == 0x100)
          || (n == 16 && scale == 0x1_0000) || (n == 32 && scale == 0x1_0000_0000)
          || (n == 192 && scale == 0x1_0000_0000_0000_0000_0000_0000_0000_0000_0000_0000_0000_0000)
    ensures Stands(r, b, e * scale)
  {
    ghost var one: nat := 1;
    Pow2Table(one);
    r := SquareTimes(a, n, b, e, e * scale);
  }

  /** The addition chain of felem_inv: each e_I up to e32 stands for b^(2^I - 1), e64
      for b^(2^64 - 2^32), and the result for b^(p - 2). */
  method InvPow(a: seq<u32>, ghost b: int) returns (r: seq<u32>)
    requires Stands(a, b, 1)
    ensures Stands(r, b, P - 2) && r[8] < 0x2000_0000
  {
    var f := Squares(a, 1, b, 1, 2);
    f := MulPow(a, f, b, 1, 2);
    var e2 := f;
    f := Squares(f, 2, b, 3, 4);
    f := MulPow(f, e2, b, 12, 3);
    var e4 := f;
    f := Squares(f, 4, b, 0xf, 16);
    f := MulPow(f, e4, b, 0xf0, 0xf);
    var e8 := f;
    f := Squares(f, 8, b, 0xff, 0x100);
    f := MulPow(f, e8, b, 0xff00, 0xff);
    var e16 := f;
    f := Squares(f, 16, b, 0xffff, 0x1_0000);
    f := MulPow(f, e16, b, 0xffff_0000, 0xffff);
    var e32 := f;
    f := Squares(f, 32, b, 0xffff_ffff, 0x1_0000_0000);
    var e64 := f;
    f := MulPow(f, a, b, 0xffff_ffff_0000_0000, 1);
    f := Squares(f, 192, b, 0xffff_ffff_0000_0001, 0x1_0000_0000_0000_0000_0000_0000_0000_0000_0000_0000_0000_0000);
    var g := MulPow(e64, e32, b, 0xffff_ffff_0000_0000, 0xffff_ffff);
    g := Squares(g, 16, b, 0xffff_ffff_ffff_ffff, 0x1_0000);
    g := MulPow(g, e16, b, 0xffff_ffff_ffff_ffff_0000, 0xffff);
    g := Squares(g, 8, b, 0xffff_ffff_ffff_ffff_ffff, 0x100);
    g := MulPow(g, e8, b, 0xffff_ffff_ffff_ffff_ffff_00, 0xff);
    g := Squares(g, 4, b, 0xffff_ffff_ffff_ffff_ffff_ff, 16);
    g := MulPow(g, e4, b, 0xffff_ffff_ffff_ffff_ffff_ff0, 0xf);
    g := Squares(g, 2, b, 0xffff_ffff_ffff_ffff_ffff_fff, 4);
    g := MulPow(g, e2, b, 0x3fff_ffff_ffff_ffff_ffff_fffc, 3);
    g := Squares(g, 2, b, 0x3fff_ffff_ffff_ffff_ffff_ffff, 4);
    g := MulPow(g, a, b, 0xffff_ffff_ffff_ffff_ffff_fffc, 1);
    r := MulPow(g, f, b, 0xffff_ffff_ffff_ffff_ffff_fffd,
                0xffff_ffff_0000_0001_0000_0000_0000_0000_0000_0000_0000_0000_0000_0000_0000_0000);
  }

  /** felem_inv, in the Montgomery domain. */
  method Inv(out: array<u32>, a: array<u32>)
    requires out.Length == 9 && a.Length == 9 && Bounded(a[..])
    modifies out
    ensures Bounded(out[..]) && out[8] < 0x2000_0000
    ensures Cong(Value(out[..]) * RINV, Pow(old(Value(a[..])) * RINV, P - 2), P)
  {
    ghost var b := Value(a[..]) * RINV;
    PowOne(b);
    CongRefl(b, P);
    var r := InvPow(a[..], b);
    for i := 0 to 9
      invariant out[..i] == r[..i]
    {
      out[i] := r[i];
    }
    assert out[..] == r;
  }

  /** With Fermat's theorem for the element at hand, b^(p - 2) is its inverse. */
  lemma InverseByFermat(b: int, r: int)
    requires Cong(r, Pow(b, P - 2), P) && Cong(Pow(b, P - 1), 1, P)
    ensures Cong(b * r, 1, P)
  {
    CongScale(r, Pow(b, P - 2), b, P);
    var n: nat := P - 1;
    assert Pow(b, n) == b * Pow(b, n - 1);
    CongTrans(b * r, Pow(b, n), 1, P);
  }
}
