/** RSA public-key arithmetic of rsa.c, for keys of any number of words: Montgomery products,
    and exponentiation by 3 and 65537 on big-endian byte strings. */
module Rsa {
  import opened Words
  import opened Modular
  import opened Bits
  import opened Digits
  import opened WordOps

  /** RSAPublicKey; its len is |n|. */
  datatype Key = Key(n0inv: u32, n: seq<u32>, rr: seq<u32>, exponent: int)

  ghost function Modulus(k: Key): int {
    Nat(k.n)
  }

  /** R, one past the largest number of the key's length. */
  ghost function Radix(k: Key): int {
    Base(|k.n|)
  }

  /** What rsa.h asks of a key: n0inv = -1/n[0] mod 2^32. */
  ghost predicate Montgomery(k: Key) {
    |k.n| > 0 && (k.n0inv * k.n[0] + 1) % 0x1_0000_0000 == 0
  }

  /** A key modpow is exact for: besides, rr = R^2 mod n, the modulus fills its words, and the
      exponent is one of the two supported. */
  ghost predicate Usable(k: Key) {
    && Montgomery(k) && |k.rr| == |k.n|
    && Cong(Nat(k.rr), Radix(k) * Radix(k), Modulus(k))
    && Radix(k) < 2 * Modulus(k)
    && (k.exponent == 3 || k.exponent == 65537)
  }

  // ---- subM and geM ---------------------------------------------------------------------------

  lemma ChainMinus(o: seq<int>, z: seq<int>, borrow: int, c: seq<int>, a: seq<int>)
    requires |o| == |z| == |c| == |a| && Chain(o, z, borrow)
    requires forall k :: 0 <= k < |z| ==> z[k] == c[k] - a[k]
    ensures Nat(o) + borrow * Base(|o|) == Nat(c) - Nat(a)
  {
    ChainValue(o, z, borrow);
    assert z[..|o|] == z;
    NatAdd(z, a, c);
  }

  /** subM: a[] -= mod, keeping a's width. */
  method SubM(key: Key, a: array<u32>) returns (ghost borrow: int)
    requires a.Length == |key.n|
    modifies a
    ensures -1 <= borrow <= 0
    ensures Nat(a[..]) + borrow * Radix(key) == old(Nat(a[..])) - Modulus(key)
  {
    ghost var x := a[..];
    var len := |key.n|;
    ghost var z: seq<int> := seq(len, k requires 0 <= k < len => x[k] as int - key.n[k] as int);
    ghost var o: seq<u32> := [];
    var acc := 0;
    for i := 0 to len
      invariant -1 <= acc <= 0
      invariant forall k :: i <= k < len ==> a[k] == x[k]
      invariant |o| == i && a[..i] == o && Chain(o, z, acc)
    {
      ghost var before := acc;
      assert a[i] == x[i];
      var low;
      low, acc := Borrow(acc + a[i] as int - key.n[i] as int);
      a[i] := low;
      ChainDigit(o, z, before, low, acc);
      o := o + [low];
    }
    assert a[..] == o;
    ChainMinus(o, z, acc, x, key.n);
    borrow := acc;
  }

  /** A difference in the top digit decides. */
  lemma TopDecides(lo1: int, d1: int, lo2: int, d2: int, w: int)
    requires 0 <= lo1 < w && 0 <= lo2 < w && d1 < d2
    ensures lo1 + d1 * w < lo2 + d2 * w
  {
    assert d2 * w >= (d1 + 1) * w;
  }

  /** geM: whether a[] >= mod, scanning from the top digit. */
  method GeM(key: Key, a: array<u32>) returns (r: bool)
    requires a.Length == |key.n|
    ensures r <==> Nat(a[..]) >= Modulus(key)
  {
    var i := |key.n|;
    assert a[..i] == a[..] && key.n[..i] == key.n;
    while i > 0
      invariant 0 <= i <= |key.n|
      invariant Nat(a[..]) >= Modulus(key) <==> Nat(a[..i]) >= Nat(key.n[..i])
    {
      i := i - 1;
      NatStep(a[..], i);
      NatStep(key.n, i);
      assert a[..][..i] == a[..i] && a[..][..i + 1] == a[..i + 1];
      NatBound(a[..i]);
      NatBound(key.n[..i]);
      if a[i] < key.n[i] {
        TopDecides(Nat(a[..i]), a[i], Nat(key.n[..i]), key.n[i], Base(i));
        return false;
      }
      if a[i] > key.n[i] {
        TopDecides(Nat(key.n[..i]), key.n[i], Nat(a[..i]), a[i], Base(i));
        return true;
      }
    }
    return true;
  }

  // ---- montMulAdd ------------------------------------------------------------------------------

  lemma SumFits(x: u32, y: u32, c: u32, carry: u32)
    ensures 0 <= carry as int + (x as int) * (y as int) + c as int < 0x1_0000_0000_0000_0000
  {
    MulBound(x, y, 0xffff_ffff, 0xffff_ffff);
  }

  /** The quotient digit d0 = A * n0inv clears the low word. */
  lemma ClearsLow(a: int, n0: int, inv: int, d: int)
    requires (inv * n0 + 1) % 0x1_0000_0000 == 0 && d == (a * inv) % 0x1_0000_0000
    ensures (d * n0 + a) % 0x1_0000_0000 == 0
  {
    var w := 0x1_0000_0000;
    CongReduce(a * inv, w);
    CongScale(d, a * inv, n0, w);
    CongRefl(a, w);
    CongAdd(d * n0, (a * inv) * n0, a, a, w);
    CongOfMod(inv * n0 + 1, 0, w);
    CongScale(inv * n0 + 1, 0, a, w);
    assert (inv * n0 + 1) * a == (a * inv) * n0 + a;
    CongTrans(d * n0 + a, (a * inv) * n0 + a, 0, w);
    CongMod(d * n0 + a, 0, w);
  }

  method QuotientDigit(a: u32, n0: u32, inv: u32) returns (d: u32)
    requires (inv * n0 + 1) % 0x1_0000_0000 == 0
    ensures (d * n0 + a) % 0x1_0000_0000 == 0
  {
    d := (a * inv) % 0x1_0000_0000;
    ClearsLow(a, n0, inv, d);
  }

  /** Both products of one word: `A = (A >> 32) + a*b[i] + c[i]`, `B = (B >> 32) + d0*n[i] +
      (uint32_t) A`. The two carries count alike. */
  method Column(a: u32, b: u32, c: u32, d0: u32, n: u32, ca: u32, cb: u32) returns (low: u32, na: u32, nb: u32)
    ensures c as int + (b as int) * (a as int) + (n as int) * (d0 as int) + (ca as int + cb as int) == low as int + 0x1_0000_0000 * (na as int + nb as int)
  {
    SumFits(a, b, c, ca);
    var mid;
    mid, na := Carry(ca as int + (a as int) * (b as int) + c as int);
    SumFits(d0, n, mid, cb);
    low, nb := Carry(cb as int + (d0 as int) * (n as int) + mid as int);
  }

  /** The lowest column, which also fixes the quotient digit. */
  method FirstColumn(a: u32, b: u32, c: u32, n: u32, inv: u32) returns (d: u32, ca: u32, cb: u32)
    requires (inv * n + 1) % 0x1_0000_0000 == 0
    ensures c as int + (b as int) * (a as int) + (n as int) * (d as int) == 0x1_0000_0000 * (ca as int + cb as int)
  {
    SumFits(b, a, c, 0);
    var mid;
    mid, ca := Carry((b as int) * (a as int) + c as int);
    d := QuotientDigit(mid, n, inv);
    SumFits(d, n, mid, 0);
    var low;
    low, cb := Carry((d as int) * (n as int) + mid as int);
    Cleared((d as int) * (n as int) + mid as int, low, cb);
  }

  lemma Cleared(x: int, low: int, carry: int)
    requires x % 0x1_0000_0000 == 0 && x == low + 0x1_0000_0000 * carry && 0 <= low < 0x1_0000_0000
    ensures low == 0
  {
  }

  lemma ScaledSum(z: seq<int>, c: seq<int>, b: seq<int>, a: int)
    requires |z| == |c| == |b| && forall k :: 0 <= k < |z| ==> z[k] == c[k] + b[k] * a
    ensures Nat(z) == Nat(c) + Nat(b) * a
  {
    var x := seq(|z|, k requires 0 <= k < |z| => b[k] * a);
    NatScale(a, b, x);
    NatAdd(c, x, z);
  }

  /** The value of all columns. */
  lemma ColumnsValue(z: seq<int>, c: seq<int>, a: int, b: seq<int>, d: int, n: seq<int>)
    requires |z| == |c| == |b| == |n| && forall k :: 0 <= k < |z| ==> z[k] == c[k] + b[k] * a + n[k] * d
    ensures Nat(z) == Nat(c) + Nat(b) * a + Nat(n) * d
  {
    var s := seq(|z|, k requires 0 <= k < |z| => c[k] + b[k] * a);
    ScaledSum(s, c, b, a);
    ScaledSum(z, s, n, d);
  }

  /** Dropping a zero low digit divides by 2^32. */
  lemma {:induction false} DropLow(o: seq<int>)
    requires |o| > 0 && o[0] == 0
    ensures Nat(o) == 0x1_0000_0000 * Nat(o[1..])
  {
    var n := |o| - 1;
    if n == 0 {
      assert o[..n] == [] && o[1..] == [];
    } else {
      DropLow(o[..n]);
      assert o[..n][1..] == o[1..][..n - 1];
      assert o[n] * Base(n) == 0x1_0000_0000 * (o[n] * Base(n - 1));
    }
  }

  lemma ShiftedValue(v: int, w: int, carry: int, low: int, top: int)
    requires carry == low + 0x1_0000_0000 * top
    ensures 0x1_0000_0000 * ((v + low * w) + top * (w * 0x1_0000_0000)) == 0x1_0000_0000 * v + carry * (w * 0x1_0000_0000)
  {
    assert carry * w == low * w + (0x1_0000_0000 * top) * w;
    assert top * (w * 0x1_0000_0000) == (0x1_0000_0000 * top) * w;
    assert carry * (w * 0x1_0000_0000) == 0x1_0000_0000 * (carry * w);
  }

  /** The result words: the chain without its low digit, with the joint carry on top. */
  lemma Shifted(o: seq<int>, carry: int, low: int, top: int)
    requires |o| > 0 && o[0] == 0 && carry == low + 0x1_0000_0000 * top
    ensures 0x1_0000_0000 * (Nat(o[1..] + [low]) + top * Base(|o|)) == Nat(o) + carry * Base(|o|)
  {
    DropLow(o);
    NatSnoc(o[1..], low);
    ShiftedValue(Nat(o[1..]), Base(|o| - 1), carry, low, top);
  }

  /** (c + a*b + d*n) / 2^32 stays below R + n - 1. */
  lemma StepBound(v: int, c: int, a: int, b: int, d: int, n: int, r: int)
    requires 0x1_0000_0000 * v == c + b * a + n * d
    requires 0 <= c < r && 0 <= b < r && 0 <= n < r && 0 <= a < 0x1_0000_0000 && 0 <= d < 0x1_0000_0000
    ensures 0 <= v && (n > 0 ==> v < r - 1 + n) && (n == 0 ==> v <= r - 1)
  {
    MulBound(b, a, r - 1, 0xffff_ffff);
    MulBound(n, d, n, 0xffff_ffff);
  }

  /** One subtraction of the modulus brings an overflowing step back below R. */
  lemma Corrected(raw: int, top: int, borrow: int, c: int, n: int, r: int)
    requires 0 <= raw < r && 0 <= c < r && 0 <= n < r && -1 <= borrow <= 0 && top > 0
    requires c + borrow * r == raw - n && raw + top * r < r - 1 + n
    ensures c == raw + top * r - n
  {
    assert top >= 2 ==> top * r >= 2 * r;
    assert top == 1;
  }

  /** The words of one montMulAdd before the correction. */
  method Accumulate(key: Key, c: array<u32>, a: u32, b: array<u32>) returns (top: u32, ghost d: u32)
    requires Montgomery(key) && c.Length == |key.n| && b.Length == |key.n| && b != c
    modifies c
    ensures 0x1_0000_0000 * (Nat(c[..]) + top * Radix(key)) == old(Nat(c[..])) + Nat(b[..]) * a + Modulus(key) * d
  {
    var len := |key.n|;
    ghost var x, y := c[..], b[..];
    var d0, ca, cb := FirstColumn(a, b[0], c[0], key.n[0], key.n0inv);
    d := d0;
    ghost var z: seq<int> := seq(len, k requires 0 <= k < len => x[k] as int + (y[k] as int) * (a as int) + (key.n[k] as int) * (d0 as int));
    var low: u32 := 0;
    ghost var o: seq<u32> := [low];
    ChainDigit([], z, 0, low, ca as int + cb as int);
    assert [] + [low] == o;
    for i := 1 to len
      invariant b[..] == y && forall k :: i <= k < len ==> c[k] == x[k]
      invariant |o| == i && o[0] == 0 && c[..i - 1] == o[1..] && Chain(o, z, ca as int + cb as int)
    {
      ghost var before := ca as int + cb as int;
      assert c[i] == x[i] && b[i] == y[i];
      low, ca, cb := Column(a, b[i], c[i], d0, key.n[i], ca, cb);
      c[i - 1] := low;
      ChainDigit(o, z, before, low, ca as int + cb as int);
      o := o + [low];
    }
    ghost var carry := ca as int + cb as int;
    low, top := Carry(ca as int + cb as int);
    c[len - 1] := low;
    assert c[..] == o[1..] + [low];
    AccumulateEnd(o, z, carry, low, top, x, a, y, d0, key.n);
  }

  lemma AccumulateEnd(o: seq<int>, z: seq<int>, carry: int, low: int, top: int, c: seq<int>, a: int, b: seq<int>, d: int, n: seq<int>)
    requires |o| == |z| == |c| == |b| == |n| > 0 && o[0] == 0 && Chain(o, z, carry) && carry == low + 0x1_0000_0000 * top
    requires forall k :: 0 <= k < |z| ==> z[k] == c[k] + b[k] * a + n[k] * d
    ensures 0x1_0000_0000 * (Nat(o[1..] + [low]) + top * Base(|o|)) == Nat(c) + Nat(b) * a + Nat(n) * d
  {
    ChainValue(o, z, carry);
    assert z[..|o|] == z;
    ColumnsValue(z, c, a, b, d, n);
    Shifted(o, carry, low, top);
  }

  /** montMulAdd: c = (c + a*b) / 2^32 modulo the key's modulus, below R again. */
  method MontMulAdd(key: Key, c: array<u32>, a: u32, b: array<u32>)
    requires Montgomery(key) && c.Length == |key.n| && b.Length == |key.n| && b != c
    modifies c
    ensures Cong(0x1_0000_0000 * Nat(c[..]), old(Nat(c[..])) + Nat(b[..]) * a, Modulus(key))
  {
    ghost var x, y, n, r := Nat(c[..]), Nat(b[..]), Modulus(key), Radix(key);
    NatBound(c[..]);
    NatBound(b[..]);
    NatBound(key.n);
    var top, d := Accumulate(key, c, a, b);
    ghost var raw := Nat(c[..]);
    NatBound(c[..]);
    StepBound(raw + top * r, x, a, y, d, n, r);
    StepClass(raw + top * r, x + y * a, d, n);
    if top > 0 {
      ghost var borrow := SubM(key, c);
      NatBound(c[..]);
      TopCarries(raw, top, n, r);
      Corrected(raw, top, borrow, Nat(c[..]), n, r);
      LessModulus(raw + top * r, x + y * a, n);
    }
  }

  lemma TopCarries(raw: int, top: int, n: int, r: int)
    requires raw >= 0 && top > 0 && r > 0 && n >= 0 && (n == 0 ==> raw + top * r <= r - 1)
    ensures n > 0
  {
    assert top * r >= r;
  }

  lemma StepClass(v: int, x: int, d: int, n: int)
    requires 0x1_0000_0000 * v == x + n * d
    ensures Cong(0x1_0000_0000 * v, x, n)
  {
    CongIntro(0x1_0000_0000 * v, x, n, d);
  }

  lemma LessModulus(v: int, x: int, n: int)
    requires Cong(0x1_0000_0000 * v, x, n)
    ensures Cong(0x1_0000_0000 * (v - n), x, n)
  {
    assert 0x1_0000_0000 * (v - n) == 0x1_0000_0000 * v + (-0x1_0000_0000) * n;
    CongIntro(0x1_0000_0000 * (v - n), 0x1_0000_0000 * v, n, -0x1_0000_0000);
    CongTrans(0x1_0000_0000 * (v - n), 0x1_0000_0000 * v, x, n);
  }

  // ---- montMul -----------------------------------------------------------------------------------

  /** One more word of a: the weights follow. */
  lemma MontStep(c: int, next: int, a: int, d: int, b: int, w: int, n: int)
    requires Cong(0x1_0000_0000 * next, c + b * d, n) && Cong(c * w, a * b, n)
    ensures Cong(next * (w * 0x1_0000_0000), (a + d * w) * b, n)
  {
    assert b * d == d * b;
    CongScale(0x1_0000_0000 * next, c + d * b, w, n);
    CongRefl((d * b) * w, n);
    CongAdd(c * w, a * b, (d * b) * w, (d * b) * w, n);
    assert (0x1_0000_0000 * next) * w == next * (w * 0x1_0000_0000);
    assert (c + d * b) * w == c * w + (d * b) * w;
    assert a * b + (d * b) * w == (a + d * w) * b;
    CongTrans(next * (w * 0x1_0000_0000), (c + d * b) * w, (a + d * w) * b, n);
  }

  /** montMul: c = a * b / R modulo the key's modulus, below R. */
  method MontMul(key: Key, c: array<u32>, a: array<u32>, b: array<u32>)
    requires Montgomery(key) && a.Length == |key.n| && b.Length == |key.n| && c.Length == |key.n| && c != a && c != b
    modifies c
    ensures Cong(Nat(c[..]) * Radix(key), Nat(a[..]) * Nat(b[..]), Modulus(key))
  {
    var len := |key.n|;
    ghost var x, y, n := a[..], Nat(b[..]), Modulus(key);
    for i := 0 to len
      invariant forall k :: 0 <= k < i ==> c[k] == 0
    {
      c[i] := 0;
    }
    ZeroNat(c[..]);
    CongRefl(0, n);
    assert x[..0] == [];
    for i := 0 to len
      invariant a[..] == x && Nat(b[..]) == y
      invariant Cong(Nat(c[..]) * Base(i), Nat(x[..i]) * y, n)
    {
      ghost var before := Nat(c[..]);
      MontMulAdd(key, c, a[i], b);
      MontStep(before, Nat(c[..]), Nat(x[..i]), x[i], y, Base(i), n);
      NatStep(x, i);
    }
    assert x[..len] == x;
  }

  // ---- bytes -------------------------------------------------------------------------------------

  /** The number a big-endian byte string stands for. */
  ghost function BigEndian(s: seq<u8>): int {
    if s == [] then 0 else BigEndian(s[..|s| - 1]) * 0x100 + s[|s| - 1]
  }

  ghost function WordAt(s: seq<u8>, j: nat): int
    requires j + 4 <= |s|
  {
    s[j] as int * 0x100_0000 + s[j + 1] as int * 0x1_0000 + s[j + 2] as int * 0x100 + s[j + 3] as int
  }

  lemma LastWord(s: seq<u8>)
    requires |s| >= 4
    ensures BigEndian(s) == BigEndian(s[..|s| - 4]) * 0x1_0000_0000 + WordAt(s, |s| - 4)
  {
    var n := |s|;
    assert s[..n - 1][..n - 2] == s[..n - 2] && s[..n - 2][..n - 3] == s[..n - 3] && s[..n - 3][..n - 4] == s[..n - 4];
    assert BigEndian(s[..n - 3]) == BigEndian(s[..n - 4]) * 0x100 + s[n - 4];
    assert BigEndian(s[..n - 2]) == BigEndian(s[..n - 3]) * 0x100 + s[n - 3];
    assert BigEndian(s[..n - 1]) == BigEndian(s[..n - 2]) * 0x100 + s[n - 2];
  }

  /** Big-endian words, last to first, are the digits of the number. */
  lemma {:induction false} BytesAreDigits(s: seq<u8>, w: seq<u32>)
    requires |s| == 4 * |w| && forall i :: 0 <= i < |w| ==> w[i] == WordAt(s, 4 * (|w| - 1 - i))
    ensures BigEndian(s) == Nat(w)
  {
    if w != [] {
      var t, v := s[..|s| - 4], w[1..];
      forall i | 0 <= i < |v|
        ensures v[i] == WordAt(t, 4 * (|v| - 1 - i))
      {
        assert v[i] == w[i + 1];
      }
      BytesAreDigits(t, v);
      LastWord(s);
      NatCons(w[0], v);
      assert w == [w[0]] + v;
    }
  }

  /** The conversion that opens modpow. */
  method Load(inout: array<u8>, len: nat) returns (a: array<u32>)
    requires inout.Length == 4 * len
    ensures fresh(a) && a.Length == len && Nat(a[..]) == BigEndian(inout[..])
  {
    a := new u32[len];
    ghost var s := inout[..];
    for i := 0 to len
      invariant inout[..] == s
      invariant forall k :: 0 <= k < i ==> a[k] == WordAt(s, 4 * (len - 1 - k))
    {
      var j := (len - 1 - i) * 4;
      var x := JoinBytes(inout[j], inout[j + 1], inout[j + 2], inout[j + 3]);
      a[i] := x;
    }
    BytesAreDigits(s, a[..]);
  }

  /** The conversion that ends it. */
  method Store(inout: array<u8>, a: array<u32>)
    requires inout.Length == 4 * a.Length
    modifies inout
    ensures BigEndian(inout[..]) == Nat(a[..])
  {
    var len := a.Length;
    ghost var w := a[..];
    var i := len - 1;
    var p := 0;
    while i >= 0
      invariant -1 <= i < len && p == 4 * (len - 1 - i) && a[..] == w
      invariant forall k :: i < k < len ==> w[k] == WordAt(inout[..], 4 * (len - 1 - k))
    {
      var b0, b1, b2, b3 := SplitBytes(a[i]);
      ghost var before := inout[..];
      inout[p] := b0;
      inout[p + 1] := b1;
      inout[p + 2] := b2;
      inout[p + 3] := b3;
      assert inout[..p] == before[..p];
      forall k | i < k < len
        ensures w[k] == WordAt(inout[..], 4 * (len - 1 - k))
      {
        var j := 4 * (len - 1 - k);
        assert j + 4 <= p && forall l :: 0 <= l < p ==> inout[l] == inout[..p][l] == before[l];
        assert WordAt(inout[..], j) == WordAt(before, j);
      }
      p := p + 4;
      i := i - 1;
    }
    BytesAreDigits(inout[..], w);
  }

  // ---- modpow ----------------------------------------------------------------------------------------

  /** n0inv gives 2^32, hence R, an inverse modulo n. */
  lemma WordInverse(k: Key) returns (i: int)
    requires Montgomery(k)
    ensures Cong(0x1_0000_0000 * i, 1, Modulus(k))
  {
    var q := LowWord(k.n);
    var h := (k.n0inv * k.n[0] + 1) / 0x1_0000_0000;
    i := h + k.n0inv * q;
    assert 0x1_0000_0000 * i == 1 + k.n0inv * (k.n[0] + 0x1_0000_0000 * q);
    CongIntro(0x1_0000_0000 * i, 1, Modulus(k), k.n0inv);
  }

  lemma {:induction false} RadixInverse(len: nat, i: int, n: int) returns (w: int)
    requires Cong(0x1_0000_0000 * i, 1, n)
    ensures Cong(Base(len) * w, 1, n)
  {
    if len == 0 {
      w := 1;
      CongRefl(1, n);
    } else {
      var v := RadixInverse(len - 1, i, n);
      w := v * i;
      CongMul(Base(len - 1) * v, 1, 0x1_0000_0000 * i, 1, n);
      assert (Base(len - 1) * v) * (0x1_0000_0000 * i) == (Base(len - 1) * 0x1_0000_0000) * (v * i);
    }
  }

  /** x is the Montgomery form of u. */
  ghost predicate Form(x: int, u: int, r: int, n: int) {
    Cong(x, u * r, n)
  }

  /** a * rr / R is the form of a. */
  lemma EnterForm(x: int, a: int, rr: int, r: int, w: int, n: int)
    requires Cong(x * r, a * rr, n) && Cong(rr, r * r, n) && Cong(r * w, 1, n)
    ensures Form(x, a, r, n)
  {
    CongScale(rr, r * r, a, n);
    assert rr * a == a * rr && (r * r) * a == (a * r) * r;
    CongTrans(x * r, a * rr, (a * r) * r, n);
    CongCancel(x, a * r, r, w, n);
  }

  lemma FormProduct(x: int, y: int, z: int, u: int, v: int, r: int, w: int, n: int)
    requires Cong(z * r, x * y, n) && Form(x, u, r, n) && Form(y, v, r, n) && Cong(r * w, 1, n)
    ensures Form(z, u * v, r, n)
  {
    CongMul(x, u * r, y, v * r, n);
    assert (u * r) * (v * r) == ((u * v) * r) * r;
    CongTrans(z * r, x * y, ((u * v) * r) * r, n);
    CongCancel(z, (u * v) * r, r, w, n);
  }

  /** A form times a plain number is plain. */
  lemma LeaveForm(x: int, a: int, z: int, u: int, r: int, w: int, n: int)
    requires Cong(z * r, x * a, n) && Form(x, u, r, n) && Cong(r * w, 1, n)
    ensures Cong(z, u * a, n)
  {
    CongScale(x, u * r, a, n);
    assert (u * r) * a == (u * a) * r;
    CongTrans(z * r, x * a, (u * a) * r, n);
    CongCancel(z, u * a, r, w, n);
  }

  /** montMul of a form with itself: the exponent doubles. */
  method SquareForm(key: Key, c: array<u32>, a: array<u32>, ghost b: int, ghost e: nat, ghost w: int)
    requires Montgomery(key) && a.Length == |key.n| && c.Length == |key.n| && c != a && Cong(Radix(key) * w, 1, Modulus(key))
    requires Form(Nat(a[..]), Pow(b, e), Radix(key), Modulus(key))
    modifies c
    ensures Form(Nat(c[..]), Pow(b, 2 * e), Radix(key), Modulus(key))
  {
    ghost var x := Nat(a[..]);
    MontMul(key, c, a, a);
    FormProduct(x, x, Nat(c[..]), Pow(b, e), Pow(b, e), Radix(key), w, Modulus(key));
    PowAdd(b, e, e);
  }

  lemma SixteenDoublings(w: nat)
    requires w == 16
    ensures Pow2(w) == 65536
  {
    assert Pow2(w - 14) == 2 * Pow2(w - 15) && Pow2(w - 15) == 2 * Pow2(w - 16);
    Pow2Add(w - 14, w - 14);
    Pow2Add(w - 12, w - 12);
    Pow2Add(w - 8, w - 8);
  }

  lemma PowNext(b: int, e: nat)
    ensures Pow(b, e) * b == Pow(b, e + 1)
  {
    PowAdd(b, e, 1);
    PowOne(b);
  }

  /** The multiplications of modpow: b^e in the class of a, below R. */
  method RaiseLong(key: Key, a: array<u32>, rr: array<u32>, ghost w: int) returns (c: array<u32>)
    requires Usable(key) && a.Length == |key.n| && rr[..] == key.rr && Cong(Radix(key) * w, 1, Modulus(key))
    ensures fresh(c) && c.Length == |key.n| && Cong(Nat(c[..]), Pow(Nat(a[..]), 65537), Modulus(key))
  {
    ghost var b, r, n := Nat(a[..]), Radix(key), Modulus(key);
    var aR, aaR := new u32[|key.n|], new u32[|key.n|];
    MontMul(key, aR, a, rr);
    EnterForm(Nat(aR[..]), b, Nat(key.rr), r, w, n);
    PowOne(b);
    var i := 0;
    ghost var e: nat := 1;
    while i < 16
      invariant 0 <= i <= 16 && i % 2 == 0 && e == Pow2(i)
      invariant Form(Nat(aR[..]), Pow(b, e), r, n)
    {
      SquareForm(key, aaR, aR, b, e, w);
      SquareForm(key, aR, aaR, b, 2 * e, w);
      assert Pow2(i + 2) == 2 * Pow2(i + 1) && Pow2(i + 1) == 2 * Pow2(i);
      i := i + 2;
      e := 4 * e;
    }
    SixteenDoublings(i);
    MontMul(key, aaR, aR, a);
    LeaveForm(Nat(aR[..]), b, Nat(aaR[..]), Pow(b, e), r, w, n);
    PowNext(b, e);
    c := aaR;
  }

  method RaiseShort(key: Key, a: array<u32>, rr: array<u32>, ghost w: int) returns (c: array<u32>)
    requires Usable(key) && a.Length == |key.n| && rr[..] == key.rr && Cong(Radix(key) * w, 1, Modulus(key))
    ensures fresh(c) && c.Length == |key.n| && Cong(Nat(c[..]), Pow(Nat(a[..]), 3), Modulus(key))
  {
    ghost var b, r, n := Nat(a[..]), Radix(key), Modulus(key);
    var aR, aaR := new u32[|key.n|], new u32[|key.n|];
    MontMul(key, aR, a, rr);
    EnterForm(Nat(aR[..]), b, Nat(key.rr), r, w, n);
    PowOne(b);
    SquareForm(key, aaR, aR, b, 1, w);
    MontMul(key, aR, aaR, a);
    ghost var two := 2;
    LeaveForm(Nat(aaR[..]), b, Nat(aR[..]), Pow(b, two), r, w, n);
    PowNext(b, two);
    c := aR;
  }

  lemma Reduced(c: int, p: int, n: int)
    requires 0 <= c < n && Cong(c, p, n)
    ensures c == p % n
  {
    CongMod(c, p, n);
    assert c % n == c;
  }

  /** modpow: for every usable key, whatever the input, the output is input^e mod n. */
  method ModPow(key: Key, inout: array<u8>)
    requires Usable(key) && inout.Length == 4 * |key.n|
    modifies inout
    ensures 0 < Modulus(key) && BigEndian(inout[..]) == Pow(old(BigEndian(inout[..])), key.exponent) % Modulus(key)
  {
    ghost var n, r := Modulus(key), Radix(key);
    var len := |key.n|;
    var a := Load(inout, len);
    ghost var b := Nat(a[..]);
    var rr := new u32[len](k requires 0 <= k < len => key.rr[k]);
    assert rr[..] == key.rr;
    ghost var i := WordInverse(key);
    ghost var w := RadixInverse(len, i, n);
    var c;
    if key.exponent == 65537 {
      c := RaiseLong(key, a, rr, w);
    } else {
      c := RaiseShort(key, a, rr, w);
    }
    NatBound(c[..]);
    ghost var p := Pow(b, key.exponent);
    var big := GeM(key, c);
    if big {
      ghost var x := Nat(c[..]);
      ghost var borrow := SubM(key, c);
      NatBound(c[..]);
      OneLess(x, n, p);
      Unborrowed(x, n, borrow, Nat(c[..]), r);
    }
    Reduced(Nat(c[..]), p, n);
    Store(inout, c);
  }

  lemma OneLess(x: int, n: int, p: int)
    requires Cong(x, p, n)
    ensures Cong(x - n, p, n)
  {
    CongIntro(x - n, x, n, -1);
    CongTrans(x - n, x, p, n);
  }

  lemma Unborrowed(x: int, n: int, borrow: int, c: int, r: int)
    requires -1 <= borrow <= 0 && c + borrow * r == x - n && 0 <= c < r && 0 <= n <= x < r
    ensures c == x - n
  {
    assert borrow * r == if borrow == 0 then 0 else -r;
  }
}
