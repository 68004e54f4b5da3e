/** 256-bit unsigned integers of p256.c: eight base-2^32 digits, least significant first. */
module P256 {
  import opened Words
  import opened Modular
  import opened Digits

  const TWO_256: int := 0x1_00000000_00000000_00000000_00000000_00000000_00000000_00000000_00000000

  lemma BaseEight(n: nat)
    requires n == 8
    ensures Base(n) == TWO_256
    ensures Base(n - 1) == 0x1_00000000_00000000_00000000_00000000_00000000_00000000_00000000
  {
    assert Base(n - 7) == 0x1_0000_0000 * Base(n - 8);
    assert Base(n - 6) == 0x1_0000_0000 * Base(n - 7);
    assert Base(n - 5) == 0x1_0000_0000 * Base(n - 6);
    assert Base(n - 4) == 0x1_0000_0000 * Base(n - 5);
    assert Base(n - 3) == 0x1_0000_0000 * Base(n - 4);
    assert Base(n - 2) == 0x1_0000_0000 * Base(n - 3);
    assert Base(n - 1) == 0x1_0000_0000 * Base(n - 2);
  }

  lemma NumBound(a: seq<u32>)
    requires |a| == 8
    ensures 0 <= Nat(a) < TWO_256
  {
    NatBound(a);
    BaseEight(|a|);
  }

  // ---- digit loops over a window of a larger buffer -----------------------------

  lemma ProductFits(x: int, y: int, c: int, carry: int)
    requires 0 <= x < 0x1_0000_0000 && 0 <= y < 0x1_0000_0000 && 0 <= c < 0x1_0000_0000 && 0 <= carry < 0x1_0000_0000
    ensures 0 <= carry + c + x * y < 0x1_0000_0000_0000_0000
  {
    MulBound(x, y, 0xffff_ffff, 0xffff_ffff);
  }

  lemma MulAddValue(o: seq<int>, z: seq<int>, carry: int, c: seq<int>, a: seq<int>, b: int)
    requires |o| == |z| == |c| == |a| == 8 && Chain(o, z, carry)
    requires forall k :: 0 <= k < 8 ==> z[k] == c[k] + a[k] * b
    ensures Nat(o) + carry * TWO_256 == Nat(c) + Nat(a) * b
  {
    ChainValue(o, z, carry);
    assert z[..|o|] == z;
    BaseEight(|o|);
    var p := seq(8, k requires 0 <= k < 8 => a[k] * b);
    NatScale(b, a, p);
    NatAdd(c, p, z);
  }

  /** mulAdd: top, c[] += a[] * b, on the eight digits of c from off on. */
  method MulAdd(a: array<u32>, b: u32, top: u32, c: array<u32>, off: nat) returns (r: u32, ghost carry: u32)
    requires a.Length == 8 && off + 8 <= c.Length && a != c
    modifies c
    ensures r == Add32(top, carry)
    ensures Nat(c[off..off + 8]) + carry * TWO_256 == old(Nat(c[off..off + 8])) + Nat(a[..]) * b
    ensures c[..off] == old(c[..off]) && c[off + 8..] == old(c[off + 8..])
  {
    ghost var x, y := a[..], c[off..off + 8];
    ghost var z: seq<int> := seq(8, k requires 0 <= k < 8 => y[k] as int + (x[k] as int) * b);
    ghost var o: seq<int> := [];
    var acc: u32 := 0;
    for i := 0 to 8
      invariant forall k :: 0 <= k < off || off + i <= k < c.Length ==> c[k] == old(c[k])
      invariant |o| == i && c[off..off + i] == o && Chain(o, z, acc)
    {
      ghost var before := acc;
      assert c[off + i] == old(c[off + i]) == y[i];
      ProductFits(a[i], b, c[off + i], acc);
      var low;
      low, acc := Carry(acc as int + c[off + i] as int + (a[i] as int) * (b as int));
      c[off + i] := low;
      ChainDigit(o, z, before, low, acc);
      o := o + [low];
    }
    assert c[off..off + 8] == o;
    assert c[..off] == old(c[..off]) && c[off + 8..] == old(c[off + 8..]);
    MulAddValue(o, z, acc, y, x, b);
    carry := acc;
    r := Add32(top, acc);
  }

  lemma ChainDiff(o: seq<int>, z: seq<int>, borrow: int, c: seq<int>, a: seq<int>)
    requires |o| == |z| == |c| == |a| == 8 && Chain(o, z, borrow)
    requires forall k :: 0 <= k < 8 ==> z[k] == c[k] - a[k]
    ensures Nat(o) + borrow * TWO_256 == Nat(c) - Nat(a)
  {
    ChainValue(o, z, borrow);
    assert z[..|o|] == z;
    BaseEight(|o|);
    NatAdd(z, a, c);
  }

  lemma ChainSum(o: seq<int>, z: seq<int>, carry: int, c: seq<int>, a: seq<int>)
    requires |o| == |z| == |c| == |a| == 8 && Chain(o, z, carry)
    requires forall k :: 0 <= k < 8 ==> z[k] == c[k] + a[k]
    ensures Nat(o) + carry * TWO_256 == Nat(c) + Nat(a)
  {
    ChainValue(o, z, carry);
    assert z[..|o|] == z;
    BaseEight(|o|);
    NatAdd(c, a, z);
  }

  /** subTop: top, c[] -= top_a, a[]. Its assert, that nothing is borrowed beyond the
      top digit, becomes the precondition. */
  method SubTop(top_a: u32, a: array<u32>, top_c: u32, c: array<u32>, off: nat) returns (r: u32)
    requires a.Length == 8 && off + 8 <= c.Length && a != c
    requires top_a * TWO_256 + Nat(a[..]) <= top_c * TWO_256 + Nat(c[off..off + 8])
    modifies c
    ensures r * TWO_256 + Nat(c[off..off + 8]) == old(top_c * TWO_256 + Nat(c[off..off + 8])) - (top_a * TWO_256 + Nat(a[..]))
    ensures c[..off] == old(c[..off]) && c[off + 8..] == old(c[off + 8..])
  {
    ghost var x, y := a[..], c[off..off + 8];
    ghost var z: seq<int> := seq(8, k requires 0 <= k < 8 => y[k] as int - x[k] as int);
    ghost var o: seq<int> := [];
    var borrow: int := 0;
    for i := 0 to 8
      invariant forall k :: 0 <= k < off || off + i <= k < c.Length ==> c[k] == old(c[k])
      invariant -1 <= borrow <= 0
      invariant |o| == i && c[off..off + i] == o && Chain(o, z, borrow)
    {
      ghost var before := borrow;
      assert c[off + i] == old(c[off + i]) == y[i];
      var low;
      low, borrow := Borrow(borrow + c[off + i] as int - a[i] as int);
      c[off + i] := low;
      ChainDigit(o, z, before, low, borrow);
      o := o + [low];
    }
    assert c[off..off + 8] == o;
    assert c[..off] == old(c[..off]) && c[off + 8..] == old(c[off + 8..]);
    ChainDiff(o, z, borrow, y, x);
    NumBound(c[off..off + 8]);
    borrow := borrow + top_c as int - top_a as int;
    assert borrow * TWO_256 + Nat(o) >= 0;
    assert 0 <= borrow;
    r := borrow;
  }

  /** subM: top, c[] -= MOD[] & mask. The new top is kept modulo 2^32. */
  method SubM(mod: array<u32>, top: u32, c: array<u32>, off: nat, mask: u32) returns (r: u32, ghost borrow: int)
    requires mod.Length == 8 && off + 8 <= c.Length && mod != c && (mask == 0 || mask == 0xffff_ffff)
    modifies c
    ensures -1 <= borrow <= 0 && r == if borrow == 0 then top else Sub32(top, 1)
    ensures Nat(c[off..off + 8]) + borrow * TWO_256
            == old(Nat(c[off..off + 8])) - (if mask == 0 then 0 else Nat(mod[..]))
    ensures c[..off] == old(c[..off]) && c[off + 8..] == old(c[off + 8..])
  {
    ghost var x: seq<int> := seq(8, k requires 0 <= k < 8 reads mod => Masked(mod[k], mask) as int);
    ghost var y := c[off..off + 8];
    ghost var z: seq<int> := seq(8, k requires 0 <= k < 8 => y[k] as int - x[k]);
    ghost var o: seq<int> := [];
    borrow := 0;
    var acc: int := 0;
    for i := 0 to 8
      invariant forall k :: 0 <= k < off || off + i <= k < c.Length ==> c[k] == old(c[k])
      invariant -1 <= acc <= 0
      invariant |o| == i && c[off..off + i] == o && Chain(o, z, acc)
    {
      ghost var before := acc;
      assert c[off + i] == old(c[off + i]) == y[i];
      var low;
      low, acc := Borrow(acc + c[off + i] as int - Masked(mod[i], mask) as int);
      c[off + i] := low;
      ChainDigit(o, z, before, low, acc);
      o := o + [low];
    }
    assert c[off..off + 8] == o;
    assert c[..off] == old(c[..off]) && c[off + 8..] == old(c[off + 8..]);
    ChainDiff(o, z, acc, y, x);
    MaskedNat(mod[..], mask, x);
    borrow := acc;
    r := Add32(top, if acc == 0 then 0 else 0xffff_ffff);
  }

  lemma MaskedNat(m: seq<u32>, mask: u32, x: seq<int>)
    requires |m| == |x| && (mask == 0 || mask == 0xffff_ffff)
    requires forall k :: 0 <= k < |m| ==> x[k] == Masked(m[k], mask)
    ensures Nat(x) == if mask == 0 then 0 else Nat(m)
  {
    if mask == 0 {
      NatScale(0, m, x);
    } else {
      assert x == m;
    }
  }

  /** addM: top, c[] += MOD[] & mask. */
  method AddM(mod: array<u32>, top: u32, c: array<u32>, off: nat, mask: u32) returns (r: u32, ghost carry: int)
    requires mod.Length == 8 && off + 8 <= c.Length && mod != c && (mask == 0 || mask == 0xffff_ffff)
    modifies c
    ensures 0 <= carry <= 1 && r == Add32(top, carry)
    ensures Nat(c[off..off + 8]) + carry * TWO_256
            == old(Nat(c[off..off + 8])) + (if mask == 0 then 0 else Nat(mod[..]))
    ensures c[..off] == old(c[..off]) && c[off + 8..] == old(c[off + 8..])
  {
    ghost var x: seq<int> := seq(8, k requires 0 <= k < 8 reads mod => Masked(mod[k], mask) as int);
    ghost var y := c[off..off + 8];
    ghost var z: seq<int> := seq(8, k requires 0 <= k < 8 => y[k] as int + x[k]);
    ghost var o: seq<int> := [];
    var acc: u32 := 0;
    for i := 0 to 8
      invariant forall k :: 0 <= k < off || off + i <= k < c.Length ==> c[k] == old(c[k])
      invariant 0 <= acc <= 1
      invariant |o| == i && c[off..off + i] == o && Chain(o, z, acc)
    {
      ghost var before := acc;
      assert c[off + i] == old(c[off + i]) == y[i];
      var low;
      low, acc := Carry(acc as int + c[off + i] as int + Masked(mod[i], mask) as int);
      c[off + i] := low;
      ChainDigit(o, z, before, low, acc);
      o := o + [low];
    }
    assert c[off..off + 8] == o;
    assert c[..off] == old(c[..off]) && c[off + 8..] == old(c[off + 8..]);
    ChainSum(o, z, acc, y, x);
    MaskedNat(mod[..], mask, x);
    carry := acc;
    r := Add32(top, acc);
  }

  // ---- modular multiplication -----------------------------------------------------

  /** A modulus whose top digit is 0xffffffff, as the curve's p and n. */
  ghost predicate FullModulus(m: seq<u32>) {
    |m| == 8 && m[7] == 0xffff_ffff
  }

  lemma FullModulusBound(m: seq<u32>)
    requires FullModulus(m)
    ensures TWO_256 - 0x1_00000000_00000000_00000000_00000000_00000000_00000000_00000000 <= Nat(m) < TWO_256
  {
    BaseEight(|m|);
    NatBound(m);
    NatBound(m[..7]);
  }

  /** The low i + 8 digits of t, split at digit i. */
  lemma Window(t: seq<u32>, i: nat)
    requires i + 8 <= |t|
    ensures Nat(t[..i + 8]) == Nat(t[..i]) + Nat(t[i..i + 8]) * Base(i)
  {
    NatConcat(t[..i], t[i..i + 8]);
    assert t[..i] + t[i..i + 8] == t[..i + 8];
  }

  lemma WindowSum(lo: int, w0: int, w1: int, c: int, p: int, b: int, top: int)
    requires w1 + c * top == w0 + p
    ensures lo + w1 * b + c * (b * top) == lo + w0 * b + p * b
  {
    assert (w1 + c * top) * b == w1 * b + c * (b * top);
    assert (w0 + p) * b == w0 * b + p * b;
  }

  /** One row of the product, or one reduction step: the window at digit i changes by p
      and hands c to digit i + 8. */
  lemma WindowChange(s: seq<u32>, t: seq<u32>, i: nat, c: int, p: int)
    requires |s| == |t| && i + 8 <= |s| && s[..i] == t[..i]
    requires Nat(t[i..i + 8]) + c * TWO_256 == Nat(s[i..i + 8]) + p
    ensures Nat(t[..i + 8]) + c * Base(i + 8) == Nat(s[..i + 8]) + p * Base(i)
  {
    Window(s, i);
    Window(t, i);
    var e := 8;
    BaseEight(e);
    BaseAdd(i, e);
    WindowSum(Nat(s[..i]), Nat(s[i..i + 8]), Nat(t[i..i + 8]), c, p, Base(i), TWO_256);
  }

  lemma ProductStep(a: int, b: seq<u32>, i: nat, x: int)
    requires i < |b| && x == a * Nat(b[..i])
    ensures x + (a * b[i]) * Base(i) == a * Nat(b[..i + 1])
  {
    NatStep(b, i);
    assert a * (Nat(b[..i]) + b[i] * Base(i)) == a * Nat(b[..i]) + (a * b[i]) * Base(i);
  }

  /** First half of p256_modmul: top, tmp = a * (top_b | b), row by row. */
  method Product(a: array<u32>, top_b: u32, b: array<u32>) returns (tmp: array<u32>, top: u32)
    requires a.Length == 8 && b.Length == 8
    ensures fresh(tmp) && tmp.Length == 17
    ensures Nat(tmp[..16]) + top * Base(16) == Nat(a[..]) * Nat(b[..] + [top_b])
  {
    tmp := new u32[17](_ => 0);
    ghost var digits := b[..] + [top_b];
    ghost var carry;
    top := 0;
    ghost var va := Nat(a[..]);
    ZeroNat(tmp[..7]);
    ZeroNat(tmp[..8]);
    for i := 0 to 9
      invariant Nat(tmp[..i + 7]) + top * Base(i + 7) == va * Nat(digits[..i])
      invariant i == 0 ==> top == 0 && Nat(tmp[..8]) == 0
    {
      if i != 0 {
        ghost var low := tmp[..i + 7];
        tmp[i + 7] := top;
        assert tmp[..i + 7] == low;
        NatStep(tmp[..], i + 7);
        assert tmp[..][..i + 7] == low && tmp[..][..i + 8] == tmp[..i + 8];
      }
      ghost var s := tmp[..];
      top, carry := MulAdd(a, if i < 8 then b[i] else top_b, 0, tmp, i);
      assert digits[i] == if i < 8 then b[i] else top_b;
      assert s[..i] == tmp[..][..i];
      WindowChange(s, tmp[..], i, carry, va * digits[i]);
      ProductStep(va, digits, i, Nat(s[..i + 8]));
    }
    assert digits[..9] == digits;
  }

  const TWO_224: int := 0x1_00000000_00000000_00000000_00000000_00000000_00000000_00000000

  /** top * MOD is a good guess: it can be taken off, and leaves at most one bit above
      256, which one more MOD removes. */
  lemma GuessFits(m: int, top: int, w: int)
    requires TWO_256 - TWO_224 <= m < TWO_256 && 0 <= top < 0x1_0000_0000 && 0 <= w < TWO_256
    ensures m * top <= top * TWO_256 + w
    ensures top * TWO_256 + w - m * top < 2 * TWO_256
    ensures top * TWO_256 + w - m * top >= TWO_256 ==> top * TWO_256 + w - m * top - TWO_256 < m
  {
    MulBound(top, TWO_256 - m, 0xffff_ffff, TWO_224);
    assert top * (TWO_256 - m) == top * TWO_256 - m * top;
  }

  lemma OneMore(top: int, r: int, m: int)
    requires 0 <= r <= 1
    ensures (top + r) * m == m * top + (if r == 0 then 0 else m)
  {
  }

  /** top * MOD taken off the window, which leaves at most one bit above it. */
  method SubGuess(mod: array<u32>, top: u32, tmp: array<u32>, i: nat, ghost m: int, ghost w: int) returns (r: u32)
    requires mod.Length == 8 && i + 8 <= tmp.Length && mod != tmp
    requires m == Nat(mod[..]) && w == Nat(tmp[i..i + 8])
    requires m * top <= top * TWO_256 + w < m * top + 2 * TWO_256
    modifies tmp
    ensures r <= 1 && Nat(tmp[i..i + 8]) + r * TWO_256 == top * TWO_256 + w - m * top
    ensures tmp[..i] == old(tmp[..i]) && tmp[i + 8..] == old(tmp[i + 8..])
  {
    NumBound(tmp[i..i + 8]);
    var reducer := new u32[8](_ => 0);
    ZeroNat(reducer[0..8]);
    ghost var carry;
    var top_reducer;
    top_reducer, carry := MulAdd(mod, top, 0, reducer, 0);
    assert reducer[0..8] == reducer[..];
    r := SubTop(top_reducer, reducer, top, tmp, i);
    NumBound(tmp[i..i + 8]);
  }

  /** One pass of the reduction loop of p256_modmul. Its asserts (no borrow in subTop,
      top <= 1, top == 0) hold for every top and every window. */
  method ReduceWindow(mod: array<u32>, top: u32, tmp: array<u32>, i: nat) returns (r: u32, ghost k: int)
    requires mod.Length == 8 && FullModulus(mod[..]) && i + 8 <= tmp.Length && mod != tmp
    modifies tmp
    ensures r == 0
    ensures Nat(tmp[i..i + 8]) == top * TWO_256 + old(Nat(tmp[i..i + 8])) - k * Nat(mod[..])
    ensures tmp[..i] == old(tmp[..i]) && tmp[i + 8..] == old(tmp[i + 8..])
  {
    ghost var m, w := Nat(mod[..]), Nat(tmp[i..i + 8]);
    FullModulusBound(mod[..]);
    NumBound(tmp[i..i + 8]);
    GuessFits(m, top, w);
    r := SubGuess(mod, top, tmp, i, m, w);
    NumBound(tmp[i..i + 8]);
    ghost var borrow;
    k := top as int + r as int;
    OneMore(top, r, m);
    r, borrow := SubM(mod, r, tmp, i, Sub32(0xffff_ffff, Sub32(r, 1)));
    NumBound(tmp[i..i + 8]);
  }

  lemma KeepClass(x: int, y: int, k: int, b: int, m: int, v: int)
    requires y == x - (k * m) * b && Cong(x, v, m)
    ensures Cong(y, v, m)
  {
    assert (k * m) * b == (k * b) * m;
    CongIntro(y, x, m, -(k * b));
    CongTrans(y, x, v, m);
  }

  /** p256_mod and the end of p256_modmul: `addM(MOD, 0, t, subM(MOD, 0, t, -1))`. */
  method ReduceOnce(mod: array<u32>, t: array<u32>)
    requires mod.Length == 8 && t.Length >= 8 && mod != t
    modifies t
    ensures Nat(t[..8]) == if old(Nat(t[..8])) >= Nat(mod[..]) then old(Nat(t[..8])) - Nat(mod[..]) else old(Nat(t[..8]))
    ensures t[8..] == old(t[8..])
  {
    NumBound(mod[..]);
    NumBound(t[..8]);
    assert t[0..8] == t[..8];
    ghost var b, c;
    var mask, unused;
    mask, b := SubM(mod, 0, t, 0, 0xffff_ffff);
    assert t[0..8] == t[..8];
    NumBound(t[..8]);
    unused, c := AddM(mod, 0, t, 0, mask);
    assert t[0..8] == t[..8];
    NumBound(t[..8]);
  }

  /** p256_modmul: c = a * (top_b | b) mod MOD. c may be the same array as a or b. */
  method ModMul(mod: array<u32>, a: array<u32>, top_b: u32, b: array<u32>, c: array<u32>)
    requires mod.Length == 8 && a.Length == 8 && b.Length == 8 && c.Length == 8
    requires FullModulus(mod[..]) && mod != c
    modifies c
    ensures 0 <= Nat(c[..]) < Nat(mod[..])
    ensures Cong(Nat(c[..]), old(Nat(a[..]) * (top_b * TWO_256 + Nat(b[..]))), Nat(mod[..]))
  {
    ghost var m := Nat(mod[..]);
    FullModulusBound(mod[..]);
    ghost var v := Nat(a[..]) * Nat(b[..] + [top_b]);
    NatSnoc(b[..], top_b);
    BaseEight(b.Length);
    var tmp, top := Product(a, top_b, b);
    CongRefl(v, m);
    ReduceAll(mod, top, tmp, v);
    ReduceOnce(mod, tmp);
    CopyDigits(c, tmp);
  }

  /** The copy that ends p256_modmul. */
  method CopyDigits(c: array<u32>, tmp: array<u32>)
    requires c.Length == 8 && tmp.Length >= 8 && c != tmp
    modifies c
    ensures c[..] == tmp[..8]
  {
    for j := 0 to 8
      invariant forall k :: 0 <= k < j ==> c[k] == tmp[k]
    {
      c[j] := tmp[j];
    }
  }

  /** One digit of the reduction: the window at i gives up its top digit. */
  method ReduceStep(mod: array<u32>, top: u32, tmp: array<u32>, i: nat, ghost v: int) returns (next: u32)
    requires mod.Length == 8 && FullModulus(mod[..]) && tmp.Length == 17 && i <= 8 && mod != tmp
    requires Cong(Nat(tmp[..i + 8]) + top * Base(i + 8), v, Nat(mod[..]))
    modifies tmp
    ensures Cong(Nat(tmp[..i + 8]), v, Nat(mod[..]))
    ensures next == tmp[i + 7] && Nat(tmp[..i + 8]) == Nat(tmp[..i + 7]) + next * Base(i + 7)
  {
    ghost var m, s := Nat(mod[..]), tmp[..];
    var _, k := ReduceWindow(mod, top, tmp, i);
    assert s[..i] == tmp[..][..i];
    WindowChange(s, tmp[..], i, 0, top * TWO_256 - k * m);
    WindowTop(Nat(s[..i + 8]), Nat(tmp[..i + 8]), top, k, m, i);
    KeepClass(Nat(s[..i + 8]) + top * Base(i + 8), Nat(tmp[..i + 8]), k, Base(i), m, v);
    next := tmp[i + 7];
    NatStep(tmp[..], i + 7);
    assert tmp[..][..i + 7] == tmp[..i + 7] && tmp[..][..i + 8] == tmp[..i + 8];
  }

  /** The reduction loop: what is left in the low eight digits is at most one MOD too large. */
  method ReduceAll(mod: array<u32>, t: u32, tmp: array<u32>, ghost v: int)
    requires mod.Length == 8 && FullModulus(mod[..]) && tmp.Length == 17 && mod != tmp
    requires Cong(Nat(tmp[..16]) + t * Base(16), v, Nat(mod[..]))
    modifies tmp
    ensures var x, m := Nat(tmp[..8]), Nat(mod[..]);
      0 <= (if x >= m then x - m else x) < m && Cong(if x >= m then x - m else x, v, m)
  {
    ghost var m := Nat(mod[..]);
    FullModulusBound(mod[..]);
    var top: u32 := t;
    var i := 8;
    while i >= 0
      invariant -1 <= i <= 8
      invariant i >= 0 ==> Cong(Nat(tmp[..i + 8]) + top * Base(i + 8), v, m)
      invariant i == -1 ==> Cong(Nat(tmp[..8]), v, m)
    {
      top := ReduceStep(mod, top, tmp, i, v);
      i := i - 1;
    }
    NumBound(tmp[..8]);
    ReducedOnce(Nat(tmp[..8]), v, m);
  }

  lemma WindowTop(s: int, t: int, top: int, k: int, m: int, i: nat)
    requires t == s + (top * TWO_256 - k * m) * Base(i)
    ensures t == s + top * Base(i + 8) - (k * m) * Base(i)
  {
    var e := 8;
    BaseEight(e);
    BaseAdd(i, e);
    assert (top * TWO_256 - k * m) * Base(i) == top * (Base(i) * TWO_256) - (k * m) * Base(i);
  }

  lemma ReducedOnce(t: int, v: int, m: int)
    requires 0 <= t < TWO_256 && TWO_256 - TWO_224 <= m < TWO_256 && Cong(t, v, m)
    ensures 0 <= (if t >= m then t - m else t) < m
    ensures Cong(if t >= m then t - m else t, v, m)
  {
    if t >= m {
      CongIntro(t - m, t, m, -1);
      CongTrans(t - m, t, v, m);
    }
  }
}
