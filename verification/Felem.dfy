/** The nine-limb field elements of p256_ec.c: limbs are alternately 29 and 28
    bits wide, so that a full element reaches bit 257. */
module Felem {
  import opened Words
  import opened Modular

  // The P-256 prime, 2^256 - 2^224 + 2^192 + 2^96 - 1.
  const P: int := 0xffffffff_00000001_00000000_00000000_00000000_ffffffff_ffffffff_ffffffff
  const TWO_257: int := 0x2_00000000_00000000_00000000_00000000_00000000_00000000_00000000_00000000

  // ---- positional values ---------------------------------------------------

  function Width(k: nat): int {
    if k % 2 == 0 then 0x2000_0000 else 0x1000_0000
  }

  /** Width(k) * x. */
  function Widened(k: nat, x: int): int {
    if k % 2 == 0 then 0x2000_0000 * x else 0x1000_0000 * x
  }

  ghost function Weight(k: nat): int {
    if k == 0 then 1 else Weight(k - 1) * Width(k - 1)
  }

  /** The value of a limb sequence: limb k counts Weight(k). */
  ghost function Value(s: seq<int>): int {
    if s == [] then 0 else Value(s[..|s| - 1]) + s[|s| - 1] * Weight(|s| - 1)
  }

  lemma ValueSnoc(s: seq<int>, x: int)
    ensures Value(s + [x]) == Value(s) + x * Weight(|s|)
  {
    assert (s + [x])[..|s|] == s;
  }

  /** One limb of a carry chain: splitting a limb into its low part and a
      carry into the next limb keeps the value. */
  lemma ChainStep(k: nat, x: int, low: int, carry: int)
    requires x == low + Widened(k, carry)
    ensures low * Weight(k) + carry * Weight(k + 1) == x * Weight(k)
  {
    var w := Weight(k);
    assert Widened(k, carry) == Width(k) * carry;
    assert carry * (w * Width(k)) == (Width(k) * carry) * w;
  }

  /** The limb bounds every field operation promises on exit. */
  ghost predicate Bounded(s: seq<int>) {
    && |s| == 9
    && forall k :: 0 <= k < 9 ==> 0 <= s[k] < (if k % 2 == 0 then 0x4000_0000 else 0x2000_0000)
  }

  /** Limbs within their own width: what a carry chain leaves. */
  ghost predicate Tight(s: seq<int>) {
    && |s| <= 9
    && forall k :: 0 <= k < |s| ==> 0 <= s[k] < Width(k)
  }

  lemma Weights()
    ensures Weight(0) == 0x1
    ensures Weight(1) == 0x2000_0000
    ensures Weight(2) == 0x200_0000_0000_0000
    ensures Weight(3) == 0x40_0000_0000_0000_0000_0000
    ensures Weight(4) == 0x4_0000_0000_0000_0000_0000_0000_0000
    ensures Weight(5) == 0x8000_0000_0000_0000_0000_0000_0000_0000_0000
    ensures Weight(6) == 0x800_0000_0000_0000_0000_0000_0000_0000_0000_0000_0000
    ensures Weight(7) == 0x100_0000_0000_0000_0000_0000_0000_0000_0000_0000_0000_0000_0000
    ensures Weight(8) == 0x10_0000_0000_0000_0000_0000_0000_0000_0000_0000_0000_0000_0000_0000_0000
    ensures Weight(9) == 0x2_0000_0000_0000_0000_0000_0000_0000_0000_0000_0000_0000_0000_0000_0000_0000_0000
    ensures Weight(10) == 0x2000_0000_0000_0000_0000_0000_0000_0000_0000_0000_0000_0000_0000_0000_0000_0000_0000_0000
    ensures Weight(11) == 0x400_0000_0000_0000_0000_0000_0000_0000_0000_0000_0000_0000_0000_0000_0000_0000_0000_0000_0000_0000
    ensures Weight(12) == 0x40_0000_0000_0000_0000_0000_0000_0000_0000_0000_0000_0000_0000_0000_0000_0000_0000_0000_0000_0000_0000_0000
    ensures Weight(13) == 0x8_0000_0000_0000_0000_0000_0000_0000_0000_0000_0000_0000_0000_0000_0000_0000_0000_0000_0000_0000_0000_0000_0000_0000
    ensures Weight(14) == 0x8000_0000_0000_0000_0000_0000_0000_0000_0000_0000_0000_0000_0000_0000_0000_0000_0000_0000_0000_0000_0000_0000_0000_0000_0000
    ensures Weight(15) == 0x1000_0000_0000_0000_0000_0000_0000_0000_0000_0000_0000_0000_0000_0000_0000_0000_0000_0000_0000_0000_0000_0000_0000_0000_0000_0000_0000
    ensures Weight(16) == 0x100_0000_0000_0000_0000_0000_0000_0000_0000_0000_0000_0000_0000_0000_0000_0000_0000_0000_0000_0000_0000_0000_0000_0000_0000_0000_0000_0000_0000
    ensures Weight(17) == 0x20_0000_0000_0000_0000_0000_0000_0000_0000_0000_0000_0000_0000_0000_0000_0000_0000_0000_0000_0000_0000_0000_0000_0000_0000_0000_0000_0000_0000_0000_0000
    ensures Weight(9) == TWO_257
  {
    assert Weight(1) == Weight(0) * 0x2000_0000;
    assert Weight(2) == Weight(1) * 0x1000_0000;
    assert Weight(3) == Weight(2) * 0x2000_0000;
    assert Weight(4) == Weight(3) * 0x1000_0000;
    assert Weight(5) == Weight(4) * 0x2000_0000;
    assert Weight(6) == Weight(5) * 0x1000_0000;
    assert Weight(7) == Weight(6) * 0x2000_0000;
    assert Weight(8) == Weight(7) * 0x1000_0000;
    assert Weight(9) == Weight(8) * 0x2000_0000;
    assert Weight(10) == Weight(9) * 0x1000_0000;
    assert Weight(11) == Weight(10) * 0x2000_0000;
    assert Weight(12) == Weight(11) * 0x1000_0000;
    assert Weight(13) == Weight(12) * 0x2000_0000;
    assert Weight(14) == Weight(13) * 0x1000_0000;
    assert Weight(15) == Weight(14) * 0x2000_0000;
    assert Weight(16) == Weight(15) * 0x1000_0000;
    assert Weight(17) == Weight(16) * 0x2000_0000;
  }

  lemma ValueStep(s: seq<int>, k: nat, w: int)
    requires k < |s| && w == Weight(k)
    ensures Value(s[..k + 1]) == Value(s[..k]) + s[k] * w
  {
    assert s[..k + 1][..k] == s[..k];
  }

  lemma {:induction false} ValueAdd(x: seq<int>, y: seq<int>, z: seq<int>)
    requires |x| == |y| == |z| && forall k :: 0 <= k < |z| ==> z[k] == x[k] + y[k]
    ensures Value(z) == Value(x) + Value(y)
  {
    if z != [] {
      var i := |z| - 1;
      ValueAdd(x[..i], y[..i], z[..i]);
      assert z[i] * Weight(i) == x[i] * Weight(i) + y[i] * Weight(i);
    }
  }

  lemma {:induction false} ValueScale(x: int, b: seq<int>, r: seq<int>)
    requires |r| == |b| && forall j :: 0 <= j < |b| ==> r[j] == x * b[j]
    ensures Value(r) == x * Value(b)
  {
    if b != [] {
      var i := |b| - 1;
      ValueScale(x, b[..i], r[..i]);
      assert x * (Value(b[..i]) + b[i] * Weight(i)) == x * Value(b[..i]) + (x * b[i]) * Weight(i);
    }
  }

  lemma {:induction false} WeightPositive(k: nat)
    ensures Weight(k) > 0
  {
    if k > 0 {
      WeightPositive(k - 1);
    }
  }

  lemma {:induction false} BoundedNonNegative(s: seq<int>)
    requires forall k :: 0 <= k < |s| ==> 0 <= s[k]
    ensures 0 <= Value(s)
  {
    if s != [] {
      var i := |s| - 1;
      BoundedNonNegative(s[..i]);
      WeightPositive(i);
    }
  }

  lemma {:induction false} TightBound(s: seq<int>)
    requires Tight(s)
    ensures 0 <= Value(s) < Weight(|s|)
  {
    if s != [] {
      var i := |s| - 1;
      TightBound(s[..i]);
      DigitBound(Value(s[..i]), s[i], Weight(i), Width(i));
    }
  }

  /** The value of nine limbs written out, as the header comment gives it. */
  lemma Value9(s: seq<int>)
    requires |s| == 9
    ensures Value(s) ==
              s[0]
            + s[1] * 0x2000_0000
            + s[2] * 0x200_0000_0000_0000
            + s[3] * 0x40_0000_0000_0000_0000_0000
            + s[4] * 0x4_0000_0000_0000_0000_0000_0000_0000
            + s[5] * 0x8000_0000_0000_0000_0000_0000_0000_0000_0000
            + s[6] * 0x800_0000_0000_0000_0000_0000_0000_0000_0000_0000_0000
            + s[7] * 0x100_0000_0000_0000_0000_0000_0000_0000_0000_0000_0000_0000_0000
            + s[8] * 0x10_0000_0000_0000_0000_0000_0000_0000_0000_0000_0000_0000_0000_0000_0000
  {
    Weights();
    assert s[..9] == s && s[..0] == [];
    ValueStep(s, 0, 1);
    ValueStep(s, 1, 0x2000_0000);
    ValueStep(s, 2, 0x200_0000_0000_0000);
    ValueStep(s, 3, 0x40_0000_0000_0000_0000_0000);
    ValueStep(s, 4, 0x4_0000_0000_0000_0000_0000_0000_0000);
    ValueStep(s, 5, 0x8000_0000_0000_0000_0000_0000_0000_0000_0000);
    ValueStep(s, 6, 0x800_0000_0000_0000_0000_0000_0000_0000_0000_0000_0000);
    ValueStep(s, 7, 0x100_0000_0000_0000_0000_0000_0000_0000_0000_0000_0000_0000_0000);
    ValueStep(s, 8, 0x10_0000_0000_0000_0000_0000_0000_0000_0000_0000_0000_0000_0000_0000_0000);
  }

  // ---- carries -------------------------------------------------------------

  /** NON_ZERO_TO_ALL_ONES: all ones for 0 < x <= 2^31, zero for the others. */
  method NonZeroToAllOnes(x: u32) returns (mask: u32)
    ensures mask == if 0 < x <= 0x8000_0000 then 0xffff_ffff else 0
  {
    var below := Sub32(x, 1);
    var top := below / 0x8000_0000;
    assert top == if below < 0x8000_0000 then 0 else 1;
    mask := Sub32(top, 1);
  }

  /** What felem_reduce_carry adds to each limb for a term `carry` at bit 257. */
  function Absorb(s: seq<int>, carry: int): seq<int>
    requires |s| == 9
  {
    if carry == 0 then s
    else [s[0] + carry * 2, s[1], s[2],
          s[3] + 0x1000_0000 - carry * 0x800,
          s[4] + 0x1fff_ffff,
          s[5] + 0xfff_ffff,
          s[6] + 0x1fff_ffff - carry * 0x40_0000,
          s[7] - 1 + carry * 0x200_0000,
          s[8]]
  }

  /** The limbs added amount to carry * (2^257 - 2p). The exit bounds hold for every
      carry up to 8, and beyond that exactly when limb 7 leaves room. */
  lemma AbsorbValue(s: seq<int>, carry: int)
    requires |s| == 9 && Tight(s) && 0 <= carry <= 16
    ensures Value(Absorb(s, carry)) == Value(s) + carry * (TWO_257 - 2 * P)
    ensures Bounded(Absorb(s, carry)) <==> carry == 0 || s[7] + carry * 0x200_0000 <= 0x2000_0000
    ensures carry <= 8 ==> Bounded(Absorb(s, carry))
    ensures Absorb(s, carry)[8] < 0x2000_0000
  {
    Value9(s);
    Value9(Absorb(s, carry));
    assert forall k :: 0 <= k < 9 ==> 0 <= s[k] < Width(k);
    AbsorbBounds(s, carry);
  }

  lemma AbsorbBounds(s: seq<int>, carry: int)
    requires |s| == 9 && Tight(s) && 0 <= carry <= 16
    ensures Bounded(Absorb(s, carry)) <==> carry == 0 || s[7] + carry * 0x200_0000 <= 0x2000_0000
  {
    var t := Absorb(s, carry);
    assert s[0] < Width(0) && s[1] < Width(1) && s[2] < Width(2) && s[3] < Width(3) && s[4] < Width(4);
    assert s[5] < Width(5) && s[6] < Width(6) && s[7] < Width(7) && s[8] < Width(8);
    if carry != 0 && t[7] < 0x2000_0000 {
      assert Bounded(t);
    }
    if carry != 0 && t[7] >= 0x2000_0000 {
      assert !Bounded(t);
    }
  }

  /** felem_reduce_carry. The comment on it asks for carry < 2^3; the code is exact up
      to 2^4, which felem_scalar_8 relies on. */
  method ReduceCarry(a: array<u32>, carry: u32)
    requires a.Length == 9 && carry <= 16 && Tight(a[..])
    modifies a
    ensures a[..] == Absorb(old(a[..]), carry)
  {
    assert a[0] < Width(0) && a[3] < Width(3) && a[4] < Width(4) && a[5] < Width(5) && a[6] < Width(6) && a[7] < Width(7);
    ghost var s := a[..];
    var mask := NonZeroToAllOnes(carry);
    ReduceCarryLow(a, carry, mask);
    ReduceCarryHigh(a, carry, mask);
    assert a[..] == Absorb(s, carry);
  }

  /** Limbs 0, 3 and 4. */
  method ReduceCarryLow(a: array<u32>, carry: u32, mask: u32)
    requires a.Length == 9 && carry <= 16 && mask == (if carry == 0 then 0 else 0xffff_ffff)
    requires a[0] < 0x2000_0000 && a[3] < 0x1000_0000 && a[4] < 0x2000_0000
    modifies a
    ensures a[0] == old(a[0]) + carry * 2
    ensures a[3] == old(a[3]) + (if carry == 0 then 0 else 0x1000_0000 - carry * 0x800)
    ensures a[4] == old(a[4]) + (if carry == 0 then 0 else 0x1fff_ffff)
    ensures forall k :: 0 <= k < 9 && k != 0 && k != 3 && k != 4 ==> a[k] == old(a[k])
  {
    a[0] := Add32(a[0], carry * 2);
    a[3] := Add32(a[3], Masked(0x1000_0000, mask));
    a[3] := Sub32(a[3], carry * 0x800);
    a[4] := Add32(a[4], Masked(0x2000_0000 - 1, mask));
  }

  /** Limbs 5, 6 and 7. */
  method ReduceCarryHigh(a: array<u32>, carry: u32, mask: u32)
    requires a.Length == 9 && carry <= 16 && mask == (if carry == 0 then 0 else 0xffff_ffff)
    requires a[5] < 0x1000_0000 && a[6] < 0x2000_0000 && a[7] < 0x1000_0000
    modifies a
    ensures a[5] == old(a[5]) + (if carry == 0 then 0 else 0xfff_ffff)
    ensures a[6] == old(a[6]) + (if carry == 0 then 0 else 0x1fff_ffff - carry * 0x40_0000)
    ensures a[7] == old(a[7]) + (if carry == 0 then 0 else carry * 0x200_0000 - 1)
    ensures forall k :: 0 <= k < 9 && k != 5 && k != 6 && k != 7 ==> a[k] == old(a[k])
  {
    a[5] := Add32(a[5], Masked(0x1000_0000 - 1, mask));
    a[6] := Add32(a[6], Masked(0x2000_0000 - 1, mask));
    a[6] := Sub32(a[6], carry * 0x40_0000);
    a[7] := Sub32(a[7], Masked(1, mask));
    a[7] := Add32(a[7], carry * 0x200_0000);
  }

  /** The masking and shifting that ends each step of a carry chain:
      `carry = x >> width; x &= mask`. */
  method Split(x: u32, width: u32) returns (low: u32, carry: u32)
    requires width == 0x2000_0000 || width == 0x1000_0000
    ensures x == low + width * carry && low < width
    ensures carry < 16 && (width == 0x2000_0000 ==> carry < 8)
  {
    if width == 0x2000_0000 {
      carry := x / 0x2000_0000;
      low := x % 0x2000_0000;
    } else {
      carry := x / 0x1000_0000;
      low := x % 0x1000_0000;
    }
  }

  /** Splitting x at a bit: x >> b is h when below is 2^b. */
  ghost predicate SplitAt(x: int, below: int, h: int) {
    0 <= h && below * h <= x < below * (h + 1)
  }

  /** `(x << n) & mask` and `x >> m` with 2^n = scale, 2^m = below and
      mask = below * scale - 1: the two parts in which x << n falls on two words. */
  method ShiftParts(x: u32, below: u32, scale: u32) returns (low: u32, high: u32)
    requires below > 0 && scale > 0
    requires below * scale == 0x1000_0000 || below * scale == 0x2000_0000
    ensures SplitAt(x, below, high) && low == scale * (x - below * high)
  {
    ShiftedLow(x, below, scale, x / below, x % below);
    high := x / below;
    low := x * scale % 0x1_0000_0000 % (below * scale);
  }

  lemma ShiftedLow(x: int, below: int, scale: int, q: int, r: int)
    requires below > 0 && scale > 0 && x == below * q + r && 0 <= r < below
    requires below * scale == 0x1000_0000 || below * scale == 0x2000_0000
    ensures x * scale % 0x1_0000_0000 % (below * scale) == scale * (x - below * q)
  {
    assert x % below == r by {
      DivModUnique(q, r, below, x);
    }
    ScaledMod(x, below, scale);
    if below * scale == 0x1000_0000 {
      ModMod(x * scale, 0x1000_0000, 16);
    } else {
      ModMod(x * scale, 0x2000_0000, 8);
    }
    assert r * scale == scale * (x - below * q);
  }

  /** o holds the finished limbs of a carry chain over the raw limbs z, and
      carry is what the chain hands to the next limb. */
  ghost predicate Chain(o: seq<int>, z: seq<int>, carry: int)
    requires |o| <= |z|
  {
    if o == [] then carry == 0
    else
      var i := |o| - 1;
      && 0 <= o[i] < Width(i)
      && Chain(o[..i], z, o[i] + Widened(i, carry) - z[i])
  }

  lemma ChainLimb(o: seq<int>, z: seq<int>, carry: int, low: int, next: int)
    requires |o| < |z| && Chain(o, z, carry)
    requires z[|o|] + carry == low + Widened(|o|, next) && 0 <= low < Width(|o|)
    ensures Chain(o + [low], z, next)
  {
    assert (o + [low])[..|o|] == o;
  }

  /** A carry chain leaves every limb within its width. */
  lemma {:induction false} ChainTight(o: seq<int>, z: seq<int>, carry: int, k: nat)
    requires k < |o| <= |z| && Chain(o, z, carry)
    ensures 0 <= o[k] < Width(k)
  {
    var i := |o| - 1;
    if k < i {
      ChainTight(o[..i], z, o[i] + Widened(i, carry) - z[i], k);
    }
  }

  /** A carry chain keeps the value. */
  lemma {:induction false} ChainValue(o: seq<int>, z: seq<int>, carry: int)
    requires |o| <= |z| && Chain(o, z, carry)
    ensures Value(o) + carry * Weight(|o|) == Value(z[..|o|])
  {
    if o != [] {
      var i := |o| - 1;
      var before := o[i] + Widened(i, carry) - z[i];
      ChainValue(o[..i], z, before);
      ValueStep(z, i, Weight(i));
      ChainStep(i, z[i] + before, o[i], carry);
      assert (z[i] + before) * Weight(i) == z[i] * Weight(i) + before * Weight(i);
    }
  }

  /** A finished carry chain followed by felem_reduce_carry keeps the class
      modulo p and meets the bounds. */
  lemma ChainEnd(o: seq<int>, z: seq<int>, carry: int)
    requires |o| == |z| == 9 && Chain(o, z, carry) && 0 <= carry <= 16
    ensures Tight(o) && Value(o) + carry * TWO_257 == Value(z)
    ensures Bounded(Absorb(o, carry)) <==> carry == 0 || o[7] + carry * 0x200_0000 <= 0x2000_0000
    ensures carry <= 8 ==> Bounded(Absorb(o, carry))
    ensures Absorb(o, carry)[8] < 0x2000_0000
    ensures Value(Absorb(o, carry)) == Value(z) - 2 * P * carry
    ensures Cong(Value(Absorb(o, carry)), Value(z), P)
  {
    Weights();
    assert z[..9] == z;
    ChainValue(o, z, carry);
    forall k | 0 <= k < 9
      ensures 0 <= o[k] < Width(k)
    {
      ChainTight(o, z, carry, k);
    }
    AbsorbValue(o, carry);
    CongIntro(Value(Absorb(o, carry)), Value(z), P, -2 * carry);
  }
}
