/** Sums, differences, small multiples and the zero test of field elements. */
module FelemArith {
  import opened Words
  import opened Modular
  import opened Felem

  // ---- sum and difference ----------------------------------------------------

  /** The carry into limb k of the sum. */
  ghost function SumCarry(a: seq<int>, b: seq<int>, k: nat): int
    requires k <= |a| == |b|
  {
    if k == 0 then 0 else (a[k - 1] + b[k - 1] + SumCarry(a, b, k - 1)) / Width(k - 1)
  }

  /** The first n limb sums fit a word together with the carry into them. */
  ghost predicate SumFits(a: seq<int>, b: seq<int>, n: nat)
    requires n <= |a| == |b|
  {
    n == 0 || (SumFits(a, b, n - 1) && a[n - 1] + b[n - 1] + SumCarry(a, b, n - 1) < 0x1_0000_0000)
  }

  /** One limb: l counts the 2^32 that the additions drop. */
  method SumLimb(i: nat, x: u32, y: u32, carry: u32) returns (w: u32, next: u32, ghost l: int)
    requires carry < 16
    ensures w < Width(i) && next < 16 && (i % 2 == 0 ==> next < 8)
    ensures x as int + y as int + carry == w + Widened(i, next) + 0x1_0000_0000 * l
    ensures 0 <= l <= 2
  {
    var v := Add32(Add32(x, y), carry);
    l := (x as int + y as int + carry - v) / 0x1_0000_0000;
    w, next := Split(v, Width(i));
  }

  /** o holds the finished limbs of a sum of x and y, carry goes to the next limb, and lost[k]
      counts the 2^32 dropped at limb k. */
  ghost predicate SumChain(o: seq<int>, x: seq<int>, y: seq<int>, lost: seq<int>, carry: int)
    requires |o| == |lost| <= |x| == |y|
  {
    if o == [] then carry == 0
    else
      var i := |o| - 1;
      && 0 <= o[i] < Width(i) && 0 <= lost[i] <= 2 && 0 <= carry < (if i % 2 == 0 then 8 else 16)
      && SumChain(o[..i], x, y, lost[..i], o[i] + Widened(i, carry) + 0x1_0000_0000 * lost[i] - x[i] - y[i])
  }

  lemma SumChainLimb(o: seq<int>, x: seq<int>, y: seq<int>, lost: seq<int>, carry: int, low: int, next: int, l: int)
    requires |o| == |lost| < |x| == |y| && SumChain(o, x, y, lost, carry)
    requires x[|o|] + y[|o|] + carry == low + Widened(|o|, next) + 0x1_0000_0000 * l
    requires 0 <= low < Width(|o|) && 0 <= l <= 2 && 0 <= next < (if |o| % 2 == 0 then 8 else 16)
    ensures SumChain(o + [low], x, y, lost + [l], next)
  {
    assert (o + [low])[..|o|] == o && (lost + [l])[..|o|] == lost;
  }

  lemma {:induction false} SumChainTight(o: seq<int>, x: seq<int>, y: seq<int>, lost: seq<int>, carry: int, k: nat)
    requires k < |o| == |lost| <= |x| == |y| && SumChain(o, x, y, lost, carry)
    ensures 0 <= o[k] < Width(k)
  {
    var i := |o| - 1;
    if k < i {
      SumChainTight(o[..i], x, y, lost[..i], o[i] + Widened(i, carry) + 0x1_0000_0000 * lost[i] - x[i] - y[i], k);
    }
  }

  lemma SumAlgebra(x: int, y: int, carry: int, w: int, next: int, l: int, u: int, wd: int)
    requires x + y + carry == w + next * wd + 0x1_0000_0000 * l
    ensures w * u + next * (u * wd) == x * u + y * u + carry * u - 0x1_0000_0000 * (l * u)
  {
    assert (x + y + carry) * u == (w + next * wd + 0x1_0000_0000 * l) * u;
    assert (next * wd) * u == next * (u * wd);
  }

  /** The limbs hold the sum without what was dropped. */
  lemma {:induction false} SumChainValue(o: seq<int>, x: seq<int>, y: seq<int>, lost: seq<int>, carry: int)
    requires |o| == |lost| <= |x| == |y| && SumChain(o, x, y, lost, carry)
    ensures Value(o) + carry * Weight(|o|) == Value(x[..|o|]) + Value(y[..|o|]) - 0x1_0000_0000 * Value(lost)
  {
    if o != [] {
      var i := |o| - 1;
      var before := o[i] + Widened(i, carry) + 0x1_0000_0000 * lost[i] - x[i] - y[i];
      SumChainValue(o[..i], x, y, lost[..i], before);
      ValueStep(x, i, Weight(i));
      ValueStep(y, i, Weight(i));
      assert Widened(i, carry) == carry * Width(i);
      SumAlgebra(x[i], y[i], before, o[i], carry, lost[i], Weight(i), Width(i));
    }
  }

  /** Nothing is dropped exactly as long as the limb sums fit. */
  lemma {:induction false} SumChainFits(o: seq<int>, x: seq<int>, y: seq<int>, lost: seq<int>, carry: int)
    requires |o| == |lost| <= |x| == |y| && SumChain(o, x, y, lost, carry)
    ensures 0 <= Value(lost) && (o != [] ==> Value(lost) < 3 * Weight(|o| - 1)) && Value(lost) < Weight(|o|)
    ensures Value(lost) == 0 <==> SumFits(x, y, |o|)
    ensures Value(lost) == 0 ==> carry == SumCarry(x, y, |o|)
  {
    if o != [] {
      var i := |o| - 1;
      var before := o[i] + Widened(i, carry) + 0x1_0000_0000 * lost[i] - x[i] - y[i];
      SumChainFits(o[..i], x, y, lost[..i], before);
      WeightPositive(i);
      LossBelow(i, Value(lost[..i]), lost[i]);
      LossGrows(Value(lost[..i]), lost[i], Weight(i));
      NextCarry(x[i] + y[i] + before, i, o[i], carry, lost[i]);
    }
  }

  lemma LossGrows(loss: int, l: int, u: int)
    requires 0 <= loss && 0 <= l <= 2 && u > 0
    ensures 0 <= loss <= loss + l * u <= loss + 2 * u
    ensures loss + l * u == 0 <==> loss == 0 && l == 0
  {
  }

  lemma LossBelow(i: nat, loss: int, l: int)
    requires 0 <= loss < Weight(i) && 0 <= l <= 2
    ensures loss + l * Weight(i) < 3 * Weight(i) <= Weight(i + 1)
  {
    LossGrows(loss, l, Weight(i));
    assert Weight(i + 1) == Weight(i) * Width(i);
  }

  lemma NextCarry(sum: int, i: nat, w: int, next: int, l: int)
    requires sum == w + Widened(i, next) + 0x1_0000_0000 * l && 0 <= l <= 2
    requires 0 <= w < Width(i) && 0 <= next < 16 && (i % 2 == 0 ==> next < 8)
    ensures l == 0 <==> sum < 0x1_0000_0000
    ensures l == 0 ==> sum / Width(i) == next
  {
    if l == 0 {
      assert Widened(i, next) == next * Width(i);
      DivModUnique(next, w, Width(i), sum);
    }
  }

  /** The carry chain of felem_sum. */
  method SumLimbs(out: array<u32>, a: array<u32>, b: array<u32>, ghost x: seq<u32>, ghost y: seq<u32>)
    returns (carry: u32, ghost o: seq<int>, ghost lost: seq<int>)
    requires out.Length == 9 && a.Length == 9 && b.Length == 9 && x == a[..] && y == b[..]
    modifies out
    ensures carry < 8 && |o| == |lost| == 9 && SumChain(o, x, y, lost, carry)
    ensures forall k :: 0 <= k < 9 ==> out[k] == o[k]
  {
    o, lost, carry := [], [], 0;
    for i := 0 to 9
      invariant carry < 16 && (i == 9 ==> carry < 8)
      invariant forall k :: i <= k < 9 ==> a[k] == x[k] && b[k] == y[k]
      invariant |o| == |lost| == i && SumChain(o, x, y, lost, carry)
      invariant forall k :: 0 <= k < i ==> out[k] == o[k]
    {
      var w, next, l := SumLimb(i, a[i], b[i], carry);
      out[i] := w;
      SumChainLimb(o, x, y, lost, carry, w, next, l);
      carry := next;
      o := o + [w];
      lost := lost + [l];
    }
  }

  // 1/2^32 modulo p.
  const INV_32: int := 0xffffffff000000010000000000000000000000010000000000000000

  /** A loss below p is never harmless. */
  lemma LossCounts(out: int, sum: int, loss: int, k: int)
    requires 0 <= loss < P && out == sum - 0x1_0000_0000 * loss - 2 * P * k
    ensures Cong(out, sum, P) <==> loss == 0
  {
    if loss == 0 {
      CongIntro(out, sum, P, -2 * k);
    } else if Cong(out, sum, P) {
      var j :| CongBy(out, sum, P, j);
      CongIntro(loss * 0x1_0000_0000, 0 * 0x1_0000_0000, P, -2 * k - j);
      CongIntro(0x1_0000_0000 * INV_32, 1, P, (0x1_0000_0000 * INV_32 - 1) / P);
      CongCancel(loss, 0, 0x1_0000_0000, INV_32, P);
      CongUnique(loss, 0, P);
    }
  }

  lemma SumEnd(x: seq<int>, y: seq<int>, o: seq<int>, lost: seq<int>, carry: int, n: nat)
    requires |x| == |y| == |o| == |lost| == n == 9 && 0 <= carry < 8 && SumChain(o, x, y, lost, carry)
    ensures Tight(o) && Bounded(Absorb(o, carry)) && Absorb(o, carry)[8] < 0x2000_0000
    ensures Cong(Value(Absorb(o, carry)), Value(x) + Value(y), P) <==> SumFits(x, y, n)
  {
    forall k | 0 <= k < 9
      ensures 0 <= o[k] < Width(k)
    {
      SumChainTight(o, x, y, lost, carry, k);
    }
    WeightsEnd(n);
    AbsorbValue(o, carry);
    assert x[..n] == x && y[..n] == y;
    SumChainValue(o, x, y, lost, carry);
    SumChainFits(o, x, y, lost, carry);
    LossCounts(Value(Absorb(o, carry)), Value(x) + Value(y), Value(lost), carry);
  }

  lemma WeightsEnd(n: nat)
    requires n == 9
    ensures Weight(n) == TWO_257 && 3 * Weight(n - 1) < P
  {
    Weights();
  }

  /** felem_sum, on any limbs. `out` may be the same array as an input. The comment on it asks
      that in[i] + in2[i] fit a word; it is exact if and only if the carry fits as well. */
  method Sum(out: array<u32>, a: array<u32>, b: array<u32>)
    requires out.Length == 9 && a.Length == 9 && b.Length == 9
    modifies out
    ensures Bounded(out[..]) && out[8] < 0x2000_0000
    ensures Cong(Value(out[..]), old(Value(a[..]) + Value(b[..])), P) <==> old(SumFits(a[..], b[..], 9))
  {
    ghost var x, y := a[..], b[..];
    var carry, o, lost := SumLimbs(out, a, b, x, y);
    assert out[..] == o;
    SumEnd(x, y, o, lost, carry, 9);
    ReduceCarry(out, carry);
  }

  /** Bounded elements always fit. */
  lemma {:induction false} BoundedFits(a: seq<int>, b: seq<int>, n: nat)
    requires Bounded(a) && Bounded(b) && n <= 9
    ensures SumFits(a, b, n) && 0 <= SumCarry(a, b, n) < 16
  {
    if n > 0 {
      BoundedFits(a, b, n - 1);
    }
  }

  /** A failing input: limb sums that fit a word, a carry that does not. */
  lemma SumLoses(a: seq<int>, b: seq<int>)
    requires a == [0x2000_0000, 0xffff_ffff, 0, 0, 0, 0, 0, 0, 0] && b == [0, 0, 0, 0, 0, 0, 0, 0, 0]
    ensures !SumFits(a, b, 9)
  {
    var n := 2;
    assert SumCarry(a, b, n - 1) == (a[0] + b[0] + SumCarry(a, b, n - 2)) / 0x2000_0000;
    assert !SumFits(a, b, n);
    if SumFits(a, b, 9) {
      FitsBelow(a, b, n, 9);
    }
  }

  lemma {:induction false} FitsBelow(a: seq<int>, b: seq<int>, k: nat, n: nat)
    requires k <= n <= |a| == |b| && SumFits(a, b, n)
    ensures SumFits(a, b, k)
  {
    if k < n {
      FitsBelow(a, b, k, n - 1);
    }
  }

  /** zero31, a multiple of p whose limbs exceed those of any bounded element. */
  const ZERO31: seq<u32> :=
    [0x7fff_fff8, 0x3fff_fffc, 0x7fff_fffc, 0x4000_1ffc, 0x7fff_fffc, 0x3fff_fffc, 0x80ff_fffc, 0x37ff_fffc, 0x7fff_fffc]

  lemma Zero31Value()
    ensures Value(ZERO31) == 8 * P
  {
    Value9(ZERO31);
  }

  lemma DiffSums(a: seq<int>, b: seq<int>, z: seq<int>, e: seq<int>)
    requires |a| == |b| == |z| == |e| && forall k :: 0 <= k < |a| ==> z[k] == a[k] - b[k] + e[k]
    ensures Value(z) + Value(b) == Value(a) + Value(e)
  {
    var s := seq(|a|, k requires 0 <= k < |a| => a[k] + e[k]);
    ValueAdd(a, e, s);
    ValueAdd(z, b, s);
  }

  lemma DiffValue(a: seq<int>, b: seq<int>, z: seq<int>)
    requires |a| == |b| == |z| == 9 && forall k :: 0 <= k < 9 ==> z[k] == a[k] - b[k] + ZERO31[k]
    ensures Cong(Value(z), Value(a) - Value(b), P)
  {
    Zero31Value();
    DiffSums(a, b, z, ZERO31);
    CongIntro(Value(z), Value(a) - Value(b), P, 8);
  }

  /** Limb k of a difference never leaves 32 bits once zero31 is added. */
  lemma DiffLimb(a: u32, b: u32, k: nat, carry: u32)
    requires k < 9 && carry < 16
    requires a < (if k % 2 == 0 then 0x4000_0000 else 0x2000_0000) && b < (if k % 2 == 0 then 0x4000_0000 else 0x2000_0000)
    ensures Add32(Add32(Sub32(a, b), ZERO31[k]), carry) == a - b + ZERO31[k] + carry
  {
    assert ZERO31[0] == 0x7fff_fff8 && ZERO31[1] == 0x3fff_fffc && ZERO31[2] == 0x7fff_fffc && ZERO31[3] == 0x4000_1ffc;
    assert ZERO31[4] == 0x7fff_fffc && ZERO31[5] == 0x3fff_fffc && ZERO31[6] == 0x80ff_fffc && ZERO31[7] == 0x37ff_fffc;
    assert ZERO31[8] == 0x7fff_fffc;
  }

  method OneDiff(i: nat, x: u32, y: u32, carry: u32) returns (w: u32, next: u32)
    requires i < 9 && carry < 16
    requires x < (if i % 2 == 0 then 0x4000_0000 else 0x2000_0000) && y < (if i % 2 == 0 then 0x4000_0000 else 0x2000_0000)
    ensures x as int - y as int + ZERO31[i] as int + carry == w + Widened(i, next)
    ensures w < Width(i) && next < 16 && (i % 2 == 0 ==> next < 8)
  {
    DiffLimb(x, y, i, carry);
    w, next := Split(Add32(Add32(Sub32(x, y), ZERO31[i]), carry), Width(i));
  }

  /** The carry chain of felem_diff. */
  method DiffLimbs(out: array<u32>, a: array<u32>, b: array<u32>, ghost x: seq<u32>, ghost y: seq<u32>, ghost z: seq<int>)
    returns (carry: u32, ghost o: seq<int>)
    requires out.Length == 9 && a.Length == 9 && b.Length == 9 && x == a[..] && y == b[..] && Bounded(x) && Bounded(y)
    requires |z| == 9 && forall k :: 0 <= k < 9 ==> z[k] == x[k] as int - y[k] as int + ZERO31[k] as int
    modifies out
    ensures carry < 8 && |o| == 9 && Chain(o, z, carry)
    ensures forall k :: 0 <= k < 9 ==> out[k] == o[k]
  {
    o, carry := [], 0;
    for i := 0 to 9
      invariant carry < 16 && (i == 9 ==> carry < 8)
      invariant forall k :: i <= k < 9 ==> a[k] == x[k] && b[k] == y[k]
      invariant |o| == i && Chain(o, z, carry)
      invariant forall k :: 0 <= k < i ==> out[k] == o[k]
    {
      ghost var c := carry;
      var v;
      v, carry := OneDiff(i, a[i], b[i], carry);
      out[i] := v;
      ChainLimb(o, z, c, v, carry);
      o := o + [v];
    }
  }

  /** felem_diff. `out` may be the same array as an input. */
  method Diff(out: array<u32>, a: array<u32>, b: array<u32>)
    requires out.Length == 9 && a.Length == 9 && b.Length == 9
    requires Bounded(a[..]) && Bounded(b[..])
    modifies out
    ensures Bounded(out[..]) && out[8] < 0x2000_0000
    ensures Cong(Value(out[..]), old(Value(a[..]) - Value(b[..])), P)
  {
    ghost var x, y := a[..], b[..];
    ghost var z: seq<int> := seq(9, k requires 0 <= k < 9 => x[k] as int - y[k] as int + ZERO31[k] as int);
    DiffValue(x, y, z);
    var carry, o := DiffLimbs(out, a, b, x, y, z);
    assert out[..] == o;
    ChainEnd(o, z, carry);
    ReduceCarry(out, carry);
    CongTrans(Value(out[..]), Value(z), Value(x) - Value(y), P);
  }

  // ---- small multiples ---------------------------------------------------------

  /** felem_scalar_3, in place. */
  method Scalar3(a: array<u32>)
    requires a.Length == 9 && Bounded(a[..])
    modifies a
    ensures Bounded(a[..]) && a[8] < 0x2000_0000
    ensures Cong(Value(a[..]), 3 * old(Value(a[..])), P)
  {
    ghost var x := a[..];
    ghost var z: seq<int> := seq(9, k requires 0 <= k < 9 => 3 * x[k] as int);
    ValueScale(3, x, z);
    ghost var o: seq<int> := [];
    var carry: u32 := 0;
    for i := 0 to 9
      invariant carry < 16 && (i == 9 ==> carry < 8)
      invariant forall k :: i <= k < 9 ==> a[k] == x[k]
      invariant |o| == i && a[..i] == o && Chain(o, z, carry)
    {
      ghost var c := carry;
      var v: u32 := 3 * a[i];
      v, carry := Split(Add32(v, carry), Width(i));
      a[i] := v;
      ChainLimb(o, z, c, v, carry);
      o := o + [v];
    }
    assert a[..] == o;
    ChainEnd(o, z, carry);
    ReduceCarry(a, carry);
  }

  /** One limb of felem_scalar_4 (m = 4) and felem_scalar_8 (m = 8): the bits that
      `x << n` pushes out are kept in next_carry before the mask drops them. */
  method ScaledLimb(i: nat, x: u32, carry: u32, m: u32) returns (w: u32, next: u32)
    requires (m == 4 || m == 8) && carry <= 16
    requires x < (if i % 2 == 0 then 0x4000_0000 else 0x2000_0000)
    ensures m * x + carry == w + Widened(i, next) && w < Width(i)
    ensures next <= 16 && (m == 4 && carry <= 8 ==> next <= 8)
    ensures i % 2 == 0 && x < 0x2000_0000 ==> next <= 8
  {
    var below := if i % 2 == 0 then (if m == 4 then 0x800_0000 else 0x400_0000)
                 else (if m == 4 then 0x400_0000 else 0x200_0000);
    var low, high := ShiftParts(x, below, m);
    var c;
    w, c := Split(low + carry, Width(i));
    next := high + c;
  }

  /** The carry chain of felem_scalar_4 and felem_scalar_8. */
  method ScaledLimbs(a: array<u32>, m: u32, ghost x: seq<u32>, ghost z: seq<int>) returns (carry: u32, ghost o: seq<int>)
    requires (m == 4 || m == 8) && a.Length == 9 && x == a[..] && Bounded(x)
    requires |z| == 9 && forall k :: 0 <= k < 9 ==> z[k] == m * x[k]
    modifies a
    ensures carry <= 16 && (m == 4 || x[8] < 0x2000_0000 ==> carry <= 8)
    ensures |o| == 9 && Chain(o, z, carry) && forall k :: 0 <= k < 9 ==> a[k] == o[k]
  {
    o, carry := [], 0;
    for i := 0 to 9
      invariant carry <= 16 && (m == 4 ==> carry <= 8) && (i == 9 && x[8] < 0x2000_0000 ==> carry <= 8)
      invariant forall k :: i <= k < 9 ==> a[k] == x[k]
      invariant |o| == i && Chain(o, z, carry)
      invariant forall k :: 0 <= k < i ==> a[k] == o[k]
    {
      ghost var c := carry;
      var v;
      v, carry := ScaledLimb(i, a[i], carry, m);
      a[i] := v;
      ChainLimb(o, z, c, v, carry);
      o := o + [v];
    }
  }

  /** felem_scalar_4, in place. */
  method Scalar4(a: array<u32>)
    requires a.Length == 9 && Bounded(a[..])
    modifies a
    ensures Bounded(a[..]) && a[8] < 0x2000_0000
    ensures Cong(Value(a[..]), 4 * old(Value(a[..])), P)
  {
    ghost var x := a[..];
    ghost var z: seq<int> := seq(9, k requires 0 <= k < 9 => 4 * x[k] as int);
    ValueScale(4, x, z);
    var carry, o := ScaledLimbs(a, 4, x, z);
    assert a[..] == o;
    ChainEnd(o, z, carry);
    ReduceCarry(a, carry);
  }

  /** What felem_scalar_8 carries out of limb 8 and leaves in limb 7 must fit
      together: its result meets the bounds exactly for these input values. */
  predicate Scalar8Fits(v: int) {
    var carry := 8 * v / TWO_257;
    var limb7 := 8 * v / 0x100_0000_0000_0000_0000_0000_0000_0000_0000_0000_0000_0000_0000 % 0x1000_0000;
    carry == 0 || limb7 + carry * 0x200_0000 <= 0x2000_0000
  }

  /** The carry and limb 7 of a tight number, read from its value. */
  lemma TightDigits(o: seq<int>, carry: int, n: int)
    requires |o| == 9 && Tight(o) && n == Value(o) + carry * TWO_257
    ensures n / TWO_257 == carry
    ensures n / 0x100_0000_0000_0000_0000_0000_0000_0000_0000_0000_0000_0000_0000 % 0x1000_0000 == o[7]
  {
    Weights();
    TightBound(o);
    DivModUnique(carry, Value(o), TWO_257, n);
    TightBound(o[..7]);
    ValueStep(o, 7, Weight(7));
    ValueStep(o, 8, Weight(8));
    assert o[..9] == o;
    var w7 := 0x100_0000_0000_0000_0000_0000_0000_0000_0000_0000_0000_0000_0000;
    var q := o[7] + 0x1000_0000 * (o[8] + carry * 0x2000_0000);
    assert n == q * w7 + Value(o[..7]);
    DivModUnique(q, Value(o[..7]), w7, n);
    assert 0 <= o[7] < Width(7);
    DivModUnique(o[8] + carry * 0x2000_0000, o[7], 0x1000_0000, q);
  }

  /** felem_scalar_8, in place. Its comment promises the exit bounds for every bounded
      input; they hold when limb 8 is below 2^29, as every field operation leaves it. */
  method Scalar8(a: array<u32>)
    requires a.Length == 9 && Bounded(a[..])
    modifies a
    ensures Cong(Value(a[..]), 8 * old(Value(a[..])), P)
    ensures Bounded(a[..]) <==> Scalar8Fits(old(Value(a[..])))
    ensures old(a[8]) < 0x2000_0000 ==> Bounded(a[..])
    ensures a[8] < 0x2000_0000
  {
    ghost var x := a[..];
    ghost var z: seq<int> := seq(9, k requires 0 <= k < 9 => 8 * x[k] as int);
    ValueScale(8, x, z);
    var carry, o := ScaledLimbs(a, 8, x, z);
    assert a[..] == o;
    ChainEnd(o, z, carry);
    TightDigits(o, carry, Value(z));
    ReduceCarry(a, carry);
  }

  /** A bounded element whose eightfold leaves the bounds: limb 7 of the result is
      2^29 + 2^28 - 9. */
  lemma Scalar8Overflows()
    ensures Bounded([0, 0, 0, 0, 0, 0, 0, 0x1fff_ffff, 0x3fff_ffff])
    ensures !Scalar8Fits(Value([0, 0, 0, 0, 0, 0, 0, 0x1fff_ffff, 0x3fff_ffff]))
  {
    var s := [0, 0, 0, 0, 0, 0, 0, 0x1fff_ffff, 0x3fff_ffff];
    Value9(s);
    var o := [0, 0, 0, 0, 0, 0, 0, 0xfff_fff8, 7];
    Value9(o);
    TightDigits(o, 16, 8 * Value(s));
  }

  // ---- zero test ---------------------------------------------------------------

  const KZERO: seq<u32> := [0, 0, 0, 0, 0, 0, 0, 0, 0]
  const KP: seq<u32> := [0x1fff_ffff, 0xfff_ffff, 0x1fff_ffff, 0x3ff, 0, 0, 0x20_0000, 0xf00_0000, 0xfff_ffff]
  const K2P: seq<u32> := [0x1fff_fffe, 0xfff_ffff, 0x1fff_ffff, 0x7ff, 0, 0, 0x40_0000, 0xe00_0000, 0x1fff_ffff]

  lemma ZeroConstant(s: seq<int>, v: int)
    requires (s == KZERO && v == 0) || (s == KP && v == P) || (s == K2P && v == 2 * P)
    ensures Tight(s) && Value(s) == v
  {
    Value9(s);
    if s == KZERO {
      assert Value(s) == v;
    } else if s == KP {
      assert Value(s) == v;
    }
  }

  lemma ZeroConstants()
    ensures Tight(KZERO) && Value(KZERO) == 0
    ensures Tight(KP) && Value(KP) == P
    ensures Tight(K2P) && Value(K2P) == 2 * P
  {
    ZeroConstant(KZERO, 0);
    ZeroConstant(KP, P);
    ZeroConstant(K2P, 2 * P);
  }

  /** A number has one tight representation of a given length. */
  lemma {:induction false} TightUnique(s: seq<int>, t: seq<int>)
    requires |s| == |t| && Tight(s) && Tight(t) && Value(s) == Value(t)
    ensures s == t
  {
    if s != [] {
      var i := |s| - 1;
      TightBound(s[..i]);
      TightBound(t[..i]);
      DivModUnique(s[i], Value(s[..i]), Weight(i), Value(s));
      DivModUnique(t[i], Value(t[..i]), Weight(i), Value(t));
      TightUnique(s[..i], t[..i]);
      assert s == s[..i] + [s[i]] && t == t[..i] + [t[i]];
    }
  }

  /** Below 2^257 the multiples of p are 0, p and 2p. */
  lemma ZeroClasses(o: seq<int>)
    requires |o| == 9 && Tight(o)
    ensures Cong(Value(o), 0, P) <==> o == KZERO || o == KP || o == K2P
  {
    ZeroConstants();
    TightBound(o);
    Weights();
    if Cong(Value(o), 0, P) {
      var k :| CongBy(Value(o), 0, P, k);
      assert k == 0 || k == 1 || k == 2;
      TightUnique(o, if k == 0 then KZERO else if k == 1 then KP else K2P);
    }
    if o == KZERO {
      CongIntro(Value(o), 0, P, 0);
    } else if o == KP {
      CongIntro(Value(o), 0, P, 1);
    } else if o == K2P {
      CongIntro(Value(o), 0, P, 2);
    }
  }

  /** One pass of the reduction loop: carries are moved up and the one that leaves
      limb 8 is folded back. */
  method ReducePass(tmp: array<u32>) returns (carry: u32)
    requires tmp.Length == 9 && Bounded(tmp[..])
    modifies tmp
    ensures carry < 8 && Bounded(tmp[..])
    ensures Value(tmp[..]) == old(Value(tmp[..])) - 2 * P * carry
    ensures carry == 0 ==> Tight(tmp[..])
  {
    ghost var z: seq<int> := tmp[..];
    ghost var o: seq<int> := [];
    carry := 0;
    for i := 0 to 9
      invariant carry < 16 && (i == 9 ==> carry < 8)
      invariant forall k :: i <= k < 9 ==> tmp[k] == z[k]
      invariant |o| == i && tmp[..i] == o && Chain(o, z, carry)
    {
      ghost var c := carry;
      var v;
      v, carry := Split(Add32(tmp[i], carry), Width(i));
      tmp[i] := v;
      ChainLimb(o, z, c, v, carry);
      o := o + [v];
    }
    assert tmp[..] == o;
    ChainEnd(o, z, carry);
    ReduceCarry(tmp, carry);
  }

  /** felem_is_zero_vartime. Each pass with a nonzero carry takes 2p * carry off. */
  method IsZero(a: array<u32>) returns (r: bool)
    requires a.Length == 9 && Bounded(a[..])
    ensures r <==> Cong(Value(a[..]), 0, P)
  {
    var tmp := new u32[9](k requires 0 <= k < 9 reads a => a[k]);
    assert tmp[..] == a[..];
    ghost var v := Value(a[..]);
    CongRefl(v, P);
    BoundedNonNegative(tmp[..]);
    var carry := 1;
    while carry != 0
      invariant Bounded(tmp[..]) && 0 <= Value(tmp[..]) && Cong(Value(tmp[..]), v, P)
      invariant carry == 0 ==> Tight(tmp[..])
      decreases Value(tmp[..]), carry
    {
      ghost var before := Value(tmp[..]);
      carry := ReducePass(tmp);
      BoundedNonNegative(tmp[..]);
      CongIntro(Value(tmp[..]), before, P, -2 * (carry as int));
      CongTrans(Value(tmp[..]), before, v, P);
    }
    ZeroClasses(tmp[..]);
    if Cong(v, 0, P) {
      CongTrans(Value(tmp[..]), v, 0, P);
    }
    if Cong(Value(tmp[..]), 0, P) {
      CongSym(Value(tmp[..]), v, P);
      CongTrans(v, Value(tmp[..]), 0, P);
    }
    r := tmp[..] == KZERO || tmp[..] == KP || tmp[..] == K2P;
  }
}
