/** Last pass of felem_reduce_degree of p256_ec.c, and the whole of it: seventeen 64-bit
    columns to nine limbs, divided by R = 2^257 modulo p. */
module FelemReduce {
  import opened Words
  import opened Modular
  import opened Felem
  import opened FelemSeparate
  import opened FelemEliminate

  const TWO_260: int := 0x10_00000000_00000000_00000000_00000000_00000000_00000000_00000000_00000000

  // ---- the last pass ----------------------------------------------------------

  /** half[k] is g[k] >> 1 for the words that are not negative. */
  ghost predicate Halves(g: seq<int>, half: seq<int>) {
    && |g| == |half| == 18
    && forall k :: 0 <= k < 18 && 0 <= g[k] ==> 2 * half[k] <= g[k] <= 2 * half[k] + 1
  }

  /** The nine raw limbs read off words 9 to 17: the words above bit 257 are 28, 29,
      ... bits wide, so every other one lends its lowest bit to the limb below. */
  ghost function Regrouped(g: seq<int>, half: seq<int>): (z: seq<int>)
    requires |g| == |half| == 18
    ensures |z| == 9
  {
    seq(9, i requires 0 <= i < 9 =>
      if i == 8 then g[17]
      else if i % 2 == 0 then g[i + 9] + 0x1000_0000 * (g[i + 10] - 2 * half[i + 10])
      else half[i + 9])
  }

  lemma RegroupedValue(g: seq<int>, half: seq<int>)
    requires Pending(g, 9) && |half| == 18
    ensures Value(g) == TWO_257 * Value(Regrouped(g, half))
  {
    PendingWords(g, 9);
    assert forall k :: 0 <= k < 9 && WordOk(g, 9, k) ==> g[k] == 0;
    var d := g[9..] + [0];
    var n := 9;
    RelValueOdd(n, d);
    assert d[..9] == g[9..];
    assert RelValue(n, d) == RelValue(n, g[9..]);
    assert g == ZeroWords(n) + g[9..];
    ValuePlaced(n, g[9..]);
    Value9(Regrouped(g, half));
    Weights();
  }

  /** One limb of the last pass. A word at -1 meets a carry. */
  lemma LimbFits(g: seq<int>, half: seq<int>, i: nat, carry: int)
    requires Pending(g, 9) && Halves(g, half) && i < 9 && 0 <= carry < 16
    requires i % 2 == 0 && g[i + 9] == -1 ==> carry >= 1
    ensures 0 <= Regrouped(g, half)[i] + carry && (i < 8 ==> Regrouped(g, half)[i] + carry < 0x1_0000_0000)
    ensures i % 2 == 1 && g[i + 10] == -1 ==> Regrouped(g, half)[i] + carry >= 0x1000_0000
    ensures i % 2 == 0 && i < 8 ==> 0 <= g[i + 10] < 0xffff_ffff && 0 <= g[i + 9] + carry && 0 <= g[i + 10] - 2 * half[i + 10] <= 1
    ensures i % 2 == 1 ==> 0 <= g[i + 9] < 0xffff_ffff
  {
    PendingPrefix(g, 9, |g|, 9);
    PendingPrefix(g, 9, |g|, i + 9);
    if i < 8 {
      PendingPrefix(g, 9, |g|, i + 10);
    }
  }

  /** An even limb takes the lowest bit of the word above it. */
  method EvenLimb(i: nat, lower: u32, upper: u32, carry: u32, ghost g: seq<int>, ghost half: seq<int>) returns (w: u32)
    requires Pending(g, 9) && Halves(g, half) && i < 8 && i % 2 == 0 && carry < 16
    requires lower == Word(i + 9, g[i + 9]) && upper == Word(i + 10, g[i + 10])
    requires g[i + 9] == -1 ==> carry >= 1
    ensures w == Regrouped(g, half)[i] + carry
  {
    LimbFits(g, half, i, carry);
    var low, high := ShiftParts(upper, 2, 0x1000_0000);
    w := Add32(Add32(lower, carry), low);
  }

  method OddLimb(i: nat, lower: u32, carry: u32, ghost g: seq<int>, ghost half: seq<int>) returns (w: u32)
    requires Pending(g, 9) && Halves(g, half) && i < 8 && i % 2 == 1 && carry < 16
    requires lower == Word(i + 9, g[i + 9])
    ensures w == Regrouped(g, half)[i] + carry && (g[i + 10] == -1 ==> w >= 0x1000_0000)
  {
    LimbFits(g, half, i, carry);
    w := lower / 2 + carry;
  }

  /** Limb i of the last pass, from words i + 9 and i + 10. */
  method OneLimb(i: nat, lower: u32, upper: u32, carry: u32, ghost g: seq<int>, ghost half: seq<int>) returns (w: u32, next: u32)
    requires Pending(g, 9) && Halves(g, half) && i < 8 && carry < 16
    requires lower == Word(i + 9, g[i + 9]) && (i % 2 == 0 ==> upper == Word(i + 10, g[i + 10]))
    requires i % 2 == 0 && g[i + 9] == -1 ==> carry >= 1
    ensures Regrouped(g, half)[i] + carry == w + Widened(i, next)
    ensures w < Width(i) && next < 16
    ensures i % 2 == 1 && g[i + 10] == -1 ==> next >= 1
  {
    if i % 2 == 0 {
      w := EvenLimb(i, lower, upper, carry, g, half);
    } else {
      w := OddLimb(i, lower, carry, g, half);
    }
    w, next := Split(w, Width(i));
  }

  /** Limbs 0 to 7. */
  method RegroupLow(out: array<u32>, t: array<u32>, ghost g: seq<int>, ghost half: seq<int>) returns (carry: u32, ghost o: seq<int>)
    requires out.Length == 9 && t.Length == 18 && out != t
    requires Pending(g, 9) && Halves(g, half) && Holds(t[..], g)
    modifies out
    ensures carry < 16 && (g[17] == -1 ==> carry >= 1)
    ensures |o| == 8 && Chain(o, Regrouped(g, half), carry)
    ensures forall k :: 0 <= k < 8 ==> out[k] == o[k]
  {
    ghost var z := Regrouped(g, half);
    ghost var w: seq<u32> := t[..];
    o := [];
    carry := 0;
    FirstWordOk(g, 9);
    for i := 0 to 8
      invariant carry < 16
      invariant (i - 1) % 2 == 1 && g[i + 9] == -1 ==> carry >= 1
      invariant t[..] == w
      invariant |o| == i && Chain(o, z, carry)
      invariant forall k :: 0 <= k < i ==> out[k] == o[k]
    {
      ghost var c := carry;
      var x;
      HoldsPrefix(w, g, |g|, i + 9);
      HoldsPrefix(w, g, |g|, i + 10);
      x, carry := OneLimb(i, t[i + 9], t[i + 10], carry, g, half);
      out[i] := x;
      ChainLimb(o, z, c, x, carry);
      o := o + [x];
    }
  }

  /** A chain says nothing of the limbs above it. */
  lemma {:induction false} ChainBelow(o: seq<int>, z: seq<int>, carry: int, k: nat, v: int)
    requires |o| <= k < |z| && Chain(o, z, carry)
    ensures Chain(o, z[k := v], carry)
  {
    if o != [] {
      var i := |o| - 1;
      ChainBelow(o[..i], z, o[i] + Widened(i, carry) - z[i], k, v);
    }
  }

  lemma TopLimbValue(z: seq<int>, v: int, lost: int)
    requires |z| == 9 && z[8] == v + 0x1_0000_0000 * lost
    ensures Value(z[8 := v]) == Value(z) - lost * TWO_260
  {
    Value9(z);
    Value9(z[8 := v]);
  }

  /** Limb 8 takes the last word, which wraps: `lost` counts the multiples of 2^32. */
  method RegroupTop(out: array<u32>, t: array<u32>, ghost g: seq<int>, ghost z: seq<int>, carry: u32, ghost low: seq<int>)
    returns (ghost o: seq<int>, ghost next: int, ghost lost: int)
    requires out.Length == 9 && t.Length == 18 && out != t
    requires |g| == 18 && 0 <= g[17] + carry < 0xb_0000_0000 && t[17] == g[17] % 0x1_0000_0000
    requires carry < 16 && |z| == 9 && z[8] == g[17] && |low| == 8 && Chain(low, z, carry)
    requires forall k :: 0 <= k < 8 ==> out[k] == low[k]
    modifies out
    ensures 0 <= lost < 11 && 0 <= next < 8 && |o| == 9 && Tight(o)
    ensures Value(o) + next * TWO_257 == Value(z) - lost * TWO_260
    ensures out[..] == Absorb(o, next)
  {
    var w := Add32(t[17], carry);
    var x, up := Split(w, 0x2000_0000);
    out[8] := x;
    lost := (g[17] + carry) / 0x1_0000_0000;
    next := up;
    ghost var v := w - carry;
    ghost var y := z[8 := v];
    TopLimbValue(z, v, lost);
    ChainBelow(low, z, carry, 8, v);
    ChainLimb(low, y, carry, x, up);
    o := low + [x];
    ChainEnd(o, y, up);
    assert out[..] == o;
    ReduceCarry(out, up);
  }

  /** Last pass of felem_reduce_degree: words 9 to 17, regrouped into limbs. The words
      stand for 2^257 * q; the limbs hold q without the multiples of 2^260 in it. */
  method Regroup(out: array<u32>, t: array<u32>, ghost g: seq<int>)
    returns (ghost q: int, ghost o: seq<int>, ghost carry: int, ghost lost: int)
    requires out.Length == 9 && t.Length == 18 && out != t
    requires Pending(g, 9) && Holds(t[..], g)
    modifies out
    ensures Value(g) == TWO_257 * q && 0 <= lost < 11
    ensures |o| == 9 && Tight(o) && 0 <= carry < 8 && Value(o) + carry * TWO_257 == q - lost * TWO_260
    ensures out[..] == Absorb(o, carry)
  {
    ghost var half: seq<int> := seq(18, k requires 0 <= k < 18 => g[k] / 2);
    ghost var z := Regrouped(g, half);
    ghost var w: seq<u32> := t[..];
    HoldsPrefix(w, g, |g|, 17);
    PendingPrefix(g, 9, |g|, 17);
    var c, low := RegroupLow(out, t, g, half);
    assert t[..] == w;
    o, carry, lost := RegroupTop(out, t, g, z, c, low);
    q := Value(z);
    RegroupedValue(g, half);
  }

  // ---- the quotient -------------------------------------------------------------

  // -1/p modulo 2^257.
  const NEG_P_INV: int := 0xffffffff_00000002_00000000_00000000_00000001_00000000_00000000_00000001

  /** The Montgomery quotient of v: v plus the one multiple m * p, m < 2^257, that makes it
      divisible by 2^257, divided by 2^257. */
  ghost function Quotient(v: int): int {
    (v + v * NEG_P_INV % TWO_257 * P) / TWO_257
  }

  lemma MultiplierIs(v: int, m: int, q: int)
    requires 0 <= m < TWO_257 && v + m * P == TWO_257 * q
    ensures v * NEG_P_INV % TWO_257 == m
  {
    var k := (NEG_P_INV * P + 1) / TWO_257;
    assert v * NEG_P_INV == (q * NEG_P_INV - m * k) * TWO_257 + m by {
      assert v == TWO_257 * q - m * P;
      assert (m * P) * NEG_P_INV == m * (NEG_P_INV * P);
      assert NEG_P_INV * P == TWO_257 * k - 1;
      assert m * (TWO_257 * k - 1) == (m * k) * TWO_257 - m;
    }
    DivModUnique(q * NEG_P_INV - m * k, m, TWO_257, v * NEG_P_INV);
  }

  lemma QuotientIs(v: int, m: int, q: int)
    requires 0 <= m < TWO_257 && v + m * P == TWO_257 * q
    ensures Quotient(v) == q
  {
    MultiplierIs(v, m, q);
    DivModUnique(q, 0, TWO_257, v + m * P);
  }

  const TWO_517: int := TWO_257 * TWO_260
  // 1/2^517 modulo p.
  const INV_517: int := 0xb7ffffff_78000000_b7ffffff_d8000000_80000000_78000000_38000000_67ffffff

  /** Losing a multiple of 2^260 is never harmless. */
  lemma LossShows(lost: int)
    requires 0 < lost < 11
    ensures !Cong(lost * TWO_517, 0, P)
  {
    if Cong(lost * TWO_517, 0, P) {
      CongIntro(TWO_517 * INV_517, 1, P, (TWO_517 * INV_517 - 1) / P);
      CongCancel(lost, 0, TWO_517, INV_517, P);
      CongUnique(lost, 0, P);
    }
  }

  /** The reduction is exact as long as nothing is lost. */
  lemma ExactIff(out: int, v: int, m: int, q: int, carry: int, lost: int)
    requires out == q - lost * TWO_260 - 2 * P * carry && v + m * P == TWO_257 * q && 0 <= lost < 11
    ensures Cong(TWO_257 * out, v, P) <==> lost == 0
  {
    var n := m - 2 * TWO_257 * carry;
    assert TWO_257 * out == v - lost * TWO_517 + n * P;
    if lost == 0 {
      CongIntro(TWO_257 * out, v, P, n);
    } else if Cong(TWO_257 * out, v, P) {
      var k :| CongBy(TWO_257 * out, v, P, k);
      assert lost * TWO_517 == 0 + (n - k) * P;
      CongIntro(lost * TWO_517, 0, P, n - k);
      LossShows(lost);
    }
  }

  // ---- the whole reduction --------------------------------------------------------

  /** felem_reduce_degree sets out = tmp / R mod p. Its comment allows any 64-bit columns;
      it is exact if and only if the quotient stays below 2^260. */
  method ReduceDegree(out: array<u32>, tmp: array<u64>) returns (ghost o: seq<int>, ghost carry: int)
    requires out.Length == 9 && tmp.Length == 17
    modifies out
    ensures Bounded(out[..]) && out[8] < 0x2000_0000
    ensures Cong(TWO_257 * Value(out[..]), Value(tmp[..]), P) <==> Quotient(Value(tmp[..])) < TWO_260
    ensures |o| == 9 && Tight(o) && 0 <= carry < 8 && out[..] == Absorb(o, carry)
    ensures Quotient(Value(tmp[..])) < TWO_260 ==> Value(o) + carry * TWO_257 == Quotient(Value(tmp[..]))
  {
    var t, g := Separate(tmp);
    Begin(t[..], g);
    ghost var h, m := EliminateAll(t, g);
    ghost var q, lost;
    q, o, carry, lost := Regroup(out, t, h);
    ReduceEnd(Value(tmp[..]), m, q, o, carry, lost);
  }

  /** Separated words are ready for the elimination. */
  lemma Begin(t: seq<int>, g: seq<int>)
    requires |t| == |g| == 18 && t[17] == g[17] % 0x1_0000_0000 && 0 <= g[17] < 0x9_0000_0000
    requires forall k :: 0 <= k < 17 ==> 0 <= t[k] == g[k] < Width(k)
    ensures Pending(g, 0) && Holds(t, g)
  {
    WordsHold(t, g, |g|);
    WordsPending(g, 0, |g|);
  }

  lemma ReduceEnd(v: int, m: int, q: int, o: seq<int>, carry: int, lost: int)
    requires v + m * P == TWO_257 * q && 0 <= m < TWO_257 && 0 <= lost < 11
    requires |o| == 9 && Tight(o) && 0 <= carry < 8 && Value(o) + carry * TWO_257 == q - lost * TWO_260
    ensures Bounded(Absorb(o, carry)) && Absorb(o, carry)[8] < 0x2000_0000
    ensures Quotient(v) == q && (lost == 0 <==> q < TWO_260)
    ensures Cong(TWO_257 * Value(Absorb(o, carry)), v, P) <==> q < TWO_260
  {
    QuotientIs(v, m, q);
    AbsorbValue(o, carry);
    TightBound(o);
    Weights();
    ExactIff(Value(Absorb(o, carry)), v, m, q, carry, lost);
  }

  // ---- when the quotient fits -------------------------------------------------------

  /** The columns below column n weigh less than 2^37 of it. */
  lemma {:induction false} ColumnsBelow(x: seq<u64>)
    ensures 0 <= Value(x) < 0x20_0000_0000 * Weight(|x|)
  {
    WeightPositive(|x|);
    if x != [] {
      var i := |x| - 1;
      var w := Weight(i);
      ColumnsBelow(x[..i]);
      WeightPositive(i);
      ProductBelow(x[i], 0x1_0000_0000_0000_0000, w);
      ProductBelow(0x1000_0000, Width(i), w);
    }
  }

  lemma ProductBelow(a: int, b: int, w: int)
    requires 0 <= a <= b && 0 <= w
    ensures 0 <= a * w <= b * w
  {
  }

  /** How the last column decides: below 2^61 - 2^57 - 2^37 the reduction is exact, and
      from 2^61 on it never is. */
  lemma LastColumnDecides(x: seq<u64>)
    requires |x| == 17
    ensures x[16] <= 0x1dff_ffe0_0000_0000 ==> Quotient(Value(x)) < TWO_260
    ensures x[16] >= 0x2000_0000_0000_0000 ==> Quotient(Value(x)) >= TWO_260
  {
    var n := 16;
    ColumnsBelow(x[..n]);
    Weights();
    ValueStep(x, n, Weight(n));
    assert x[..17] == x;
    var v := Value(x);
    QuotientRange(v, v * NEG_P_INV % TWO_257);
  }

  lemma QuotientRange(v: int, m: int)
    requires 0 <= m < TWO_257
    ensures v < TWO_517 - TWO_257 * P ==> (v + m * P) / TWO_257 < TWO_260
    ensures v >= TWO_517 ==> (v + m * P) / TWO_257 >= TWO_260
  {
    ProductBelow(m, TWO_257, P);
  }

  /** A failing input: nothing but 2^61 in the last column. Word 17 becomes 0. */
  lemma ReduceLoses(x: seq<u64>)
    requires x == [0, 0, 0, 0, 0, 0, 0, 0, 0, 0, 0, 0, 0, 0, 0, 0, 0x2000_0000_0000_0000]
    ensures Quotient(Value(x)) >= TWO_260
  {
    LastColumnDecides(x);
  }
}
