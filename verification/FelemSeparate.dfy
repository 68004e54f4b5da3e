/** First pass of felem_reduce_degree of p256_ec.c: seventeen overlapping 64-bit columns
    become eighteen words that do not overlap. */
module FelemSeparate {
  import opened Words
  import opened Modular
  import opened Felem
  import opened Bits

  /** x in column k is l in limb k, m in limb k + 1 and t in limb k + 2. */
  ghost predicate Decomposed(x: int, k: nat, l: int, m: int, t: int) {
    && x == l + Widened(k, m) + 0x200_0000_0000_0000 * t
    && 0 <= l < Width(k) && 0 <= m < Width(k + 1) && 0 <= t < 0x80
  }

  lemma WidthPair(k: nat)
    ensures Width(k) * Width(k + 1) == 0x200_0000_0000_0000
  {
  }

  /** The three parts are the shifts and masks of x. */
  lemma DecomposedParts(x: int, k: nat, l: int, m: int, t: int)
    requires Decomposed(x, k, l, m, t)
    ensures x % Width(k) == l && x / Width(k) % Width(k + 1) == m
    ensures x / 0x200_0000_0000_0000 == t
  {
    var w, v := Width(k), Width(k + 1);
    WidthPair(k);
    assert Widened(k, m) == w * m;
    assert (m + v * t) * w == w * m + (w * v) * t;
    DivModUnique(m + v * t, l, w, x);
    DivModUnique(t, m, v, m + v * t);
    assert w * m + w <= w * v;
    DivModUnique(t, l + w * m, 0x200_0000_0000_0000, x);
  }

  lemma Decompose(x: u64, k: nat) returns (l: int, m: int, t: int)
    ensures Decomposed(x, k, l, m, t)
  {
    var w, v := Width(k), Width(k + 1);
    var q := x / w;
    l, m, t := x % w, q % v, q / v;
    assert x == w * q + l && q == v * t + m;
    WidthPair(k);
    assert w * (v * t + m) == (w * v) * t + w * m;
    assert Widened(k, m) == w * m;
    assert 0x200_0000_0000_0000 * t < 0x80 * 0x200_0000_0000_0000;
  }

  lemma {:induction false} DecomposeAll(x: seq<u64>) returns (low: seq<int>, mid: seq<int>, top: seq<int>)
    ensures |x| == |low| == |mid| == |top|
    ensures forall k :: 0 <= k < |x| ==> Decomposed(x[k], k, low[k], mid[k], top[k])
  {
    if x == [] {
      low, mid, top := [], [], [];
    } else {
      var n := |x| - 1;
      low, mid, top := DecomposeAll(x[..n]);
      var l, m, t := Decompose(x[n], n);
      low, mid, top := low + [l], mid + [m], top + [t];
    }
  }

  /** What falls on word i when column k contributes low[k], mid[k], top[k] to
      words k, k + 1 and k + 2. */
  function Overlap(low: seq<int>, mid: seq<int>, top: seq<int>, i: nat): int
    requires i < |low| == |mid| == |top|
  {
    low[i] + (if i >= 1 then mid[i - 1] else 0) + (if i >= 2 then top[i - 2] else 0)
  }

  ghost predicate Apart(x: seq<int>, low: seq<int>, mid: seq<int>, top: seq<int>) {
    && |x| == |low| == |mid| == |top|
    && forall k :: 0 <= k < |x| ==> x[k] == low[k] + Widened(k, mid[k]) + 0x200_0000_0000_0000 * top[k]
  }

  /** The overlaps of the first n columns, and what they leave for the next two
      words, keep the value. */
  lemma {:induction false} OverlapPrefix(x: seq<int>, low: seq<int>, mid: seq<int>, top: seq<int>, z: seq<int>, n: nat)
    requires Apart(x, low, mid, top) && 1 <= n <= |x| <= |z|
    requires forall k :: 0 <= k < |x| ==> z[k] == Overlap(low, mid, top, k)
    ensures Value(z[..n])
              + (mid[n - 1] + (if n >= 2 then top[n - 2] else 0)) * Weight(n)
              + top[n - 1] * Weight(n + 1)
            == Value(x[..n])
  {
    var k := n - 1;
    ValueStep(z, k, Weight(k));
    ValueStep(x, k, Weight(k));
    assert z[..0] == [] && x[..0] == [];
    if k > 0 {
      OverlapPrefix(x, low, mid, top, z, k);
    }
    var m := if k >= 1 then mid[k - 1] else 0;
    var t := if k >= 2 then top[k - 2] else 0;
    var u := if k >= 1 then top[k - 1] else 0;
    assert z[k] == low[k] + (m + t);
    Distribute(low[k], m + t, Weight(k));
    Distribute(mid[k], u, Weight(n));
    WidthPair(k);
    assert Widened(k, mid[k]) == Width(k) * mid[k];
    SpreadAlgebra(Weight(k), Width(k), Width(k + 1), x[k], low[k], mid[k], top[k]);
  }

  lemma SpreadAlgebra(w: int, a: int, b: int, x: int, low: int, mid: int, top: int)
    requires a * b == 0x200_0000_0000_0000 && x == low + a * mid + 0x200_0000_0000_0000 * top
    ensures x * w == low * w + mid * (w * a) + top * (w * a * b)
  {
    assert mid * (w * a) == (a * mid) * w;
    assert w * a * b == w * (a * b);
    assert top * (w * 0x200_0000_0000_0000) == (0x200_0000_0000_0000 * top) * w;
  }

  /** A column falls apart in one way. */
  lemma DecomposedUnique(x: int, k: nat, l: int, m: int, t: int, l2: int, m2: int, t2: int)
    requires Decomposed(x, k, l, m, t) && Decomposed(x, k, l2, m2, t2)
    ensures l == l2 && m == m2 && t == t2
  {
    DecomposedParts(x, k, l, m, t);
    DecomposedParts(x, k, l2, m2, t2);
  }

  lemma TopOfHalf(x: int)
    requires 0 <= x < 0x1_0000_0000_0000_0000
    ensures x / 0x1_0000_0000 / 0x200_0000 == x / 0x200_0000_0000_0000
  {
    var hi := x / 0x1_0000_0000;
    var t := hi / 0x200_0000;
    assert x == 0x1_0000_0000 * hi + x % 0x1_0000_0000;
    assert hi == 0x200_0000 * t + hi % 0x200_0000;
    DivModUnique(t, 0x1_0000_0000 * (hi % 0x200_0000) + x % 0x1_0000_0000, 0x200_0000_0000_0000, x);
  }

  /** `(limb) x & mask`. */
  method ReadLow(x: u64, k: nat, ghost l: int, ghost m: int, ghost t: int) returns (r: u32)
    requires Decomposed(x, k, l, m, t)
    ensures r == l
  {
    DecomposedParts(x, k, l, m, t);
    ModMod(x, 0x2000_0000, 8);
    ModMod(x, 0x1000_0000, 16);
    r := x % 0x1_0000_0000 % Width(k);
  }

  /** `((limb)(x >> 32)) >> 25`. */
  method ReadTop(x: u64, k: nat, ghost l: int, ghost m: int, ghost t: int) returns (r: u32)
    requires Decomposed(x, k, l, m, t)
    ensures r == t
  {
    DecomposedParts(x, k, l, m, t);
    TopOfHalf(x);
    r := x / 0x1_0000_0000 / 0x200_0000;
  }

  /** The bits of an even column that fall on the word above it, read from the two
      halves of x: `(limb) x >> 29` and `((limb)(x >> 32) << 3) & mask`. */
  method ReadMiddleEven(x: u64, k: nat, ghost l: int, ghost m: int, ghost t: int) returns (near: u32, far: u32, ghost f: int)
    requires k % 2 == 0 && Decomposed(x, k, l, m, t)
    ensures near + far == m && near < 8 && 0 <= f && far == f * 8
  {
    var lo, hi := x % 0x1_0000_0000, x / 0x1_0000_0000;
    near := lo / 0x2000_0000;
    var h;
    far, h := ShiftParts(hi, 0x200_0000, 8);
    f := hi - 0x200_0000 * h;
    DecomposedUnique(x, k, l, m, t, lo - 0x2000_0000 * near, near + far, h);
  }

  /** The same for an odd column, with a mask of 29 bits. */
  method ReadMiddleOdd(x: u64, k: nat, ghost l: int, ghost m: int, ghost t: int) returns (near: u32, far: u32)
    requires k % 2 == 1 && Decomposed(x, k, l, m, t)
    ensures near + far == m
  {
    var lo, hi := x % 0x1_0000_0000, x / 0x1_0000_0000;
    near := lo / 0x1000_0000;
    var h;
    far, h := ShiftParts(hi, 0x200_0000, 16);
    DecomposedUnique(x, k, l, m, t, lo - 0x1000_0000 * near, near + far, h);
  }

  lemma LastAlgebra(m: int, t: int, u: int, w: int, v: int)
    requires v == w * 0x1000_0000
    ensures (m + t) * w + u * v == (m + t + 0x1000_0000 * u) * w
  {
  }

  lemma LastWord(vx: int, vz: int, vo: int, vg: int, m: int, t: int, u: int, carry: int, r: int, w: int, v: int)
    requires v == w * 0x1000_0000 && r == m + t + 0x1000_0000 * u
    requires vz + (m + t) * w + u * v == vx
    requires vo + carry * w == vz
    requires vg == vo + (r + carry) * w
    ensures vg == vx
  {
    LastAlgebra(m, t, u, w, v);
    Distribute(r, carry, w);
  }

  /** The words finished by the carry chain, then the last word, which takes what
      the last two columns leave. */
  lemma SeparateValue(x: seq<int>, low: seq<int>, mid: seq<int>, top: seq<int>, z: seq<int>, o: seq<int>,
                      carry: int, n: nat, r: int)
    requires n % 2 == 1 && n >= 2 && |z| == |o| == n && Apart(x, low, mid, top) && |x| == n && Chain(o, z, carry)
    requires forall k :: 0 <= k < n ==> z[k] == Overlap(low, mid, top, k)
    requires r == mid[n - 1] + top[n - 2] + 0x1000_0000 * top[n - 1]
    ensures Value(o + [r + carry]) == Value(x[..n])
  {
    OverlapPrefix(x, low, mid, top, z, n);
    ChainValue(o, z, carry);
    ValueSnoc(o, r + carry);
    LastWord(Value(x[..n]), Value(z[..n]), Value(o), Value(o + [r + carry]), mid[n - 1], top[n - 2], top[n - 1],
             carry, r, Weight(n), Weight(n + 1));
  }

  lemma SeparateEnd(x: seq<u64>, low: seq<int>, mid: seq<int>, top: seq<int>, z: seq<int>, o: seq<int>,
                    carry: int, last: int)
    requires |x| == |low| == |mid| == |top| == |z| == |o| == 17
    requires forall k :: 0 <= k < 17 ==> Decomposed(x[k], k, low[k], mid[k], top[k])
    requires forall k :: 0 <= k < 17 ==> z[k] == Overlap(low, mid, top, k)
    requires Chain(o, z, carry)
    requires last == mid[16] + top[15] + 0x1000_0000 * top[16] + carry
    ensures Value(o + [last]) == Value(x)
  {
    SeparateValue(x, low, mid, top, z, o, carry, |o|, last - carry);
    assert x[..|o|] == x;
  }

  /** Word i >= 2 of the first pass: the top of column i - 2, the middle of column
      i - 1, the bottom of column i and the carry. */
  method OneWord(i: nat, x: u64, y: u64, v: u64, carry: u32,
                 ghost lx: int, ghost mx: int, ghost tx: int, ghost ly: int, ghost my: int, ghost ty: int,
                 ghost lv: int, ghost mv: int, ghost tv: int) returns (w: u32, next: u32)
    requires i >= 2 && carry < 16
    requires Decomposed(x, i - 2, lx, mx, tx) && Decomposed(y, i - 1, ly, my, ty) && Decomposed(v, i, lv, mv, tv)
    ensures tx + my + lv + carry == w + Widened(i, next)
    ensures w < Width(i) && next < 16
  {
    var near, far;
    ghost var f;
    var above := ReadTop(x, i - 2, lx, mx, tx);
    if (i - 1) % 2 == 1 {
      near, far := ReadMiddleOdd(y, i - 1, ly, my, ty);
    } else {
      near, far, f := ReadMiddleEven(y, i - 1, ly, my, ty);
    }
    w := ReadLow(v, i, lv, mv, tv);
    w, next := Split(above + near + far + w + carry, Width(i));
  }

  /** Every column in its three parts. */
  ghost predicate Parts(x: seq<int>, low: seq<int>, mid: seq<int>, top: seq<int>) {
    && |x| == |low| == |mid| == |top|
    && forall k :: 0 <= k < |x| ==> Decomposed(x[k], k, low[k], mid[k], top[k])
  }

  /** z holds what falls on each word. */
  ghost predicate Overlaps(z: seq<int>, low: seq<int>, mid: seq<int>, top: seq<int>) {
    && |z| == |low| == |mid| == |top|
    && forall k :: 0 <= k < |z| ==> z[k] == Overlap(low, mid, top, k)
  }

  /** Words 0 and 1. */
  method FirstWords(x: u64, y: u64, ghost lx: int, ghost mx: int, ghost tx: int, ghost ly: int, ghost my: int, ghost ty: int)
    returns (v: u32, w: u32, carry: u32)
    requires Decomposed(x, 0, lx, mx, tx) && Decomposed(y, 1, ly, my, ty)
    ensures v == lx && v < 0x2000_0000
    ensures mx + ly == w + 0x1000_0000 * carry && w < 0x1000_0000 && carry < 16
  {
    v := ReadLow(x, 0, lx, mx, tx);
    var near, far, f := ReadMiddleEven(x, 0, lx, mx, tx);
    OrDisjoint(near, f, 3);
    assert Pow2(3) == 8;
    w := ReadLow(y, 1, ly, my, ty);
    w, carry := Split(Or(near, far) + w, 0x1000_0000);
  }

  lemma FirstChain(z: seq<int>, v: int, w: int, carry: int)
    requires |z| > 1 && z[0] == v && 0 <= v < 0x2000_0000
    requires z[1] == w + 0x1000_0000 * carry && 0 <= w < 0x1000_0000
    ensures Chain([v, w], z, carry)
  {
    assert Chain([], z, 0);
    ChainLimb([], z, 0, v, 0);
    assert [] + [v] == [v];
    ChainLimb([v], z, 0, w, carry);
    assert [v] + [w] == [v, w];
  }

  /** Words 0 to 16: what falls on each, with the carries moved up. */
  method LowWords(t: array<u32>, tmp: array<u64>, ghost low: seq<int>, ghost mid: seq<int>, ghost top: seq<int>, ghost z: seq<int>)
    returns (carry: u32, ghost o: seq<int>)
    requires t.Length == 18 && tmp.Length == 17 && Parts(tmp[..], low, mid, top) && Overlaps(z, low, mid, top)
    modifies t
    ensures carry < 16 && |o| == 17 && Chain(o, z, carry)
    ensures forall k :: 0 <= k < 17 ==> t[k] == o[k]
  {
    var v, w;
    v, w, carry := FirstWords(tmp[0], tmp[1], low[0], mid[0], top[0], low[1], mid[1], top[1]);
    t[0] := v;
    t[1] := w;
    FirstChain(z, v, w, carry);
    o := [v, w];
    for i := 2 to 17
      invariant carry < 16
      invariant |o| == i && Chain(o, z, carry)
      invariant forall k :: 0 <= k < i ==> t[k] == o[k]
    {
      ghost var c := carry;
      w, carry := OneWord(i, tmp[i - 2], tmp[i - 1], tmp[i], carry, low[i - 2], mid[i - 2], top[i - 2],
                          low[i - 1], mid[i - 1], top[i - 1], low[i], mid[i], top[i]);
      t[i] := w;
      ChainLimb(o, z, c, w, carry);
      o := o + [w];
    }
  }

  /** Without the mask, all bits from bit 29 on are there. */
  lemma LastParts(x: int, l: int, m: int, t: int, lo: int, hi: int, near: int, rest: int, h: int, h25: int)
    requires Decomposed(x, 16, l, m, t) && x == lo + 0x1_0000_0000 * hi && h25 == 0x200_0000 * h
    requires lo == 0x2000_0000 * near + rest && 0 <= rest < 0x2000_0000 && 0 <= near < 8
    requires h25 <= hi < h25 + 0x200_0000 && 0 <= h < 0x80
    ensures m + 0x1000_0000 * t == near + 8 * hi
  {
    DecomposedUnique(x, 16, l, m, t, rest, near + 8 * (hi - h25), h);
  }

  /** `(limb) x >> 29` plus `(limb)(x >> 32) << 3` of the last column, unmasked: bits 61
      to 63 of x are shifted out. */
  method ReadLast(x: u64, ghost l: int, ghost m: int, ghost t: int) returns (r: u32, ghost lost: int)
    requires Decomposed(x, 16, l, m, t)
    ensures m + 0x1000_0000 * t == r + 0x1_0000_0000 * lost
  {
    var lo, hi := x % 0x1_0000_0000, x / 0x1_0000_0000;
    var near, far := lo / 0x2000_0000, hi * 8 % 0x1_0000_0000;
    LastParts(x, l, m, t, lo, hi, near, lo - 0x2000_0000 * near, hi / 0x200_0000, 0x200_0000 * (hi / 0x200_0000));
    r := Add32(near, far);
    lost := hi * 8 / 0x1_0000_0000 + (if near + far < 0x1_0000_0000 then 0 else 1);
  }

  /** Word 17 wraps: it is what falls there, modulo 2^32. */
  method LastWords(x: u64, y: u64, carry: u32, ghost lx: int, ghost mx: int, ghost tx: int, ghost ly: int, ghost my: int, ghost ty: int)
    returns (w: u32, ghost last: int)
    requires carry < 16 && Decomposed(x, 15, lx, mx, tx) && Decomposed(y, 16, ly, my, ty)
    ensures last == my + tx + 0x1000_0000 * ty + carry && 0 <= last < 0x9_0000_0000
    ensures w == last % 0x1_0000_0000
  {
    var above := ReadTop(x, 15, lx, mx, tx);
    var r, lost := ReadLast(y, ly, my, ty);
    w := Add32(Add32(above, r), carry);
    last := my + tx + 0x1000_0000 * ty + carry;
  }

  /** First pass of felem_reduce_degree: g is words without overlap for any 64-bit
      columns, and t holds it with word 17 modulo 2^32. */
  method Separate(tmp: array<u64>) returns (t: array<u32>, ghost g: seq<int>)
    requires tmp.Length == 17
    ensures fresh(t) && t.Length == 18 && |g| == 18
    ensures forall k :: 0 <= k < 17 ==> t[k] == g[k] < Width(k)
    ensures t[17] == g[17] % 0x1_0000_0000 && 0 <= g[17] < 0x9_0000_0000
    ensures Value(g) == Value(tmp[..])
  {
    t := new u32[18];
    ghost var x := tmp[..];
    ghost var low, mid, top := DecomposeAll(x);
    ghost var z: seq<int> := seq(17, k requires 0 <= k < 17 => Overlap(low, mid, top, k));
    var carry, o := LowWords(t, tmp, low, mid, top, z);
    var w, last := LastWords(tmp[15], tmp[16], carry, low[15], mid[15], top[15], low[16], mid[16], top[16]);
    t[17] := w;
    g := o + [last];
    SeparateEnd(x, low, mid, top, z, o, carry, last);
    forall k | 0 <= k < 17
      ensures o[k] < Width(k)
    {
      ChainTight(o, z, carry, k);
    }
  }
}
