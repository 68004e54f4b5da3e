/** Scalar multiplication of p256_ec.c: the comb over the fixed table, the four-bit window
    over a table built on the fly, and their combination. The curve enters as a hypothesis:
    a reading of coordinates as multiples of the base point under which the addition
    formulas add, except on equal, opposite or infinite operands, where nothing is known. */
module ScalarMult {
  import opened Words
  import opened Modular
  import opened Bits
  import opened Digits
  import opened Divisors
  import opened P256
  import opened P256Arith
  import opened Felem
  import opened FelemInv
  import opened Jacobian
  import opened Select
  import Montgomery

  // The order of the group, SECP256r1_n.
  const N: int := 0xffffffff_00000000_ffffffff_ffffffff_bce6faad_a7179e84_f3b9cac2_fc632551

  // ---- the curve as a hypothesis ---------------------------------------------------------

  /** What coordinates stand for: a nonzero multiple of the base point, the point at
      infinity, or nothing on the curve. */
  datatype Element = Multiple(k: int) | Infinity | Junk

  /** A reading of coordinates, and the affine coordinates of each multiple. */
  datatype Curve = Curve(rep: Jac -> Element, x: int -> int, y: int -> int)

  ghost predicate IsMultiple(c: Curve, p: Jac, k: int) {
    c.rep(p) == Multiple(k)
  }

  ghost predicate Unrelated(a: int, b: int) {
    a != b && a + b != N
  }

  ghost predicate DoublingLaw(c: Curve) {
    forall p: Jac, k: int {:trigger Doubled(p), IsMultiple(c, p, k)} ::
      IsMultiple(c, p, k) ==> 0 < k < N && IsMultiple(c, Doubled(p), 2 * k % N)
  }

  ghost predicate MixedLaw(c: Curve) {
    forall p: Jac, a: int, x: int, y: int, b: int {:trigger AddedMixed(p, x, y), IsMultiple(c, p, a), IsMultiple(c, Jac(x, y, 1), b)} ::
      IsMultiple(c, p, a) && IsMultiple(c, Jac(x, y, 1), b) && Unrelated(a, b)
      ==> IsMultiple(c, AddedMixed(p, x, y), (a + b) % N)
  }

  ghost predicate AdditionLaw(c: Curve) {
    forall p: Jac, a: int, q: Jac, b: int {:trigger Added(p, q), IsMultiple(c, p, a), IsMultiple(c, q, b)} ::
      IsMultiple(c, p, a) && IsMultiple(c, q, b) && Unrelated(a, b)
      ==> IsMultiple(c, Added(p, q), (a + b) % N)
  }

  /** Affine coordinates tell points apart up to sign, and fully. */
  ghost predicate CoordinateLaw(c: Curve) {
    forall p: Jac, a: int, q: Jac, b: int {:trigger SameAffine(p, q), IsMultiple(c, p, a), IsMultiple(c, q, b)} ::
      IsMultiple(c, p, a) && IsMultiple(c, q, b) ==>
      && (Cong(CrossX(q, p) - CrossX(p, q), 0, P) <==> a == b || a + b == N)
      && (SameAffine(p, q) <==> a == b)
  }

  /** The affine coordinates, i being 1/z. */
  ghost function DividedX(p: Jac, i: int): int {
    p.x * (i * i)
  }

  ghost function DividedY(p: Jac, i: int): int {
    p.y * (i * (i * i))
  }

  /** Divided by the powers of z, the coordinates of a multiple are the affine ones. */
  ghost predicate DivisionLaw(c: Curve) {
    forall p: Jac, k: int, i: int {:trigger IsMultiple(c, p, k), DividedX(p, i)} ::
      IsMultiple(c, p, k) && Cong(p.z * i, 1, P)
      ==> Cong(DividedX(p, i), c.x(k), P) && Cong(DividedY(p, i), c.y(k), P)
  }

  /** A multiple has finite affine coordinates; a zero z coordinate is the point at infinity. */
  ghost predicate AffineLaw(c: Curve) {
    && (forall p: Jac :: Cong(p.z, 0, P) ==> c.rep(p) == Infinity)
    && DivisionLaw(c)
    && (forall k: int :: 0 < k < N ==> 0 <= c.x(k) < P)
    && (forall k: int :: 0 < k < N ==> 0 <= c.y(k) < P)
  }

  ghost predicate GroupLaw(c: Curve) {
    DoublingLaw(c) && MixedLaw(c) && AdditionLaw(c) && CoordinateLaw(c) && AffineLaw(c) && Prime(N)
  }

  // ---- multiples of a point ----------------------------------------------------------------

  /** k times the point of index d, by repeated addition. */
  ghost function Times(k: int, d: int): int
    decreases k
  {
    if k <= 0 then 0 else (Times(k - 1, d) + d) % N
  }

  lemma {:induction false} TimesMod(k: int, d: int)
    requires k >= 0
    ensures Times(k, d) == (k * d) % N
  {
    if k > 0 {
      TimesMod(k - 1, d);
      CongReduce((k - 1) * d, N);
      CongRefl(d, N);
      CongAdd(((k - 1) * d) % N, (k - 1) * d, d, d, N);
      assert (k - 1) * d + d == k * d;
      CongMod(((k - 1) * d) % N + d, k * d, N);
    }
  }

  lemma NotZeroMultiple(x: int, d: int)
    requires Prime(N) && 0 < x < N && 0 < d < N
    ensures Times(x, d) != 0
  {
    TimesMod(x, d);
    if (x * d) % N == 0 {
      CongOfMod(x * d, 0 * d, N);
      var i := PrimeInverse(N, d);
      CongCancel(x, 0, d, i, N);
      CongUnique(x, 0, N);
    }
  }

  lemma SumOfMultiples(a: int, b: int, d: int)
    requires 0 <= a && 0 <= b
    ensures (Times(a, d) + Times(b, d)) % N == Times(a + b, d)
  {
    TimesMod(a, d);
    TimesMod(b, d);
    TimesMod(a + b, d);
    CongReduce(a * d, N);
    CongReduce(b * d, N);
    CongAdd((a * d) % N, a * d, (b * d) % N, b * d, N);
    assert (a + b) * d == a * d + b * d;
    CongMod((a * d) % N + (b * d) % N, (a + b) * d, N);
  }

  lemma DoubleOfMultiple(a: int, d: int)
    requires 0 <= a
    ensures 2 * Times(a, d) % N == Times(2 * a, d)
  {
    SumOfMultiples(a, a, d);
  }

  lemma DifferentMultiples(a: int, b: int, d: int)
    requires Prime(N) && 0 < d < N && 0 < a < N && 0 < b < N && a != b
    ensures Times(a, d) != Times(b, d)
  {
    if Times(a, d) == Times(b, d) {
      TimesMod(a, d);
      TimesMod(b, d);
      CongOfMod(a * d, b * d, N);
      var i := PrimeInverse(N, d);
      CongCancel(a, b, d, i, N);
      CongUnique(a, b, N);
    }
  }

  /** Multiples a and b of one point are neither equal nor opposite while a and b differ
      and their sum stays below the order. */
  lemma UnrelatedMultiples(a: int, b: int, d: int)
    requires Prime(N) && 0 < d < N && 0 < a && 0 < b && a != b && a + b < N
    ensures Unrelated(Times(a, d), Times(b, d))
  {
    DifferentMultiples(a, b, d);
    SumOfMultiples(a, b, d);
    NotZeroMultiple(a + b, d);
    assert N % N == 0;
  }

  lemma TimesOne(k: int)
    requires 0 <= k < N
    ensures Times(k, 1) == k
  {
    TimesMod(k, 1);
  }

  lemma OneTimes(d: int)
    requires 0 < d < N
    ensures Times(1, d) == d
  {
    TimesMod(1, d);
  }

  // ---- one masked addition -------------------------------------------------------------------

  /** The accumulator stands for k times the point of index d; it counts as infinite, and its
      coordinates mean nothing, exactly while k is zero. */
  ghost predicate Accumulates(c: Curve, v: Jac, inf: u32, k: int, d: int) {
    && (inf == 0 || inf == 0xffff_ffff)
    && 0 <= k < N
    && (inf != 0 <==> k == 0)
    && (k > 0 ==> IsMultiple(c, v, Times(k, d)))
  }

  method CopyPoint(n: Point, x: seq<u32>, y: seq<u32>, z: seq<u32>, mask: u32)
    requires |n.x| == |n.y| == |n.z| == |x| == |y| == |z| == 9 && (mask == 0 || mask == 0xffff_ffff)
    modifies n
    ensures n.x == (if mask == 0 then old(n.x) else x)
    ensures n.y == (if mask == 0 then old(n.y) else y)
    ensures n.z == (if mask == 0 then old(n.z) else z)
  {
    n.x := Copied(n.x, x, mask);
    n.y := Copied(n.y, y, mask);
    n.z := Copied(n.z, z, mask);
  }

  method Copied(out: seq<u32>, input: seq<u32>, mask: u32) returns (r: seq<u32>)
    requires |out| == |input| == 9 && (mask == 0 || mask == 0xffff_ffff)
    ensures r == if mask == 0 then out else input
  {
    var a := ToArray(out);
    var b := ToArray(input);
    CopyConditional(a, b, mask);
    r := a[..];
  }

  /** The masked copies that end each round: n becomes p while it is infinite, n + p (held
      in t) when p is not, and otherwise stays. */
  method Merge(n: Point, x: seq<u32>, y: seq<u32>, z: seq<u32>, t: Point, index: u32, inf: u32) returns (next: u32)
    requires |n.x| == |n.y| == |n.z| == |x| == |y| == |z| == |t.x| == |t.y| == |t.z| == 9
    requires index < 16 && (inf == 0 || inf == 0xffff_ffff) && n != t
    modifies n
    ensures n.x == (if inf != 0 then x else if index != 0 then t.x else old(n.x))
    ensures n.y == (if inf != 0 then y else if index != 0 then t.y else old(n.y))
    ensures n.z == (if inf != 0 then z else if index != 0 then t.z else old(n.z))
    ensures next == if index != 0 then 0 else inf
  {
    CopyPoint(n, x, y, z, inf);
    var nonInfinite := NonZeroToAllOnes(index);
    var mask := Masked(nonInfinite, 0xffff_ffff - inf);
    CopyPoint(n, t.x, t.y, t.z, mask);
    next := Masked(inf, 0xffff_ffff - nonInfinite);
  }

  /** What one addition needs: p is b times the point, for b zero exactly at index 0, and the
      sum neither hits equal or opposite points nor the order. */
  ghost predicate Addend(c: Curve, w: Jac, index: u32, a: int, b: int, d: int) {
    && index < 16 && 0 <= b && a + b < N
    && (index == 0 <==> b == 0)
    && (b > 0 ==> a != b && IsMultiple(c, w, Times(b, d)))
  }

  /** Where nothing is kept of the sum, either operand is the answer. */
  lemma MergedMeaning(c: Curve, v: Jac, w: Jac, s: Jac, inf: u32, index: u32, a: int, b: int, d: int)
    requires GroupLaw(c) && 0 < d < N
    requires Accumulates(c, v, inf, a, d) && Addend(c, w, index, a, b, d)
    requires a > 0 && b > 0 ==> IsMultiple(c, s, (Times(a, d) + Times(b, d)) % N)
    ensures Accumulates(c, if inf != 0 then w else if index != 0 then s else v, if index != 0 then 0 else inf, a + b, d)
  {
    SumOfMultiples(a, b, d);
  }

  const KONE: seq<u32> := [2, 0, 0, 0xfff_f800, 0x1fff_ffff, 0xfff_ffff, 0x1fbf_ffff, 0x1ff_ffff, 0]

  lemma ConstantFelems()
    ensures Kept(ZERO9, 0) && Kept(KONE, 1)
  {
    Value9(ZERO9);
    CongRefl(0, P);
    Value9(KONE);
    CongRefl(TWO_257 - 2 * P, P);
    Montgomery.IntoForm(TWO_257 - 2 * P, 1);
  }

  /** Adds an affine table entry, or nothing, to the accumulator. */
  method AddAffine(n: Point, x: seq<u32>, y: seq<u32>, index: u32, inf: u32,
                   ghost c: Curve, ghost v: Jac, ghost wx: int, ghost wy: int, ghost a: int, ghost b: int, ghost k: int)
    returns (next: u32, ghost r: Jac)
    requires GroupLaw(c) && n.Keeps(v) && Kept(x, wx) && Kept(y, wy)
    requires Accumulates(c, v, inf, a, 1) && Addend(c, Jac(wx, wy, 1), index, a, b, 1) && k == a + b
    modifies n
    ensures n.Keeps(r) && Accumulates(c, r, next, k, 1)
    ensures k == 0 ==> r == Jac(wx, wy, 1)
  {
    ConstantFelems();
    var t := new Point(ZERO9, ZERO9, ZERO9);
    AddMixed(t, n, x, y, v, wx, wy);
    ghost var w, s := Jac(wx, wy, 1), AddedMixed(v, wx, wy);
    if a > 0 && b > 0 {
      UnrelatedMultiples(a, b, 1);
    }
    MergedMeaning(c, v, w, s, inf, index, a, b, 1);
    next := Merge(n, x, y, KONE, t, index, inf);
    r := if inf != 0 then w else if index != 0 then s else v;
  }

  /** Adds a Jacobian table entry, or nothing, to the accumulator. */
  method AddEntry(n: Point, p: Point, index: u32, inf: u32,
                  ghost c: Curve, ghost v: Jac, ghost w: Jac, ghost a: int, ghost b: int, ghost k: int, ghost d: int)
    returns (next: u32, ghost r: Jac)
    requires GroupLaw(c) && 0 < d < N && n.Keeps(v) && p.Keeps(w) && n != p
    requires Accumulates(c, v, inf, a, d) && Addend(c, w, index, a, b, d) && k == a + b
    modifies n
    ensures n.Keeps(r) && Accumulates(c, r, next, k, d)
    ensures k == 0 ==> r == w
  {
    var t := new Point(n.x, n.y, n.z);
    Jacobian.Add(t, n, p, v, w);
    ghost var s := Added(v, w);
    if a > 0 && b > 0 {
      UnrelatedMultiples(a, b, d);
    }
    MergedMeaning(c, v, w, s, inf, index, a, b, d);
    next := Merge(n, p.x, p.y, p.z, t, index, inf);
    r := if inf != 0 then w else if index != 0 then s else v;
  }

  /** point_double of the accumulator in place. */
  method DoublePoint(n: Point, ghost c: Curve, ghost v: Jac, ghost inf: u32, ghost a: int, ghost k: int, ghost d: int) returns (ghost r: Jac)
    requires GroupLaw(c) && 0 < d < N && n.Keeps(v) && Accumulates(c, v, inf, a, d) && k == 2 * a < N
    modifies n
    ensures n.Keeps(r) && Accumulates(c, r, inf, k, d)
  {
    Double(n, n, v);
    DoubleOfMultiple(a, d);
    r := Doubled(v);
  }

  // ---- bits of a scalar ------------------------------------------------------------------------

  /** `d >> b`. */
  function TopOf(d: u32, b: nat): (r: u32)
    ensures r <= d
  {
    if b == 0 then d else TopOf(d, b - 1) / 2
  }

  function BitOf(d: u32, b: nat): (r: u32)
    ensures r <= 1
  {
    TopOf(d, b) % 2
  }

  /** p256_get_bit, for bit number off of digit k. */
  method GetBit(s: array<u32>, bit: nat, ghost k: nat, ghost off: nat) returns (b: u32)
    requires k < s.Length && off < 32 && bit == 32 * k + off
    ensures b == BitOf(s[k], off)
  {
    b := TopOf(s[bit / 32], bit % 32) % 2;
  }

  /** One more bit from the top. */
  lemma NextBit(d: u32, b: nat)
    ensures TopOf(d, b) == 2 * TopOf(d, b + 1) + BitOf(d, b)
  {
  }

  lemma {:induction false} TopBound(d: u32, b: nat, w: nat)
    requires b <= w && d < Pow2(w)
    ensures TopOf(d, b) < Pow2(w - b)
  {
    if b > 0 {
      TopBound(d, b - 1, w);
      assert Pow2(w - b + 1) == 2 * Pow2(w - b);
    }
  }

  lemma SmallPowers(one: nat)
    requires one == 1
    ensures Pow2(one) == 2 && Pow2(one + 1) == 4 && Pow2(one + 2) == 8
  {
    assert Pow2(one) == 2 * Pow2(one - 1);
    assert Pow2(one + 1) == 2 * Pow2(one);
    assert Pow2(one + 2) == 2 * Pow2(one + 1);
  }

  /** `b0 | b1 << 1 | b2 << 2 | b3 << 3`. */
  method JoinUp(b0: u32, b1: u32, b2: u32, b3: u32) returns (index: u32)
    requires b0 <= 1 && b1 <= 1 && b2 <= 1 && b3 <= 1
    ensures index == b0 + 2 * b1 + 4 * b2 + 8 * b3
  {
    ghost var one := 1;
    SmallPowers(one);
    OrStep(b0, b1, one, 2);
    index := Or(b0, b1 * 2);
    OrStep(index, b2, one + 1, 4);
    index := Or(index, b2 * 4);
    OrStep(index, b3, one + 2, 8);
    index := Or(index, b3 * 8);
  }

  /** `high << k | low`, for a low part below bit k. */
  method OrBelow(high: u32, low: u32, p: u32, ghost k: nat) returns (r: u32)
    requires p == Pow2(k) && low < p && high * p < 0x100 && p <= 8
    ensures r == high * p + low
  {
    OrStep(low, high, k, p);
    r := Or(high * p, low);
  }

  /** `b3 << 3 | b2 << 2 | b1 << 1 | b0`. */
  method JoinDown(b3: u32, b2: u32, b1: u32, b0: u32) returns (index: u32)
    requires b0 <= 1 && b1 <= 1 && b2 <= 1 && b3 <= 1
    ensures index == b0 + 2 * b1 + 4 * b2 + 8 * b3
  {
    ghost var one := 1;
    SmallPowers(one);
    index := OrBelow(b3, b2 * 4, 8, one + 2);
    index := OrBelow(b3 * 2 + b2, b1 * 2, 4, one + 1);
    index := OrBelow(b3 * 4 + b2 * 2 + b1, b0, 2, one);
  }

  // ---- the comb ----------------------------------------------------------------------------------

  function NibbleBit(i: nat, j: nat): (b: u32)
    ensures b <= 1
  {
    if j == 0 then i % 2 else NibbleBit(i / 2, j - 1)
  }

  /** The base-2^32 digits of entry i of half h of the fixed table: bit j of i counts
      2^(64j + 32h). */
  ghost function CombDigits(h: nat, i: nat): (s: seq<u32>)
    ensures |s| == 8
  {
    seq(8, k requires 0 <= k < 8 => if k % 2 == h then NibbleBit(i, k / 2) else 0)
  }

  /** The table holds the multiples its comment lists. */
  ghost predicate EntryOk(c: Curve, table: seq<u32>, h: nat, i: nat)
    requires |table| == 540 && h < 2 && 1 <= i < 16
  {
    var x, y := Limbs(table, 270 * h + 18 * (i - 1)), Limbs(table, 270 * h + 18 * (i - 1) + 9);
    Tight(x) && Tight(y) && IsMultiple(c, Jac(Value(x) * RINV, Value(y) * RINV, 1), Nat(CombDigits(h, i)))
  }

  ghost predicate TableOk(c: Curve, table: seq<u32>) {
    && |table| == 540
    && forall h: nat, i: nat :: h < 2 && 1 <= i < 16 ==> EntryOk(c, table, h, i)
  }

  /** Each digit of the scalar without its low b bits. */
  ghost function Tops(s: seq<u32>, b: nat): (t: seq<u32>)
    requires |s| == 8
    ensures |t| == 8
  {
    seq(8, k requires 0 <= k < 8 => TopOf(s[k], b))
  }

  /** The digits accumulated in round i before half h: doubled, with the bits of the halves
      below h already added. */
  ghost function Partial(s: seq<u32>, i: nat, h: nat): (t: seq<int>)
    requires |s| == 8 && i < 32
    ensures |t| == 8
  {
    seq(8, k requires 0 <= k < 8 => if k % 2 < h then TopOf(s[k], 31 - i) else 2 * TopOf(s[k], 32 - i))
  }

  /** index holds bit 31 - i of the four digits of half h. */
  ghost predicate CombIndexed(s: seq<u32>, i: nat, h: nat, index: nat)
    requires |s| == 8 && i < 32
  {
    index < 16 && forall k :: 0 <= k < 8 && k % 2 == h ==> NibbleBit(index, k / 2) == BitOf(s[k], 31 - i)
  }

  method CombIndex(scalar: array<u32>, i: nat, h: nat) returns (index: u32)
    requires scalar.Length == 8 && i < 32 && h < 2
    ensures CombIndexed(scalar[..], i, h, index)
  {
    var b0 := GetBit(scalar, 31 - i + 32 * h, h, 31 - i);
    var b1 := GetBit(scalar, 95 - i + 32 * h, h + 2, 31 - i);
    var b2 := GetBit(scalar, 159 - i + 32 * h, h + 4, 31 - i);
    var b3 := GetBit(scalar, 223 - i + 32 * h, h + 6, 31 - i);
    index := JoinUp(b0, b1, b2, b3);
    NibbleBits(b0, b1, b2, b3, index);
    IndexedFrom(scalar[..], i, h, index);
  }

  lemma IndexedFrom(s: seq<u32>, i: nat, h: nat, index: nat)
    requires |s| == 8 && i < 32 && h < 2 && index < 16
    requires NibbleBit(index, 0) == BitOf(s[h], 31 - i) && NibbleBit(index, 1) == BitOf(s[h + 2], 31 - i)
    requires NibbleBit(index, 2) == BitOf(s[h + 4], 31 - i) && NibbleBit(index, 3) == BitOf(s[h + 6], 31 - i)
    ensures CombIndexed(s, i, h, index)
  {
    forall k | 0 <= k < 8 && k % 2 == h
      ensures NibbleBit(index, k / 2) == BitOf(s[k], 31 - i)
    {
      assert k == h || k == h + 2 || k == h + 4 || k == h + 6;
    }
  }

  lemma NibbleBits(b0: u32, b1: u32, b2: u32, b3: u32, index: u32)
    requires b0 <= 1 && b1 <= 1 && b2 <= 1 && b3 <= 1 && index == b0 + 2 * b1 + 4 * b2 + 8 * b3
    ensures NibbleBit(index, 0) == b0 && NibbleBit(index, 1) == b1 && NibbleBit(index, 2) == b2 && NibbleBit(index, 3) == b3
  {
    var i1, i2, i3 := b1 + 2 * b2 + 4 * b3, b2 + 2 * b3, b3;
    assert index / 2 == i1 && i1 / 2 == i2 && i2 / 2 == i3;
    assert NibbleBit(i3, 0) == b3;
    assert NibbleBit(i2, 0) == b2 && NibbleBit(i2, 1) == b3;
    assert NibbleBit(i1, 0) == b1 && NibbleBit(i1, 1) == b2 && NibbleBit(i1, 2) == b3;
  }

  lemma {:induction false} NibbleSet(i: nat, n: nat) returns (j: nat)
    requires 0 < i < Pow2(n)
    ensures j < n && NibbleBit(i, j) == 1
  {
    if i % 2 == 1 {
      j := 0;
    } else {
      var l := NibbleSet(i / 2, n - 1);
      j := l + 1;
    }
  }

  lemma {:induction false} NibbleClear(j: nat)
    ensures NibbleBit(0, j) == 0
  {
    if j > 0 {
      NibbleClear(j - 1);
    }
  }

  /** A table entry is zero only at index 0; elsewhere some digit of its half is one. */
  lemma CombNonZero(h: nat, index: nat, two: nat) returns (k: nat)
    requires h < 2 && index < 16 && two == 2
    ensures index == 0 <==> Nat(CombDigits(h, index)) == 0
    ensures index != 0 ==> k < 8 && k % 2 == h && CombDigits(h, index)[k] == 1
  {
    var add := CombDigits(h, index);
    NonZeroNat(add);
    k := 0;
    if index == 0 {
      forall k | 0 <= k < 8
        ensures add[k] == 0
      {
        NibbleClear(k / 2);
      }
    } else {
      assert Pow2(two) == 4 by {
        assert Pow2(two) == 2 * Pow2(two - 1) && Pow2(two - 1) == 2 * Pow2(two - 2);
      }
      Pow2Add(two, two);
      var j := NibbleSet(index, two + two);
      k := 2 * j + h;
      assert k / 2 == j && k % 2 == h;
      assert add[k] == 1;
    }
  }

  /** Digitwise order is order. */
  lemma {:induction false} NatMono(x: seq<int>, y: seq<int>)
    requires |x| == |y| && forall k :: 0 <= k < |x| ==> x[k] <= y[k]
    ensures Nat(x) <= Nat(y)
  {
    if x != [] {
      var i := |x| - 1;
      NatMono(x[..i], y[..i]);
      BasePositive(i);
      assert x[i] * Base(i) <= y[i] * Base(i);
    }
  }

  /** Adding a half of a round: digit by digit, the table entry fills the bit the doubling
      left empty. */
  lemma PartialDigit(s: seq<u32>, i: nat, h: nat, index: nat, k: nat)
    requires |s| == 8 && i < 32 && h < 2 && CombIndexed(s, i, h, index) && k < 8
    ensures Partial(s, i, h + 1)[k] == Partial(s, i, h)[k] + CombDigits(h, index)[k]
    ensures 0 <= Partial(s, i, h)[k] <= Partial(s, i, h + 1)[k] <= s[k]
    ensures k % 2 == h ==> Partial(s, i, h)[k] % 2 == 0
  {
    var b := 31 - i;
    NextBit(s[k], b);
    assert Partial(s, i, h)[k] == if k % 2 < h then TopOf(s[k], b) else 2 * TopOf(s[k], b + 1);
    assert Partial(s, i, h + 1)[k] == if k % 2 <= h then TopOf(s[k], b) else 2 * TopOf(s[k], b + 1);
    assert CombDigits(h, index)[k] == if k % 2 == h then BitOf(s[k], b) else 0;
  }

  lemma CombDistinct(acc: seq<u32>, add: seq<u32>, k: nat)
    requires |acc| == |add| && k < |acc| && acc[k] % 2 == 0 && add[k] == 1
    ensures Nat(acc) != Nat(add)
  {
    if Nat(acc) == Nat(add) {
      NatUnique(acc, add);
    }
  }

  /** The comb never meets equal or opposite points: every digit it adds to is even, and
      what it has after adding is at most the scalar. */
  lemma CombStep(s: seq<u32>, i: nat, h: nat, index: nat)
    requires |s| == 8 && i < 32 && h < 2 && CombIndexed(s, i, h, index)
    ensures Nat(Partial(s, i, h + 1)) == Nat(Partial(s, i, h)) + Nat(CombDigits(h, index))
    ensures 0 <= Nat(Partial(s, i, h)) && 0 <= Nat(CombDigits(h, index)) && Nat(Partial(s, i, h + 1)) <= Nat(s)
    ensures index == 0 <==> Nat(CombDigits(h, index)) == 0
    ensures index != 0 ==> Nat(Partial(s, i, h)) != Nat(CombDigits(h, index))
  {
    var acc, add, sum := Partial(s, i, h), CombDigits(h, index), Partial(s, i, h + 1);
    forall k: nat | k < 8
      ensures sum[k] == acc[k] + add[k] && 0 <= acc[k] <= sum[k] <= s[k]
      ensures k % 2 == h ==> acc[k] % 2 == 0
    {
      PartialDigit(s, i, h, index, k);
    }
    NatAdd(acc, add, sum);
    NatMono(sum, s);
    NatBound(acc);
    NatBound(add);
    var two := 2;
    var k := CombNonZero(h, index, two);
    if index != 0 {
      CombDistinct(acc, add, k);
    }
  }

  /** The rounds join up: doubling opens a round, its second half closes it. */
  lemma RoundEnds(s: seq<u32>, i: nat)
    requires |s| == 8 && i < 32
    ensures Nat(Partial(s, i, 0)) == 2 * Nat(Tops(s, 32 - i))
    ensures Partial(s, i, 2) == Tops(s, 31 - i)
  {
    var b, t := Tops(s, 32 - i), Partial(s, i, 0);
    assert forall k :: 0 <= k < 8 ==> t[k] == b[k] * 2;
    NatScale(2, b, t);
  }

  lemma TopsEnd(s: seq<u32>)
    requires |s| == 8
    ensures Tops(s, 0) == s
  {
  }

  lemma TopsStart(s: seq<u32>, w: nat)
    requires |s| == 8 && w == 32
    ensures Nat(Tops(s, w)) == 0
  {
    Pow2Thirty2(w);
    forall k | 0 <= k < 8
      ensures Tops(s, w)[k] == 0
    {
      TopBound(s[k], w, w);
    }
    ZeroNat(Tops(s, w));
  }

  method CombEntry(table: seq<u32>, h: nat, index: u32, ghost c: Curve)
    returns (x: seq<u32>, y: seq<u32>, ghost wx: int, ghost wy: int)
    requires TableOk(c, table) && h < 2 && index < 16
    ensures Kept(x, wx) && Kept(y, wy)
    ensures index == 0 ==> wx == wy == 0
    ensures index != 0 ==> IsMultiple(c, Jac(wx, wy, 1), Nat(CombDigits(h, index)))
  {
    x, y := SelectAffine(table, 270 * h, index);
    wx, wy := 0, 0;
    if index == 0 {
      ConstantFelems();
    } else {
      assert EntryOk(c, table, h, index);
      wx, wy := Value(x) * RINV, Value(y) * RINV;
      CongRefl(wx, P);
      CongRefl(wy, P);
    }
  }

  /** One pass of the inner loop of scalar_base_mult, from a to k. */
  method CombHalf(n: Point, table: seq<u32>, scalar: array<u32>, i: nat, h: nat, inf: u32, ghost c: Curve, ghost v: Jac,
                  ghost a: int, ghost k: int)
    returns (next: u32, ghost r: Jac)
    requires GroupLaw(c) && TableOk(c, table) && scalar.Length == 8 && Nat(scalar[..]) < N && i < 32 && h < 2
    requires a == Nat(Partial(scalar[..], i, h)) && k == Nat(Partial(scalar[..], i, h + 1))
    requires n.Keeps(v) && Accumulates(c, v, inf, a, 1)
    modifies n
    ensures n.Keeps(r) && Accumulates(c, r, next, k, 1)
    ensures k == 0 ==> r == Jac(0, 0, 1)
  {
    var index := CombIndex(scalar, i, h);
    CombStep(scalar[..], i, h, index);
    ghost var b := Nat(CombDigits(h, index));
    var x, y, wx, wy := CombEntry(table, h, index, c);
    if index != 0 {
      TimesOne(b);
    }
    next, r := AddAffine(n, x, y, index, inf, c, v, wx, wy, a, b, k);
  }

  /** The numbers a round passes through: doubled, with the low half, with both halves. */
  lemma RoundNumbers(s: seq<u32>, i: nat) returns (k0: int, k1: int)
    requires |s| == 8 && i < 32
    ensures k0 == Nat(Partial(s, i, 0)) == 2 * Nat(Tops(s, 32 - i)) <= Nat(s)
    ensures k1 == Nat(Partial(s, i, 1)) && Nat(Partial(s, i, 2)) == Nat(Tops(s, 31 - i))
  {
    RoundEnds(s, i);
    PartialBound(s, i);
    k0, k1 := Nat(Partial(s, i, 0)), Nat(Partial(s, i, 1));
  }

  /** One round: a doubling and both halves. */
  method CombRound(n: Point, table: seq<u32>, scalar: array<u32>, i: nat, inf: u32, ghost c: Curve, ghost v: Jac,
                   ghost a: int, ghost k: int)
    returns (next: u32, ghost r: Jac)
    requires GroupLaw(c) && TableOk(c, table) && scalar.Length == 8 && Nat(scalar[..]) < N && i < 32
    requires a == Nat(Tops(scalar[..], 32 - i)) && k == Nat(Tops(scalar[..], 31 - i)) && (i == 0 ==> a == 0)
    requires n.Keeps(v) && Accumulates(c, v, inf, a, 1)
    modifies n
    ensures n.Keeps(r) && Accumulates(c, r, next, k, 1)
    ensures k == 0 ==> r == Jac(0, 0, 1)
  {
    ghost var k0, k1 := RoundNumbers(scalar[..], i);
    r := v;
    if i > 0 {
      r := DoublePoint(n, c, r, inf, a, k0, 1);
    }
    next, r := CombHalves(n, table, scalar, i, inf, c, r, k0, k1, k);
  }

  /** The inner loop. */
  method CombHalves(n: Point, table: seq<u32>, scalar: array<u32>, i: nat, inf: u32, ghost c: Curve, ghost v: Jac,
                    ghost k0: int, ghost k1: int, ghost k: int)
    returns (next: u32, ghost r: Jac)
    requires GroupLaw(c) && TableOk(c, table) && scalar.Length == 8 && Nat(scalar[..]) < N && i < 32
    requires k0 == Nat(Partial(scalar[..], i, 0)) && k1 == Nat(Partial(scalar[..], i, 1)) && k == Nat(Partial(scalar[..], i, 2))
    requires n.Keeps(v) && Accumulates(c, v, inf, k0, 1)
    modifies n
    ensures n.Keeps(r) && Accumulates(c, r, next, k, 1)
    ensures k == 0 ==> r == Jac(0, 0, 1)
  {
    next, r := CombHalf(n, table, scalar, i, 0, inf, c, v, k0, k1);
    next, r := CombHalf(n, table, scalar, i, 1, next, c, r, k1, k);
  }

  /** scalar_base_mult: the comb ends at exactly scalar times the base point. For scalar 0
      it leaves the coordinates (0, 0, 1), which are not on the curve. */
  method ScalarBaseMult(table: seq<u32>, scalar: array<u32>, ghost c: Curve) returns (n: Point, ghost v: Jac)
    requires GroupLaw(c) && TableOk(c, table) && scalar.Length == 8 && Nat(scalar[..]) < N
    ensures fresh(n) && n.Keeps(v)
    ensures Nat(scalar[..]) > 0 ==> IsMultiple(c, v, Nat(scalar[..]))
    ensures Nat(scalar[..]) == 0 ==> v == Jac(0, 0, 1)
  {
    ghost var s := scalar[..];
    NumBound(s);
    ConstantFelems();
    n := new Point(ZERO9, ZERO9, ZERO9);
    v := Jac(0, 0, 0);
    var inf: u32 := 0xffff_ffff;
    ghost var w := 32;
    TopsStart(s, w);
    ghost var k := 0;
    for i := 0 to 32
      invariant k == Nat(Tops(s, 32 - i)) && (i == 0 ==> k == 0)
      invariant n.Keeps(v) && Accumulates(c, v, inf, k, 1)
      invariant i > 0 && k == 0 ==> v == Jac(0, 0, 1)
    {
      ghost var a := k;
      k := Nat(Tops(s, 31 - i));
      inf, v := CombRound(n, table, scalar, i, inf, c, v, a, k);
    }
    TopsEnd(s);
    TimesOne(Nat(s));
  }

  lemma PartialBound(s: seq<u32>, i: nat)
    requires |s| == 8 && i < 32
    ensures Nat(Partial(s, i, 0)) <= Nat(s)
  {
    forall k | 0 <= k < 8
      ensures Partial(s, i, 0)[k] <= s[k]
    {
      NextBit(s[k], 31 - i);
      assert Partial(s, i, 0)[k] == 2 * TopOf(s[k], 32 - i);
    }
    NatMono(Partial(s, i, 0), s);
  }

  // ---- the window --------------------------------------------------------------------------------

  /** The scalar without its low m bits, read bit by bit from the top. */
  ghost function Above(s: seq<u32>, m: nat): int
    requires m <= 32 * |s|
    decreases 32 * |s| - m
  {
    if m == 32 * |s| then 0 else 2 * Above(s, m + 1) + BitOf(s[m / 32], m % 32)
  }

  lemma AboveStep(s: seq<u32>, t: nat, b: nat)
    requires t < |s| && b < 32
    ensures Above(s, 32 * t + b) == 2 * Above(s, 32 * t + b + 1) + BitOf(s[t], b)
  {
    var m := 32 * t + b;
    assert m / 32 == t && m % 32 == b;
  }

  lemma DoubleTerm(v: int, p: int, t: int, b: int, u: int)
    requires t == 2 * u + b
    ensures 2 * (v * p + u) + b == v * (2 * p) + t
  {
  }

  lemma {:induction false} AboveValue(s: seq<u32>, t: nat, b: nat, w: nat)
    requires t < |s| && b < 32 == w
    ensures Above(s, 32 * t + b) == Nat(s[t + 1..]) * Pow2(w - b) + TopOf(s[t], b)
    decreases |s| - t, w - b
  {
    AboveStep(s, t, b);
    NextBit(s[t], b);
    if b < 31 {
      AboveValue(s, t, b + 1, w);
      DoubleTerm(Nat(s[t + 1..]), Pow2(w - b - 1), TopOf(s[t], b), BitOf(s[t], b), TopOf(s[t], b + 1));
    } else {
      AboveDigit(s, t, w);
      assert Pow2(w - b) == 2 * Pow2(w - b - 1);
    }
  }

  /** Between digits: everything from digit t + 1 on. */
  lemma {:induction false} AboveDigit(s: seq<u32>, t: nat, w: nat)
    requires t < |s| && w == 32
    ensures Above(s, 32 * t + 32) == Nat(s[t + 1..]) && TopOf(s[t], 32) == 0
    decreases |s| - t, 0
  {
    Pow2Thirty2(w);
    TopBound(s[t], w, w);
    if t + 1 == |s| {
      assert s[t + 1..] == [];
    } else {
      AboveValue(s, t + 1, 0, w);
      assert s[t + 1..] == [s[t + 1]] + s[t + 2..];
      NatCons(s[t + 1], s[t + 2..]);
    }
  }

  lemma AboveAll(s: seq<u32>)
    requires |s| > 0
    ensures Above(s, 0) == Nat(s)
  {
    var w := 32;
    AboveValue(s, 0, 0, w);
    Pow2Thirty2(w);
    assert s == [s[0]] + s[1..];
    NatCons(s[0], s[1..]);
  }

  lemma {:induction false} AbovePositive(s: seq<u32>, m: nat)
    requires m <= 32 * |s|
    ensures Above(s, m) >= 0
    decreases 32 * |s| - m
  {
    if m < 32 * |s| {
      AbovePositive(s, m + 1);
    }
  }

  lemma {:induction false} AboveMono(s: seq<u32>, m: nat)
    requires m <= 32 * |s|
    ensures Above(s, m) <= Above(s, 0)
  {
    if m > 0 {
      AboveMono(s, m - 1);
      AbovePositive(s, m);
    }
  }

  /** What a window reads: sixteen times what was read before, plus the index. */
  lemma AboveWindow(s: seq<u32>, m: nat, t: nat, b: nat)
    requires |s| == 8 && m == 32 * t + b && t < 8 && b <= 28
    ensures Above(s, m) == 16 * Above(s, m + 4) + 8 * BitOf(s[t], b + 3) + 4 * BitOf(s[t], b + 2) + 2 * BitOf(s[t], b + 1) + BitOf(s[t], b)
    ensures 0 <= Above(s, m + 4) && Above(s, m) <= Nat(s)
  {
    AboveStep(s, t, b);
    AboveStep(s, t, b + 1);
    AboveStep(s, t, b + 2);
    AboveStep(s, t, b + 3);
    AbovePositive(s, m + 4);
    AboveMono(s, m);
    AboveAll(s);
  }

  lemma WindowPlace(m: nat, j: nat)
    requires m == 4 * j < 256
    ensures m == 32 * (m / 32) + m % 32 && m / 32 < 8 && m % 32 <= 28
  {
    var t, b := m / 32, m % 32;
    assert b == 4 * (j - 8 * t);
  }

  /** The next four bits of the scalar, of which m are still below them. */
  method WindowIndex(scalar: array<u32>, m: nat, ghost j: nat) returns (index: u32)
    requires scalar.Length == 8 && m == 4 * j < 256
    ensures index < 16 && Above(scalar[..], m) == 16 * Above(scalar[..], m + 4) + index
    ensures 0 <= Above(scalar[..], m + 4) && Above(scalar[..], m) <= Nat(scalar[..])
  {
    WindowPlace(m, j);
    ghost var t, b := m / 32, m % 32;
    AboveWindow(scalar[..], m, t, b);
    var b3 := GetBit(scalar, m + 3, t, b + 3);
    var b2 := GetBit(scalar, m + 2, t, b + 2);
    var b1 := GetBit(scalar, m + 1, t, b + 1);
    var b0 := GetBit(scalar, m, t, b);
    index := JoinDown(b3, b2, b1, b0);
  }

  ghost predicate EntryIs(e: Entry, v: Jac) {
    Kept(e.x, v.x) && Kept(e.y, v.y) && Kept(e.z, v.z)
  }

  /** Rows 1 to n - 1 of the table are the multiples of the point of index d. */
  ghost predicate Rows(c: Curve, table: seq<Entry>, g: seq<Jac>, n: nat, d: int)
    requires |table| == |g| == 16
  {
    forall i :: 1 <= i < n && i < 16 ==> EntryIs(table[i], g[i]) && IsMultiple(c, g[i], Times(i, d))
  }

  lemma RowsStep(c: Curve, table: seq<Entry>, g: seq<Jac>, j: nat, d: int, even: Entry, odd: Entry, v: Jac, w: Jac)
    requires |table| == |g| == 16 && 1 <= j < 8 && Rows(c, table, g, 2 * j, d)
    requires EntryIs(even, v) && IsMultiple(c, v, Times(2 * j, d)) && EntryIs(odd, w) && IsMultiple(c, w, Times(2 * j + 1, d))
    ensures Rows(c, table[2 * j := even][2 * j + 1 := odd], g[2 * j := v][2 * j + 1 := w], 2 * j + 2, d)
  {
  }

  /** An even row: twice the row of half its index. */
  method PrecomputeEven(half: Entry, ghost c: Curve, ghost u: Jac, ghost k: nat, ghost d: int) returns (even: Entry, ghost v: Jac)
    requires GroupLaw(c) && 0 < d < N && 1 <= k < 8 && EntryIs(half, u) && IsMultiple(c, u, Times(k, d))
    ensures EntryIs(even, v) && IsMultiple(c, v, Times(2 * k, d))
  {
    var p := new Point(half.x, half.y, half.z);
    Double(p, p, u);
    v := Doubled(u);
    DoubleOfMultiple(k, d);
    even := Entry(p.x, p.y, p.z);
  }

  /** An odd row: the point added to the row before. */
  method PrecomputeOdd(even: Entry, x: seq<u32>, y: seq<u32>, ghost c: Curve, ghost v: Jac, ghost vx: int, ghost vy: int,
                       ghost k: nat, ghost d: int)
    returns (odd: Entry, ghost w: Jac)
    requires GroupLaw(c) && 0 < d < N && 1 <= k < 8 && EntryIs(even, v) && IsMultiple(c, v, Times(2 * k, d))
    requires Kept(x, vx) && Kept(y, vy) && IsMultiple(c, Jac(vx, vy, 1), d)
    ensures EntryIs(odd, w) && IsMultiple(c, w, Times(2 * k + 1, d))
  {
    var q := new Point(even.x, even.y, even.z);
    var p := new Point(x, x, x);
    AddMixed(p, q, x, y, v, vx, vy);
    w := AddedMixed(v, vx, vy);
    OneTimes(d);
    UnrelatedMultiples(2 * k, 1, d);
    SumOfMultiples(2 * k, 1, d);
    odd := Entry(p.x, p.y, p.z);
  }

  lemma HalfOf(i: nat, j: nat)
    requires i == 2 * j
    ensures i / 2 == j
  {
  }

  method PrecomputeRows(table: seq<Entry>, i: nat, x: seq<u32>, y: seq<u32>, ghost g: seq<Jac>,
                        ghost c: Curve, ghost vx: int, ghost vy: int, ghost j: nat, ghost d: int)
    returns (next: seq<Entry>, ghost h: seq<Jac>)
    requires GroupLaw(c) && 0 < d < N && i == 2 * j && 1 <= j < 8
    requires Kept(x, vx) && Kept(y, vy) && IsMultiple(c, Jac(vx, vy, 1), d)
    requires |table| == |g| == 16 && Rows(c, table, g, i, d) && Sized(table[0])
    ensures |next| == |h| == 16 && Rows(c, next, h, i + 2, d) && Sized(next[0])
  {
    HalfOf(i, j);
    var half := table[i / 2];
    var even, v := PrecomputeEven(half, c, g[j], j, d);
    var odd, w := PrecomputeOdd(even, x, y, c, v, vx, vy, j, d);
    RowsStep(c, table, g, j, d, even, odd, v, w);
    next := table[i := even][i + 1 := odd];
    h := g[i := v][i + 1 := w];
  }

  lemma FirstRow(c: Curve, table: seq<Entry>, g: seq<Jac>, e: Entry, v: Jac, d: int)
    requires |table| == |g| == 16 && table[1] == e && g[1] == v
    requires 0 < d < N && EntryIs(e, v) && IsMultiple(c, v, d)
    ensures Rows(c, table, g, 2, d)
  {
    OneTimes(d);
  }

  /** The table of scalar_mult: 0, 1, ..., 15 times the point. */
  method Precompute(x: seq<u32>, y: seq<u32>, ghost c: Curve, ghost vx: int, ghost vy: int, ghost d: int)
    returns (table: seq<Entry>, ghost g: seq<Jac>)
    requires GroupLaw(c) && 0 < d < N
    requires Kept(x, vx) && Kept(y, vy) && IsMultiple(c, Jac(vx, vy, 1), d)
    ensures |table| == |g| == 16 && Rows(c, table, g, 16, d) && Sized(table[0])
  {
    ConstantFelems();
    table := seq(16, _ => Entry(ZERO9, ZERO9, ZERO9));
    g := seq(16, _ => Jac(0, 0, 0));
    table := table[1 := Entry(x, y, KONE)];
    g := g[1 := Jac(vx, vy, 1)];
    FirstRow(c, table, g, Entry(x, y, KONE), Jac(vx, vy, 1), d);
    var i := 2;
    ghost var j: nat := 1;
    while i < 16
      invariant i == 2 * j && 1 <= j <= 8
      invariant |table| == |g| == 16 && Rows(c, table, g, i, d) && Sized(table[0])
    {
      table, g := PrecomputeRows(table, i, x, y, g, c, vx, vy, j, d);
      i, j := i + 2, j + 1;
    }
  }

  method DoubleFour(n: Point, ghost c: Curve, ghost v: Jac, ghost inf: u32, ghost a: int, ghost d: int) returns (ghost r: Jac)
    requires GroupLaw(c) && 0 < d < N && n.Keeps(v) && Accumulates(c, v, inf, a, d) && 16 * a < N
    modifies n
    ensures n.Keeps(r) && Accumulates(c, r, inf, 16 * a, d)
  {
    r := DoublePoint(n, c, v, inf, a, 2 * a, d);
    r := DoublePoint(n, c, r, inf, 2 * a, 4 * a, d);
    r := DoublePoint(n, c, r, inf, 4 * a, 8 * a, d);
    r := DoublePoint(n, c, r, inf, 8 * a, 16 * a, d);
  }

  method WindowEntry(table: seq<Entry>, index: u32, ghost c: Curve, ghost g: seq<Jac>, ghost d: int)
    returns (p: Point, ghost w: Jac)
    requires |table| == |g| == 16 && Rows(c, table, g, 16, d) && Sized(table[0]) && index < 16
    ensures fresh(p) && p.Keeps(w)
    ensures index == 0 ==> w == Jac(0, 0, 0)
    ensures index != 0 ==> IsMultiple(c, w, Times(index, d))
  {
    var e := SelectJacobian(table, index);
    ConstantFelems();
    w := if index == 0 then Jac(0, 0, 0) else g[index];
    p := new Point(e.x, e.y, e.z);
  }

  /** One round of scalar_mult, from a = scalar >> (m + 4) to k = scalar >> m. */
  method WindowStep(n: Point, table: seq<Entry>, scalar: array<u32>, m: nat, first: bool, inf: u32,
                    ghost j: nat, ghost a: int, ghost k: int, ghost c: Curve, ghost g: seq<Jac>, ghost d: int, ghost v: Jac)
    returns (next: u32, ghost r: Jac)
    requires GroupLaw(c) && 0 < d < N && scalar.Length == 8 && Nat(scalar[..]) < N && m == 4 * j < 256
    requires |table| == |g| == 16 && Rows(c, table, g, 16, d) && Sized(table[0])
    requires a == Above(scalar[..], m + 4) && k == Above(scalar[..], m) && (first ==> a == 0)
    requires n.Keeps(v) && Accumulates(c, v, inf, a, d)
    modifies n
    ensures n.Keeps(r) && Accumulates(c, r, next, k, d)
    ensures k == 0 ==> r == Jac(0, 0, 0)
  {
    var index := WindowIndex(scalar, m, j);
    r := v;
    if !first {
      r := DoubleFour(n, c, v, inf, a, d);
    }
    var p, w := WindowEntry(table, index, c, g, d);
    next, r := AddEntry(n, p, index, inf, c, r, w, 16 * a, index, k, d);
  }

  /** The sixty-four rounds, from an accumulator at infinity. */
  method WindowLoop(table: seq<Entry>, scalar: array<u32>, ghost c: Curve, ghost g: seq<Jac>, ghost d: int)
    returns (n: Point, ghost v: Jac, inf: u32, ghost k: int)
    requires GroupLaw(c) && 0 < d < N && scalar.Length == 8 && Nat(scalar[..]) < N
    requires |table| == |g| == 16 && Rows(c, table, g, 16, d) && Sized(table[0])
    ensures k == Above(scalar[..], 0) && fresh(n) && n.Keeps(v) && Accumulates(c, v, inf, k, d)
    ensures k == 0 ==> v == Jac(0, 0, 0)
  {
    ghost var s := scalar[..];
    ConstantFelems();
    n := new Point(ZERO9, ZERO9, ZERO9);
    v := Jac(0, 0, 0);
    inf := 0xffff_ffff;
    var i := 0;
    ghost var left: int := 64;
    k := 0;
    while i < 256
      invariant 0 <= left && i == 256 - 4 * left
      invariant k == Above(s, 4 * left) && (i == 0 ==> k == 0)
      invariant n.Keeps(v) && Accumulates(c, v, inf, k, d)
      invariant k == 0 ==> v == Jac(0, 0, 0)
    {
      left := left - 1;
      ghost var a := k;
      k := Above(s, 4 * left);
      inf, v := WindowStep(n, table, scalar, 252 - i, i == 0, inf, left, a, k, c, g, d, v);
      i := i + 4;
    }
  }

  /** scalar_mult: the window ends at exactly scalar times the point. */
  method ScalarMul(x: seq<u32>, y: seq<u32>, scalar: array<u32>, ghost c: Curve, ghost vx: int, ghost vy: int, ghost d: int)
    returns (n: Point, ghost v: Jac)
    requires GroupLaw(c) && 0 < d < N && scalar.Length == 8 && Nat(scalar[..]) < N
    requires Kept(x, vx) && Kept(y, vy) && IsMultiple(c, Jac(vx, vy, 1), d)
    ensures fresh(n) && n.Keeps(v)
    ensures Nat(scalar[..]) > 0 ==> IsMultiple(c, v, Times(Nat(scalar[..]), d))
    ensures Nat(scalar[..]) == 0 ==> v == Jac(0, 0, 0)
  {
    NumBound(scalar[..]);
    AboveAll(scalar[..]);
    var table, g := Precompute(x, y, c, vx, vy, d);
    var inf;
    ghost var k;
    n, v, inf, k := WindowLoop(table, scalar, c, g, d);
  }
}
