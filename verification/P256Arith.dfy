/** Comparison, sums, differences and shifts of 256-bit integers (p256.c). */
module P256Arith {
  import opened Words
  import opened Modular
  import opened Bits
  import opened Digits
  import opened P256

  /** p256_add: c = a + b, returns the carry. c may be null, a or b. */
  method Add(a: array<u32>, b: array<u32>, c: array?<u32>) returns (carry: u32)
    requires a.Length == 8 && b.Length == 8 && (c != null ==> c.Length == 8)
    modifies c
    ensures carry <= 1
    ensures c != null ==> Nat(c[..]) + carry * TWO_256 == old(Nat(a[..]) + Nat(b[..]))
    ensures carry == 1 <==> old(Nat(a[..]) + Nat(b[..])) >= TWO_256
  {
    ghost var x, y := a[..], b[..];
    ghost var z: seq<int> := seq(8, k requires 0 <= k < 8 => x[k] as int + y[k] as int);
    ghost var o: seq<u32> := [];
    carry := 0;
    for i := 0 to 8
      invariant carry <= 1
      invariant forall k :: i <= k < 8 ==> a[k] == x[k] && b[k] == y[k]
      invariant |o| == i && (c != null ==> c[..i] == o) && Chain(o, z, carry)
    {
      ghost var before := carry;
      assert a[i] == x[i] && b[i] == y[i];
      var low;
      low, carry := Carry(carry as int + a[i] as int + b[i] as int);
      if c != null {
        c[i] := low;
      }
      ChainDigit(o, z, before, low, carry);
      o := o + [low];
    }
    assert c != null ==> c[..] == o;
    ChainSum(o, z, carry, x, y);
    NumBound(o);
  }

  /** p256_sub: c = a - b, returns the borrow, 0 or -1. c may be null, a or b. */
  method Sub(a: array<u32>, b: array<u32>, c: array?<u32>) returns (borrow: int)
    requires a.Length == 8 && b.Length == 8 && (c != null ==> c.Length == 8)
    modifies c
    ensures borrow == if old(Nat(a[..]) < Nat(b[..])) then -1 else 0
    ensures c != null ==> Nat(c[..]) + borrow * TWO_256 == old(Nat(a[..]) - Nat(b[..]))
  {
    ghost var x, y := a[..], b[..];
    ghost var z: seq<int> := seq(8, k requires 0 <= k < 8 => x[k] as int - y[k] as int);
    ghost var o: seq<u32> := [];
    borrow := 0;
    for i := 0 to 8
      invariant -1 <= borrow <= 0
      invariant forall k :: i <= k < 8 ==> a[k] == x[k] && b[k] == y[k]
      invariant |o| == i && (c != null ==> c[..i] == o) && Chain(o, z, borrow)
    {
      ghost var before := borrow;
      assert a[i] == x[i] && b[i] == y[i];
      var low;
      low, borrow := Borrow(borrow + a[i] as int - b[i] as int);
      if c != null {
        c[i] := low;
      }
      ChainDigit(o, z, before, low, borrow);
      o := o + [low];
    }
    assert c != null ==> c[..] == o;
    ChainDiff(o, z, borrow, x, y);
    NumBound(o);
    NumBound(x);
    NumBound(y);
  }

  lemma {:induction false} NonZeroNat(s: seq<u32>)
    ensures Nat(s) == 0 <==> forall k :: 0 <= k < |s| ==> s[k] == 0
  {
    if forall k :: 0 <= k < |s| ==> s[k] == 0 {
      ZeroNat(s);
    } else {
      var t := seq(|s|, _ => 0);
      ZeroNat(t);
      if Nat(s) == 0 {
        NatUnique(s, t);
      }
    }
  }

  /** p256_cmp: -1, 0 or 1. */
  method Cmp(a: array<u32>, b: array<u32>) returns (r: int)
    requires a.Length == 8 && b.Length == 8
    ensures r == if Nat(a[..]) < Nat(b[..]) then -1 else if Nat(a[..]) == Nat(b[..]) then 0 else 1
  {
    ghost var z: seq<int> := seq(8, k requires 0 <= k < 8 reads a, b => a[k] as int - b[k] as int);
    ghost var o: seq<u32> := [];
    var borrow: int := 0;
    var notzero := 0;
    for i := 0 to 8
      invariant -1 <= borrow <= 0
      invariant |o| == i && Chain(o, z, borrow)
      invariant notzero == if forall k :: 0 <= k < i ==> o[k] == 0 then 0 else 1
    {
      ghost var before := borrow;
      var low;
      low, borrow := Borrow(borrow + a[i] as int - b[i] as int);
      ChainDigit(o, z, before, low, borrow);
      o := o + [low];
      if low != 0 {
        notzero := 1;
      }
    }
    ChainDiff(o, z, borrow, a[..], b[..]);
    NumBound(o);
    NonZeroNat(o);
    r := if borrow == -1 then -1 else notzero;
  }

  lemma {:induction false} OrIsZero(x: nat, y: nat)
    ensures Or(x, y) == 0 <==> x == 0 && y == 0
    decreases x + y
  {
    if x != 0 || y != 0 {
      OrIsZero(x / 2, y / 2);
    }
  }

  /** p256_is_zero. */
  method IsZero(a: array<u32>) returns (r: bool)
    requires a.Length == 8
    ensures r <==> Nat(a[..]) == 0
  {
    var result := 0;
    for i := 0 to 8
      invariant result >= 0
      invariant result == 0 <==> forall k :: 0 <= k < i ==> a[k] == 0
    {
      OrIsZero(result, a[i]);
      result := Or(result, a[i]);
    }
    NonZeroNat(a[..]);
    r := result == 0;
  }

  // ---- shifts ---------------------------------------------------------------------

  /** Digits hi shifted left by f = 2^n are the digits lo with e[i] pushed into digit i. */
  lemma {:induction false} ShiftValue(f: int, hi: seq<int>, lo: seq<int>, e: seq<int>, n: nat)
    requires |hi| == |lo| && n <= |hi| && |e| == |hi| + 1
    requires forall i :: 0 <= i < |hi| ==> f * hi[i] + e[i] == lo[i] + 0x1_0000_0000 * e[i + 1]
    ensures f * Nat(hi[..n]) + e[0] == Nat(lo[..n]) + e[n] * Base(n)
  {
    if n > 0 {
      var i := n - 1;
      ShiftValue(f, hi, lo, e, i);
      NatStep(hi, i);
      NatStep(lo, i);
      ShiftStep(f, Nat(hi[..i]), hi[i], lo[i], e[i], e[n], Base(i));
    } else {
      assert hi[..0] == [] && lo[..0] == [];
    }
  }

  lemma ShiftStep(f: int, v: int, h: int, l: int, e: int, d: int, w: int)
    requires f * h + e == l + 0x1_0000_0000 * d
    ensures f * (v + h * w) + e * w == f * v + l * w + d * (w * 0x1_0000_0000)
  {
    assert (f * h + e) * w == (l + 0x1_0000_0000 * d) * w;
    assert f * (v + h * w) == f * v + (f * h) * w;
  }

  lemma Pow2Word(n: nat, w: nat)
    requires n <= w == 32
    ensures Pow2(n) * Pow2(w - n) == 0x1_0000_0000
  {
    Pow2Add(n, w - n);
    Pow2Thirty2(w);
  }

  /** A 32-bit word in two parts: x == g * q + r with f * g == 2^32. */
  ghost predicate Parts(x: int, f: int, g: int, q: int, r: int) {
    && f > 0 && g > 0 && f * g == 0x1_0000_0000
    && x == g * q + r && 0 <= r < g && 0 <= q < f
  }

  lemma WordParts(x: u32, f: int, g: int) returns (q: int, r: int)
    requires f > 0 && g > 0 && f * g == 0x1_0000_0000
    ensures Parts(x, f, g, q, r)
  {
    q, r := x / g, x % g;
    assert g * q < g * f;
  }

  lemma {:induction false} AllParts(x: seq<u32>, f: int, g: int) returns (q: seq<int>, r: seq<int>)
    requires f > 0 && g > 0 && f * g == 0x1_0000_0000
    ensures |x| == |q| == |r|
    ensures forall k :: 0 <= k < |x| ==> Parts(x[k], f, g, q[k], r[k])
  {
    if x == [] {
      q, r := [], [];
    } else {
      var n := |x| - 1;
      q, r := AllParts(x[..n], f, g);
      var a, b := WordParts(x[n], f, g);
      q, r := q + [a], r + [b];
    }
  }

  lemma PartsShifted(x: int, f: int, g: int, q: int, r: int)
    requires Parts(x, f, g, q, r)
    ensures x / g == q && x % g == r
    ensures x * f == 0x1_0000_0000 * q + r * f && 0 <= r * f <= 0x1_0000_0000 - f
    ensures x * f % 0x1_0000_0000 == r * f && x * f / 0x1_0000_0000 == q
  {
    DivModUnique(q, r, g, x);
    assert (g * q + r) * f == (f * g) * q + r * f;
    assert 0 <= r * f;
    assert r * f <= (g - 1) * f;
    assert (g - 1) * f == f * g - f;
    DivModUnique(q, r * f, 0x1_0000_0000, x * f);
  }

  /** Joining two shifted digits: `(x << n) | (y >> (32 - n))`. */
  method JoinLeft(x: u32, y: u32, n: nat, ghost qx: int, ghost rx: int, ghost qy: int, ghost ry: int) returns (j: u32)
    requires 0 < n < 32
    requires Parts(x, Pow2(n), Pow2(32 - n), qx, rx) && Parts(y, Pow2(n), Pow2(32 - n), qy, ry)
    ensures j == rx * Pow2(n) + qy
  {
    var f, g := Pow2(n), Pow2(32 - n);
    PartsShifted(x, f, g, qx, rx);
    PartsShifted(y, f, g, qy, ry);
    OrDisjoint(qy, rx, n);
    OrCommutes(qy, rx * f);
    j := Or(x * f % 0x1_0000_0000, y / g);
  }

  /** Joining the other way: `(x >> n) | (y << (32 - n))`. */
  method JoinRight(x: u32, y: u32, n: nat, ghost qx: int, ghost rx: int, ghost qy: int, ghost ry: int) returns (j: u32)
    requires 0 < n < 32
    requires Parts(x, Pow2(32 - n), Pow2(n), qx, rx) && Parts(y, Pow2(32 - n), Pow2(n), qy, ry)
    ensures j == qx + ry * Pow2(32 - n)
  {
    var f, g := Pow2(n), Pow2(32 - n);
    PartsShifted(x, g, f, qx, rx);
    PartsShifted(y, g, f, qy, ry);
    OrDisjoint(qx, ry, 32 - n);
    j := Or(x / f, y * g % 0x1_0000_0000);
  }

  lemma ShlDigit(x: int, f: int, g: int, q: int, r: int, below: int, b: int)
    requires Parts(x, f, g, q, r) && b == r * f + below
    ensures f * x + below == b + 0x1_0000_0000 * q
  {
    assert f * (g * q + r) == (f * g) * q + r * f;
  }

  lemma ShlValue(x: seq<u32>, b: seq<int>, f: int, g: int, q: seq<int>, r: seq<int>)
    requires |x| == |b| == |q| == |r| == 8
    requires forall k :: 0 <= k < 8 ==> Parts(x[k], f, g, q[k], r[k])
    requires forall k :: 0 <= k < 8 ==> b[k] == r[k] * f + (if k == 0 then 0 else q[k - 1])
    ensures Nat(b) + q[7] * TWO_256 == f * Nat(x)
  {
    var e := [0] + q;
    forall k | 0 <= k < 8
      ensures f * x[k] + e[k] == b[k] + 0x1_0000_0000 * e[k + 1]
    {
      ShlDigit(x[k], f, g, q[k], r[k], e[k], b[k]);
    }
    ShiftValue(f, x, b, e, |x|);
    assert x[..|x|] == x && b[..|x|] == b;
    BaseEight(|x|);
  }

  /** p256_shl: b = a << n, returns the bits shifted out. Shifts by a multiple of 32
      are undefined in the original. b may be a. */
  method Shl(a: array<u32>, n: nat, b: array<u32>) returns (top: u32)
    requires a.Length == 8 && b.Length == 8 && n % 32 != 0
    modifies b
    ensures Nat(b[..]) + top * TWO_256 == Pow2(n % 32) * old(Nat(a[..]))
  {
    var s := n % 32;
    ghost var x := a[..];
    ghost var w := 32;
    Pow2Word(s, w);
    ghost var q, r := AllParts(x, Pow2(s), Pow2(32 - s));
    var last := a[7];
    var i := 7;
    var j;
    while i > 0
      invariant 0 <= i <= 7
      invariant forall k :: 0 <= k <= i ==> a[k] == x[k]
      invariant forall k :: i < k < 8 ==> b[k] == r[k] * Pow2(s) + q[k - 1]
    {
      assert a[i] == x[i] && a[i - 1] == x[i - 1];
      j := JoinLeft(a[i], a[i - 1], s, q[i], r[i], q[i - 1], r[i - 1]);
      b[i] := j;
      i := i - 1;
    }
    assert a[0] == x[0];
    PartsShifted(x[0], Pow2(s), Pow2(32 - s), q[0], r[0]);
    PartsShifted(x[7], Pow2(s), Pow2(32 - s), q[7], r[7]);
    b[0] := a[0] * Pow2(s) % 0x1_0000_0000;
    ShlValue(x, b[..], Pow2(s), Pow2(32 - s), q, r);
    top := last * Pow2(s) / 0x1_0000_0000;
  }

  lemma ShrDigit(x: int, f: int, g: int, q: int, r: int, above: int, b: int)
    requires Parts(x, g, f, q, r) && b == q + above * g
    ensures f * b + r == x + 0x1_0000_0000 * above
  {
    assert f * (q + above * g) == f * q + (g * f) * above;
  }

  lemma ShrValue(x: seq<u32>, b: seq<int>, f: int, g: int, q: seq<int>, r: seq<int>, high: int)
    requires |x| == |b| == |q| == |r| == 8
    requires forall k :: 0 <= k < 8 ==> Parts(x[k], g, f, q[k], r[k])
    requires forall k :: 0 <= k < 8 ==> b[k] == q[k] + (if k == 7 then high else r[k + 1]) * g
    ensures f * Nat(b) + r[0] == Nat(x) + high * TWO_256
  {
    var e := r + [high];
    forall k | 0 <= k < 8
      ensures f * b[k] + e[k] == x[k] + 0x1_0000_0000 * e[k + 1]
    {
      ShrDigit(x[k], f, g, q[k], r[k], e[k + 1], b[k]);
    }
    ShiftValue(f, b, x, e, |x|);
    assert x[..|x|] == x && b[..|x|] == b;
    BaseEight(|x|);
  }

  /** The digits of the quotient: the upper part of each digit under the lower part of the next. */
  ghost function ShiftedDigits(q: seq<int>, r: seq<int>, high: int, g: int): (z: seq<int>)
    requires |q| == |r| == 8
    ensures |z| == 8 && forall k :: 0 <= k < 8 ==> z[k] == q[k] + (if k == 7 then high else r[k + 1]) * g
  {
    seq(8, k requires 0 <= k < 8 => q[k] + (if k == 7 then high else r[k + 1]) * g)
  }

  method ShrDigits(a: array<u32>, n: nat, high: u32, b: array<u32>, ghost x: seq<u32>, ghost q: seq<int>, ghost r: seq<int>, ghost z: seq<int>)
    requires a.Length == 8 && b.Length == 8 && 0 < n < 32 && high < Pow2(n) && x == a[..] && |q| == |r| == |z| == 8
    requires forall k :: 0 <= k < 8 ==> Parts(x[k], Pow2(32 - n), Pow2(n), q[k], r[k])
    requires forall k :: 0 <= k < 8 ==> z[k] == q[k] + (if k == 7 then high else r[k + 1]) * Pow2(32 - n)
    modifies b
    ensures forall k :: 0 <= k < 8 ==> b[k] == z[k]
  {
    ghost var w := 32;
    Pow2Word(n, w);
    var j;
    for i := 0 to 7
      invariant forall k :: i <= k < 8 ==> a[k] == x[k]
      invariant forall k :: 0 <= k < i ==> b[k] == z[k]
    {
      assert a[i] == x[i] && a[i + 1] == x[i + 1];
      j := JoinRight(a[i], a[i + 1], n, q[i], r[i], q[i + 1], r[i + 1]);
      b[i] := j;
    }
    assert a[7] == x[7];
    HighParts(high, Pow2(32 - n), Pow2(n));
    j := JoinRight(a[7], high, n, q[7], r[7], 0, high);
    b[7] := j;
  }

  /** p256_shr1 and, with no bit to move in, p256_shr: b = (high | a) >> n. b may be a. */
  method ShrIn(a: array<u32>, n: nat, high: u32, b: array<u32>)
    requires a.Length == 8 && b.Length == 8 && 0 < n < 32 && high < Pow2(n)
    modifies b
    ensures Pow2(n) * Nat(b[..]) + old(a[0]) % Pow2(n) == old(Nat(a[..])) + high * TWO_256
  {
    ghost var x := a[..];
    ghost var w := 32;
    Pow2Word(n, w);
    ghost var q, r := AllParts(x, Pow2(32 - n), Pow2(n));
    ghost var z := ShiftedDigits(q, r, high, Pow2(32 - n));
    ShrDigits(a, n, high, b, x, q, r, z);
    assert b[..] == z;
    ShrValue(x, z, Pow2(n), Pow2(32 - n), q, r, high);
    PartsShifted(x[0], Pow2(32 - n), Pow2(n), q[0], r[0]);
  }

  lemma HighParts(h: int, f: int, g: int)
    requires 0 <= h < g && f > 0 && f * g == 0x1_0000_0000
    ensures Parts(h, f, g, 0, h)
  {
  }

  /** p256_shr: b = a >> n; the bits that fall out are those of the lowest digit. */
  method Shr(a: array<u32>, n: nat, b: array<u32>)
    requires a.Length == 8 && b.Length == 8 && n % 32 != 0
    modifies b
    ensures Pow2(n % 32) * Nat(b[..]) + old(a[0]) % Pow2(n % 32) == old(Nat(a[..]))
  {
    ShrIn(a, n % 32, 0, b);
  }

  /** p256_shr1: b = (highbit | a) >> 1. b may be a. */
  method Shr1(a: array<u32>, highbit: u32, b: array<u32>)
    requires a.Length == 8 && b.Length == 8 && highbit <= 1
    modifies b
    ensures 2 * Nat(b[..]) + old(a[0]) % 2 == old(Nat(a[..])) + highbit * TWO_256
  {
    ghost var one := 1;
    assert Pow2(one) == 2 * Pow2(one - 1);
    ShrIn(a, 1, highbit, b);
  }

  /** p256_add_d: b = a + d, returns the carry. */
  method AddD(a: array<u32>, d: u32, b: array<u32>) returns (carry: u32)
    requires a.Length == 8 && b.Length == 8
    modifies b
    ensures carry <= 1
    ensures Nat(b[..]) + carry * TWO_256 == old(Nat(a[..])) + d
  {
    ghost var x := a[..];
    ghost var z: seq<int> := seq(8, k requires 0 <= k < 8 => x[k] as int + (if k == 0 then d as int else 0));
    ghost var dd: seq<int> := seq(8, k requires 0 <= k < 8 => if k == 0 then d as int else 0);
    ghost var o: seq<u32> := [];
    carry := d;
    for i := 0 to 8
      invariant i > 0 ==> carry <= 1
      invariant i == 0 ==> carry == d
      invariant forall k :: i <= k < 8 ==> a[k] == x[k]
      invariant |o| == i && b[..i] == o && Chain(o, z, if i == 0 then 0 else carry)
    {
      ghost var before := carry;
      assert a[i] == x[i];
      var low;
      low, carry := Carry(carry as int + a[i] as int);
      b[i] := low;
      ChainDigit(o, z, if i == 0 then 0 else before, low, carry);
      o := o + [low];
    }
    assert b[..] == o;
    ChainSum(o, z, carry, x, dd);
    SingleDigit(dd, d);
  }

  lemma {:induction false} SingleDigit(s: seq<int>, d: int)
    requires |s| > 0 && s[0] == d && forall k :: 1 <= k < |s| ==> s[k] == 0
    ensures Nat(s) == d
  {
    if |s| > 1 {
      SingleDigit(s[..|s| - 1], d);
    }
  }
}
