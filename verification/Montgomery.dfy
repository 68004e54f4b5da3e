/** Conversion between 256-bit integers and Montgomery field elements (to_montgomery and
    from_montgomery of p256_ec.c). */
module Montgomery {
  import opened Words
  import opened Modular
  import opened Bits
  import opened Digits
  import opened P256
  import opened P256Arith
  import opened Felem
  import opened FelemArith
  import opened FelemInv
  import FelemMul

  const P_DIGITS: seq<u32> := [0xffff_ffff, 0xffff_ffff, 0xffff_ffff, 0, 0, 0, 1, 0xffff_ffff]
  const KR: seq<u32> := [2, 0, 0, 0xffff_fffe, 0xffff_ffff, 0xffff_ffff, 0xffff_fffd, 1]
  const KRINV: seq<u32> := [0x8000_0000, 1, 0xffff_ffff, 0, 0x8000_0001, 0xffff_fffe, 1, 0x7fff_ffff]

  lemma Nat8(s: seq<int>)
    requires |s| == 8
    ensures Nat(s) == s[0] + 0x1_0000_0000 * s[1] + 0x1_00000000_00000000 * s[2]
                    + 0x1_00000000_00000000_00000000 * s[3] + 0x1_00000000_00000000_00000000_00000000 * s[4]
                    + 0x1_00000000_00000000_00000000_00000000_00000000 * s[5]
                    + 0x1_00000000_00000000_00000000_00000000_00000000_00000000 * s[6]
                    + 0x1_00000000_00000000_00000000_00000000_00000000_00000000_00000000 * s[7]
  {
    var n := |s|;
    NatStep(s, n - 1);
    NatStep(s, n - 2);
    NatStep(s, n - 3);
    NatStep(s, n - 4);
    NatStep(s, n - 5);
    NatStep(s, n - 6);
    NatStep(s, n - 7);
    NatStep(s, n - 8);
    assert s[..n] == s && s[..n - 8] == [];
    assert Base(n - 7) == 0x1_0000_0000 * Base(n - 8);
    assert Base(n - 6) == 0x1_0000_0000 * Base(n - 7);
    assert Base(n - 5) == 0x1_0000_0000 * Base(n - 6);
    assert Base(n - 4) == 0x1_0000_0000 * Base(n - 5);
    assert Base(n - 3) == 0x1_0000_0000 * Base(n - 4);
    assert Base(n - 2) == 0x1_0000_0000 * Base(n - 3);
    assert Base(n - 1) == 0x1_0000_0000 * Base(n - 2);
  }

  /** kR is 2^257 and kRInv its inverse, modulo p. */
  lemma Constants()
    ensures Nat(P_DIGITS) == P && FullModulus(P_DIGITS)
    ensures Nat(KR) == TWO_257 - 2 * P
    ensures Nat(KRINV) == RINV
  {
    Nat8(P_DIGITS);
    Nat8(KR);
    Nat8(KRINV);
  }

  method FromDigits(s: seq<u32>) returns (c: array<u32>)
    requires |s| == 8
    ensures fresh(c) && c.Length == 8 && c[..] == s
  {
    c := new u32[8](i requires 0 <= i < 8 => s[i]);
  }

  lemma LimbPowers(n: nat)
    requires n == 28 || n == 29
    ensures Pow2(n) == if n == 28 then 0x1000_0000 else 0x2000_0000
  {
    var w, k: nat := 32, 32 - n;
    Pow2Word(n, w);
    assert Pow2(3) == 8 && Pow2(4) == 16;
  }

  // ---- into Montgomery form -----------------------------------------------------------

  /** Cuts limb i off the low end: `out[i] = digit 0 & mask`, then a shift. */
  method CutLimb(c: array<u32>, i: nat) returns (v: u32)
    requires c.Length == 8
    modifies c
    ensures v < Width(i)
    ensures v + Widened(i, Nat(c[..])) == old(Nat(c[..]))
  {
    var n := if i % 2 == 0 then 29 else 28;
    LimbPowers(n);
    assert n % 32 == n && Pow2(n) == Width(i);
    v := c[0] % Width(i);
    Shr(c, n, c);
    assert Widened(i, Nat(c[..])) == Pow2(n) * Nat(c[..]);
  }

  lemma CutStep(v: int, rest: int, next: int, i: nat, w: int)
    requires rest == v + Widened(i, next)
    ensures v * w + next * (w * Width(i)) == rest * w
  {
    assert Widened(i, next) == Width(i) * next;
    assert next * (w * Width(i)) == (Width(i) * next) * w;
  }

  lemma SplitEnd(v: int, rest: int, c: int)
    requires 0 <= v && 0 <= rest && v + rest * TWO_257 == c < TWO_256
    ensures v == c
  {
  }

  /** Splitting into 29- and 28-bit limbs keeps the number. */
  method SplitLimbs(out: array<u32>, c: array<u32>)
    requires out.Length == 9 && c.Length == 8 && out != c
    modifies out, c
    ensures Tight(out[..]) && Value(out[..]) == old(Nat(c[..]))
  {
    ghost var x := Nat(c[..]);
    NumBound(c[..]);
    ghost var o: seq<u32> := [];
    for i := 0 to 9
      invariant |o| == i && out[..i] == o && Tight(o)
      invariant Value(o) + Nat(c[..]) * Weight(i) == x
    {
      ghost var rest := Nat(c[..]);
      var v := CutLimb(c, i);
      out[i] := v;
      ValueSnoc(o, v);
      CutStep(v, rest, Nat(c[..]), i, Weight(i));
      o := o + [v];
    }
    assert out[..] == o;
    Weights();
    TightBound(o);
    NumBound(c[..]);
    SplitEnd(Value(o), Nat(c[..]), x);
  }

  lemma IntoForm(v: int, x: int)
    requires Cong(v, x * (TWO_257 - 2 * P), P)
    ensures Cong(v * RINV, x, P)
  {
    assert x * (TWO_257 - 2 * P) == x * TWO_257 + (-2 * x) * P;
    CongIntro(x * (TWO_257 - 2 * P), x * TWO_257, P, -2 * x);
    CongTrans(v, x * (TWO_257 - 2 * P), x * TWO_257, P);
    CongScale(v, x * TWO_257, RINV, P);
    RInverse();
    CongScale(TWO_257 * RINV, 1, x, P);
    assert (TWO_257 * RINV) * x == (x * TWO_257) * RINV;
    CongTrans(v * RINV, (x * TWO_257) * RINV, x, P);
  }

  /** to_montgomery: the element stands for the number, whatever its size. */
  method ToMontgomery(out: array<u32>, input: array<u32>)
    requires out.Length == 9 && input.Length == 8
    modifies out
    ensures Tight(out[..]) && Value(out[..]) < P
    ensures Cong(Value(out[..]) * RINV, old(Nat(input[..])), P)
  {
    ghost var x := Nat(input[..]);
    Constants();
    var p := FromDigits(P_DIGITS);
    var kR := FromDigits(KR);
    var shifted := new u32[8];
    ModMul(p, input, 0, kR, shifted);
    ghost var v := Nat(shifted[..]);
    SplitLimbs(out, shifted);
    IntoForm(v, x);
  }

  // ---- out of Montgomery form ---------------------------------------------------------

  /** The limbs from i on as one number, built from the top as from_montgomery does. */
  ghost function Join(s: seq<int>, i: nat): int
    requires i <= |s|
    decreases |s| - i
  {
    if i == |s| then 0 else s[i] + Widened(i, Join(s, i + 1))
  }

  lemma {:induction false} JoinValue(s: seq<int>, i: nat)
    requires i <= |s|
    ensures Value(s[..i]) + Join(s, i) * Weight(i) == Value(s)
    decreases |s| - i
  {
    if i == |s| {
      assert s[..i] == s;
    } else {
      JoinValue(s, i + 1);
      ValueStep(s, i, Weight(i));
      CutStep(s[i], Join(s, i), Join(s, i + 1), i, Weight(i));
    }
  }

  lemma JoinTable(s: seq<int>)
    requires |s| == 9
    ensures Join(s, 9) == 0 && Join(s, 8) == s[8]
    ensures Join(s, 7) == s[7] + 0x1000_0000 * Join(s, 8) && Join(s, 6) == s[6] + 0x2000_0000 * Join(s, 7)
    ensures Join(s, 5) == s[5] + 0x1000_0000 * Join(s, 6) && Join(s, 4) == s[4] + 0x2000_0000 * Join(s, 5)
    ensures Join(s, 3) == s[3] + 0x1000_0000 * Join(s, 4) && Join(s, 2) == s[2] + 0x2000_0000 * Join(s, 3)
    ensures Join(s, 1) == s[1] + 0x1000_0000 * Join(s, 2)
  {
    var n := 9;
    assert Join(s, n) == 0;
    assert Join(s, n - 1) == s[8];
    assert Join(s, n - 2) == s[7] + 0x1000_0000 * Join(s, n - 1);
    assert Join(s, n - 3) == s[6] + 0x2000_0000 * Join(s, n - 2);
    assert Join(s, n - 4) == s[5] + 0x1000_0000 * Join(s, n - 3);
    assert Join(s, n - 5) == s[4] + 0x2000_0000 * Join(s, n - 4);
    assert Join(s, n - 6) == s[3] + 0x1000_0000 * Join(s, n - 5);
    assert Join(s, n - 7) == s[2] + 0x2000_0000 * Join(s, n - 6);
    assert Join(s, n - 8) == s[1] + 0x1000_0000 * Join(s, n - 7);
  }

  lemma JoinBounds(s: seq<int>)
    requires Bounded(s)
    ensures forall i :: 1 <= i <= 9 ==> 0 <= Join(s, i) < 0x100_00000000_00000000_00000000_00000000_00000000_00000000_00000000
  {
    JoinTable(s);
  }

  /** The elements on which `top |= carry` loses the carry: limb 0 overlaps limb 1, and
      all bits of the limbs above it that fall below bit 257 are ones. */
  ghost predicate Lossy(s: seq<int>)
    requires |s| == 9
  {
    s[0] >= 0x2000_0000 && (Join(s, 1) + 1) % 0x10_00000000_00000000_00000000_00000000_00000000_00000000_00000000 == 0
  }

  /** One pass: `top = shl(result), top |= add_d(limb)`. */
  method PushLimb(result: array<u32>, tmp: array<u32>, limb: u32, i: nat) returns (top: u32, carry: u32)
    requires result.Length == 8 && tmp.Length == 8 && result != tmp
    modifies result, tmp
    ensures carry <= 1
    ensures top * TWO_256 <= Widened(i, old(Nat(result[..]))) < (top + 1) * TWO_256
    ensures Nat(result[..]) + (top + carry) * TWO_256 == limb + Widened(i, old(Nat(result[..])))
  {
    ghost var x := Nat(result[..]);
    var n := if i % 2 == 0 then 29 else 28;
    LimbPowers(n);
    top := Shl(result, n, tmp);
    NumBound(tmp[..]);
    carry := AddD(tmp, limb, result);
  }

  lemma NoOverflow(top: int, carry: int, r: int, v: int)
    requires 0 <= top && 0 <= carry && 0 <= r && r + (top + carry) * TWO_256 == v < TWO_256
    ensures r == v && top == 0 && carry == 0
  {
  }

  lemma OrOne(top: u32, carry: u32)
    requires carry <= 1
    ensures Or(top, carry) == if carry == 1 && top % 2 == 0 then top + 1 else top
  {
    if carry == 0 {
      OrCommutes(top, 0);
      OrZero(top);
    } else {
      assert Or(top, 1) == 2 * Or(top / 2, 0) + 1;
      OrCommutes(top / 2, 0);
      OrZero(top / 2);
    }
  }

  /** The carry is lost exactly on the lossy elements. */
  lemma LossyIff(s: seq<int>, top: int, carry: int, result: int)
    requires Bounded(s) && 0 <= top && 0 <= carry <= 1 && 0 <= result < TWO_256
    requires top * TWO_256 <= 0x2000_0000 * Join(s, 1) < (top + 1) * TWO_256
    requires result + (top + carry) * TWO_256 == s[0] + 0x2000_0000 * Join(s, 1)
    ensures Lossy(s) <==> carry == 1 && top % 2 == 1
  {
    var j, h, t := Join(s, 1), top / 2, 0x10_00000000_00000000_00000000_00000000_00000000_00000000_00000000;
    if Lossy(s) {
      var k := (j + 1) / t;
      assert j + 1 == k * t;
      assert top == 2 * k - 1;
    }
    if carry == 1 && top % 2 == 1 {
      assert top == 2 * h + 1;
      assert j + 1 == (h + 1) * t;
    }
  }

  /** The join of the nine limbs: the number handed to p256_modmul is the value of the
      element, or 2^256 less where the carry is lost. */
  method JoinLimbs(input: array<u32>, result: array<u32>) returns (top: u32)
    requires input.Length == 9 && Bounded(input[..]) && result.Length == 8 && input != result
    modifies result
    ensures top * TWO_256 + Nat(result[..]) == Value(input[..]) - (if Lossy(input[..]) then TWO_256 else 0)
  {
    var tmp := JoinUpper(input, result);
    ghost var s := input[..];
    var carry;
    top, carry := PushLimb(result, tmp, input[0], 0);
    NumBound(result[..]);
    LossyIff(s, top, carry, Nat(result[..]));
    JoinWhole(s);
    OrOne(top, carry);
    top := Or(top, carry);
  }

  lemma JoinWhole(s: seq<int>)
    requires |s| == 9
    ensures Value(s) == s[0] + 0x2000_0000 * Join(s, 1)
  {
    JoinValue(s, 0);
    assert Weight(0) == 1 && s[..0] == [];
    assert Join(s, 0) == s[0] + 0x2000_0000 * Join(s, 1);
  }

  /** Limbs 8 down to 1, none of which overflow. */
  method JoinUpper(input: array<u32>, result: array<u32>) returns (tmp: array<u32>)
    requires input.Length == 9 && Bounded(input[..]) && result.Length == 8 && input != result
    modifies result
    ensures fresh(tmp) && tmp.Length == 8 && Nat(result[..]) == Join(input[..], 1)
  {
    ghost var s := input[..];
    JoinBounds(s);
    tmp := new u32[8](_ => 0);
    ZeroNat(tmp[..]);
    var carry := AddD(tmp, input[8], result);
    NumBound(result[..]);
    JoinTop(s);
    var i, top := 7, 0;
    while i > 0
      invariant 0 <= i <= 7
      invariant Nat(result[..]) == Join(s, i + 1)
    {
      top, carry := PushLimb(result, tmp, input[i], i);
      NumBound(result[..]);
      NoOverflow(top, carry, Nat(result[..]), Join(s, i));
      i := i - 1;
    }
  }

  lemma JoinTop(s: seq<int>)
    requires |s| == 9
    ensures Join(s, 8) == s[8]
  {
    assert Join(s, 9) == 0;
  }

  lemma HalfIsNotZero()
    ensures !Cong(TWO_256 * RINV, 0, P)
  {
    if Cong(TWO_256 * RINV, 0, P) {
      CongScale(TWO_256 * RINV, 0, 2, P);
      RInverse();
      assert (TWO_256 * RINV) * 2 == TWO_257 * RINV;
      CongSym(TWO_257 * RINV, 1, P);
      CongTrans(1, TWO_257 * RINV, 0, P);
      CongUnique(1, 0, P);
    }
  }

  lemma LossMatters(out: int, v: int)
    requires Cong(out, RINV * (v - TWO_256), P)
    ensures !Cong(out, v * RINV, P)
  {
    if Cong(out, v * RINV, P) {
      CongSym(out, RINV * (v - TWO_256), P);
      CongTrans(RINV * (v - TWO_256), out, v * RINV, P);
      CongSub(v * RINV, v * RINV, RINV * (v - TWO_256), v * RINV, P) by {
        CongRefl(v * RINV, P);
      }
      assert v * RINV - RINV * (v - TWO_256) == TWO_256 * RINV;
      HalfIsNotZero();
    }
  }

  /** from_montgomery: the number the element stands for, reduced modulo p, exactly when
      the element is not lossy. */
  method FromMontgomery(out: array<u32>, input: array<u32>)
    requires out.Length == 8 && input.Length == 9 && Bounded(input[..])
    modifies out
    ensures 0 <= Nat(out[..]) < P
    ensures Cong(Nat(out[..]), old(Value(input[..])) * RINV, P) <==> !old(Lossy(input[..]))
  {
    ghost var s := input[..];
    Constants();
    var p := FromDigits(P_DIGITS);
    var kRInv := FromDigits(KRINV);
    var result := new u32[8];
    var top := JoinLimbs(input, result);
    ModMul(p, kRInv, top, result, out);
    assert RINV * Value(s) == Value(s) * RINV;
    if Lossy(s) {
      LossMatters(Nat(out[..]), Value(s));
    }
  }

  /** Limb 0 within its own 29 bits is enough. */
  lemma TightIsExact(s: seq<int>)
    requires |s| == 9 && s[0] < 0x2000_0000
    ensures !Lossy(s)
  {
  }

  /** A narrow element that loses its carry has a value of at least 2^257. */
  lemma LossyValue(s: seq<int>)
    requires Bounded(s) && s[8] < 0x2000_0000 && Lossy(s)
    ensures TWO_257 <= Value(s) < TWO_257 + 0x2000_0000
  {
    var j, t := Join(s, 1), 0x10_00000000_00000000_00000000_00000000_00000000_00000000_00000000;
    JoinWhole(s);
    JoinBelow(s);
    var k := (j + 1) / t;
    assert j + 1 == k * t;
    assert k == 1;
  }

  /** So a product of narrow elements never does, and from_montgomery is exact on it. */
  lemma SettledIsExact(s: seq<int>)
    requires Bounded(s) && s[8] < 0x2000_0000 && FelemMul.Settled(s)
    ensures !Lossy(s)
  {
    if Lossy(s) {
      LossyValue(s);
    }
  }

  /** A bounded element that does: 2^257 with limb 0 at 2^29 and ones above. */
  lemma LossyElement(s: seq<int>)
    requires s == [0x2000_0000, 0xfff_ffff, 0x1fff_ffff, 0xfff_ffff, 0x1fff_ffff, 0xfff_ffff, 0x1fff_ffff, 0xfff_ffff, 0x1fff_ffff]
    ensures Bounded(s) && s[8] < 0x2000_0000 && Lossy(s) && Value(s) == TWO_257
  {
    JoinTable(s);
    Value9(s);
  }

  lemma JoinBelow(s: seq<int>)
    requires Bounded(s) && s[8] < 0x2000_0000
    ensures 0 <= Join(s, 1) < 0x18_00000000_00000000_00000000_00000000_00000000_00000000_00000000
  {
    JoinTable(s);
  }

  /** from_montgomery undoes to_montgomery on every reduced number. */
  method RoundTrip(input: array<u32>) returns (out: array<u32>)
    requires input.Length == 8 && Nat(input[..]) < P
    ensures out.Length == 8 && out[..] == input[..]
  {
    ghost var x := Nat(input[..]);
    NumBound(input[..]);
    var e := new u32[9];
    out := new u32[8];
    ToMontgomery(e, input);
    TightIsExact(e[..]);
    ghost var v := Value(e[..]);
    FromMontgomery(out, e);
    CongTrans(Nat(out[..]), v * RINV, x, P);
    CongUnique(Nat(out[..]), x, P);
    NatUnique(out[..], input[..]);
  }
}
