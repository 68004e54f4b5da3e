/** Bitwise operations, shifts and sums on 32-bit words, and the bytes of a word. */
module WordOps {
  import opened Words
  import opened Bits

  // ---- AND and NOT, beside the OR and XOR of Bits ------------------------------------------------

  function And(x: nat, y: nat): nat
    decreases x + y
  {
    if x == 0 && y == 0 then 0
    else 2 * And(x / 2, y / 2) + (if x % 2 == 1 && y % 2 == 1 then 1 else 0)
  }

  lemma AndParts(x: nat, y: nat)
    ensures And(x, y) / 2 == And(x / 2, y / 2)
    ensures And(x, y) % 2 == 1 <==> x % 2 == 1 && y % 2 == 1
  {
    if x == 0 && y == 0 {
      assert And(x / 2, y / 2) == 0;
    } else {
      var r := And(x / 2, y / 2);
      assert And(x, y) == 2 * r + (if x % 2 == 1 && y % 2 == 1 then 1 else 0);
    }
  }

  lemma XorParts(x: nat, y: nat)
    ensures Xor(x, y) / 2 == Xor(x / 2, y / 2)
    ensures Xor(x, y) % 2 == 1 <==> x % 2 != y % 2
  {
    if x == 0 && y == 0 {
      assert Xor(x / 2, y / 2) == 0;
    } else {
      var r := Xor(x / 2, y / 2);
      assert Xor(x, y) == 2 * r + (if x % 2 != y % 2 then 1 else 0);
    }
  }

  lemma {:induction false} AndBound(x: nat, y: nat, k: nat)
    requires x < Pow2(k) && y < Pow2(k)
    ensures And(x, y) < Pow2(k)
  {
    if k > 0 && (x != 0 || y != 0) {
      AndBound(x / 2, y / 2, k - 1);
    }
  }

  /** `x & (2^k - 1)` keeps the low k bits, r. */
  lemma {:induction false} AndMask(x: nat, k: nat, q: nat, r: nat)
    requires x == q * Pow2(k) + r && r < Pow2(k)
    ensures And(x, Pow2(k) - 1) == r
  {
    if k == 0 {
      AndZero(x);
    } else {
      var p := Pow2(k - 1);
      var h := q * p + r / 2;
      assert q * (2 * p) == 2 * (q * p);
      AndMask(h, k - 1, q, r / 2);
      AndOdd(x, 2 * p - 1, h, p - 1);
    }
  }

  lemma AndOdd(x: nat, y: nat, h: nat, k: nat)
    requires h == x / 2 && y == 2 * k + 1
    ensures And(x, y) == 2 * And(h, k) + x % 2
  {
    assert y / 2 == k && y % 2 == 1;
  }

  lemma {:induction false} AndZero(x: nat)
    ensures And(x, 0) == 0
  {
    if x != 0 {
      AndZero(x / 2);
    }
  }

  lemma {:induction false} OrBound(x: nat, y: nat, k: nat)
    requires x < Pow2(k) && y < Pow2(k)
    ensures Or(x, y) < Pow2(k)
  {
    if k > 0 && (x != 0 || y != 0) {
      OrBound(x / 2, y / 2, k - 1);
    }
  }

  lemma WordBounds(x: u32, y: u32)
    ensures And(x, y) < 0x1_0000_0000 && Or(x, y) < 0x1_0000_0000 && Xor(x, y) < 0x1_0000_0000
  {
    var w := 32;
    Pow2Thirty2(w);
    AndBound(x, y, w);
    OrBound(x, y, w);
    XorBound(x, y, w);
  }

  function And32(x: u32, y: u32): u32 {
    WordBounds(x, y);
    And(x, y)
  }

  function Or32(x: u32, y: u32): u32 {
    WordBounds(x, y);
    Or(x, y)
  }

  function Xor32(x: u32, y: u32): u32 {
    WordBounds(x, y);
    Xor(x, y)
  }

  function Not32(x: u32): u32 {
    0xffff_ffff - x
  }

  // ---- shifts ---------------------------------------------------------------------------------------

  /** `x << n` on 32 bits. */
  function Shl32(x: u32, n: nat): u32 {
    if n == 0 then x
    else
      var y := Shl32(x, n - 1);
      if y < 0x8000_0000 then 2 * y else 2 * y - 0x1_0000_0000
  }

  /** `x >> n`. */
  function Shr32(x: u32, n: nat): u32 {
    if n == 0 then x else Shr32(x, n - 1) / 2
  }

  // ---- sums -------------------------------------------------------------------------------------------

  lemma Sum4(a: u32, b: u32, c: u32, d: u32)
    ensures Add32(Add32(Add32(a, b), c), d) == (a as int + b as int + c as int + d as int) % 0x1_0000_0000
  {
  }

  lemma Sum5(a: u32, b: u32, c: u32, d: u32, e: u32)
    ensures Add32(Add32(Add32(a, b), c), Add32(d, e)) == (a as int + b as int + c as int + d as int + e as int) % 0x1_0000_0000
    ensures Add32(Add32(Add32(Add32(a, b), c), d), e) == (a as int + b as int + c as int + d as int + e as int) % 0x1_0000_0000
  {
  }

  // ---- the identities behind the rewritten SHA-1 functions -------------------------------------------

  /** Numbers with equal halves and equal low bits are equal. */
  lemma SameParts(x: nat, y: nat)
    requires x / 2 == y / 2 && (x % 2 == 1 <==> y % 2 == 1)
    ensures x == y
  {
  }

  lemma {:induction false} ChooseBits(b: nat, nb: nat, c: nat, d: nat, k: nat)
    requires b < Pow2(k) && nb == Pow2(k) - 1 - b && c < Pow2(k) && d < Pow2(k)
    ensures Xor(d, And(b, Xor(c, d))) == Xor(And(b, c), And(nb, d))
  {
    if k > 0 {
      var p := Pow2(k - 1);
      assert nb == 2 * p - 1 - b;
      assert nb / 2 == p - 1 - b / 2 && (nb % 2 == 1 <==> b % 2 == 0);
      ChooseBits(b / 2, nb / 2, c / 2, d / 2, k - 1);
      XorParts(c, d);
      AndParts(b, Xor(c, d));
      XorParts(d, And(b, Xor(c, d)));
      AndParts(b, c);
      AndParts(nb, d);
      XorParts(And(b, c), And(nb, d));
      SameParts(Xor(d, And(b, Xor(c, d))), Xor(And(b, c), And(nb, d)));
    }
  }

  lemma {:induction false} MajorityBits(b: nat, c: nat, d: nat)
    ensures Or(And(b, c), And(d, Or(b, c))) == Xor(Xor(And(b, c), And(b, d)), And(c, d))
    decreases b + c + d
  {
    if b != 0 || c != 0 || d != 0 {
      MajorityBits(b / 2, c / 2, d / 2);
      AndParts(b, c);
      AndParts(b, d);
      AndParts(c, d);
      OrParts(b, c);
      AndParts(d, Or(b, c));
      OrParts(And(b, c), And(d, Or(b, c)));
      XorParts(And(b, c), And(b, d));
      XorParts(Xor(And(b, c), And(b, d)), And(c, d));
      SameParts(Or(And(b, c), And(d, Or(b, c))), Xor(Xor(And(b, c), And(b, d)), And(c, d)));
    }
  }

  // ---- bytes ------------------------------------------------------------------------------------------

  lemma BytePowers(w: nat)
    requires w == 8
    ensures Pow2(w) == 0x100 && Pow2(2 * w) == 0x1_0000 && Pow2(3 * w) == 0x100_0000
  {
    assert Pow2(w - 6) == 2 * Pow2(w - 7) && Pow2(w - 7) == 2 * Pow2(w - 8);
    Pow2Add(w - 6, w - 6);
    Pow2Add(w - 4, w - 4);
    Pow2Add(w, w);
    Pow2Add(w, 2 * w);
  }

  /** `b0 << 24 | b1 << 16 | b2 << 8 | b3`. */
  method JoinBytes(b0: u8, b1: u8, b2: u8, b3: u8) returns (x: u32)
    ensures x == b0 as int * 0x100_0000 + b1 as int * 0x1_0000 + b2 as int * 0x100 + b3 as int
  {
    ghost var w := 8;
    BytePowers(w);
    OrStep((b1 as int) * 0x1_0000, b0, 3 * w, 0x100_0000);
    x := Or((b0 as int) * 0x100_0000, (b1 as int) * 0x1_0000);
    OrStep((b2 as int) * 0x100, (b0 as int) * 0x100 + b1 as int, 2 * w, 0x1_0000);
    x := Or(x, (b2 as int) * 0x100);
    OrStep(b3, (b0 as int) * 0x1_0000 + (b1 as int) * 0x100 + b2 as int, w, 0x100);
    x := Or(x, b3);
  }

  /** The bytes of a word, highest first: `x >> 24`, `x >> 16`, `x >> 8`, `x` as bytes. */
  method SplitBytes(x: u32) returns (b0: u8, b1: u8, b2: u8, b3: u8)
    ensures x == b0 as int * 0x100_0000 + b1 as int * 0x1_0000 + b2 as int * 0x100 + b3 as int
  {
    var y := x / 0x100;
    b3 := x % 0x100;
    var z := y / 0x100;
    b2 := y % 0x100;
    b0, b1 := z / 0x100, z % 0x100;
  }
}
