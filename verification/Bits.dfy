/** Bitwise operations of C on non-negative integers, bit by bit, and the cases
    where they are ordinary arithmetic. */
module Bits {

  function Or(x: nat, y: nat): nat
    decreases x + y
  {
    if x == 0 && y == 0 then 0
    else 2 * Or(x / 2, y / 2) + (if x % 2 == 1 || y % 2 == 1 then 1 else 0)
  }

  function Xor(x: nat, y: nat): nat
    decreases x + y
  {
    if x == 0 && y == 0 then 0
    else 2 * Xor(x / 2, y / 2) + (if x % 2 != y % 2 then 1 else 0)
  }

  function Pow2(k: nat): (p: nat)
    ensures p > 0
  {
    if k == 0 then 1 else 2 * Pow2(k - 1)
  }

  lemma {:induction false} Pow2Add(i: nat, j: nat)
    ensures Pow2(i + j) == Pow2(i) * Pow2(j)
  {
    if i > 0 {
      Pow2Add(i - 1, j);
    }
  }

  lemma Pow2Thirty2(w: nat)
    requires w == 32
    ensures Pow2(w) == 0x1_0000_0000
  {
    Pow2Sixteen(w / 8);
    Pow2Double(w / 8, 16);
    Pow2Double(w / 4, 0x100);
    Pow2Double(w / 2, 0x1_0000);
  }

  lemma Pow2Sixteen(h: nat)
    requires h == 4
    ensures Pow2(h) == 16
  {
    assert Pow2(h) == 2 * Pow2(h - 1) && Pow2(h - 1) == 2 * Pow2(h - 2) && Pow2(h - 2) == 2 * Pow2(h - 3);
  }

  lemma Pow2Double(h: nat, p: nat)
    requires Pow2(h) == p
    ensures Pow2(2 * h) == p * p
  {
    Pow2Add(h, h);
  }

  lemma {:induction false} OrZero(y: nat)
    ensures Or(0, y) == y
  {
    if y != 0 {
      OrZero(y / 2);
    }
  }

  /** OR of numbers with no bit in common: a below bit k, the other above. */
  lemma {:induction false} OrDisjoint(a: nat, c: nat, k: nat)
    requires a < Pow2(k)
    ensures Or(a, c * Pow2(k)) == a + c * Pow2(k)
  {
    if k == 0 {
      OrZero(c);
    } else {
      var h := c * Pow2(k - 1);
      assert c * Pow2(k) == 2 * h;
      if a != 0 || h != 0 {
        assert (2 * h) / 2 == h && (2 * h) % 2 == 0;
        OrDisjoint(a / 2, c, k - 1);
      }
    }
  }

  lemma {:induction false} OrCommutes(x: nat, y: nat)
    ensures Or(x, y) == Or(y, x)
    decreases x + y
  {
    if x != 0 || y != 0 {
      OrCommutes(x / 2, y / 2);
    }
  }

  /** XOR undoes itself. */
  lemma {:induction false} XorTwice(x: nat, y: nat)
    ensures Xor(Xor(x, y), y) == x
    decreases x + y
  {
    if x != 0 || y != 0 {
      var r, b := Xor(x / 2, y / 2), if x % 2 != y % 2 then 1 else 0;
      XorTwice(x / 2, y / 2);
      assert Xor(x, y) == 2 * r + b;
      assert (2 * r + b) / 2 == r && (2 * r + b) % 2 == b;
    }
  }

  lemma {:induction false} XorBound(x: nat, y: nat, k: nat)
    requires x < Pow2(k) && y < Pow2(k)
    ensures Xor(x, y) < Pow2(k)
  {
    if k > 0 && (x != 0 || y != 0) {
      XorBound(x / 2, y / 2, k - 1);
    }
  }

  lemma OrStep(a: nat, c: nat, k: nat, p: nat)
    requires p == Pow2(k) && a < p
    ensures Or(a, c * p) == a + c * p && Or(c * p, a) == a + c * p
  {
    OrDisjoint(a, c, k);
    OrCommutes(a, c * p);
  }

  // ---- bits of OR and XOR ---------------------------------------------------------------

  lemma {:induction false} XorCommutes(x: nat, y: nat)
    ensures Xor(x, y) == Xor(y, x)
    decreases x + y
  {
    if x != 0 || y != 0 {
      XorCommutes(x / 2, y / 2);
    }
  }

  lemma {:induction false} XorZero(x: nat)
    ensures Xor(x, 0) == x
  {
    if x != 0 {
      XorZero(x / 2);
    }
  }

  lemma {:induction false} XorIsZero(x: nat, y: nat)
    ensures Xor(x, y) == 0 <==> x == y
    decreases x + y
  {
    if x != 0 || y != 0 {
      XorIsZero(x / 2, y / 2);
    }
  }

  lemma OrParts(x: nat, y: nat)
    ensures Or(x, y) / 2 == Or(x / 2, y / 2)
    ensures Or(x, y) % 2 == 1 <==> x % 2 == 1 || y % 2 == 1
  {
    if x == 0 && y == 0 {
      assert Or(x / 2, y / 2) == 0;
    } else {
      var r := Or(x / 2, y / 2);
      assert Or(x, y) == 2 * r + (if x % 2 == 1 || y % 2 == 1 then 1 else 0);
    }
  }
}
