/** Little-endian numbers in base 2^32, of any length, and carry chains over them. */
module Digits {
  import opened Words
  import opened Modular

  function Base(k: nat): int {
    if k == 0 then 1 else Base(k - 1) * 0x1_0000_0000
  }

  /** The number a digit sequence stands for. */
  ghost function Nat(s: seq<int>): int {
    if s == [] then 0 else Nat(s[..|s| - 1]) + s[|s| - 1] * Base(|s| - 1)
  }

  lemma NatSnoc(s: seq<int>, x: int)
    ensures Nat(s + [x]) == Nat(s) + x * Base(|s|)
  {
    assert (s + [x])[..|s|] == s;
  }

  lemma NatStep(s: seq<int>, k: nat)
    requires k < |s|
    ensures Nat(s[..k + 1]) == Nat(s[..k]) + s[k] * Base(k)
  {
    assert s[..k + 1][..k] == s[..k];
  }

  lemma {:induction false} BasePositive(k: nat)
    ensures Base(k) > 0
  {
    if k > 0 {
      BasePositive(k - 1);
    }
  }

  lemma {:induction false} BaseAdd(i: nat, j: nat)
    ensures Base(i + j) == Base(i) * Base(j)
  {
    if j > 0 {
      BaseAdd(i, j - 1);
      assert Base(i) * (Base(j - 1) * 0x1_0000_0000) == (Base(i) * Base(j - 1)) * 0x1_0000_0000;
    }
  }

  /** Concatenation: the upper part counts Base(lower length). */
  lemma {:induction false} NatConcat(s: seq<int>, t: seq<int>)
    ensures Nat(s + t) == Nat(s) + Nat(t) * Base(|s|)
  {
    if t == [] {
      assert s + t == s;
    } else {
      var n := |t| - 1;
      NatConcat(s, t[..n]);
      assert s + t == (s + t[..n]) + [t[n]];
      NatSnoc(s + t[..n], t[n]);
      BaseAdd(|s|, n);
      Distribute(Nat(t[..n]), t[n] * Base(n), Base(|s|));
      assert (t[n] * Base(n)) * Base(|s|) == t[n] * (Base(|s|) * Base(n));
    }
  }

  lemma NatCons(d: int, s: seq<int>)
    ensures Nat([d] + s) == d + Nat(s) * 0x1_0000_0000
  {
    NatConcat([d], s);
    assert Base(|[d]|) == Base(0) * 0x1_0000_0000;
    NatSnoc([], d);
    assert [] + [d] == [d];
  }

  lemma LowWord(s: seq<int>) returns (q: int)
    requires |s| > 0
    ensures Nat(s) == s[0] + 0x1_0000_0000 * q
  {
    assert s == [s[0]] + s[1..];
    NatCons(s[0], s[1..]);
    q := Nat(s[1..]);
  }

  lemma {:induction false} ZeroNat(s: seq<int>)
    requires forall k :: 0 <= k < |s| ==> s[k] == 0
    ensures Nat(s) == 0
  {
    if s != [] {
      ZeroNat(s[..|s| - 1]);
    }
  }

  lemma MulBound(x: int, y: int, c: int, d: int)
    requires 0 <= x <= c && 0 <= y <= d
    ensures 0 <= x * y <= c * d
  {
    assert x * y <= x * d;
    assert x * d <= c * d;
  }

  lemma {:induction false} NatBound(s: seq<u32>)
    ensures 0 <= Nat(s) < Base(|s|)
  {
    if s != [] {
      var i := |s| - 1;
      NatBound(s[..i]);
      DigitBound(Nat(s[..i]), s[i], Base(i), 0x1_0000_0000);
    }
  }

  /** A number has one digit sequence of a given length. */
  lemma {:induction false} NatUnique(s: seq<u32>, t: seq<u32>)
    requires |s| == |t| && Nat(s) == Nat(t)
    ensures s == t
  {
    if s != [] {
      var i := |s| - 1;
      NatBound(s[..i]);
      NatBound(t[..i]);
      DivModUnique(s[i], Nat(s[..i]), Base(i), Nat(s));
      DivModUnique(t[i], Nat(t[..i]), Base(i), Nat(t));
      NatUnique(s[..i], t[..i]);
      assert s == s[..i] + [s[i]] && t == t[..i] + [t[i]];
    }
  }

  // ---- linearity ---------------------------------------------------------------

  lemma {:induction false} NatAdd(x: seq<int>, y: seq<int>, z: seq<int>)
    requires |x| == |y| == |z| && forall k :: 0 <= k < |z| ==> z[k] == x[k] + y[k]
    ensures Nat(z) == Nat(x) + Nat(y)
  {
    if z != [] {
      var i := |z| - 1;
      NatAdd(x[..i], y[..i], z[..i]);
      Distribute(x[i], y[i], Base(i));
    }
  }

  lemma {:induction false} NatScale(m: int, x: seq<int>, z: seq<int>)
    requires |x| == |z| && forall k :: 0 <= k < |z| ==> z[k] == x[k] * m
    ensures Nat(z) == Nat(x) * m
  {
    if z != [] {
      var i := |z| - 1;
      NatScale(m, x[..i], z[..i]);
      Distribute(Nat(x[..i]), x[i] * Base(i), m);
      assert (x[i] * Base(i)) * m == (x[i] * m) * Base(i);
    }
  }

  // ---- carry chains --------------------------------------------------------------

  /** o holds the finished digits of a carry (or borrow) chain over the raw digits z,
      and carry is what the chain hands to the next digit. */
  ghost predicate Chain(o: seq<int>, z: seq<int>, carry: int)
    requires |o| <= |z|
  {
    if o == [] then carry == 0
    else
      var i := |o| - 1;
      && 0 <= o[i] < 0x1_0000_0000
      && Chain(o[..i], z, o[i] + 0x1_0000_0000 * carry - z[i])
  }

  lemma ChainDigit(o: seq<int>, z: seq<int>, carry: int, low: int, next: int)
    requires |o| < |z| && Chain(o, z, carry)
    requires z[|o|] + carry == low + 0x1_0000_0000 * next && 0 <= low < 0x1_0000_0000
    ensures Chain(o + [low], z, next)
  {
    assert (o + [low])[..|o|] == o;
  }

  lemma ChainStep(x: int, low: int, next: int, w: int)
    requires x == low + 0x1_0000_0000 * next
    ensures low * w + next * (w * 0x1_0000_0000) == x * w
  {
  }

  /** A chain keeps the number. */
  lemma {:induction false} ChainValue(o: seq<int>, z: seq<int>, carry: int)
    requires |o| <= |z| && Chain(o, z, carry)
    ensures Nat(o) + carry * Base(|o|) == Nat(z[..|o|])
  {
    if o != [] {
      var i := |o| - 1;
      var before := o[i] + 0x1_0000_0000 * carry - z[i];
      ChainValue(o[..i], z, before);
      NatStep(z, i);
      ChainStep(z[i] + before, o[i], carry, Base(i));
      Distribute(z[i], before, Base(i));
    }
  }

  /** One step of a chain of unsigned 64-bit accumulators:
      `digit = (uint32_t) x; x >>= 32`. */
  method Carry(x: u64) returns (low: u32, next: u32)
    ensures x == low + 0x1_0000_0000 * next
  {
    low := x % 0x1_0000_0000;
    next := x / 0x1_0000_0000;
  }

  /** The same for a signed accumulator, whose shift rounds down: the borrow is 0 or -1
      as long as x stays between -2^32 and 2^32. */
  method Borrow(x: int) returns (low: u32, next: int)
    requires -0x1_0000_0000 <= x < 0x1_0000_0000
    ensures x == low + 0x1_0000_0000 * next
    ensures next == if x < 0 then -1 else 0
  {
    low := x % 0x1_0000_0000;
    next := x / 0x1_0000_0000;
  }
}
