/** The key parameters DumpPublicKey.java derives from a modulus, and that they are what rsa.c
    needs. */
module RsaKey {
  import opened Words
  import opened Modular
  import opened Bits
  import opened Digits
  import opened Divisors
  import opened Rsa

  datatype Printed = Printed(key: Key) | Refused

  /** The base-2^32 digits of a number: `n = N.mod(B), N = N.divide(B)`. */
  method LittleEndian(n: int, words: nat) returns (s: seq<u32>)
    requires 0 <= n < Base(words)
    ensures |s| == words && Nat(s) == n
  {
    s := [];
    var rest := n;
    for i := 0 to words
      invariant |s| == i && rest >= 0 && Nat(s) + rest * Base(i) == n
    {
      var d, q := Digit(rest);
      NatSnoc(s, d);
      ChainStep(rest, d, q, Base(i));
      s := s + [d];
      rest := q;
    }
    NatBound(s);
    BasePositive(words);
    LeftOver(Nat(s), rest, Base(words));
  }

  method Digit(x: int) returns (d: u32, q: int)
    requires x >= 0
    ensures x == d + 0x1_0000_0000 * q && q >= 0
  {
    d := x % 0x1_0000_0000;
    q := x / 0x1_0000_0000;
  }

  lemma LeftOver(v: int, rest: int, w: int)
    requires 0 <= v && rest >= 0 && w > 0 && v + rest * w < w
    ensures rest == 0
  {
    assert rest > 0 ==> rest * w >= w;
  }

  /** Odd numbers have no common divisor with a power of two. */
  lemma {:induction false} OddAndPow2(g: int, n: int, k: nat)
    requires g > 0 && n % 2 == 1 && Divides(g, n) && Divides(g, Pow2(k))
    ensures g == 1
  {
    if k == 0 {
      DivisorBound(g, 1);
    } else {
      HalfDivides(g, Pow2(k - 1), n);
      OddAndPow2(g, n, k - 1);
    }
  }

  lemma OddInverse(n: nat, w: nat) returns (x: int)
    requires n % 2 == 1 && w == 32
    ensures 0 <= x < 0x1_0000_0000 && (n * x) % 0x1_0000_0000 == 1
  {
    Pow2Thirty2(w);
    var a, b, g := Bezout(n, Pow2(w));
    OddAndPow2(g, n, w);
    x := a % 0x1_0000_0000;
    CongReduce(a, 0x1_0000_0000);
    CongScale(x, a, n, 0x1_0000_0000);
    assert x * n == n * x && a * n == n * a;
    CongIntro(n * a, 1, 0x1_0000_0000, -b);
    CongTrans(n * x, n * a, 1, 0x1_0000_0000);
    CongMod(n * x, 1, 0x1_0000_0000);
  }

  lemma NegatedInverse(n: int, low: int, q: int, x: int, inv: int)
    requires n == low + 0x1_0000_0000 * q && (n * x) % 0x1_0000_0000 == 1 && inv == 0x1_0000_0000 - x
    ensures (inv * low + 1) % 0x1_0000_0000 == 0
  {
    var w := 0x1_0000_0000;
    CongOfMod(n * x, 1, w);
    assert inv * low + 1 == (1 - n * x) + (low + q * x) * w;
    CongIntro(inv * low + 1, 1 - n * x, w, low + q * x);
    CongRefl(1, w);
    CongSub(1, 1, n * x, 1, w);
    CongTrans(inv * low + 1, 1 - n * x, 0, w);
    CongMod(inv * low + 1, 0, w);
  }

  /** An odd modulus of full length exceeds half the radix. */
  lemma MoreThanHalf(n: int, words: nat)
    requires words > 0 && n % 2 == 1 && 2 * n >= Base(words)
    ensures 2 * n > Base(words)
  {
    assert Base(words) == 2 * (0x8000_0000 * Base(words - 1));
  }

  /** checkRSA and printRSA, for a modulus of `words` words (64 in the original, which refuses
      any modulus that does not have exactly that many bits). BigInteger.modInverse fails on
      even moduli. */
  method PrintRSA(n: int, e: int, words: nat) returns (r: Printed)
    requires words > 0
    ensures r.Printed? <==> (e == 3 || e == 65537) && Base(words) <= 2 * n && n < Base(words) && n % 2 == 1
    ensures r.Printed? ==> Usable(r.key) && Modulus(r.key) == n && |r.key.n| == words && r.key.exponent == e
  {
    var R := Base(words);
    BasePositive(words);
    if (e != 3 && e != 65537) || 2 * n < R || n >= R || n % 2 == 0 {
      return Refused;
    }
    ghost var w := 32;
    ghost var inverse := OddInverse(n, w);
    var x: int :| 0 <= x < 0x1_0000_0000 && (n * x) % 0x1_0000_0000 == 1;
    assert x != 0;
    var n0inv: u32 := 0x1_0000_0000 - x;
    var digits := LittleEndian(n, words);
    var square := (R * R) % n;
    var rr := LittleEndian(square, words);
    ghost var q := LowWord(digits);
    NegatedInverse(n, digits[0], q, x, n0inv);
    MoreThanHalf(n, words);
    CongReduce(R * R, n);
    r := Printed(Key(n0inv, digits, rr, e));
  }

  /** A printed key raises every byte string of its length to e modulo n. */
  method PrintThenRaise(n: int, e: int, words: nat, inout: array<u8>) returns (ok: bool)
    requires words > 0 && inout.Length == 4 * words
    modifies inout
    ensures ok <==> (e == 3 || e == 65537) && Base(words) <= 2 * n && n < Base(words) && n % 2 == 1
    ensures ok ==> n > 0 && e >= 0 && BigEndian(inout[..]) == Pow(old(BigEndian(inout[..])), e) % n
    ensures !ok ==> inout[..] == old(inout[..])
  {
    var p := PrintRSA(n, e, words);
    ok := p.Printed?;
    if ok {
      ModPow(p.key, inout);
    }
  }
}
