/** The modular inverse of p256.c, by binary Euclid. */
module P256Inv {
  import opened Words
  import opened Modular
  import opened Digits
  import opened Divisors
  import opened P256
  import opened P256Arith

  // ---- steps ------------------------------------------------------------------------

  lemma Parity(a: seq<u32>)
    requires |a| > 0
    ensures Nat(a) % 2 == a[0] % 2
  {
    var k := LowWord(a);
    EvenPart(Nat(a), a[0], k);
  }

  lemma EvenPart(x: int, d: int, k: int)
    requires x == d + 0x1_0000_0000 * k
    ensures x % 2 == d % 2
  {
    var h := 0x8000_0000 * k;
    assert x == d + 2 * h;
  }

  /** p256_is_even. */
  method IsEven(a: array<u32>) returns (r: bool)
    requires a.Length == 8
    ensures r <==> Nat(a[..]) % 2 == 0
  {
    Parity(a[..]);
    r := a[0] % 2 == 0;
  }

  lemma Halved(x: int, c: int, h: int, d: int, n: int)
    requires 2 * h + d % 2 == n && n == x + c * TWO_256 && d % 2 == x % 2 && n % 2 == 0
    ensures 2 * h == n
  {
  }

  /** p256_shr1 of an even number whose bit 256 is carry. */
  method HalveWith(r: array<u32>, carry: u32, ghost n: int)
    requires r.Length == 8 && carry <= 1 && n == Nat(r[..]) + carry * TWO_256 && n % 2 == 0
    modifies r
    ensures 2 * Nat(r[..]) == n
  {
    ghost var x, d := Nat(r[..]), r[0];
    Parity(r[..]);
    Shr1(r, carry, r);
    Halved(x, carry, Nat(r[..]), d, n);
  }

  /** Halving modulo an odd number. */
  lemma HalveClass(r: int, h: int, a: int, u: int, m: int)
    requires m % 2 == 1 && (2 * h == r || 2 * h == r + m) && Cong(r * a, 2 * u, m)
    ensures Cong(h * a, u, m)
  {
    assert 2 * u == u * 2;
    if 2 * h == r {
      assert (h * a) * 2 == r * a;
    } else {
      assert (h * a) * 2 == r * a + a * m;
      CongIntro((h * a) * 2, r * a, m, a);
      CongTrans((h * a) * 2, r * a, u * 2, m);
    }
    var i := (m + 1) / 2;
    CongIntro(2 * i, 1, m, 1);
    CongCancel(h * a, u, 2, i, m);
  }

  /** r = r/2 mod MOD: the inner branch on p256_is_even. */
  method HalveMod(r: array<u32>, mod: array<u32>)
    requires r.Length == 8 && mod.Length == 8 && mod != r
    requires Nat(mod[..]) % 2 == 1 && Nat(r[..]) < Nat(mod[..])
    modifies r
    ensures 2 * Nat(r[..]) == old(Nat(r[..])) || 2 * Nat(r[..]) == old(Nat(r[..])) + Nat(mod[..])
    ensures Nat(r[..]) < Nat(mod[..])
  {
    ghost var x, m := Nat(r[..]), Nat(mod[..]);
    NumBound(r[..]);
    NumBound(mod[..]);
    var even := IsEven(r);
    var carry := 0;
    if !even {
      carry := Add(r, mod, r);
    }
    HalveWith(r, carry, if even then x else x + m);
  }

  /** One halving branch of the loop: u is even, and r goes along with it modulo MOD. */
  method Halve(u: array<u32>, r: array<u32>, mod: array<u32>, ghost a: int)
    requires u.Length == 8 && r.Length == 8 && mod.Length == 8 && u != r && mod != u && mod != r
    requires Nat(u[..]) % 2 == 0 && Nat(mod[..]) % 2 == 1
    requires Nat(r[..]) < Nat(mod[..]) && Cong(Nat(r[..]) * a, Nat(u[..]), Nat(mod[..]))
    modifies u, r
    ensures old(Nat(u[..])) == 2 * Nat(u[..])
    ensures 0 <= Nat(r[..]) < Nat(mod[..]) && Cong(Nat(r[..]) * a, Nat(u[..]), Nat(mod[..]))
  {
    ghost var m, x := Nat(mod[..]), Nat(r[..]);
    HalveWith(u, 0, Nat(u[..]));
    HalveMod(r, mod);
    NumBound(r[..]);
    HalveClass(x, Nat(r[..]), a, Nat(u[..]), m);
  }

  lemma SubClass(s: int, r: int, t: int, a: int, u: int, v: int, m: int)
    requires (t == s - r || t == s - r + m) && Cong(s * a, v, m) && Cong(r * a, u, m)
    ensures Cong(t * a, v - u, m)
  {
    CongSub(s * a, v, r * a, u, m);
    assert (s - r) * a == s * a - r * a;
    if t == s - r + m {
      assert t * a == (s - r) * a + a * m;
      CongIntro(t * a, (s - r) * a, m, a);
      CongTrans(t * a, (s - r) * a, v - u, m);
    }
  }

  /** One subtracting branch: v -= u, s -= r modulo MOD. */
  method Subtract(v: array<u32>, u: array<u32>, s: array<u32>, r: array<u32>, mod: array<u32>, ghost a: int)
    requires u.Length == 8 && r.Length == 8 && v.Length == 8 && s.Length == 8 && mod.Length == 8
    requires v != s && v != u && v != r && s != u && s != r && mod != v && mod != s
    requires Nat(u[..]) <= Nat(v[..])
    requires Nat(r[..]) < Nat(mod[..]) && Cong(Nat(r[..]) * a, Nat(u[..]), Nat(mod[..]))
    requires Nat(s[..]) < Nat(mod[..]) && Cong(Nat(s[..]) * a, Nat(v[..]), Nat(mod[..]))
    modifies v, s
    ensures Nat(v[..]) == old(Nat(v[..])) - Nat(u[..])
    ensures 0 <= Nat(s[..]) < Nat(mod[..]) && Cong(Nat(s[..]) * a, Nat(v[..]), Nat(mod[..]))
  {
    ghost var m, x, y, n := Nat(mod[..]), Nat(s[..]), Nat(r[..]), Nat(v[..]);
    NumBound(s[..]);
    NumBound(r[..]);
    NumBound(mod[..]);
    var borrow := Sub(v, u, v);
    NumBound(v[..]);
    borrow := Sub(s, r, s);
    NumBound(s[..]);
    if borrow != 0 {
      var carry := Add(s, mod, s);
      NumBound(s[..]);
    }
    SubClass(x, y, Nat(s[..]), a, Nat(u[..]), n, m);
  }

  // ---- the loop -----------------------------------------------------------------------

  /** What every pass of binary Euclid keeps: u and v still have the gcd of m and a, not both
      are even, and r and s are their cofactors of a modulo m. */
  ghost predicate Euclid(m: int, a: int, u: int, v: int, r: int, s: int) {
    && u > 0 && v >= 0 && (u % 2 == 1 || v % 2 == 1)
    && 0 <= r < m && 0 <= s < m
    && Cong(r * a, u, m) && Cong(s * a, v, m)
    && SameDivisors(u, v, m, a)
  }

  lemma EuclidStart(m: int, a: int)
    requires m > 1 && m % 2 == 1 && a > 0
    ensures Euclid(m, a, m, a, 0, 1)
  {
    CongIntro(0 * a, m, m, -1);
    CongRefl(1 * a, m);
  }

  lemma EuclidHalveU(m: int, a: int, u: int, v: int, r: int, s: int, h: int, t: int)
    requires Euclid(m, a, u, v, r, s) && u == 2 * h
    requires 0 <= t < m && Cong(t * a, h, m)
    ensures Euclid(m, a, h, v, t, s)
  {
    HalveKeeps(h, v);
    assert SameDivisors(h, v, u, v);
    SameDivisorsTrans(h, v, u, v, m, a);
  }

  lemma EuclidHalveV(m: int, a: int, u: int, v: int, r: int, s: int, h: int, t: int)
    requires Euclid(m, a, u, v, r, s) && v == 2 * h
    requires 0 <= t < m && Cong(t * a, h, m)
    ensures Euclid(m, a, u, h, r, t)
  {
    HalveKeeps(h, u);
    assert SameDivisors(u, h, u, v);
    SameDivisorsTrans(u, h, u, v, m, a);
  }

  lemma EuclidSubtractV(m: int, a: int, u: int, v: int, r: int, s: int, t: int)
    requires Euclid(m, a, u, v, r, s) && u % 2 == 1 && u <= v
    requires 0 <= t < m && Cong(t * a, v - u, m)
    ensures Euclid(m, a, u, v - u, r, t)
  {
    SubtractKeeps(u, v);
    assert SameDivisors(u, v - u, u, v);
    SameDivisorsTrans(u, v - u, u, v, m, a);
  }

  lemma EuclidSubtractU(m: int, a: int, u: int, v: int, r: int, s: int, t: int)
    requires Euclid(m, a, u, v, r, s) && v % 2 == 1 && v < u
    requires 0 <= t < m && Cong(t * a, u - v, m)
    ensures Euclid(m, a, u - v, v, t, s)
  {
    SubtractKeeps(u, v);
    assert SameDivisors(u - v, v, u, v);
    SameDivisorsTrans(u - v, v, u, v, m, a);
  }

  /** When v reaches zero, u is the greatest common divisor. */
  lemma EuclidEnd(m: int, a: int, u: int, r: int, s: int)
    requires Euclid(m, a, u, 0, r, s)
    ensures Gcd(u, m, a)
    ensures Coprime(m, a) ==> u == 1
  {
    assert DividesBy(u, u, 1) && DividesBy(u, 0, 0);
    assert Common(u, u, 0) <==> Common(u, m, a);
    forall d: int | Common(d, m, a)
      ensures Divides(d, u)
    {
      assert Common(d, u, 0);
    }
  }

  /** p256_mod: out = in mod MOD, by at most one subtraction. out may be in. */
  method Mod(mod: array<u32>, input: array<u32>, out: array<u32>)
    requires mod.Length == 8 && input.Length == 8 && out.Length == 8 && mod != out
    modifies out
    ensures Nat(out[..]) == if old(Nat(input[..])) >= Nat(mod[..]) then old(Nat(input[..])) - Nat(mod[..]) else old(Nat(input[..]))
  {
    Copy(input, out);
    assert out[..8] == out[..];
    ReduceOnce(mod, out);
    assert out[..8] == out[..];
  }

  method Copy(a: array<u32>, b: array<u32>)
    requires a.Length == 8 && b.Length == 8
    modifies b
    ensures b[..] == old(a[..])
  {
    if a != b {
      for i := 0 to 8
        invariant b[..i] == a[..i]
      {
        b[i] := a[i];
      }
      assert a[..8] == a[..] && b[..8] == b[..];
    }
  }

  method Constant(low: u32) returns (c: array<u32>)
    ensures fresh(c) && c.Length == 8 && Nat(c[..]) == low
  {
    c := new u32[8](i => if i == 0 then low else 0);
    SingleDigit(c[..], low);
  }

  /** p256_modinv_vartime: b = 1/a mod MOD by binary Euclid. For every odd MOD > 1 and every
      nonzero a (a >= MOD included) the loop ends, since u + v falls on every pass, with the
      cofactor of the gcd of a and MOD. b may be a. */
  method ModInv(mod: array<u32>, a: array<u32>, b: array<u32>) returns (ghost g: int)
    requires mod.Length == 8 && a.Length == 8 && b.Length == 8 && mod != b
    requires Nat(mod[..]) % 2 == 1 && Nat(mod[..]) > 1 && Nat(a[..]) != 0
    modifies b
    ensures 0 <= Nat(b[..]) < Nat(mod[..])
    ensures Gcd(g, Nat(mod[..]), old(Nat(a[..]))) && Cong(Nat(b[..]) * old(Nat(a[..])), g, Nat(mod[..]))
    ensures Coprime(Nat(mod[..]), old(Nat(a[..]))) ==> Cong(Nat(b[..]) * old(Nat(a[..])), 1, Nat(mod[..]))
  {
    ghost var m, x := Nat(mod[..]), Nat(a[..]);
    NumBound(a[..]);
    var r := Constant(0);
    var s := Constant(1);
    var u, v := new u32[8], new u32[8];
    Copy(mod, u);
    Copy(a, v);
    EuclidStart(m, x);
    var done := false;
    while !done
      invariant fresh(r) && fresh(s) && fresh(u) && fresh(v)
      invariant r.Length == 8 && s.Length == 8 && u.Length == 8 && v.Length == 8
      invariant r != s && r != u && r != v && s != u && s != v && u != v
      invariant Euclid(m, x, Nat(u[..]), Nat(v[..]), Nat(r[..]), Nat(s[..]))
      invariant done <==> Nat(v[..]) == 0
      decreases Nat(u[..]) + Nat(v[..]), !done
    {
      done := Step(mod, u, v, r, s, x);
    }
    g := Nat(u[..]);
    EuclidEnd(m, x, g, Nat(r[..]), Nat(s[..]));
    Mod(mod, r, b);
  }

  /** One pass of the loop. */
  method Step(mod: array<u32>, u: array<u32>, v: array<u32>, r: array<u32>, s: array<u32>, ghost a: int) returns (done: bool)
    requires mod.Length == 8 && u.Length == 8 && v.Length == 8 && r.Length == 8 && s.Length == 8
    requires r != s && r != u && r != v && s != u && s != v && u != v
    requires mod != u && mod != v && mod != r && mod != s
    requires Nat(mod[..]) % 2 == 1
    requires Euclid(Nat(mod[..]), a, Nat(u[..]), Nat(v[..]), Nat(r[..]), Nat(s[..])) && Nat(v[..]) != 0
    modifies u, v, r, s
    ensures Euclid(Nat(mod[..]), a, Nat(u[..]), Nat(v[..]), Nat(r[..]), Nat(s[..]))
    ensures done <==> Nat(v[..]) == 0
    ensures 0 <= Nat(u[..]) + Nat(v[..]) < old(Nat(u[..]) + Nat(v[..]))
  {
    ghost var m, x, y, c, d := Nat(mod[..]), Nat(u[..]), Nat(v[..]), Nat(r[..]), Nat(s[..]);
    done := false;
    var even := IsEven(u);
    if even {
      Halve(u, r, mod, a);
      EuclidHalveU(m, a, x, y, c, d, Nat(u[..]), Nat(r[..]));
      return;
    }
    even := IsEven(v);
    if even {
      Halve(v, s, mod, a);
      EuclidHalveV(m, a, x, y, c, d, Nat(v[..]), Nat(s[..]));
    } else {
      var below := Sub(v, u, null);
      if below == 0 {
        Subtract(v, u, s, r, mod, a);
        EuclidSubtractV(m, a, x, y, c, d, Nat(s[..]));
        done := IsZero(v);
      } else {
        Subtract(u, v, r, s, mod, a);
        EuclidSubtractU(m, a, x, y, c, d, Nat(r[..]));
      }
    }
  }
}
