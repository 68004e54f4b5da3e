/** Key validation and signature verification (p256_is_valid_point of p256.c, p256_ecdsa.c). */
module Ecdsa {
  import opened Words
  import opened Modular
  import opened Digits
  import opened Divisors
  import opened P256
  import opened P256Arith
  import opened P256Inv
  import opened Felem
  import J = Jacobian
  import opened ScalarMult
  import opened Montgomery
  import PointsMul

  // The curve coefficient, SECP256r1_b.
  const B: int := 0x5ac635d8_aa3a93e7_b3ebbd55_769886bc_651d06b0_cc53b0f6_3bce3c3e_27d2604b

  const B_DIGITS: seq<u32> :=
    [0x27d2_604b, 0x3bce_3c3e, 0xcc53_b0f6, 0x651d_06b0, 0x7698_86bc, 0xb3eb_bd55, 0xaa3a_93e7, 0x5ac6_35d8]
  const N_DIGITS: seq<u32> :=
    [0xfc63_2551, 0xf3b9_cac2, 0xa717_9e84, 0xbce6_faad, 0xffff_ffff, 0xffff_ffff, 0, 0xffff_ffff]

  lemma CurveConstants()
    ensures Nat(B_DIGITS) == B
    ensures Nat(N_DIGITS) == N && FullModulus(N_DIGITS)
  {
    Nat8(B_DIGITS);
    Nat8(N_DIGITS);
  }

  // ---- key validation ------------------------------------------------------------------------

  /** y^2 = x^3 - 3x + b modulo p. */
  ghost predicate OnCurve(x: int, y: int) {
    Cong(Pow(y, 2), Pow(x, 3) - 3 * x + B, P)
  }

  ghost predicate ValidPoint(x: int, y: int) {
    0 < x < P && 0 < y < P && OnCurve(x, y)
  }

  /** What p256_is_valid_point takes. */
  ghost predicate Taken(x: int, y: int) {
    ValidPoint(x, y) && Pow(y, 2) % P >= TWO_256 - P
  }

  /** c = c - x mod p: `if (p256_sub(c, x, c)) p256_add(c, p, c)`. */
  method SubMod(c: array<u32>, x: array<u32>, p: array<u32>, ghost v: int)
    requires c.Length == 8 && x.Length == 8 && p.Length == 8 && c != x && c != p
    requires Nat(p[..]) == P && 0 <= Nat(c[..]) < P && 0 <= Nat(x[..]) < P && Cong(Nat(c[..]), v, P)
    modifies c
    ensures 0 <= Nat(c[..]) < P && Cong(Nat(c[..]), v - Nat(x[..]), P)
  {
    ghost var a, b := Nat(c[..]), Nat(x[..]);
    CongRefl(b, P);
    CongSub(a, v, b, b, P);
    var borrow := Sub(c, x, c);
    NumBound(c[..]);
    if borrow != 0 {
      var carry := Add(c, p, c);
      NumBound(c[..]);
      assert Nat(c[..]) == a - b + P;
      CongIntro(Nat(c[..]), a - b, P, 1);
      CongTrans(Nat(c[..]), a - b, v - b, P);
    }
  }

  /** c = c + b, with p taken off only where the sum leaves 256 bits. */
  method AddB(c: array<u32>, b: array<u32>, p: array<u32>)
    requires c.Length == 8 && b.Length == 8 && p.Length == 8 && c != b && c != p
    requires Nat(p[..]) == P && Nat(b[..]) == B && 0 <= Nat(c[..]) < P
    modifies c
    ensures Nat(c[..]) == var sum := old(Nat(c[..])) + B; if sum >= TWO_256 then sum - P else sum
  {
    var carry := Add(c, b, c);
    NumBound(c[..]);
    if carry != 0 {
      var borrow := Sub(c, p, c);
      NumBound(c[..]);
    }
  }

  lemma PowNext(x: int, e: nat, v: int)
    requires v == Pow(x, e)
    ensures x * v == Pow(x, e + 1)
  {
  }

  lemma PowTwo(x: int)
    ensures Pow(x, 2) == x * x
  {
    PowOne(x);
    PowNext(x, 1, x);
  }

  lemma CubeClass(x3: int, x2: int, x: int)
    requires Cong(x2, Pow(x, 2), P) && Cong(x3, x * x2, P)
    ensures Cong(x3, Pow(x, 3), P)
  {
    var s := Pow(x, 2);
    CongScale(x2, s, x, P);
    assert x2 * x == x * x2 && s * x == x * s;
    CongTrans(x3, x * x2, x * s, P);
    PowNext(x, 2, s);
  }

  /** The comparison that ends p256_is_valid_point. */
  lemma Compared(y2: int, s: int, yy: int, v: int)
    requires 0 <= y2 < P && Cong(y2, yy, P) && 0 <= s < P && Cong(s, v, P)
    ensures var sum := s + B;
      y2 == (if sum >= TWO_256 then sum - P else sum) <==> Cong(yy, v + B, P) && yy % P >= TWO_256 - P
  {
    CongMod(y2, yy, P);
    assert y2 % P == y2;
    CongRefl(B, P);
    CongAdd(s, v, B, B, P);
    if Cong(yy, v + B, P) {
      CongTrans(y2, yy, v + B, P);
      CongSym(s + B, v + B, P);
      CongTrans(y2, v + B, s + B, P);
      var k :| CongBy(y2, s + B, P, k);
      assert k == 0 || k == -1;
    }
    if y2 == (if s + B >= TWO_256 then s + B - P else s + B) {
      CongIntro(y2, s + B, P, if s + B >= TWO_256 then -1 else 0);
      CongTrans(y2, s + B, v + B, P);
      CongSym(y2, yy, P);
      CongTrans(yy, y2, v + B, P);
    }
  }

  /** y^2 mod p. */
  method SquareOf(y: array<u32>, p: array<u32>) returns (y2: array<u32>)
    requires y.Length == 8 && p.Length == 8 && p[..] == P_DIGITS
    ensures fresh(y2) && y2.Length == 8 && 0 <= Nat(y2[..]) < P && Cong(Nat(y2[..]), Pow(Nat(y[..]), 2), P)
  {
    Constants();
    y2 := new u32[8];
    ModMul(p, y, 0, y, y2);
    PowTwo(Nat(y[..]));
  }

  /** x^3 - 3x mod p, by two products and three subtractions. */
  method CubicOf(x: array<u32>, p: array<u32>) returns (x3: array<u32>)
    requires x.Length == 8 && p.Length == 8 && p[..] == P_DIGITS && 0 <= Nat(x[..]) < P
    ensures fresh(x3) && x3.Length == 8 && 0 <= Nat(x3[..]) < P
    ensures var v := Nat(x[..]); Cong(Nat(x3[..]), Pow(v, 3) - 3 * v, P)
  {
    Constants();
    ghost var v := Nat(x[..]);
    x3 := SquareOf(x, p);
    ghost var x2 := Nat(x3[..]);
    ModMul(p, x, 0, x3, x3);
    CubeClass(Nat(x3[..]), x2, v);
    ghost var cube := Pow(v, 3);
    SubMod(x3, x, p, cube);
    SubMod(x3, x, p, cube - v);
    SubMod(x3, x, p, cube - v - v);
  }

  /** The curve equation, with a last sum that is not always reduced. */
  method SolvesEquation(x: array<u32>, y: array<u32>, p: array<u32>) returns (ok: bool)
    requires x.Length == 8 && y.Length == 8 && p.Length == 8 && p[..] == P_DIGITS && 0 <= Nat(x[..]) < P
    ensures ok <==> OnCurve(Nat(x[..]), Nat(y[..])) && Pow(Nat(y[..]), 2) % P >= TWO_256 - P
  {
    ghost var v, w := Nat(x[..]), Nat(y[..]);
    Constants();
    CurveConstants();
    var y2 := SquareOf(y, p);
    var x3 := CubicOf(x, p);
    Compared(Nat(y2[..]), Nat(x3[..]), Pow(w, 2), Pow(v, 3) - 3 * v);
    var b := FromDigits(B_DIGITS);
    AddB(x3, b, p);
    var c := Cmp(y2, x3);
    ok := c == 0;
  }

  /** p256_is_valid_point. Everything accepted is a valid point; of the valid points, those
      with y^2 mod p below 2^256 - p are refused, because the last sum is left unreduced
      when it falls between p and 2^256. */
  method IsValidPoint(x: array<u32>, y: array<u32>) returns (ok: bool)
    requires x.Length == 8 && y.Length == 8
    ensures ok <==> Taken(Nat(x[..]), Nat(y[..]))
  {
    NumBound(x[..]);
    NumBound(y[..]);
    Constants();
    var p := FromDigits(P_DIGITS);
    var cx := Cmp(p, x);
    var cy := Cmp(p, y);
    var zx := IsZero(x);
    var zy := IsZero(y);
    if cx <= 0 || cy <= 0 || zx || zy {
      return false;
    }
    ok := SolvesEquation(x, y, p);
  }

  /** A point on the curve, with y == 1, that p256_is_valid_point refuses. */
  lemma RefusedPoint()
    ensures ValidPoint(0x9e78d4e_f60d05f7_50f66362_09092bc4_3cbdd6b4_7e11a9de_20a9feb2_a50bb96c, 1)
    ensures !Taken(0x9e78d4e_f60d05f7_50f66362_09092bc4_3cbdd6b4_7e11a9de_20a9feb2_a50bb96c, 1)
  {
    var x := 0x9e78d4e_f60d05f7_50f66362_09092bc4_3cbdd6b4_7e11a9de_20a9feb2_a50bb96c;
    PowTwo(1);
    PowTwo(x);
    PowNext(x, 2, x * x);
    var cubic := x * (x * x) - 3 * x + B;
    CongIntro(1, cubic, P, (1 - cubic) / P);
  }

  // ---- verification --------------------------------------------------------------------------

  /** A nonzero multiple of the base point. */
  ghost predicate HasIndex(c: Curve, x: int, y: int) {
    exists d: int :: 0 < d < N && IsMultiple(c, J.Jac(x, y, 1), d)
  }

  /** Every valid point is one. */
  ghost predicate Generated(c: Curve) {
    forall x: int, y: int :: ValidPoint(x, y) ==> HasIndex(c, x, y)
  }

  /** The multiple of the base point whose x coordinate a signature must show:
      (m/s)G + (r/s)Q, with Q the d-th multiple and w = 1/s. Times(k, w) is k * w modulo n. */
  ghost function Shown(m: nat, r: nat, w: int, d: int): int {
    PointsMul.Combination(Times(m, w), Times(r, w), d)
  }

  /** The signature shows the x coordinate of (m/s)G + (r/s)Q, Q being the d-th multiple and
      w an inverse of s. */
  ghost predicate Shows(c: Curve, x: int, y: int, m: nat, r: nat, s: nat, d: int, w: int) {
    && 0 < d < N && IsMultiple(c, J.Jac(x, y, 1), d) && Times(s, w) == 1
    && Shown(m, r, w, d) != 0 && r == c.x(Shown(m, r, w, d)) % N
  }

  /** What the code tests once the key is taken. */
  ghost predicate Signed(c: Curve, x: int, y: int, m: nat, r: nat, s: nat) {
    0 < r < N && s % N != 0 && exists d: int, w: int :: Shows(c, x, y, m, r, s, d, w)
  }

  /** Two inverses of s multiply alike. */
  lemma SameTimes(a: nat, s: nat, w: int, v: int)
    requires Times(s, w) == 1 && Times(s, v) == 1
    ensures Times(a, w) == Times(a, v)
  {
    TimesMod(s, w);
    TimesMod(s, v);
    TimesMod(a, w);
    TimesMod(a, v);
    InverseCancels(N, a, s, w, v);
  }

  lemma InverseCancels(n: int, a: int, s: int, w: int, v: int)
    requires n > 0 && (s * w) % n == 1 && (s * v) % n == 1
    ensures (a * w) % n == (a * v) % n
  {
    CongOfMod(s * w, s * v, n);
    assert s * w == w * s && s * v == v * s;
    CongReduce(s * w, n);
    CongSym(1, s * w, n);
    CongCancel(w, v, s, w, n);
    CongScale(w, v, a, n);
    assert w * a == a * w && v * a == a * v;
    CongMod(a * w, a * v, n);
  }

  /** The index of the key and the inverse chosen make no difference. */
  lemma ShowsAny(c: Curve, x: int, y: int, m: nat, r: nat, s: nat, d: int, w: int, e: int, v: int)
    requires Shows(c, x, y, m, r, s, d, w) && IsMultiple(c, J.Jac(x, y, 1), e) && Times(s, v) == 1
    ensures Shows(c, x, y, m, r, s, e, v)
  {
    SameTimes(m, s, w, v);
    SameTimes(r, s, w, v);
  }

  // ---- signatures ------------------------------------------------------------------------------

  /** (r, s) comes out of the signing of m with private key d and nonce k: section 4.1.3 of SEC 1. */
  ghost predicate Signs(c: Curve, x: int, y: int, m: nat, r: nat, s: nat, d: int, k: int) {
    && 0 < d < N && IsMultiple(c, J.Jac(x, y, 1), d)
    && 0 < k < N && r == c.x(k) % N && Cong(s * k, m + r * d, N)
  }

  /** (r, s) is a signature of m under the public key (x, y). SEC 1 wants s in [1, n - 1]; the code
      takes it modulo n. */
  ghost predicate Signature(c: Curve, x: int, y: int, m: nat, r: nat, s: nat) {
    0 < r < N && s % N != 0 && exists d: int, k: int :: Signs(c, x, y, m, r, s, d, k)
  }

  lemma TimesClass(a: nat, b: int)
    ensures Cong(Times(a, b), a * b, N) && 0 <= Times(a, b) < N
  {
    TimesMod(a, b);
    CongReduce(a * b, N);
  }

  lemma SharedFactor(m: int, r: int, w: int, d: int)
    ensures m * w + (r * w) * d == w * (m + r * d)
  {
  }

  /** A scalar times the key, modulo n. */
  lemma KeyClass(r: nat, w: int, d: int)
    ensures Times(r, w) >= 0 && Cong(Times(Times(r, w), d), (r * w) * d, N)
  {
    var v := Times(r, w);
    TimesClass(r, w);
    TimesClass(v, d);
    CongScale(v, r * w, d, N);
    CongTrans(Times(v, d), v * d, (r * w) * d, N);
  }

  lemma SumClass(n: int, u: int, v: int, a: int, b: int, e: int)
    requires n > 0 && Cong(u, a, n) && Cong(v, b, n) && a + b == e
    ensures Cong((u + v) % n, e, n) && 0 <= (u + v) % n < n
  {
    CongAdd(u, a, v, b, n);
    CongReduce(u + v, n);
    CongTrans((u + v) % n, u + v, e, n);
  }

  lemma ShownClass(m: nat, r: nat, w: int, d: int)
    ensures Cong(Shown(m, r, w, d), w * (m + r * d), N) && 0 <= Shown(m, r, w, d) < N
  {
    TimesClass(m, w);
    KeyClass(r, w, d);
    SharedFactor(m, r, w, d);
    SumClass(N, Times(m, w), Times(Times(r, w), d), m * w, (r * w) * d, w * (m + r * d));
  }

  /** Multiplying by s and by its inverse w. */
  lemma InverseMoves(n: int, s: int, w: int, k: int, e: int)
    requires Cong(s * w, 1, n)
    ensures Cong(s * k, e, n) <==> Cong(k, w * e, n)
  {
    CongScale(s * w, 1, k, n);
    CongScale(s * w, 1, e, n);
    assert (s * w) * k == (s * k) * w && (s * w) * e == (w * e) * s;
    if Cong(s * k, e, n) {
      CongScale(s * k, e, w, n);
      assert e * w == w * e;
      CongSym((s * k) * w, k, n);
      CongTrans(k, (s * k) * w, w * e, n);
    }
    if Cong(k, w * e, n) {
      CongScale(k, w * e, s, n);
      assert k * s == s * k;
      CongTrans(s * k, (w * e) * s, e, n);
    }
  }

  /** The multiple shown is the nonce. */
  lemma ShownIsNonce(m: nat, r: nat, s: nat, w: int, d: int, k: int)
    requires Times(s, w) == 1 && 0 <= k < N
    ensures Shown(m, r, w, d) == k <==> Cong(s * k, m + r * d, N)
  {
    ShownClass(m, r, w, d);
    TimesClass(s, w);
    CongSym(1, s * w, N);
    InverseMoves(N, s, w, k, m + r * d);
    if Cong(s * k, m + r * d, N) {
      CongSym(k, w * (m + r * d), N);
      CongTrans(Shown(m, r, w, d), w * (m + r * d), k, N);
      CongUnique(Shown(m, r, w, d), k, N);
    }
  }

  /** Every signature shows the x coordinate it should, and whatever shows it is a signature. */
  lemma SignedIff(c: Curve, x: int, y: int, m: nat, r: nat, s: nat)
    requires Prime(N)
    ensures Signed(c, x, y, m, r, s) <==> Signature(c, x, y, m, r, s)
  {
    if Signature(c, x, y, m, r, s) {
      var d: int, k: int :| Signs(c, x, y, m, r, s, d, k);
      var w := InverseOf(s);
      ShownIsNonce(m, r, s, w, d, k);
      assert Shows(c, x, y, m, r, s, d, w);
    }
    if Signed(c, x, y, m, r, s) {
      var d: int, w: int :| Shows(c, x, y, m, r, s, d, w);
      var k := Shown(m, r, w, d);
      ShownClass(m, r, w, d);
      ShownIsNonce(m, r, s, w, d, k);
      assert Signs(c, x, y, m, r, s, d, k);
    }
  }

  lemma InverseOf(s: nat) returns (w: int)
    requires Prime(N) && s % N != 0
    ensures Times(s, w) == 1
  {
    w := PrimeInverse(N, s % N);
    CongReduce(s, N);
    CongSym(s % N, s, N);
    CongScale(s, s % N, w, N);
    CongTrans(s * w, s % N * w, 1, N);
    assert s * w == w * s;
    InverseClass(s, w);
  }

  /** The decision depends on s only modulo n. */
  lemma SignatureModN(c: Curve, x: int, y: int, m: nat, r: nat, s: nat, t: nat)
    requires Cong(s, t, N) && Signature(c, x, y, m, r, s)
    ensures Signature(c, x, y, m, r, t)
  {
    CongMod(s, t, N);
    var d: int, k: int :| Signs(c, x, y, m, r, s, d, k);
    CongSym(s, t, N);
    CongScale(t, s, k, N);
    CongTrans(t * k, s * k, m + r * d, N);
    assert Signs(c, x, y, m, r, t, d, k);
  }

  /** So wherever s is accepted, s + n is too as long as it fits 256 bits, although it is
      outside [1, n - 1]. */
  lemma SignatureBeyondN(c: Curve, x: int, y: int, m: nat, r: nat, s: nat)
    requires 0 < s < TWO_256 - N && Signature(c, x, y, m, r, s)
    ensures N <= s + N < TWO_256 && Signature(c, x, y, m, r, s + N)
  {
    CongIntro(s, s + N, N, -1);
    SignatureModN(c, x, y, m, r, s, s + N);
  }

  // ---- the code ----------------------------------------------------------------------------------

  lemma OneSubtraction(v: int)
    requires 0 <= v < TWO_256
    ensures v % N == if v >= N then v - N else v
  {
  }

  lemma ProductClass(c: int, a: nat, b: int)
    requires 0 <= c < N && Cong(c, a * b, N)
    ensures c == Times(a, b)
  {
    TimesMod(a, b);
    CongMod(c, a * b, N);
    assert c % N == c;
  }

  lemma InverseClass(s: nat, w: int)
    requires Cong(w * s, 1, N)
    ensures Times(s, w) == 1
  {
    assert w * s == s * w;
    CongSym(w * s, 1, N);
    ProductClass(1, s, w);
  }

  /** m/s and r/s modulo n: p256_modinv_vartime and two products. */
  method Scalars(message: array<u32>, r: array<u32>, s: array<u32>)
    returns (u: array<u32>, v: array<u32>, ghost w: int)
    requires message.Length == 8 && r.Length == 8 && s.Length == 8
    requires Prime(N) && Nat(s[..]) % N != 0
    ensures fresh(u) && fresh(v) && u != v && u.Length == 8 && v.Length == 8
    ensures Nat(message[..]) >= 0 && Nat(r[..]) >= 0 && Nat(s[..]) >= 0 && Times(Nat(s[..]), w) == 1
    ensures Nat(u[..]) == Times(Nat(message[..]), w) && Nat(v[..]) == Times(Nat(r[..]), w)
  {
    CurveConstants();
    var n := FromDigits(N_DIGITS);
    u, v := new u32[8], new u32[8];
    PrimeCoprime(N, Nat(s[..]));
    ghost var g := ModInv(n, s, v);
    w := Nat(v[..]);
    ModMul(n, message, 0, v, u);
    ModMul(n, r, 0, v, v);
    NumBound(message[..]);
    NumBound(r[..]);
    NumBound(s[..]);
    InverseClass(Nat(s[..]), w);
    ProductClass(Nat(u[..]), Nat(message[..]), w);
    ProductClass(Nat(v[..]), Nat(r[..]), w);
  }

  /** The range tests on r and s: both are reduced by one subtraction and tested for zero. */
  method ZeroModN(a: array<u32>) returns (zero: bool)
    requires a.Length == 8
    ensures zero <==> Nat(a[..]) % N == 0
  {
    CurveConstants();
    NumBound(a[..]);
    OneSubtraction(Nat(a[..]));
    var n := FromDigits(N_DIGITS);
    var u := new u32[8];
    Mod(n, a, u);
    zero := IsZero(u);
  }

  /** The last step: the x coordinate, reduced modulo n, against r. */
  method MatchesR(r: array<u32>, u: array<u32>) returns (same: bool)
    requires r.Length == 8 && u.Length == 8 && r != u
    modifies u
    ensures same <==> Nat(r[..]) == old(Nat(u[..])) % N
  {
    CurveConstants();
    NumBound(u[..]);
    OneSubtraction(Nat(u[..]));
    var n := FromDigits(N_DIGITS);
    Mod(n, u, u);
    var c := Cmp(r, u);
    same := c == 0;
  }

  /** The second half of p256_ecdsa_verify, from the inverse of s on. */
  method VerifyScalars(table: seq<u32>, keyX: array<u32>, keyY: array<u32>, message: array<u32>, r: array<u32>, s: array<u32>,
                       ghost c: Curve, ghost d: int)
    returns (ok: bool, ghost w: int)
    requires GroupLaw(c) && TableOk(c, table) && PointsMul.Fermat() && 0 < d < N
    requires keyX.Length == 8 && keyY.Length == 8 && message.Length == 8 && r.Length == 8 && s.Length == 8
    requires IsMultiple(c, J.Jac(Nat(keyX[..]), Nat(keyY[..]), 1), d)
    requires Nat(r[..]) % N != 0 && Nat(s[..]) % N != 0
    ensures Nat(message[..]) >= 0 && Nat(r[..]) >= 0 && Nat(s[..]) >= 0 && Times(Nat(s[..]), w) == 1
    ensures ok <==> Shows(c, Nat(keyX[..]), Nat(keyY[..]), Nat(message[..]), Nat(r[..]), Nat(s[..]), d, w)
  {
    ghost var rr, m := Nat(r[..]), Nat(message[..]);
    var u, v;
    u, v, w := Scalars(message, r, s);
    PointsMul.TimesRange(m, w);
    PointsMul.TimesRange(rr, w);
    ok := ShowsX(table, u, v, keyX, keyY, r, c, d, Shown(m, rr, w, d));
  }

  /** The point u*G + v*Q and its x coordinate, against r. */
  method ShowsX(table: seq<u32>, u: array<u32>, v: array<u32>, keyX: array<u32>, keyY: array<u32>, r: array<u32>,
                ghost c: Curve, ghost d: int, ghost k: int)
    returns (ok: bool)
    requires GroupLaw(c) && TableOk(c, table) && PointsMul.Fermat() && 0 < d < N
    requires u.Length == 8 && v.Length == 8 && keyX.Length == 8 && keyY.Length == 8 && r.Length == 8
    requires u != v && u != r && v != r && Nat(u[..]) < N && Nat(v[..]) < N
    requires IsMultiple(c, J.Jac(Nat(keyX[..]), Nat(keyY[..]), 1), d)
    requires Nat(r[..]) % N != 0 && k == PointsMul.Combination(Nat(u[..]), Nat(v[..]), d)
    modifies u, v
    ensures ok <==> k != 0 && Nat(r[..]) == c.x(k) % N
  {
    PointX(table, u, v, keyX, keyY, c, d, k);
    ok := MatchesR(r, u);
    ZeroMatches(Nat(r[..]));
  }

  /** Infinity's x coordinate 0 is no r that passed the tests. */
  lemma ZeroMatches(r: int)
    requires r % N != 0
    ensures r != 0 % N
  {
  }

  method PointX(table: seq<u32>, u: array<u32>, v: array<u32>, keyX: array<u32>, keyY: array<u32>,
                ghost c: Curve, ghost d: int, ghost k: int)
    requires GroupLaw(c) && TableOk(c, table) && PointsMul.Fermat() && 0 < d < N
    requires u.Length == 8 && v.Length == 8 && keyX.Length == 8 && keyY.Length == 8 && u != v
    requires Nat(u[..]) < N && Nat(v[..]) < N && IsMultiple(c, J.Jac(Nat(keyX[..]), Nat(keyY[..]), 1), d)
    requires k == PointsMul.Combination(Nat(u[..]), Nat(v[..]), d)
    modifies u, v
    ensures Nat(u[..]) == if k == 0 then 0 else c.x(k)
  {
    PointsMul.Mul(table, u, v, keyX, keyY, u, v, c, d);
  }

  lemma NotSigned(c: Curve, x: int, y: int, m: nat, r: nat, s: nat)
    requires r % N == 0 || s % N == 0
    ensures !Signed(c, x, y, m, r, s)
  {
  }

  /** An r beyond n passes the tests and fails the comparison. */
  lemma Decides(c: Curve, x: int, y: int, m: nat, r: nat, s: nat, d: int, w: int)
    requires r % N != 0 && s % N != 0 && IsMultiple(c, J.Jac(x, y, 1), d) && Times(s, w) == 1
    ensures Signed(c, x, y, m, r, s) <==> Shows(c, x, y, m, r, s, d, w)
  {
    if Signed(c, x, y, m, r, s) {
      var e: int, v: int :| Shows(c, x, y, m, r, s, e, v);
      ShowsAny(c, x, y, m, r, s, e, v, d, w);
    }
    if Shows(c, x, y, m, r, s, d, w) {
      assert 0 < r < N;
    }
  }

  lemma KeyIndex(c: Curve, x: int, y: int) returns (d: int)
    requires HasIndex(c, x, y)
    ensures 0 < d < N && IsMultiple(c, J.Jac(x, y, 1), d)
  {
    d :| 0 < d < N && IsMultiple(c, J.Jac(x, y, 1), d);
  }

  /** What follows the test of the key. */
  method VerifySigned(table: seq<u32>, keyX: array<u32>, keyY: array<u32>, message: array<u32>, r: array<u32>, s: array<u32>,
                      ghost c: Curve, ghost d: int)
    returns (ok: bool)
    requires GroupLaw(c) && TableOk(c, table) && PointsMul.Fermat() && 0 < d < N
    requires keyX.Length == 8 && keyY.Length == 8 && message.Length == 8 && r.Length == 8 && s.Length == 8
    requires IsMultiple(c, J.Jac(Nat(keyX[..]), Nat(keyY[..]), 1), d)
    ensures Nat(message[..]) >= 0 && Nat(r[..]) >= 0 && Nat(s[..]) >= 0
    ensures ok <==> Signed(c, Nat(keyX[..]), Nat(keyY[..]), Nat(message[..]), Nat(r[..]), Nat(s[..]))
  {
    ghost var x, y, m, rr, ss := Nat(keyX[..]), Nat(keyY[..]), Nat(message[..]), Nat(r[..]), Nat(s[..]);
    NumBound(message[..]);
    NumBound(r[..]);
    NumBound(s[..]);
    var zeroR := ZeroModN(r);
    var zeroS := ZeroModN(s);
    if zeroR || zeroS {
      NotSigned(c, x, y, m, rr, ss);
      return false;
    }
    ghost var w;
    ok, w := VerifyScalars(table, keyX, keyY, message, r, s, c, d);
    Decides(c, x, y, m, rr, ss, d, w);
  }

  /** p256_ecdsa_verify accepts exactly the signatures under a key that p256_is_valid_point takes. */
  method Verify(table: seq<u32>, keyX: array<u32>, keyY: array<u32>, message: array<u32>, r: array<u32>, s: array<u32>,
                ghost c: Curve)
    returns (ok: bool)
    requires GroupLaw(c) && TableOk(c, table) && PointsMul.Fermat() && Generated(c)
    requires keyX.Length == 8 && keyY.Length == 8 && message.Length == 8 && r.Length == 8 && s.Length == 8
    ensures Nat(message[..]) >= 0 && Nat(r[..]) >= 0 && Nat(s[..]) >= 0
    ensures ok <==>
      && Taken(Nat(keyX[..]), Nat(keyY[..]))
      && Signature(c, Nat(keyX[..]), Nat(keyY[..]), Nat(message[..]), Nat(r[..]), Nat(s[..]))
  {
    NumBound(message[..]);
    NumBound(r[..]);
    NumBound(s[..]);
    ok := IsValidPoint(keyX, keyY);
    if ok {
      ghost var d := KeyIndex(c, Nat(keyX[..]), Nat(keyY[..]));
      ok := VerifySigned(table, keyX, keyY, message, r, s, c, d);
      SignedIff(c, Nat(keyX[..]), Nat(keyY[..]), Nat(message[..]), Nat(r[..]), Nat(s[..]));
    }
  }
}
