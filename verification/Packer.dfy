/** Script packing of akb_cc.c: the encryption in write_C, and the generated run-time xsh that
    undoes it in place on the scattered data. */
module Packer {
  import opened Words
  import opened Arc4
  import opened Scatter

  // The arrays, numbered as in the switch of write_C.
  const PSWD := 0
  const MSG1 := 1
  const DATE := 2
  const SHLL := 3
  const INLO := 4
  const XECC := 5
  const LSTO := 6
  const TST1 := 7
  const CHK1 := 8
  const MSG2 := 9
  const RLAX := 10
  const OPTS := 11
  const TEXT := 12
  const TST2 := 13
  const CHK2 := 14

  /** Fifteen strings; each has at least its NUL. */
  type Arrays = p: seq<seq<u8>> | |p| == 15 && forall f :: 0 <= f < 15 ==> p[f] != []
    witness seq(15, _ => [0])

  /** The plaintext of a packed script: each chk is a copy of its tst. */
  type Script = p: Arrays | p[CHK1] == p[TST1] && p[CHK2] == p[TST2]
    witness seq(15, _ => [0])

  /** `rlax[0]`. */
  predicate Lax(rlax: seq<u8>) {
    rlax != [] && rlax[0] != 0
  }

  /** What key_with_file stirs in: the stable bytes of stat(shell), or failure. */
  datatype FileStat = Known(bytes: seq<u8>) | Missing

  /** The cipher as three values, so that proofs need not look inside it: keying, moving on and
      crypting. */
  datatype Stream = Stream(key: (Ready, seq<u8>) -> Ready, skip: (Ready, nat) -> Ready, crypt: (Ready, seq<u8>) -> seq<u8>)

  ghost predicate IsArc4(o: Stream) {
    && (forall st: Ready, k: seq<u8> {:trigger Keyed(st, k)} :: o.key(st, k) == Keyed(st, k))
    && (forall st: Ready, n: nat {:trigger After(st, n)} :: o.skip(st, n) == After(st, n))
    && (forall st: Ready, d: seq<u8> {:trigger Crypted(st, d)} :: o.crypt(st, d) == Crypted(st, d))
  }

  ghost function TheStream(): (o: Stream) {
    Stream((st: Ready, k: seq<u8>) => Keyed(st, k), (st: Ready, n: nat) => After(st, n), (st: Ready, d: seq<u8>) => Crypted(st, d))
  }

  /** The cipher of module Arc4. */
  type Arc4Stream = o: Stream | IsArc4(o) ghost witness TheStream()

  lemma Twice(o: Arc4Stream, st: Ready, d: seq<u8>)
    ensures |o.crypt(st, d)| == |d| && o.crypt(st, o.crypt(st, d)) == d
  {
    CryptTwice(st, d);
    assert o.crypt(st, d) == Crypted(st, d);
    assert o.crypt(st, Crypted(st, d)) == Crypted(st, Crypted(st, d));
  }

  /** Nothing to crypt, nothing to skip. */
  lemma Nothing(o: Arc4Stream, st: Ready)
    ensures o.crypt(st, []) == [] && o.skip(st, 0) == st
  {
    assert Crypted(st, []) == [] && After(st, 0) == st;
  }

  lemma SkipIs(o: Arc4Stream, step: Stepper, st: Ready, n: nat)
    requires IsStep(step)
    ensures o.skip(st, n) == Moved(step, st, n)
  {
    AfterIs(step, st, n);
  }

  lemma CryptIs(o: Arc4Stream, step: Stepper, code: Coder, st: Ready, d: seq<u8>)
    requires IsStep(step) && IsCode(code)
    ensures o.crypt(st, d) == Coded(step, code, st, d)
  {
    CryptedIs(step, code, st, d);
  }

  lemma Functions() returns (step: Stepper, code: Coder)
    ensures IsStep(step) && IsCode(code)
  {
    step, code := (s: Ready) => Next(s), (x: u8, s: Ready) => XorByte(x, Output(s));
  }

  lemma SkipAdd(o: Arc4Stream, st: Ready, m: nat, n: nat)
    ensures o.skip(st, m + n) == o.skip(o.skip(st, m), n)
  {
    var step, code := Functions();
    SkipIs(o, step, st, m);
    SkipIs(o, step, o.skip(st, m), n);
    SkipIs(o, step, st, m + n);
    MovedAdd(step, st, m, n);
  }

  /** Crypting two parts one after the other is crypting the whole. */
  lemma CryptConcat(o: Arc4Stream, st: Ready, a: seq<u8>, b: seq<u8>)
    ensures o.crypt(st, a + b) == o.crypt(st, a) + o.crypt(o.skip(st, |a|), b)
  {
    var step, code := Functions();
    CryptIs(o, step, code, st, a + b);
    CryptIs(o, step, code, st, a);
    SkipIs(o, step, st, |a|);
    CryptIs(o, step, code, o.skip(st, |a|), b);
    CodedConcat(step, code, st, a, b);
  }

  /** The cipher state due before array f + 1, when array f, in plain x, was crypted in state st:
      tst1, the shell's stat and tst2 are further keys. */
  ghost function Follow(o: Arc4Stream, st: Ready, f: nat, x: seq<u8>, stat: seq<u8>): Ready
    requires f < 15
  {
    var after := o.skip(st, |x|);
    if f == TST1 || f == TST2 then o.key(after, x)
    else if f == RLAX && !Lax(x) then o.key(after, stat)
    else after
  }

  /** The state in which array f is crypted. */
  ghost function Due(o: Arc4Stream, p: seq<seq<u8>>, stat: seq<u8>, f: nat): Ready
    requires 1 <= f <= 15 && f <= |p|
  {
    if f == 1 then o.key(Start(), p[PSWD]) else Follow(o, Due(o, p, stat, f - 1), f - 1, p[f - 1], stat)
  }

  /** The first n arrays of c are those of p encrypted; the password stays as it is. */
  ghost predicate Encrypted(o: Arc4Stream, c: seq<seq<u8>>, p: seq<seq<u8>>, stat: seq<u8>, n: nat)
    requires 1 <= n <= 15 && n <= |c| && n <= |p|
  {
    if n == 1 then c[PSWD] == p[PSWD]
    else c[n - 1] == o.crypt(Due(o, p, stat, n - 1), p[n - 1]) && Encrypted(o, c, p, stat, n - 1)
  }

  lemma {:induction false} EncryptedAt(o: Arc4Stream, c: seq<seq<u8>>, p: seq<seq<u8>>, stat: seq<u8>, n: nat, f: nat)
    requires 1 <= f < n <= 15 && n <= |c| && n <= |p| && Encrypted(o, c, p, stat, n)
    ensures c[f] == o.crypt(Due(o, p, stat, f), p[f])
  {
    if f < n - 1 {
      EncryptedAt(o, c, p, stat, n - 1, f);
    }
  }

  lemma {:induction false} EncryptedPrefix(o: Arc4Stream, c: seq<seq<u8>>, e: seq<seq<u8>>, p: seq<seq<u8>>, stat: seq<u8>, n: nat)
    requires 1 <= n <= 15 && n <= |c| && n <= |e| && n <= |p| && Encrypted(o, c, p, stat, n) && c[..n] == e[..n]
    ensures Encrypted(o, e, p, stat, n)
  {
    assert c[..n][n - 1] == e[..n][n - 1];
    if n > 1 {
      assert c[..n - 1] == c[..n][..n - 1] && e[..n - 1] == e[..n][..n - 1];
      EncryptedPrefix(o, c, e, p, stat, n - 1);
    }
  }

  lemma EncryptedNext(o: Arc4Stream, c: seq<seq<u8>>, d: seq<u8>, p: seq<seq<u8>>, stat: seq<u8>, f: nat)
    requires 1 <= f < 15 && |c| == f < |p| && Encrypted(o, c, p, stat, f) && d == o.crypt(Due(o, p, stat, f), p[f])
    ensures Encrypted(o, c + [d], p, stat, f + 1)
  {
    EncryptedPrefix(o, c, c + [d], p, stat, f);
  }

  lemma DueKeyed(o: Arc4Stream, p: seq<seq<u8>>, stat: seq<u8>, f: nat)
    requires 1 <= f < 15 && f < |p|
    ensures Due(o, p, stat, f + 1) == Follow(o, Due(o, p, stat, f), f, p[f], stat)
  {
  }

  // ---- the four streams --------------------------------------------------------------------------------

  /** Arrays f to g - 1, one behind the other. */
  ghost function Joined(s: seq<seq<u8>>, f: nat, g: nat): seq<u8>
    requires f <= g <= |s|
    decreases g
  {
    if f == g then [] else Joined(s, f, g - 1) + s[g - 1]
  }

  /** No key comes in behind array j. */
  predicate Quiet(j: nat) {
    j != TST1 && j != TST2 && j != RLAX
  }

  lemma {:induction false} QuietState(o: Arc4Stream, p: seq<seq<u8>>, stat: seq<u8>, f: nat, g: nat)
    requires 1 <= f <= g < 15 <= |p| && forall j :: f <= j < g ==> Quiet(j)
    ensures Due(o, p, stat, g) == o.skip(Due(o, p, stat, f), |Joined(p, f, g)|)
    decreases g
  {
    if f < g {
      QuietState(o, p, stat, f, g - 1);
      DueKeyed(o, p, stat, g - 1);
      assert Quiet(g - 1);
      SkipAdd(o, Due(o, p, stat, f), |Joined(p, f, g - 1)|, |p[g - 1]|);
    } else {
      Nothing(o, Due(o, p, stat, f));
    }
  }

  /** Arrays with no key between them are one stream. */
  lemma {:induction false} OneStream(o: Arc4Stream, c: seq<seq<u8>>, p: seq<seq<u8>>, stat: seq<u8>, f: nat, g: nat)
    requires 1 <= f <= g <= 15 <= |p| && 15 <= |c| && Encrypted(o, c, p, stat, 15) && forall j :: f <= j < g - 1 ==> Quiet(j)
    ensures Joined(c, f, g) == o.crypt(Due(o, p, stat, f), Joined(p, f, g))
    decreases g
  {
    if f < g {
      OneStream(o, c, p, stat, f, g - 1);
      QuietState(o, p, stat, f, g - 1);
      EncryptedAt(o, c, p, stat, 15, g - 1);
      CryptConcat(o, Due(o, p, stat, f), Joined(p, f, g - 1), p[g - 1]);
    } else {
      Nothing(o, Due(o, p, stat, f));
    }
  }

  /** The state behind array g - 1, before a key that may follow. */
  lemma StreamEnd(o: Arc4Stream, p: seq<seq<u8>>, stat: seq<u8>, f: nat, g: nat)
    requires 1 <= f < g <= 15 <= |p| && forall j :: f <= j < g - 1 ==> Quiet(j)
    ensures o.skip(Due(o, p, stat, g - 1), |p[g - 1]|) == o.skip(Due(o, p, stat, f), |Joined(p, f, g)|)
  {
    QuietState(o, p, stat, f, g - 1);
    SkipAdd(o, Due(o, p, stat, f), |Joined(p, f, g - 1)|, |p[g - 1]|);
  }

  /** Arrays 1 to 14 encrypted as four streams, each from its own state. */
  ghost predicate InStreams(o: Arc4Stream, c: seq<seq<u8>>, p: seq<seq<u8>>, k1: Ready, k2: Ready, k3: Ready, k4: Ready)
    requires |c| == |p| == 15
  {
    && Joined(c, 1, 8) == o.crypt(k1, Joined(p, 1, 8))
    && Joined(c, 8, 11) == o.crypt(k2, Joined(p, 8, 11))
    && Joined(c, 11, 14) == o.crypt(k3, Joined(p, 11, 14))
    && c[14] == o.crypt(k4, p[14])
  }

  lemma StreamsFrom(o: Arc4Stream, c: seq<seq<u8>>, p: seq<seq<u8>>, stat: seq<u8>, b: nat, e: nat, h: nat,
                    k1: Ready, k2: Ready, k3: Ready, k4: Ready)
    requires |c| == |p| == 15 && Encrypted(o, c, p, stat, 15)
    requires b == 8 && e == 11 && h == 14
    requires k1 == Due(o, p, stat, 1) && k2 == Due(o, p, stat, b) && k3 == Due(o, p, stat, e) && k4 == Due(o, p, stat, h)
    ensures InStreams(o, c, p, k1, k2, k3, k4)
  {
    OneStream(o, c, p, stat, 1, b);
    OneStream(o, c, p, stat, b, e);
    OneStream(o, c, p, stat, e, h);
    EncryptedAt(o, c, p, stat, 15, h);
  }

  /** The state a stream starts in: the one before it, moved on, with array g - 1 or the stat as a
      further key. */
  lemma StreamStart(o: Arc4Stream, p: seq<seq<u8>>, stat: seq<u8>, f: nat, g: nat, st: Ready)
    requires 1 <= f < g < 15 <= |p| && (forall j :: f <= j < g - 1 ==> Quiet(j)) && st == Due(o, p, stat, f)
    ensures var end := o.skip(st, |Joined(p, f, g)|);
      Due(o, p, stat, g) == if g == 8 || g == 14 then o.key(end, p[g - 1]) else if g == 11 && !Lax(p[10]) then o.key(end, stat) else end
  {
    StreamEnd(o, p, stat, f, g);
    DueKeyed(o, p, stat, g - 1);
  }

  /** What write_C encrypts, as four streams: msg1 to tst1 under the password, chk1 to rlax with tst1
      as a further key, opts to tst2 with the shell's stat unless rlax is set, and chk2 with tst2. */
  lemma FourStreams(o: Arc4Stream, c: seq<seq<u8>>, p: seq<seq<u8>>, stat: seq<u8>, k1: Ready, k2: Ready, end: Ready, k3: Ready, k4: Ready)
    requires |c| == |p| == 15 && Encrypted(o, c, p, stat, 15)
    requires k1 == o.key(Start(), p[0])
    requires k2 == o.key(o.skip(k1, |Joined(p, 1, 8)|), p[7])
    requires end == o.skip(k2, |Joined(p, 8, 11)|)
    requires k3 == if p[10] != [] && p[10][0] != 0 then end else o.key(end, stat)
    requires k4 == o.key(o.skip(k3, |Joined(p, 11, 14)|), p[13])
    ensures c[0] == p[0] && InStreams(o, c, p, k1, k2, k3, k4)
  {
    var a, b, e, h := 1, 8, 11, 14;
    EncryptedShape(o, c, p, stat, 15);
    assert k1 == Due(o, p, stat, a);
    StreamStart(o, p, stat, a, b, k1);
    StreamStart(o, p, stat, b, e, k2);
    StreamStart(o, p, stat, e, h, k3);
    StreamsFrom(o, c, p, stat, b, e, h, k1, k2, k3, k4);
  }

  // ---- what data open to ----------------------------------------------------------------------------

  /** The stat bytes enter only behind rlax, and only if it is not set. */
  ghost predicate Agree(p: seq<seq<u8>>, stat: seq<u8>, other: seq<u8>, n: nat) {
    stat == other || n <= RLAX || (|p| > RLAX && Lax(p[RLAX]))
  }

  lemma FollowSame(o: Arc4Stream, st: State, f: nat, x: seq<u8>, stat: seq<u8>, other: seq<u8>)
    requires Arc4.Sized(st) && f < 15 && (stat == other || f != RLAX || Lax(x))
    ensures Follow(o, st, f, x, stat) == Follow(o, st, f, x, other)
  {
  }

  /** The state depends on the arrays before it. */
  lemma {:induction false} DueSame(o: Arc4Stream, p: seq<seq<u8>>, q: seq<seq<u8>>, stat: seq<u8>, other: seq<u8>, f: nat)
    requires 1 <= f <= 15 && f <= |p| && f <= |q| && p[..f] == q[..f] && Agree(p, stat, other, f)
    ensures Due(o, p, stat, f) == Due(o, q, other, f)
  {
    assert p[f - 1] == p[..f][f - 1] == q[..f][f - 1] == q[f - 1];
    if f > 1 {
      assert p[..f - 1] == p[..f][..f - 1] && q[..f - 1] == q[..f][..f - 1];
      DueSame(o, p, q, stat, other, f - 1);
      FollowSame(o, Due(o, p, stat, f - 1), f - 1, p[f - 1], stat, other);
    }
  }

  lemma SamePlain(o: Arc4Stream, st: State, tt: State, x: seq<u8>, y: seq<u8>)
    requires Arc4.Sized(st) && st == tt && o.crypt(st, x) == o.crypt(tt, y)
    ensures x == y
  {
    Twice(o, st, x);
    Twice(o, st, y);
  }

  lemma PlainStep(o: Arc4Stream, c: seq<u8>, p: seq<seq<u8>>, q: seq<seq<u8>>, stat: seq<u8>, other: seq<u8>, f: nat)
    requires 1 <= f < 15 && f < |p| && f < |q| && p[..f] == q[..f] && Agree(p, stat, other, f)
    requires c == o.crypt(Due(o, p, stat, f), p[f]) == o.crypt(Due(o, q, other, f), q[f])
    ensures p[..f + 1] == q[..f + 1]
  {
    DueSame(o, p, q, stat, other, f);
    SamePlain(o, Due(o, p, stat, f), Due(o, q, other, f), p[f], q[f]);
    assert p[..f + 1] == p[..f] + [p[f]] && q[..f + 1] == q[..f] + [q[f]];
  }

  /** Encrypted arrays open to one plaintext only, as far as the keys agree. */
  lemma {:induction false} PlainUnique(o: Arc4Stream, c: seq<seq<u8>>, p: seq<seq<u8>>, q: seq<seq<u8>>, stat: seq<u8>, other: seq<u8>, n: nat)
    requires 1 <= n <= 15 && n <= |c| && n <= |p| && n <= |q|
    requires Encrypted(o, c, p, stat, n) && Encrypted(o, c, q, other, n) && Agree(p, stat, other, n - 1)
    ensures p[..n] == q[..n]
  {
    if n > 1 {
      PlainUnique(o, c, p, q, stat, other, n - 1);
      PlainStep(o, c[n - 1], p, q, stat, other, n - 1);
    } else {
      assert p[..n] == [p[0]] && q[..n] == [q[0]];
    }
  }

  lemma EncryptedStep(o: Arc4Stream, c: seq<seq<u8>>, p: seq<seq<u8>>, stat: seq<u8>, f: nat, st: State)
    requires 1 <= f < 15 && f < |c| && f < |p| && Encrypted(o, c, p, stat, f) && st == Due(o, p, stat, f) && c[f] == o.crypt(st, p[f])
    ensures Encrypted(o, c, p, stat, f + 1)
  {
  }

  lemma {:induction false} EncryptedMore(o: Arc4Stream, c: seq<seq<u8>>, p: seq<seq<u8>>, stat: seq<u8>, n: nat, x: seq<u8>)
    requires 1 <= n <= 15 && n <= |c| && |p| >= n && Encrypted(o, c, p, stat, n)
    ensures Encrypted(o, c, p + [x], stat, n)
  {
    if n > 1 {
      var f := n - 1;
      EncryptedMore(o, c, p, stat, f, x);
      assert p[..f] == (p + [x])[..f];
      DueSame(o, p, p + [x], stat, stat, f);
      assert (p + [x])[f] == p[f];
      EncryptedStep(o, c, p + [x], stat, f, Due(o, p, stat, f));
    }
  }

  /** The first n arrays of any data, opened with the given stat bytes. */
  ghost function OpenedFirst(o: Arc4Stream, c: seq<seq<u8>>, stat: seq<u8>, n: nat): (d: seq<seq<u8>>)
    requires 1 <= n <= 15 && n <= |c|
    ensures |d| == n && forall f :: 0 <= f < n ==> |d[f]| == |c[f]|
  {
    if n == 1 then [c[PSWD]]
    else
      var d := OpenedFirst(o, c, stat, n - 1);
      Twice(o, Due(o, d, stat, n - 1), c[n - 1]);
      d + [o.crypt(Due(o, d, stat, n - 1), c[n - 1])]
  }

  /** All of them: whatever the data, they are the encryption of what they open to. */
  ghost function Opened(o: Arc4Stream, c: Arrays, stat: seq<u8>): (d: Arrays)
    ensures Encrypted(o, c, d, stat, 15)
  {
    OpenedEncrypts(o, c, stat, |c|);
    OpenedFirst(o, c, stat, |c|)
  }

  lemma {:induction false} OpenedEncrypts(o: Arc4Stream, c: seq<seq<u8>>, stat: seq<u8>, n: nat)
    requires 1 <= n <= 15 && n <= |c|
    ensures Encrypted(o, c, OpenedFirst(o, c, stat, n), stat, n)
  {
    if n > 1 {
      OpenedEncrypts(o, c, stat, n - 1);
      OpenedStep(o, c, OpenedFirst(o, c, stat, n - 1), stat, n - 1, Due(o, OpenedFirst(o, c, stat, n - 1), stat, n - 1));
    }
  }

  lemma OpenedStep(o: Arc4Stream, c: seq<seq<u8>>, d: seq<seq<u8>>, stat: seq<u8>, f: nat, st: State)
    requires 1 <= f < 15 && f < |c| && |d| == f && Encrypted(o, c, d, stat, f) && st == Due(o, d, stat, f)
    ensures Encrypted(o, c, d + [o.crypt(st, c[f])], stat, f + 1)
  {
    var x := o.crypt(st, c[f]);
    EncryptedMore(o, c, d, stat, f, x);
    assert d[..f] == (d + [x])[..f];
    DueSame(o, d, d + [x], stat, stat, f);
    Twice(o, st, c[f]);
    assert (d + [x])[f] == x;
    EncryptedStep(o, c, d + [x], stat, f, st);
  }

  // ---- write_C ------------------------------------------------------------------------------------

  /** One array of write_C. */
  method Seal(ghost o: Arc4Stream, c: Cipher, p: Script, f: nat, fields: seq<seq<u8>>, ghost stat: seq<u8>) returns (out: seq<seq<u8>>)
    requires 1 <= f < 15 && |fields| == f && Encrypted(o, fields, p, stat, f)
    requires c.Valid() && c.Abs() == Due(o, p, stat, f)
    modifies c, c.stte
    ensures c.Valid() && c.Abs() == o.skip(Due(o, p, stat, f), |p[f]|)
    ensures |out| == f + 1 && Encrypted(o, out, p, stat, f + 1)
    ensures f != TST1 && f != TST2 && f != RLAX ==> c.Abs() == Due(o, p, stat, f + 1)
  {
    var d := c.Crypt(p[f]);
    EncryptedNext(o, fields, d, p, stat, f);
    DueKeyed(o, p, stat, f);
    out := fields + [d];
  }

  /** The first half of the encryption, through the first check. */
  method SealFirst(ghost o: Arc4Stream, c: Cipher, p: Script, ghost stat: seq<u8>) returns (fields: seq<seq<u8>>)
    requires c.Valid() && c.Abs() == Start()
    modifies c, c.stte
    ensures |fields| == 10 && Encrypted(o, fields, p, stat, 10) && c.Valid() && c.Abs() == Due(o, p, stat, 10)
  {
    c.Key(p[PSWD]);
    fields := [p[PSWD]];
    fields := Seal(o, c, p, MSG1, fields, stat);
    fields := Seal(o, c, p, DATE, fields, stat);
    fields := Seal(o, c, p, SHLL, fields, stat);
    fields := Seal(o, c, p, INLO, fields, stat);
    fields := Seal(o, c, p, XECC, fields, stat);
    fields := Seal(o, c, p, LSTO, fields, stat);
    fields := Seal(o, c, p, TST1, fields, stat);
    DueKeyed(o, p, stat, TST1);
    c.Key(p[CHK1]);
    fields := Seal(o, c, p, CHK1, fields, stat);
    fields := Seal(o, c, p, MSG2, fields, stat);
  }

  /** The encryption of write_C. It gives up when a strict script's shell cannot be stat'ed. */
  method Encrypt(ghost o: Arc4Stream, p: Script, stat: FileStat) returns (ok: bool, fields: seq<seq<u8>>)
    ensures ok <==> Lax(p[RLAX]) || stat.Known?
    ensures ok ==> |fields| == 15 && Encrypted(o, fields, p, StatBytes(stat), 15)
  {
    ghost var bytes := StatBytes(stat);
    var c := new Cipher();
    fields := SealFirst(o, c, p, bytes);
    var strict := p[RLAX][0] == 0;
    fields := Seal(o, c, p, RLAX, fields, bytes);
    DueKeyed(o, p, bytes, RLAX);
    if strict {
      if stat.Missing? {
        return false, fields;
      }
      c.Key(stat.bytes);
    }
    fields := Seal(o, c, p, OPTS, fields, bytes);
    fields := Seal(o, c, p, TEXT, fields, bytes);
    fields := Seal(o, c, p, TST2, fields, bytes);
    DueKeyed(o, p, bytes, TST2);
    c.Key(p[CHK2]);
    fields := Seal(o, c, p, CHK2, fields, bytes);
    ok := true;
  }

  ghost function StatBytes(stat: FileStat): seq<u8> {
    if stat.Known? then stat.bytes else []
  }

  // ---- xsh -----------------------------------------------------------------------------------------

  /** a with the first n bytes of e from offset off on. */
  ghost function Spliced(a: seq<u8>, off: nat, e: seq<u8>, n: nat): (b: seq<u8>)
    requires off + |e| <= |a| && n <= |e|
    ensures |b| == |a|
  {
    if n == 0 then a else Spliced(a, off, e, n - 1)[off + n - 1 := e[n - 1]]
  }

  lemma {:induction false} SplicedAt(a: seq<u8>, off: nat, e: seq<u8>, n: nat, k: nat)
    requires off + |e| <= |a| && n <= |e| && k < |a|
    ensures Spliced(a, off, e, n)[k] == if off <= k < off + n then e[k - off] else a[k]
  {
    if n > 0 {
      SplicedAt(a, off, e, n - 1, k);
    }
  }

  lemma SplicedAll(a: seq<u8>, off: nat, e: seq<u8>, b: seq<u8>)
    requires off + |e| <= |a| && b == Spliced(a, off, e, |e|)
    ensures |b| == |a| && b[off..off + |e|] == e
    ensures forall k :: 0 <= k < off || off + |e| <= k < |a| ==> b[k] == a[k]
  {
    forall k: nat | k < |a|
      ensures b[k] == if off <= k < off + |e| then e[k - off] else a[k]
    {
      SplicedAt(a, off, e, |e|, k);
    }
  }

  /** One byte of data, which becomes byte n of e. */
  method CryptByte(c: Cipher, data: array<u8>, off: nat, ghost n: nat, i: nat, ghost a: seq<u8>, ghost st: State, ghost e: seq<u8>)
    requires c.Valid() && data != c.stte && Arc4.Sized(st) && c.Abs() == After(st, n) && i == off + n
    requires off + |e| <= |a| && e == Crypted(st, a[off..off + |e|]) && n < |e| && data[..] == Spliced(a, off, e, n)
    modifies c, c.stte, data
    ensures c.Valid() && c.Abs() == After(st, n + 1) && data[..] == Spliced(a, off, e, n + 1)
  {
    ghost var d := a[off..off + |e|];
    SplicedAt(a, off, e, n, off + n);
    assert data[i] == data[..][i] == d[n];
    var b := c.Advance();
    CryptedAt(st, d, n);
    data[i] := XorByte(data[i], b);
    assert data[..] == Spliced(a, off, e, n)[off + n := e[n]];
  }

  /** The loop of arc4 over part of data. */
  method CryptLoop(c: Cipher, data: array<u8>, off: nat, size: nat, ghost a: seq<u8>, ghost st: State, ghost e: seq<u8>)
    requires c.Valid() && data != c.stte && a == data[..] && off + size <= |a| && |e| == size
    requires st == c.Abs() && e == Crypted(st, a[off..off + |e|])
    modifies c, c.stte, data
    ensures c.Valid() && c.Abs() == After(st, size)
    ensures data[..] == Spliced(a, off, e, size)
  {
    for n := 0 to size
      invariant c.Valid() && c.Abs() == After(st, n)
      invariant data[..] == Spliced(a, off, e, n)
    {
      CryptByte(c, data, off, n, off + n, a, st, e);
    }
  }

  /** arc4 over one array of data, in place. */
  method CryptAt(c: Cipher, data: array<u8>, slot: Slot)
    requires c.Valid() && data != c.stte && slot.off + slot.size <= data.Length
    modifies c, c.stte, data
    ensures c.Valid() && c.Abs() == After(old(c.Abs()), slot.size)
    ensures Slice(data[..], slot) == Crypted(old(c.Abs()), old(Slice(data[..], slot)))
    ensures forall k :: 0 <= k < slot.off || slot.off + slot.size <= k < data.Length ==> data[k] == old(data[k])
  {
    ghost var a, st := data[..], c.Abs();
    ghost var e := Crypted(st, Slice(a, slot));
    CryptLoop(c, data, slot.off, slot.size, a, st, e);
    SplicedAll(a, slot.off, e, data[..]);
  }

  /** The first n arrays lie in data at their slots, apart from one another. */
  ghost predicate Image(data: seq<u8>, layout: seq<Slot>, now: seq<seq<u8>>, n: nat)
    requires n <= |layout| && n <= |now|
  {
    n > 0 ==>
      && Within(layout[n - 1], data) && Slice(data, layout[n - 1]) == now[n - 1]
      && (forall g :: 0 <= g < n - 1 ==> Apart(layout[g], layout[n - 1]))
      && Image(data, layout, now, n - 1)
  }

  lemma {:induction false} ImageAt(data: seq<u8>, layout: seq<Slot>, now: seq<seq<u8>>, n: nat, f: nat)
    requires f < n <= |layout| && n <= |now| && Image(data, layout, now, n)
    ensures Within(layout[f], data) && Slice(data, layout[f]) == now[f]
  {
    if f < n - 1 {
      ImageAt(data, layout, now, n - 1, f);
    }
  }

  lemma {:induction false} ImageOfLaid(data: seq<u8>, layout: seq<Slot>, now: seq<seq<u8>>, n: nat)
    requires Laid(data, layout, now) && n <= |now|
    ensures Image(data, layout, now, n)
  {
    if n > 0 {
      ImageOfLaid(data, layout, now, n - 1);
    }
  }

  lemma OtherSlice(a: seq<u8>, b: seq<u8>, slot: Slot, other: Slot)
    requires |a| == |b| && Within(slot, a) && Within(other, a) && Apart(slot, other)
    requires forall k :: 0 <= k < slot.off || slot.off + slot.size <= k < |a| ==> b[k] == a[k]
    ensures Slice(b, other) == Slice(a, other)
  {
  }

  /** Rewriting one array in place leaves the others alone. */
  lemma {:induction false} ImageUpdate(a: seq<u8>, b: seq<u8>, layout: seq<Slot>, now: seq<seq<u8>>, f: nat, d: seq<u8>, n: nat)
    requires n <= |layout| && n <= |now| && f < |layout| && f < |now| && |a| == |b|
    requires Image(a, layout, now, n) && Within(layout[f], a) && Slice(b, layout[f]) == d
    requires f >= n ==> forall g :: 0 <= g < n ==> Apart(layout[g], layout[f])
    requires forall k :: 0 <= k < layout[f].off || layout[f].off + layout[f].size <= k < |a| ==> b[k] == a[k]
    ensures Image(b, layout, now[f := d], n)
  {
    if n > 0 {
      ImageUpdate(a, b, layout, now, f, d, n - 1);
      if f != n - 1 {
        if f < n - 1 {
          assert Apart(layout[f], layout[n - 1]);
        }
        OtherSlice(a, b, layout[f], layout[n - 1]);
      }
    }
  }

  /** The slots stay inside the buffer whatever is in it. */
  predicate Fits(layout: seq<Slot>, length: nat) {
    |layout| == 15 && forall f :: 0 <= f < 15 ==> layout[f].off + layout[f].size <= length && layout[f].size > 0
  }

  /** The arrays at run time when those below n are open. */
  ghost function Mixed(d: Arrays, fields: Arrays, n: nat): (m: seq<seq<u8>>)
    requires n <= 15
    ensures |m| == 15
  {
    d[..n] + fields[n..]
  }

  lemma MixedNext(d: Arrays, fields: Arrays, f: nat)
    requires 1 <= f < 15
    ensures Mixed(d, fields, f)[f] == fields[f]
    ensures Mixed(d, fields, f)[f := d[f]] == Mixed(d, fields, f + 1)
  {
  }

  /** Crypting an array again in the state it was crypted in opens it. */
  lemma Opens(o: Arc4Stream, d: Arrays, fields: Arrays, stat: seq<u8>, f: nat)
    requires Encrypted(o, fields, d, stat, 15) && 1 <= f < 15
    ensures o.crypt(Due(o, d, stat, f), fields[f]) == d[f] && |fields[f]| == |d[f]|
  {
    EncryptedAt(o, fields, d, stat, 15, f);
    Twice(o, Due(o, d, stat, f), d[f]);
  }

  /** Xsh before its arc4 of array f. */
  ghost predicate Reached(o: Arc4Stream, c: Cipher, data: array<u8>, layout: seq<Slot>, f: nat, d: Arrays, fields: Arrays, stat: seq<u8>)
    requires 1 <= f <= 15
    reads c, c.stte, data
  {
    && c.Valid() && c.stte != data && Fits(layout, data.Length) && Encrypted(o, fields, d, stat, 15)
    && Image(data[..], layout, Mixed(d, fields, f), |layout|)
  }

  /** One arc4 of xsh: array f comes out as d[f], whatever d is. */
  method Open(ghost o: Arc4Stream, c: Cipher, data: array<u8>, layout: seq<Slot>, f: nat, ghost d: Arrays, ghost fields: Arrays, ghost stat: seq<u8>)
    requires 1 <= f < 15 && Reached(o, c, data, layout, f, d, fields, stat) && c.Abs() == Due(o, d, stat, f)
    modifies c, c.stte, data
    ensures Reached(o, c, data, layout, f + 1, d, fields, stat) && c.Abs() == o.skip(Due(o, d, stat, f), |d[f]|)
    ensures f != TST1 && f != TST2 && f != RLAX ==> c.Abs() == Due(o, d, stat, f + 1)
  {
    ghost var a := data[..];
    MixedNext(d, fields, f);
    Opens(o, d, fields, stat, f);
    ImageAt(a, layout, Mixed(d, fields, f), |layout|, f);
    CryptAt(c, data, layout[f]);
    ImageUpdate(a, data[..], layout, Mixed(d, fields, f), f, d[f], |layout|);
    DueKeyed(o, d, stat, f);
  }

  /** An array that is open. */
  method Read(ghost o: Arc4Stream, c: Cipher, data: array<u8>, layout: seq<Slot>, f: nat,
              ghost n: nat, ghost d: Arrays, ghost fields: Arrays, ghost stat: seq<u8>)
    returns (s: seq<u8>)
    requires 1 <= n <= 15 && f < n && Reached(o, c, data, layout, n, d, fields, stat)
    ensures s == d[f]
  {
    var slot := layout[f];
    s := data[slot.off..slot.off + slot.size];
    ImageAt(data[..], layout, Mixed(d, fields, n), |layout|, f);
  }

  /** What xsh comes to: a returned message, or the command it executes. */
  datatype Outcome = Returned(which: nat, text: seq<u8>) | Exec(shell: seq<u8>, args: seq<seq<u8>>)

  const HIDE := 4096

  function Hidden(text: seq<u8>): seq<u8> {
    seq(HIDE, _ => 0x20) + text
  }

  /** The argument vector: own name, options, inline flag, script, end of options, arguments. */
  function Args(argv: seq<seq<u8>>, ret: int, opts: seq<u8>, inlo: seq<u8>, script: seq<u8>, lsto: seq<u8>): seq<seq<u8>>
    requires argv != [] && opts != [] && inlo != [] && lsto != []
  {
    var first := if ret > 1 then ret else 0;
    [argv[0]]
    + (if ret != 0 && opts[0] != 0 then [opts] else [])
    + (if inlo[0] != 0 then [inlo] else [])
    + [script]
    + (if lsto[0] != 0 then [lsto] else [])
    + (if first < |argv| then argv[first..] else [])
  }

  /** The argument vector begins with the program's own name, holds the script once, behind the options
      and before the end-of-options mark, and ends with the arguments from `first` on: all of them,
      or those behind the ones the first run inserted. */
  lemma ArgsHold(argv: seq<seq<u8>>, ret: int, opts: seq<u8>, inlo: seq<u8>, script: seq<u8>, lsto: seq<u8>)
    requires argv != [] && opts != [] && inlo != [] && lsto != []
    ensures var a := Args(argv, ret, opts, inlo, script, lsto);
      var before := (if ret != 0 && opts[0] != 0 then 1 else 0) + (if inlo[0] != 0 then 1 else 0);
      var behind := if lsto[0] != 0 then 1 else 0;
      var first := if ret > 1 then ret else 0;
      var rest := if first < |argv| then |argv| - first else 0;
      && |a| == 1 + before + 1 + behind + rest
      && a[0] == argv[0] && a[1 + before] == script
      && (ret != 0 && opts[0] != 0 ==> a[1] == opts)
      && (inlo[0] != 0 ==> a[before] == inlo)
      && (lsto[0] != 0 ==> a[2 + before] == lsto)
      && a[2 + before + behind..] == argv[|argv| - rest..]
  {
  }

  /** What xsh does with data that open to d. ret is what chkenv found, before tells whether a
      date lies in the past, missing whether stat(shell) fails, and format is sprintf. */
  function OutcomeOf(d: Arrays, ret: int, argv: seq<seq<u8>>, before: seq<u8> -> bool, missing: bool,
                     format: (seq<u8>, seq<u8>) -> seq<u8>): Outcome
    requires argv != []
  {
    if d[DATE][0] != 0 && before(d[DATE]) then Returned(MSG1, d[MSG1])
    else if d[CHK1] != d[TST1] then Returned(TST1, d[TST1])
    else LateOutcome(d, ret, argv, missing, format)
  }

  function LateOutcome(d: Arrays, ret: int, argv: seq<seq<u8>>, missing: bool, format: (seq<u8>, seq<u8>) -> seq<u8>): Outcome
    requires argv != []
  {
    if ret < 0 then Returned(MSG2, d[MSG2])
    else if ret == 0 then
      Exec(d[SHLL], Args(argv, ret, [0], d[INLO], if d[XECC][0] != 0 then format(d[XECC], argv[0]) else argv[0], d[LSTO]))
    else if !Lax(d[RLAX]) && missing then Returned(SHLL, d[SHLL])
    else if d[CHK2] != d[TST2] then Returned(TST2, d[TST2])
    else Exec(d[SHLL], Args(argv, ret, d[OPTS], d[INLO], Hidden(d[TEXT]), d[LSTO]))
  }

  lemma HiddenIs(text: seq<u8>)
    ensures |Hidden(text)| == 4096 + |text| && Hidden(text)[4096..] == text
    ensures forall j :: 0 <= j < 4096 ==> Hidden(text)[j] == 0x20
  {
  }

  /** A script that has not expired and whose shell is known, or need not be, is run by its own shell:
      with its options, and with its text behind 4096 blanks as the script. */
  lemma ScriptRuns(p: Script, ret: int, argv: seq<seq<u8>>, before: seq<u8> -> bool, missing: bool, format: (seq<u8>, seq<u8>) -> seq<u8>)
    requires argv != [] && ret > 0 && (p[2][0] == 0 || !before(p[2])) && (p[10][0] != 0 || !missing)
    ensures var r := OutcomeOf(p, ret, argv, before, missing, format);
      var i := 1 + (if p[11][0] != 0 then 1 else 0) + (if p[4][0] != 0 then 1 else 0);
      && r.Exec? && r.shell == p[3] && i < |r.args| && |r.args[i]| == 4096 + |p[12]|
      && r.args[i][4096..] == p[12] && forall j :: 0 <= j < 4096 ==> r.args[i][j] == 0x20
  {
    HiddenIs(p[12]);
    ArgsHold(argv, ret, p[11], p[4], Hidden(p[12]), p[6]);
  }

  /** The last part of xsh: options, script and second check. */
  method Finish(ghost o: Arc4Stream, c: Cipher, data: array<u8>, layout: seq<Slot>, ret: int, argv: seq<seq<u8>>,
                ghost d: Arrays, ghost fields: Arrays, ghost stat: seq<u8>)
    returns (r: Outcome)
    requires ret > 0 && argv != [] && Reached(o, c, data, layout, OPTS, d, fields, stat) && c.Abs() == Due(o, d, stat, OPTS)
    modifies c, c.stte, data
    ensures r == if d[CHK2] != d[TST2] then Returned(TST2, d[TST2])
                 else Exec(d[SHLL], Args(argv, ret, d[OPTS], d[INLO], Hidden(d[TEXT]), d[LSTO]))
    ensures Reached(o, c, data, layout, 15, d, fields, stat)
  {
    Open(o, c, data, layout, OPTS, d, fields, stat);
    Open(o, c, data, layout, TEXT, d, fields, stat);
    var same, tst2 := Check(o, c, data, layout, TST2, d, fields, stat);
    if !same {
      return Returned(TST2, tst2);
    }
    r := Command(o, c, data, layout, ret, argv, d, fields, stat);
  }

  method Command(ghost o: Arc4Stream, c: Cipher, data: array<u8>, layout: seq<Slot>, ret: int, argv: seq<seq<u8>>,
                 ghost d: Arrays, ghost fields: Arrays, ghost stat: seq<u8>)
    returns (r: Outcome)
    requires argv != [] && Reached(o, c, data, layout, 15, d, fields, stat)
    ensures r == Exec(d[SHLL], Args(argv, ret, d[OPTS], d[INLO], Hidden(d[TEXT]), d[LSTO]))
  {
    var shll := Read(o, c, data, layout, SHLL, 15, d, fields, stat);
    var opts := Read(o, c, data, layout, OPTS, 15, d, fields, stat);
    var inlo := Read(o, c, data, layout, INLO, 15, d, fields, stat);
    var lsto := Read(o, c, data, layout, LSTO, 15, d, fields, stat);
    var text := Read(o, c, data, layout, TEXT, 15, d, fields, stat);
    r := Exec(shll, Args(argv, ret, opts, inlo, Hidden(text), lsto));
  }

  /** The first part of xsh, to the expiry date; done tells that it has returned. */
  method Begin(ghost o: Arc4Stream, c: Cipher, data: array<u8>, layout: seq<Slot>, before: seq<u8> -> bool,
               ghost d: Arrays, ghost fields: Arrays, ghost stat: seq<u8>)
    returns (done: bool, r: Outcome)
    requires Reached(o, c, data, layout, MSG1, d, fields, stat) && c.Abs() == Start()
    modifies c, c.stte, data
    ensures done <==> d[DATE][0] != 0 && before(d[DATE])
    ensures done ==> r == Returned(MSG1, d[MSG1])
    ensures !done ==> Reached(o, c, data, layout, SHLL, d, fields, stat) && c.Abs() == Due(o, d, stat, SHLL)
  {
    var pswd := Read(o, c, data, layout, PSWD, MSG1, d, fields, stat);
    c.Key(pswd);
    Open(o, c, data, layout, MSG1, d, fields, stat);
    Open(o, c, data, layout, DATE, d, fields, stat);
    var date := Read(o, c, data, layout, DATE, SHLL, d, fields, stat);
    var msg1 := Read(o, c, data, layout, MSG1, SHLL, d, fields, stat);
    r := Returned(MSG1, msg1);
    done := date[0] != 0 && before(date);
  }

  /** The strings of the command. */
  method OpenStrings(ghost o: Arc4Stream, c: Cipher, data: array<u8>, layout: seq<Slot>,
                     ghost d: Arrays, ghost fields: Arrays, ghost stat: seq<u8>)
    requires Reached(o, c, data, layout, SHLL, d, fields, stat) && c.Abs() == Due(o, d, stat, SHLL)
    modifies c, c.stte, data
    ensures Reached(o, c, data, layout, TST1, d, fields, stat) && c.Abs() == Due(o, d, stat, TST1)
  {
    Open(o, c, data, layout, SHLL, d, fields, stat);
    Open(o, c, data, layout, INLO, d, fields, stat);
    Open(o, c, data, layout, XECC, d, fields, stat);
    Open(o, c, data, layout, LSTO, d, fields, stat);
  }

  /** A tst array, which keys the cipher for its chk, and the comparison of the two. */
  method Check(ghost o: Arc4Stream, c: Cipher, data: array<u8>, layout: seq<Slot>, f: nat,
               ghost d: Arrays, ghost fields: Arrays, ghost stat: seq<u8>)
    returns (same: bool, tst: seq<u8>)
    requires (f == TST1 || f == TST2) && Reached(o, c, data, layout, f, d, fields, stat) && c.Abs() == Due(o, d, stat, f)
    modifies c, c.stte, data
    ensures Reached(o, c, data, layout, f + 2, d, fields, stat) && c.Abs() == Due(o, d, stat, f + 2)
    ensures tst == d[f] && (same <==> d[f + 1] == d[f])
  {
    Open(o, c, data, layout, f, d, fields, stat);
    tst := Read(o, c, data, layout, f, f + 1, d, fields, stat);
    DueKeyed(o, d, stat, f);
    c.Key(tst);
    Open(o, c, data, layout, f + 1, d, fields, stat);
    var chk := Read(o, c, data, layout, f + 1, f + 2, d, fields, stat);
    same := chk == tst;
  }

  /** The strings of the command, and tst1 against chk1 with tst1 as a further key. */
  method FirstCheck(ghost o: Arc4Stream, c: Cipher, data: array<u8>, layout: seq<Slot>,
                    ghost d: Arrays, ghost fields: Arrays, ghost stat: seq<u8>)
    returns (done: bool, r: Outcome)
    requires Reached(o, c, data, layout, SHLL, d, fields, stat) && c.Abs() == Due(o, d, stat, SHLL)
    modifies c, c.stte, data
    ensures done <==> d[CHK1] != d[TST1]
    ensures done ==> r == Returned(TST1, d[TST1])
    ensures !done ==> Reached(o, c, data, layout, RLAX, d, fields, stat) && c.Abs() == Due(o, d, stat, RLAX)
  {
    OpenStrings(o, c, data, layout, d, fields, stat);
    var same, tst1 := Check(o, c, data, layout, TST1, d, fields, stat);
    r := Returned(TST1, tst1);
    done := !same;
    if !done {
      Open(o, c, data, layout, MSG2, d, fields, stat);
    }
  }

  /** xsh, on any data: what it does is decided by what the data open to, with the stat bytes of
      the shell at hand. When it runs the script, all arrays are open in place. */
  method Xsh(ghost o: Arc4Stream, data: array<u8>, layout: seq<Slot>, ret: int, argv: seq<seq<u8>>, before: seq<u8> -> bool, shell: FileStat,
             format: (seq<u8>, seq<u8>) -> seq<u8>, ghost fields: Arrays)
    returns (r: Outcome)
    requires Fits(layout, data.Length) && argv != [] && Image(data[..], layout, fields, |layout|)
    modifies data
    ensures r == OutcomeOf(Opened(o, fields, StatBytes(shell)), ret, argv, before, shell.Missing?, format)
    ensures r.Exec? && ret > 0 ==> Image(data[..], layout, Opened(o, fields, StatBytes(shell)), |layout|)
  {
    ghost var stat := StatBytes(shell);
    ghost var d := Opened(o, fields, stat);
    var c := new Cipher();
    EncryptedShape(o, fields, d, stat, 15);
    assert Mixed(d, fields, MSG1) == fields;
    var done;
    done, r := Begin(o, c, data, layout, before, d, fields, stat);
    if !done {
      done, r := FirstCheck(o, c, data, layout, d, fields, stat);
      if !done {
        r := Continue(o, c, data, layout, ret, argv, shell, format, d, fields);
      }
    }
  }

  method Continue(ghost o: Arc4Stream, c: Cipher, data: array<u8>, layout: seq<Slot>, ret: int, argv: seq<seq<u8>>, shell: FileStat,
                  format: (seq<u8>, seq<u8>) -> seq<u8>, ghost d: Arrays, ghost fields: Arrays)
    returns (r: Outcome)
    requires argv != [] && Reached(o, c, data, layout, RLAX, d, fields, StatBytes(shell)) && c.Abs() == Due(o, d, StatBytes(shell), RLAX)
    modifies c, c.stte, data
    ensures r == LateOutcome(d, ret, argv, shell.Missing?, format)
    ensures r.Exec? && ret > 0 ==> Image(data[..], layout, d, |layout|)
  {
    ghost var stat := StatBytes(shell);
    var shll := Read(o, c, data, layout, SHLL, RLAX, d, fields, stat);
    if ret < 0 {
      var msg2 := Read(o, c, data, layout, MSG2, RLAX, d, fields, stat);
      return Returned(MSG2, msg2);
    }
    if ret == 0 {
      r := Reexecute(o, c, data, layout, argv, format, d, fields, stat);
      return;
    }
    var ok := KeyWithShell(o, c, data, layout, shell, d, fields);
    if !ok {
      return Returned(SHLL, shll);
    }
    r := Finish(o, c, data, layout, ret, argv, d, fields, stat);
    assert Mixed(d, fields, 15) == d;
  }

  /** The relaxation flag, and key_with_file unless it is set. */
  method KeyWithShell(ghost o: Arc4Stream, c: Cipher, data: array<u8>, layout: seq<Slot>, shell: FileStat, ghost d: Arrays, ghost fields: Arrays)
    returns (ok: bool)
    requires Reached(o, c, data, layout, RLAX, d, fields, StatBytes(shell)) && c.Abs() == Due(o, d, StatBytes(shell), RLAX)
    modifies c, c.stte, data
    ensures ok <==> Lax(d[RLAX]) || shell.Known?
    ensures ok ==> Reached(o, c, data, layout, OPTS, d, fields, StatBytes(shell)) && c.Abs() == Due(o, d, StatBytes(shell), OPTS)
  {
    ghost var stat := StatBytes(shell);
    Open(o, c, data, layout, RLAX, d, fields, stat);
    var rlax := Read(o, c, data, layout, RLAX, OPTS, d, fields, stat);
    DueKeyed(o, d, stat, RLAX);
    ok := rlax[0] != 0 || shell.Known?;
    if rlax[0] == 0 && shell.Known? {
      c.Key(shell.bytes);
    }
  }

  /** The first run, which only executes itself again. */
  method Reexecute(ghost o: Arc4Stream, c: Cipher, data: array<u8>, layout: seq<Slot>, argv: seq<seq<u8>>, format: (seq<u8>, seq<u8>) -> seq<u8>,
                   ghost d: Arrays, ghost fields: Arrays, ghost stat: seq<u8>)
    returns (r: Outcome)
    requires argv != [] && Reached(o, c, data, layout, RLAX, d, fields, stat)
    ensures r == Exec(d[SHLL], Args(argv, 0, [0], d[INLO], if d[XECC][0] != 0 then format(d[XECC], argv[0]) else argv[0], d[LSTO]))
  {
    var shll := Read(o, c, data, layout, SHLL, RLAX, d, fields, stat);
    var xecc := Read(o, c, data, layout, XECC, RLAX, d, fields, stat);
    var inlo := Read(o, c, data, layout, INLO, RLAX, d, fields, stat);
    var lsto := Read(o, c, data, layout, LSTO, RLAX, d, fields, stat);
    var script := if xecc[0] != 0 then format(xecc, argv[0]) else argv[0];
    r := Exec(shll, Args(argv, 0, [0], inlo, script, lsto));
  }

  // ---- the whole way ------------------------------------------------------------------------------

  lemma {:induction false} EncryptedShape(o: Arc4Stream, c: seq<seq<u8>>, p: seq<seq<u8>>, stat: seq<u8>, n: nat)
    requires 1 <= n <= 15 && n <= |c| && n <= |p| && Encrypted(o, c, p, stat, n)
    ensures c[PSWD] == p[PSWD] && forall f :: 0 <= f < n ==> |c[f]| == |p[f]|
  {
    if n > 1 {
      EncryptedShape(o, c, p, stat, n - 1);
      Twice(o, Due(o, p, stat, n - 1), p[n - 1]);
    }
  }

  lemma LayoutFits(data: seq<u8>, layout: seq<Slot>, fields: seq<seq<u8>>)
    requires Laid(data, layout, fields) && |fields| == 15 && forall f :: 0 <= f < 15 ==> fields[f] != []
    ensures Fits(layout, |data|)
  {
    forall f | 0 <= f < 15
      ensures layout[f].off + layout[f].size <= |data| && layout[f].size > 0
    {
      assert Slice(data, layout[f]) == fields[f];
    }
  }

  /** A packed script opens to itself for the shell it was packed for, or for any if it is relaxed;
      up to the relaxation flag it does so in any case. */
  lemma OpensToScript(o: Arc4Stream, p: Script, fields: Arrays, stat: seq<u8>, other: seq<u8>)
    requires Encrypted(o, fields, p, stat, 15)
    ensures Lax(p[RLAX]) || stat == other ==> Opened(o, fields, other) == p
    ensures forall f :: 0 <= f <= RLAX ==> Opened(o, fields, other)[f] == p[f]
  {
    var d, n := Opened(o, fields, other), 15;
    if Lax(p[RLAX]) || stat == other {
      PlainUnique(o, fields, p, d, stat, other, n);
      assert p[..n] == p && d[..n] == d;
    }
    var m := RLAX + 1;
    EncryptedLess(o, fields, p, stat, n, m);
    EncryptedLess(o, fields, d, other, n, m);
    PlainUnique(o, fields, p, d, stat, other, m);
    assert forall f :: 0 <= f <= RLAX ==> d[f] == d[..m][f] && p[f] == p[..m][f];
  }

  lemma {:induction false} EncryptedLess(o: Arc4Stream, c: seq<seq<u8>>, p: seq<seq<u8>>, stat: seq<u8>, n: nat, m: nat)
    requires 1 <= m <= n <= 15 && n <= |c| && n <= |p| && Encrypted(o, c, p, stat, n)
    ensures Encrypted(o, c, p, stat, m)
  {
    if m < n {
      EncryptedLess(o, c, p, stat, n - 1, m);
    }
  }

  /** What a packed script comes to: with another shell than the one it was packed for it still
      expires, reports and executes itself again like the script, and only the last run differs. */
  lemma PackedOutcome(o: Arc4Stream, p: Script, fields: Arrays, stat: seq<u8>, shell: FileStat, ret: int, argv: seq<seq<u8>>,
                      before: seq<u8> -> bool, format: (seq<u8>, seq<u8>) -> seq<u8>)
    requires Encrypted(o, fields, p, stat, 15) && argv != []
    requires Lax(p[RLAX]) || shell == Missing || shell == Known(stat) || ret <= 0 || (p[DATE][0] != 0 && before(p[DATE]))
    ensures OutcomeOf(Opened(o, fields, StatBytes(shell)), ret, argv, before, shell.Missing?, format)
         == OutcomeOf(p, ret, argv, before, shell.Missing?, format)
  {
    OpensToScript(o, p, fields, stat, StatBytes(shell));
  }

  /** write_C, then xsh on the data it printed: whatever the random choices, password, script and
      strings, a script run by the shell it was packed for comes out as it went in. */
  method PackThenRun(p: Script, stat: FileStat, ret: int, argv: seq<seq<u8>>, before: seq<u8> -> bool, shell: FileStat,
                     format: (seq<u8>, seq<u8>) -> seq<u8>)
    returns (packed: bool, r: Outcome)
    requires argv != []
    ensures packed <==> Lax(p[RLAX]) || stat.Known?
    ensures packed && (Lax(p[RLAX]) || shell == Missing || shell == stat)
      ==> r == OutcomeOf(p, ret, argv, before, shell.Missing?, format)
  {
    ghost var o: Arc4Stream := TheStream();
    var fields;
    packed, fields := Encrypt(o, p, stat);
    r := Returned(PSWD, []);
    if packed {
      EncryptedShape(o, fields, p, StatBytes(stat), 15);
      var bytes, layout, _ := PrintAll(fields);
      LayoutFits(bytes, layout, fields);
      ImageOfLaid(bytes, layout, fields, |layout|);
      var data := new u8[|bytes|](i requires 0 <= i < |bytes| => bytes[i]);
      assert data[..] == bytes;
      r := Xsh(o, data, layout, ret, argv, before, shell, format, fields);
      if Lax(p[RLAX]) || shell == Missing || shell == stat {
        PackedOutcome(o, p, fields, StatBytes(stat), shell, ret, argv, before, format);
      }
    }
  }
}
