/** The stream cipher of akb_cc.c: its state as a value, and the class that steps it in place. */
module Arc4 {
  import opened Words
  import opened Bits

  // ---- bytes ------------------------------------------------------------------------------------

  function AddByte(x: u8, y: u8): u8 {
    if x + y < 0x100 then x + y else x + y - 0x100
  }

  lemma ByteXor(x: u8, y: u8)
    ensures Xor(x, y) < 0x100
  {
    var w := 8;
    assert Pow2(w - 6) == 2 * Pow2(w - 7) && Pow2(w - 7) == 2 * Pow2(w - 8);
    Pow2Add(w - 6, w - 6);
    Pow2Add(w - 4, w - 4);
    XorBound(x, y, w);
  }

  function XorByte(x: u8, y: u8): u8 {
    ByteXor(x, y);
    Xor(x, y)
  }

  // ---- state -------------------------------------------------------------------------------------

  /** stte, indx, jndx and kndx. */
  datatype State = State(s: seq<u8>, i: u8, j: u8, k: u8)

  predicate Sized(st: State) {
    |st.s| == 256
  }

  function Identity(): (s: seq<u8>)
    ensures |s| == 256 && forall i :: 0 <= i < 256 ==> s[i] == i
  {
    seq(256, i requires 0 <= i < 256 => i)
  }

  /** stte is a permutation of 0..255. */
  ghost predicate Permutation(st: State) {
    multiset(st.s) == multiset(Identity())
  }

  function Swapped(s: seq<u8>, a: u8, b: u8): (t: seq<u8>)
    requires |s| == 256
    ensures |t| == 256
  {
    s[a := s[b]][b := s[a]]
  }

  lemma SwapKeeps(s: seq<u8>, a: u8, b: u8)
    requires |s| == 256
    ensures multiset(Swapped(s, a, b)) == multiset(s)
  {
  }

  function Start(): (st: State)
    ensures Sized(st)
  {
    State(Identity(), 0, 0, 0)
  }

  type Ready = st: State | Sized(st) witness Start()

  /** One byte b of key material. */
  function Stir(st: State, b: u8): (r: State)
    requires Sized(st)
    ensures Sized(r)
  {
    var k := AddByte(AddByte(st.k, st.s[st.i]), b);
    State(Swapped(st.s, st.i, k), if st.i == 255 then 0 else st.i + 1, st.j, k)
  }

  /** The inner loop of key, from the current index up to 255. */
  function Pass(st: State, p: seq<u8>): (r: State)
    requires Sized(st) && p != []
    ensures Sized(r) && r.i == 0
    decreases 256 - st.i
  {
    var next := Stir(st, p[st.i % |p|]);
    if st.i == 255 then next else Pass(next, p)
  }

  /** key: one pass for every 256 bytes begun. */
  function Keyed(st: State, p: seq<u8>): (r: State)
    requires Sized(st)
    ensures Sized(r)
    decreases |p|
  {
    if p == [] then st else Keyed(Pass(st, p), if |p| <= 256 then [] else p[256..])
  }

  /** One step of arc4, and the byte of key stream it leaves. */
  function Next(st: State): (r: State)
    requires Sized(st)
    ensures Sized(r)
  {
    var i := AddByte(st.i, 1);
    var j := AddByte(st.j, st.s[i]);
    State(Swapped(st.s, i, j), i, j, st.k)
  }

  function Output(st: State): u8
    requires Sized(st)
  {
    st.s[AddByte(st.s[st.j], st.s[st.i])]
  }

  /** The state after n bytes: the data do not enter. */
  function After(st: State, n: nat): (r: State)
    requires Sized(st)
    ensures Sized(r)
  {
    if n == 0 then st else Next(After(st, n - 1))
  }

  function Crypted(st: State, d: seq<u8>): (c: seq<u8>)
    requires Sized(st)
    ensures |c| == |d|
  {
    if d == [] then []
    else
      var n := |d| - 1;
      Crypted(st, d[..n]) + [XorByte(d[n], Output(After(st, n + 1)))]
  }

  lemma CryptedSnoc(st: State, d: seq<u8>, n: nat)
    requires Sized(st) && n < |d|
    ensures Crypted(st, d[..n + 1]) == Crypted(st, d[..n]) + [XorByte(d[n], Output(After(st, n + 1)))]
  {
    assert d[..n + 1][..n] == d[..n];
  }

  lemma {:induction false} CryptedAt(st: State, d: seq<u8>, n: nat)
    requires Sized(st) && n < |d|
    ensures Crypted(st, d)[n] == XorByte(d[n], Output(After(st, n + 1)))
  {
    if n < |d| - 1 {
      CryptedAt(st, d[..|d| - 1], n);
    }
  }

  // ---- laws ----------------------------------------------------------------------------------------

  /** Crypting twice from the same state gives the data back. */
  lemma {:induction false} CryptTwice(st: State, d: seq<u8>)
    requires Sized(st)
    ensures Crypted(st, Crypted(st, d)) == d
  {
    if d != [] {
      var n := |d| - 1;
      CryptTwice(st, d[..n]);
      var c := Crypted(st, d);
      assert c[..n] == Crypted(st, d[..n]);
      XorTwice(d[n], Output(After(st, n + 1)));
      assert d == d[..n] + [d[n]];
    }
  }

  lemma StirKeeps(st: State, b: u8)
    requires Sized(st) && Permutation(st)
    ensures Permutation(Stir(st, b))
  {
    SwapKeeps(st.s, st.i, AddByte(AddByte(st.k, st.s[st.i]), b));
  }

  lemma {:induction false} PassKeeps(st: State, p: seq<u8>)
    requires Sized(st) && Permutation(st) && p != []
    ensures Permutation(Pass(st, p))
    decreases 256 - st.i
  {
    StirKeeps(st, p[st.i % |p|]);
    if st.i < 255 {
      PassKeeps(Stir(st, p[st.i % |p|]), p);
    }
  }

  /** Keying keeps stte a permutation, from any index and for any key. */
  lemma {:induction false} KeyedKeeps(st: State, p: seq<u8>)
    requires Sized(st) && Permutation(st)
    ensures Permutation(Keyed(st, p))
    decreases |p|
  {
    if p != [] {
      PassKeeps(st, p);
      KeyedKeeps(Pass(st, p), if |p| <= 256 then [] else p[256..]);
    }
  }

  lemma NextKeeps(st: State)
    requires Sized(st) && Permutation(st)
    ensures Permutation(Next(st))
  {
    var i := AddByte(st.i, 1);
    SwapKeeps(st.s, i, AddByte(st.j, st.s[i]));
  }

  /** So does crypting. */
  lemma {:induction false} AfterKeeps(st: State, n: nat)
    requires Sized(st) && Permutation(st)
    ensures Permutation(After(st, n))
  {
    if n > 0 {
      AfterKeeps(st, n - 1);
      NextKeeps(After(st, n - 1));
    }
  }

  // ---- any stream cipher -----------------------------------------------------------------------------

  type Stepper = Ready -> Ready
  type Coder = (u8, Ready) -> u8

  ghost function Moved(step: Stepper, st: Ready, n: nat): Ready {
    if n == 0 then st else step(Moved(step, st, n - 1))
  }

  ghost function Coded(step: Stepper, code: Coder, st: Ready, d: seq<u8>): (c: seq<u8>)
    ensures |c| == |d|
  {
    if d == [] then []
    else
      var n := |d| - 1;
      Coded(step, code, st, d[..n]) + [code(d[n], Moved(step, st, n + 1))]
  }

  lemma {:induction false} MovedAdd(step: Stepper, st: Ready, m: nat, n: nat)
    ensures Moved(step, st, m + n) == Moved(step, Moved(step, st, m), n)
  {
    if n > 0 {
      MovedAdd(step, st, m, n - 1);
    }
  }

  /** Two parts one after the other are the whole. */
  lemma {:induction false} CodedConcat(step: Stepper, code: Coder, st: Ready, a: seq<u8>, b: seq<u8>)
    ensures Coded(step, code, st, a + b) == Coded(step, code, st, a) + Coded(step, code, Moved(step, st, |a|), b)
    decreases |b|
  {
    if b == [] {
      assert a + b == a;
    } else {
      var n := |b| - 1;
      CodedConcat(step, code, st, a, b[..n]);
      MovedAdd(step, st, |a|, n + 1);
      assert (a + b)[..|a| + n] == a + b[..n];
    }
  }

  ghost predicate IsStep(step: Stepper) {
    forall s: Ready {:trigger Next(s)} :: step(s) == Next(s)
  }

  ghost predicate IsCode(code: Coder) {
    forall x: u8, s: Ready {:trigger code(x, s)} :: code(x, s) == XorByte(x, Output(s))
  }

  /** arc4 is one. */
  lemma {:induction false} AfterIs(step: Stepper, st: Ready, n: nat)
    requires IsStep(step)
    ensures After(st, n) == Moved(step, st, n)
  {
    if n > 0 {
      AfterIs(step, st, n - 1);
    }
  }

  lemma {:induction false} CryptedIs(step: Stepper, code: Coder, st: Ready, d: seq<u8>)
    requires IsStep(step) && IsCode(code)
    ensures Crypted(st, d) == Coded(step, code, st, d)
  {
    if d != [] {
      CryptedIs(step, code, st, d[..|d| - 1]);
      AfterIs(step, st, |d|);
    }
  }

  // ---- the key enters --------------------------------------------------------------------------------

  /** A pass depends on the key bytes it uses. */
  lemma {:induction false} PassSame(st: State, p: seq<u8>, q: seq<u8>)
    requires Sized(st) && p != [] && q != []
    requires forall t :: st.i <= t < 256 ==> p[t % |p|] == q[t % |q|]
    ensures Pass(st, p) == Pass(st, q)
    decreases 256 - st.i
  {
    if st.i < 255 {
      PassSame(Stir(st, p[st.i % |p|]), p, q);
    }
  }

  lemma StirDiffers(st: State, b: u8, e: u8)
    requires Sized(st) && b != e
    ensures Stir(st, b).k != Stir(st, e).k
  {
  }

  /** One byte of a pass over a whole key. */
  lemma PassNext(st: State, p: seq<u8>)
    requires Sized(st) && |p| == 256
    ensures Pass(st, p) == if st.i == 255 then Stir(st, p[255]) else Pass(Stir(st, p[st.i]), p)
  {
    assert st.i % 256 == st.i;
  }

  /** The byte used last shows in the state. */
  lemma {:induction false} PassDiffers(st: State, p: seq<u8>, q: seq<u8>)
    requires Sized(st) && |p| == |q| == 256 && p[255] != q[255]
    requires forall t :: st.i <= t < 255 ==> p[t] == q[t]
    ensures Pass(st, p).k != Pass(st, q).k
    decreases 256 - st.i
  {
    PassNext(st, p);
    PassNext(st, q);
    if st.i < 255 {
      PassDiffers(Stir(st, p[st.i]), p, q);
    } else {
      StirDiffers(st, p[255], q[255]);
    }
  }

  lemma LastByte(st: State, q: seq<u8>, b: u8, e: u8)
    requires Sized(st) && st.i == 0 && |q| == 255 && b != e
    ensures Keyed(st, q + [b]) != Keyed(st, q + [e])
  {
    PassDiffers(st, q + [b], q + [e]);
    KeyedOnce(st, q + [b]);
    KeyedOnce(st, q + [e]);
  }

  lemma SameStart(st: State, q: seq<u8>, b: u8, e: u8)
    requires Sized(st) && |q| >= 256
    ensures Pass(st, q + [b]) == Pass(st, q + [e])
  {
    var x, y := q + [b], q + [e];
    forall t | st.i <= t < 256
      ensures x[t % |x|] == y[t % |y|]
    {
      SmallMod(t, |x|);
    }
    PassSame(st, x, y);
  }

  lemma SmallMod(t: nat, n: nat)
    requires t < n
    ensures t % n == t
  {
  }

  lemma KeyedMore(st: State, q: seq<u8>, b: u8)
    requires Sized(st) && |q| >= 256
    ensures Keyed(st, q + [b]) == Keyed(Pass(st, q + [b]), q[256..] + [b])
  {
    assert (q + [b])[256..] == q[256..] + [b];
  }

  /** Keys of one or more whole passes that differ in their last byte give different states. */
  lemma {:induction false} KeyEnters(st: State, q: seq<u8>, b: u8, e: u8)
    requires Sized(st) && st.i == 0 && |q| % 256 == 255 && b != e
    ensures Keyed(st, q + [b]) != Keyed(st, q + [e])
    decreases |q|
  {
    if |q| == 255 {
      LastByte(st, q, b, e);
    } else {
      SameStart(st, q, b, e);
      KeyedMore(st, q, b);
      KeyedMore(st, q, e);
      KeyEnters(Pass(st, q + [b]), q[256..], b, e);
    }
  }

  lemma KeyedOnce(st: State, p: seq<u8>)
    requires Sized(st) && 0 < |p| <= 256
    ensures Keyed(st, p) == Pass(st, p)
  {
    assert Keyed(Pass(st, p), []) == Pass(st, p);
  }

  /** A key of at most 256 bytes acts as its repetition to 256. */
  lemma KeyRepeats(st: State, p: seq<u8>, q: seq<u8>)
    requires Sized(st) && 0 < |p| <= 256 == |q| && forall t :: 0 <= t < 256 ==> q[t] == p[t % |p|]
    ensures Keyed(st, p) == Keyed(st, q)
  {
    PassSame(st, p, q);
    KeyedOnce(st, p);
    KeyedOnce(st, q);
  }

  // ---- a known answer ----------------------------------------------------------------------------------

  /** A key whose first four bytes turn the first four places round and whose others swap each place
      with itself. */
  function AnswerKey(): (p: seq<u8>)
    ensures |p| == 256 && p[0] == 3 && p[1] == 254 && p[2] == 253 && p[3] == 3 && forall t :: 4 <= t < 256 ==> p[t] == 257 - t
  {
    seq(256, t requires 0 <= t < 256 => if t == 0 || t == 3 then 3 else if t == 1 then 254 else if t == 2 then 253 else 257 - t)
  }

  function AnswerState(): (s: seq<u8>)
    ensures |s| == 256
  {
    Identity()[0 := 1][1 := 2][2 := 3][3 := 0]
  }

  /** From place 4 on nothing moves. */
  lemma {:induction false} AnswerTail(st: State)
    requires Sized(st) && 4 <= st.i && st.k == st.i - 1 && forall t :: 4 <= t < 256 ==> st.s[t] == t
    ensures Pass(st, AnswerKey()) == State(st.s, 0, st.j, 255)
    decreases 256 - st.i
  {
    var next := Stir(st, AnswerKey()[st.i % 256]);
    assert AddByte(AddByte(st.k, st.s[st.i]), AnswerKey()[st.i % 256]) == st.i;
    assert Swapped(st.s, st.i, st.i) == st.s;
    if st.i < 255 {
      AnswerTail(next);
    }
  }

  lemma AnswerKeyed()
    ensures Keyed(Start(), AnswerKey()) == State(AnswerState(), 0, 0, 255)
  {
    var p, id := AnswerKey(), Identity();
    var a := Stir(Start(), p[0]);
    assert a == State(id[0 := 3][3 := 0], 1, 0, 3);
    var b := Stir(a, p[1]);
    assert b == State(id[0 := 3][3 := 0][1 := 2][2 := 1], 2, 0, 2);
    var c := Stir(b, p[2]);
    assert c == State(id[0 := 1][3 := 0][1 := 2][2 := 3], 3, 0, 0);
    var d := Stir(c, p[3]);
    assert d == State(AnswerState(), 4, 0, 3);
    AnswerTail(d);
    KeyedOnce(Start(), p);
    assert Pass(Start(), p) == Pass(a, p) && Pass(a, p) == Pass(b, p) && Pass(b, p) == Pass(c, p) && Pass(c, p) == Pass(d, p);
  }

  /** One step of the key stream, from the two places it swaps. */
  lemma NextIs(st: State, i: u8, j: u8, x: u8, y: u8, next: State)
    requires Sized(st) && i == AddByte(st.i, 1) && x == st.s[i] && j == AddByte(st.j, x) && y == st.s[j]
    requires next == State(st.s[i := y][j := x], i, j, st.k)
    ensures Next(st) == next
  {
  }

  /** Zero bytes become the key stream. */
  lemma ZerosCrypted(st: State, z: seq<u8>, t: nat, b: u8)
    requires Sized(st) && t < |z| && z[t] == 0 && b == Output(After(st, t + 1))
    ensures Crypted(st, z)[t] == b
  {
    CryptedAt(st, z, t);
    ZeroXor(b);
  }

  lemma ZeroXor(b: u8)
    ensures XorByte(0, b) == b
  {
    XorCommutes(0, b);
    XorZero(b);
  }

  /** sts lists the states one after the other. */
  ghost predicate Steps(sts: seq<State>) {
    && (forall t :: 0 <= t < |sts| ==> Sized(sts[t]))
    && (forall t {:trigger Next(sts[t])} :: 0 <= t < |sts| - 1 ==> sts[t + 1] == Next(sts[t]))
  }

  lemma {:induction false} StepsAre(sts: seq<State>, n: nat)
    requires n < |sts| && Steps(sts)
    ensures After(sts[0], n) == sts[n]
  {
    if n > 0 {
      StepsAre(sts, n - 1);
      assert sts[n - 1 + 1] == Next(sts[n - 1]);
    }
  }

  lemma StreamAt(sts: seq<State>, z: seq<u8>, t: nat)
    requires |sts| == |z| + 1 && Steps(sts) && t < |z| && z[t] == 0
    ensures Crypted(sts[0], z)[t] == Output(sts[t + 1])
  {
    StepsAre(sts, t + 1);
    ZerosCrypted(sts[0], z, t, Output(sts[t + 1]));
  }

  /** The states behind the first five bytes. */
  lemma AnswerStates(st: State) returns (sts: seq<State>)
    requires st == State(AnswerState(), 0, 0, 255)
    ensures |sts| == 6 && sts[0] == st && Steps(sts)
    ensures forall t :: 0 <= t < 5 ==> Output(sts[t + 1]) == [5, 6, 4, 1, 14][t]
  {
    var id := Identity();
    var a := State(id[0 := 1][1 := 3][2 := 2][3 := 0], 1, 2, 255);
    NextIs(st, 1, 2, 2, 3, a);
    var b := State(a.s[2 := 4][4 := 2], 2, 4, 255);
    NextIs(a, 2, 4, 2, 4, b);
    var c := State(b.s[3 := 2][4 := 0], 3, 4, 255);
    NextIs(b, 3, 4, 0, 2, c);
    var d := State(c.s, 4, 4, 255);
    NextIs(c, 4, 4, 0, 0, d);
    var e := State(d.s[5 := 9][9 := 5], 5, 9, 255);
    NextIs(d, 5, 9, 5, 9, e);
    sts := [st, a, b, c, d, e];
  }

  /** Under that key zero bytes become 05 06 04 01 0e. */
  lemma KnownAnswer()
    ensures Crypted(Keyed(Start(), AnswerKey()), [0, 0, 0, 0, 0]) == [5, 6, 4, 1, 14]
  {
    AnswerKeyed();
    var st := State(AnswerState(), 0, 0, 255);
    var sts := AnswerStates(st);
    var z, out := [0, 0, 0, 0, 0], [5, 6, 4, 1, 14];
    forall t | 0 <= t < 5
      ensures Crypted(st, z)[t] == out[t]
    {
      StreamAt(sts, z, t);
    }
  }

  // ---- in place -----------------------------------------------------------------------------------

  class Cipher {
    const stte: array<u8>
    var indx: u8
    var jndx: u8
    var kndx: u8

    ghost predicate Valid()
      reads this, stte
    {
      stte.Length == 256 && Permutation(Abs())
    }

    ghost function Abs(): (st: State)
      reads this, stte
    {
      State(stte[..], indx, jndx, kndx)
    }

    constructor ()
      ensures Valid() && fresh(stte) && Abs() == Start()
    {
      stte := new u8[256];
      new;
      Reset();
    }

    /** stte_0: the loop ends when the index wraps. */
    method Reset()
      requires stte.Length == 256
      modifies this, stte
      ensures Valid() && Abs() == Start()
    {
      indx, jndx, kndx := 0, 0, 0;
      var more := true;
      while more
        invariant jndx == 0 && kndx == 0
        invariant forall i :: 0 <= i < (if more then indx else 256) ==> stte[i] == i
        invariant !more ==> indx == 0
        decreases more, 256 - indx
      {
        stte[indx] := indx;
        indx := AddByte(indx, 1);
        more := indx != 0;
      }
      assert stte[..] == Identity();
    }

    method Swap(a: u8, b: u8)
      requires stte.Length == 256
      modifies stte
      ensures stte[..] == Swapped(old(stte[..]), a, b)
    {
      var tmp := stte[a];
      stte[a] := stte[b];
      stte[b] := tmp;
    }

    method StirByte(b: u8)
      requires Valid()
      modifies this, stte
      ensures Valid() && Abs() == Stir(old(Abs()), b)
    {
      StirKeeps(Abs(), b);
      var tmp := stte[indx];
      kndx := AddByte(kndx, tmp);
      kndx := AddByte(kndx, b);
      Swap(indx, kndx);
      indx := AddByte(indx, 1);
    }

    /** key. Can be used more than once, and starts wherever the index stands. */
    method Key(str: seq<u8>)
      requires Valid()
      modifies this, stte
      ensures Valid() && Abs() == Keyed(old(Abs()), str)
    {
      var p := str;
      while p != []
        invariant Valid() && Keyed(Abs(), p) == Keyed(old(Abs()), str)
        decreases |p|
      {
        ghost var goal := Pass(Abs(), p);
        var more := true;
        while more
          invariant Valid()
          invariant if more then Pass(Abs(), p) == goal else Abs() == goal
          decreases more, 256 - indx
        {
          StirByte(p[indx % |p|]);
          more := indx != 0;
        }
        p := if |p| <= 256 then [] else p[256..];
      }
    }

    /** One step of arc4. */
    method Advance() returns (b: u8)
      requires Valid()
      modifies this, stte
      ensures Valid() && Abs() == Next(old(Abs())) && b == Output(Abs())
    {
      NextKeeps(Abs());
      indx := AddByte(indx, 1);
      var tmp := stte[indx];
      jndx := AddByte(jndx, tmp);
      Swap(indx, jndx);
      assert stte[..][jndx] == tmp;
      tmp := AddByte(tmp, stte[indx]);
      b := stte[tmp];
    }

    /** arc4. */
    method Crypt(str: seq<u8>) returns (out: seq<u8>)
      requires Valid()
      modifies this, stte
      ensures Valid() && Abs() == After(old(Abs()), |str|)
      ensures out == Crypted(old(Abs()), str)
    {
      out := [];
      for n := 0 to |str|
        invariant Valid() && Abs() == After(old(Abs()), n)
        invariant out == Crypted(old(Abs()), str[..n])
      {
        var b := Advance();
        CryptedSnoc(old(Abs()), str, n);
        out := out + [XorByte(str[n], b)];
      }
      assert str[..|str|] == str;
    }
  }
}
