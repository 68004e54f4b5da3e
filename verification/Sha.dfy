/** The streaming hashes of sha.c and sha256.c. The two files share everything but the
    transform, the initial value and the number of words, which the vtable of
    hash-internal.h selects. */
module Sha {
  import opened Words
  import opened Bits
  import opened WordOps
  import opened Fips180

  // ---- transforms ---------------------------------------------------------------------------------

  /** The first sixteen words, common to both transforms. */
  method LoadWords(buf: array<u8>, W: array<u32>)
    requires buf.Length == 64 && W.Length >= 16
    modifies W
    ensures forall t :: 0 <= t < 16 ==> W[t] == BlockWord(buf[..], t)
  {
    var p := 0;
    for t := 0 to 16
      invariant p == 4 * t
      invariant forall k :: 0 <= k < t ==> W[k] == BlockWord(buf[..], k)
    {
      var tmp := JoinBytes(buf[p], buf[p + 1], buf[p + 2], buf[p + 3]);
      W[t] := tmp;
      p := p + 4;
    }
  }

  /** SHA-1's rewritten choice and majority are the standard ones. */
  lemma ChooseForm(b: u32, c: u32, d: u32)
    ensures Xor32(d, And32(b, Xor32(c, d))) == Ch(b, c, d)
  {
    var w := 32;
    Pow2Thirty2(w);
    ChooseBits(b, Not32(b), c, d, w);
  }

  lemma MajorityForm(b: u32, c: u32, d: u32)
    ensures Or32(And32(b, c), And32(d, Or32(b, c))) == Maj(b, c, d)
  {
    MajorityBits(b, c, d);
  }

  /** One round of SHA1_Transform, with the functions and sums as it writes them. */
  method Round1(r: Working1, t: nat, w: u32) returns (n: Working1)
    ensures n == Step1(r, t, w)
  {
    var x := Rotl(5, r.a);
    var f: u32;
    if t < 20 {
      ChooseForm(r.b, r.c, r.d);
      f := Xor32(r.d, And32(r.b, Xor32(r.c, r.d)));
    } else if t < 40 {
      f := Xor32(Xor32(r.b, r.c), r.d);
    } else if t < 60 {
      MajorityForm(r.b, r.c, r.d);
      f := Or32(And32(r.b, r.c), And32(r.d, Or32(r.b, r.c)));
    } else {
      f := Xor32(Xor32(r.b, r.c), r.d);
    }
    assert f == F1(t, r.b, r.c, r.d);
    Sum5(x, r.e, w, f, K1(t));
    var tmp := Add32(Add32(Add32(x, r.e), w), Add32(f, K1(t)));
    n := Working1(tmp, r.a, Rotl(30, r.b), r.c, r.d);
  }

  /** The message schedule of SHA1_Transform. */
  method Expand1(buf: array<u8>) returns (W: array<u32>)
    requires buf.Length == 64
    ensures fresh(W) && W.Length == 80 && forall t :: 0 <= t < 80 ==> W[t] == Schedule1(buf[..], t)
  {
    W := new u32[80];
    ghost var b := buf[..];
    LoadWords(buf, W);
    for t := 16 to 80
      invariant buf[..] == b
      invariant forall k :: 0 <= k < t ==> W[k] == Schedule1(b, k)
    {
      var x := Rotl(1, Xor32(Xor32(Xor32(W[t - 3], W[t - 8]), W[t - 14]), W[t - 16]));
      W[t] := x;
    }
  }

  /** The eighty rounds. */
  method AllRounds1(W: array<u32>, r0: Working1, ghost block: seq<u8>) returns (r: Working1)
    requires |block| == 64 && W.Length == 80 && forall t :: 0 <= t < 80 ==> W[t] == Schedule1(block, t)
    ensures r == Rounds1(r0, block, 80)
  {
    r := r0;
    for t := 0 to 80
      invariant r == Rounds1(r0, block, t)
    {
      r := Round1(r, t, W[t]);
    }
  }

  method AddInto1(state: array<u32>, r: Working1)
    requires state.Length == 8
    modifies state
    ensures state[..5] == Compressed1(old(state[..5]), r)
  {
    state[0] := Add32(state[0], r.a);
    state[1] := Add32(state[1], r.b);
    state[2] := Add32(state[2], r.c);
    state[3] := Add32(state[3], r.d);
    state[4] := Add32(state[4], r.e);
  }

  /** SHA1_Transform. */
  method Transform1(buf: array<u8>, state: array<u32>)
    requires buf.Length == 64 && state.Length == 8
    modifies state
    ensures state[..5] == Compressed(Sha1, old(state[..5]), buf[..])
  {
    ghost var h, b := state[..5], buf[..];
    var W := Expand1(buf);
    var r := Working1(state[0], state[1], state[2], state[3], state[4]);
    assert r == Working1(h[0], h[1], h[2], h[3], h[4]);
    r := AllRounds1(W, r, b);
    AddInto1(state, r);
  }

  /** w holds the first words of the schedule of block b. */
  ghost predicate Scheduled256(b: seq<u8>, w: seq<u32>)
    requires |b| == 64
  {
    w == [] || (Scheduled256(b, w[..|w| - 1]) && w[|w| - 1] == Schedule256(b, |w| - 1))
  }

  lemma {:induction false} ScheduledAt256(b: seq<u8>, w: seq<u32>, t: nat)
    requires |b| == 64 && Scheduled256(b, w) && t < |w|
    ensures w[t] == Schedule256(b, t)
  {
    if t < |w| - 1 {
      ScheduledAt256(b, w[..|w| - 1], t);
    }
  }

  lemma {:induction false} ScheduledFirst256(b: seq<u8>, w: seq<u32>)
    requires |b| == 64 && |w| <= 16 && forall t :: 0 <= t < |w| ==> w[t] == BlockWord(b, t)
    ensures Scheduled256(b, w)
  {
    if w != [] {
      ScheduledFirst256(b, w[..|w| - 1]);
    }
  }

  /** The recurrence, on words already known. */
  lemma ScheduleStep(b: seq<u8>, t: nat, w2: u32, w7: u32, w15: u32, w16: u32, s1: u32, s0: u32)
    requires |b| == 64 && t >= 16
    requires w2 == Schedule256(b, t - 2) && w7 == Schedule256(b, t - 7) && w15 == Schedule256(b, t - 15) && w16 == Schedule256(b, t - 16)
    requires s1 == SmallSigma1(w2) && s0 == SmallSigma0(w15)
    ensures Schedule256(b, t) == (s1 as int + w7 as int + s0 as int + w16 as int) % 0x1_0000_0000
  {
  }

  lemma ScheduledMore(b: seq<u8>, w: seq<u32>, x: u32)
    requires |b| == 64 && Scheduled256(b, w) && x == Schedule256(b, |w|)
    ensures Scheduled256(b, w + [x])
  {
    assert (w + [x])[..|w|] == w;
  }

  lemma ScheduledNext256(b: seq<u8>, w: seq<u32>, x: u32, s1: u32, s0: u32)
    requires |b| == 64 && Scheduled256(b, w) && |w| >= 16
    requires s1 == SmallSigma1(w[|w| - 2]) && s0 == SmallSigma0(w[|w| - 15])
    requires x == (s1 as int + w[|w| - 7] as int + s0 as int + w[|w| - 16] as int) % 0x1_0000_0000
    ensures Scheduled256(b, w + [x])
  {
    var t := |w|;
    ScheduledAt256(b, w, t - 2);
    ScheduledAt256(b, w, t - 7);
    ScheduledAt256(b, w, t - 15);
    ScheduledAt256(b, w, t - 16);
    ScheduleStep(b, t, w[t - 2], w[t - 7], w[t - 15], w[t - 16], s1, s0);
    ScheduledMore(b, w, x);
  }

  /** `W[t-16] + s0 + W[t-7] + s1`, the next word after w. */
  method NextWord(a: u32, b: u32, c: u32, d: u32, ghost block: seq<u8>, ghost w: seq<u32>) returns (x: u32)
    requires |block| == 64 && Scheduled256(block, w) && |w| >= 16
    requires a == w[|w| - 16] && b == w[|w| - 15] && c == w[|w| - 7] && d == w[|w| - 2]
    ensures Scheduled256(block, w + [x])
  {
    var s0 := Xor32(Xor32(Rotr(7, b), Rotr(18, b)), Shr32(b, 3));
    var s1 := Xor32(Xor32(Rotr(17, d), Rotr(19, d)), Shr32(d, 10));
    Sum4(a, s0, c, s1);
    x := Add32(Add32(Add32(a, s0), c), s1);
    ScheduledNext256(block, w, x, s1, s0);
  }

  /** The message schedule of SHA256_Transform. */
  method Expand256(buf: array<u8>) returns (W: array<u32>)
    requires buf.Length == 64
    ensures fresh(W) && W.Length == 64 && Scheduled256(buf[..], W[..])
  {
    W := new u32[64];
    LoadWords(buf, W);
    ScheduledFirst256(buf[..], W[..16]);
    ExpandRest(W, buf[..], W[..16]);
  }

  /** Words 16 to 63. */
  method ExpandRest(W: array<u32>, ghost b: seq<u8>, ghost first: seq<u32>)
    requires W.Length == 64 && |b| == 64 && first == W[..16] && Scheduled256(b, first)
    modifies W
    ensures Scheduled256(b, W[..])
  {
    ghost var w: seq<u32> := first;
    for t := 16 to 64
      invariant |w| == t && Scheduled256(b, w)
      invariant forall k :: 0 <= k < t ==> W[k] == w[k]
    {
      var x := NextWord(W[t - 16], W[t - 15], W[t - 7], W[t - 2], b, w);
      W[t] := x;
      w := w + [x];
    }
    assert W[..] == w;
  }

  /** One round of SHA256_Transform. */
  method Round256(r: Working256, k: u32, w: u32) returns (n: Working256)
    ensures n == Step256(r, k, w)
  {
    var s0 := Xor32(Xor32(Rotr(2, r.a), Rotr(13, r.a)), Rotr(22, r.a));
    var maj := Xor32(Xor32(And32(r.a, r.b), And32(r.a, r.c)), And32(r.b, r.c));
    var t2 := Add32(s0, maj);
    var s1 := Xor32(Xor32(Rotr(6, r.e), Rotr(11, r.e)), Rotr(25, r.e));
    var ch := Xor32(And32(r.e, r.f), And32(Not32(r.e), r.g));
    Sum5(r.h, s1, ch, k, w);
    var t1 := Add32(Add32(Add32(Add32(r.h, s1), ch), k), w);
    n := Working256(Add32(t1, t2), r.a, r.b, r.c, Add32(r.d, t1), r.e, r.f, r.g);
  }

  /** The sixty-four rounds. */
  method AllRounds256(W: array<u32>, r0: Working256, ghost block: seq<u8>) returns (r: Working256)
    requires |block| == 64 && W.Length == 64 && Scheduled256(block, W[..])
    ensures r == Rounds256(r0, block, 64)
  {
    r := r0;
    for t := 0 to 64
      invariant r == Rounds256(r0, block, t)
    {
      ScheduledAt256(block, W[..], t);
      r := Round256(r, K256[t], W[t]);
    }
  }

  method AddInto256(state: array<u32>, r: Working256)
    requires state.Length == 8
    modifies state
    ensures state[..] == Compressed256(old(state[..]), r)
  {
    state[0] := Add32(state[0], r.a);
    state[1] := Add32(state[1], r.b);
    state[2] := Add32(state[2], r.c);
    state[3] := Add32(state[3], r.d);
    state[4] := Add32(state[4], r.e);
    state[5] := Add32(state[5], r.f);
    state[6] := Add32(state[6], r.g);
    state[7] := Add32(state[7], r.h);
  }

  function Load256(h: seq<u32>): Working256
    requires |h| == 8
  {
    Working256(h[0], h[1], h[2], h[3], h[4], h[5], h[6], h[7])
  }

  lemma Compressed256Is(h: seq<u32>, b: seq<u8>, r: Working256)
    requires |h| == 8 && |b| == 64 && r == Rounds256(Load256(h), b, 64)
    ensures Compressed(Sha256, h, b) == Compressed256(h, r)
  {
  }

  /** The rounds of SHA256_Transform, from the state. */
  method Hash256(buf: array<u8>, state: array<u32>) returns (r: Working256)
    requires buf.Length == 64 && state.Length == 8
    ensures r == Rounds256(Load256(state[..]), buf[..], 64)
  {
    ghost var b := buf[..];
    var W := Expand256(buf);
    r := Working256(state[0], state[1], state[2], state[3], state[4], state[5], state[6], state[7]);
    assert r == Load256(state[..]);
    r := AllRounds256(W, r, b);
  }

  /** SHA256_Transform. */
  method Transform256(buf: array<u8>, state: array<u32>)
    requires buf.Length == 64 && state.Length == 8
    modifies state
    ensures state[..] == Compressed(Sha256, old(state[..]), buf[..])
  {
    var r := Hash256(buf, state);
    Compressed256Is(state[..], buf[..], r);
    AddInto256(state, r);
  }
}
