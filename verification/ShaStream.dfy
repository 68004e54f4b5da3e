/** The streaming side of sha.c and sha256.c: init, update and final. The two files share it
    all but the transform, the initial value and the number of words, which the vtable of
    hash-internal.h selects. */
module ShaStream {
  import opened Words
  import opened Fips180
  import Sha

  // ---- the fold over a growing message ------------------------------------------------------------

  /** step is the compression function of alg. */
  ghost predicate Standard(alg: Alg, step: Step) {
    forall h: seq<u32>, b: seq<u8> {:trigger Compressed(alg, h, b)} ::
      |h| == WordCount(alg) && |b| == 64 ==> step(h, b) == Compressed(alg, h, b)
  }

  lemma {:induction false} FoldLength(alg: Alg, s: seq<u8>, n: nat)
    requires 64 * n <= |s|
    ensures |Folded(alg, s, n)| == WordCount(alg)
  {
    if n > 0 {
      FoldLength(alg, s, n - 1);
      StepLength(alg, Folded(alg, s, n - 1), s[64 * (n - 1)..64 * n]);
    }
  }

  lemma StepLength(alg: Alg, h: seq<u32>, b: seq<u8>)
    requires |h| == WordCount(alg) && |b| == 64
    ensures |Compressor(alg)(h, b)| == WordCount(alg)
  {
  }

  lemma DigestLength(alg: Alg, m: seq<u8>)
    ensures |Digest(alg, m)| == 4 * WordCount(alg)
  {
    FoldLength(alg, Padded(m), |Padded(m)| / 64);
  }

  /** More message behind does not change the blocks before. */
  lemma {:induction false} FoldPrefix(step: Step, h: seq<u32>, s: seq<u8>, t: seq<u8>, n: nat)
    requires 64 * n <= |s| && 64 * n <= |t| && s[..64 * n] == t[..64 * n]
    ensures Fold(step, h, s, n) == Fold(step, h, t, n)
  {
    if n > 0 {
      var a, b := 64 * (n - 1), 64 * n;
      assert s[..a] == s[..b][..a] && t[..a] == t[..b][..a];
      assert s[a..b] == s[..b][a..] && t[a..b] == t[..b][a..];
      FoldPrefix(step, h, s, t, n - 1);
    }
  }

  /** The state and buffer after a message: n whole blocks folded, the rest pending. */
  ghost predicate Holds(step: Step, h: seq<u32>, message: seq<u8>, n: nat, fill: nat, state: seq<u32>, buf: seq<u8>) {
    && |h| <= |state| == 8 && |buf| == 64 && fill < 64 && |message| == 64 * n + fill
    && state[..|h|] == Fold(step, h, message, n)
    && buf[..fill] == message[64 * n..]
  }

  /** One more byte that does not fill the block. */
  lemma HoldsMore(step: Step, h: seq<u32>, m: seq<u8>, n: nat, fill: nat, state: seq<u32>, buf: seq<u8>, after: seq<u8>, b: u8)
    requires Holds(step, h, m, n, fill, state, buf) && fill < 63 && after == buf[fill := b]
    ensures Holds(step, h, m + [b], n, fill + 1, state, after)
  {
    FoldPrefix(step, h, m, m + [b], n);
  }

  /** One that does. */
  lemma HoldsBlock(step: Step, h: seq<u32>, m: seq<u8>, n: nat, state: seq<u32>, buf: seq<u8>, after: seq<u8>, next: seq<u32>, b: u8)
    requires Holds(step, h, m, n, 63, state, buf) && after == buf[63 := b]
    requires |next| == 8 && next[..|h|] == step(state[..|h|], after)
    ensures Holds(step, h, m + [b], n + 1, 0, next, after)
  {
    var t := m + [b];
    FoldPrefix(step, h, m, t, n);
    assert t[64 * n..64 * (n + 1)] == after by {
      assert t[64 * n..64 * (n + 1)] == m[64 * n..] + [b];
      assert after == buf[..63] + [b];
    }
  }

  lemma FillOf(count: nat, n: nat, blocks: nat)
    requires count == n % 0x1_0000_0000_0000_0000 && 0 <= n - 64 * blocks < 64
    ensures count % 64 == n - 64 * blocks
  {
    var h := 0x400_0000_0000_0000 * (n / 0x1_0000_0000_0000_0000);
    assert n == count + 64 * h;
  }

  lemma CountOf(n: nat, k: nat)
    ensures (n % 0x1_0000_0000_0000_0000 + k) % 0x1_0000_0000_0000_0000 == (n + k) % 0x1_0000_0000_0000_0000
  {
  }

  // ---- the context ----------------------------------------------------------------------------------

  /** HASH_CTX. */
  class Context {
    const alg: Alg
    // A 64-bit byte count, which wraps.
    var count: nat
    const buf: array<u8>
    const state: array<u32>

    ghost const step: Step
    ghost const init: seq<u32>
    // The message so far, and how many of its blocks are in the state.
    ghost var message: seq<u8>
    ghost var blocks: nat

    ghost predicate Valid()
      reads this, buf, state
    {
      && buf.Length == 64 && state.Length == 8 && |init| == WordCount(alg) && Standard(alg, step)
      && count == |message| % 0x1_0000_0000_0000_0000
      && 64 * blocks <= |message|
      && Holds(step, init, message, blocks, |message| - 64 * blocks, state[..], buf[..])
    }

    /** SHA_init and SHA256_init. */
    constructor (alg: Alg)
      ensures Valid() && message == [] && this.alg == alg && fresh(buf) && fresh(state)
      ensures init == Initial(alg) && step == Compressor(alg)
    {
      var h := Initial(alg);
      this.alg, count := alg, 0;
      message, blocks, init := [], 0, h;
      step := Compressor(alg);
      buf := new u8[64];
      state := new u32[8](i requires 0 <= i < 8 => if i < |h| then h[i] else 0);
      new;
      assert state[..WordCount(alg)] == h;
    }

    /** The transform the algorithm's file defines. */
    method Transform()
      requires buf.Length == 64 && state.Length == 8 && Standard(alg, step)
      modifies state
      ensures state[..WordCount(alg)] == step(old(state[..WordCount(alg)]), buf[..])
    {
      ghost var h := state[..WordCount(alg)];
      if alg == Sha1 {
        Sha.Transform1(buf, state);
      } else {
        assert h == state[..];
        Sha.Transform256(buf, state);
        assert state[..WordCount(alg)] == state[..];
      }
      assert step(h, buf[..]) == Compressed(alg, h, buf[..]);
    }

    /** `buf[i++] = b; if (i == 64) transform`. */
    method Absorb(b: u8, i: nat) returns (next: nat)
      requires buf.Length == 64 && state.Length == 8 && i < 64 && |init| == WordCount(alg) && Standard(alg, step)
      requires Holds(step, init, message, blocks, i, state[..], buf[..])
      modifies this`message, this`blocks, buf, state
      ensures message == old(message) + [b] && next < 64
      ensures Holds(step, init, message, blocks, next, state[..], buf[..])
    {
      ghost var m, n, s, x := message, blocks, state[..], buf[..];
      buf[i] := b;
      next := i + 1;
      message := message + [b];
      assert state[..] == s;
      if next == 64 {
        Transform();
        HoldsBlock(step, init, m, n, s, x, buf[..], state[..], b);
        blocks := blocks + 1;
        next := 0;
      } else {
        HoldsMore(step, init, m, n, i, s, x, buf[..], b);
      }
    }

    /** SHA_update and SHA256_update. */
    method Update(data: seq<u8>)
      requires Valid()
      modifies this`count, this`message, this`blocks, buf, state
      ensures Valid() && message == old(message) + data
    {
      var i := count % 64;
      FillOf(count, |message|, blocks);
      ghost var m := message;
      CountOf(|m|, |data|);
      count := (count + |data|) % 0x1_0000_0000_0000_0000;
      ghost var c := count;
      for k := 0 to |data|
        invariant 0 <= i < 64 && message == m + data[..k] && count == c
        invariant Holds(step, init, message, blocks, i, state[..], buf[..])
      {
        i := Absorb(data[k], i);
      }
      assert data[..|data|] == data;
    }

    method Push(b: u8)
      requires Valid()
      modifies this`count, this`message, this`blocks, buf, state
      ensures Valid() && message == old(message) + [b]
    {
      Update([b]);
    }

    /** The 0x80 byte and the zeros: the loop ends after at most 63 of them. */
    method PadZeros()
      requires Valid()
      modifies this`count, this`message, this`blocks, buf, state
      ensures Valid() && message == old(message) + [0x80] + seq(PadCount(|old(message)|), _ => 0)
    {
      ghost var n := |message|;
      ghost var pad := message + [0x80];
      Push(0x80);
      ghost var k := 0;
      PadFill(count, |message|, n, 0);
      while count % 64 != 56
        invariant Valid() && 0 <= k <= PadCount(n) && message == pad + seq(k, _ => 0)
        invariant count % 64 == 56 <==> k == PadCount(n)
        decreases PadCount(n) - k
      {
        Push(0);
        k := k + 1;
        assert message == pad + seq(k, _ => 0);
        PadFill(count, |message|, n, k);
      }
    }

    /** The length field, byte by byte from the top. */
    method PadLength(cnt: nat)
      requires Valid()
      modifies this`count, this`message, this`blocks, buf, state
      ensures Valid() && message == old(message) + LengthField(cnt)
    {
      ghost var before, field := message, LengthField(cnt);
      for i := 0 to 8
        invariant Valid() && message == before + field[..i]
      {
        Push(ShiftedByte(cnt, 7 - i));
        assert field[..i + 1] == field[..i] + [field[i]];
      }
      assert field[..8] == field;
    }

    /** The padding of section 5.1.1. */
    method Pad()
      requires Valid() && |message| < 0x2000_0000_0000_0000
      modifies this`count, this`message, this`blocks, buf, state
      ensures Valid() && message == Padded(old(message))
    {
      var cnt := (count * 8) % 0x1_0000_0000_0000_0000;
      BitCount(count, |message|);
      PadZeros();
      PadLength(cnt);
    }

    /** The digest, written over the buffer. */
    method WriteDigest()
      requires buf.Length == 64 && state.Length == 8
      modifies buf
      ensures buf[..4 * WordCount(alg)] == DigestBytes(state[..WordCount(alg)])
    {
      var words := WordCount(alg);
      var p := 0;
      ghost var h := state[..];
      for i := 0 to words
        invariant p == 4 * i && state[..] == h && buf[..p] == DigestBytes(h[..i])
      {
        var s := WordBytes(state[i]);
        buf[p], buf[p + 1], buf[p + 2], buf[p + 3] := s[0], s[1], s[2], s[3];
        assert h[..i + 1][..i] == h[..i];
        assert buf[..p + 4] == buf[..p] + s;
        p := p + 4;
      }
    }

    /** SHA_final and SHA256_final, for messages under 2^61 bytes. */
    method Final() returns (digest: seq<u8>)
      requires Valid() && init == Initial(alg) && step == Compressor(alg) && |message| < 0x2000_0000_0000_0000
      modifies this`count, this`message, this`blocks, buf, state
      ensures digest == Digest(alg, old(message))
    {
      ghost var m := message;
      Pad();
      ghost var n := |Padded(m)| / 64;
      WholeBlocks(|message|, blocks);
      WriteDigest();
      digest := buf[..4 * WordCount(alg)];
    }
  }

  /** `(uint8_t) (cnt >> (8 * k))`. */
  function ShiftedByte(cnt: nat, k: nat): u8 {
    (cnt / Power256(k)) % 256
  }

  lemma BitCount(count: nat, n: nat)
    requires n < 0x2000_0000_0000_0000 && count == n % 0x1_0000_0000_0000_0000
    ensures (count * 8) % 0x1_0000_0000_0000_0000 == 8 * n
  {
  }

  lemma PadFill(count: nat, length: nat, n: nat, k: nat)
    requires count == length % 0x1_0000_0000_0000_0000 && length == n + 1 + k && k <= PadCount(n)
    ensures count % 64 == 56 <==> k == PadCount(n)
  {
    var h := 0x400_0000_0000_0000 * (length / 0x1_0000_0000_0000_0000);
    assert length == count + 64 * h;
    var q := (n + 1 + PadCount(n)) / 64;
    FillReached(count, q - h, PadCount(n) - k);
  }

  lemma FillReached(count: int, q: int, d: int)
    requires count == 64 * q + 56 - d && 0 <= d < 64
    ensures count % 64 == 56 <==> d == 0
  {
  }

  lemma WholeBlocks(length: nat, n: nat)
    requires length % 64 == 0 && 0 <= length - 64 * n < 64
    ensures length / 64 == n
  {
  }

  /** SHA_hash and SHA256_hash. */
  method Hash(alg: Alg, data: seq<u8>) returns (digest: seq<u8>)
    requires |data| < 0x2000_0000_0000_0000
    ensures digest == Digest(alg, data)
  {
    var ctx := new Context(alg);
    ctx.Update(data);
    assert ctx.message == data;
    digest := ctx.Final();
  }

  function Flatten(chunks: seq<seq<u8>>): seq<u8> {
    if chunks == [] then [] else Flatten(chunks[..|chunks| - 1]) + chunks[|chunks| - 1]
  }

  /** However a message is cut into updates, the digest is that of the whole. */
  method HashChunks(alg: Alg, chunks: seq<seq<u8>>) returns (digest: seq<u8>)
    requires |Flatten(chunks)| < 0x2000_0000_0000_0000
    ensures digest == Digest(alg, Flatten(chunks))
  {
    var ctx := new Context(alg);
    for i := 0 to |chunks|
      invariant ctx.Valid() && ctx.alg == alg && ctx.init == Initial(alg) && ctx.step == Compressor(alg) && fresh(ctx) && fresh(ctx.buf) && fresh(ctx.state)
      invariant ctx.message == Flatten(chunks[..i])
    {
      assert chunks[..i + 1][..i] == chunks[..i];
      ctx.Update(chunks[i]);
    }
    assert chunks[..|chunks|] == chunks;
    digest := ctx.Final();
  }
}
