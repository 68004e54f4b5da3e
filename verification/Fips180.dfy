/** SHA-1 and SHA-256 as sections 4 to 6 of FIPS 180-4 define them: functions of the whole
    message. */
module Fips180 {

  import opened Words
  import opened WordOps

  datatype Alg = Sha1 | Sha256

  // ---- 4.1: functions on words ----------------------------------------------------------------

  function Rotl(n: nat, x: u32): u32
    requires 0 < n < 32
  {
    Or32(Shl32(x, n), Shr32(x, 32 - n))
  }

  function Rotr(n: nat, x: u32): u32
    requires 0 < n < 32
  {
    Or32(Shr32(x, n), Shl32(x, 32 - n))
  }

  function Ch(x: u32, y: u32, z: u32): u32 {
    Xor32(And32(x, y), And32(Not32(x), z))
  }

  function Parity(x: u32, y: u32, z: u32): u32 {
    Xor32(Xor32(x, y), z)
  }

  function Maj(x: u32, y: u32, z: u32): u32 {
    Xor32(Xor32(And32(x, y), And32(x, z)), And32(y, z))
  }

  function BigSigma0(x: u32): u32 {
    Xor32(Xor32(Rotr(2, x), Rotr(13, x)), Rotr(22, x))
  }

  function BigSigma1(x: u32): u32 {
    Xor32(Xor32(Rotr(6, x), Rotr(11, x)), Rotr(25, x))
  }

  function SmallSigma0(x: u32): u32 {
    Xor32(Xor32(Rotr(7, x), Rotr(18, x)), Shr32(x, 3))
  }

  function SmallSigma1(x: u32): u32 {
    Xor32(Xor32(Rotr(17, x), Rotr(19, x)), Shr32(x, 10))
  }

  // ---- 4.2: constants --------------------------------------------------------------------------

  function K1(t: nat): u32 {
    if t < 20 then 0x5A82_7999 else if t < 40 then 0x6ED9_EBA1 else if t < 60 then 0x8F1B_BCDC else 0xCA62_C1D6
  }

  const KRow0: seq<u32> := [0x428a2f98, 0x71374491, 0xb5c0fbcf, 0xe9b5dba5, 0x3956c25b, 0x59f111f1, 0x923f82a4, 0xab1c5ed5]
  const KRow1: seq<u32> := [0xd807aa98, 0x12835b01, 0x243185be, 0x550c7dc3, 0x72be5d74, 0x80deb1fe, 0x9bdc06a7, 0xc19bf174]
  const KRow2: seq<u32> := [0xe49b69c1, 0xefbe4786, 0x0fc19dc6, 0x240ca1cc, 0x2de92c6f, 0x4a7484aa, 0x5cb0a9dc, 0x76f988da]
  const KRow3: seq<u32> := [0x983e5152, 0xa831c66d, 0xb00327c8, 0xbf597fc7, 0xc6e00bf3, 0xd5a79147, 0x06ca6351, 0x14292967]
  const KRow4: seq<u32> := [0x27b70a85, 0x2e1b2138, 0x4d2c6dfc, 0x53380d13, 0x650a7354, 0x766a0abb, 0x81c2c92e, 0x92722c85]
  const KRow5: seq<u32> := [0xa2bfe8a1, 0xa81a664b, 0xc24b8b70, 0xc76c51a3, 0xd192e819, 0xd6990624, 0xf40e3585, 0x106aa070]
  const KRow6: seq<u32> := [0x19a4c116, 0x1e376c08, 0x2748774c, 0x34b0bcb5, 0x391c0cb3, 0x4ed8aa4a, 0x5b9cca4f, 0x682e6ff3]
  const KRow7: seq<u32> := [0x748f82ee, 0x78a5636f, 0x84c87814, 0x8cc70208, 0x90befffa, 0xa4506ceb, 0xbef9a3f7, 0xc67178f2]

  const K256: seq<u32> := KRow0 + KRow1 + KRow2 + KRow3 + KRow4 + KRow5 + KRow6 + KRow7

  // ---- 5.1.1: padding -----------------------------------------------------------------------------

  function Power256(k: nat): (p: nat)
    ensures p > 0
  {
    if k == 0 then 1 else 256 * Power256(k - 1)
  }

  function LengthByte(bits: nat, i: nat): u8
    requires i < 8
  {
    (bits / Power256(7 - i)) % 256
  }

  /** The length in bits as a 64-bit big-endian number. */
  function LengthField(bits: nat): (s: seq<u8>)
    ensures |s| == 8
  {
    seq(8, i requires 0 <= i < 8 => LengthByte(bits, i))
  }

  /** How many zero bytes: the least k with (n + 1 + k) % 64 == 56. */
  function PadCount(n: nat): (k: nat)
    ensures k < 64 && (n + 1 + k) % 64 == 56
  {
    if (n + 1) % 64 <= 56 then 56 - (n + 1) % 64 else 120 - (n + 1) % 64
  }

  function Padded(m: seq<u8>): (s: seq<u8>)
    ensures |s| % 64 == 0
  {
    m + [0x80] + seq(PadCount(|m|), _ => 0) + LengthField(8 * |m|)
  }

  // ---- 6.1.2 and 6.2.2: the hash computation ----------------------------------------------------

  function WordOf(b0: u8, b1: u8, b2: u8, b3: u8): u32 {
    b0 as int * 0x100_0000 + b1 as int * 0x1_0000 + b2 as int * 0x100 + b3 as int
  }

  function BlockWord(block: seq<u8>, t: nat): u32
    requires |block| == 64 && t < 16
  {
    WordOf(block[4 * t], block[4 * t + 1], block[4 * t + 2], block[4 * t + 3])
  }

  function Schedule1(block: seq<u8>, t: nat): u32
    requires |block| == 64
  {
    if t < 16 then BlockWord(block, t)
    else Rotl(1, Xor32(Xor32(Xor32(Schedule1(block, t - 3), Schedule1(block, t - 8)), Schedule1(block, t - 14)), Schedule1(block, t - 16)))
  }

  function Schedule256(block: seq<u8>, t: nat): u32
    requires |block| == 64
  {
    if t < 16 then BlockWord(block, t)
    else (SmallSigma1(Schedule256(block, t - 2)) as int + Schedule256(block, t - 7) as int
          + SmallSigma0(Schedule256(block, t - 15)) as int + Schedule256(block, t - 16) as int) % 0x1_0000_0000
  }

  datatype Working1 = Working1(a: u32, b: u32, c: u32, d: u32, e: u32)

  function F1(t: nat, x: u32, y: u32, z: u32): u32 {
    if t < 20 then Ch(x, y, z) else if t < 40 then Parity(x, y, z) else if t < 60 then Maj(x, y, z) else Parity(x, y, z)
  }

  function Step1(r: Working1, t: nat, w: u32): Working1 {
    var temp := (Rotl(5, r.a) as int + F1(t, r.b, r.c, r.d) as int + r.e as int + K1(t) as int + w as int) % 0x1_0000_0000;
    Working1(temp, r.a, Rotl(30, r.b), r.c, r.d)
  }

  function Rounds1(r: Working1, block: seq<u8>, t: nat): Working1
    requires |block| == 64
  {
    if t == 0 then r else Step1(Rounds1(r, block, t - 1), t - 1, Schedule1(block, t - 1))
  }

  datatype Working256 = Working256(a: u32, b: u32, c: u32, d: u32, e: u32, f: u32, g: u32, h: u32)

  function Step256(r: Working256, k: u32, w: u32): Working256 {
    var t1 := (r.h as int + BigSigma1(r.e) as int + Ch(r.e, r.f, r.g) as int + k as int + w as int) % 0x1_0000_0000;
    var t2 := Add32(BigSigma0(r.a), Maj(r.a, r.b, r.c));
    Working256(Add32(t1, t2), r.a, r.b, r.c, Add32(r.d, t1), r.e, r.f, r.g)
  }

  function Rounds256(r: Working256, block: seq<u8>, t: nat): Working256
    requires |block| == 64 && t <= 64
  {
    if t == 0 then r else Step256(Rounds256(r, block, t - 1), K256[t - 1], Schedule256(block, t - 1))
  }

  function WordCount(alg: Alg): nat {
    if alg == Sha1 then 5 else 8
  }

  function Initial(alg: Alg): (h: seq<u32>)
    ensures |h| == WordCount(alg)
  {
    if alg == Sha1 then [0x6745_2301, 0xEFCD_AB89, 0x98BA_DCFE, 0x1032_5476, 0xC3D2_E1F0]
    else [0x6a09e667, 0xbb67ae85, 0x3c6ef372, 0xa54ff53a, 0x510e527f, 0x9b05688c, 0x1f83d9ab, 0x5be0cd19]
  }

  function Compressed1(h: seq<u32>, r: Working1): (n: seq<u32>)
    requires |h| == 5
    ensures |n| == 5
  {
    [Add32(h[0], r.a), Add32(h[1], r.b), Add32(h[2], r.c), Add32(h[3], r.d), Add32(h[4], r.e)]
  }

  function Compressed256(h: seq<u32>, r: Working256): (n: seq<u32>)
    requires |h| == 8
    ensures |n| == 8
  {
    [Add32(h[0], r.a), Add32(h[1], r.b), Add32(h[2], r.c), Add32(h[3], r.d), Add32(h[4], r.e), Add32(h[5], r.f), Add32(h[6], r.g), Add32(h[7], r.h)]
  }

  /** One message block. */
  function Compressed(alg: Alg, h: seq<u32>, block: seq<u8>): (n: seq<u32>)
    requires |h| == WordCount(alg) && |block| == 64
    ensures |n| == WordCount(alg)
  {
    if alg == Sha1 then Compressed1(h, Rounds1(Working1(h[0], h[1], h[2], h[3], h[4]), block, 80))
    else Compressed256(h, Rounds256(Working256(h[0], h[1], h[2], h[3], h[4], h[5], h[6], h[7]), block, 64))
  }

  type Step = (seq<u32>, seq<u8>) -> seq<u32>

  /** The compression function as a value. */
  function Compressor(alg: Alg): Step {
    (h: seq<u32>, b: seq<u8>) => if |h| == WordCount(alg) && |b| == 64 then Compressed(alg, h, b) else h
  }

  /** A step folded over the first n blocks of s. */
  function Fold(step: Step, h: seq<u32>, s: seq<u8>, n: nat): seq<u32>
    requires 64 * n <= |s|
  {
    if n == 0 then h else step(Fold(step, h, s, n - 1), s[64 * (n - 1)..64 * n])
  }

  /** The hash value after the first n blocks of s. */
  function Folded(alg: Alg, s: seq<u8>, n: nat): seq<u32>
    requires 64 * n <= |s|
  {
    Fold(Compressor(alg), Initial(alg), s, n)
  }

  function WordBytes(w: u32): (s: seq<u8>)
    ensures |s| == 4 && WordOf(s[0], s[1], s[2], s[3]) == w
  {
    var a := w / 0x100;
    var b := a / 0x100;
    [b / 0x100, b % 0x100, a % 0x100, w % 0x100]
  }

  function DigestBytes(h: seq<u32>): (s: seq<u8>)
    ensures |s| == 4 * |h|
  {
    if h == [] then [] else DigestBytes(h[..|h| - 1]) + WordBytes(h[|h| - 1])
  }

  /** The message digest. */
  function Digest(alg: Alg, m: seq<u8>): (s: seq<u8>)
  {
    DigestBytes(Folded(alg, Padded(m), |Padded(m)| / 64))
  }
}
