/** The constants of sections 4.2 and 5.3 of FIPS 180-4 as the roots they are taken from. */
module FipsRoots {
  import opened Words
  import opened Fips180

  // The first sixty-four primes.
  const PRow0: seq<nat> := [2, 3, 5, 7, 11, 13, 17, 19]
  const PRow1: seq<nat> := [23, 29, 31, 37, 41, 43, 47, 53]
  const PRow2: seq<nat> := [59, 61, 67, 71, 73, 79, 83, 89]
  const PRow3: seq<nat> := [97, 101, 103, 107, 109, 113, 127, 131]
  const PRow4: seq<nat> := [137, 139, 149, 151, 157, 163, 167, 173]
  const PRow5: seq<nat> := [179, 181, 191, 193, 197, 199, 211, 223]
  const PRow6: seq<nat> := [227, 229, 233, 239, 241, 251, 257, 263]
  const PRow7: seq<nat> := [269, 271, 277, 281, 283, 293, 307, 311]

  const Primes: seq<nat> := PRow0 + PRow1 + PRow2 + PRow3 + PRow4 + PRow5 + PRow6 + PRow7

  /** k is the whole part of the square root of d * 2^60. */
  predicate Root60(k: nat, d: nat) {
    k * k <= d * 0x1000_0000_0000_0000 < (k + 1) * (k + 1)
  }

  /** SHA-1's constants are the roots of 2, 3, 5 and 10. */
  lemma K1Roots(t: nat)
    ensures Root60(K1(t), if t < 20 then 2 else if t < 40 then 3 else if t < 60 then 5 else 10)
  {
  }

  /** The whole parts of the square and the cube root of one of the primes above. */
  function SquareWhole(p: nat): nat {
    if p < 4 then 1 else if p < 9 then 2 else if p < 16 then 3 else 4
  }

  function CubeWhole(p: nat): nat {
    if p < 8 then 1 else if p < 27 then 2 else if p < 64 then 3 else if p < 125 then 4 else if p < 216 then 5 else 6
  }

  /** k is the first 32 bits of the fraction of the square root of p. */
  predicate SquareFraction(k: u32, p: nat) {
    var x := SquareWhole(p) * 0x1_0000_0000 + k;
    x * x <= p * 0x1_0000_0000_0000_0000 < (x + 1) * (x + 1)
  }

  /** k is the first 32 bits of the fraction of the cube root of p. */
  predicate CubeFraction(k: u32, p: nat) {
    var x := CubeWhole(p) * 0x1_0000_0000 + k;
    x * x * x <= p * 0x1_0000_0000_0000_0000_0000_0000 < (x + 1) * (x + 1) * (x + 1)
  }

  type Relation = (u32, nat) -> bool

  /** Each number of ks is in the relation to the prime at its place. */
  ghost predicate Roots(root: Relation, ks: seq<u32>, ps: seq<nat>) {
    |ks| == |ps| && forall i :: 0 <= i < |ks| ==> root(ks[i], ps[i])
  }

  lemma RootsConcat(root: Relation, k: seq<u32>, l: seq<u32>, p: seq<nat>, q: seq<nat>)
    requires Roots(root, k, p) && Roots(root, l, q)
    ensures Roots(root, k + l, p + q)
  {
  }

  lemma Row(root: Relation, k: seq<u32>, p: seq<nat>)
    requires |k| == |p| == 8 && root(k[0], p[0]) && root(k[1], p[1]) && root(k[2], p[2]) && root(k[3], p[3])
    requires root(k[4], p[4]) && root(k[5], p[5]) && root(k[6], p[6]) && root(k[7], p[7])
    ensures Roots(root, k, p)
  {
  }

  ghost predicate IsCube(root: Relation) {
    forall k: u32, p: nat {:trigger CubeFraction(k, p)} :: root(k, p) == CubeFraction(k, p)
  }

  lemma InitialSquares(root: Relation)
    requires forall k: u32, p: nat {:trigger SquareFraction(k, p)} :: root(k, p) == SquareFraction(k, p)
    ensures Roots(root, Initial(Sha256), PRow0)
  {
    assert SquareFraction(0x6a09e667, 2) && SquareFraction(0xbb67ae85, 3) && SquareFraction(0x3c6ef372, 5) && SquareFraction(0xa54ff53a, 7);
    assert SquareFraction(0x510e527f, 11) && SquareFraction(0x9b05688c, 13) && SquareFraction(0x1f83d9ab, 17) && SquareFraction(0x5be0cd19, 19);
    Row(root, Initial(Sha256), PRow0);
  }

  lemma Cubes0(root: Relation)
    requires IsCube(root)
    ensures Roots(root, KRow0, PRow0)
  {
    assert CubeFraction(0x428a2f98, 2) && CubeFraction(0x71374491, 3) && CubeFraction(0xb5c0fbcf, 5) && CubeFraction(0xe9b5dba5, 7);
    assert CubeFraction(0x3956c25b, 11) && CubeFraction(0x59f111f1, 13) && CubeFraction(0x923f82a4, 17) && CubeFraction(0xab1c5ed5, 19);
    Row(root, KRow0, PRow0);
  }

  lemma Cubes1(root: Relation)
    requires IsCube(root)
    ensures Roots(root, KRow1, PRow1)
  {
    assert CubeFraction(0xd807aa98, 23) && CubeFraction(0x12835b01, 29) && CubeFraction(0x243185be, 31) && CubeFraction(0x550c7dc3, 37);
    assert CubeFraction(0x72be5d74, 41) && CubeFraction(0x80deb1fe, 43) && CubeFraction(0x9bdc06a7, 47) && CubeFraction(0xc19bf174, 53);
    Row(root, KRow1, PRow1);
  }

  lemma Cubes2(root: Relation)
    requires IsCube(root)
    ensures Roots(root, KRow2, PRow2)
  {
    assert CubeFraction(0xe49b69c1, 59) && CubeFraction(0xefbe4786, 61) && CubeFraction(0x0fc19dc6, 67) && CubeFraction(0x240ca1cc, 71);
    assert CubeFraction(0x2de92c6f, 73) && CubeFraction(0x4a7484aa, 79) && CubeFraction(0x5cb0a9dc, 83) && CubeFraction(0x76f988da, 89);
    Row(root, KRow2, PRow2);
  }

  lemma Cubes3(root: Relation)
    requires IsCube(root)
    ensures Roots(root, KRow3, PRow3)
  {
    assert CubeFraction(0x983e5152, 97) && CubeFraction(0xa831c66d, 101) && CubeFraction(0xb00327c8, 103) && CubeFraction(0xbf597fc7, 107);
    assert CubeFraction(0xc6e00bf3, 109) && CubeFraction(0xd5a79147, 113) && CubeFraction(0x06ca6351, 127) && CubeFraction(0x14292967, 131);
    Row(root, KRow3, PRow3);
  }

  lemma Cubes4(root: Relation)
    requires IsCube(root)
    ensures Roots(root, KRow4, PRow4)
  {
    assert CubeFraction(0x27b70a85, 137) && CubeFraction(0x2e1b2138, 139) && CubeFraction(0x4d2c6dfc, 149) && CubeFraction(0x53380d13, 151);
    assert CubeFraction(0x650a7354, 157) && CubeFraction(0x766a0abb, 163) && CubeFraction(0x81c2c92e, 167) && CubeFraction(0x92722c85, 173);
    Row(root, KRow4, PRow4);
  }

  lemma Cubes5(root: Relation)
    requires IsCube(root)
    ensures Roots(root, KRow5, PRow5)
  {
    assert CubeFraction(0xa2bfe8a1, 179) && CubeFraction(0xa81a664b, 181) && CubeFraction(0xc24b8b70, 191) && CubeFraction(0xc76c51a3, 193);
    assert CubeFraction(0xd192e819, 197) && CubeFraction(0xd6990624, 199) && CubeFraction(0xf40e3585, 211) && CubeFraction(0x106aa070, 223);
    Row(root, KRow5, PRow5);
  }

  lemma Cubes6(root: Relation)
    requires IsCube(root)
    ensures Roots(root, KRow6, PRow6)
  {
    assert CubeFraction(0x19a4c116, 227) && CubeFraction(0x1e376c08, 229) && CubeFraction(0x2748774c, 233) && CubeFraction(0x34b0bcb5, 239);
    assert CubeFraction(0x391c0cb3, 241) && CubeFraction(0x4ed8aa4a, 251) && CubeFraction(0x5b9cca4f, 257) && CubeFraction(0x682e6ff3, 263);
    Row(root, KRow6, PRow6);
  }

  lemma Cubes7(root: Relation)
    requires IsCube(root)
    ensures Roots(root, KRow7, PRow7)
  {
    assert CubeFraction(0x748f82ee, 269) && CubeFraction(0x78a5636f, 271) && CubeFraction(0x84c87814, 277) && CubeFraction(0x8cc70208, 281);
    assert CubeFraction(0x90befffa, 283) && CubeFraction(0xa4506ceb, 293) && CubeFraction(0xbef9a3f7, 307) && CubeFraction(0xc67178f2, 311);
    Row(root, KRow7, PRow7);
  }

  lemma AllCubes(root: Relation)
    requires IsCube(root)
    ensures Roots(root, K256, Primes)
  {
    Cubes0(root);
    Cubes1(root);
    Cubes2(root);
    Cubes3(root);
    Cubes4(root);
    Cubes5(root);
    Cubes6(root);
    Cubes7(root);
    var k, p := KRow0, PRow0;
    RootsConcat(root, k, KRow1, p, PRow1);
    k, p := k + KRow1, p + PRow1;
    RootsConcat(root, k, KRow2, p, PRow2);
    k, p := k + KRow2, p + PRow2;
    RootsConcat(root, k, KRow3, p, PRow3);
    k, p := k + KRow3, p + PRow3;
    RootsConcat(root, k, KRow4, p, PRow4);
    k, p := k + KRow4, p + PRow4;
    RootsConcat(root, k, KRow5, p, PRow5);
    k, p := k + KRow5, p + PRow5;
    RootsConcat(root, k, KRow6, p, PRow6);
    k, p := k + KRow6, p + PRow6;
    RootsConcat(root, k, KRow7, p, PRow7);
    k, p := k + KRow7, p + PRow7;
  }

  /** SHA-256's initial value: the square roots of the first eight primes. */
  lemma InitialRoots(i: nat)
    requires i < 8
    ensures SquareFraction(Initial(Sha256)[i], Primes[i])
  {
    InitialSquares((k: u32, p: nat) => SquareFraction(k, p));
    assert Primes[i] == PRow0[i];
  }

  /** SHA-256's round constants: the cube roots of the first sixty-four primes. */
  lemma K256Roots(i: nat)
    requires i < 64
    ensures CubeFraction(K256[i], Primes[i])
  {
    AllCubes((k: u32, p: nat) => CubeFraction(k, p));
  }
}
