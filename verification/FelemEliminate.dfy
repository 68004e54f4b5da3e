/** Second pass of felem_reduce_degree of p256_ec.c: the low nine words are cleared by
    adding multiples of p. */
module FelemEliminate {
  import opened Words
  import opened Modular
  import opened Felem

  // ---- exact view of wrapping words -----------------------------------------

  /** The word that holds v. One word of the elimination passes through -1, which
      the carry of the word below it repairs. */
  function Wrap(v: int): int {
    if v == -1 then 0xffff_ffff else v
  }

  /** The machine word at k: word 17, the last, keeps its value modulo 2^32. */
  function Word(k: nat, v: int): int {
    if k == 17 then v % 0x1_0000_0000 else Wrap(v)
  }

  ghost predicate HoldsFirst(t: seq<int>, g: seq<int>, n: nat)
    requires n <= |t| == |g|
  {
    n == 0 || (t[n - 1] == Word(n - 1, g[n - 1]) && HoldsFirst(t, g, n - 1))
  }

  /** The machine words t stand for the exact words g. */
  ghost predicate Holds(t: seq<int>, g: seq<int>) {
    |t| == |g| == 18 && HoldsFirst(t, g, |g|)
  }

  lemma {:induction false} HoldsPrefix(t: seq<int>, g: seq<int>, n: nat, k: nat)
    requires k < n <= |t| == |g| && HoldsFirst(t, g, n)
    ensures t[k] == Word(k, g[k])
  {
    if k < n - 1 {
      HoldsPrefix(t, g, n - 1, k);
    }
  }

  lemma {:induction false} WordsHold(t: seq<int>, g: seq<int>, n: nat)
    requires n <= |t| == |g| && forall k :: 0 <= k < n ==> t[k] == Word(k, g[k])
    ensures HoldsFirst(t, g, n)
  {
    if n > 0 {
      WordsHold(t, g, n - 1);
    }
  }

  /** What a word may have grown to, by its distance from the word about to be
      eliminated, when that word is an even one. */
  function CapEven(off: int): int {
    if off <= 0 then 0xc020_0810
    else if off == 1 then 0x6020_0400
    else if off == 2 then 0xc020_0800
    else if off == 3 then 0x5020_0400
    else if off == 4 then 0xa020_0000
    else if off == 5 then 0x5020_0000
    else if off == 6 then 0x8020_0000
    else if off == 7 then 0x3000_0000
    else if off == 8 then 0x3000_0000
    else if off % 2 == 1 then 0x1000_0000
    else 0x2000_0000
  }

  /** The same when it is an odd one. */
  function CapOdd(off: int): int {
    if off <= 0 then 0x6020_0408
    else if off == 1 then 0xc020_0800
    else if off == 2 then 0x6020_0400
    else if off == 3 then 0xa020_0800
    else if off == 4 then 0x5020_0000
    else if off == 5 then 0xa020_0000
    else if off == 6 then 0x4020_0000
    else if off == 7 then 0x6000_0000
    else if off == 8 then 0x2000_0000
    else if off % 2 == 1 then 0x2000_0000
    else 0x1000_0000
  }

  function Cap(i: nat, k: nat): int {
    if k == 17 then (if i == 9 then 0xa_0000_0000 else 0x9_0000_0000)
    else if i % 2 == 0 then CapEven(k - i) else CapOdd(k - i)
  }

  /** Word k when words below i are gone: it is within its cap, and if it stands
      at -1 it sits on a word that will carry into it. */
  ghost predicate WordOk(g: seq<int>, i: nat, k: nat)
    requires |g| == 18 && k < 18
  {
    if k < i then g[k] == 0
    else
      && -1 <= g[k] < Cap(i, k)
      && (g[k] == -1 ==> k % 2 == 1 && i < k <= i + 8 && g[k - 1] >= 0x2000_0000)
  }

  ghost predicate FirstWordsOk(g: seq<int>, i: nat, n: nat)
    requires n <= |g| == 18
  {
    n == 0 || (WordOk(g, i, n - 1) && FirstWordsOk(g, i, n - 1))
  }

  /** All eighteen words. */
  ghost predicate Pending(g: seq<int>, i: nat) {
    |g| == 18 && FirstWordsOk(g, i, |g|)
  }

  lemma {:induction false} PendingPrefix(g: seq<int>, i: nat, n: nat, k: nat)
    requires k < n <= |g| == 18 && FirstWordsOk(g, i, n)
    ensures WordOk(g, i, k)
  {
    if k < n - 1 {
      PendingPrefix(g, i, n - 1, k);
    }
  }

  lemma PendingWords(g: seq<int>, i: nat)
    requires Pending(g, i)
    ensures forall k :: 0 <= k < 18 ==> WordOk(g, i, k)
  {
    forall k | 0 <= k < 18
      ensures WordOk(g, i, k)
    {
      PendingPrefix(g, i, 18, k);
    }
  }

  lemma {:induction false} WordsPending(g: seq<int>, i: nat, n: nat)
    requires n <= |g| == 18 && forall k :: 0 <= k < n ==> WordOk(g, i, k)
    ensures FirstWordsOk(g, i, n)
  {
    if n > 0 {
      WordsPending(g, i, n - 1);
    }
  }

  lemma FirstWordOk(g: seq<int>, i: nat)
    requires Pending(g, i) && i < 17
    ensures 0 <= g[i] < 0xffff_ffff
  {
    PendingPrefix(g, i, 18, i);
  }

  // ---- value of one elimination ---------------------------------------------

  /** Weight of word i + o relative to word i. */
  ghost function RelWeight(i: nat, o: nat): int {
    if o == 0 then 1 else RelWeight(i, o - 1) * Width(i + o - 1)
  }

  /** Value of d placed with its first word at word i, in units of Weight(i). */
  ghost function RelValue(i: nat, d: seq<int>): int {
    if d == [] then 0 else RelValue(i, d[..|d| - 1]) + d[|d| - 1] * RelWeight(i, |d| - 1)
  }

  lemma Reassociate(a: int, b: int, c: int)
    ensures (a * b) * c == a * (b * c)
  {
  }

  lemma {:induction false} WeightAt(i: nat, o: nat)
    ensures Weight(i + o) == Weight(i) * RelWeight(i, o)
  {
    if o > 0 {
      WeightAt(i, o - 1);
      Reassociate(Weight(i), RelWeight(i, o - 1), Width(i + o - 1));
    }
  }

  function ZeroWords(n: nat): seq<int> {
    seq(n, _ => 0)
  }

  lemma {:induction false} ValueZeros(n: nat)
    ensures Value(ZeroWords(n)) == 0
  {
    if n > 0 {
      ValueZeros(n - 1);
      assert ZeroWords(n)[..n - 1] == ZeroWords(n - 1);
    }
  }

  lemma ScaledSum(w: int, a: int, b: int, r: int)
    ensures w * (a + b * r) == w * a + b * (w * r)
  {
  }

  lemma {:induction false} ValuePlaced(i: nat, d: seq<int>)
    ensures Value(ZeroWords(i) + d) == Weight(i) * RelValue(i, d)
  {
    if d == [] {
      ValueZeros(i);
      assert ZeroWords(i) + d == ZeroWords(i);
    } else {
      var n := |d| - 1;
      ValuePlaced(i, d[..n]);
      assert ZeroWords(i) + d == (ZeroWords(i) + d[..n]) + [d[n]];
      ValueSnoc(ZeroWords(i) + d[..n], d[n]);
      WeightAt(i, n);
      assert |ZeroWords(i) + d[..n]| == i + n;
      ScaledSum(Weight(i), RelValue(i, d[..n]), d[n], RelWeight(i, n));
    }
  }

  lemma {:induction false} ValuePadded(s: seq<int>, n: nat)
    ensures Value(s + ZeroWords(n)) == Value(s)
  {
    if n == 0 {
      assert s + ZeroWords(0) == s;
    } else {
      ValuePadded(s, n - 1);
      assert s + ZeroWords(n) == (s + ZeroWords(n - 1)) + [0];
      ValueSnoc(s + ZeroWords(n - 1), 0);
    }
  }

  /** g with the ten words from word i on changed by d. */
  function Step(g: seq<int>, i: nat, d: seq<int>): seq<int>
    requires |g| == 18 && i <= 8 && |d| == 10
  {
    seq(18, k requires 0 <= k < 18 => if i <= k < i + 10 then g[k] + d[k - i] else g[k])
  }

  lemma StepValue(g: seq<int>, i: nat, d: seq<int>)
    requires |g| == 18 && i <= 8 && |d| == 10
    ensures Value(Step(g, i, d)) == Value(g) + Weight(i) * RelValue(i, d)
  {
    var e := ZeroWords(i) + d + ZeroWords(8 - i);
    ValueAdd(g, e, Step(g, i, d));
    ValuePadded(ZeroWords(i) + d, 8 - i);
    ValuePlaced(i, d);
  }

  lemma RelStep(i: nat, d: seq<int>, o: nat, w: int)
    requires o < |d| && w == RelWeight(i, o)
    ensures RelValue(i, d[..o + 1]) == RelValue(i, d[..o]) + d[o] * w
  {
    assert d[..o + 1][..o] == d[..o];
  }

  lemma RelValueEven(i: nat, d: seq<int>)
    requires i % 2 == 0 && |d| == 10
    ensures RelValue(i, d) == d[0]
              + d[1] * 0x2000_0000
              + d[2] * 0x200_0000_0000_0000
              + d[3] * 0x40_0000_0000_0000_0000_0000
              + d[4] * 0x4_0000_0000_0000_0000_0000_0000_0000
              + d[5] * 0x8000_0000_0000_0000_0000_0000_0000_0000_0000
              + d[6] * 0x800_0000_0000_0000_0000_0000_0000_0000_0000_0000_0000
              + d[7] * 0x100_0000_0000_0000_0000_0000_0000_0000_0000_0000_0000_0000_0000
              + d[8] * 0x10_0000_0000_0000_0000_0000_0000_0000_0000_0000_0000_0000_0000_0000_0000
              + d[9] * 0x2_0000_0000_0000_0000_0000_0000_0000_0000_0000_0000_0000_0000_0000_0000_0000_0000
  {
    assert RelWeight(i, 1) == RelWeight(i, 0) * 0x2000_0000;
    assert RelWeight(i, 2) == RelWeight(i, 1) * 0x1000_0000;
    assert RelWeight(i, 3) == RelWeight(i, 2) * 0x2000_0000;
    assert RelWeight(i, 4) == RelWeight(i, 3) * 0x1000_0000;
    assert RelWeight(i, 5) == RelWeight(i, 4) * 0x2000_0000;
    assert RelWeight(i, 6) == RelWeight(i, 5) * 0x1000_0000;
    assert RelWeight(i, 7) == RelWeight(i, 6) * 0x2000_0000;
    assert RelWeight(i, 8) == RelWeight(i, 7) * 0x1000_0000;
    assert RelWeight(i, 9) == RelWeight(i, 8) * 0x2000_0000;
    assert d[..10] == d && d[..0] == [];
    RelStep(i, d, 0, 0x1);
    RelStep(i, d, 1, 0x2000_0000);
    RelStep(i, d, 2, 0x200_0000_0000_0000);
    RelStep(i, d, 3, 0x40_0000_0000_0000_0000_0000);
    RelStep(i, d, 4, 0x4_0000_0000_0000_0000_0000_0000_0000);
    RelStep(i, d, 5, 0x8000_0000_0000_0000_0000_0000_0000_0000_0000);
    RelStep(i, d, 6, 0x800_0000_0000_0000_0000_0000_0000_0000_0000_0000_0000);
    RelStep(i, d, 7, 0x100_0000_0000_0000_0000_0000_0000_0000_0000_0000_0000_0000_0000);
    RelStep(i, d, 8, 0x10_0000_0000_0000_0000_0000_0000_0000_0000_0000_0000_0000_0000_0000_0000);
    RelStep(i, d, 9, 0x2_0000_0000_0000_0000_0000_0000_0000_0000_0000_0000_0000_0000_0000_0000_0000_0000);
  }

  lemma RelValueOdd(i: nat, d: seq<int>)
    requires i % 2 == 1 && |d| == 10
    ensures RelValue(i, d) == d[0]
              + d[1] * 0x1000_0000
              + d[2] * 0x200_0000_0000_0000
              + d[3] * 0x20_0000_0000_0000_0000_0000
              + d[4] * 0x4_0000_0000_0000_0000_0000_0000_0000
              + d[5] * 0x4000_0000_0000_0000_0000_0000_0000_0000_0000
              + d[6] * 0x800_0000_0000_0000_0000_0000_0000_0000_0000_0000_0000
              + d[7] * 0x80_0000_0000_0000_0000_0000_0000_0000_0000_0000_0000_0000_0000
              + d[8] * 0x10_0000_0000_0000_0000_0000_0000_0000_0000_0000_0000_0000_0000_0000_0000
              + d[9] * 0x1_0000_0000_0000_0000_0000_0000_0000_0000_0000_0000_0000_0000_0000_0000_0000_0000
  {
    assert RelWeight(i, 1) == RelWeight(i, 0) * 0x1000_0000;
    assert RelWeight(i, 2) == RelWeight(i, 1) * 0x2000_0000;
    assert RelWeight(i, 3) == RelWeight(i, 2) * 0x1000_0000;
    assert RelWeight(i, 4) == RelWeight(i, 3) * 0x2000_0000;
    assert RelWeight(i, 5) == RelWeight(i, 4) * 0x1000_0000;
    assert RelWeight(i, 6) == RelWeight(i, 5) * 0x2000_0000;
    assert RelWeight(i, 7) == RelWeight(i, 6) * 0x1000_0000;
    assert RelWeight(i, 8) == RelWeight(i, 7) * 0x2000_0000;
    assert RelWeight(i, 9) == RelWeight(i, 8) * 0x1000_0000;
    assert d[..10] == d && d[..0] == [];
    RelStep(i, d, 0, 0x1);
    RelStep(i, d, 1, 0x1000_0000);
    RelStep(i, d, 2, 0x200_0000_0000_0000);
    RelStep(i, d, 3, 0x20_0000_0000_0000_0000_0000);
    RelStep(i, d, 4, 0x4_0000_0000_0000_0000_0000_0000_0000);
    RelStep(i, d, 5, 0x4000_0000_0000_0000_0000_0000_0000_0000_0000);
    RelStep(i, d, 6, 0x800_0000_0000_0000_0000_0000_0000_0000_0000_0000_0000);
    RelStep(i, d, 7, 0x80_0000_0000_0000_0000_0000_0000_0000_0000_0000_0000_0000_0000);
    RelStep(i, d, 8, 0x10_0000_0000_0000_0000_0000_0000_0000_0000_0000_0000_0000_0000_0000_0000);
    RelStep(i, d, 9, 0x1_0000_0000_0000_0000_0000_0000_0000_0000_0000_0000_0000_0000_0000_0000_0000_0000);
  }

  /** What eliminating an even word adds to it and the nine words above it: x is
      its low 29 bits, c its carry and h18, h8, h4, h1 are x shifted right. */
  function EvenDelta(x: int, c: int, h18: int, h8: int, h4: int, h1: int): seq<int> {
    if x == 0 then
      [-0x2000_0000 * c, c, 0, 0, 0, 0, 0, 0, 0, 0]
    else
      [-x - 0x2000_0000 * c,
       c,
       0,
       0x400 * (x - 0x4_0000 * h18),
       h18,
       0,
       0x20_0000 * (x - 0x100 * h8),
       h8 + 0x1000_0000 - 0x100_0000 * (x - 0x10 * h4),
       0x1fff_ffff - h4 + 0x1000_0000 * (x - 2 * h1),
       h1 - 1]
  }

  /** The same for an odd word. */
  function OddDelta(x: int, c: int, h18: int, h7: int, h4: int): seq<int> {
    if x == 0 then
      [-0x1000_0000 * c, c, 0, 0, 0, 0, 0, 0, 0, 0]
    else
      [-x - 0x1000_0000 * c,
       c,
       0,
       0x800 * (x - 0x4_0000 * h18),
       h18,
       0,
       0x20_0000 * (x - 0x80 * h7),
       h7 + 0x2000_0000 - 0x200_0000 * (x - 0x10 * h4),
       0xfff_ffff - h4,
       x - 1]
  }

  /** Eliminating a word adds x * p at that word, and no more. */
  lemma EvenDeltaValue(i: nat, x: int, c: int, h18: int, h8: int, h4: int, h1: int)
    requires i % 2 == 0
    ensures RelValue(i, EvenDelta(x, c, h18, h8, h4, h1)) == x * P
  {
    RelValueEven(i, EvenDelta(x, c, h18, h8, h4, h1));
  }

  lemma OddDeltaValue(i: nat, x: int, c: int, h18: int, h7: int, h4: int)
    requires i % 2 == 1
    ensures RelValue(i, OddDelta(x, c, h18, h7, h4)) == x * P
  {
    RelValueOdd(i, OddDelta(x, c, h18, h7, h4));
  }

  // ---- caps -----------------------------------------------------------------

  /** The most an elimination adds to the word at distance off. */
  function Growth(i: nat, off: nat): int {
    if i % 2 == 0 then
      if off == 1 then 8
      else if off == 3 then 0x1000_0000
      else if off == 4 then 0x800
      else if off == 6 then 0x2000_0000
      else if off == 7 then 0x1020_0000
      else if off == 8 then 0x3000_0000
      else if off == 9 then 0x1000_0000
      else 0
    else
      if off == 1 then 16
      else if off == 3 then 0x2000_0000
      else if off == 4 then 0x400
      else if off == 6 then 0x1000_0000
      else if off == 7 then 0x2020_0000
      else if off == 8 then 0x1000_0000
      else if off == 9 then 0x1000_0000
      else 0
  }

  /** The caps leave room for it. */
  lemma CapsGrow(i: nat, k: nat)
    requires i <= 8 && i < k < 18
    ensures Cap(i, k) + (if k < i + 10 then Growth(i, k - i) else 0) <= Cap(i + 1, k)
  {
  }

  /** d is within the growth. A last word that falls to -1 sits on one that will carry
      into it, and a word at -1 meets the carry of the word eliminated. */
  ghost predicate Grows(i: nat, v: int, d: seq<int>) {
    && |d| == 10 && v + d[0] == 0
    && (forall o :: 1 <= o <= 8 ==> 0 <= d[o] <= Growth(i, o))
    && -1 <= d[9] <= Growth(i, 9)
    && (d[9] == -1 ==> i % 2 == 0 && d[8] >= 0x2000_0000)
    && (i % 2 == 0 && v >= 0x2000_0000 ==> d[1] >= 1)
  }

  lemma EvenGrows(i: nat, v: int, x: int, c: int, h18: int, h8: int, h4: int, h1: int)
    requires i % 2 == 0 && v == x + 0x2000_0000 * c && 0 <= x < 0x2000_0000 && 0 <= c <= 8
    requires SplitAt(x, 0x4_0000, h18) && SplitAt(x, 0x100, h8) && SplitAt(x, 0x10, h4) && SplitAt(x, 2, h1)
    ensures Grows(i, v, EvenDelta(x, c, h18, h8, h4, h1))
  {
  }

  lemma OddGrows(i: nat, v: int, x: int, c: int, h18: int, h7: int, h4: int)
    requires i % 2 == 1 && v == x + 0x1000_0000 * c && 0 <= x < 0x1000_0000 && 0 <= c <= 16
    requires SplitAt(x, 0x4_0000, h18) && SplitAt(x, 0x80, h7) && SplitAt(x, 0x10, h4)
    ensures Grows(i, v, OddDelta(x, c, h18, h7, h4))
  {
  }

  /** No word outgrows its cap when a word is eliminated. */
  lemma StepWord(g: seq<int>, i: nat, d: seq<int>, k: nat)
    requires Pending(g, i) && i <= 8 && k < 18 && Grows(i, g[i], d)
    ensures WordOk(Step(g, i, d), i + 1, k)
  {
    var s := Step(g, i, d);
    PendingPrefix(g, i, |g|, k);
    if i < k {
      PendingPrefix(g, i, |g|, k - 1);
      CapsGrow(i, k);
      if k < i + 10 {
        assert s[k] == g[k] + d[k - i] && s[k - 1] == g[k - 1] + d[k - 1 - i];
      }
    }
  }

  /** All eighteen words at once. */
  lemma StepPending(g: seq<int>, i: nat, d: seq<int>)
    requires Pending(g, i) && i <= 8 && Grows(i, g[i], d)
    ensures Pending(Step(g, i, d), i + 1)
  {
    var s, j := Step(g, i, d), i + 1;
    forall k: nat | k < 18
      ensures WordOk(s, j, k)
    {
      StepWord(g, i, d, k);
    }
    WordsPending(s, j, |s|);
  }

  lemma EvenStepOk(g: seq<int>, i: nat, x: int, c: int, h18: int, h8: int, h4: int, h1: int)
    requires Pending(g, i) && i <= 8 && i % 2 == 0
    requires g[i] == x + 0x2000_0000 * c && 0 <= x < 0x2000_0000 && 0 <= c <= 8
    requires SplitAt(x, 0x4_0000, h18) && SplitAt(x, 0x100, h8) && SplitAt(x, 0x10, h4) && SplitAt(x, 2, h1)
    ensures Pending(Step(g, i, EvenDelta(x, c, h18, h8, h4, h1)), i + 1)
    ensures Value(Step(g, i, EvenDelta(x, c, h18, h8, h4, h1))) == Value(g) + Weight(i) * (x * P)
  {
    var d := EvenDelta(x, c, h18, h8, h4, h1);
    EvenGrows(i, g[i], x, c, h18, h8, h4, h1);
    StepPending(g, i, d);
    StepValue(g, i, d);
    EvenDeltaValue(i, x, c, h18, h8, h4, h1);
  }

  lemma OddStepOk(g: seq<int>, i: nat, x: int, c: int, h18: int, h7: int, h4: int)
    requires Pending(g, i) && i <= 8 && i % 2 == 1
    requires g[i] == x + 0x1000_0000 * c && 0 <= x < 0x1000_0000 && 0 <= c <= 16
    requires SplitAt(x, 0x4_0000, h18) && SplitAt(x, 0x80, h7) && SplitAt(x, 0x10, h4)
    ensures Pending(Step(g, i, OddDelta(x, c, h18, h7, h4)), i + 1)
    ensures Value(Step(g, i, OddDelta(x, c, h18, h7, h4))) == Value(g) + Weight(i) * (x * P)
  {
    var d := OddDelta(x, c, h18, h7, h4);
    OddGrows(i, g[i], x, c, h18, h7, h4);
    StepPending(g, i, d);
    StepValue(g, i, d);
    OddDeltaValue(i, x, c, h18, h7, h4);
  }

  // ---- elimination of one word ----------------------------------------------

  /** The eight words an elimination writes (it leaves the others). */
  function Written(t: seq<int>, i: nat, w1: int, w3: int, w4: int, w6: int, w7: int, w8: int, w9: int): seq<int>
    requires |t| == 18 && i <= 8
  {
    t[i := 0][i + 1 := w1][i + 3 := w3][i + 4 := w4][i + 6 := w6][i + 7 := w7][i + 8 := w8][i + 9 := w9]
  }

  method Write(t: array<u32>, i: nat, w1: u32, w3: u32, w4: u32, w6: u32, w7: u32, w8: u32, w9: u32)
    requires t.Length == 18 && i <= 8
    modifies t
    ensures t[..] == Written(old(t[..]), i, w1, w3, w4, w6, w7, w8, w9)
  {
    t[i] := 0;
    t[i + 1] := w1;
    t[i + 3] := w3;
    t[i + 4] := w4;
    t[i + 6] := w6;
    t[i + 7] := w7;
    t[i + 8] := w8;
    t[i + 9] := w9;
  }

  /** Words i + 1, i + 3, i + 4 and i + 6 only grow. */
  lemma GrownWord(t: u32, g: int, d: u32)
    requires t == Wrap(g) && -1 <= g && g + d < 0xffff_ffff
    ensures Add32(t, d) == Wrap(g + d)
  {
  }

  lemma WrittenWord(t: seq<int>, g: seq<int>, i: nat, d: seq<int>,
                    w1: int, w3: int, w4: int, w6: int, w7: int, w8: int, w9: int, k: nat)
    requires |t| == |g| == 18 && i <= 8 && |d| == 10 && k < 18 && t[k] == Word(k, g[k])
    requires g[i] + d[0] == 0 && d[2] == 0 && d[5] == 0
    requires w1 == Wrap(g[i + 1] + d[1]) && w3 == Wrap(g[i + 3] + d[3]) && w4 == Wrap(g[i + 4] + d[4])
    requires w6 == Wrap(g[i + 6] + d[6]) && w7 == Wrap(g[i + 7] + d[7]) && w8 == Wrap(g[i + 8] + d[8])
    requires w9 == Word(i + 9, g[i + 9] + d[9])
    ensures Written(t, i, w1, w3, w4, w6, w7, w8, w9)[k] == Word(k, Step(g, i, d)[k])
  {
    if i <= k < i + 10 {
      assert Step(g, i, d)[k] == g[k] + d[k - i];
    }
  }

  lemma WrittenHolds(t: seq<int>, g: seq<int>, i: nat, d: seq<int>,
                     w1: int, w3: int, w4: int, w6: int, w7: int, w8: int, w9: int)
    requires Holds(t, g) && i <= 8 && |d| == 10
    requires g[i] + d[0] == 0 && d[2] == 0 && d[5] == 0
    requires w1 == Wrap(g[i + 1] + d[1]) && w3 == Wrap(g[i + 3] + d[3]) && w4 == Wrap(g[i + 4] + d[4])
    requires w6 == Wrap(g[i + 6] + d[6]) && w7 == Wrap(g[i + 7] + d[7]) && w8 == Wrap(g[i + 8] + d[8])
    requires w9 == Word(i + 9, g[i + 9] + d[9])
    ensures Holds(Written(t, i, w1, w3, w4, w6, w7, w8, w9), Step(g, i, d))
  {
    var s := Step(g, i, d);
    var u := Written(t, i, w1, w3, w4, w6, w7, w8, w9);
    forall k: nat | k < 18
      ensures u[k] == Word(k, s[k])
    {
      HoldsPrefix(t, g, |g|, k);
      WrittenWord(t, g, i, d, w1, w3, w4, w6, w7, w8, w9, k);
    }
    WordsHold(u, s, |s|);
  }

  /** Word i + 7, plus 2^28, minus the low part of x << 24. */
  function Word7(t: u32, mask: u32, h: u32, s: u32): u32
    requires mask == 0 || mask == 0xffff_ffff
  {
    Sub32(Add32(Add32(t, h), Masked(0x1000_0000, mask)), s)
  }

  function Word8(t: u32, mask: u32, y: u32, h: u32, s: u32): u32
    requires mask == 0 || mask == 0xffff_ffff
  {
    var w := Sub32(Add32(t, Masked(Sub32(y, 1), mask)), h);
    Add32(Sub32(Add32(w, Masked(0x2000_0000, mask)), y), s)
  }

  lemma EvenWord78(t7: u32, t8: u32, g7: int, g8: int, mask: u32, x: u32, c: u32, h18: u32, h8: u32, h4: u32, h1: u32, s24: u32, s28: u32)
    requires x < 0x2000_0000 && mask == (if x == 0 then 0 else 0xffff_ffff)
    requires SplitAt(x, 0x4_0000, h18) && SplitAt(x, 0x100, h8) && SplitAt(x, 0x10, h4) && SplitAt(x, 2, h1)
    requires s24 == 0x100_0000 * (x - 0x10 * h4) && s28 == 0x1000_0000 * (x - 2 * h1)
    requires t7 == Wrap(g7) && -1 <= g7 < 0x3000_0000
    requires t8 == g8 && 0 <= g8 < 0x3000_0000
    ensures Word7(t7, mask, h8, s24) == Wrap(g7 + EvenDelta(x, c, h18, h8, h4, h1)[7])
    ensures Word8(t8, mask, x, h4, s28) == Wrap(g8 + EvenDelta(x, c, h18, h8, h4, h1)[8])
  {
  }

  /** Word i + 9 is word 17 in the last elimination. */
  lemma EvenWord9(k: nat, t9: u32, g9: int, mask: u32, x: u32, h1: u32, d9: int)
    requires x < 0x2000_0000 && mask == (if x == 0 then 0 else 0xffff_ffff) && SplitAt(x, 2, h1)
    requires t9 == Word(k, g9) && 0 <= g9 && (k != 17 ==> g9 < 0xa000_0000)
    requires d9 == if x == 0 then 0 else h1 - 1
    ensures Add32(t9, Masked(Sub32(h1, 1), mask)) == Word(k, g9 + d9)
  {
    var q := g9 / 0x1_0000_0000;
    if k == 17 {
      var r := Add32(t9, Masked(Sub32(h1, 1), mask));
      var l := if t9 + d9 < 0 then -1 else if t9 + d9 >= 0x1_0000_0000 then 1 else 0;
      DivModUnique(q + l, r, 0x1_0000_0000, g9 + d9);
    }
  }

  /** What is known of word k. */
  lemma At(t: seq<int>, g: seq<int>, i: nat, k: nat)
    requires Pending(g, i) && Holds(t, g) && k < 18
    ensures WordOk(g, i, k) && t[k] == Word(k, g[k])
  {
    PendingPrefix(g, i, |g|, k);
    HoldsPrefix(t, g, |g|, k);
  }

  lemma EvenWordsLow(t: seq<u32>, g: seq<int>, i: nat, x: u32, c: u32, h18: u32, s10: u32, s21: u32)
    requires i <= 8 && i % 2 == 0 && Pending(g, i) && Holds(t, g)
    requires g[i] == x + 0x2000_0000 * c && x < 0x2000_0000 && h18 < 0x800 && s10 < 0x1000_0000 && s21 < 0x2000_0000
    ensures Add32(t[i + 1], c) == Wrap(g[i + 1] + c) && Add32(t[i + 3], s10) == Wrap(g[i + 3] + s10)
    ensures Add32(t[i + 4], h18) == Wrap(g[i + 4] + h18) && Add32(t[i + 6], s21) == Wrap(g[i + 6] + s21)
  {
    At(t, g, i, i);
    At(t, g, i, i + 1);
    GrownWord(t[i + 1], g[i + 1], c);
    At(t, g, i, i + 3);
    GrownWord(t[i + 3], g[i + 3], s10);
    At(t, g, i, i + 4);
    GrownWord(t[i + 4], g[i + 4], h18);
    At(t, g, i, i + 6);
    GrownWord(t[i + 6], g[i + 6], s21);
  }

  lemma EvenWordsHigh(t: seq<u32>, g: seq<int>, i: nat, mask: u32, x: u32, c: u32, h18: u32, h8: u32, h4: u32, h1: u32,
                      s24: u32, s28: u32)
    requires i <= 8 && i % 2 == 0 && Pending(g, i) && Holds(t, g)
    requires x < 0x2000_0000 && mask == (if x == 0 then 0 else 0xffff_ffff)
    requires SplitAt(x, 0x4_0000, h18) && SplitAt(x, 0x100, h8) && SplitAt(x, 0x10, h4) && SplitAt(x, 2, h1)
    requires s24 == 0x100_0000 * (x - 0x10 * h4) && s28 == 0x1000_0000 * (x - 2 * h1)
    ensures Word7(t[i + 7], mask, h8, s24) == Wrap(g[i + 7] + EvenDelta(x, c, h18, h8, h4, h1)[7])
    ensures Word8(t[i + 8], mask, x, h4, s28) == Wrap(g[i + 8] + EvenDelta(x, c, h18, h8, h4, h1)[8])
    ensures Add32(t[i + 9], Masked(Sub32(h1, 1), mask)) == Word(i + 9, g[i + 9] + EvenDelta(x, c, h18, h8, h4, h1)[9])
  {
    At(t, g, i, i + 7);
    At(t, g, i, i + 8);
    EvenWord78(t[i + 7], t[i + 8], g[i + 7], g[i + 8], mask, x, c, h18, h8, h4, h1, s24, s28);
    At(t, g, i, i + 9);
    EvenWord9(i + 9, t[i + 9], g[i + 9], mask, x, h1, EvenDelta(x, c, h18, h8, h4, h1)[9]);
  }

  /** The low part of the change needs no case for x = 0. */
  lemma EvenDeltaLow(x: int, c: int, h18: int, h8: int, h4: int, h1: int)
    requires 0 <= x < 0x2000_0000
    requires SplitAt(x, 0x4_0000, h18) && SplitAt(x, 0x100, h8)
    ensures h18 < 0x800 && 0x400 * (x - 0x4_0000 * h18) < 0x1000_0000 && 0x20_0000 * (x - 0x100 * h8) < 0x2000_0000
    ensures EvenDelta(x, c, h18, h8, h4, h1)[..7]
              == [-x - 0x2000_0000 * c, c, 0, 0x400 * (x - 0x4_0000 * h18), h18, 0, 0x20_0000 * (x - 0x100 * h8)]
  {
  }

  lemma EvenWords(t: seq<u32>, g: seq<int>, i: nat, mask: u32, x: u32, c: u32, h18: u32, h8: u32, h4: u32, h1: u32,
                  s10: u32, s21: u32, s24: u32, s28: u32)
    requires i <= 8 && i % 2 == 0 && Pending(g, i) && Holds(t, g)
    requires g[i] == x + 0x2000_0000 * c && x < 0x2000_0000 && mask == (if x == 0 then 0 else 0xffff_ffff)
    requires SplitAt(x, 0x4_0000, h18) && SplitAt(x, 0x100, h8) && SplitAt(x, 0x10, h4) && SplitAt(x, 2, h1)
    requires s10 == 0x400 * (x - 0x4_0000 * h18) && s21 == 0x20_0000 * (x - 0x100 * h8)
    requires s24 == 0x100_0000 * (x - 0x10 * h4) && s28 == 0x1000_0000 * (x - 2 * h1)
    ensures Holds(Written(t, i, Add32(t[i + 1], c), Add32(t[i + 3], s10), Add32(t[i + 4], h18), Add32(t[i + 6], s21),
                          Word7(t[i + 7], mask, h8, s24), Word8(t[i + 8], mask, x, h4, s28),
                          Add32(t[i + 9], Masked(Sub32(h1, 1), mask))),
                  Step(g, i, EvenDelta(x, c, h18, h8, h4, h1)))
  {
    var d := EvenDelta(x, c, h18, h8, h4, h1);
    EvenDeltaLow(x, c, h18, h8, h4, h1);
    EvenWordsLow(t, g, i, x, c, h18, s10, s21);
    EvenWordsHigh(t, g, i, mask, x, c, h18, h8, h4, h1, s24, s28);
    WrittenHolds(t, g, i, d, Add32(t[i + 1], c), Add32(t[i + 3], s10), Add32(t[i + 4], h18), Add32(t[i + 6], s21),
                 Word7(t[i + 7], mask, h8, s24), Word8(t[i + 8], mask, x, h4, s28),
                 Add32(t[i + 9], Masked(Sub32(h1, 1), mask)));
  }

  /** Top half of the elimination loop: word i, which is even. */
  method EliminateEven(t: array<u32>, i: nat, ghost g: seq<int>) returns (ghost s: seq<int>, ghost x: int)
    requires t.Length == 18 && i <= 8 && i % 2 == 0
    requires Pending(g, i) && Holds(t[..], g)
    modifies t
    ensures |s| == 18 && Holds(t[..], s)
    ensures Pending(s, i + 1)
    ensures Value(s) == Value(g) + Weight(i) * (x * P) && 0 <= x < Width(i)
  {
    ghost var t0 := t[..];
    FirstWordOk(g, i);
    HoldsPrefix(t0, g, |g|, i);
    var y, c := Split(t[i], 0x2000_0000);
    var mask := NonZeroToAllOnes(y);
    var s10, h18 := ShiftParts(y, 0x4_0000, 0x400);
    var s21, h8 := ShiftParts(y, 0x100, 0x20_0000);
    var s24, h4 := ShiftParts(y, 0x10, 0x100_0000);
    var s28, h1 := ShiftParts(y, 2, 0x1000_0000);
    EvenWords(t0, g, i, mask, y, c, h18, h8, h4, h1, s10, s21, s24, s28);
    var w1, w3, w4, w6 := Add32(t[i + 1], c), Add32(t[i + 3], s10), Add32(t[i + 4], h18), Add32(t[i + 6], s21);
    var w7, w8 := Word7(t[i + 7], mask, h8, s24), Word8(t[i + 8], mask, y, h4, s28);
    var w9 := Add32(t[i + 9], Masked(Sub32(h1, 1), mask));
    Write(t, i, w1, w3, w4, w6, w7, w8, w9);
    x := y;
    s := Step(g, i, EvenDelta(y, c, h18, h8, h4, h1));
    EvenStepOk(g, i, y, c, h18, h8, h4, h1);
  }

  function OddWord7(t: u32, mask: u32, h: u32, s: u32): u32
    requires mask == 0 || mask == 0xffff_ffff
  {
    Sub32(Add32(Add32(t, h), Masked(0x2000_0000, mask)), s)
  }

  function OddWord8(t: u32, mask: u32, y: u32, h: u32): u32
    requires mask == 0 || mask == 0xffff_ffff
  {
    Sub32(Add32(Sub32(Add32(t, Masked(Sub32(y, 1), mask)), h), Masked(0x1000_0000, mask)), y)
  }

  lemma OddWord78(t7: u32, t8: u32, t9: u32, g7: int, g8: int, g9: int, mask: u32, x: u32, c: u32, h18: u32, h7: u32, h4: u32, s25: u32)
    requires x < 0x1000_0000 && mask == (if x == 0 then 0 else 0xffff_ffff)
    requires SplitAt(x, 0x4_0000, h18) && SplitAt(x, 0x80, h7) && SplitAt(x, 0x10, h4)
    requires s25 == 0x200_0000 * (x - 0x10 * h4)
    requires t7 == g7 && 0 <= g7 < 0x6000_0000
    requires t8 == Wrap(g8) && -1 <= g8 < 0xa000_0000
    requires t9 == g9 && 0 <= g9 < 0x2000_0000
    ensures OddWord7(t7, mask, h7, s25) == Wrap(g7 + OddDelta(x, c, h18, h7, h4)[7])
    ensures OddWord8(t8, mask, x, h4) == Wrap(g8 + OddDelta(x, c, h18, h7, h4)[8])
    ensures Add32(t9, Masked(Sub32(x, 1), mask)) == Wrap(g9 + OddDelta(x, c, h18, h7, h4)[9])
  {
  }

  lemma OddWordsLow(t: seq<u32>, g: seq<int>, i: nat, x: u32, c: u32, h18: u32, s11: u32, s21: u32)
    requires i <= 8 && i % 2 == 1 && Pending(g, i) && Holds(t, g)
    requires g[i] == x + 0x1000_0000 * c && x < 0x1000_0000 && h18 < 0x400 && s11 < 0x2000_0000 && s21 < 0x1000_0000
    ensures Add32(t[i + 1], c) == Wrap(g[i + 1] + c) && Add32(t[i + 3], s11) == Wrap(g[i + 3] + s11)
    ensures Add32(t[i + 4], h18) == Wrap(g[i + 4] + h18) && Add32(t[i + 6], s21) == Wrap(g[i + 6] + s21)
  {
    At(t, g, i, i);
    At(t, g, i, i + 1);
    GrownWord(t[i + 1], g[i + 1], c);
    At(t, g, i, i + 3);
    GrownWord(t[i + 3], g[i + 3], s11);
    At(t, g, i, i + 4);
    GrownWord(t[i + 4], g[i + 4], h18);
    At(t, g, i, i + 6);
    GrownWord(t[i + 6], g[i + 6], s21);
  }

  lemma OddWords(t: seq<u32>, g: seq<int>, i: nat, mask: u32, x: u32, c: u32, h18: u32, h7: u32, h4: u32,
                 s11: u32, s21: u32, s25: u32)
    requires i <= 8 && i % 2 == 1 && Pending(g, i) && Holds(t, g)
    requires g[i] == x + 0x1000_0000 * c && x < 0x1000_0000 && mask == (if x == 0 then 0 else 0xffff_ffff)
    requires SplitAt(x, 0x4_0000, h18) && SplitAt(x, 0x80, h7) && SplitAt(x, 0x10, h4)
    requires s11 == 0x800 * (x - 0x4_0000 * h18) && s21 == 0x20_0000 * (x - 0x80 * h7)
    requires s25 == 0x200_0000 * (x - 0x10 * h4)
    ensures Holds(Written(t, i, Add32(t[i + 1], c), Add32(t[i + 3], s11), Add32(t[i + 4], h18), Add32(t[i + 6], s21),
                          OddWord7(t[i + 7], mask, h7, s25), OddWord8(t[i + 8], mask, x, h4),
                          Add32(t[i + 9], Masked(Sub32(x, 1), mask))),
                  Step(g, i, OddDelta(x, c, h18, h7, h4)))
  {
    var d := OddDelta(x, c, h18, h7, h4);
    OddWordsLow(t, g, i, x, c, h18, s11, s21);
    At(t, g, i, i + 7);
    At(t, g, i, i + 8);
    At(t, g, i, i + 9);
    OddWord78(t[i + 7], t[i + 8], t[i + 9], g[i + 7], g[i + 8], g[i + 9], mask, x, c, h18, h7, h4, s25);
    WrittenHolds(t, g, i, d, Add32(t[i + 1], c), Add32(t[i + 3], s11), Add32(t[i + 4], h18), Add32(t[i + 6], s21),
                 OddWord7(t[i + 7], mask, h7, s25), OddWord8(t[i + 8], mask, x, h4),
                 Add32(t[i + 9], Masked(Sub32(x, 1), mask)));
  }

  /** Bottom half of the elimination loop: word i, which is odd. */
  method EliminateOdd(t: array<u32>, i: nat, ghost g: seq<int>) returns (ghost s: seq<int>, ghost x: int)
    requires t.Length == 18 && i <= 8 && i % 2 == 1
    requires Pending(g, i) && Holds(t[..], g)
    modifies t
    ensures |s| == 18 && Holds(t[..], s)
    ensures Pending(s, i + 1)
    ensures Value(s) == Value(g) + Weight(i) * (x * P) && 0 <= x < Width(i)
  {
    ghost var t0 := t[..];
    FirstWordOk(g, i);
    HoldsPrefix(t0, g, |g|, i);
    var y, c := Split(t[i], 0x1000_0000);
    var mask := NonZeroToAllOnes(y);
    var s11, h18 := ShiftParts(y, 0x4_0000, 0x800);
    var s21, h7 := ShiftParts(y, 0x80, 0x20_0000);
    var s25, h4 := ShiftParts(y, 0x10, 0x200_0000);
    OddWords(t0, g, i, mask, y, c, h18, h7, h4, s11, s21, s25);
    var w1, w3, w4, w6 := Add32(t[i + 1], c), Add32(t[i + 3], s11), Add32(t[i + 4], h18), Add32(t[i + 6], s21);
    var w7, w8 := OddWord7(t[i + 7], mask, h7, s25), OddWord8(t[i + 8], mask, y, h4);
    var w9 := Add32(t[i + 9], Masked(Sub32(y, 1), mask));
    Write(t, i, w1, w3, w4, w6, w7, w8, w9);
    x := y;
    s := Step(g, i, OddDelta(y, c, h18, h7, h4));
    OddStepOk(g, i, y, c, h18, h7, h4);
  }

  // ---- the loop -----------------------------------------------------------------

  lemma AddedMultiple(before: int, after: int, w: int, x: int, v: int, m: int, n: int)
    requires after == before + w * (x * P) && before == v + m * P && n == m + x * w
    ensures after == v + n * P
  {
    assert w * (x * P) == (x * w) * P;
    Distribute(m, x * w, P);
  }

  /** One more word is gone: the multiplier gets one more limb. */
  lemma Extended(before: int, after: int, v: int, xs: seq<int>, x: int)
    requires Tight(xs) && |xs| < 9 && 0 <= x < Width(|xs|)
    requires before == v + Value(xs) * P && after == before + Weight(|xs|) * (x * P)
    ensures Tight(xs + [x]) && after == v + Value(xs + [x]) * P
  {
    ValueSnoc(xs, x);
    AddedMultiple(before, after, Weight(|xs|), x, v, Value(xs), Value(xs + [x]));
  }

  /** The words g, with words below i cleared, are v plus a multiple of p whose limbs are
      the words cleared. */
  ghost predicate Cleared(g: seq<int>, i: nat, v: int, xs: seq<int>) {
    Pending(g, i) && |xs| == i && Tight(xs) && Value(g) == v + Value(xs) * P
  }

  /** One pass of the elimination loop that does not leave it half way. */
  method EliminatePair(t: array<u32>, i: nat, ghost g: seq<int>, ghost v: int, ghost xs: seq<int>)
    returns (ghost s: seq<int>, ghost ys: seq<int>)
    requires t.Length == 18 && i <= 6 && i % 2 == 0 && Holds(t[..], g) && Cleared(g, i, v, xs)
    modifies t
    ensures Holds(t[..], s) && Cleared(s, i + 2, v, ys)
  {
    ghost var x;
    s, x := EliminateEven(t, i, g);
    Extended(Value(g), Value(s), v, xs, x);
    ghost var h := s;
    ys := xs + [x];
    s, x := EliminateOdd(t, i + 1, s);
    Extended(Value(h), Value(s), v, ys, x);
    ys := ys + [x];
  }

  method EliminateLast(t: array<u32>, i: nat, ghost h: seq<int>, ghost v: int, ghost xs: seq<int>)
    returns (ghost g: seq<int>, ghost ys: seq<int>)
    requires t.Length == 18 && i <= 8 && i % 2 == 0 && Holds(t[..], h) && Cleared(h, i, v, xs)
    modifies t
    ensures Holds(t[..], g) && Cleared(g, i + 1, v, ys)
  {
    ghost var x;
    g, x := EliminateEven(t, i, h);
    Extended(Value(h), Value(g), v, xs, x);
    ys := xs + [x];
  }

  /** The elimination loop: the low nine words are cleared by adding m * p, m < 2^257. */
  method EliminateAll(t: array<u32>, ghost start: seq<int>) returns (ghost g: seq<int>, ghost m: int)
    requires t.Length == 18 && Pending(start, 0) && Holds(t[..], start)
    modifies t
    ensures Pending(g, 9) && Holds(t[..], g)
    ensures Value(g) == Value(start) + m * P && 0 <= m < TWO_257
  {
    g := start;
    ghost var v := Value(start);
    ghost var xs: seq<int> := [];
    var i := 0;
    ghost var j := 0;
    while i < 8
      invariant i == 2 * j && 0 <= j <= 4
      invariant Holds(t[..], g) && Cleared(g, i, v, xs)
    {
      g, xs := EliminatePair(t, i, g, v, xs);
      i, j := i + 2, j + 1;
    }
    g, xs := EliminateLast(t, i, g, v, xs);
    m := Value(xs);
    TightBound(xs);
    Weights();
  }
}
