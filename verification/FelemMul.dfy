/** felem_mul and felem_square of p256_ec.c: the seventeen columns of a product, and the
    bounds that make the reduction of them exact. */
module FelemMul {
  import opened Words
  import opened Modular
  import opened Felem
  import opened FelemReduce

  /** The value of seventeen columns written out. */
  lemma Value17(s: seq<int>)
    requires |s| == 17
    ensures Value(s) == s[0]
            + s[1] * 0x2000_0000
            + s[2] * 0x200_0000_0000_0000
            + s[3] * 0x40_0000_0000_0000_0000_0000
            + s[4] * 0x4_0000_0000_0000_0000_0000_0000_0000
            + s[5] * 0x8000_0000_0000_0000_0000_0000_0000_0000_0000
            + s[6] * 0x800_0000_0000_0000_0000_0000_0000_0000_0000_0000_0000
            + s[7] * 0x100_0000_0000_0000_0000_0000_0000_0000_0000_0000_0000_0000_0000
            + s[8] * 0x10_0000_0000_0000_0000_0000_0000_0000_0000_0000_0000_0000_0000_0000_0000
            + s[9] * 0x2_0000_0000_0000_0000_0000_0000_0000_0000_0000_0000_0000_0000_0000_0000_0000_0000
            + s[10] * 0x2000_0000_0000_0000_0000_0000_0000_0000_0000_0000_0000_0000_0000_0000_0000_0000_0000_0000
            + s[11] * 0x400_0000_0000_0000_0000_0000_0000_0000_0000_0000_0000_0000_0000_0000_0000_0000_0000_0000_0000_0000
            + s[12] * 0x40_0000_0000_0000_0000_0000_0000_0000_0000_0000_0000_0000_0000_0000_0000_0000_0000_0000_0000_0000_0000_0000
            + s[13] * 0x8_0000_0000_0000_0000_0000_0000_0000_0000_0000_0000_0000_0000_0000_0000_0000_0000_0000_0000_0000_0000_0000_0000_0000
            + s[14] * 0x8000_0000_0000_0000_0000_0000_0000_0000_0000_0000_0000_0000_0000_0000_0000_0000_0000_0000_0000_0000_0000_0000_0000_0000_0000
            + s[15] * 0x1000_0000_0000_0000_0000_0000_0000_0000_0000_0000_0000_0000_0000_0000_0000_0000_0000_0000_0000_0000_0000_0000_0000_0000_0000_0000_0000
            + s[16] * 0x100_0000_0000_0000_0000_0000_0000_0000_0000_0000_0000_0000_0000_0000_0000_0000_0000_0000_0000_0000_0000_0000_0000_0000_0000_0000_0000_0000_0000
  {
    Weights();
    assert s[..17] == s;
    Value9(s[..9]);
    ValueStep(s, 9, 0x2_0000_0000_0000_0000_0000_0000_0000_0000_0000_0000_0000_0000_0000_0000_0000_0000);
    ValueStep(s, 10, 0x2000_0000_0000_0000_0000_0000_0000_0000_0000_0000_0000_0000_0000_0000_0000_0000_0000_0000);
    ValueStep(s, 11, 0x400_0000_0000_0000_0000_0000_0000_0000_0000_0000_0000_0000_0000_0000_0000_0000_0000_0000_0000_0000);
    ValueStep(s, 12, 0x40_0000_0000_0000_0000_0000_0000_0000_0000_0000_0000_0000_0000_0000_0000_0000_0000_0000_0000_0000_0000_0000);
    ValueStep(s, 13, 0x8_0000_0000_0000_0000_0000_0000_0000_0000_0000_0000_0000_0000_0000_0000_0000_0000_0000_0000_0000_0000_0000_0000_0000);
    ValueStep(s, 14, 0x8000_0000_0000_0000_0000_0000_0000_0000_0000_0000_0000_0000_0000_0000_0000_0000_0000_0000_0000_0000_0000_0000_0000_0000_0000);
    ValueStep(s, 15, 0x1000_0000_0000_0000_0000_0000_0000_0000_0000_0000_0000_0000_0000_0000_0000_0000_0000_0000_0000_0000_0000_0000_0000_0000_0000_0000_0000);
    ValueStep(s, 16, 0x100_0000_0000_0000_0000_0000_0000_0000_0000_0000_0000_0000_0000_0000_0000_0000_0000_0000_0000_0000_0000_0000_0000_0000_0000_0000_0000_0000_0000);
  }

  /** The seventeen column sums of a product of nine-limb numbers. */
  function Columns(a: seq<int>, b: seq<int>): seq<int>
    requires |a| == 9 && |b| == 9
  {
    [
      a[0] * b[0],
      a[0] * b[1] + a[1] * b[0],
      a[0] * b[2] + a[1] * (b[1] * 2) + a[2] * b[0],
      a[0] * b[3] + a[1] * b[2] + a[2] * b[1] + a[3] * b[0],
      a[0] * b[4] + a[1] * (b[3] * 2) + a[2] * b[2] + a[3] * (b[1] * 2) + a[4] * b[0],
      a[0] * b[5] + a[1] * b[4] + a[2] * b[3] + a[3] * b[2] + a[4] * b[1] + a[5] * b[0],
      a[0] * b[6] + a[1] * (b[5] * 2) + a[2] * b[4] + a[3] * (b[3] * 2) + a[4] * b[2] + a[5] * (b[1] * 2) + a[6] * b[0],
      a[0] * b[7] + a[1] * b[6] + a[2] * b[5] + a[3] * b[4] + a[4] * b[3] + a[5] * b[2] + a[6] * b[1] + a[7] * b[0],
      a[0] * b[8] + a[1] * (b[7] * 2) + a[2] * b[6] + a[3] * (b[5] * 2) + a[4] * b[4] + a[5] * (b[3] * 2) + a[6] * b[2] + a[7] * (b[1] * 2) + a[8] * b[0],
      a[1] * b[8] + a[2] * b[7] + a[3] * b[6] + a[4] * b[5] + a[5] * b[4] + a[6] * b[3] + a[7] * b[2] + a[8] * b[1],
      a[2] * b[8] + a[3] * (b[7] * 2) + a[4] * b[6] + a[5] * (b[5] * 2) + a[6] * b[4] + a[7] * (b[3] * 2) + a[8] * b[2],
      a[3] * b[8] + a[4] * b[7] + a[5] * b[6] + a[6] * b[5] + a[7] * b[4] + a[8] * b[3],
      a[4] * b[8] + a[5] * (b[7] * 2) + a[6] * b[6] + a[7] * (b[5] * 2) + a[8] * b[4],
      a[5] * b[8] + a[6] * b[7] + a[7] * b[6] + a[8] * b[5],
      a[6] * b[8] + a[7] * (b[7] * 2) + a[8] * b[6],
      a[7] * b[8] + a[8] * b[7],
      a[8] * b[8]
    ]
  }

  /** Row i of the schoolbook product. */
  function Row(x: int, b: seq<int>): (r: seq<int>)
    requires |b| == 9
  {
    [x * b[0], x * b[1], x * b[2], x * b[3], x * b[4], x * b[5], x * b[6], x * b[7], x * b[8]]
  }

  /** Column sums of rows 0 to 3, row i shifted by i limbs; two odd limbs start
      one bit short of the limb they land on. */
  function CollectLow(r: seq<seq<int>>): seq<int>
    requires |r| == 9 && forall i :: 0 <= i < 9 ==> |r[i]| == 9
  {
    [
      r[0][0],
      r[0][1] + r[1][0],
      r[0][2] + r[1][1] * 2 + r[2][0],
      r[0][3] + r[1][2] + r[2][1] + r[3][0],
      r[0][4] + r[1][3] * 2 + r[2][2] + r[3][1] * 2,
      r[0][5] + r[1][4] + r[2][3] + r[3][2],
      r[0][6] + r[1][5] * 2 + r[2][4] + r[3][3] * 2,
      r[0][7] + r[1][6] + r[2][5] + r[3][4],
      r[0][8] + r[1][7] * 2 + r[2][6] + r[3][5] * 2,
      r[1][8] + r[2][7] + r[3][6],
      r[2][8] + r[3][7] * 2,
      r[3][8],
      0,
      0,
      0,
      0,
      0
    ]
  }

  /** Column sums of rows 4 to 8. */
  function CollectHigh(r: seq<seq<int>>): seq<int>
    requires |r| == 9 && forall i :: 0 <= i < 9 ==> |r[i]| == 9
  {
    [
      0,
      0,
      0,
      0,
      r[4][0],
      r[4][1] + r[5][0],
      r[4][2] + r[5][1] * 2 + r[6][0],
      r[4][3] + r[5][2] + r[6][1] + r[7][0],
      r[4][4] + r[5][3] * 2 + r[6][2] + r[7][1] * 2 + r[8][0],
      r[4][5] + r[5][4] + r[6][3] + r[7][2] + r[8][1],
      r[4][6] + r[5][5] * 2 + r[6][4] + r[7][3] * 2 + r[8][2],
      r[4][7] + r[5][6] + r[6][5] + r[7][4] + r[8][3],
      r[4][8] + r[5][7] * 2 + r[6][6] + r[7][5] * 2 + r[8][4],
      r[5][8] + r[6][7] + r[7][6] + r[8][5],
      r[6][8] + r[7][7] * 2 + r[8][6],
      r[7][8] + r[8][7],
      r[8][8]
    ]
  }

  lemma CollectLowValue(r: seq<seq<int>>)
    requires |r| == 9 && forall i :: 0 <= i < 9 ==> |r[i]| == 9
    ensures Value(CollectLow(r)) == Value(r[0]) + Value(r[1]) * Weight(1) + Value(r[2]) * Weight(2) + Value(r[3]) * Weight(3)
  {
    Weights();
    Value9(r[0]);
    Value9(r[1]);
    Value9(r[2]);
    Value9(r[3]);
    Value17(CollectLow(r));
  }

  lemma CollectHighValue(r: seq<seq<int>>)
    requires |r| == 9 && forall i :: 0 <= i < 9 ==> |r[i]| == 9
    ensures Value(CollectHigh(r)) == Value(r[4]) * Weight(4) + Value(r[5]) * Weight(5) + Value(r[6]) * Weight(6) + Value(r[7]) * Weight(7) + Value(r[8]) * Weight(8)
  {
    Weights();
    Value9(r[4]);
    Value9(r[5]);
    Value9(r[6]);
    Value9(r[7]);
    Value9(r[8]);
    Value17(CollectHigh(r));
  }

  ghost predicate Rows(a: seq<int>, b: seq<int>, r: seq<seq<int>>)
    requires |a| == 9 && |b| == 9
  {
    && |r| == 9
    && forall i :: 0 <= i < 9 ==> r[i] == Row(a[i], b)
  }

  ghost predicate Products(a: seq<int>, b: seq<int>, r: seq<seq<int>>)
    requires |a| == 9 && |b| == 9
  {
    && |r| == 9 && (forall i :: 0 <= i < 9 ==> |r[i]| == 9)
    && forall i, j :: 0 <= i < 9 && 0 <= j < 9 ==> r[i][j] == a[i] * b[j]
  }

  lemma RowProducts(a: seq<int>, b: seq<int>, r: seq<seq<int>>)
    requires |a| == 9 && |b| == 9 && Rows(a, b, r)
    ensures Products(a, b, r)
  {
    forall i, j | 0 <= i < 9 && 0 <= j < 9
      ensures |r[i]| == 9 && r[i][j] == a[i] * b[j]
    {
      assert r[i] == Row(a[i], b);
    }
  }

  lemma CollectFirst(a: seq<int>, b: seq<int>, r: seq<seq<int>>)
    requires |a| == 9 && |b| == 9 && Products(a, b, r)
    ensures forall k :: 0 <= k < 5 ==> Columns(a, b)[k] == CollectLow(r)[k] + CollectHigh(r)[k]
  {
    var c, l, h := Columns(a, b), CollectLow(r), CollectHigh(r);
    assert c[0] == l[0] + h[0];
    assert c[1] == l[1] + h[1];
    assert c[2] == l[2] + h[2];
    assert c[3] == l[3] + h[3];
    assert c[4] == l[4] + h[4];
  }

  lemma CollectSecond(a: seq<int>, b: seq<int>, r: seq<seq<int>>)
    requires |a| == 9 && |b| == 9 && Products(a, b, r)
    ensures forall k :: 5 <= k < 9 ==> Columns(a, b)[k] == CollectLow(r)[k] + CollectHigh(r)[k]
  {
    var c, l, h := Columns(a, b), CollectLow(r), CollectHigh(r);
    assert c[5] == l[5] + h[5];
    assert c[6] == l[6] + h[6];
    assert c[7] == l[7] + h[7];
    assert c[8] == l[8] + h[8];
  }

  lemma CollectThird(a: seq<int>, b: seq<int>, r: seq<seq<int>>)
    requires |a| == 9 && |b| == 9 && Products(a, b, r)
    ensures forall k :: 9 <= k < 12 ==> Columns(a, b)[k] == CollectLow(r)[k] + CollectHigh(r)[k]
  {
    var c, l, h := Columns(a, b), CollectLow(r), CollectHigh(r);
    assert c[9] == l[9] + h[9];
    assert c[10] == l[10] + h[10];
    assert c[11] == l[11] + h[11];
  }

  lemma CollectFourth(a: seq<int>, b: seq<int>, r: seq<seq<int>>)
    requires |a| == 9 && |b| == 9 && Products(a, b, r)
    ensures forall k :: 12 <= k < 17 ==> Columns(a, b)[k] == CollectLow(r)[k] + CollectHigh(r)[k]
  {
    var c, l, h := Columns(a, b), CollectLow(r), CollectHigh(r);
    assert c[12] == l[12] + h[12];
    assert c[13] == l[13] + h[13];
    assert c[14] == l[14] + h[14];
    assert c[15] == l[15] + h[15];
    assert c[16] == l[16] + h[16];
  }

  /** The columns are the column sums of the rows. */
  lemma ColumnsCollect(a: seq<int>, b: seq<int>, r: seq<seq<int>>)
    requires |a| == 9 && |b| == 9 && Rows(a, b, r)
    requires forall i :: 0 <= i < 9 ==> |r[i]| == 9
    ensures forall k :: 0 <= k < 17 ==> Columns(a, b)[k] == CollectLow(r)[k] + CollectHigh(r)[k]
  {
    RowProducts(a, b, r);
    CollectFirst(a, b, r);
    CollectSecond(a, b, r);
    CollectThird(a, b, r);
    CollectFourth(a, b, r);
  }

  lemma ValueOfLowHigh(r: seq<seq<int>>, v: seq<int>)
    requires |r| == 9 && |v| == 9 && forall i :: 0 <= i < 9 ==> |r[i]| == 9 && v[i] == Value(r[i])
    ensures Value(CollectLow(r)) + Value(CollectHigh(r)) == Value(v)
  {
    CollectLowValue(r);
    CollectHighValue(r);
    Weights();
    Value9(v);
  }

  /** The rows of a product weigh up to the product. */
  lemma RowsValue(a: seq<int>, b: seq<int>, r: seq<seq<int>>)
    requires |a| == 9 && |b| == 9 && Rows(a, b, r)
    requires forall i :: 0 <= i < 9 ==> |r[i]| == 9
    ensures Value(CollectLow(r)) + Value(CollectHigh(r)) == Value(b) * Value(a)
  {
    var v := seq(9, i requires 0 <= i < 9 => a[i] * Value(b));
    forall i | 0 <= i < 9
      ensures v[i] == Value(r[i])
    {
      ValueScale(a[i], b, r[i]);
    }
    ValueScale(Value(b), a, v);
    ValueOfLowHigh(r, v);
  }

  lemma ValueOfRows(a: seq<int>, b: seq<int>, r: seq<seq<int>>, c: seq<int>)
    requires |a| == 9 && |b| == 9 && Rows(a, b, r) && |c| == 17
    requires forall i :: 0 <= i < 9 ==> |r[i]| == 9
    requires forall k :: 0 <= k < 17 ==> c[k] == CollectLow(r)[k] + CollectHigh(r)[k]
    ensures Value(c) == Value(b) * Value(a)
  {
    ValueAdd(CollectLow(r), CollectHigh(r), c);
    RowsValue(a, b, r);
  }

  /** The columns stand for the product of the two values. */
  lemma ColumnsValue(a: seq<int>, b: seq<int>)
    requires |a| == 9 && |b| == 9
    ensures Value(Columns(a, b)) == Value(a) * Value(b)
  {
    var r := seq(9, i requires 0 <= i < 9 => Row(a[i], b));
    assert forall i :: 0 <= i < 9 ==> |r[i]| == 9;
    ColumnsCollect(a, b, r);
    ValueOfRows(a, b, r, Columns(a, b));
  }

  // ---- bounds ---------------------------------------------------------------

  function LimbCap(k: nat): int {
    if k % 2 == 0 then 0x4000_0000 else 0x2000_0000
  }

  /** What limb i times limb j stays below. */
  function TermCap(i: nat, j: nat): int {
    if i % 2 == 0 && j % 2 == 0 then 0x1000_0000_0000_0000
    else if i % 2 == j % 2 then 0x400_0000_0000_0000
    else 0x800_0000_0000_0000
  }

  lemma ProductBound(x: int, y: int, cx: int, cy: int)
    requires 0 <= x < cx && 0 <= y < cy
    ensures 0 <= x * y && x * y < cx * cy
  {
    assert x * y <= x * cy;
    assert x * cy < cx * cy;
  }

  lemma RowBound(x: int, b: seq<int>, cx: int, j: nat)
    requires Bounded(b) && 0 <= x < cx && j < 9
    ensures 0 <= Row(x, b)[j] < cx * LimbCap(j)
  {
    ProductBound(x, b[j], cx, LimbCap(j));
  }

  /** Every column fits 64 bits with room to spare, and the last one fits 60. */
  lemma ColumnsFit(a: seq<int>, b: seq<int>)
    requires Bounded(a) && Bounded(b)
    ensures forall k :: 0 <= k < 17 ==> 0 <= Columns(a, b)[k] < 0x7000_0000_0000_0000
    ensures Columns(a, b)[16] < 0x1000_0000_0000_0000
    ensures forall j :: 0 <= j < 9 ==> b[j] * (if j % 2 == 0 then 2 else 4) < 0x1_0000_0000
  {
    var r := seq(9, i requires 0 <= i < 9 => Row(a[i], b));
    forall i, j | 0 <= i < 9 && 0 <= j < 9
      ensures |r[i]| == 9 && 0 <= r[i][j] < TermCap(i, j)
    {
      RowBound(a[i], b, LimbCap(i), j);
    }
    ColumnsCollect(a, b, r);
    CollectFitsLow(r);
    CollectFitsMiddle(r);
    CollectFitsHigh(r);
  }

  lemma CollectFitsLow(r: seq<seq<int>>)
    requires |r| == 9 && forall i :: 0 <= i < 9 ==> |r[i]| == 9
    requires forall i, j :: 0 <= i < 9 && 0 <= j < 9 ==> 0 <= r[i][j] < TermCap(i, j)
    ensures forall k :: 0 <= k < 7 ==> 0 <= CollectLow(r)[k] + CollectHigh(r)[k] < 0x7000_0000_0000_0000
  {
    var l, h := CollectLow(r), CollectHigh(r);
    assert 0 <= l[0] + h[0] < 0x7000_0000_0000_0000;
    assert 0 <= l[1] + h[1] < 0x7000_0000_0000_0000;
    assert 0 <= l[2] + h[2] < 0x7000_0000_0000_0000;
    assert 0 <= l[3] + h[3] < 0x7000_0000_0000_0000;
    assert 0 <= l[4] + h[4] < 0x7000_0000_0000_0000;
    assert 0 <= l[5] + h[5] < 0x7000_0000_0000_0000;
    assert 0 <= l[6] + h[6] < 0x7000_0000_0000_0000;
  }

  lemma CollectFitsMiddle(r: seq<seq<int>>)
    requires |r| == 9 && forall i :: 0 <= i < 9 ==> |r[i]| == 9
    requires forall i, j :: 0 <= i < 9 && 0 <= j < 9 ==> 0 <= r[i][j] < TermCap(i, j)
    ensures forall k :: 7 <= k < 10 ==> 0 <= CollectLow(r)[k] + CollectHigh(r)[k] < 0x7000_0000_0000_0000
  {
    var l, h := CollectLow(r), CollectHigh(r);
    assert 0 <= l[7] + h[7] < 0x7000_0000_0000_0000;
    assert 0 <= l[8] + h[8] < 0x7000_0000_0000_0000;
    assert 0 <= l[9] + h[9] < 0x7000_0000_0000_0000;
  }

  lemma CollectFitsHigh(r: seq<seq<int>>)
    requires |r| == 9 && forall i :: 0 <= i < 9 ==> |r[i]| == 9
    requires forall i, j :: 0 <= i < 9 && 0 <= j < 9 ==> 0 <= r[i][j] < TermCap(i, j)
    ensures forall k :: 10 <= k < 17 ==> 0 <= CollectLow(r)[k] + CollectHigh(r)[k] < 0x7000_0000_0000_0000
    ensures CollectLow(r)[16] + CollectHigh(r)[16] < 0x1000_0000_0000_0000
  {
    var l, h := CollectLow(r), CollectHigh(r);
    assert 0 <= l[10] + h[10] < 0x7000_0000_0000_0000;
    assert 0 <= l[11] + h[11] < 0x7000_0000_0000_0000;
    assert 0 <= l[12] + h[12] < 0x7000_0000_0000_0000;
    assert 0 <= l[13] + h[13] < 0x7000_0000_0000_0000;
    assert 0 <= l[14] + h[14] < 0x7000_0000_0000_0000;
    assert 0 <= l[15] + h[15] < 0x7000_0000_0000_0000;
    assert 0 <= l[16] + h[16] < 0x7000_0000_0000_0000;
  }

  // ---- what a product looks like ----------------------------------------------

  /** Limb 0 does not overlap limb 1, or the value stays below bit 257. */
  ghost predicate Settled(s: seq<int>) {
    |s| == 9 && (s[0] < 0x2000_0000 || Value(s) < TWO_257)
  }

  const TWO_229: int := 0x20_00000000_00000000_00000000_00000000_00000000_00000000_00000000

  lemma NarrowValue(s: seq<int>)
    requires Bounded(s) && s[8] < 0x2000_0000
    ensures 0 <= Value(s) < TWO_257 + TWO_229
  {
    Value9(s);
  }

  lemma NarrowQuotient(va: int, vb: int)
    requires 0 <= va < TWO_257 + TWO_229 && 0 <= vb < TWO_257 + TWO_229
    ensures Quotient(va * vb) < TWO_257 + P + 4 * TWO_229
  {
    ProductBound(va, vb, TWO_257 + TWO_229, TWO_257 + TWO_229);
    var m := va * vb * NEG_P_INV % TWO_257;
    ProductBelow(m, TWO_257, P);
  }

  /** A quotient below 2^257 + p + 2^231 is held by tight limbs, or folded below 2^257. */
  lemma NarrowSettles(o: seq<int>, carry: int, q: int)
    requires |o| == 9 && Tight(o) && 0 <= carry < 8
    requires Value(o) + carry * TWO_257 == q < TWO_257 + P + 4 * TWO_229
    ensures Settled(Absorb(o, carry))
  {
    TightBound(o);
    AbsorbValue(o, carry);
    assert o[0] < Width(0);
  }

  /** The reduction of a product's columns. */
  method ReduceProduct(out: array<u32>, tmp: array<u64>, ghost a: seq<int>, ghost b: seq<int>)
    requires out.Length == 9 && tmp.Length == 17 && Bounded(a) && Bounded(b) && tmp[..] == Columns(a, b)
    modifies out
    ensures Bounded(out[..]) && out[8] < 0x2000_0000
    ensures Cong(TWO_257 * Value(out[..]), Value(a) * Value(b), P)
    ensures a[8] < 0x2000_0000 && b[8] < 0x2000_0000 ==> Settled(out[..])
  {
    ColumnsValue(a, b);
    ColumnsFit(a, b);
    LastColumnDecides(tmp[..]);
    ghost var o, carry := ReduceDegree(out, tmp);
    if a[8] < 0x2000_0000 && b[8] < 0x2000_0000 {
      NarrowValue(a);
      NarrowValue(b);
      NarrowQuotient(Value(a), Value(b));
      NarrowSettles(o, carry, Quotient(Value(a) * Value(b)));
    }
  }

  /** felem_mul sets out = a * b / R. `out` may be an input array. */
  method Mul(out: array<u32>, a: array<u32>, b: array<u32>)
    requires out.Length == 9 && a.Length == 9 && b.Length == 9
    requires Bounded(a[..]) && Bounded(b[..])
    modifies out
    ensures Bounded(out[..]) && out[8] < 0x2000_0000
    ensures Cong(TWO_257 * Value(out[..]), old(Value(a[..]) * Value(b[..])), P)
    ensures old(a[8]) < 0x2000_0000 && old(b[8]) < 0x2000_0000 ==> Settled(out[..])
  {
    var c := Columns(a[..], b[..]);
    ColumnsFit(a[..], b[..]);
    var tmp: array<u64> := new u64[17](k requires 0 <= k < 17 => c[k]);
    assert tmp[..] == c;
    ReduceProduct(out, tmp, a[..], b[..]);
  }

  /** The columns of felem_square, which adds equal products once, shifted. */
  function SquareColumns(a: seq<int>): seq<int>
    requires |a| == 9
  {
    [
      a[0] * a[0],
      a[0] * (a[1] * 2),
      a[0] * (a[2] * 2) + a[1] * (a[1] * 2),
      a[0] * (a[3] * 2) + a[1] * (a[2] * 2),
      a[0] * (a[4] * 2) + a[1] * (a[3] * 4) + a[2] * a[2],
      a[0] * (a[5] * 2) + a[1] * (a[4] * 2) + a[2] * (a[3] * 2),
      a[0] * (a[6] * 2) + a[1] * (a[5] * 4) + a[2] * (a[4] * 2) + a[3] * (a[3] * 2),
      a[0] * (a[7] * 2) + a[1] * (a[6] * 2) + a[2] * (a[5] * 2) + a[3] * (a[4] * 2),
      a[0] * (a[8] * 2) + a[1] * (a[7] * 4) + a[2] * (a[6] * 2) + a[3] * (a[5] * 4) + a[4] * a[4],
      a[1] * (a[8] * 2) + a[2] * (a[7] * 2) + a[3] * (a[6] * 2) + a[4] * (a[5] * 2),
      a[2] * (a[8] * 2) + a[3] * (a[7] * 4) + a[4] * (a[6] * 2) + a[5] * (a[5] * 2),
      a[3] * (a[8] * 2) + a[4] * (a[7] * 2) + a[5] * (a[6] * 2),
      a[4] * (a[8] * 2) + a[5] * (a[7] * 4) + a[6] * a[6],
      a[5] * (a[8] * 2) + a[6] * (a[7] * 2),
      a[6] * (a[8] * 2) + a[7] * (a[7] * 2),
      a[7] * (a[8] * 2),
      a[8] * a[8]
    ]
  }

  lemma SquareTermsLow(a0: int, a1: int, a2: int, a3: int, a4: int, a5: int, a6: int, a7: int, a8: int)
    ensures a0 * a0 == a0 * a0
    ensures a0 * (a1 * 2) == a0 * a1 + a1 * a0
    ensures a0 * (a2 * 2) + a1 * (a1 * 2) == a0 * a2 + a1 * (a1 * 2) + a2 * a0
    ensures a0 * (a3 * 2) + a1 * (a2 * 2) == a0 * a3 + a1 * a2 + a2 * a1 + a3 * a0
    ensures a0 * (a4 * 2) + a1 * (a3 * 4) + a2 * a2 == a0 * a4 + a1 * (a3 * 2) + a2 * a2 + a3 * (a1 * 2) + a4 * a0
    ensures a0 * (a5 * 2) + a1 * (a4 * 2) + a2 * (a3 * 2) == a0 * a5 + a1 * a4 + a2 * a3 + a3 * a2 + a4 * a1 + a5 * a0
    ensures a0 * (a6 * 2) + a1 * (a5 * 4) + a2 * (a4 * 2) + a3 * (a3 * 2) == a0 * a6 + a1 * (a5 * 2) + a2 * a4 + a3 * (a3 * 2) + a4 * a2 + a5 * (a1 * 2) + a6 * a0
    ensures a0 * (a7 * 2) + a1 * (a6 * 2) + a2 * (a5 * 2) + a3 * (a4 * 2) == a0 * a7 + a1 * a6 + a2 * a5 + a3 * a4 + a4 * a3 + a5 * a2 + a6 * a1 + a7 * a0
    ensures a0 * (a8 * 2) + a1 * (a7 * 4) + a2 * (a6 * 2) + a3 * (a5 * 4) + a4 * a4 == a0 * a8 + a1 * (a7 * 2) + a2 * a6 + a3 * (a5 * 2) + a4 * a4 + a5 * (a3 * 2) + a6 * a2 + a7 * (a1 * 2) + a8 * a0
  {
  }

  lemma SquareTermsHigh(a0: int, a1: int, a2: int, a3: int, a4: int, a5: int, a6: int, a7: int, a8: int)
    ensures a1 * (a8 * 2) + a2 * (a7 * 2) + a3 * (a6 * 2) + a4 * (a5 * 2) == a1 * a8 + a2 * a7 + a3 * a6 + a4 * a5 + a5 * a4 + a6 * a3 + a7 * a2 + a8 * a1
    ensures a2 * (a8 * 2) + a3 * (a7 * 4) + a4 * (a6 * 2) + a5 * (a5 * 2) == a2 * a8 + a3 * (a7 * 2) + a4 * a6 + a5 * (a5 * 2) + a6 * a4 + a7 * (a3 * 2) + a8 * a2
    ensures a3 * (a8 * 2) + a4 * (a7 * 2) + a5 * (a6 * 2) == a3 * a8 + a4 * a7 + a5 * a6 + a6 * a5 + a7 * a4 + a8 * a3
    ensures a4 * (a8 * 2) + a5 * (a7 * 4) + a6 * a6 == a4 * a8 + a5 * (a7 * 2) + a6 * a6 + a7 * (a5 * 2) + a8 * a4
    ensures a5 * (a8 * 2) + a6 * (a7 * 2) == a5 * a8 + a6 * a7 + a7 * a6 + a8 * a5
    ensures a6 * (a8 * 2) + a7 * (a7 * 2) == a6 * a8 + a7 * (a7 * 2) + a8 * a6
    ensures a7 * (a8 * 2) == a7 * a8 + a8 * a7
    ensures a8 * a8 == a8 * a8
  {
  }

  lemma SquareColumnsLow(a: seq<int>)
    requires |a| == 9
    ensures forall k :: 0 <= k < 9 ==> SquareColumns(a)[k] == Columns(a, a)[k]
  {
    SquareTermsLow(a[0], a[1], a[2], a[3], a[4], a[5], a[6], a[7], a[8]);
  }

  lemma SquareColumnsHigh(a: seq<int>)
    requires |a| == 9
    ensures forall k :: 9 <= k < 17 ==> SquareColumns(a)[k] == Columns(a, a)[k]
  {
    SquareTermsHigh(a[0], a[1], a[2], a[3], a[4], a[5], a[6], a[7], a[8]);
  }

  /** felem_square sets out = a * a / R. */
  method Square(out: array<u32>, a: array<u32>)
    requires out.Length == 9 && a.Length == 9
    requires Bounded(a[..])
    modifies out
    ensures Bounded(out[..]) && out[8] < 0x2000_0000
    ensures Cong(TWO_257 * Value(out[..]), old(Value(a[..]) * Value(a[..])), P)
    ensures old(a[8]) < 0x2000_0000 ==> Settled(out[..])
  {
    var c := SquareColumns(a[..]);
    SquareColumnsLow(a[..]);
    SquareColumnsHigh(a[..]);
    ColumnsFit(a[..], a[..]);
    var tmp: array<u64> := new u64[17](k requires 0 <= k < 17 => c[k]);
    assert tmp[..] == Columns(a[..], a[..]);
    ReduceProduct(out, tmp, a[..], a[..]);
  }
}
