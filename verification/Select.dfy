/** Branch-free copies and table look-ups of p256_ec.c. */
module Select {
  import opened Words
  import opened Bits

  // ---- masks ------------------------------------------------------------------------------

  lemma NibbleFold(x: nat, y: nat, z: nat)
    requires x < 16 && y == Or(x, x / 4) && z == Or(y, y / 2)
    ensures z % 2 == 0 <==> x == 0
  {
    OrParts(x, x / 4);
    OrParts(x / 2, x / 4 / 2);
    OrParts(y, y / 2);
  }

  /** The mask of the select loops: all ones exactly at the wanted index. */
  method IndexMask(i: u32, index: u32) returns (mask: u32)
    requires i < 16 && index < 16
    ensures mask == if i == index then 0xffff_ffff else 0
  {
    ghost var four := 4;
    assert Pow2(four) == 16 by {
      assert Pow2(four) == 2 * Pow2(four - 1) && Pow2(four - 1) == 2 * Pow2(four - 2);
      assert Pow2(four - 2) == 2 * Pow2(four - 3) && Pow2(four - 3) == 2 * Pow2(four - 4);
    }
    XorBound(i, index, four);
    XorIsZero(i, index);
    var m := Xor(i, index);
    NibbleFold(m, Or(m, m / 4), Or(Or(m, m / 4), Or(m, m / 4) / 2));
    m := Or(m, m / 4);
    m := Or(m, m / 2);
    mask := Sub32(m % 2, 1);
  }

  // ---- limb loops -------------------------------------------------------------------------

  /** One limb of copy_conditional. */
  method CopyLimb(x: u32, y: u32, mask: u32) returns (r: u32)
    requires mask == 0 || mask == 0xffff_ffff
    ensures r == if mask == 0 then x else y
  {
    ghost var w := 32;
    XorWord(y, x, w);
    var tmp := Masked(Xor(y, x), mask);
    if mask == 0 {
      XorZero(x);
    } else {
      XorCommutes(x, tmp);
      XorTwice(y, x);
    }
    r := Xor(x, tmp);
  }

  lemma XorWord(x: u32, y: u32, w: nat)
    requires w == 32
    ensures Xor(x, y) < 0x1_0000_0000
  {
    Pow2Thirty2(w);
    XorBound(x, y, w);
  }

  /** copy_conditional. */
  method CopyConditional(out: array<u32>, input: array<u32>, mask: u32)
    requires out.Length == 9 && input.Length == 9 && (mask == 0 || mask == 0xffff_ffff)
    modifies out
    ensures out[..] == if mask == 0 then old(out[..]) else old(input[..])
  {
    ghost var x, y := out[..], input[..];
    for i := 0 to 9
      invariant out[..i] == if mask == 0 then x[..i] else y[..i]
      invariant forall k :: i <= k < 9 ==> out[k] == x[k]
      invariant input != out ==> input[..] == y
    {
      assert out[i] == x[i];
      var v := CopyLimb(out[i], input[i], mask);
      out[i] := v;
    }
    assert out[..9] == out[..] && x[..9] == x && y[..9] == y;
  }

  /** `out[j] |= *table & mask` over one coordinate, of which at most one entry is kept. */
  method OrMasked(out: array<u32>, entry: seq<u32>, mask: u32)
    requires out.Length == 9 && |entry| == 9 && (mask == 0 || mask == 0xffff_ffff)
    requires mask != 0 ==> forall k :: 0 <= k < 9 ==> out[k] == 0
    modifies out
    ensures out[..] == if mask == 0 then old(out[..]) else entry
  {
    ghost var x := out[..];
    for j := 0 to 9
      invariant out[..j] == if mask == 0 then x[..j] else entry[..j]
      invariant forall k :: j <= k < 9 ==> out[k] == x[k]
    {
      assert out[j] == x[j];
      OrCommutes(out[j], 0);
      OrZero(out[j]);
      OrZero(entry[j]);
      out[j] := Or(out[j], Masked(entry[j], mask));
    }
    assert out[..9] == out[..] && x[..9] == x && entry[..9] == entry;
  }

  const ZERO9: seq<u32> := [0, 0, 0, 0, 0, 0, 0, 0, 0]

  /** Limbs off .. off + 9 of a table. */
  function Limbs(table: seq<u32>, off: nat): (s: seq<u32>)
    requires off + 9 <= |table|
    ensures |s| == 9
  {
    table[off..off + 9]
  }

  /** select_affine_point: entry index of fifteen (x, y) pairs, or zeros for index 0. */
  method SelectAffine(table: seq<u32>, base: nat, index: u32) returns (x: seq<u32>, y: seq<u32>)
    requires base + 270 <= |table| && index < 16
    ensures x == if index == 0 then ZERO9 else Limbs(table, base + 18 * (index - 1))
    ensures y == if index == 0 then ZERO9 else Limbs(table, base + 18 * (index - 1) + 9)
  {
    var outX, outY := new u32[9](_ => 0), new u32[9](_ => 0);
    assert outX[..] == ZERO9 && outY[..] == ZERO9;
    var off := base;
    for i := 1 to 16
      invariant off == base + 18 * (i - 1)
      invariant outX[..] == if index == 0 || i <= index then ZERO9 else Limbs(table, base + 18 * (index - 1))
      invariant outY[..] == if index == 0 || i <= index then ZERO9 else Limbs(table, base + 18 * (index - 1) + 9)
    {
      var mask := IndexMask(i, index);
      assert i <= index ==> forall k :: 0 <= k < 9 ==> outX[k] == outX[..][k] == 0 && outY[k] == outY[..][k] == 0;
      OrMasked(outX, Limbs(table, off), mask);
      OrMasked(outY, Limbs(table, off + 9), mask);
      off := off + 18;
    }
    x, y := outX[..], outY[..];
  }

  /** One (x, y, z) row of scalar_mult's table. */
  datatype Entry = Entry(x: seq<u32>, y: seq<u32>, z: seq<u32>)

  predicate Sized(e: Entry) {
    |e.x| == |e.y| == |e.z| == 9
  }

  /** select_jacobian_point: entry index of sixteen, entry 0 taken as zeros. */
  method SelectJacobian(table: seq<Entry>, index: u32) returns (e: Entry)
    requires |table| == 16 && index < 16 && forall i :: 0 <= i < 16 ==> Sized(table[i])
    ensures e == if index == 0 then Entry(ZERO9, ZERO9, ZERO9) else table[index]
  {
    var x, y, z := new u32[9](_ => 0), new u32[9](_ => 0), new u32[9](_ => 0);
    assert x[..] == ZERO9 && y[..] == ZERO9 && z[..] == ZERO9;
    for i := 1 to 16
      invariant x[..] == if index == 0 || i <= index then ZERO9 else table[index].x
      invariant y[..] == if index == 0 || i <= index then ZERO9 else table[index].y
      invariant z[..] == if index == 0 || i <= index then ZERO9 else table[index].z
    {
      var mask := IndexMask(i, index);
      assert i <= index ==> forall k :: 0 <= k < 9 ==> x[k] == x[..][k] == 0 && y[k] == y[..][k] == 0 && z[k] == z[..][k] == 0;
      OrMasked(x, table[i].x, mask);
      OrMasked(y, table[i].y, mask);
      OrMasked(z, table[i].z, mask);
    }
    e := Entry(x[..], y[..], z[..]);
  }
}
