/** The output loop of write_C in akb_cc.c, which prints fifteen arrays in random order and with
    random padding into one data[] literal, and the definitions that find them again. */
module Scatter {
  import opened Words
  import opened Modular

  /** `#define name (&data[off])` and `#define name_z size`. */
  datatype Slot = Slot(off: nat, size: nat)

  predicate Within(slot: Slot, data: seq<u8>) {
    slot.off + slot.size <= |data|
  }

  predicate Apart(a: Slot, b: Slot) {
    a.off + a.size <= b.off || b.off + b.size <= a.off
  }

  function Slice(data: seq<u8>, slot: Slot): seq<u8>
    requires Within(slot, data)
  {
    data[slot.off..slot.off + slot.size]
  }

  /** Every array of fields lies in data at its slot, and no two slots overlap. */
  ghost predicate Laid(data: seq<u8>, layout: seq<Slot>, fields: seq<seq<u8>>) {
    && |layout| == |fields|
    && (forall f :: 0 <= f < |fields| ==> Within(layout[f], data) && Slice(data, layout[f]) == fields[f])
    && (forall f, g :: 0 <= f < g < |fields| ==> Apart(layout[f], layout[g]))
  }

  /** rand_mod: below mod, and nothing else is known. */
  method RandMod(mod: nat) returns (r: nat)
    requires mod > 0
    ensures r < mod
  {
    r :| 0 <= r < mod;
  }

  lemma SlicePrefix(data: seq<u8>, more: seq<u8>, slot: Slot)
    requires Within(slot, data)
    ensures Within(slot, data + more) && Slice(data + more, slot) == Slice(data, slot)
  {
  }

  /** An offset moved up to the next multiple of l. */
  lemma Aligned(x: int, l: int, a: int)
    requires l > 0 && a == x % l && a != 0
    ensures (x + (l - a)) % l == 0
  {
    assert x + (l - a) == (x / l + 1) * l;
    DivModUnique(x / l + 1, 0, l, x + (l - a));
  }

  /** The file being written: the bytes of data[] and the global offset. */
  class Emitter {
    var data: seq<u8>
    var offset: nat

    ghost predicate Valid()
      reads this
    {
      offset == |data|
    }

    constructor ()
      ensures Valid() && data == []
    {
      data, offset := [], 0;
    }

    /** prnt_bytes: m random bytes, the l bytes of the array, n random bytes. */
    method PrintBytes(bytes: seq<u8>, m: nat, n: nat)
      requires Valid()
      modifies this
      ensures Valid() && |data| == |old(data)| + m + |bytes| + n
      ensures data[..|old(data)|] == old(data)
      ensures data[|old(data)| + m..|old(data)| + m + |bytes|] == bytes
    {
      var l := |bytes| + m;
      var total := n + l;
      for i := 0 to total
        invariant offset == old(offset) && |data| == |old(data)| + i && data[..|old(data)|] == old(data)
        invariant forall k :: 0 <= k < |bytes| && k + m < i ==> data[|old(data)| + m + k] == bytes[k]
      {
        var noise := RandMod(0x100);
        data := data + [if m <= i < l then bytes[i - m] else noise];
      }
      offset := offset + total;
    }

    /** prnt_array: random padding on both sides and, for a cast, alignment to the size. */
    method PrintArray(bytes: seq<u8>, cast: bool) returns (slot: Slot)
      requires Valid() && bytes != []
      modifies this
      ensures Valid() && slot.size == |bytes| && slot.off >= |old(data)|
      ensures Within(slot, data) && Slice(data, slot) == bytes
      ensures |data| >= |old(data)| && data[..|old(data)|] == old(data)
      ensures cast ==> slot.off % slot.size == 0
    {
      var l := |bytes|;
      var m := RandMod(1 + l / 4);
      var n := RandMod(1 + l / 4);
      var a := (offset + m) % l;
      if cast && a != 0 {
        Aligned(offset + m, l, a);
        m := m + (l - a);
      }
      slot := Slot(offset + m, l);
      PrintBytes(bytes, m, n);
    }
  }

  // ---- the loop --------------------------------------------------------------------------------

  /** How many arrays are still to be printed; a printed one has size -1. */
  function Pending(z: seq<int>): nat {
    if z == [] then 0 else Pending(z[..|z| - 1]) + (if z[|z| - 1] >= 0 then 1 else 0)
  }

  lemma {:induction false} PendingStep(z: seq<int>, j: nat)
    requires j < |z| && z[j] >= 0
    ensures Pending(z[j := -1]) == Pending(z) - 1
  {
    var n := |z| - 1;
    if j == n {
      assert z[j := -1][..n] == z[..n];
    } else {
      assert z[j := -1][..n] == z[..n][j := -1];
      PendingStep(z[..n], j);
    }
  }

  lemma {:induction false} PendingSome(z: seq<int>)
    requires Pending(z) > 0
    ensures exists j :: 0 <= j < |z| && z[j] >= 0
  {
    var n := |z| - 1;
    if z[n] < 0 {
      PendingSome(z[..n]);
      var j :| 0 <= j < n && z[..n][j] >= 0;
      assert z[j] >= 0;
    }
  }

  lemma {:induction false} PendingNone(z: seq<int>, j: nat)
    requires Pending(z) == 0 && j < |z|
    ensures z[j] < 0
  {
    var n := |z| - 1;
    if j < n {
      PendingNone(z[..n], j);
    }
  }

  lemma {:induction false} PendingAll(z: seq<int>)
    requires forall j :: 0 <= j < |z| ==> z[j] >= 0
    ensures Pending(z) == |z|
  {
    if z != [] {
      PendingAll(z[..|z| - 1]);
    }
  }

  /** The arrays printed so far lie where their slots say. */
  ghost predicate Placed(data: seq<u8>, layout: seq<Slot>, fields: seq<seq<u8>>, z: seq<int>)
    requires |layout| == |fields| == |z|
  {
    && (forall f :: 0 <= f < |z| && z[f] < 0 ==> Within(layout[f], data) && Slice(data, layout[f]) == fields[f])
    && (forall f, g :: 0 <= f < g < |z| && z[f] < 0 && z[g] < 0 ==> Apart(layout[f], layout[g]))
  }

  lemma PlaceOne(before: seq<u8>, data: seq<u8>, layout: seq<Slot>, fields: seq<seq<u8>>, z: seq<int>, j: nat, slot: Slot)
    requires |layout| == |fields| == |z| && j < |z| && Placed(before, layout, fields, z) && z[j] >= 0
    requires |before| <= |data| && data[..|before|] == before
    requires slot.off >= |before| && Within(slot, data) && Slice(data, slot) == fields[j]
    ensures Placed(data, layout[j := slot], fields, z[j := -1])
  {
    var l, y := layout[j := slot], z[j := -1];
    assert data == before + data[|before|..];
    forall f | 0 <= f < |y| && y[f] < 0
      ensures Within(l[f], data) && Slice(data, l[f]) == fields[f]
      ensures f != j ==> Apart(l[f], slot)
    {
      if f != j {
        SlicePrefix(before, data[|before|..], layout[f]);
      }
    }
  }

  /** The switch: falls through to the first array at or after indx not yet printed. */
  method Find(z: seq<int>, indx: nat) returns (j: nat)
    requires indx < |z|
    ensures indx <= j <= |z| && (j < |z| ==> z[j] >= 0)
    ensures j == |z| ==> forall k :: indx <= k < |z| ==> z[k] < 0
  {
    j := indx;
    while j < |z| && z[j] < 0
      invariant indx <= j <= |z| && forall k :: indx <= k < j ==> z[k] < 0
    {
      j := j + 1;
    }
  }

  /** One round: some array is printed, from wherever the random start falls. */
  method PrintOne(out: Emitter, fields: seq<seq<u8>>, z: seq<int>) returns (j: nat, slot: Slot)
    requires out.Valid() && |fields| == |z| && Pending(z) > 0
    requires forall f :: 0 <= f < |fields| ==> fields[f] != []
    modifies out
    ensures out.Valid() && j < |z| && z[j] >= 0
    ensures slot.off >= |old(out.data)| && Within(slot, out.data) && Slice(out.data, slot) == fields[j]
    ensures |out.data| >= |old(out.data)| && out.data[..|old(out.data)|] == old(out.data)
  {
    PendingSome(z);
    var indx := RandMod(|z|);
    j := Find(z, indx);
    while j == |z|
      invariant unchanged(out) && 0 <= indx <= j <= |z| && indx < |z| && (j < |z| ==> z[j] >= 0)
      invariant j == |z| ==> forall k :: indx <= k < |z| ==> z[k] < 0
      decreases if j == |z| then indx + 1 else 0
    {
      assert indx > 0;
      indx := 0;
      j := Find(z, indx);
    }
    slot := out.PrintArray(fields[j], false);
  }

  /** The whole loop: it ends, having printed every array exactly once. */
  method PrintAll(fields: seq<seq<u8>>) returns (data: seq<u8>, layout: seq<Slot>, ghost printed: seq<nat>)
    requires forall f :: 0 <= f < |fields| ==> fields[f] != []
    ensures Laid(data, layout, fields)
    ensures |printed| == |fields| && forall f :: 0 <= f < |fields| ==> multiset(printed)[f] == 1
  {
    var out := new Emitter();
    var z: seq<int> := seq(|fields|, f requires 0 <= f < |fields| => |fields[f]|);
    PendingAll(z);
    layout := seq(|fields|, f => Slot(0, 0));
    printed := [];
    var numd := |fields|;
    while numd != 0
      invariant fresh(out) && out.Valid() && |layout| == |z| == |fields| && numd == Pending(z)
      invariant Placed(out.data, layout, fields, z)
      invariant |printed| == |fields| - numd
      invariant forall f :: 0 <= f < |fields| ==> multiset(printed)[f] == if z[f] < 0 then 1 else 0
      decreases numd
    {
      ghost var before := out.data;
      var j, slot := PrintOne(out, fields, z);
      PlaceOne(before, out.data, layout, fields, z, j, slot);
      PendingStep(z, j);
      layout, z, printed := layout[j := slot], z[j := -1], printed + [j];
      numd := numd - 1;
    }
    forall f | 0 <= f < |z|
      ensures z[f] < 0
    {
      PendingNone(z, f);
    }
    data := out.data;
  }
}
