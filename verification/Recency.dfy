/** A least-recently-used cache as a sequence of items, oldest first, and what every run of
    operations keeps. LruCache refines this model. */
module Recency {

  datatype Item<K, V> = Item(key: K, value: V)

  // ---- look-up --------------------------------------------------------------------------------

  predicate Has<K(==), V>(s: seq<Item<K, V>>, k: K) {
    exists i :: 0 <= i < |s| && s[i].key == k
  }

  ghost predicate Distinct<K, V>(s: seq<Item<K, V>>) {
    forall i, j :: 0 <= i < j < |s| ==> s[i].key != s[j].key
  }

  /** The position of a key; the length where it is missing. */
  function Position<K(==), V>(s: seq<Item<K, V>>, k: K): (i: nat)
    ensures i <= |s| && (i < |s| ==> s[i].key == k) && forall j :: 0 <= j < i ==> s[j].key != k
  {
    if s == [] || s[0].key == k then 0 else 1 + Position(s[1..], k)
  }

  lemma PositionHas<K, V>(s: seq<Item<K, V>>, k: K)
    ensures Has(s, k) <==> Position(s, k) < |s|
  {
  }

  lemma PositionIs<K, V>(s: seq<Item<K, V>>, k: K, i: nat)
    requires Distinct(s) && i < |s| && s[i].key == k
    ensures Position(s, k) == i
  {
    var p := Position(s, k);
    assert p <= i;
    assert forall j :: p < j < |s| ==> s[p].key != s[j].key;
  }

  /** s without the item at i, if there is one. */
  function Cut<K, V>(s: seq<Item<K, V>>, i: nat): seq<Item<K, V>> {
    if i < |s| then s[..i] + s[i + 1..] else s
  }

  function Without<K(==), V>(s: seq<Item<K, V>>, k: K): seq<Item<K, V>> {
    Cut(s, Position(s, k))
  }

  /** s with the item at i, if there is one, moved to the end. */
  function ToEnd<K, V>(s: seq<Item<K, V>>, i: nat): seq<Item<K, V>> {
    if i < |s| then Cut(s, i) + [s[i]] else s
  }

  lemma WithoutAt<K, V>(s: seq<Item<K, V>>, k: K, i: nat)
    requires Position(s, k) == i < |s|
    ensures Without(s, k) == s[..i] + s[i + 1..] && AfterGet(s, k) == s[..i] + s[i + 1..] + [s[i]]
  {
  }

  /** The item under a key, as a sequence of at most one. */
  function Holding<K(==), V>(s: seq<Item<K, V>>, k: K): seq<Item<K, V>> {
    var i := Position(s, k);
    if i < |s| then [s[i]] else []
  }

  // ---- operations ------------------------------------------------------------------------------

  datatype Op<K, V> = Get(key: K) | Put(key: K, value: V) | Remove(key: K) | RemoveOldest | Clear

  /** A hit makes the item the youngest. */
  function AfterGet<K(==), V>(s: seq<Item<K, V>>, k: K): seq<Item<K, V>> {
    ToEnd(s, Position(s, k))
  }

  function Oldest<K, V>(s: seq<Item<K, V>>): seq<Item<K, V>> {
    if s == [] then [] else [s[0]]
  }

  function AfterRemoveOldest<K, V>(s: seq<Item<K, V>>): seq<Item<K, V>> {
    if s == [] then s else s[1..]
  }

  /** Capacity 0 stands for no limit. */
  predicate Full<K, V>(s: seq<Item<K, V>>, capacity: nat) {
    capacity != 0 && |s| >= capacity
  }

  /** A full cache drops its oldest item before it looks for the key. */
  function Evicted<K, V>(s: seq<Item<K, V>>, capacity: nat): seq<Item<K, V>> {
    if Full(s, capacity) then AfterRemoveOldest(s) else s
  }

  function AfterPut<K(==), V>(s: seq<Item<K, V>>, capacity: nat, k: K, v: V): seq<Item<K, V>> {
    var t := Evicted(s, capacity);
    if Position(t, k) < |t| then t else t + [Item(k, v)]
  }

  function After<K(==), V>(s: seq<Item<K, V>>, capacity: nat, op: Op<K, V>): seq<Item<K, V>> {
    match op
    case Get(k) => AfterGet(s, k)
    case Put(k, v) => AfterPut(s, capacity, k, v)
    case Remove(k) => Without(s, k)
    case RemoveOldest => AfterRemoveOldest(s)
    case Clear => []
  }

  function Run<K(==), V>(ops: seq<Op<K, V>>, capacity: nat): seq<Item<K, V>> {
    if ops == [] then [] else After(Run(ops[..|ops| - 1], capacity), capacity, ops[|ops| - 1])
  }

  lemma RunNext<K, V>(ops: seq<Op<K, V>>, i: nat, capacity: nat)
    requires i < |ops|
    ensures Run(ops[..i + 1], capacity) == After(Run(ops[..i], capacity), capacity, ops[i])
  {
    assert ops[..i + 1][..i] == ops[..i];
  }

  // ---- what every run keeps --------------------------------------------------------------------

  lemma WithoutKeeps<K, V>(s: seq<Item<K, V>>, k: K)
    requires Distinct(s)
    ensures Distinct(Without(s, k)) && !Has(Without(s, k), k) && |Without(s, k)| <= |s|
    ensures forall j :: j != k ==> (Has(Without(s, k), j) <==> Has(s, j))
  {
    var i, t := Position(s, k), Without(s, k);
    if i < |s| {
      forall a | 0 <= a < |t|
        ensures t[a] == s[if a < i then a else a + 1]
      {
      }
      forall j | j != k && Has(s, j)
        ensures Has(t, j)
      {
        var b :| 0 <= b < |s| && s[b].key == j;
        assert t[if b < i then b else b - 1].key == j;
      }
    }
  }

  lemma PutKeeps<K, V>(s: seq<Item<K, V>>, capacity: nat, k: K, v: V)
    requires Distinct(s) && (capacity != 0 ==> |s| <= capacity)
    ensures Distinct(AfterPut(s, capacity, k, v)) && (capacity != 0 ==> |AfterPut(s, capacity, k, v)| <= capacity)
  {
    var t := Evicted(s, capacity);
    assert forall i :: 0 <= i < |t| ==> t[i] == s[i + |s| - |t|];
    assert Distinct(t);
  }

  lemma StepKeeps<K, V>(s: seq<Item<K, V>>, capacity: nat, op: Op<K, V>)
    requires Distinct(s) && (capacity != 0 ==> |s| <= capacity)
    ensures Distinct(After(s, capacity, op)) && (capacity != 0 ==> |After(s, capacity, op)| <= capacity)
  {
    match op
    case Get(k) => WithoutKeeps(s, k);
    case Put(k, v) => PutKeeps(s, capacity, k, v);
    case Remove(k) => WithoutKeeps(s, k);
    case RemoveOldest =>
    case Clear =>
  }

  /** Keys stay distinct and the size within a nonzero capacity, over every run. */
  lemma {:induction false} RunKeeps<K, V>(ops: seq<Op<K, V>>, capacity: nat)
    ensures Distinct(Run(ops, capacity)) && (capacity != 0 ==> |Run(ops, capacity)| <= capacity)
  {
    if ops != [] {
      RunKeeps(ops[..|ops| - 1], capacity);
      StepKeeps(Run(ops[..|ops| - 1], capacity), capacity, ops[|ops| - 1]);
    }
  }

  // ---- recency --------------------------------------------------------------------------------------

  /** Whether an operation makes k the youngest key: a hit, or an insertion. */
  predicate Touches<K(==), V>(s: seq<Item<K, V>>, capacity: nat, op: Op<K, V>, k: K) {
    match op
    case Get(j) => j == k && Position(s, k) < |s|
    case Put(j, _) => j == k && Position(Evicted(s, capacity), k) == |Evicted(s, capacity)|
    case _ => false
  }

  /** The last operation of the run that touched k, counted from 1; 0 if none did. */
  function LastTouch<K(==), V>(ops: seq<Op<K, V>>, capacity: nat, k: K): (t: nat)
    ensures t <= |ops|
  {
    if ops == [] then 0
    else
      var n := |ops| - 1;
      if Touches(Run(ops[..n], capacity), capacity, ops[n], k) then n + 1 else LastTouch(ops[..n], capacity, k)
  }

  /** Where an item came from when the item at i was taken out. */
  lemma WithoutShape<K, V>(s: seq<Item<K, V>>, i: nat, a: nat) returns (c: nat)
    requires Distinct(s) && i < |s| && a < |s| - 1
    ensures c == (if a < i then a else a + 1) && c < |s| && c != i
    ensures s[c] == (s[..i] + s[i + 1..])[a] && s[c].key != s[i].key
  {
    c := if a < i then a else a + 1;
    assert if c < i then s[c].key != s[i].key else s[i].key != s[c].key;
  }

  /** The item at a of the new sequence was at c, the one at b is new or was at d, after c. */
  ghost predicate Shaped<K, V>(s: seq<Item<K, V>>, capacity: nat, op: Op<K, V>, a: nat, b: nat, c: nat, d: nat) {
    var t := After(s, capacity, op);
    && a < b < |t| && c < |s| && s[c] == t[a] && !Touches(s, capacity, op, t[a].key)
    && (Touches(s, capacity, op, t[b].key) || (c < d < |s| && s[d] == t[b]))
  }

  lemma GetShape<K, V>(s: seq<Item<K, V>>, capacity: nat, k: K, a: nat, b: nat) returns (c: nat, d: nat)
    requires Distinct(s) && a < b < |AfterGet(s, k)|
    ensures Shaped(s, capacity, Get(k), a, b, c, d)
  {
    var i := Position(s, k);
    c, d := a, b;
    if i < |s| {
      WithoutAt(s, k, i);
      c := WithoutShape(s, i, a);
      if b < |s| - 1 {
        d := WithoutShape(s, i, b);
      }
    }
  }

  lemma RemoveShape<K, V>(s: seq<Item<K, V>>, capacity: nat, k: K, a: nat, b: nat) returns (c: nat, d: nat)
    requires Distinct(s) && a < b < |Without(s, k)|
    ensures Shaped(s, capacity, Remove(k), a, b, c, d)
  {
    var i := Position(s, k);
    c, d := a, b;
    if i < |s| {
      WithoutAt(s, k, i);
      c := WithoutShape(s, i, a);
      d := WithoutShape(s, i, b);
    }
  }

  lemma PutShape<K, V>(s: seq<Item<K, V>>, capacity: nat, k: K, v: V, a: nat, b: nat) returns (c: nat, d: nat)
    requires Distinct(s) && a < b < |AfterPut(s, capacity, k, v)|
    ensures Shaped(s, capacity, Put(k, v), a, b, c, d)
  {
    var t := Evicted(s, capacity);
    d := b;
    c := EvictedAt(s, capacity, a);
    if b < |t| {
      d := EvictedAt(s, capacity, b);
    }
    assert AfterPut(s, capacity, k, v)[a] == t[a];
  }

  /** Where an item came from when the oldest may have been dropped. */
  lemma EvictedAt<K, V>(s: seq<Item<K, V>>, capacity: nat, j: nat) returns (c: nat)
    requires j < |Evicted(s, capacity)|
    ensures c == j + |s| - |Evicted(s, capacity)| && c < |s| && s[c] == Evicted(s, capacity)[j]
  {
    c := if Full(s, capacity) then j + 1 else j;
  }

  /** Every operation keeps a subsequence of the items, and appends at most one: the one touched. */
  lemma StepShape<K, V>(s: seq<Item<K, V>>, capacity: nat, op: Op<K, V>, a: nat, b: nat) returns (c: nat, d: nat)
    requires Distinct(s) && a < b < |After(s, capacity, op)|
    ensures Shaped(s, capacity, op, a, b, c, d)
  {
    match op
    case Get(k) => c, d := GetShape(s, capacity, k, a, b);
    case Put(k, v) => c, d := PutShape(s, capacity, k, v, a, b);
    case Remove(k) => c, d := RemoveShape(s, capacity, k, a, b);
    case RemoveOldest => c, d := a + 1, b + 1;
  }

  /** After any run the items stand in the order of their last touches, oldest first. */
  lemma {:induction false} RecencyOrder<K, V>(ops: seq<Op<K, V>>, capacity: nat, a: nat, b: nat)
    requires a < b < |Run(ops, capacity)|
    ensures LastTouch(ops, capacity, Run(ops, capacity)[a].key) < LastTouch(ops, capacity, Run(ops, capacity)[b].key)
  {
    var n := |ops| - 1;
    var s := Run(ops[..n], capacity);
    RunKeeps(ops[..n], capacity);
    var c, d := StepShape(s, capacity, ops[n], a, b);
    if !Touches(s, capacity, ops[n], Run(ops, capacity)[b].key) {
      RecencyOrder(ops[..n], capacity, c, d);
    }
  }

  /** A put on a full cache drops the oldest item even when the key is already there: if that
      item is the key's own, the value is replaced, otherwise an unrelated item is lost. */
  lemma PutEvictsFirst<K, V>(s: seq<Item<K, V>>, capacity: nat, k: K, v: V)
    requires Distinct(s) && |s| == capacity > 0 && Has(s, k)
    ensures s[0].key == k ==> AfterPut(s, capacity, k, v) == s[1..] + [Item(k, v)]
    ensures s[0].key != k ==> AfterPut(s, capacity, k, v) == s[1..] && !Has(AfterPut(s, capacity, k, v), s[0].key)
  {
    var i :| 0 <= i < |s| && s[i].key == k;
    var t := s[1..];
    if s[0].key == k {
      assert forall j :: 0 <= j < |t| ==> t[j] == s[j + 1] && t[j].key != k;
    } else {
      assert t[i - 1].key == k;
      assert forall j :: 0 <= j < |t| ==> t[j] == s[j + 1] && t[j].key != s[0].key;
    }
  }

  // ---- what is stored --------------------------------------------------------------------------------

  lemma HoldingAt<K, V>(s: seq<Item<K, V>>, k: K, i: nat)
    requires Distinct(s) && i < |s| && s[i].key == k
    ensures Holding(s, k) == [s[i]]
  {
    PositionIs(s, k, i);
  }

  lemma HoldingNone<K, V>(s: seq<Item<K, V>>, k: K)
    ensures Holding(s, k) == [] <==> !Has(s, k)
  {
    PositionHas(s, k);
  }

  /** Every item of t under key k is in s, and the other way round: the key holds the same. */
  lemma HoldingSame<K, V>(s: seq<Item<K, V>>, t: seq<Item<K, V>>, k: K)
    requires Distinct(s) && Distinct(t)
    requires forall i :: 0 <= i < |s| && s[i].key == k ==> s[i] in t
    requires forall i :: 0 <= i < |t| && t[i].key == k ==> t[i] in s
    ensures Holding(s, k) == Holding(t, k)
  {
    if Has(s, k) {
      var i :| 0 <= i < |s| && s[i].key == k;
      HoldingAt(s, k, i);
      var j :| 0 <= j < |t| && t[j] == s[i];
      HoldingAt(t, k, j);
    } else {
      HoldingNone(s, k);
      HoldingNone(t, k);
    }
  }

  /** Dropping the first item takes away its key and no other. */
  lemma OldestHolding<K, V>(s: seq<Item<K, V>>, k: K)
    requires Distinct(s) && s != []
    ensures Distinct(s[1..])
    ensures Holding(s[1..], k) == if k == s[0].key then [] else Holding(s, k)
  {
    var t := s[1..];
    assert forall i :: 0 <= i < |t| ==> t[i] == s[i + 1];
    if k == s[0].key {
      assert !Has(t, k);
      HoldingNone(t, k);
    } else {
      assert forall i :: 0 < i < |s| ==> s[i] == t[i - 1];
      HoldingSame(s, t, k);
    }
  }

  /** Appending an item under a new key adds that key and no other. */
  lemma NewestHolding<K, V>(s: seq<Item<K, V>>, e: Item<K, V>, k: K)
    requires Distinct(s) && !Has(s, e.key)
    ensures Distinct(s + [e])
    ensures Holding(s + [e], k) == if k == e.key then [e] else Holding(s, k)
  {
    var t := s + [e];
    assert Distinct(t);
    if k == e.key {
      HoldingAt(t, k, |s|);
    } else {
      assert forall i :: 0 <= i < |s| ==> t[i] == s[i];
      HoldingSame(s, t, k);
    }
  }

  /** The key a put drops: the oldest of a cache that has reached a nonzero capacity. */
  predicate Drops<K(==), V>(s: seq<Item<K, V>>, capacity: nat, k: K) {
    capacity > 0 && |s| >= capacity && k == s[0].key
  }

  lemma EvictedHolding<K, V>(s: seq<Item<K, V>>, capacity: nat, k: K)
    requires Distinct(s)
    ensures Distinct(Evicted(s, capacity))
    ensures Holding(Evicted(s, capacity), k) == if Drops(s, capacity, k) then [] else Holding(s, k)
  {
    if s != [] && Full(s, capacity) {
      OldestHolding(s, k);
    }
  }

  /** What each key holds after a put: the put key its old item if it had one that was not dropped,
      else the new one; every other key what it held, except the oldest of a full cache. */
  lemma PutHolding<K, V>(s: seq<Item<K, V>>, capacity: nat, k: K, v: V, j: K)
    requires Distinct(s)
    ensures Distinct(AfterPut(s, capacity, k, v)) && Has(AfterPut(s, capacity, k, v), k)
    ensures Holding(AfterPut(s, capacity, k, v), j)
         == if j == k && (!Has(s, k) || Drops(s, capacity, k)) then [Item(k, v)]
            else if j != k && Drops(s, capacity, j) then []
            else Holding(s, j)
  {
    var t := Evicted(s, capacity);
    EvictedHolding(s, capacity, j);
    EvictedHolding(s, capacity, k);
    HoldingNone(s, k);
    HoldingNone(t, k);
    PositionHas(t, k);
    if !Has(t, k) {
      NewestHolding(t, Item(k, v), j);
      NewestHolding(t, Item(k, v), k);
      HoldingNone(t + [Item(k, v)], k);
    }
  }

  /** A get changes the order only. */
  lemma GetHolding<K, V>(s: seq<Item<K, V>>, k: K, j: K)
    requires Distinct(s)
    ensures Distinct(AfterGet(s, k)) && Holding(AfterGet(s, k), j) == Holding(s, j)
  {
    var i := Position(s, k);
    if i < |s| {
      RemoveHolding(s, k, j);
      WithoutKeeps(s, k);
      WithoutAt(s, k, i);
      NewestHolding(Without(s, k), s[i], j);
      HoldingAt(s, k, i);
    }
  }

  /** Cutting one item out leaves the others. */
  lemma CutItems<K, V>(s: seq<Item<K, V>>, t: seq<Item<K, V>>, i: nat, j: nat)
    requires i < |s| && t == s[..i] + s[i + 1..]
    ensures j < |t| ==> t[j] in s
    ensures j < |s| && j != i ==> s[j] in t
  {
    if j < i {
      assert t[j] == s[j];
    } else if i < j < |s| {
      assert t[j - 1] == s[j];
    }
    if i <= j < |t| {
      assert t[j] == s[j + 1];
    }
  }

  lemma CutHolding<K, V>(s: seq<Item<K, V>>, t: seq<Item<K, V>>, i: nat, j: K)
    requires i < |s| && t == s[..i] + s[i + 1..] && s[i].key != j && Distinct(s) && Distinct(t)
    ensures Holding(t, j) == Holding(s, j)
  {
    forall a: nat | a < |s| && s[a].key == j
      ensures s[a] in t
    {
      CutItems(s, t, i, a);
    }
    forall a: nat | a < |t| && t[a].key == j
      ensures t[a] in s
    {
      CutItems(s, t, i, a);
    }
    HoldingSame(s, t, j);
  }

  /** A removal takes away the key and no other. */
  lemma RemoveHolding<K, V>(s: seq<Item<K, V>>, k: K, j: K)
    requires Distinct(s)
    ensures Distinct(Without(s, k)) && Holding(Without(s, k), j) == if j == k then [] else Holding(s, j)
  {
    var i, t := Position(s, k), Without(s, k);
    WithoutKeeps(s, k);
    if j == k {
      HoldingNone(t, k);
    } else if i < |s| {
      WithoutAt(s, k, i);
      CutHolding(s, t, i, j);
    }
  }

  /** What key j holds after an operation, from what it held before. */
  function HeldAfter<K(==), V>(s: seq<Item<K, V>>, capacity: nat, op: Op<K, V>, j: K): seq<Item<K, V>> {
    match op
    case Get(_) => Holding(s, j)
    case Put(k, v) =>
      if j == k then (if Holding(s, k) == [] || Drops(s, capacity, k) then [Item(k, v)] else Holding(s, j))
      else if Drops(s, capacity, j) then [] else Holding(s, j)
    case Remove(k) => if j == k then [] else Holding(s, j)
    case RemoveOldest => if s != [] && j == s[0].key then [] else Holding(s, j)
    case Clear => []
  }

  /** Every operation stores, keeps and drops exactly what it should. */
  lemma StepHolding<K, V>(s: seq<Item<K, V>>, capacity: nat, op: Op<K, V>, j: K)
    requires Distinct(s)
    ensures Holding(After(s, capacity, op), j) == HeldAfter(s, capacity, op, j)
  {
    match op
    case Get(k) => GetHolding(s, k, j);
    case Put(k, v) => HoldingNone(s, k); PutHolding(s, capacity, k, v, j);
    case Remove(k) => RemoveHolding(s, k, j);
    case RemoveOldest =>
      if s != [] {
        OldestHolding(s, j);
      }
    case Clear =>
  }

  /** A put under an absent key, and the get that follows. */
  lemma PutThenFound<K, V>(s: seq<Item<K, V>>, capacity: nat, k: K, v: V)
    requires Distinct(s)
    ensures var t := AfterPut(s, capacity, k, v);
      !Has(s, k) ==> !Has(Evicted(s, capacity), k) && Position(t, k) < |t| && t[Position(t, k)].value == v
  {
    PutHolding(s, capacity, k, v, k);
    EvictedHolding(s, capacity, k);
    HoldingNone(s, k);
    HoldingNone(Evicted(s, capacity), k);
  }

  lemma RunLast<K, V>(ops: seq<Op<K, V>>, op: Op<K, V>, capacity: nat)
    ensures Run(ops + [op], capacity) == After(Run(ops, capacity), capacity, op)
  {
    assert (ops + [op])[..|ops|] == ops;
  }

  /** Over runs: what is put under an absent key is there, and get finds it. */
  lemma PutThenHeld<K, V>(ops: seq<Op<K, V>>, capacity: nat, k: K, v: V)
    requires !Has(Run(ops, capacity), k)
    ensures Holding(Run(ops + [Put(k, v)], capacity), k) == [Item(k, v)]
    ensures Holding(Run(ops + [Put(k, v), Get(k)], capacity), k) == [Item(k, v)]
  {
    var s, t := Run(ops, capacity), Run(ops + [Put(k, v)], capacity);
    RunKeeps(ops, capacity);
    RunLast(ops, Put(k, v), capacity);
    PutHolding(s, capacity, k, v, k);
    RunLast(ops + [Put(k, v)], Get(k), capacity);
    GetHolding(t, k, k);
    assert ops + [Put(k, v), Get(k)] == ops + [Put(k, v)] + [Get(k)];
  }

  /** What key k holds after the first n operations. */
  function HeldAt<K(==), V>(ops: seq<Op<K, V>>, capacity: nat, k: K, n: nat): seq<Item<K, V>>
    requires n <= |ops|
  {
    Holding(Run(ops[..n], capacity), k)
  }

  lemma HeldNext<K, V>(ops: seq<Op<K, V>>, capacity: nat, k: K, v: V, n: nat)
    requires n < |ops| && HeldAt(ops, capacity, k, n + 1) == [Item(k, v)] && HeldAt(ops, capacity, k, n) != [Item(k, v)]
    ensures ops[n] == Put(k, v)
  {
    var s := Run(ops[..n], capacity);
    RunKeeps(ops[..n], capacity);
    RunNext(ops, n, capacity);
    StepHolding(s, capacity, ops[n], k);
    HeldBefore(s, capacity, ops[n], k, v);
  }

  lemma StartsEmpty<K, V>(ops: seq<Op<K, V>>, capacity: nat, k: K)
    ensures HeldAt(ops, capacity, k, 0) == []
  {
    assert ops[..0] == [];
  }

  /** Every item there after n operations was put by one of them, and has been there since. */
  lemma {:induction false} StoredBy<K, V>(ops: seq<Op<K, V>>, capacity: nat, k: K, v: V, n: nat) returns (i: nat)
    requires n <= |ops| && HeldAt(ops, capacity, k, n) == [Item(k, v)]
    ensures i < n && ops[i] == Put(k, v) && HeldAt(ops, capacity, k, i) != [Item(k, v)]
    ensures forall j :: i < j <= n ==> HeldAt(ops, capacity, k, j) == [Item(k, v)]
  {
    StartsEmpty(ops, capacity, k);
    i := n - 1;
    if HeldAt(ops, capacity, k, i) == [Item(k, v)] {
      i := StoredBy(ops, capacity, k, v, i);
    } else {
      HeldNext(ops, capacity, k, v, i);
    }
  }

  lemma HeldBefore<K, V>(s: seq<Item<K, V>>, capacity: nat, op: Op<K, V>, k: K, v: V)
    requires HeldAfter(s, capacity, op, k) == [Item(k, v)] && Holding(s, k) != [Item(k, v)]
    ensures op == Put(k, v)
  {
  }
}
