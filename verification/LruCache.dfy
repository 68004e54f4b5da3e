/** The LRU cache of LruCache.h: an intrusive doubly linked list threaded through the entries
    of a hash set. Each operation refines the sequence model of Recency. */
module LruCache {
  import opened Recency

  class Entry<K, V> {
    const key: K
    const value: V
    var parent: Entry?<K, V>
    var child: Entry?<K, V>

    constructor (key: K, value: V)
      ensures this.key == key && this.value == value && parent == null && child == null
    {
      this.key, this.value, parent, child := key, value, null, null;
    }
  }

  class Cache<K(==), V> {
    // The hash set, whose elements are compared by key.
    var entries: map<K, Entry<K, V>>
    var oldest: Entry?<K, V>
    var youngest: Entry?<K, V>
    const capacity: nat
    const nullValue: V
    // The removal listener, if one is set, and the calls made to it.
    var listening: bool
    var removed: seq<Item<K, V>>

    // The entries, oldest first.
    ghost var order: seq<Entry<K, V>>

    /** The list runs through exactly the entries of o: child pointers upwards from the
        oldest, parent pointers downwards from the youngest. */
    static ghost function Prev(o: seq<Entry<K, V>>, i: int): Entry?<K, V>
      requires 0 <= i < |o|
    {
      if i == 0 then null else o[i - 1]
    }

    static ghost function Next(o: seq<Entry<K, V>>, i: int): Entry?<K, V>
      requires 0 <= i < |o|
    {
      if i == |o| - 1 then null else o[i + 1]
    }

    static ghost predicate Chained(o: seq<Entry<K, V>>, first: Entry?<K, V>, last: Entry?<K, V>)
      reads o
    {
      && (forall i, j :: 0 <= i < j < |o| ==> o[i] != o[j])
      && (forall i {:trigger o[i].parent} :: 0 <= i < |o| ==> o[i].parent == Prev(o, i))
      && (forall i {:trigger o[i].child} :: 0 <= i < |o| ==> o[i].child == Next(o, i))
      && first == (if o == [] then null else o[0])
      && last == (if o == [] then null else o[|o| - 1])
    }

    ghost predicate Linked()
      reads this, order
    {
      Chained(order, oldest, youngest)
    }

    /** The set holds exactly the entries of `order`, each under its own key. */
    ghost predicate Indexed()
      reads this
    {
      && |entries| == |order|
      && (forall i :: 0 <= i < |order| ==> order[i].key in entries && entries[order[i].key] == order[i])
      && (forall k :: k in entries ==> entries[k] in order && entries[k].key == k)
    }

    ghost predicate Valid()
      reads this, order
    {
      Linked() && Indexed() && (capacity != 0 ==> |order| <= capacity)
    }

    /** The cache as a sequence of items, oldest first. */
    ghost function Contents(): (s: seq<Item<K, V>>)
      reads this
      ensures |s| == |order|
    {
      Items(order)
    }

    static ghost function Items(order: seq<Entry<K, V>>): (s: seq<Item<K, V>>)
      ensures |s| == |order|
    {
      seq(|order|, i requires 0 <= i < |order| => Item(order[i].key, order[i].value))
    }

    constructor (maxCapacity: nat, nullValue: V)
      ensures Valid() && Contents() == [] && capacity == maxCapacity && this.nullValue == nullValue
      ensures !listening && removed == [] && order == []
    {
      entries, oldest, youngest, capacity := map[], null, null, maxCapacity;
      this.nullValue, listening, removed, order := nullValue, false, [], [];
    }

    /** setOnEntryRemovedListener. */
    method SetListener(on: bool)
      requires Valid()
      modifies this`listening
      ensures Valid() && listening == on && Contents() == old(Contents()) && removed == old(removed)
    {
      listening := on;
    }

    /** The entries met from e on through child pointers, in n steps at most. */
    static ghost function ChildWalk(e: Entry?<K, V>, n: nat): seq<Entry<K, V>>
      reads *
    {
      if n == 0 || e == null then [] else [e] + ChildWalk(e.child, n - 1)
    }

    /** The same through parent pointers. */
    static ghost function ParentWalk(e: Entry?<K, V>, n: nat): seq<Entry<K, V>>
      reads *
    {
      if n == 0 || e == null then [] else [e] + ParentWalk(e.parent, n - 1)
    }

    static ghost function Reversed(s: seq<Entry<K, V>>): seq<Entry<K, V>> {
      if s == [] then [] else Reversed(s[1..]) + [s[0]]
    }

    lemma {:induction false} ChildWalkFrom(i: nat, n: nat)
      requires Linked() && i < |order| && n >= |order| - i
      ensures ChildWalk(order[i], n) == order[i..]
      decreases n
    {
      assert order[i].child == Next(order, i);
      if i == |order| - 1 {
        assert ChildWalk(order[i].child, n - 1) == [];
      } else {
        ChildWalkFrom(i + 1, n - 1);
      }
      assert order[i..] == [order[i]] + order[i + 1..];
    }

    lemma {:induction false} ParentWalkFrom(i: nat, n: nat)
      requires Linked() && i < |order| && n > i
      ensures ParentWalk(order[i], n) == Reversed(order[..i + 1])
      decreases n
    {
      assert order[i].parent == Prev(order, i);
      ReversedLast(order[..i], order[i]);
      assert order[..i + 1] == order[..i] + [order[i]];
      if i == 0 {
        assert ParentWalk(order[i].parent, n - 1) == [] == Reversed(order[..i]);
      } else {
        ParentWalkFrom(i - 1, n - 1);
      }
    }

    static lemma {:induction false} ReversedLast(s: seq<Entry<K, V>>, e: Entry<K, V>)
      ensures Reversed(s + [e]) == [e] + Reversed(s)
    {
      if s != [] {
        ReversedLast(s[1..], e);
        assert (s + [e])[1..] == s[1..] + [e];
        assert [e] + Reversed(s[1..]) + [s[0]] == [e] + (Reversed(s[1..]) + [s[0]]);
      } else {
        assert s + [e] == [e];
      }
    }

    /** The walk from the oldest entry through the child pointers and the walk from the youngest
        through the parent pointers end, and meet the same entries in opposite order. */
    lemma Reverses(n: nat)
      requires Valid() && n >= |order|
      ensures ChildWalk(oldest, n) == order && ParentWalk(youngest, n) == Reversed(order)
      ensures ParentWalk(youngest, n) == Reversed(ChildWalk(oldest, n))
    {
      if order != [] {
        ChildWalkFrom(0, n);
        ParentWalkFrom(|order| - 1, n);
        assert order[0..] == order && order[..|order|] == order;
      }
    }

    lemma KeysDistinct()
      requires Valid()
      ensures Distinct(Contents())
    {
      forall i, j | 0 <= i < j < |order|
        ensures order[i].key != order[j].key
      {
        assert entries[order[i].key] == order[i] && entries[order[j].key] == order[j];
      }
    }

    lemma Found(k: K)
      requires Valid()
      ensures k in entries <==> Position(Contents(), k) < |Contents()|
      ensures k in entries ==> order[Position(Contents(), k)] == entries[k]
    {
      KeysDistinct();
      if k in entries {
        var i :| 0 <= i < |order| && order[i] == entries[k];
        PositionIs(Contents(), k, i);
      }
    }

    /** attachToCache. */
    method Attach(entry: Entry<K, V>)
      requires Linked() && entry !in order && entry.parent == null && entry.child == null
      modifies this`oldest, this`youngest, this`order, order, entry
      ensures Linked() && order == old(order) + [entry]
      ensures entries == old(entries) && listening == old(listening) && removed == old(removed)
    {
      if youngest == null {
        youngest, oldest := entry, entry;
      } else {
        entry.parent := youngest;
        youngest.child := entry;
        youngest := entry;
      }
      order := order + [entry];
    }

    /** detachFromCache, of the entry at position i. */
    method Detach(entry: Entry<K, V>, ghost i: nat)
      requires Linked() && i < |order| && order[i] == entry
      modifies this`oldest, this`youngest, this`order, order
      ensures Linked() && order == old(order)[..i] + old(order)[i + 1..]
      ensures entry !in order && entry.parent == null && entry.child == null
      ensures entries == old(entries) && listening == old(listening) && removed == old(removed)
    {
      ghost var o := order;
      assert o[i].parent == Prev(o, i);
      assert o[i].child == Next(o, i);
      if entry.parent != null {
        entry.parent.child := entry.child;
      } else {
        oldest := entry.child;
      }
      if entry.child != null {
        entry.child.parent := entry.parent;
      } else {
        youngest := entry.parent;
      }
      entry.parent := null;
      entry.child := null;
      order := o[..i] + o[i + 1..];
      Closed(o, order, i);
    }

    /** The neighbours of an entry once the one at i is taken out. */
    static lemma NextWithout(o: seq<Entry<K, V>>, t: seq<Entry<K, V>>, i: nat, j: nat, l: nat)
      requires i < |o| && j < |o| - 1 && t == o[..i] + o[i + 1..] && l == if j < i then j else j + 1
      ensures |t| == |o| - 1 && t[j] == o[l]
      ensures Next(t, j) == Next(o, if l == i - 1 then i else l)
      ensures Prev(t, j) == Prev(o, if l == i + 1 then i else l)
    {
    }

    static lemma EndsWithout(o: seq<Entry<K, V>>, t: seq<Entry<K, V>>, i: nat)
      requires i < |o| && t == o[..i] + o[i + 1..]
      ensures (if t == [] then null else t[0]) == if i == 0 then Next(o, i) else o[0]
      ensures (if t == [] then null else t[|t| - 1]) == if i == |o| - 1 then Prev(o, i) else o[|o| - 1]
    {
    }

    /** The pointers of a list without the entry at i, once its neighbours point past it. */
    static lemma ClosedLinks(o: seq<Entry<K, V>>, t: seq<Entry<K, V>>, i: nat)
      requires i < |o| && t == o[..i] + o[i + 1..]
      requires forall l {:trigger o[l].child} :: 0 <= l < |o| && l != i ==> o[l].child == Next(o, if l == i - 1 then i else l)
      requires forall l {:trigger o[l].parent} :: 0 <= l < |o| && l != i ==> o[l].parent == Prev(o, if l == i + 1 then i else l)
      ensures forall j {:trigger t[j].parent} :: 0 <= j < |t| ==> t[j].parent == Prev(t, j)
      ensures forall j {:trigger t[j].child} :: 0 <= j < |t| ==> t[j].child == Next(t, j)
    {
      forall j | 0 <= j < |t|
        ensures t[j].parent == Prev(t, j) && t[j].child == Next(t, j)
      {
        var l := if j < i then j else j + 1;
        NextWithout(o, t, i, j, l);
        assert o[l].child == Next(o, if l == i - 1 then i else l);
        assert o[l].parent == Prev(o, if l == i + 1 then i else l);
      }
    }

    /** The list closes over a removed entry once its neighbours point past it. */
    lemma Closed(o: seq<Entry<K, V>>, t: seq<Entry<K, V>>, i: nat)
      requires i < |o| && t == o[..i] + o[i + 1..] && forall a, b :: 0 <= a < b < |o| ==> o[a] != o[b]
      requires forall l {:trigger o[l].child} :: 0 <= l < |o| && l != i ==> o[l].child == Next(o, if l == i - 1 then i else l)
      requires forall l {:trigger o[l].parent} :: 0 <= l < |o| && l != i ==> o[l].parent == Prev(o, if l == i + 1 then i else l)
      requires oldest == (if i == 0 then Next(o, i) else o[0]) && youngest == (if i == |o| - 1 then Prev(o, i) else o[|o| - 1])
      ensures Chained(t, oldest, youngest) && o[i] !in t
    {
      DistinctWithout(o, t, i);
      EndsWithout(o, t, i);
      ClosedLinks(o, t, i);
    }

    static lemma DistinctWithout(o: seq<Entry<K, V>>, t: seq<Entry<K, V>>, i: nat)
      requires i < |o| && t == o[..i] + o[i + 1..] && forall a, b :: 0 <= a < b < |o| ==> o[a] != o[b]
      ensures o[i] !in t && forall a, b :: 0 <= a < b < |t| ==> t[a] != t[b]
    {
      assert forall a :: 0 <= a < |t| ==> t[a] == o[if a < i then a else a + 1];
    }

    lemma ItemsWithout(o: seq<Entry<K, V>>, i: nat)
      requires i < |o|
      ensures Items(o[..i] + o[i + 1..]) == Items(o)[..i] + Items(o)[i + 1..]
    {
    }

    /** get, on a hit at position i. */
    method Touch(entry: Entry<K, V>, ghost i: nat)
      requires Valid() && i < |order| && order[i] == entry
      modifies this`oldest, this`youngest, this`order, order
      ensures Valid() && order == old(order)[..i] + old(order)[i + 1..] + [entry]
      ensures forall e :: e in order ==> e in old(order)
      ensures entries == old(entries) && listening == old(listening) && removed == old(removed)
    {
      ghost var o := order;
      Detach(entry, i);
      Attach(entry);
      Moved(o, i);
    }

    /** Moving an entry to the end keeps the set of entries. */
    lemma Moved(o: seq<Entry<K, V>>, i: nat)
      requires i < |o| && order == o[..i] + o[i + 1..] + [o[i]] && |entries| == |o|
      requires forall j :: 0 <= j < |o| ==> o[j].key in entries && entries[o[j].key] == o[j]
      requires forall j :: j in entries ==> entries[j] in o && entries[j].key == j
      ensures Indexed()
    {
      forall j | 0 <= j < |order|
        ensures order[j] == o[if j < i then j else if j == |o| - 1 then i else j + 1]
      {
      }
      forall k | k in entries
        ensures entries[k] in order
      {
        var l :| 0 <= l < |o| && o[l] == entries[k];
        assert order[if l < i then l else if l == i then |o| - 1 else l - 1] == entries[k];
      }
    }

    /** get: the value, which becomes the youngest, or the null value. */
    method Get(key: K) returns (v: V)
      requires Valid()
      modifies this`oldest, this`youngest, this`order, order
      ensures Valid() && Contents() == AfterGet(old(Contents()), key)
      ensures forall e :: e in order ==> e in old(order)
      ensures entries == old(entries) && listening == old(listening) && removed == old(removed)
      ensures v == var i := Position(old(Contents()), key); if i < |old(Contents())| then old(Contents())[i].value else nullValue
    {
      ghost var s, o := Contents(), order;
      Found(key);
      if key !in entries {
        return nullValue;
      }
      var entry := entries[key];
      ghost var i := Position(s, key);
      WithoutAt(s, key, i);
      ItemsWithout(o, i);
      Touch(entry, i);
      assert Contents() == Items(o[..i] + o[i + 1..]) + [s[i]];
      v := entry.value;
    }

    method Notify(entry: Entry<K, V>)
      modifies this`removed
      ensures removed == old(removed) + (if listening then [Item(entry.key, entry.value)] else [])
    {
      if listening {
        removed := removed + [Item(entry.key, entry.value)];
      }
    }

    /** The listener, then the list. */
    method Unlist(entry: Entry<K, V>, ghost i: nat)
      requires Linked() && i < |order| && order[i] == entry
      modifies this`removed, this`oldest, this`youngest, this`order, order
      ensures Linked() && order == old(order)[..i] + old(order)[i + 1..]
      ensures entries == old(entries) && listening == old(listening)
      ensures removed == old(removed) + (if listening then [Item(entry.key, entry.value)] else [])
      ensures forall e :: e in order ==> e in old(order)
    {
      Notify(entry);
      Detach(entry, i);
    }

    /** The body of remove, for the entry at position i. */
    method Take(entry: Entry<K, V>, ghost i: nat)
      requires Valid() && i < |order| && order[i] == entry
      modifies this, order
      ensures Valid() && order == old(order)[..i] + old(order)[i + 1..]
      ensures forall e :: e in order ==> e in old(order)
      ensures listening == old(listening)
      ensures removed == old(removed) + (if listening then [Item(entry.key, entry.value)] else [])
    {
      ghost var o, m := order, entries;
      entries := entries - {entry.key};
      Unlist(entry, i);
      Unindexed(m, entry.key, o, i);
    }

    /** remove: the listener is told before the entry is detached. */
    method Remove(key: K) returns (found: bool)
      requires Valid()
      modifies this, order
      ensures Valid() && Contents() == Without(old(Contents()), key)
      ensures found <==> Position(old(Contents()), key) < |old(Contents())|
      ensures listening == old(listening)
      ensures removed == old(removed) + (if listening then Holding(old(Contents()), key) else [])
      ensures forall e :: e in order ==> e in old(order)
    {
      Found(key);
      found := key in entries;
      if found {
        ghost var s := Contents();
        ghost var i := Position(s, key);
        WithoutAt(s, key, i);
        ItemsWithout(order, i);
        Take(entries[key], i);
      }
    }

    lemma Unindexed(m: map<K, Entry<K, V>>, k: K, o: seq<Entry<K, V>>, i: nat)
      requires i < |o| && k in m && m[k] == o[i] && entries == m - {k} && order == o[..i] + o[i + 1..]
      requires |m| == |o|
      requires forall j :: 0 <= j < |o| ==> o[j].key in m && m[o[j].key] == o[j]
      requires forall j :: j in m ==> m[j] in o && m[j].key == j
      requires forall a, b :: 0 <= a < b < |o| ==> o[a] != o[b]
      ensures Indexed()
    {
      assert entries.Keys == m.Keys - {k};
      forall j | 0 <= j < |order|
        ensures order[j].key in entries && entries[order[j].key] == order[j]
      {
        var l := if j < i then j else j + 1;
        assert order[j] == o[l] && o[l] != o[i];
      }
      forall j | j in entries
        ensures entries[j] in order
      {
        var l :| 0 <= l < |o| && o[l] == m[j];
        assert l != i;
        assert order[if l < i then l else l - 1] == m[j];
      }
    }

    /** removeOldest. */
    method RemoveOldest() returns (found: bool)
      requires Valid()
      modifies this, order
      ensures Valid() && Contents() == AfterRemoveOldest(old(Contents()))
      ensures found <==> old(Contents()) != []
      ensures listening == old(listening)
      ensures removed == old(removed) + (if listening then Oldest(old(Contents())) else [])
      ensures forall e :: e in order ==> e in old(order)
    {
      if oldest != null {
        KeysDistinct();
        PositionIs(Contents(), oldest.key, 0);
        found := Remove(oldest.key);
      } else {
        found := false;
      }
    }

    /** The insertion that ends put. */
    method Insert(key: K, value: V)
      requires Valid() && key !in entries && (capacity != 0 ==> |order| < capacity)
      modifies this, order
      ensures Valid() && Contents() == old(Contents()) + [Item(key, value)]
      ensures listening == old(listening) && removed == old(removed)
      ensures forall e :: e in order ==> e in old(order) || fresh(e)
    {
      ghost var o, m := order, entries;
      var entry := new Entry(key, value);
      entries := entries[key := entry];
      Attach(entry);
      Grown(o, m, entry);
    }

    /** Appending an entry under a new key keeps the set and the list in step. */
    lemma Grown(o: seq<Entry<K, V>>, m: map<K, Entry<K, V>>, entry: Entry<K, V>)
      requires order == o + [entry] && entries == m[entry.key := entry] && entry.key !in m && |m| == |o|
      requires forall j :: 0 <= j < |o| ==> o[j].key in m && m[o[j].key] == o[j]
      requires forall k :: k in m ==> m[k] in o && m[k].key == k
      ensures Indexed() && Contents() == Items(o) + [Item(entry.key, entry.value)]
    {
      assert forall j :: 0 <= j < |o| ==> order[j] == o[j];
      assert order[|o|] == entry;
      assert forall k :: k in entries && k != entry.key ==> entries[k] in o;
    }

    /** The eviction that opens put. */
    method MakeRoom()
      requires Valid()
      modifies this, order
      ensures Valid() && Contents() == Evicted(old(Contents()), capacity) && (capacity != 0 ==> |order| < capacity)
      ensures listening == old(listening)
      ensures removed == old(removed) + (if Full(old(Contents()), capacity) && listening then Oldest(old(Contents())) else [])
      ensures forall e :: e in order ==> e in old(order)
    {
      if capacity != 0 && |entries| >= capacity {
        var _ := RemoveOldest();
      }
    }

    /** put: a full cache first drops its oldest entry; a key already present is refused. */
    method Put(key: K, value: V) returns (added: bool)
      requires Valid()
      modifies this, order
      ensures Valid() && Contents() == AfterPut(old(Contents()), capacity, key, value)
      ensures added <==> !Has(Evicted(old(Contents()), capacity), key)
      ensures listening == old(listening)
      ensures removed == old(removed) + (if Full(old(Contents()), capacity) && listening then Oldest(old(Contents())) else [])
      ensures forall e :: e in order ==> e in old(order) || fresh(e)
    {
      MakeRoom();
      Found(key);
      PositionHas(Contents(), key);
      added := key !in entries;
      if added {
        Insert(key, value);
      }
    }

    /** peekOldestValue. */
    method PeekOldest() returns (v: V)
      requires Valid()
      ensures v == if Contents() == [] then nullValue else Contents()[0].value
    {
      v := if oldest != null then oldest.value else nullValue;
    }

    /** The listener loop of clear, along the child pointers. */
    method NotifyAll()
      requires Linked()
      modifies this`removed
      ensures removed == old(removed) + Contents()
    {
      var p := oldest;
      ghost var i, s, before := 0, Contents(), removed;
      while p != null
        invariant 0 <= i <= |order| && p == (if i < |order| then order[i] else null)
        invariant removed == before + s[..i]
        decreases |order| - i
      {
        removed := removed + [Item(p.key, p.value)];
        assert s[..i + 1] == s[..i] + [s[i]];
        assert p == order[i] && order[i].child == Next(order, i);
        p := p.child;
        i := i + 1;
      }
      assert s[..i] == s;
    }

    /** clear: the listener is told of every entry, oldest first. */
    method Clear()
      requires Valid()
      modifies this
      ensures Valid() && Contents() == [] && listening == old(listening)
      ensures removed == old(removed) + (if listening then old(Contents()) else [])
    {
      if listening {
        NotifyAll();
      }
      youngest, oldest := null, null;
      entries := map[];
      order := [];
    }

    /** Any operation, as the sequence model describes it. */
    method Perform(op: Op<K, V>)
      requires Valid()
      modifies this, order
      ensures Valid() && Contents() == After(old(Contents()), capacity, op)
      ensures forall e :: e in order ==> e in old(order) || fresh(e)
    {
      match op
      case Get(k) =>
        var _ := Get(k);
      case Put(k, v) =>
        var _ := Put(k, v);
      case Remove(k) =>
        var _ := Remove(k);
      case RemoveOldest =>
        var _ := RemoveOldest();
      case Clear =>
        Clear();
    }
  }

  /** A whole run from an empty cache ends where the model's run ends. */
  method RunAll<K(==), V>(ops: seq<Op<K, V>>, capacity: nat, nullValue: V) returns (cache: Cache<K, V>)
    ensures fresh(cache) && cache.Valid() && cache.capacity == capacity && cache.Contents() == Run(ops, capacity)
    ensures forall e :: e in cache.order ==> fresh(e)
  {
    cache := new Cache(capacity, nullValue);
    for i := 0 to |ops|
      invariant fresh(cache) && cache.Valid() && cache.capacity == capacity
      invariant forall e :: e in cache.order ==> fresh(e)
      invariant cache.Contents() == Run(ops[..i], capacity)
    {
      RunNext(ops, i, capacity);
      cache.Perform(ops[i]);
    }
    assert ops[..|ops|] == ops;
  }

  /** What is put under an absent key is what get returns, after every run. */
  method PutThenGet<K(==), V>(ops: seq<Op<K, V>>, capacity: nat, nullValue: V, k: K, v: V) returns (added: bool, w: V)
    ensures !Has(Run(ops, capacity), k) ==> added && w == v
  {
    var cache := RunAll(ops, capacity, nullValue);
    RunKeeps(ops, capacity);
    PutThenFound(Run(ops, capacity), capacity, k, v);
    added := cache.Put(k, v);
    w := cache.Get(k);
  }
}
