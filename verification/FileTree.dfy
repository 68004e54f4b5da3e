/** Directory trees, and the order in which mkbootfs visits them. */
module FileTree {
  import opened Words

  /** A file name: not empty, without NUL. */
  type Name = s: seq<u8> | s != [] && forall i :: 0 <= i < |s| ==> s[i] != 0 witness [0x61]

  /** What lstat finds. Directories list their entries in the order readdir gives them. */
  datatype Node =
    | File(mode: u32, data: seq<u8>)
    | Link(mode: u32, target: seq<u8>)
    | Dir(mode: u32, entries: seq<Entry>)
    | Other(mode: u32)
  datatype Entry = Entry(name: Name, node: Node)

  // ---- strcmp -------------------------------------------------------------------------------------

  /** strcmp(a, b) < 0. */
  predicate StrLess(a: seq<u8>, b: seq<u8>) {
    if b == [] then false
    else if a == [] then true
    else if a[0] != b[0] then a[0] < b[0]
    else StrLess(a[1..], b[1..])
  }

  lemma {:induction false} StrLessTotal(a: seq<u8>, b: seq<u8>)
    ensures StrLess(a, b) ==> !StrLess(b, a)
    ensures !StrLess(a, b) && !StrLess(b, a) ==> a == b
  {
    if a != [] && b != [] && a[0] == b[0] {
      StrLessTotal(a[1..], b[1..]);
      assert a == [a[0]] + a[1..] && b == [b[0]] + b[1..];
    }
  }

  lemma {:induction false} NotLessTrans(a: seq<u8>, b: seq<u8>, c: seq<u8>)
    requires !StrLess(b, a) && !StrLess(c, b)
    ensures !StrLess(c, a)
  {
    if a != [] && b != [] && c != [] && a[0] == b[0] == c[0] {
      NotLessTrans(a[1..], b[1..], c[1..]);
    }
  }

  // ---- filter and sort ------------------------------------------------------------------------------

  const ROOT: seq<u8> := [0x72, 0x6f, 0x6f, 0x74]

  /** Dotfiles and anything called "root" are left out. */
  predicate Kept(e: Entry) {
    e.name[0] != 0x2e && e.name != ROOT
  }

  function Filtered(es: seq<Entry>): seq<Entry> {
    if es == [] then []
    else Filtered(es[..|es| - 1]) + (if Kept(es[|es| - 1]) then [es[|es| - 1]] else [])
  }

  function Insert(e: Entry, s: seq<Entry>): seq<Entry> {
    if s == [] || !StrLess(e.name, s[|s| - 1].name) then s + [e]
    else Insert(e, s[..|s| - 1]) + [s[|s| - 1]]
  }

  function Ordered(es: seq<Entry>): seq<Entry> {
    if es == [] then [] else Insert(es[|es| - 1], Ordered(es[..|es| - 1]))
  }

  /** The entries of a directory as they are archived. */
  function Arranged(es: seq<Entry>): seq<Entry> {
    Ordered(Filtered(es))
  }

  ghost predicate InOrder(s: seq<Entry>) {
    forall i, j :: 0 <= i < j < |s| ==> !StrLess(s[j].name, s[i].name)
  }

  lemma {:induction false} InsertCounts(e: Entry, s: seq<Entry>)
    ensures multiset(Insert(e, s)) == multiset(s) + multiset{e}
  {
    if s != [] {
      var n := |s| - 1;
      assert s == s[..n] + [s[n]];
      if StrLess(e.name, s[n].name) {
        InsertCounts(e, s[..n]);
      }
    }
  }

  /** Nothing in s comes after last. */
  ghost predicate Below(s: seq<Entry>, last: Entry) {
    forall i :: 0 <= i < |s| ==> !StrLess(last.name, s[i].name)
  }

  lemma {:induction false} InsertBelow(e: Entry, s: seq<Entry>, last: Entry)
    requires Below(s, last) && !StrLess(last.name, e.name)
    ensures Below(Insert(e, s), last)
  {
    if s != [] && StrLess(e.name, s[|s| - 1].name) {
      InsertBelow(e, s[..|s| - 1], last);
    }
  }

  lemma InOrderMore(s: seq<Entry>, last: Entry)
    requires InOrder(s) && Below(s, last)
    ensures InOrder(s + [last])
  {
  }

  lemma {:induction false} InsertKeeps(e: Entry, s: seq<Entry>)
    requires InOrder(s)
    ensures InOrder(Insert(e, s))
  {
    if s != [] {
      var n := |s| - 1;
      var last := s[n];
      if StrLess(e.name, last.name) {
        InsertKeeps(e, s[..n]);
        StrLessTotal(e.name, last.name);
        InsertBelow(e, s[..n], last);
        InOrderMore(Insert(e, s[..n]), last);
      } else {
        AllBelow(s, last, e);
        InOrderMore(s, e);
      }
    }
  }

  lemma AllBelow(s: seq<Entry>, last: Entry, e: Entry)
    requires s != [] && InOrder(s) && last == s[|s| - 1] && !StrLess(e.name, last.name)
    ensures Below(s, e)
  {
    forall i | 0 <= i < |s| - 1
      ensures !StrLess(e.name, s[i].name)
    {
      NotLessTrans(s[i].name, last.name, e.name);
    }
  }

  lemma {:induction false} OrderedSorts(es: seq<Entry>)
    ensures InOrder(Ordered(es)) && multiset(Ordered(es)) == multiset(es)
  {
    if es != [] {
      var n := |es| - 1;
      OrderedSorts(es[..n]);
      InsertKeeps(es[n], Ordered(es[..n]));
      InsertCounts(es[n], Ordered(es[..n]));
      CountLast(es);
    }
  }

  lemma CountLast(es: seq<Entry>)
    requires es != []
    ensures multiset(es) == multiset(es[..|es| - 1]) + multiset{es[|es| - 1]}
  {
    assert es == es[..|es| - 1] + [es[|es| - 1]];
  }

  lemma CountMore(es: seq<Entry>, last: Entry, e: Entry)
    ensures multiset(es + [last])[e] == multiset(es)[e] + (if e == last then 1 else 0)
  {
  }

  lemma {:induction false} FilteredKeeps(es: seq<Entry>, e: Entry)
    ensures multiset(Filtered(es))[e] == if Kept(e) then multiset(es)[e] else 0
  {
    if es != [] {
      var n := |es| - 1;
      FilteredKeeps(es[..n], e);
      CountLast(es);
      CountMore(Filtered(es[..n]), es[n], e);
      assert Filtered(es[..n]) + [] == Filtered(es[..n]);
    }
  }

  /** Archiving order: exactly the kept entries, each as often as the directory lists it, in
      strcmp order. */
  lemma ArrangedIs(es: seq<Entry>)
    ensures InOrder(Arranged(es))
    ensures forall e :: multiset(Arranged(es))[e] == if Kept(e) then multiset(es)[e] else 0
  {
    OrderedSorts(Filtered(es));
    forall e
      ensures multiset(Arranged(es))[e] == if Kept(e) then multiset(es)[e] else 0
    {
      FilteredKeeps(es, e);
    }
  }

  // ---- size, for termination ---------------------------------------------------------------------

  function NodeSize(n: Node): nat {
    match n
    case Dir(_, es) => 1 + EntriesSize(es)
    case _ => 1
  }

  function EntriesSize(es: seq<Entry>): nat {
    if es == [] then 0 else EntriesSize(es[..|es| - 1]) + NodeSize(es[|es| - 1].node)
  }

  lemma {:induction false} InsertSize(e: Entry, s: seq<Entry>)
    ensures EntriesSize(Insert(e, s)) == EntriesSize(s) + NodeSize(e.node)
  {
    if s != [] && StrLess(e.name, s[|s| - 1].name) {
      InsertSize(e, s[..|s| - 1]);
      var t := Insert(e, s[..|s| - 1]);
      assert (t + [s[|s| - 1]])[..|t|] == t;
    } else {
      assert (s + [e])[..|s|] == s;
    }
  }

  lemma {:induction false} OrderedSize(es: seq<Entry>)
    ensures EntriesSize(Ordered(es)) == EntriesSize(es)
  {
    if es != [] {
      OrderedSize(es[..|es| - 1]);
      InsertSize(es[|es| - 1], Ordered(es[..|es| - 1]));
    }
  }

  lemma {:induction false} FilteredSize(es: seq<Entry>)
    ensures EntriesSize(Filtered(es)) <= EntriesSize(es)
  {
    if es != [] {
      var n := |es| - 1;
      FilteredSize(es[..n]);
      var t := Filtered(es[..n]);
      assert (t + [es[n]])[..|t|] == t;
      assert t + [] == t;
    }
  }

  lemma ArrangedSize(es: seq<Entry>)
    ensures EntriesSize(Arranged(es)) <= EntriesSize(es)
  {
    FilteredSize(es);
    OrderedSize(Filtered(es));
  }

  // ---- listing --------------------------------------------------------------------------------------

  datatype Record = Record(path: seq<u8>, mode: u32, data: seq<u8>)

  type Fix = (seq<u8>, u32) -> u32

  function Child(path: seq<u8>, name: seq<u8>): seq<u8> {
    if path == [] then name else path + [0x2f] + name
  }

  /** `unsigned datasize` keeps the low 32 bits of a file's size. */
  function FileData(d: seq<u8>): seq<u8> {
    d[..|d| % 0x1_0000_0000]
  }

  /** readlink reads at most 1024 bytes. */
  function LinkData(t: seq<u8>): seq<u8> {
    if |t| <= 1024 then t else t[..1024]
  }

  /** The records of a node and everything below it, in pre-order. */
  function ListNode(n: Node, path: seq<u8>, fix: Fix): seq<Record>
    decreases NodeSize(n), 0
  {
    match n
    case File(m, d) => [Record(path, fix(path, m), FileData(d))]
    case Link(m, t) => [Record(path, fix(path, m), LinkData(t))]
    case Dir(m, es) => ArrangedSize(es); [Record(path, fix(path, m), [])] + ListEntries(Arranged(es), path, fix)
    case Other(_) => []
  }

  function ListEntries(es: seq<Entry>, path: seq<u8>, fix: Fix): seq<Record>
    decreases EntriesSize(es), |es| + 1
  {
    if es == [] then []
    else
      var n := |es| - 1;
      ListEntries(es[..n], path, fix) + ListNode(es[n].node, Child(path, es[n].name), fix)
  }

  /** No kept node is a device, pipe or socket. */
  predicate Archivable(n: Node)
    decreases NodeSize(n), 0
  {
    match n
    case File(_, _) => true
    case Link(_, _) => true
    case Dir(_, es) => ArrangedSize(es); AllArchivable(Arranged(es))
    case Other(_) => false
  }

  predicate AllArchivable(es: seq<Entry>)
    decreases EntriesSize(es), |es| + 1
  {
    es == [] || (AllArchivable(es[..|es| - 1]) && Archivable(es[|es| - 1].node))
  }

  /** The longest path below a node, beyond the node's own. */
  function Reach(n: Node): nat
    decreases NodeSize(n), 0
  {
    match n
    case Dir(_, es) => ArrangedSize(es); ReachAll(Arranged(es))
    case _ => 0
  }

  function ReachAll(es: seq<Entry>): nat
    decreases EntriesSize(es), |es| + 1
  {
    if es == [] then 0
    else
      var n := |es| - 1;
      var a, b := ReachAll(es[..n]), 1 + |es[n].name| + Reach(es[n].node);
      if a < b then b else a
  }

  // ---- what the listing holds -----------------------------------------------------------------------

  /** Names that are left out: those that begin with a dot, and "root". No name is empty. */
  predicate Skipped(name: seq<u8>) {
    name == [] || name[0] == 0x2e || name == [0x72, 0x6f, 0x6f, 0x74]
  }

  /** The names, those of the entries at the given positions, lead from the entries of a directory
      to node n, past nothing that is left out. */
  ghost predicate LeadsAt(es: seq<Entry>, at: seq<nat>, names: seq<seq<u8>>, n: Node)
    decreases |at|, 0
  {
    && at != [] && names != [] && at[0] < |es| && es[at[0]].name == names[0] && !Skipped(names[0])
    && LeadsFrom(es[at[0]].node, at[1..], names[1..], n)
  }

  ghost predicate LeadsFrom(m: Node, at: seq<nat>, names: seq<seq<u8>>, n: Node)
    decreases |at|, 1
  {
    if at == [] then names == [] && m == n else m.Dir? && LeadsAt(m.entries, at, names, n)
  }

  ghost predicate Leads(es: seq<Entry>, names: seq<seq<u8>>, n: Node) {
    exists at: seq<nat> :: LeadsAt(es, at, names, n)
  }

  function Slashed(names: seq<seq<u8>>): seq<u8> {
    if names == [] then [] else [0x2f] + names[0] + Slashed(names[1..])
  }

  /** The names behind a prefix, with slashes between them. */
  function PathOf(prefix: seq<u8>, names: seq<seq<u8>>): seq<u8> {
    if prefix != [] then prefix + Slashed(names)
    else if names == [] then []
    else names[0] + Slashed(names[1..])
  }

  /** What the record of a node carries: all of a file below 4 GiB, all of a link up to 1024 bytes,
      nothing of a directory. */
  function Carried(n: Node): seq<u8> {
    match n
    case File(_, data) => if |data| < 0x1_0000_0000 then data else data[..|data| % 0x1_0000_0000]
    case Link(_, target) => if |target| <= 1024 then target else target[..1024]
    case _ => []
  }

  function RecordFor(n: Node, path: seq<u8>, fix: Fix): Record {
    Record(path, fix(path, n.mode), Carried(n))
  }

  /** The record r is that of the node n that the names lead to. */
  ghost predicate RecordOf(r: Record, prefix: seq<u8>, names: seq<seq<u8>>, n: Node, fix: Fix) {
    !n.Other? && r == RecordFor(n, PathOf(prefix, names), fix)
  }

  lemma PathStep(prefix: seq<u8>, name: seq<u8>, rest: seq<seq<u8>>)
    requires name != []
    ensures PathOf(prefix, [name] + rest) == PathOf(Child(prefix, name), rest) && Child(prefix, name) != []
  {
    var names := [name] + rest;
    assert names[1..] == rest;
    assert Slashed(names) == [0x2f] + name + Slashed(rest);
  }

  lemma OwnRecord(n: Node, path: seq<u8>, fix: Fix, l: seq<Record>) returns (r: Record)
    requires !n.Other? && path != [] && l == ListNode(n, path, fix)
    ensures l != [] && l[0] == r && RecordOf(r, path, [], n, fix)
  {
    OwnPath(path);
    r := l[0];
    if n.File? {
      WholeFile(n.data);
    }
  }

  lemma OwnPath(path: seq<u8>)
    ensures PathOf(path, []) == path
  {
    assert path + [] == path;
  }

  lemma WholeFile(data: seq<u8>)
    ensures FileData(data) == if |data| < 0x1_0000_0000 then data else data[..|data| % 0x1_0000_0000]
  {
    if |data| < 0x1_0000_0000 {
      assert data[..|data|] == data;
    }
  }

  lemma ArrangedHas(es: seq<Entry>, e: Entry)
    ensures e in Arranged(es) <==> e in es && !Skipped(e.name)
  {
    ArrangedIs(es);
    assert multiset(Arranged(es))[e] == if Kept(e) then multiset(es)[e] else 0;
    assert e in Arranged(es) <==> multiset(Arranged(es))[e] > 0;
    assert e in es <==> multiset(es)[e] > 0;
  }

  type Lister = Entry -> seq<Record>

  ghost function ConcatMap(f: Lister, es: seq<Entry>): seq<Record> {
    if es == [] then [] else ConcatMap(f, es[..|es| - 1]) + f(es[|es| - 1])
  }

  /** Where a record of the k-th entry stands in the whole. */
  lemma {:induction false} MapAt(f: Lister, es: seq<Entry>, k: nat, h: nat) returns (p: nat)
    requires k < |es| && h < |f(es[k])|
    ensures p == |ConcatMap(f, es[..k])| + h < |ConcatMap(f, es)| && ConcatMap(f, es)[p] == f(es[k])[h]
  {
    var n := |es| - 1;
    p := |ConcatMap(f, es[..k])| + h;
    if k < n {
      p := MapAt(f, es[..n], k, h);
      assert es[..n][..k] == es[..k];
    }
  }

  /** Which entry a record of the whole belongs to. */
  lemma {:induction false} MapOf(f: Lister, es: seq<Entry>, i: nat) returns (k: nat, h: nat)
    requires i < |ConcatMap(f, es)|
    ensures k < |es| && h < |f(es[k])| && i == |ConcatMap(f, es[..k])| + h
  {
    var n := |es| - 1;
    var c := ConcatMap(f, es[..n]);
    if i < |c| {
      k, h := MapOf(f, es[..n], i);
      assert es[..n][..k] == es[..k];
    } else {
      k, h := n, i - |c|;
    }
  }

  lemma MapFound(f: Lister, es: seq<Entry>, l: seq<Record>, i: nat, r: Record) returns (k: nat, e: Entry, h: nat, b: seq<Record>)
    requires l == ConcatMap(f, es) && i < |l| && l[i] == r
    ensures k < |es| && e == es[k] && b == f(e) && h < |b| && b[h] == r && i == |ConcatMap(f, es[..k])| + h
  {
    k, h := MapOf(f, es, i);
    var p := MapAt(f, es, k, h);
    e := es[k];
    b := f(e);
  }

  /** The listing entry by entry. */
  lemma {:induction false} ListIsMap(es: seq<Entry>, path: seq<u8>, fix: Fix, f: Lister)
    requires forall e: Entry :: f(e) == ListNode(e.node, Child(path, e.name), fix)
    ensures ListEntries(es, path, fix) == ConcatMap(f, es)
  {
    if es != [] {
      ListIsMap(es[..|es| - 1], path, fix, f);
    }
  }

  /** f lists the entries of a directory one by one, and l is all of it. */
  ghost predicate Lists(f: Lister, es: seq<Entry>, l: seq<Record>) {
    l == ConcatMap(f, es)
  }

  lemma ListerOf(es: seq<Entry>, path: seq<u8>, fix: Fix, l: seq<Record>) returns (f: Lister)
    requires l == ListEntries(es, path, fix)
    ensures Lists(f, es, l) && forall e: Entry :: f(e) == ListNode(e.node, Child(path, e.name), fix)
  {
    f := (e: Entry) => ListNode(e.node, Child(path, e.name), fix);
    ListIsMap(es, path, fix, f);
  }

  lemma ExtendRecord(r: Record, prefix: seq<u8>, name: seq<u8>, rest: seq<seq<u8>>, names: seq<seq<u8>>, n: Node, fix: Fix)
    requires name != [] && names == [name] + rest && RecordOf(r, Child(prefix, name), rest, n, fix)
    ensures RecordOf(r, prefix, names, n, fix)
  {
    PathStep(prefix, name, rest);
  }

  lemma ExtendLeads(es: seq<Entry>, e: Entry, k: nat, rest: seq<nat>, tail: seq<seq<u8>>, at: seq<nat>, names: seq<seq<u8>>, n: Node)
    requires k < |es| && es[k] == e && !Skipped(e.name) && LeadsFrom(e.node, rest, tail, n)
    requires at == [k] + rest && names == [e.name] + tail
    ensures LeadsAt(es, at, names, n)
  {
    assert at[1..] == rest && names[1..] == tail;
  }

  /** Everything the names lead to is in the listing l, with its own path, mode and contents. */
  lemma {:induction false} Listed(es: seq<Entry>, prefix: seq<u8>, at: seq<nat>, names: seq<seq<u8>>, n: Node, fix: Fix, l: seq<Record>)
    returns (i: nat, r: Record)
    requires LeadsAt(es, at, names, n) && !n.Other? && l == ListEntries(Arranged(es), prefix, fix)
    ensures i < |l| && l[i] == r && RecordOf(r, prefix, names, n, fix)
    decreases |at|, 0
  {
    var e, rest, kept := es[at[0]], names[1..], Arranged(es);
    ArrangedHas(es, e);
    var k :| 0 <= k < |kept| && kept[k] == e;
    PathStep(prefix, e.name, rest);
    var f := ListerOf(kept, prefix, fix, l);
    i, r := ListedFrom(e.node, Child(prefix, e.name), at[1..], rest, n, fix, f(e));
    assert names == [e.name] + rest;
    ExtendRecord(r, prefix, e.name, rest, names, n, fix);
    i := MapAt(f, kept, k, i);
  }

  lemma {:induction false} ListedFrom(m: Node, path: seq<u8>, at: seq<nat>, names: seq<seq<u8>>, n: Node, fix: Fix, l: seq<Record>)
    returns (i: nat, r: Record)
    requires LeadsFrom(m, at, names, n) && !n.Other? && path != [] && l == ListNode(m, path, fix)
    ensures i < |l| && l[i] == r && RecordOf(r, path, names, n, fix)
    decreases |at|, 2
  {
    if at == [] {
      r := OwnRecord(n, path, fix, l);
      i := 0;
    } else {
      var x, t := DirTail(m, path, fix, l);
      i, r := ListedBelow(m.entries, path, at, names, n, fix, l, x, t);
    }
  }

  lemma {:induction false} ListedBelow(es: seq<Entry>, path: seq<u8>, at: seq<nat>, names: seq<seq<u8>>, n: Node, fix: Fix,
                                       l: seq<Record>, x: Record, t: seq<Record>)
    returns (i: nat, r: Record)
    requires LeadsAt(es, at, names, n) && !n.Other? && t == ListEntries(Arranged(es), path, fix) && l == [x] + t
    ensures i < |l| && l[i] == r && RecordOf(r, path, names, n, fix)
    decreases |at|, 1
  {
    i, r := Listed(es, path, at, names, n, fix, t);
    Behind(l, x, t, i, r);
    i := 1 + i;
  }

  lemma Behind(l: seq<Record>, x: Record, t: seq<Record>, i: nat, r: Record)
    requires l == [x] + t && i < |t| && t[i] == r
    ensures 1 + i < |l| && l[1 + i] == r
  {
  }

  /** The listing of a directory: its own record and those of its entries. */
  lemma DirTail(m: Node, path: seq<u8>, fix: Fix, l: seq<Record>) returns (x: Record, t: seq<Record>)
    requires m.Dir? && l == ListNode(m, path, fix)
    ensures t == ListEntries(Arranged(m.entries), path, fix) && l == [x] + t && x.path == path && x.data == []
    ensures |l| == 1 + |t| && l[0] == x
  {
    x, t := Record(path, fix(path, m.mode), []), ListEntries(Arranged(m.entries), path, fix);
  }

  lemma OneRecord(m: Node, path: seq<u8>, fix: Fix, l: seq<Record>)
    requires l == ListNode(m, path, fix)
    ensures !m.Dir? ==> |l| <= 1
    ensures m.Other? ==> l == []
  {
  }

  /** In the terms of a single file: its bytes are in the archive under its path. */
  lemma FileListed(es: seq<Entry>, prefix: seq<u8>, names: seq<seq<u8>>, n: Node, fix: Fix)
    requires Leads(es, names, n)
    ensures var p, l := PathOf(prefix, names), ListEntries(Arranged(es), prefix, fix);
      && (n.File? && |n.data| < 0x1_0000_0000 ==> Record(p, fix(p, n.mode), n.data) in l)
      && (n.Link? && |n.target| <= 1024 ==> Record(p, fix(p, n.mode), n.target) in l)
      && (n.Dir? ==> Record(p, fix(p, n.mode), []) in l)
  {
    if !n.Other? {
      var at: seq<nat> :| LeadsAt(es, at, names, n);
      var i, r := Listed(es, prefix, at, names, n, fix, ListEntries(Arranged(es), prefix, fix));
    }
  }

  /** The record of the directory that the names but the last lead to. */
  ghost predicate ParentOf(r: Record, prefix: seq<u8>, names: seq<seq<u8>>)
    requires names != []
  {
    r.path == PathOf(prefix, names[..|names| - 1]) && r.data == []
  }

  lemma ExtendParent(r: Record, prefix: seq<u8>, name: seq<u8>, rest: seq<seq<u8>>, names: seq<seq<u8>>)
    requires name != [] && rest != [] && names == [name] + rest && ParentOf(r, Child(prefix, name), rest)
    ensures ParentOf(r, prefix, names)
  {
    var init := rest[..|rest| - 1];
    PathStep(prefix, name, init);
    assert names[..|rest|] == [name] + init;
  }

  /** The entry a record belongs to, with the listing of that entry. */
  lemma Located(es: seq<Entry>, prefix: seq<u8>, fix: Fix, l: seq<Record>, i: nat, r: Record)
    returns (f: Lister, k: nat, e: Entry, h: nat, b: seq<Record>)
    requires l == ListEntries(Arranged(es), prefix, fix) && i < |l| && l[i] == r
    ensures Lists(f, Arranged(es), l) && k < |Arranged(es)| && e == Arranged(es)[k] && b == f(e)
    ensures b == ListNode(e.node, Child(prefix, e.name), fix)
    ensures h < |b| && b[h] == r && i == |ConcatMap(f, Arranged(es)[..k])| + h
  {
    f := ListerOf(Arranged(es), prefix, fix, l);
    k, e, h, b := MapFound(f, Arranged(es), l, i, r);
  }

  lemma EntryFound(es: seq<Entry>, k: nat, e: Entry) returns (q: nat)
    requires k < |Arranged(es)| && e == Arranged(es)[k]
    ensures q < |es| && es[q] == e && !Skipped(e.name) && NodeSize(e.node) <= EntriesSize(es)
  {
    ArrangedHas(es, e);
    q :| 0 <= q < |es| && es[q] == e;
    ArrangedSize(es);
    NodeSmaller(Arranged(es), k);
  }

  /** Every record of the listing l comes from such a node, and the record of its directory stands
      before it. */
  lemma {:induction false} Origin(es: seq<Entry>, prefix: seq<u8>, fix: Fix, l: seq<Record>, i: nat, r: Record)
    returns (at: seq<nat>, names: seq<seq<u8>>, n: Node, j: nat, d: Record)
    requires l == ListEntries(Arranged(es), prefix, fix) && i < |l| && l[i] == r
    ensures LeadsAt(es, at, names, n) && RecordOf(r, prefix, names, n, fix)
    ensures |names| > 1 ==> j < i && l[j] == d && ParentOf(d, prefix, names)
    decreases EntriesSize(es), 2
  {
    var f, k, e, h, b := Located(es, prefix, fix, l, i, r);
    var q := EntryFound(es, k, e);
    PathStep(prefix, e.name, []);
    var rest, below;
    below, rest, n, j, d := OriginFrom(e.node, Child(prefix, e.name), fix, b, h, r);
    at, names := [q] + below, [e.name] + rest;
    ExtendLeads(es, e, q, below, rest, at, names, n);
    ExtendRecord(r, prefix, e.name, rest, names, n, fix);
    if rest != [] {
      ExtendParent(d, prefix, e.name, rest, names);
      j := MapAt(f, Arranged(es), k, j);
    }
  }

  lemma {:induction false} OriginFrom(m: Node, path: seq<u8>, fix: Fix, l: seq<Record>, i: nat, r: Record)
    returns (at: seq<nat>, names: seq<seq<u8>>, n: Node, j: nat, d: Record)
    requires l == ListNode(m, path, fix) && i < |l| && l[i] == r && path != []
    ensures LeadsFrom(m, at, names, n) && RecordOf(r, path, names, n, fix)
    ensures names != [] ==> j < i && l[j] == d && ParentOf(d, path, names)
    decreases NodeSize(m), 0
  {
    OneRecord(m, path, fix, l);
    if i == 0 {
      at, names, n, j, d := [], [], m, 0, r;
      var own := OwnRecord(m, path, fix, l);
    } else {
      var x, t := DirTail(m, path, fix, l);
      SizeBelow(m);
      at, names, n, j, d := OriginBelow(m.entries, path, fix, l, x, t, i, r);
    }
  }

  lemma SizeBelow(m: Node)
    requires m.Dir?
    ensures EntriesSize(m.entries) < NodeSize(m)
  {
  }

  lemma {:induction false} OriginBelow(es: seq<Entry>, path: seq<u8>, fix: Fix, l: seq<Record>, x: Record, t: seq<Record>, i: nat, r: Record)
    returns (at: seq<nat>, names: seq<seq<u8>>, n: Node, j: nat, d: Record)
    requires t == ListEntries(Arranged(es), path, fix) && path != []
    requires l == [x] + t && x.path == path && x.data == [] && 0 < i < |l| && l[i] == r
    ensures LeadsAt(es, at, names, n) && RecordOf(r, path, names, n, fix)
    ensures j < i && l[j] == d && ParentOf(d, path, names)
    decreases EntriesSize(es), 3
  {
    Ahead(l, x, t, i, r);
    at, names, n, j, d := Origin(es, path, fix, t, i - 1, r);
    j, d := ParentAmong(l, x, t, i, path, names, j, d);
  }

  lemma Ahead(l: seq<Record>, x: Record, t: seq<Record>, i: nat, r: Record)
    requires l == [x] + t && 0 < i < |l| && l[i] == r
    ensures i - 1 < |t| && t[i - 1] == r
  {
  }

  lemma ParentAmong(l: seq<Record>, x: Record, t: seq<Record>, i: nat, path: seq<u8>, names: seq<seq<u8>>, j: nat, d: Record)
    returns (k: nat, p: Record)
    requires l == [x] + t && x.path == path && x.data == [] && 0 < i < |l| && path != [] && names != []
    requires |names| > 1 ==> j < i - 1 && t[j] == d && ParentOf(d, path, names)
    ensures k < i && l[k] == p && ParentOf(p, path, names)
  {
    if |names| > 1 {
      Behind(l, x, t, j, d);
      k, p := j + 1, d;
    } else {
      ParentItself(x, path, names);
      k, p := 0, x;
    }
  }

  lemma ParentItself(r: Record, path: seq<u8>, names: seq<seq<u8>>)
    requires |names| == 1 && path != [] && r.path == path && r.data == []
    ensures ParentOf(r, path, names)
  {
    assert names[..0] == [];
    assert path + [] == path;
  }

  lemma {:induction false} NodeSmaller(es: seq<Entry>, k: nat)
    requires k < |es|
    ensures NodeSize(es[k].node) <= EntriesSize(es)
  {
    if k < |es| - 1 {
      NodeSmaller(es[..|es| - 1], k);
    }
  }
}
