/** mkbootfs: archiving directory trees with path buffers edited in place. */
module Mkbootfs {
  import opened Words
  import opened Modular
  import opened FileTree
  import opened Newc

  const BUFFER: nat := 8192

  /** A C string of length n at the start of a buffer. */
  ghost predicate Str(s: seq<u8>, n: nat) {
    n < |s| && s[n] == 0 && forall i :: 0 <= i < n ==> s[i] != 0
  }

  method StrLen(s: array<u8>, ghost n: nat) returns (len: nat)
    requires Str(s[..], n)
    ensures len == n
  {
    len := 0;
    while s[len] != 0
      invariant 0 <= len <= n
      decreases n - len
    {
      len := len + 1;
    }
  }

  /** A small path is one that fits the buffers. */
  lemma SmallRecord(path: seq<u8>, mode: u32, data: seq<u8>)
    requires |path| < BUFFER && |data| < 0x1_0000_0000
    ensures Small(Record(path, mode, data))
  {
  }

  /** A name for the archive of a list of records, so that proofs need not look inside it. */
  type Format = seq<Record> -> seq<u8>

  type Faithful = f: Format | forall rs: seq<Record> {:trigger Written(rs)} :: AllSmall(rs) ==> f(rs) == Written(rs)
    witness rs => if AllSmall(rs) then Written(rs) else []

  class Archiver {
    // fix_stat, an arbitrary function of path and mode.
    const fix: Fix
    // What has been written to standard output.
    var output: seq<u8>
    // The static counters; total_size is an int, of which these are the bits.
    var total: u32
    var inode: u32

    ghost const format: Faithful
    ghost var records: seq<Record>

    ghost predicate Valid()
      reads this
    {
      && AllSmall(records) && output == format(records)
      && total == Wrapped(|output|) && inode == Inode(|records|)
    }

    constructor (fix: Fix)
      ensures Valid() && records == [] && this.fix == fix
    {
      this.fix := fix;
      format := rs => if AllSmall(rs) then Written(rs) else [];
      output, total, inode, records := [], 0, FIRST_INODE, [];
      new;
      assert Written([]) == [];
    }

    /** `while (total_size & (unit - 1)) putchar(0)`. The wrap-around of total_size leaves the
        bits it looks at alone. */
    method PadTo(unit: nat)
      requires total == Wrapped(|output|) && (unit == 4 || unit == 256)
      modifies this`output, this`total
      ensures total == Wrapped(|output|) && output == PaddedTo(old(output), unit)
    {
      ghost var n, k := |output|, 0;
      ghost var g := Gap(n, unit);
      GapIs(n, unit, 0);
      LowBits(n, unit);
      while total % unit != 0
        invariant 0 <= k <= g && |output| == n + k && output == old(output) + Zeros(k)
        invariant total == Wrapped(n + k) && (total % unit == 0 <==> k == g)
        decreases g - k
      {
        output := output + [0];
        WrappedSum(n + k, 1);
        total := Wrapped(total + 1);
        k := k + 1;
        GapIs(n, unit, k);
        LowBits(n + k, unit);
      }
    }

    /** printf or fwrite of n bytes, and `total_size += n`. */
    method Put(b: seq<u8>, n: nat)
      requires total == Wrapped(|output|) && n == |b|
      modifies this`output, this`total
      ensures total == Wrapped(|output|) && output == old(output) + b
    {
      WrappedSum(|output|, n);
      output := output + b;
      total := Wrapped(total + n);
    }

    /** _eject. Its check that strlen(out) is olen never fails. */
    method Eject(mode: u32, out: array<u8>, olen: nat, data: seq<u8>)
      requires Valid() && Str(out[..], olen) && olen < BUFFER && |data| < 0x1_0000_0000
      modifies this
      ensures Valid() && records == old(records) + [Record(out[..olen], fix(out[..olen], mode), data)]
    {
      var path := out[..olen];
      var r := Record(path, fix(path, mode), data);
      SmallRecord(path, r.mode, data);
      NextInode(|records|);
      EjectRecord(r);
      inode := (inode + 1) % 0x1_0000_0000;
      var len := StrLen(out, olen);
      assert len == olen;
    }

    /** The bytes of _eject: padding, header and name, padding, data. */
    method EjectRecord(r: Record)
      requires Valid() && Small(r)
      modifies this`output, this`total, this`records
      ensures AllSmall(records) && output == format(records) && total == Wrapped(|output|)
      ensures records == old(records) + [r]
    {
      assert output == Written(records);
      PadTo(4);
      Put(Head(inode, r), 6 + 8 * 13 + |r.path| + 1);
      PadTo(4);
      if |r.data| != 0 {
        Put(r.data, |r.data|);
      }
      WrittenMore(records, r);
      records := records + [r];
    }
  }

  function Wrapped(n: nat): u32 {
    n % 0x1_0000_0000
  }

  lemma WrappedSum(n: nat, k: nat)
    ensures Wrapped(Wrapped(n) + k) == Wrapped(n + k)
  {
    var q := n / 0x1_0000_0000;
    CongIntro(Wrapped(n) + k, n + k, 0x1_0000_0000, -q);
    CongMod(Wrapped(n) + k, n + k, 0x1_0000_0000);
  }

  lemma LowBits(n: nat, unit: nat)
    requires unit == 4 || unit == 256
    ensures Wrapped(n) % unit == n % unit
  {
    if unit == 4 {
      ModMod(n, 4, 0x4000_0000);
    } else {
      ModMod(n, 256, 0x100_0000);
    }
  }

  lemma GapIs(n: nat, unit: nat, k: nat)
    requires unit > 0 && k <= Gap(n, unit)
    ensures (n + k) % unit == 0 <==> k == Gap(n, unit)
  {
    var q, r := n / unit, n % unit;
    assert n == q * unit + r;
    if r == 0 {
      assert k == 0;
    } else if k == unit - r {
      assert n + k == (q + 1) * unit;
      DivModUnique(q + 1, 0, unit, n + k);
    } else {
      assert n + k == q * unit + (r + k);
      DivModUnique(q, r + k, unit, n + k);
    }
  }

  lemma WrittenMore(rs: seq<Record>, r: Record)
    requires AllSmall(rs) && Small(r)
    ensures AllSmall(rs + [r]) && Written(rs + [r]) == Entered(Written(rs), Inode(|rs|), r)
  {
    AllSmallMore(rs, r);
    var t := rs + [r];
    assert t[..|rs|] == rs && t[|rs|] == r;
  }

  lemma AllSmallMore(rs: seq<Record>, r: Record)
    requires AllSmall(rs) && Small(r)
    ensures AllSmall(rs + [r])
  {
  }

  lemma NextInode(k: nat)
    ensures Inode(k + 1) == (Inode(k) + 1) % 0x1_0000_0000
  {
  }

  // ---- the walk -------------------------------------------------------------------------------------

  /** memcpy(s + at, name, t + 1): a name and its NUL. */
  method CopyName(s: array<u8>, at: nat, name: Name)
    requires at + |name| < s.Length
    modifies s
    ensures s[..at] == old(s[..at]) && s[at..at + |name|] == name && s[at + |name|] == 0
    ensures forall k :: at + |name| < k < s.Length ==> s[k] == old(s[k])
  {
    for i := 0 to |name|
      invariant s[..at] == old(s[..at]) && s[at..at + i] == name[..i]
      invariant forall k :: at + i <= k < s.Length ==> s[k] == old(s[k])
    {
      s[at + i] := name[i];
      assert s[at..at + i + 1] == s[at..at + i] + [name[i]];
    }
    s[at + |name|] := 0;
    assert name[..|name|] == name;
  }

  /** The path of an entry, built behind that of its directory; an empty path takes no slash. */
  method Extend(s: array<u8>, n: nat, name: Name, slash: bool) returns (m: nat)
    requires Str(s[..], n) && n + 1 + |name| < s.Length && (slash || n == 0)
    modifies s
    ensures m == n + |name| + (if slash then 1 else 0) && Str(s[..], m)
    ensures s[..n] == old(s[..n])
    ensures s[..m] == old(s[..n]) + (if slash then [0x2f] else []) + name
  {
    ghost var p := s[..n];
    if slash {
      s[n] := 0x2f;
      CopyName(s, n + 1, name);
      m := n + 1 + |name|;
      assert s[..n + 1] == p + [0x2f];
      assert s[..m] == s[..n + 1] + s[n + 1..m];
    } else {
      CopyName(s, 0, name);
      m := |name|;
      assert s[..m] == s[0..m];
    }
    assert s[..n] == s[..m][..n];
    forall i | 0 <= i < m
      ensures s[i] != 0
    {
      assert s[i] == s[..m][i];
    }
  }

  /** `in[ilen] = 0`: the buffer holds the directory's own path again. */
  method Restore(s: array<u8>, n: nat)
    requires n < s.Length && forall i :: 0 <= i < n ==> s[i] != 0
    modifies s
    ensures Str(s[..], n) && s[..n] == old(s[..n])
  {
    s[n] := 0;
  }

  /** The file system as lstat, opendir, read and readlink show it. */
  type FileSystem = seq<u8> -> Node

  /** n and everything archived below it is what the file system shows under path. */
  ghost predicate Mounted(fs: FileSystem, path: seq<u8>, n: Node)
    decreases NodeSize(n), 0
  {
    && fs(path) == n
    && (n.Dir? ==> (ArrangedSize(n.entries); MountedAll(fs, path, Arranged(n.entries))))
  }

  ghost predicate MountedAll(fs: FileSystem, path: seq<u8>, es: seq<Entry>)
    decreases EntriesSize(es), |es| + 1
  {
    es == [] || (MountedAll(fs, path, es[..|es| - 1]) && Mounted(fs, path + [0x2f] + es[|es| - 1].name, es[|es| - 1].node))
  }

  /** What the walk needs to know of entry i. */
  lemma {:induction false} EntryFacts(fs: FileSystem, path: seq<u8>, es: seq<Entry>, i: nat)
    requires i < |es|
    ensures NodeSize(es[i].node) <= EntriesSize(es)
    ensures 1 + |es[i].name| + Reach(es[i].node) <= ReachAll(es)
    ensures AllArchivable(es) ==> Archivable(es[i].node)
    ensures MountedAll(fs, path, es) ==> Mounted(fs, path + [0x2f] + es[i].name, es[i].node)
  {
    if i < |es| - 1 {
      EntryFacts(fs, path, es[..|es| - 1], i);
    }
  }

  /** The first i names can be archived, and rs are their records. */
  ghost predicate Archived(names: seq<Entry>, i: nat, path: seq<u8>, fix: Fix, rs: seq<Record>) {
    i <= |names| && AllArchivable(names[..i]) && rs == ListEntries(names[..i], path, fix)
  }

  lemma ArchivedNext(names: seq<Entry>, i: nat, path: seq<u8>, fix: Fix, rs: seq<Record>, listed: seq<Record>, more: seq<Record>)
    requires i < |names| && Archived(names, i, path, fix, listed) && Archivable(names[i].node)
    requires more == ListNode(names[i].node, Child(path, names[i].name), fix)
    ensures Archived(names, i + 1, path, fix, listed + more)
    ensures rs + listed + more == rs + (listed + more)
  {
    ListNext(names, i, path, fix);
  }

  lemma ListNext(es: seq<Entry>, i: nat, path: seq<u8>, fix: Fix)
    requires i < |es|
    ensures ListEntries(es[..i + 1], path, fix) == ListEntries(es[..i], path, fix) + ListNode(es[i].node, Child(path, es[i].name), fix)
    ensures AllArchivable(es[..i + 1]) <==> AllArchivable(es[..i]) && Archivable(es[i].node)
  {
    assert es[..i + 1][..i] == es[..i];
  }

  /** The readdir loop. */
  method Collect(entries: seq<Entry>) returns (names: seq<Entry>)
    ensures names == Filtered(entries)
  {
    names := [];
    for i := 0 to |entries|
      invariant names == Filtered(entries[..i])
    {
      assert entries[..i + 1][..i] == entries[..i];
      if entries[i].name[0] == 0x2e || entries[i].name == ROOT {
        continue;
      }
      names := names + [entries[i]];
    }
    assert entries[..|entries|] == entries;
  }

  /** The two path buffers hold paths of length ilen and olen. */
  ghost predicate Paths(input: array<u8>, out: array<u8>, ilen: nat, olen: nat, reach: nat)
    reads input, out
  {
    && input != out && Str(input[..], ilen) && Str(out[..], olen)
    && out.Length == BUFFER && ilen + reach < input.Length && olen + reach < BUFFER
  }

  /** The loop of _archive_dir over the sorted names. */
  method ArchiveNames(a: Archiver, fs: FileSystem, input: array<u8>, out: array<u8>, ilen: nat, olen: nat, names: seq<Entry>)
    returns (ok: bool)
    requires a.Valid() && Paths(input, out, ilen, olen, ReachAll(names)) && MountedAll(fs, input[..ilen], names)
    modifies a, input, out
    ensures ok <==> AllArchivable(names)
    ensures a.Valid()
    ensures ok ==> a.records == old(a.records) + ListEntries(names, old(out[..olen]), a.fix)
    ensures ok ==> Str(input[..], ilen) && input[..ilen] == old(input[..ilen])
    ensures ok ==> Str(out[..], olen) && out[..olen] == old(out[..olen])
    decreases EntriesSize(names), 2
  {
    ghost var ipath, opath, rs := input[..ilen], out[..olen], a.records;
    ghost var listed: seq<Record> := [];
    ok := true;
    for i := 0 to |names|
      invariant ok && a.Valid() && Paths(input, out, ilen, olen, ReachAll(names))
      invariant input[..ilen] == ipath && out[..olen] == opath
      invariant a.records == rs + listed && Archived(names, i, opath, a.fix, listed)
    {
      ok := Visit(a, fs, input, out, ilen, olen, names, i);
      if !ok {
        EntryFacts(fs, ipath, names, i);
        return;
      }
      ghost var more := ListNode(names[i].node, Child(opath, names[i].name), a.fix);
      ArchivedNext(names, i, opath, a.fix, rs, listed, more);
      listed := listed + more;
    }
    assert names[..|names|] == names;
  }

  /** _archive_dir: the entries in order, each with its own path; the buffers end as they began.
      It fails only on a node that is no file, directory or link. */
  method ArchiveDir(a: Archiver, fs: FileSystem, input: array<u8>, out: array<u8>, ilen: nat, olen: nat, ghost es: seq<Entry>)
    returns (ok: bool)
    requires a.Valid() && Paths(input, out, ilen, olen, ReachAll(Arranged(es)))
    requires fs(input[..ilen]).Dir? && fs(input[..ilen]).entries == es && MountedAll(fs, input[..ilen], Arranged(es))
    modifies a, input, out
    ensures ok <==> AllArchivable(Arranged(es))
    ensures a.Valid()
    ensures ok ==> a.records == old(a.records) + ListEntries(Arranged(es), old(out[..olen]), a.fix)
    ensures ok ==> Str(input[..], ilen) && input[..ilen] == old(input[..ilen])
    ensures ok ==> Str(out[..], olen) && out[..olen] == old(out[..olen])
    decreases EntriesSize(es), 3
  {
    var names := Collect(fs(input[..ilen]).entries);
    names := Ordered(names);
    ArrangedSize(es);
    ok := ArchiveNames(a, fs, input, out, ilen, olen, names);
  }

  /** One entry of a directory: its paths are built, used and taken away again. */
  method Visit(a: Archiver, fs: FileSystem, input: array<u8>, out: array<u8>, ilen: nat, olen: nat, names: seq<Entry>, i: nat)
    returns (ok: bool)
    requires a.Valid() && Paths(input, out, ilen, olen, ReachAll(names)) && MountedAll(fs, input[..ilen], names)
    requires i < |names|
    modifies a, input, out
    ensures ok <==> Archivable(names[i].node)
    ensures a.Valid()
    ensures ok ==> a.records == old(a.records) + ListNode(names[i].node, Child(old(out[..olen]), names[i].name), a.fix)
    ensures ok ==> Paths(input, out, ilen, olen, ReachAll(names)) && input[..ilen] == old(input[..ilen]) && out[..olen] == old(out[..olen])
    decreases EntriesSize(names), 1
  {
    var name := names[i].name;
    EntryFacts(fs, input[..ilen], names, i);
    var in2 := Extend(input, ilen, name, true);
    var out2 := Extend(out, olen, name, olen > 0);
    ghost var ipath, opath := input[..in2], out[..out2];
    ok := Archive(a, fs, input, out, in2, out2, names[i].node);
    if ok {
      assert input[..ilen] == ipath[..ilen] && out[..olen] == opath[..olen];
      Restore(input, ilen);
      Restore(out, olen);
    }
  }

  lemma DirListed(mode: u32, es: seq<Entry>, path: seq<u8>, fix: Fix, rs: seq<Record>)
    ensures rs + [Record(path, fix(path, mode), [])] + ListEntries(Arranged(es), path, fix) == rs + ListNode(Dir(mode, es), path, fix)
    ensures Archivable(Dir(mode, es)) <==> AllArchivable(Arranged(es))
    ensures Reach(Dir(mode, es)) == ReachAll(Arranged(es))
    ensures NodeSize(Dir(mode, es)) == EntriesSize(es) + 1
  {
    Regroup(rs, [Record(path, fix(path, mode), [])], ListEntries(Arranged(es), path, fix));
  }

  lemma Regroup(a: seq<Record>, b: seq<Record>, c: seq<Record>)
    ensures a + b + c == a + (b + c)
  {
  }

  /** _archive. */
  method Archive(a: Archiver, fs: FileSystem, input: array<u8>, out: array<u8>, ilen: nat, olen: nat, ghost node: Node)
    returns (ok: bool)
    requires a.Valid() && Paths(input, out, ilen, olen, Reach(node)) && Mounted(fs, input[..ilen], node)
    modifies a, input, out
    ensures ok <==> Archivable(node)
    ensures a.Valid()
    ensures ok ==> a.records == old(a.records) + ListNode(node, old(out[..olen]), a.fix)
    ensures ok ==> Str(input[..], ilen) && input[..ilen] == old(input[..ilen])
    ensures ok ==> Str(out[..], olen) && out[..olen] == old(out[..olen])
    decreases NodeSize(node), 0
  {
    var n := fs(input[..ilen]);
    match n
    case Dir(mode, es) =>
      DirListed(mode, es, out[..olen], a.fix, a.records);
      a.Eject(mode, out, olen, []);
      ok := ArchiveDir(a, fs, input, out, ilen, olen, es);
    case _ =>
      ok := ArchiveLeaf(a, out, olen, n);
  }

  /** The branches of _archive that have nothing below them. */
  method ArchiveLeaf(a: Archiver, out: array<u8>, olen: nat, n: Node) returns (ok: bool)
    requires a.Valid() && Str(out[..], olen) && olen < BUFFER && !n.Dir?
    modifies a
    ensures ok <==> Archivable(n)
    ensures a.Valid()
    ensures ok ==> a.records == old(a.records) + ListNode(n, out[..olen], a.fix)
  {
    match n
    case File(mode, data) =>
      a.Eject(mode, out, olen, FileData(data));
      ok := true;
    case Link(mode, target) =>
      a.Eject(mode, out, olen, LinkData(target));
      ok := true;
    case Other(_) =>
      ok := false;
  }

  // ---- main ------------------------------------------------------------------------------------------

  /** `start=prefix` on the command line. */
  datatype Job = Job(start: CString, prefix: CString)

  /** The paths below start, if it is a directory, fit the buffers. */
  ghost predicate Runnable(fs: FileSystem, j: Job) {
    && |j.start| < BUFFER && |j.prefix| < BUFFER
    && (fs(j.start).Dir? ==>
          && MountedAll(fs, j.start, Arranged(fs(j.start).entries))
          && |j.start| + ReachAll(Arranged(fs(j.start).entries)) < BUFFER
          && |j.prefix| + ReachAll(Arranged(fs(j.start).entries)) < BUFFER)
  }

  predicate JobArchivable(fs: FileSystem, j: Job) {
    fs(j.start).Dir? && AllArchivable(Arranged(fs(j.start).entries))
  }

  function JobListing(fs: FileSystem, j: Job, fix: Fix): seq<Record>
  {
    if fs(j.start).Dir? then ListEntries(Arranged(fs(j.start).entries), j.prefix, fix) else []
  }

  function Listing(fs: FileSystem, jobs: seq<Job>, fix: Fix): seq<Record> {
    if jobs == [] then [] else Listing(fs, jobs[..|jobs| - 1], fix) + JobListing(fs, jobs[|jobs| - 1], fix)
  }

  /** strcpy into a fresh buffer. */
  method Buffer(s: CString) returns (b: array<u8>)
    requires |s| < BUFFER
    ensures fresh(b) && b.Length == BUFFER && Str(b[..], |s|) && b[..|s|] == s
  {
    b := new u8[BUFFER](i => if 0 <= i < |s| then s[i] else 0);
  }

  /** archive. */
  method ArchiveJob(a: Archiver, fs: FileSystem, j: Job) returns (ok: bool)
    requires a.Valid() && Runnable(fs, j)
    modifies a
    ensures ok <==> JobArchivable(fs, j)
    ensures a.Valid()
    ensures ok ==> a.records == old(a.records) + JobListing(fs, j, a.fix)
  {
    var input := Buffer(j.start);
    var out := Buffer(j.prefix);
    ok := fs(j.start).Dir?;
    if ok {
      ok := ArchiveDir(a, fs, input, out, |j.start|, |j.prefix|, fs(j.start).entries);
    }
  }

  /** The trailer's record; its mode too goes through fix_stat. */
  function TrailerRecord(fix: Fix): Record {
    Record(TRAILER, fix(TRAILER, 0), [])
  }

  lemma BeginsPadded(w: seq<u8>, unit: nat)
    requires unit > 0
    ensures Begins(PaddedTo(w, unit), w)
  {
  }

  /** _eject_trailer: the last entry, and zeros up to a multiple of 256. */
  method EjectTrailer(a: Archiver)
    requires a.Valid()
    modifies a
    ensures a.total == Wrapped(|a.output|) && |a.output| % 256 == 0
    ensures a.records == old(a.records) + [TrailerRecord(a.fix)] && AllSmall(a.records)
    ensures Begins(a.output, Written(a.records))
  {
    var name := Buffer(TRAILER);
    a.Eject(0, name, 10, []);
    ghost var w := a.output;
    a.PadTo(256);
    GapIs(|w|, 256, Gap(|w|, 256));
    BeginsPadded(w, 256);
    assert w == Written(a.records);
  }

  /** main dies without directories. For every list of them the archive's length is a multiple of
      256, and a newc reader recovers from it the pre-order listing of the directories, up
      to the first path that is called like the trailer. */
  method MakeArchive(fs: FileSystem, fix: Fix, jobs: seq<Job>) returns (ok: bool, output: seq<u8>)
    requires forall i :: 0 <= i < |jobs| ==> Runnable(fs, jobs[i])
    ensures ok <==> jobs != [] && forall i :: 0 <= i < |jobs| ==> JobArchivable(fs, jobs[i])
    ensures ok ==> |output| % 256 == 0
    ensures ok ==> ReadArchive(output) == Some(BeforeTrailer(Listing(fs, jobs, fix) + [TrailerRecord(fix)]))
  {
    output := [];
    if jobs == [] {
      return false, output;
    }
    var a := new Archiver(fix);
    AllJobsAt(fs, jobs);
    ok := ArchiveAll(a, fs, jobs);
    if ok {
      EjectTrailer(a);
      output := a.output;
      ArchiveReads(a.records, output);
    }
  }

  predicate AllJobs(fs: FileSystem, jobs: seq<Job>) {
    jobs == [] || (AllJobs(fs, jobs[..|jobs| - 1]) && JobArchivable(fs, jobs[|jobs| - 1]))
  }

  lemma {:induction false} AllJobsHave(fs: FileSystem, jobs: seq<Job>, k: nat)
    requires AllJobs(fs, jobs) && k < |jobs|
    ensures JobArchivable(fs, jobs[k])
  {
    if k < |jobs| - 1 {
      AllJobsHave(fs, jobs[..|jobs| - 1], k);
    }
  }

  lemma {:induction false} AllJobsFrom(fs: FileSystem, jobs: seq<Job>)
    requires forall i :: 0 <= i < |jobs| ==> JobArchivable(fs, jobs[i])
    ensures AllJobs(fs, jobs)
  {
    if jobs != [] {
      AllJobsFrom(fs, jobs[..|jobs| - 1]);
    }
  }

  lemma AllJobsAt(fs: FileSystem, jobs: seq<Job>)
    ensures AllJobs(fs, jobs) <==> forall i :: 0 <= i < |jobs| ==> JobArchivable(fs, jobs[i])
  {
    if AllJobs(fs, jobs) {
      forall i | 0 <= i < |jobs|
        ensures JobArchivable(fs, jobs[i])
      {
        AllJobsHave(fs, jobs, i);
      }
    } else if forall i :: 0 <= i < |jobs| ==> JobArchivable(fs, jobs[i]) {
      AllJobsFrom(fs, jobs);
    }
  }

  /** The arguments one by one; the first that cannot be archived ends the run. */
  method ArchiveAll(a: Archiver, fs: FileSystem, jobs: seq<Job>) returns (ok: bool)
    requires a.Valid() && a.records == [] && forall i :: 0 <= i < |jobs| ==> Runnable(fs, jobs[i])
    modifies a
    ensures ok <==> AllJobs(fs, jobs)
    ensures ok ==> a.Valid() && a.records == Listing(fs, jobs, a.fix)
  {
    ok := true;
    for k := 0 to |jobs|
      invariant ok && a.Valid()
      invariant Listed(fs, jobs, k, a.fix, a.records)
    {
      ghost var rs := a.records;
      ok := ArchiveJob(a, fs, jobs[k]);
      if !ok {
        if AllJobs(fs, jobs) {
          AllJobsHave(fs, jobs, k);
        }
        return;
      }
      ListedNext(fs, jobs, k, a.fix, rs);
    }
    assert jobs[..|jobs|] == jobs;
  }

  ghost predicate Listed(fs: FileSystem, jobs: seq<Job>, k: nat, fix: Fix, rs: seq<Record>) {
    k <= |jobs| && AllJobs(fs, jobs[..k]) && rs == Listing(fs, jobs[..k], fix)
  }

  lemma ListedNext(fs: FileSystem, jobs: seq<Job>, k: nat, fix: Fix, rs: seq<Record>)
    requires k < |jobs| && Listed(fs, jobs, k, fix, rs) && JobArchivable(fs, jobs[k])
    ensures Listed(fs, jobs, k + 1, fix, rs + JobListing(fs, jobs[k], fix))
  {
    assert jobs[..k + 1][..k] == jobs[..k];
  }

  /** The reader recovers every record exactly when no path is the trailer's name. */
  lemma RecoversAll(rs: seq<Record>, fix: Fix)
    ensures BeforeTrailer(rs + [TrailerRecord(fix)]) == rs <==> forall i :: 0 <= i < |rs| ==> rs[i].path != TRAILER
  {
    if i :| 0 <= i < |rs| && rs[i].path == TRAILER {
      BeforeTrailerShort(rs, TrailerRecord(fix), i);
    } else {
      BeforeTrailerAll(rs, TrailerRecord(fix));
    }
  }

  // ---- what an archive holds ----------------------------------------------------------------------------

  lemma InEither(a: seq<Record>, b: seq<Record>, r: Record)
    ensures r in a + b <==> r in a || r in b
  {
  }

  lemma ListingSplits(fs: FileSystem, jobs: seq<Job>, fix: Fix, r: Record)
    requires jobs != []
    ensures r in Listing(fs, jobs, fix) <==> r in Listing(fs, jobs[..|jobs| - 1], fix) || r in JobListing(fs, jobs[|jobs| - 1], fix)
  {
    InEither(Listing(fs, jobs[..|jobs| - 1], fix), JobListing(fs, jobs[|jobs| - 1], fix), r);
  }

  lemma {:induction false} JobIn(fs: FileSystem, jobs: seq<Job>, fix: Fix, q: nat, j: Job, r: Record)
    requires q < |jobs| && jobs[q] == j && r in JobListing(fs, j, fix)
    ensures r in Listing(fs, jobs, fix)
  {
    ListingSplits(fs, jobs, fix, r);
    if q < |jobs| - 1 {
      JobIn(fs, jobs[..|jobs| - 1], fix, q, j, r);
    }
  }

  lemma {:induction false} JobOf(fs: FileSystem, jobs: seq<Job>, fix: Fix, r: Record) returns (q: nat)
    requires r in Listing(fs, jobs, fix)
    ensures q < |jobs| && r in JobListing(fs, jobs[q], fix)
  {
    var n := |jobs| - 1;
    ListingSplits(fs, jobs, fix, r);
    if r in JobListing(fs, jobs[n], fix) {
      q := n;
    } else {
      q := JobOf(fs, jobs[..n], fix, r);
    }
  }

  /** Every file below 4 GiB, link up to 1024 bytes and directory that kept names lead to is in the
      archive, under the prefix of its tree, with its own mode and contents. */
  lemma FileArchived(fs: FileSystem, jobs: seq<Job>, fix: Fix, q: nat, names: seq<seq<u8>>, n: Node)
    requires q < |jobs| && fs(jobs[q].start).Dir? && Leads(fs(jobs[q].start).entries, names, n)
    ensures var p, l := PathOf(jobs[q].prefix, names), Listing(fs, jobs, fix);
      && (n.File? && |n.data| < 0x1_0000_0000 ==> Record(p, fix(p, n.mode), n.data) in l)
      && (n.Link? && |n.target| <= 1024 ==> Record(p, fix(p, n.mode), n.target) in l)
      && (n.Dir? ==> Record(p, fix(p, n.mode), []) in l)
  {
    var p := PathOf(jobs[q].prefix, names);
    FileListed(fs(jobs[q].start).entries, jobs[q].prefix, names, n, fix);
    if n.File? && |n.data| < 0x1_0000_0000 {
      JobIn(fs, jobs, fix, q, jobs[q], Record(p, fix(p, n.mode), n.data));
    } else if n.Link? && |n.target| <= 1024 {
      JobIn(fs, jobs, fix, q, jobs[q], Record(p, fix(p, n.mode), n.target));
    } else if n.Dir? {
      JobIn(fs, jobs, fix, q, jobs[q], Record(p, fix(p, n.mode), []));
    }
  }

  /** Nothing else is in the archive. */
  lemma RecordOrigin(fs: FileSystem, jobs: seq<Job>, fix: Fix, r: Record) returns (q: nat, names: seq<seq<u8>>, n: Node)
    requires r in Listing(fs, jobs, fix)
    ensures q < |jobs| && fs(jobs[q].start).Dir? && Leads(fs(jobs[q].start).entries, names, n)
    ensures RecordOf(r, jobs[q].prefix, names, n, fix)
  {
    q := JobOf(fs, jobs, fix, r);
    var l := JobListing(fs, jobs[q], fix);
    var i :| 0 <= i < |l| && l[i] == r;
    var at, j, d;
    at, names, n, j, d := Origin(fs(jobs[q].start).entries, jobs[q].prefix, fix, l, i, r);
  }
}
