/** The "newc" cpio format: what mkbootfs writes for a list of records, and a reader for it. */
module Newc {
  import opened Words
  import opened FileTree

  // ---- hexadecimal ----------------------------------------------------------------------------------

  function HexDigit(d: nat): u8
    requires d < 16
  {
    if d < 10 then 0x30 + d else 0x57 + d
  }

  /** `%0nx`, for a number of at most n digits. */
  function Hex(x: nat, n: nat): (s: seq<u8>)
    ensures |s| == n
  {
    if n == 0 then [] else Hex(x / 16, n - 1) + [HexDigit(x % 16)]
  }

  function DigitValue(c: u8): int {
    if 0x30 <= c <= 0x39 then c - 0x30 else if 0x61 <= c <= 0x66 then c - 0x57 else -1
  }

  predicate IsHex(s: seq<u8>) {
    forall i :: 0 <= i < |s| ==> DigitValue(s[i]) >= 0
  }

  function FromHex(s: seq<u8>): nat
    requires IsHex(s)
  {
    if s == [] then 0 else 16 * FromHex(s[..|s| - 1]) + DigitValue(s[|s| - 1])
  }

  function Power16(n: nat): (p: nat)
    ensures p > 0
  {
    if n == 0 then 1 else 16 * Power16(n - 1)
  }

  lemma {:induction false} HexRoundTrip(x: nat, n: nat)
    requires x < Power16(n)
    ensures IsHex(Hex(x, n)) && FromHex(Hex(x, n)) == x
  {
    if n > 0 {
      HexRoundTrip(x / 16, n - 1);
      var s := Hex(x / 16, n - 1);
      assert (s + [HexDigit(x % 16)])[..n - 1] == s;
    }
  }

  lemma EightDigits(n: nat)
    requires n == 8
    ensures Power16(n) == 0x1_0000_0000
  {
    assert Power16(n - 7) == 16 * Power16(n - 8) && Power16(n - 6) == 16 * Power16(n - 7);
    assert Power16(n - 5) == 16 * Power16(n - 6) && Power16(n - 4) == 16 * Power16(n - 5);
    assert Power16(n - 3) == 16 * Power16(n - 4) && Power16(n - 2) == 16 * Power16(n - 3);
    assert Power16(n - 1) == 16 * Power16(n - 2) && Power16(n) == 16 * Power16(n - 1);
  }

  // ---- one entry -------------------------------------------------------------------------------------

  const MAGIC: seq<u8> := [0x30, 0x37, 0x30, 0x37, 0x30, 0x31]
  const TRAILER: seq<u8> := [0x54, 0x52, 0x41, 0x49, 0x4c, 0x45, 0x52, 0x21, 0x21, 0x21]
  const FIRST_INODE: nat := 300000

  /** The thirteen numbers of a header. */
  function Fields(inode: u32, r: Record): (f: seq<u32>)
    requires |r.data| < 0x1_0000_0000 && |r.path| < 0x1_0000_0000 - 1
    ensures |f| == 13
  {
    [inode, r.mode, 0, 0, 1, 0, |r.data|, 0, 0, 0, 0, |r.path| + 1, 0]
  }

  function HexAll(f: seq<u32>): (s: seq<u8>)
    ensures |s| == 8 * |f|
  {
    if f == [] then [] else HexAll(f[..|f| - 1]) + Hex(f[|f| - 1], 8)
  }

  predicate Small(r: Record) {
    |r.data| < 0x1_0000_0000 && |r.path| < 0x1_0000_0000 - 1
  }

  function Gap(n: nat, unit: nat): (g: nat)
    requires unit > 0
    ensures g < unit
  {
    if n % unit == 0 then 0 else unit - n % unit
  }

  function Head(inode: u32, r: Record): (s: seq<u8>)
    requires Small(r)
    ensures |s| == 110 + |r.path| + 1
  {
    MAGIC + HexAll(Fields(inode, r)) + r.path + [0]
  }

  /** s padded to a multiple of unit. */
  function PaddedTo(s: seq<u8>, unit: nat): (t: seq<u8>)
    requires unit > 0
    ensures |t| == |s| + Gap(|s|, unit)
  {
    s + Zeros(Gap(|s|, unit))
  }

  /** An archive up to and including the padding behind a name. */
  function Opened(s: seq<u8>, inode: u32, r: Record): (t: seq<u8>)
    requires Small(r)
  {
    PaddedTo(PaddedTo(s, 4) + Head(inode, r), 4)
  }

  /** An archive s with one more entry. */
  function Entered(s: seq<u8>, inode: u32, r: Record): (t: seq<u8>)
    requires Small(r)
  {
    Opened(s, inode, r) + r.data
  }

  predicate AllSmall(rs: seq<Record>) {
    forall i :: 0 <= i < |rs| ==> Small(rs[i])
  }

  function Inode(k: nat): u32 {
    (FIRST_INODE + k) % 0x1_0000_0000
  }

  /** The archive of a list of records, before the final padding. */
  function Written(rs: seq<Record>): seq<u8>
    requires AllSmall(rs)
  {
    if rs == [] then []
    else
      var n := |rs| - 1;
      Entered(Written(rs[..n]), Inode(n), rs[n])
  }

  // ---- the reader --------------------------------------------------------------------------------------

  datatype Option<T> = None | Some(value: T)

  /** Number k of the header at p. */
  function ReadField(s: seq<u8>, p: nat, k: nat): Option<nat>
    requires k < 13 && p + 110 <= |s|
  {
    var d := s[p + 6 + 8 * k..p + 14 + 8 * k];
    if IsHex(d) then Some(FromHex(d)) else None
  }

  datatype Step = Step(record: Record, next: nat)

  /** The entry at or after n: a header on the next multiple of four, a name, and the data. */
  function ReadEntry(s: seq<u8>, n: nat): (r: Option<Step>)
    ensures r.Some? ==> n < r.value.next <= |s|
  {
    var p := n + Gap(n, 4);
    if p + 110 > |s| || s[p..p + 6] != MAGIC then None
    else
      var mode, size, name := ReadField(s, p, 1), ReadField(s, p, 6), ReadField(s, p, 11);
      if mode.None? || size.None? || name.None? || mode.value >= 0x1_0000_0000 || name.value == 0 then None
      else
        var e := p + 110 + name.value;
        var d := e + Gap(e, 4);
        if d + size.value > |s| || s[e - 1] != 0 then None
        else Some(Step(Record(s[p + 110..e - 1], mode.value, s[d..d + size.value]), d + size.value))
  }

  type Reader = (seq<u8>, nat) -> Option<Step>

  /** The records up to the trailer, read entry by entry. */
  function ReadWith(read: Reader, s: seq<u8>, n: nat): Option<seq<Record>>
    requires n <= |s|
    decreases |s| - n
  {
    match read(s, n)
    case None => None
    case Some(step) =>
      if step.next <= n || step.next > |s| then None
      else if step.record.path == TRAILER then Some([])
      else match ReadWith(read, s, step.next)
        case None => None
        case Some(rest) => Some([step.record] + rest)
  }

  function ReadArchive(s: seq<u8>): Option<seq<Record>> {
    ReadWith(ReadEntry, s, 0)
  }

  // ---- round trip ---------------------------------------------------------------------------------------

  lemma SubSlice(s: seq<u8>, a: nat, b: nat, c: nat, d: nat)
    requires a <= b <= |s| && c <= d <= b - a
    ensures s[a..b][c..d] == s[a + c..a + d]
  {
    var x, y := s[a..b][c..d], s[a + c..a + d];
    assert |x| == |y| && forall i :: 0 <= i < |x| ==> x[i] == s[a + c + i] == y[i];
  }

  lemma Appended(s: seq<u8>, v: seq<u8>, b: seq<u8>)
    requires |v| + |b| <= |s| && s[..|v| + |b|] == v + b
    ensures s[|v|..|v| + |b|] == b
  {
    SubSlice(s, 0, |v| + |b|, |v|, |v| + |b|);
  }

  lemma Middle(x: seq<u8>, y: seq<u8>, z: seq<u8>)
    ensures (x + y + z)[..|x|] == x
    ensures (x + y + z)[|x|..|x| + |y|] == y
    ensures (x + y + z)[|x| + |y|..] == z
  {
  }

  lemma {:induction false} HexAllAt(f: seq<u32>, k: nat)
    requires k < |f|
    ensures HexAll(f)[8 * k..8 * k + 8] == Hex(f[k], 8)
  {
    var n := |f| - 1;
    var a, b := HexAll(f[..n]), Hex(f[n], 8);
    assert HexAll(f) == a + b;
    if k < n {
      HexAllAt(f[..n], k);
      assert (a + b)[8 * k..8 * k + 8] == a[8 * k..8 * k + 8];
    } else {
      assert (a + b)[8 * k..8 * k + 8] == b;
    }
  }

  /** Reading number k back from the header. */
  lemma FieldReads(s: seq<u8>, p: nat, f: seq<u32>, k: nat)
    requires k < 13 == |f| && p + 110 <= |s| && s[p + 6..p + 110] == HexAll(f)
    ensures ReadField(s, p, k) == Some(f[k])
  {
    HexAllAt(f, k);
    SubSlice(s, p + 6, p + 110, 8 * k, 8 * k + 8);
    assert p + 6 + (8 * k + 8) == p + 14 + 8 * k;
    var eight := 8;
    EightDigits(eight);
    HexRoundTrip(f[k], eight);
  }

  lemma HeadParts(inode: u32, r: Record)
    requires Small(r)
    ensures var h := Head(inode, r);
      h[..6] == MAGIC && h[6..110] == HexAll(Fields(inode, r)) && h[110..110 + |r.path|] == r.path && h[110 + |r.path|] == 0
  {
    var m, f := MAGIC, HexAll(Fields(inode, r));
    Middle(m, f, r.path + [0]);
    assert Head(inode, r) == m + f + (r.path + [0]);
    Middle(m + f, r.path, [0]);
  }

  /** Where the reader finds the parts of a head that lies at p. */
  lemma HeadReads(s: seq<u8>, p: nat, inode: u32, r: Record)
    requires Small(r) && p + |Head(inode, r)| <= |s| && s[p..p + |Head(inode, r)|] == Head(inode, r)
    ensures s[p..p + 6] == MAGIC && s[p + 6..p + 110] == HexAll(Fields(inode, r))
    ensures s[p + 110..p + 110 + |r.path|] == r.path && s[p + 110 + |r.path|] == 0
  {
    HeadParts(inode, r);
    HeadSlices(s, p, Head(inode, r), |r.path|);
  }

  lemma HeadSlices(s: seq<u8>, p: nat, h: seq<u8>, n: nat)
    requires |h| == 111 + n && p + |h| <= |s| && s[p..p + |h|] == h
    ensures s[p..p + 6] == h[..6] && s[p + 6..p + 110] == h[6..110]
    ensures s[p + 110..p + 110 + n] == h[110..110 + n] && s[p + 110 + n] == h[110 + n]
  {
    SubSlice(s, p, p + |h|, 0, 6);
    SubSlice(s, p, p + |h|, 6, 110);
    SubSlice(s, p, p + |h|, 110, 110 + n);
    assert s[p..p + |h|][110 + n] == s[p + 110 + n];
  }

  /** The start of a file up to a prefix of an archive that begins it. */
  ghost predicate Begins(file: seq<u8>, s: seq<u8>) {
    |s| <= |file| && file[..|s|] == s
  }

  lemma BeginsLess(file: seq<u8>, s: seq<u8>, t: seq<u8>)
    requires Begins(file, s + t)
    ensures Begins(file, s) && file[|s|..|s| + |t|] == t
  {
    Appended(file, s, t);
    assert file[..|s|] == file[..|s| + |t|][..|s|];
  }

  /** Where the data of an entry begin whose header is at p. */
  function DataStart(p: nat, r: Record): nat {
    var e := p + 110 + |r.path| + 1;
    e + Gap(e, 4)
  }

  /** The parts of an entry, each where the reader looks for it. */
  lemma EntryParts(file: seq<u8>, s: seq<u8>, inode: u32, r: Record, p: nat)
    requires Small(r) && Begins(file, Entered(s, inode, r)) && p == |s| + Gap(|s|, 4)
    ensures |Entered(s, inode, r)| == DataStart(p, r) + |r.data| <= |file|
    ensures file[p..p + |Head(inode, r)|] == Head(inode, r)
    ensures file[DataStart(p, r)..DataStart(p, r) + |r.data|] == r.data
  {
    var a := PaddedTo(s, 4);
    var b := a + Head(inode, r);
    BeginsLess(file, Opened(s, inode, r), r.data);
    BeginsLess(file, b, Zeros(Gap(|b|, 4)));
    BeginsLess(file, a, Head(inode, r));
  }

  /** The reader finds exactly the entry that was written. */
  lemma EntryReads(file: seq<u8>, s: seq<u8>, inode: u32, r: Record)
    requires Small(r) && Begins(file, Entered(s, inode, r))
    ensures |s| < |Entered(s, inode, r)| && ReadEntry(file, |s|) == Some(Step(r, |Entered(s, inode, r)|))
  {
    var p := EntryThere(file, s, inode, r);
    EntryRead(file, |s|, p, r);
  }

  /** What the reader needs to find of record r with its header at p. */
  ghost predicate There(s: seq<u8>, p: nat, r: Record) {
    && p + 110 <= |s| && s[p..p + 6] == MAGIC
    && ReadField(s, p, 1) == Some(r.mode) && ReadField(s, p, 6) == Some(|r.data|) && ReadField(s, p, 11) == Some(|r.path| + 1)
    && DataStart(p, r) + |r.data| <= |s|
    && s[p + 110..p + 110 + |r.path|] == r.path && s[p + 110 + |r.path|] == 0
    && s[DataStart(p, r)..DataStart(p, r) + |r.data|] == r.data
  }

  lemma EntryThere(file: seq<u8>, s: seq<u8>, inode: u32, r: Record) returns (p: nat)
    requires Small(r) && Begins(file, Entered(s, inode, r))
    ensures p == |s| + Gap(|s|, 4) && There(file, p, r) && |Entered(s, inode, r)| == DataStart(p, r) + |r.data|
  {
    p := |s| + Gap(|s|, 4);
    EntryParts(file, s, inode, r, p);
    HeadReads(file, p, inode, r);
    NumbersRead(file, p, inode, r);
  }

  /** The three numbers of a header that the reader uses. */
  lemma NumbersRead(file: seq<u8>, p: nat, inode: u32, r: Record)
    requires Small(r) && p + 110 <= |file| && file[p + 6..p + 110] == HexAll(Fields(inode, r))
    ensures ReadField(file, p, 1) == Some(r.mode) && ReadField(file, p, 6) == Some(|r.data|)
    ensures ReadField(file, p, 11) == Some(|r.path| + 1)
  {
    var f := Fields(inode, r);
    FieldReads(file, p, f, 1);
    FieldReads(file, p, f, 6);
    FieldReads(file, p, f, 11);
  }

  /** ReadEntry on a header whose numbers and parts are known. */
  lemma EntryRead(s: seq<u8>, n: nat, p: nat, r: Record)
    requires p == n + Gap(n, 4) && There(s, p, r)
    ensures ReadEntry(s, n) == Some(Step(r, DataStart(p, r) + |r.data|))
  {
  }

  // ---- the bytes of a header -----------------------------------------------------------------------------

  const DIGITS := "0123456789abcdef"

  /** s is x in base sixteen. */
  predicate IsInHex(s: seq<u8>, x: nat) {
    forall i :: 0 <= i < |s| ==> s[i] == DIGITS[Nibble(x, |s| - 1 - i)] as int
  }

  /** Digit j of x in base sixteen, from the lowest. */
  function Nibble(x: nat, j: nat): (d: nat)
    ensures d < 16
  {
    if j == 0 then x % 16 else Nibble(x / 16, j - 1)
  }

  lemma {:induction false} HexNibble(x: nat, n: nat, j: nat)
    requires j < n
    ensures Hex(x, n)[n - 1 - j] == DIGITS[Nibble(x, j)] as int
  {
    if j > 0 {
      HexNibble(x / 16, n - 1, j - 1);
    }
  }

  lemma HexDigits(x: nat, n: nat)
    ensures IsInHex(Hex(x, n), x)
  {
    var s := Hex(x, n);
    forall i | 0 <= i < |s|
      ensures s[i] == DIGITS[Nibble(x, |s| - 1 - i)] as int
    {
      HexNibble(x, n, n - 1 - i);
    }
  }

  /** The numbers of the header, in the order of the format: inode, mode, uid, gid, links, time, size of
      the data, four device numbers, size of the name with its NUL, and the unused check. */
  ghost function HeaderNumbers(inode: u32, r: Record): (f: seq<nat>)
    ensures |f| == 13
  {
    [inode, r.mode] + [0, 0] + [1] + [0] + [|r.data|] + [0, 0, 0, 0] + [|r.path| + 1] + [0]
  }

  /** The header at p is the magic number and thirteen numbers of eight digits. */
  ghost predicate HeaderAt(s: seq<u8>, p: nat, nums: seq<nat>)
    requires p + 110 <= |s| && |nums| == 13
  {
    && s[p..p + 6] == [0x30, 0x37, 0x30, 0x37, 0x30, 0x31]
    && forall k :: 0 <= k < 13 ==> IsInHex(s[p + 6 + 8 * k..p + 14 + 8 * k], nums[k])
  }

  lemma HeaderBytes(s: seq<u8>, p: nat, inode: u32, r: Record)
    requires Small(r) && p + 110 <= |s| && s[p..p + 6] == MAGIC && s[p + 6..p + 110] == HexAll(Fields(inode, r))
    ensures HeaderAt(s, p, HeaderNumbers(inode, r))
  {
    var f := Fields(inode, r);
    assert f == HeaderNumbers(inode, r);
    forall k: nat | k < 13
      ensures IsInHex(s[p + 6 + 8 * k..p + 14 + 8 * k], f[k])
    {
      FieldDigits(s, p, f, k);
    }
  }

  lemma FieldDigits(s: seq<u8>, p: nat, f: seq<u32>, k: nat)
    requires k < 13 == |f| && p + 110 <= |s| && s[p + 6..p + 110] == HexAll(f)
    ensures IsInHex(s[p + 6 + 8 * k..p + 14 + 8 * k], f[k])
  {
    HexAllAt(f, k);
    SubSlice(s, p + 6, p + 110, 8 * k, 8 * k + 8);
    assert p + 6 + (8 * k + 8) == p + 14 + 8 * k;
    HexDigits(f[k], 8);
  }

  /** An entry's bytes: header and data lie on multiples of four, at most three bytes behind what
      comes before them. */
  lemma EntryLayout(file: seq<u8>, s: seq<u8>, inode: u32, r: Record) returns (p: nat, d: nat)
    requires Small(r) && Begins(file, Entered(s, inode, r))
    ensures p % 4 == d % 4 == 0 && |s| <= p < |s| + 4 && p + 110 + |r.path| < d <= p + 110 + |r.path| + 4
    ensures d + |r.data| == |Entered(s, inode, r)| <= |file| && HeaderAt(file, p, HeaderNumbers(inode, r))
    ensures file[p + 110..p + 110 + |r.path|] == r.path && file[p + 110 + |r.path|] == 0 && file[d..d + |r.data|] == r.data
  {
    p := |s| + Gap(|s|, 4);
    d := DataStart(p, r);
    LayoutAt(file, s, inode, r, p, d);
    GapFills(|s|);
    GapFills(p + 110 + |r.path| + 1);
  }

  lemma LayoutAt(file: seq<u8>, s: seq<u8>, inode: u32, r: Record, p: nat, d: nat)
    requires Small(r) && Begins(file, Entered(s, inode, r)) && p == |s| + Gap(|s|, 4) && d == DataStart(p, r)
    ensures p + 111 + |r.path| <= d && d + |r.data| == |Entered(s, inode, r)| <= |file|
    ensures HeaderAt(file, p, HeaderNumbers(inode, r))
    ensures file[p + 110..p + 110 + |r.path|] == r.path && file[p + 110 + |r.path|] == 0 && file[d..d + |r.data|] == r.data
  {
    EntryParts(file, s, inode, r, p);
    HeadReads(file, p, inode, r);
    HeaderBytes(file, p, inode, r);
  }

  lemma GapFills(n: nat)
    ensures (n + Gap(n, 4)) % 4 == 0
  {
  }

  // ---- whole archives --------------------------------------------------------------------------------

  lemma BeginsEntered(file: seq<u8>, s: seq<u8>, inode: u32, r: Record)
    requires Small(r) && Begins(file, Entered(s, inode, r))
    ensures Begins(file, s)
  {
    var a := PaddedTo(s, 4);
    var b := a + Head(inode, r);
    BeginsLess(file, Opened(s, inode, r), r.data);
    BeginsLess(file, b, Zeros(Gap(|b|, 4)));
    BeginsLess(file, a, Head(inode, r));
    BeginsLess(file, s, Zeros(Gap(|s|, 4)));
  }

  /** A file that begins with an archive begins with every part of it. */
  lemma {:induction false} BeginsPrefix(file: seq<u8>, rs: seq<Record>, k: nat)
    requires AllSmall(rs) && k <= |rs| && Begins(file, Written(rs))
    ensures Begins(file, Written(rs[..k]))
  {
    if k == |rs| {
      assert rs[..k] == rs;
    } else {
      var n := |rs| - 1;
      BeginsEntered(file, Written(rs[..n]), Inode(n), rs[n]);
      BeginsPrefix(file, rs[..n], k);
      assert rs[..n][..k] == rs[..k];
    }
  }

  /** The records before the first one that carries the trailer's name. */
  function BeforeTrailer(rs: seq<Record>): seq<Record> {
    if rs == [] || rs[0].path == TRAILER then [] else [rs[0]] + BeforeTrailer(rs[1..])
  }

  /** The reader takes r from n and moves on to next. */
  ghost predicate Takes(read: Reader, s: seq<u8>, r: Record, n: nat, next: nat) {
    n < next <= |s| && read(s, n) == Some(Step(r, next))
  }

  ghost predicate Links(read: Reader, s: seq<u8>, rs: seq<Record>, pos: seq<nat>, i: nat)
    requires i < |rs| && |pos| == |rs| + 1
  {
    Takes(read, s, rs[i], pos[i], pos[i + 1])
  }

  /** Reading from entry k on gives the records from k on, up to the trailer. */
  lemma {:induction false} ReadsFrom(read: Reader, s: seq<u8>, rs: seq<Record>, pos: seq<nat>, k: nat)
    requires k < |rs| && |pos| == |rs| + 1 && rs[|rs| - 1].path == TRAILER
    requires forall i :: 0 <= i < |rs| ==> Links(read, s, rs, pos, i)
    ensures pos[k] <= |s| && ReadWith(read, s, pos[k]) == Some(BeforeTrailer(rs[k..]))
    decreases |rs| - k
  {
    assert Links(read, s, rs, pos, k);
    if rs[k].path != TRAILER {
      ReadsFrom(read, s, rs, pos, k + 1);
      assert rs[k..][1..] == rs[k + 1..];
    }
  }

  /** Entry k of an archive is read where the first k entries end. */
  lemma EntryAt(rs: seq<Record>, s: seq<u8>, k: nat)
    requires AllSmall(rs) && k < |rs| && Begins(s, Written(rs))
    ensures Takes(ReadEntry, s, rs[k], |Written(rs[..k])|, |Written(rs[..k + 1])|)
  {
    BeginsPrefix(s, rs, k + 1);
    assert rs[..k + 1][..k] == rs[..k];
    EntryReads(s, Written(rs[..k]), Inode(k), rs[k]);
  }

  /** Where each entry of an archive begins, and where the last one ends. */
  ghost function Positions(rs: seq<Record>): (pos: seq<nat>)
    requires AllSmall(rs)
    ensures |pos| == |rs| + 1
  {
    seq(|rs| + 1, k requires 0 <= k <= |rs| => |Written(rs[..k])|)
  }

  lemma PositionLinks(read: Reader, rs: seq<Record>, s: seq<u8>, i: nat)
    requires AllSmall(rs) && i < |rs| && Takes(read, s, rs[i], |Written(rs[..i])|, |Written(rs[..i + 1])|)
    ensures Links(read, s, rs, Positions(rs), i)
  {
    assert Positions(rs)[i] == |Written(rs[..i])| && Positions(rs)[i + 1] == |Written(rs[..i + 1])|;
  }

  /** A reader recovers the records of an archive that ends in a trailer, whatever follows. */
  lemma ArchiveReads(rs: seq<Record>, s: seq<u8>)
    requires AllSmall(rs) && rs != [] && rs[|rs| - 1].path == TRAILER && Begins(s, Written(rs))
    ensures ReadArchive(s) == Some(BeforeTrailer(rs))
  {
    var pos := Positions(rs);
    forall i | 0 <= i < |rs|
      ensures Links(ReadEntry, s, rs, pos, i)
    {
      EntryAt(rs, s, i);
      PositionLinks(ReadEntry, rs, s, i);
    }
    assert pos[0] == 0 by {
      assert rs[..0] == [];
    }
    ReadsFrom(ReadEntry, s, rs, pos, 0);
    assert rs[0..] == rs;
  }

  lemma {:induction false} BeforeTrailerAll(rs: seq<Record>, t: Record)
    requires t.path == TRAILER && forall i :: 0 <= i < |rs| ==> rs[i].path != TRAILER
    ensures BeforeTrailer(rs + [t]) == rs
  {
    if rs != [] {
      assert (rs + [t])[1..] == rs[1..] + [t];
      BeforeTrailerAll(rs[1..], t);
    }
  }

  /** A record with the trailer's own name cuts the archive short, so the reader recovers every
      record exactly when there is none. */
  lemma {:induction false} BeforeTrailerShort(rs: seq<Record>, t: Record, i: nat)
    requires i < |rs| && rs[i].path == TRAILER
    ensures |BeforeTrailer(rs + [t])| <= i
  {
    if rs[0].path != TRAILER {
      assert (rs + [t])[1..] == rs[1..] + [t];
      BeforeTrailerShort(rs[1..], t, i - 1);
    }
  }
}
