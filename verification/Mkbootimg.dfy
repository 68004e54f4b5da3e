/** mkbootimg and unmkbootimg: a writer and a reader of boot images. */
module Mkbootimg {
  import opened Words
  import opened Modular
  import Fips180
  import opened BootImage
  import ShaStream
  import opened WordOps
  import opened Bits

  /** An option that names a file: left out, the word NONE (which only --ramdisk knows), or the
      contents of the file. */
  datatype Option = Absent | NoneWord | File(data: seq<u8>)

  function Data(o: Option): seq<u8> {
    if o.File? then o.data else []
  }

  /** The command line of mkbootimg. */
  datatype Params = Params(
    kernel: Option, ramdisk: Option, second: Option, cmdline: CString, board: CString,
    base: u32, kernelOffset: u32, ramdiskOffset: u32, secondOffset: u32, tagsOffset: u32, pageSize: u32)

  /** load_file measures files with an int. */
  predicate Loadable(d: seq<u8>) {
    |d| < 0x8000_0000
  }

  /** A file called NONE is a file to --kernel and --second. */
  predicate Usable(p: Params) {
    && Loadable(Data(p.kernel)) && Loadable(Data(p.ramdisk)) && Loadable(Data(p.second))
    && !p.kernel.NoneWord? && !p.second.NoneWord?
  }

  type Input = p: Params | Usable(p)
    witness Params(Absent, Absent, Absent, [], [], 0, 0, 0, 0, 0, 2048)

  /** What mkbootimg accepts: --kernel and --ramdisk must be there. */
  predicate Accepted(p: Input) {
    && PageSize(p.pageSize) && |p.board| < NAME && |p.cmdline| <= ARGS + EXTRA - 2
    && !p.kernel.Absent? && !p.ramdisk.Absent?
  }

  // ---- C strings ---------------------------------------------------------------------------------------

  /** strncpy(_, s, n). */
  function NCopy(s: seq<u8>, n: nat): (r: seq<u8>)
    ensures |r| == n
  {
    if |s| >= n then s[..n] else s + Zeros(n - |s|)
  }

  /** `%s`: up to the first NUL. */
  function UpToNul(s: seq<u8>): seq<u8> {
    if s == [] || s[0] == 0 then [] else [s[0]] + UpToNul(s[1..])
  }

  lemma {:induction false} UpToNulOf(x: CString, z: seq<u8>)
    requires z != [] && z[0] == 0
    ensures UpToNul(x + z) == x
  {
    if x == [] {
      assert x + z == z;
    } else {
      assert (x + z)[1..] == x[1..] + z;
      UpToNulOf(x[1..], z);
    }
  }

  lemma NCopyReads(x: CString, n: nat)
    requires |x| < n
    ensures UpToNul(NCopy(x, n)) == x
  {
    UpToNulOf(x, Zeros(n - |x|));
  }

  // ---- the command line, in two fields ------------------------------------------------------------------

  function CmdlineField(c: CString): (s: seq<u8>)
    ensures |s| == ARGS
  {
    NCopy(c, ARGS - 1) + [0]
  }

  function ExtraField(c: CString): (s: seq<u8>)
    ensures |s| == EXTRA
  {
    if |c| >= ARGS - 1 then NCopy(c[ARGS - 1..], EXTRA) else Zeros(EXTRA)
  }

  /** The two fields, printed one after the other, are the command line again. */
  lemma CmdlineReads(c: CString)
    requires |c| <= ARGS + EXTRA - 2
    ensures UpToNul(CmdlineField(c)) + UpToNul(ExtraField(c)) == c
    ensures c == [] <==> CmdlineField(c)[0] == 0
  {
    if |c| >= ARGS - 1 {
      var a, b: CString := c[..ARGS - 1], c[ARGS - 1..];
      UpToNulOf(a, [0]);
      NCopyReads(b, EXTRA);
      assert a + b == c;
    } else {
      assert CmdlineField(c) == c + (Zeros(ARGS - 1 - |c|) + [0]);
      UpToNulOf(c, Zeros(ARGS - 1 - |c|) + [0]);
      assert UpToNul(ExtraField(c)) == [];
    }
  }

  // ---- the header ---------------------------------------------------------------------------------------

  lemma DigestSize(m: seq<u8>)
    ensures |Fips180.Digest(Fips180.Sha1, m)| == 20
  {
    ShaStream.DigestLength(Fips180.Sha1, m);
  }

  /** SHA-1 over each item and its size, in 20 of the 32 bytes of the field. */
  function IdOf(k: seq<u8>, r: seq<u8>, s: seq<u8>): (id: seq<u8>)
    requires Loadable(k) && Loadable(r) && Loadable(s)
    ensures |id| == 32
  {
    DigestSize(ShaStream.Flatten([k, Le32(|k|), r, Le32(|r|), s, Le32(|s|)]));
    Fips180.Digest(Fips180.Sha1, ShaStream.Flatten([k, Le32(|k|), r, Le32(|r|), s, Le32(|s|)])) + Zeros(12)
  }

  function HeaderOf(p: Input): (h: Header)
    requires Accepted(p)
    ensures Sized(h)
  {
    var k, r, s := Data(p.kernel), Data(p.ramdisk), Data(p.second);
    Header(|k|, Add32(p.base, p.kernelOffset), |r|, Add32(p.base, p.ramdiskOffset),
           |s|, Add32(p.base, p.secondOffset), Add32(p.base, p.tagsOffset), p.pageSize, 0, 0,
           NCopy(p.board, NAME), CmdlineField(p.cmdline), IdOf(k, r, s), ExtraField(p.cmdline))
  }

  /** The image mkbootimg writes. */
  function ImageOf(p: Input): seq<u8>
    requires Accepted(p)
  {
    Image(HeaderOf(p), Data(p.kernel), Data(p.ramdisk), Data(p.second))
  }

  /** The bytes hashed number less than 2^61. */
  lemma HashedSize(a: seq<u8>, b: seq<u8>, c: seq<u8>, d: seq<u8>, e: seq<u8>, f: seq<u8>)
    ensures ShaStream.Flatten([a, b, c, d, e, f]) == a + b + c + d + e + f
  {
    var s := [a, b, c, d, e, f];
    assert s[..5] == [a, b, c, d, e] && s[..5][..4] == [a, b, c, d] && s[..5][..4][..3] == [a, b, c];
    assert ShaStream.Flatten([]) == [];
    assert [a][..0] == [] && ShaStream.Flatten([a]) == a;
    assert [a, b][..1] == [a] && ShaStream.Flatten([a, b]) == a + b;
    assert [a, b, c][..2] == [a, b] && ShaStream.Flatten([a, b, c]) == a + b + c;
    assert [a, b, c, d][..3] == [a, b, c] && ShaStream.Flatten([a, b, c, d]) == a + b + c + d;
    assert [a, b, c, d, e][..4] == [a, b, c, d] && ShaStream.Flatten([a, b, c, d, e]) == a + b + c + d + e;
  }

  method HashItems(k: seq<u8>, r: seq<u8>, s: seq<u8>) returns (id: seq<u8>)
    requires Loadable(k) && Loadable(r) && Loadable(s)
    ensures id == IdOf(k, r, s)
  {
    var chunks := [k, Le32(|k|), r, Le32(|r|), s, Le32(|s|)];
    HashedSize(chunks[0], chunks[1], chunks[2], chunks[3], chunks[4], chunks[5]);
    var sha := ShaStream.HashChunks(Fips180.Sha1, chunks);
    id := sha + Zeros(12);
  }

  // ---- mkbootimg ------------------------------------------------------------------------------------------

  datatype Made = Made(image: seq<u8>) | Refused

  lemma PagePower(p: u32) returns (k: nat)
    requires PageSize(p)
    ensures Pow2(k) == p
  {
    var w := 8;
    BytePowers(w);
    k := if p == 2048 then 3 else if p == 4096 then 4 else if p == 8192 then 5 else 6;
    Pow2Add(w, k);
    assert Pow2(k) == if p == 2048 then 8 else if p == 4096 then 16 else if p == 8192 then 32 else 64;
    k := w + k;
  }

  /** write_padding: zeros up to the next multiple of the page, and no further. The mask works
      because the page sizes main lets through are powers of two. */
  method WritePadding(out: seq<u8>, pagesize: u32, itemsize: u32) returns (r: seq<u8>)
    requires PageSize(pagesize)
    ensures |out| <= |r| && r[..|out|] == out && forall i :: |out| <= i < |r| ==> r[i] == 0
    ensures (itemsize + |r| - |out|) % pagesize == 0 && |r| - |out| < pagesize
  {
    var pagemask := pagesize - 1;
    ghost var k := PagePower(pagesize);
    AndMask(itemsize, k, itemsize / pagesize, itemsize % pagesize);
    var over := And(itemsize, pagemask);
    if over == 0 {
      return out;
    }
    var count := pagesize - over;
    r := out + Zeros(count);
    NextPage(itemsize, pagesize, over);
  }

  lemma NextPage(n: nat, p: nat, over: nat)
    requires p > 0 && over == n % p
    ensures (n + p - over) % p == 0
  {
    var q := n / p;
    assert n + p - over == (q + 1) * p + 0;
    DivModUnique(q + 1, 0, p, n + p - over);
  }

  /** An item and its padding. */
  method WriteItem(out: seq<u8>, item: seq<u8>, pagesize: u32) returns (r: seq<u8>)
    requires PageSize(pagesize) && Loadable(item)
    ensures r == out + Padded(item, pagesize)
  {
    r := WritePadding(out + item, pagesize, |item|);
    PaddingIs(|item|, pagesize, |r| - |out + item|);
    assert r == out + (item + Zeros(Padding(|item|, pagesize)));
  }

  method WriteAll(hdr: Header, kernel: seq<u8>, ramdisk: seq<u8>, second: seq<u8>) returns (out: seq<u8>)
    requires Sized(hdr) && PageSize(hdr.pageSize) && Loadable(kernel) && Loadable(ramdisk) && Loadable(second)
    ensures out == Image(hdr, kernel, ramdisk, second)
  {
    out := WriteItem([], Encoded(hdr), hdr.pageSize);
    assert out == Padded(Encoded(hdr), hdr.pageSize);
    out := WriteItem(out, kernel, hdr.pageSize);
    out := WriteItem(out, ramdisk, hdr.pageSize);
    out := WriteItem(out, second, hdr.pageSize);
  }

  /** The header, field by field as main fills it. */
  method FillHeader(p: Input) returns (hdr: Header)
    requires Accepted(p)
    ensures hdr == HeaderOf(p)
  {
    var k, r, s := Data(p.kernel), Data(p.ramdisk), Data(p.second);
    hdr := Header(0, 0, 0, 0, 0, 0, 0, 0, 0, 0, Zeros(NAME), Zeros(ARGS), Zeros(32), Zeros(EXTRA));
    hdr := hdr.(pageSize := p.pageSize);
    hdr := hdr.(kernelAddr := Add32(p.base, p.kernelOffset), ramdiskAddr := Add32(p.base, p.ramdiskOffset));
    hdr := hdr.(secondAddr := Add32(p.base, p.secondOffset), tagsAddr := Add32(p.base, p.tagsOffset));
    hdr := hdr.(name := p.board + hdr.name[|p.board|..]);
    hdr := hdr.(cmdline := NCopy(p.cmdline, ARGS - 1) + [0]);
    if |p.cmdline| >= ARGS - 1 {
      hdr := hdr.(extra := NCopy(p.cmdline[ARGS - 1..], EXTRA));
    }
    hdr := hdr.(kernelSize := |k|, ramdiskSize := |r|, secondSize := |s|);
    var id := HashItems(k, r, s);
    hdr := hdr.(id := id);
  }

  /** main of mkbootimg. */
  method Make(p: Input) returns (r: Made)
    ensures r == if Accepted(p) then Made(ImageOf(p)) else Refused
  {
    if !(p.pageSize == 2048 || p.pageSize == 4096 || p.pageSize == 8192 || p.pageSize == 16384) {
      return Refused;
    }
    if p.kernel.Absent? || p.ramdisk.Absent? {
      return Refused;
    }
    if |p.board| >= NAME || |p.cmdline| > ARGS + EXTRA - 2 {
      return Refused;
    }
    var hdr := FillHeader(p);
    var out := WriteAll(hdr, Data(p.kernel), Data(p.ramdisk), Data(p.second));
    r := Made(out);
  }

  // ---- unmkbootimg ----------------------------------------------------------------------------------------

  /** The multiple of p at or below x. */
  function Floor(x: nat, p: nat): nat
    requires p > 0
  {
    if x < p then 0 else p + Floor(x - p, p)
  }

  lemma {:induction false} FloorIs(x: nat, p: nat, q: int, r: int)
    requires p > 0 && x == q * p + r && 0 <= r < p
    ensures Floor(x, p) == q * p
  {
    if x < p {
      assert q >= 1 ==> q * p >= p;
      assert q <= -1 ==> q * p <= -(p as int);
    } else {
      assert (q - 1) * p == q * p - p;
      FloorIs(x - p, p, q - 1, r);
    }
  }

  /** `(x / p) * p`. */
  method DivMul(x: nat, p: nat) returns (y: nat)
    requires p > 0
    ensures y == Floor(x, p)
  {
    assert x == (x / p) * p + x % p;
    FloorIs(x, p, x / p, x % p);
    y := (x / p) * p;
  }

  /** `((n + 2*page_size - 1) / page_size) * page_size` in unsigned 32-bit arithmetic. */
  function PageOffset(n: nat, p: u32): nat
    requires p > 0
  {
    Floor((n + 2 * p as int - 1) % 0x1_0000_0000, p)
  }

  /** What unmkbootimg saves, and the parameters of the rebuild command it prints. */
  datatype Unpacked =
    | Unpacked(kernel: seq<u8>, ramdisk: seq<u8>, second: seq<u8>, rebuild: Params)
    | TooSmall | NotAndroid | NoPages | OverRead

  lemma {:induction false} UpToNulClean(s: seq<u8>)
    ensures forall i :: 0 <= i < |UpToNul(s)| ==> UpToNul(s)[i] != 0
  {
    if s != [] && s[0] != 0 {
      UpToNulClean(s[1..]);
    }
  }

  function CStr(s: seq<u8>): (c: CString) {
    UpToNulClean(s);
    UpToNul(s)
  }

  /** The command printed: base 0, addresses for offsets, and --kernel, --ramdisk and --second only
      for items of a nonzero size. */
  function RebuildOf(h: Header, kernel: seq<u8>, ramdisk: seq<u8>, second: seq<u8>): Params
    requires Sized(h)
  {
    Params(if h.kernelSize != 0 then File(kernel) else Absent,
           if h.ramdiskSize != 0 then File(ramdisk) else Absent,
           if h.secondSize != 0 then File(second) else Absent,
           if h.cmdline[0] != 0 then CStr(h.cmdline) + CStr(h.extra) else [],
           if h.name[0] != 0 then CStr(h.name) else [],
           0, h.kernelAddr, h.ramdiskAddr, h.secondAddr, h.tagsAddr, h.pageSize)
  }

  /** The bytes from offset on, if the file has that many. */
  predicate Inside(file: seq<u8>, offset: nat, size: nat) {
    offset + size <= |file|
  }

  predicate Saveable(file: seq<u8>, offset: nat, size: nat) {
    size == 0 || Inside(file, offset, size)
  }

  /** save_file of a part, unless its size is zero. */
  method Save(file: seq<u8>, offset: nat, size: nat) returns (ok: bool, data: seq<u8>)
    ensures ok <==> Saveable(file, offset, size)
    ensures data == Part(file, offset, size)
  {
    ok, data := true, [];
    if size != 0 {
      ok := Inside(file, offset, size);
      if ok {
        data := file[offset..offset + size];
      }
    }
  }

  /** A part of the file; parts of size zero are not looked at. */
  function Part(file: seq<u8>, offset: nat, size: nat): seq<u8> {
    if size == 0 || !Inside(file, offset, size) then [] else file[offset..offset + size]
  }

  /** The three parts, from the given offsets. */
  function PartsFrom(file: seq<u8>, h: Header, ra: nat, sa: nat): Unpacked
    requires Sized(h)
  {
    if !(Saveable(file, h.pageSize, h.kernelSize) && Saveable(file, ra, h.ramdiskSize) && Saveable(file, sa, h.secondSize)) then OverRead
    else
      var k, r, s := Part(file, h.pageSize, h.kernelSize), Part(file, ra, h.ramdiskSize), Part(file, sa, h.secondSize);
      Unpacked(k, r, s, RebuildOf(h, k, r, s))
  }

  /** The offset of what follows n bytes, for a page size that can be divided by. */
  function OffsetAfter(n: nat, p: u32): nat {
    if p == 0 then 0 else PageOffset(n, p)
  }

  /** What unmkbootimg makes of a file whose first bytes decode to h. It divides by the page size
      only for a ramdisk or a second stage. */
  function UnpackOf(file: seq<u8>, h: Header): Unpacked
    requires |file| >= HEADER && Sized(h)
  {
    if file[..8] != MAGIC then NotAndroid
    else if !Saveable(file, h.pageSize, h.kernelSize) then OverRead
    else if h.pageSize == 0 && (h.ramdiskSize != 0 || h.secondSize != 0) then NoPages
    else PartsFrom(file, h, OffsetAfter(h.kernelSize, h.pageSize), OffsetAfter(h.kernelSize as int + h.ramdiskSize as int, h.pageSize))
  }

  /** main of unmkbootimg. Where the original would read past the file, OverRead; where it would
      divide by zero, NoPages. */
  method Unpack(file: seq<u8>) returns (r: Unpacked)
    requires Loadable(file)
    ensures r.TooSmall? <==> |file| < HEADER
    ensures |file| >= HEADER ==> r == UnpackOf(file, Decoded(file))
  {
    if |file| < HEADER {
      return TooSmall;
    }
    var hdr := Decoded(file);
    if file[..8] != MAGIC {
      return NotAndroid;
    }
    var ok, kernel := Save(file, hdr.pageSize, hdr.kernelSize);
    if !ok {
      return OverRead;
    }
    r := UnpackRest(file, hdr, kernel);
  }

  /** Ramdisk and second stage, each saved from its offset. */
  method UnpackRest(file: seq<u8>, hdr: Header, kernel: seq<u8>) returns (r: Unpacked)
    requires |file| >= HEADER && Sized(hdr) && file[..8] == MAGIC
    requires Saveable(file, hdr.pageSize, hdr.kernelSize) && kernel == Part(file, hdr.pageSize, hdr.kernelSize)
    ensures !r.TooSmall? && r == UnpackOf(file, hdr)
  {
    var ok, ramdisk, second := true, [], [];
    if hdr.ramdiskSize != 0 {
      if hdr.pageSize == 0 {
        return NoPages;
      }
      var offset := DivMul((hdr.kernelSize as int + 2 * hdr.pageSize as int - 1) % 0x1_0000_0000, hdr.pageSize);
      ok, ramdisk := Save(file, offset, hdr.ramdiskSize);
      if !ok {
        return OverRead;
      }
    }
    if hdr.secondSize != 0 {
      if hdr.pageSize == 0 {
        return NoPages;
      }
      var offset := DivMul((hdr.kernelSize as int + hdr.ramdiskSize as int + 2 * hdr.pageSize as int - 1) % 0x1_0000_0000, hdr.pageSize);
      ok, second := Save(file, offset, hdr.secondSize);
      if !ok {
        return OverRead;
      }
    }
    r := Unpacked(kernel, ramdisk, second, RebuildOf(hdr, kernel, ramdisk, second));
  }

  // ---- round trip -----------------------------------------------------------------------------------------

  lemma OffsetFrom(n: nat, p: u32, q: int, r: int)
    requires p > 0 && n + p as int - 1 == q * p + r && 0 <= r < p && n + 2 * p as int - 1 < 0x1_0000_0000
    ensures PageOffset(n, p) == p + q * p && Pages(n, p) == q
  {
    var x := n + 2 * p as int - 1;
    assert x % 0x1_0000_0000 == x;
    assert x == (q + 1) * p + r;
    FloorIs(x, p, q + 1, r);
    PagesIs(n, p, q, r);
    assert (q + 1) * p == p + q * p;
  }

  /** Without overflow, the reader's offset is one page and the pages of n. */
  lemma OffsetIs(n: nat, p: u32)
    requires p > 0 && n + 2 * p as int - 1 < 0x1_0000_0000
    ensures PageOffset(n, p) == p + Paged(n, p)
  {
    PaddingFills(n, p);
    var m := n + p as int - 1;
    var q, r := m / p, m % p;
    assert m == q * p + r;
    OffsetFrom(n, p, q, r);
  }

  lemma TogetherBounds(k: int, r: int, p: int, a: int, b: int, c: int, x: int, y: int, z: int)
    requires p > 0 && k + x == a * p && r + y == b * p && k + r + z == c * p
    requires 0 <= x < p && 0 <= y < p && 0 <= z < p
    ensures a + b - 1 <= c <= a + b
  {
    var d := a + b - c;
    assert d * p == x + y - z;
    assert d >= 2 ==> d * p >= 2 * p;
    assert d <= -1 ==> d * p <= -p;
  }

  /** Together, two items take as many pages as apart, or one less. */
  lemma PagesTogether(k: nat, r: nat, p: nat)
    requires p > 0
    ensures Pages(k, p) + Pages(r, p) - 1 <= Pages(k + r, p) <= Pages(k, p) + Pages(r, p)
  {
    PaddingFills(k, p);
    PaddingFills(r, p);
    PaddingFills(k + r, p);
    TogetherBounds(k, r, p, Pages(k, p), Pages(r, p), Pages(k + r, p), Padding(k, p), Padding(r, p), Padding(k + r, p));
  }

  lemma CompareOffsets(a: int, b: int, c: int, p: int, pa: int, pb: int, pc: int)
    requires p > 0 && a + b - 1 <= c <= a + b && pa == a * p && pb == b * p && pc == c * p
    ensures pc == pa + pb || pc == pa + pb - p
    ensures pc == pa + pb <==> c == a + b
  {
    Distribute(a, b, p);
    if c == a + b - 1 {
      Distribute(a + b, -1, p);
    }
  }

  /** The reader's offset for the second stage is the writer's or one page less, and the writer's
      exactly when kernel and ramdisk take as many pages together as apart. */
  lemma SecondOffset(k: nat, r: nat, p: u32)
    requires p > 0 && k + r + 2 * p as int - 1 < 0x1_0000_0000
    ensures PageOffset(k + r, p) == SecondAt(k, r, p) || PageOffset(k + r, p) == SecondAt(k, r, p) - p
    ensures PageOffset(k + r, p) == SecondAt(k, r, p) <==> Pages(k + r, p) == Pages(k, p) + Pages(r, p)
  {
    OffsetIs(k + r, p);
    PagesCompare(k, r, p, Pages(k, p) + Pages(r, p), Paged(k, p) + Paged(r, p));
  }

  lemma PagesCompare(k: nat, r: nat, p: nat, apart: int, bytes: int)
    requires p > 0 && apart == Pages(k, p) + Pages(r, p) && bytes == Paged(k, p) + Paged(r, p)
    ensures Paged(k + r, p) == bytes || Paged(k + r, p) == bytes - p
    ensures Paged(k + r, p) == bytes <==> Pages(k + r, p) == apart
  {
    PagesTogether(k, r, p);
    PaddingFills(k, p);
    PaddingFills(r, p);
    PaddingFills(k + r, p);
    CompareOffsets(Pages(k, p), Pages(r, p), Pages(k + r, p), p, Paged(k, p), Paged(r, p), Paged(k + r, p));
  }

  /** Kernel and ramdisk take as many pages together as apart. */
  ghost predicate SecondAligned(k: nat, r: nat, p: nat)
    requires p > 0
  {
    Pages(k + r, p) == Pages(k, p) + Pages(r, p)
  }

  /** The header can be decoded from the image. */
  lemma ImageHeader(h: Header, kernel: seq<u8>, ramdisk: seq<u8>, second: seq<u8>, s: seq<u8>)
    requires Sized(h) && h.pageSize > 0 && s == Image(h, kernel, ramdisk, second)
    ensures |s| >= HEADER && Decoded(s) == h && s[..8] == MAGIC
  {
    var p := h.pageSize;
    var e, z, k, r, d := Encoded(h), Zeros(Padding(HEADER, p)), Padded(kernel, p), Padded(ramdisk, p), Padded(second, p);
    assert s == e + z + k + r + d;
    assert s == e + (z + k + r + d);
    HeaderRoundTrip(h, z + k + r + d);
  }

  /** The numbers of nums as little-endian words, from offset 8 on. */
  predicate WordsAt(s: seq<u8>, nums: seq<int>)
    requires 8 + 4 * |nums| <= |s|
  {
    forall k :: 0 <= k < |nums| ==>
      nums[k] == s[8 + 4 * k] as int + 0x100 * s[9 + 4 * k] as int + 0x1_0000 * s[10 + 4 * k] as int + 0x100_0000 * s[11 + 4 * k] as int
  }

  /** The bytes of d from an offset on, and zeros up to another. */
  predicate TextAt(s: seq<u8>, from: nat, to: nat, d: seq<u8>) {
    && from + |d| <= to <= |s| && s[from..from + |d|] == d
    && forall i :: from + |d| <= i < to ==> s[i] == 0
  }

  lemma NumbersAt(s: seq<u8>, h: Header, f: seq<int>)
    requires |s| >= HEADER && Decoded(s) == h && f == Numbers(h)
    ensures WordsAt(s, f)
  {
    forall k | 0 <= k < 10
      ensures f[k] == s[8 + 4 * k] as int + 0x100 * s[9 + 4 * k] as int + 0x1_0000 * s[10 + 4 * k] as int + 0x100_0000 * s[11 + 4 * k] as int
    {
      assert f[k] == NumberAt(s, k);
    }
  }

  /** The numbers of the struct, in its order: sizes and addresses, the tags' address, the page size and
      two zeros. */
  ghost function ImageNumbers(p: Input): (f: seq<int>)
    requires Accepted(p)
    ensures |f| == 10
  {
    [|Data(p.kernel)|, (p.base + p.kernelOffset) % 0x1_0000_0000,
     |Data(p.ramdisk)|, (p.base + p.ramdiskOffset) % 0x1_0000_0000,
     |Data(p.second)|, (p.base + p.secondOffset) % 0x1_0000_0000,
     (p.base + p.tagsOffset) % 0x1_0000_0000, p.pageSize, 0, 0]
  }

  lemma Sum32(x: u32, y: u32)
    ensures Add32(x, y) == (x + y) % 0x1_0000_0000
  {
  }

  lemma HeaderNumbers(p: Input, h: Header)
    requires Accepted(p) && h == HeaderOf(p)
    ensures Numbers(h) == ImageNumbers(p)
  {
    Sum32(p.base, p.kernelOffset);
    Sum32(p.base, p.ramdiskOffset);
    Sum32(p.base, p.secondOffset);
    Sum32(p.base, p.tagsOffset);
    assert h.unused == 0 && h.osVersion == 0;
  }

  /** The first 48 bytes of an image. */
  lemma ImageStarts(p: Input, s: seq<u8>)
    requires Accepted(p) && s == ImageOf(p)
    ensures |s| >= 1632 && s[..8] == [0x41, 0x4e, 0x44, 0x52, 0x4f, 0x49, 0x44, 0x21] && WordsAt(s, ImageNumbers(p))
  {
    var h := HeaderOf(p);
    ImageHeader(h, Data(p.kernel), Data(p.ramdisk), Data(p.second), s);
    HeaderNumbers(p, h);
    NumbersAt(s, h, ImageNumbers(p));
  }

  /** Its strings: the board's name, and the command line cut behind 511 bytes. */
  lemma ImageTexts(p: Input, s: seq<u8>)
    requires Accepted(p) && s == ImageOf(p)
    ensures TextAt(s, 48, 64, p.board) && CmdlineAt(s, p.cmdline)
  {
    var h := HeaderOf(p);
    ImageHeader(h, Data(p.kernel), Data(p.ramdisk), Data(p.second), s);
    Field(s, 48, 64, h.name, p.board);
    CmdlineCut(s, p.cmdline);
  }

  predicate CmdlineAt(s: seq<u8>, c: seq<u8>) {
    if |c| <= 511 then TextAt(s, 64, 576, c) && TextAt(s, 608, 1632, [])
    else TextAt(s, 64, 576, c[..511]) && TextAt(s, 608, 1632, c[511..])
  }

  lemma CmdlineCut(s: seq<u8>, c: CString)
    requires |s| >= HEADER && |c| <= ARGS + EXTRA - 2 && s[64..576] == CmdlineField(c) && s[608..1632] == ExtraField(c)
    ensures CmdlineAt(s, c)
  {
    Field(s, 64, 576, CmdlineField(c), if |c| <= 511 then c else c[..511]);
    Field(s, 608, 1632, ExtraField(c), if |c| <= 511 then [] else c[511..]);
  }

  lemma Field(s: seq<u8>, from: nat, to: nat, f: seq<u8>, d: seq<u8>)
    requires from <= to <= |s| && s[from..to] == f && |d| <= |f| && f[..|d|] == d && forall i :: |d| <= i < |f| ==> f[i] == 0
    ensures TextAt(s, from, to, d)
  {
    assert forall i :: from + |d| <= i < to ==> s[i] == f[i - from];
  }

  /** The id is the SHA-1 of kernel, ramdisk and second stage, each with its size behind it. */
  lemma ImageId(p: Input, s: seq<u8>)
    requires Accepted(p) && s == ImageOf(p)
    ensures var k, r, d := Data(p.kernel), Data(p.ramdisk), Data(p.second);
      TextAt(s, 576, 608, Fips180.Digest(Fips180.Sha1, k + Le32(|k|) + r + Le32(|r|) + d + Le32(|d|)))
  {
    var h, k, r, d := HeaderOf(p), Data(p.kernel), Data(p.ramdisk), Data(p.second);
    ImageHeader(h, k, r, d, s);
    var m := k + Le32(|k|) + r + Le32(|r|) + d + Le32(|d|);
    HashedSize(k, Le32(|k|), r, Le32(|r|), d, Le32(|d|));
    DigestSize(m);
    Field(s, 576, 608, h.id, Fips180.Digest(Fips180.Sha1, m));
  }

  /** A header for the given items. */
  ghost predicate Describes(h: Header, kernel: seq<u8>, ramdisk: seq<u8>, second: seq<u8>) {
    Sized(h) && PageSize(h.pageSize) && |kernel| == h.kernelSize && |ramdisk| == h.ramdiskSize && |second| == h.secondSize
  }

  /** Where an image's items lie, and where unmkbootimg looks for them. */
  lemma Places(h: Header, kernel: seq<u8>, ramdisk: seq<u8>, second: seq<u8>, s: seq<u8>) returns (ra: nat, sa: nat, at: nat)
    requires Describes(h, kernel, ramdisk, second) && s == Image(h, kernel, ramdisk, second) && Loadable(s)
    ensures Placed(h, kernel, ramdisk, second, s, ra, sa)
    ensures PageOffset(|kernel|, h.pageSize) == ra && PageOffset(|kernel| + |ramdisk|, h.pageSize) == at
    ensures sa == SecondAt(|kernel|, |ramdisk|, h.pageSize)
    ensures at == sa || at == sa - h.pageSize
    ensures at == sa <==> SecondAligned(|kernel|, |ramdisk|, h.pageSize)
  {
    ra, sa := ItemsPlaced(h, kernel, ramdisk, second, s);
    at := OffsetsRead(|kernel|, |ramdisk|, h.pageSize, |s|);
  }

  lemma ItemsPlaced(h: Header, kernel: seq<u8>, ramdisk: seq<u8>, second: seq<u8>, s: seq<u8>) returns (ra: nat, sa: nat)
    requires Describes(h, kernel, ramdisk, second) && s == Image(h, kernel, ramdisk, second)
    ensures Placed(h, kernel, ramdisk, second, s, ra, sa)
    ensures ra == RamdiskAt(|kernel|, h.pageSize) && sa == SecondAt(|kernel|, |ramdisk|, h.pageSize) <= |s|
  {
    ra, sa := RamdiskAt(|kernel|, h.pageSize), SecondAt(|kernel|, |ramdisk|, h.pageSize);
    ImageParts(h, kernel, ramdisk, second);
  }

  lemma OffsetsRead(k: nat, r: nat, p: u32, n: nat) returns (at: nat)
    requires PageSize(p) && SecondAt(k, r, p) <= n < 0x8000_0000
    ensures PageOffset(k, p) == RamdiskAt(k, p) && PageOffset(k + r, p) == at
    ensures at == SecondAt(k, r, p) || at == SecondAt(k, r, p) - p
    ensures at == SecondAt(k, r, p) <==> SecondAligned(k, r, p)
  {
    at := PageOffset(k + r, p);
    OffsetIs(k, p);
    SecondOffset(k, r, p);
  }

  ghost predicate Placed(h: Header, kernel: seq<u8>, ramdisk: seq<u8>, second: seq<u8>, s: seq<u8>, ra: nat, sa: nat) {
    var p := h.pageSize;
    && p + |kernel| <= ra && ra + |ramdisk| <= sa && sa + |second| <= |s|
    && s[p..p + |kernel|] == kernel && s[ra..ra + |ramdisk|] == ramdisk && s[sa..sa + |second|] == second
  }

  lemma PartsRecovered(h: Header, kernel: seq<u8>, ramdisk: seq<u8>, second: seq<u8>, s: seq<u8>, ra: nat, sa: nat, at: nat)
    requires Describes(h, kernel, ramdisk, second) && Placed(h, kernel, ramdisk, second, s, ra, sa) && at <= sa
    ensures var u := PartsFrom(s, h, ra, at);
      && u.Unpacked? && u.kernel == kernel && u.ramdisk == ramdisk
      && at + |second| <= |s| && u.second == s[at..at + |second|]
      && u.rebuild == RebuildOf(h, kernel, ramdisk, u.second)
  {
    assert second == [] ==> s[at..at + |second|] == [];
  }

  /** Items found where they are placed, and the second stage at the offset read. */
  lemma UnpacksPlaced(h: Header, kernel: seq<u8>, ramdisk: seq<u8>, second: seq<u8>, s: seq<u8>, ra: nat, sa: nat, at: nat)
    requires Describes(h, kernel, ramdisk, second) && Placed(h, kernel, ramdisk, second, s, ra, sa) && at <= sa
    requires |s| >= HEADER && s[..8] == MAGIC
    requires PageOffset(|kernel|, h.pageSize) == ra && PageOffset(|kernel| + |ramdisk|, h.pageSize) == at
    ensures at + |second| <= |s|
    ensures UnpackOf(s, h) == Unpacked(kernel, ramdisk, s[at..at + |second|], RebuildOf(h, kernel, ramdisk, s[at..at + |second|]))
  {
    PartsRecovered(h, kernel, ramdisk, second, s, ra, sa, at);
  }

  lemma RecoveredAt(h: Header, kernel: seq<u8>, ramdisk: seq<u8>, second: seq<u8>, s: seq<u8>, ra: nat, sa: nat, at: nat)
    requires Describes(h, kernel, ramdisk, second) && Placed(h, kernel, ramdisk, second, s, ra, sa) && at <= sa
    requires |s| >= HEADER && s[..8] == MAGIC
    requires PageOffset(|kernel|, h.pageSize) == ra && PageOffset(|kernel| + |ramdisk|, h.pageSize) == at
    ensures var u := UnpackOf(s, h);
      && u.Unpacked? && u.kernel == kernel && u.ramdisk == ramdisk
      && at + |second| <= |s| && u.second == s[at..at + |second|]
      && u.rebuild == RebuildOf(h, kernel, ramdisk, u.second)
      && (second == [] || at == sa ==> u.second == second)
  {
    UnpacksPlaced(h, kernel, ramdisk, second, s, ra, sa, at);
  }

  /** unmkbootimg recovers kernel and ramdisk from every image that it can load. The second stage
      it takes from the offset `at`, which is the writer's exactly when kernel and ramdisk take as
      many pages together as apart, and one page less otherwise. */
  lemma Recovered(h: Header, kernel: seq<u8>, ramdisk: seq<u8>, second: seq<u8>, s: seq<u8>) returns (at: nat)
    requires Describes(h, kernel, ramdisk, second) && s == Image(h, kernel, ramdisk, second) && Loadable(s)
    requires |s| >= HEADER && s[..8] == MAGIC
    ensures var u := UnpackOf(s, h);
      && u.Unpacked? && u.kernel == kernel && u.ramdisk == ramdisk
      && at + |second| <= |s| && u.second == s[at..at + |second|]
      && u.rebuild == RebuildOf(h, kernel, ramdisk, u.second)
      && (second == [] || SecondAligned(|kernel|, |ramdisk|, h.pageSize) ==> u.second == second)
    ensures var sa := SecondAt(|kernel|, |ramdisk|, h.pageSize);
      && (at == sa || at == sa - h.pageSize)
      && (at == sa <==> SecondAligned(|kernel|, |ramdisk|, h.pageSize))
  {
    var ra, sa;
    ra, sa, at := Places(h, kernel, ramdisk, second, s);
    RecoveredAt(h, kernel, ramdisk, second, s, ra, sa, at);
  }

  /** Where kernel and ramdisk share a page, the second stage is read one page early: here it is
      the ramdisk that comes back. */
  lemma SecondLost(h: Header, s: seq<u8>)
    requires Describes(h, [1], [2], [3]) && h.pageSize == 2048 && s == Image(h, [1], [2], [3])
    requires |s| >= HEADER && s[..8] == MAGIC && Loadable(s)
    ensures UnpackOf(s, h).Unpacked? && UnpackOf(s, h).second == [2]
  {
    var ra, sa, at := Places(h, [1], [2], [3], s);
    UnpacksPlaced(h, [1], [2], [3], s, ra, sa, at);
    OnePage(1);
    OnePage(2);
    assert at == ra;
  }

  lemma OnePage(n: nat)
    requires 0 < n <= 2048
    ensures Pages(n, 2048) == 1
  {
  }

  // ---- rebuilding -------------------------------------------------------------------------------------------

  /** The printed command names the same items and gives the same header, if mkbootimg takes it: it
      is refused exactly when kernel or ramdisk is empty. */
  lemma RebuiltHeader(p: Input)
    requires Accepted(p)
    ensures var k, r, s := Data(p.kernel), Data(p.ramdisk), Data(p.second);
      var q := RebuildOf(HeaderOf(p), k, r, s);
      && Data(q.kernel) == k && Data(q.ramdisk) == r && Data(q.second) == s
      && q.cmdline == p.cmdline && q.board == p.board && q.pageSize == p.pageSize
      && (Accepted(q) <==> k != [] && r != [])
      && (Accepted(q) ==> HeaderOf(q) == HeaderOf(p))
  {
    CmdlineReads(p.cmdline);
    NCopyReads(p.board, NAME);
    assert p.board != [] ==> NCopy(p.board, NAME)[0] == p.board[0];
  }

  /** Images of the same shape differ where their second stages do. */
  lemma SameImage(h: Header, g: Header, k: seq<u8>, r: seq<u8>, s: seq<u8>, t: seq<u8>)
    requires Describes(h, k, r, s) && Describes(g, k, r, t) && g.pageSize == h.pageSize && |s| == |t|
    requires Image(h, k, r, s) == Image(g, k, r, t)
    ensures s == t
  {
    ImageParts(h, k, r, s);
    ImageParts(g, k, r, t);
  }

  /** The command printed for an image of p's whose second stage was read as t. */
  ghost predicate Rebuilds(p: Input, q: Params, t: seq<u8>)
    requires Accepted(p)
  {
    q == RebuildOf(HeaderOf(p), Data(p.kernel), Data(p.ramdisk), t) && |t| == |Data(p.second)|
  }

  /** Rebuilding gives the image back if and only if there is a kernel, a ramdisk, and the second
      stage was read right. */
  lemma RebuiltImage(p: Input, q: Input, t: seq<u8>)
    requires Accepted(p) && Rebuilds(p, q, t)
    ensures Accepted(q) <==> Data(p.kernel) != [] && Data(p.ramdisk) != []
    ensures Accepted(q) ==> (ImageOf(q) == ImageOf(p) <==> t == Data(p.second))
  {
    RebuiltHeader(p);
    if Accepted(q) && ImageOf(q) == ImageOf(p) {
      SameImage(HeaderOf(p), HeaderOf(q), Data(p.kernel), Data(p.ramdisk), Data(p.second), t);
    }
  }

  /** What unmkbootimg makes of an image of p's. */
  lemma UnpackedImage(p: Input, s: seq<u8>)
    requires Accepted(p) && s == ImageOf(p) && Loadable(s)
    ensures |s| >= HEADER
    ensures var u := UnpackOf(s, Decoded(s));
      && u.Unpacked? && u.kernel == Data(p.kernel) && u.ramdisk == Data(p.ramdisk) && |u.second| == |Data(p.second)|
      && (Data(p.second) == [] || SecondAligned(|u.kernel|, |u.ramdisk|, p.pageSize) ==> u.second == Data(p.second))
      && Usable(u.rebuild) && Rebuilds(p, u.rebuild, u.second)
  {
    var h, k, r, d := HeaderOf(p), Data(p.kernel), Data(p.ramdisk), Data(p.second);
    ImageHeader(h, k, r, d, s);
    var at := Recovered(h, k, r, d, s);
  }

  /** Making an image, taking it apart and rebuilding it with the printed command. Kernel and ramdisk
      come back, and so does the second stage when it is empty or aligned; rebuilding then gives the
      same image if and only if kernel and ramdisk are not empty. */
  method MakeThenUnpack(p: Input) returns (made: Made, u: Unpacked, rebuilt: Made)
    ensures made.Made? <==> Accepted(p)
    ensures made.Made? && Loadable(made.image) ==>
      var k, r, s := Data(p.kernel), Data(p.ramdisk), Data(p.second);
      && u.Unpacked? && u.kernel == k && u.ramdisk == r
      && (s == [] || SecondAligned(|k|, |r|, p.pageSize) ==> u.second == s)
      && (rebuilt == made <==> k != [] && r != [] && u.second == s)
      && (rebuilt.Refused? <==> k == [] || r == [])
  {
    made := Make(p);
    u, rebuilt := TooSmall, Refused;
    if made.Made? && |made.image| < 0x8000_0000 {
      UnpackedImage(p, made.image);
      u := Unpack(made.image);
      rebuilt := Make(u.rebuild);
      RebuiltImage(p, u.rebuild, u.second);
    }
  }

  /** A failing input: after --ramdisk NONE the printed command is refused. */
  lemma NoneIsRefused(p: Input, q: Input, t: seq<u8>)
    requires Accepted(p) && p.ramdisk == NoneWord && Rebuilds(p, q, t)
    ensures q.ramdisk == Absent && !Accepted(q)
  {
  }
}
