/** The boot image layout of bootimg.h: the packed header, and the pages behind it. */
module BootImage {
  import opened Words
  import opened Modular

  const MAGIC: seq<u8> := [0x41, 0x4e, 0x44, 0x52, 0x4f, 0x49, 0x44, 0x21]
  const HEADER: nat := 1632
  const NAME: nat := 16
  const ARGS: nat := 512
  const EXTRA: nat := 1024

  /** boot_img_hdr, without its magic. */
  datatype Header = Header(
    kernelSize: u32, kernelAddr: u32, ramdiskSize: u32, ramdiskAddr: u32, secondSize: u32, secondAddr: u32,
    tagsAddr: u32, pageSize: u32, unused: u32, osVersion: u32,
    name: seq<u8>, cmdline: seq<u8>, id: seq<u8>, extra: seq<u8>)

  predicate Sized(h: Header) {
    |h.name| == NAME && |h.cmdline| == ARGS && |h.id| == 32 && |h.extra| == EXTRA
  }

  // ---- little-endian words ---------------------------------------------------------------------------

  function Le32(x: u32): (s: seq<u8>)
    ensures |s| == 4
  {
    [x % 0x100, x / 0x100 % 0x100, x / 0x1_0000 % 0x100, x / 0x100_0000]
  }

  function FromLe32(s: seq<u8>): u32
    requires |s| == 4
  {
    s[0] as int + 0x100 * s[1] as int + 0x1_0000 * s[2] as int + 0x100_0000 * s[3] as int
  }

  lemma Le32RoundTrip(x: u32)
    ensures FromLe32(Le32(x)) == x
  {
    var a, b := x / 0x100, x / 0x1_0000;
    assert a / 0x100 == b && b / 0x100 == x / 0x100_0000;
  }

  // ---- the header --------------------------------------------------------------------------------------

  function Numbers(h: Header): (f: seq<u32>)
    ensures |f| == 10
  {
    [h.kernelSize, h.kernelAddr, h.ramdiskSize, h.ramdiskAddr, h.secondSize, h.secondAddr,
     h.tagsAddr, h.pageSize, h.unused, h.osVersion]
  }

  function Le32All(f: seq<u32>): (s: seq<u8>)
    ensures |s| == 4 * |f|
  {
    if f == [] then [] else Le32All(f[..|f| - 1]) + Le32(f[|f| - 1])
  }

  /** The 1632 bytes of the packed struct. */
  function Encoded(h: Header): (s: seq<u8>)
    requires Sized(h)
    ensures |s| == HEADER
  {
    MAGIC + Le32All(Numbers(h)) + (h.name + h.cmdline + h.id + h.extra)
  }

  function NumberAt(s: seq<u8>, k: nat): u32
    requires |s| >= HEADER && k < 10
  {
    FromLe32(s[8 + 4 * k..12 + 4 * k])
  }

  /** The struct as a reader sees it through a pointer to the file. */
  function Decoded(s: seq<u8>): (h: Header)
    requires |s| >= HEADER
    ensures Sized(h)
  {
    Header(NumberAt(s, 0), NumberAt(s, 1), NumberAt(s, 2), NumberAt(s, 3), NumberAt(s, 4), NumberAt(s, 5),
           NumberAt(s, 6), NumberAt(s, 7), NumberAt(s, 8), NumberAt(s, 9),
           s[48..64], s[64..576], s[576..608], s[608..1632])
  }

  lemma Cut(x: seq<u8>, y: seq<u8>, z: seq<u8>)
    ensures (x + y + z)[|x|..|x| + |y|] == y
  {
  }

  lemma {:induction false} Le32At(f: seq<u32>, k: nat)
    requires k < |f|
    ensures Le32All(f)[4 * k..4 * k + 4] == Le32(f[k])
  {
    var n := |f| - 1;
    var a, b := Le32All(f[..n]), Le32(f[n]);
    assert Le32All(f) == a + b;
    if k < n {
      Le32At(f[..n], k);
      assert (a + b)[4 * k..4 * k + 4] == a[4 * k..4 * k + 4];
    } else {
      assert (a + b)[4 * k..4 * k + 4] == b;
    }
  }

  lemma NumberRead(s: seq<u8>, m: seq<u8>, f: seq<u32>, t: seq<u8>, k: nat)
    requires |m| == 8 && |f| == 10 && k < 10 && s == m + Le32All(f) + t && |s| >= HEADER
    ensures NumberAt(s, k) == f[k]
  {
    Le32At(f, k);
    var a := Le32All(f);
    assert s[8 + 4 * k..12 + 4 * k] == a[4 * k..4 * k + 4];
    Le32RoundTrip(f[k]);
  }

  lemma StringsRead(s: seq<u8>, b: seq<u8>, n: seq<u8>, c: seq<u8>, i: seq<u8>, e: seq<u8>, t: seq<u8>)
    requires |b| == 48 && |n| == NAME && |c| == ARGS && |i| == 32 && |e| == EXTRA && s == b + (n + c + i + e) + t
    ensures |s| >= HEADER && s[48..64] == n && s[64..576] == c && s[576..608] == i && s[608..1632] == e
  {
    Cut(b, n, c + i + e + t);
    assert s == b + n + (c + i + e + t);
    Cut(b + n, c, i + e + t);
    assert s == b + n + c + (i + e + t);
    Cut(b + n + c, i, e + t);
    assert s == b + n + c + i + (e + t);
    Cut(b + n + c + i, e, t);
    assert s == b + n + c + i + e + t;
  }

  /** The header a reader decodes is the one that was written, whatever follows it. */
  lemma HeaderRoundTrip(h: Header, t: seq<u8>)
    requires Sized(h)
    ensures Decoded(Encoded(h) + t) == h && (Encoded(h) + t)[..8] == MAGIC
  {
    var s, f := Encoded(h) + t, Numbers(h);
    var strings := h.name + h.cmdline + h.id + h.extra;
    assert s == MAGIC + Le32All(f) + (strings + t);
    forall k: nat | k < 10
      ensures NumberAt(s, k) == f[k]
    {
      NumberRead(s, MAGIC, f, strings + t, k);
    }
    StringsRead(s, MAGIC + Le32All(f), h.name, h.cmdline, h.id, h.extra, t);
    HeaderFields(s, f);
  }

  lemma HeaderFields(s: seq<u8>, f: seq<u32>)
    requires |s| >= HEADER && |f| == 10 && forall k: nat :: k < 10 ==> NumberAt(s, k) == f[k]
    ensures var d := Decoded(s);
      && d.kernelSize == f[0] && d.kernelAddr == f[1] && d.ramdiskSize == f[2] && d.ramdiskAddr == f[3] && d.secondSize == f[4]
      && d.secondAddr == f[5] && d.tagsAddr == f[6] && d.pageSize == f[7] && d.unused == f[8] && d.osVersion == f[9]
  {
  }

  // ---- pages -----------------------------------------------------------------------------------------------

  predicate PageSize(p: u32) {
    p == 2048 || p == 4096 || p == 8192 || p == 16384
  }

  /** n bytes take this many pages. */
  function Pages(n: nat, p: nat): (m: nat)
    requires p > 0
  {
    if n == 0 then 0 else if n <= p then 1 else 1 + Pages(n - p, p)
  }

  /** What is missing to the end of the last one. */
  function Padding(n: nat, p: nat): (m: nat)
    requires p > 0
    ensures m < p
  {
    if n == 0 then 0 else if n <= p then p - n else Padding(n - p, p)
  }

  lemma {:induction false} PaddingFills(n: nat, p: nat)
    requires p > 0
    ensures n + Padding(n, p) == Pages(n, p) * p
  {
    if n > p {
      PaddingFills(n - p, p);
      Distribute(1, Pages(n - p, p), p);
    }
  }

  /** Pages are found by rounding up. */
  lemma {:induction false} PagesIs(n: nat, p: nat, q: int, r: int)
    requires p > 0 && n + p - 1 == q * p + r && 0 <= r < p
    ensures Pages(n, p) == q
  {
    if n > p {
      Distribute(q - 1, 1, p);
      PagesIs(n - p, p, q - 1, r);
    } else {
      SmallMultiple(q, p);
      SmallMultiple(q - 1, p);
      Distribute(q - 1, 1, p);
      SmallMultiple(q - 2, p);
      Distribute(q - 2, 2, p);
    }
  }

  lemma SameRest(n: int, p: int, c: int, m: int, k: int, q: int)
    requires p > 0 && n + c == k * p && n + m == q * p && 0 <= c < p && 0 <= m < p
    ensures c == m
  {
    Distribute(k - q, q, p);
    SmallMultiple(k - q, p);
  }

  /** The padding is the one number below p that leads to a multiple of p. */
  lemma PaddingIs(n: nat, p: nat, c: nat)
    requires p > 0 && (n + c) % p == 0 && c < p
    ensures c == Padding(n, p)
  {
    PaddingFills(n, p);
    SameRest(n, p, c, Padding(n, p), (n + c) / p, Pages(n, p));
  }

  /** The bytes of those pages. */
  function Paged(n: nat, p: nat): nat
    requires p > 0
  {
    n + Padding(n, p)
  }

  /** An item and the padding behind it. */
  function Padded(d: seq<u8>, p: nat): (s: seq<u8>)
    requires p > 0
    ensures |s| == |d| + Padding(|d|, p)
  {
    d + Zeros(Padding(|d|, p))
  }

  /** The image: header, kernel, ramdisk and second stage, each from a page boundary. */
  function Image(h: Header, kernel: seq<u8>, ramdisk: seq<u8>, second: seq<u8>): seq<u8>
    requires Sized(h) && h.pageSize > 0
  {
    Padded(Encoded(h), h.pageSize) + Padded(kernel, h.pageSize) + Padded(ramdisk, h.pageSize) + Padded(second, h.pageSize)
  }

  /** Where the writer puts each item. */
  function RamdiskAt(k: nat, p: nat): nat
    requires p > 0
  {
    p + Paged(k, p)
  }

  function SecondAt(k: nat, r: nat, p: nat): nat
    requires p > 0
  {
    p + Paged(k, p) + Paged(r, p)
  }

  lemma HeaderPage(p: u32)
    requires PageSize(p)
    ensures HEADER + Padding(HEADER, p) == p
  {
  }

  lemma Layout4(a: seq<u8>, b: seq<u8>, c: seq<u8>, d: seq<u8>)
    ensures var s := a + b + c + d;
      s[|a|..|a| + |b|] == b && s[|a| + |b|..|a| + |b| + |c|] == c && s[|a| + |b| + |c|..] == d
  {
    Cut(a, b, c + d);
    assert a + b + c + d == a + b + (c + d);
    Cut(a + b, c, d);
  }

  lemma Leading(x: seq<u8>, p: nat, s: seq<u8>, at: nat)
    requires p > 0 && at + |Padded(x, p)| <= |s| && s[at..at + |Padded(x, p)|] == Padded(x, p)
    ensures s[at..at + |x|] == x
  {
    var q := Padded(x, p);
    assert s[at..at + |x|] == s[at..at + |q|][..|x|];
  }

  lemma PartsAt(a: seq<u8>, kernel: seq<u8>, ramdisk: seq<u8>, second: seq<u8>, p: nat)
    requires p > 0
    ensures var b, c, d := Padded(kernel, p), Padded(ramdisk, p), Padded(second, p);
      var s, ka, ra, sa := a + b + c + d, |a|, |a| + |b|, |a| + |b| + |c|;
      && |s| == sa + |d|
      && s[ka..ka + |kernel|] == kernel && s[ra..ra + |ramdisk|] == ramdisk && s[sa..sa + |second|] == second
  {
    var b, c, d := Padded(kernel, p), Padded(ramdisk, p), Padded(second, p);
    var s := a + b + c + d;
    Layout4(a, b, c, d);
    Leading(kernel, p, s, |a|);
    Leading(ramdisk, p, s, |a| + |b|);
    assert s[|a| + |b| + |c|..] == s[|a| + |b| + |c|..|a| + |b| + |c| + |d|];
    Leading(second, p, s, |a| + |b| + |c|);
  }

  /** Each item lies at its page boundary. */
  lemma ImageParts(h: Header, kernel: seq<u8>, ramdisk: seq<u8>, second: seq<u8>)
    requires Sized(h) && PageSize(h.pageSize)
    ensures var s, p := Image(h, kernel, ramdisk, second), h.pageSize;
      var ra, sa := RamdiskAt(|kernel|, p), SecondAt(|kernel|, |ramdisk|, p);
      && |s| == sa + Paged(|second|, p)
      && p + |kernel| <= ra && ra + |ramdisk| <= sa && sa + |second| <= |s|
      && s[p..p + |kernel|] == kernel && s[ra..ra + |ramdisk|] == ramdisk && s[sa..sa + |second|] == second
  {
    var p := h.pageSize;
    HeaderPage(p);
    PartsAt(Padded(Encoded(h), p), kernel, ramdisk, second, p);
  }
}
