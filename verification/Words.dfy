/** Fixed-width unsigned words of the C sources, as ranges of the integers.
    Every operation that can wrap says where it wraps. */
module Words {

  type u8 = x: int | 0 <= x < 0x100
  type u32 = x: int | 0 <= x < 0x1_0000_0000
  type u64 = x: int | 0 <= x < 0x1_0000_0000_0000_0000

  /** A C string without its NUL. */
  type CString = s: seq<u8> | forall i :: 0 <= i < |s| ==> s[i] != 0

  function Zeros(n: nat): (s: seq<u8>)
    ensures |s| == n
  {
    seq(n, _ => 0)
  }

  /** `x + y` on `uint32_t`. */
  function Add32(x: u32, y: u32): u32 {
    if x + y < 0x1_0000_0000 then x + y else x + y - 0x1_0000_0000
  }

  /** `x - y` on `uint32_t`. */
  function Sub32(x: u32, y: u32): u32 {
    if y <= x then x - y else x - y + 0x1_0000_0000
  }

  /** `v & mask` for a mask that is all zeros or all ones. */
  function Masked(v: u32, mask: u32): u32
    requires mask == 0 || mask == 0xffff_ffff
  {
    if mask == 0 then 0 else v
  }
}
