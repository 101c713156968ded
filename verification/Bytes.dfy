/** Machine integers, byte order and the kernel's error codes.

    Fixed-width C integers are subset types of `int`; wrap-around is written out
    where the source relies on it.  Memory is a `seq<u8>` and a pointer into it is
    an offset.  The model's host is little-endian, so a raw (unconverted) field is
    read with `Le16`/`Le32` and a field passed through ntohs/ntohl with `Be16`/`Be32`. */
module Bytes {
  type u8 = x: int | 0 <= x < 0x100
  type u16 = x: int | 0 <= x < 0x1_0000
  type u32 = x: int | 0 <= x < 0x1_0000_0000
  type u64 = x: int | 0 <= x < 0x1_0000_0000_0000_0000

  const TWO16: int := 0x1_0000
  const TWO31: int := 0x8000_0000
  const TWO32: int := 0x1_0000_0000
  const TWO64: int := 0x1_0000_0000_0000_0000
  const U64_MAX: u64 := 0xFFFF_FFFF_FFFF_FFFF

  const EIO: int := -5
  const ENOMEM: int := -12
  const EFAULT: int := -14
  const EINVAL: int := -22
  const ENOTTY: int := -25
  const EPROTONOSUPPORT: int := -93

  datatype Option<+T> = None | Some(value: T)

  function Le16(m: seq<u8>, at: nat): u16
    requires at + 2 <= |m|
  {
    (m[at] as int) + 0x100 * (m[at + 1] as int)
  }

  function Be16(m: seq<u8>, at: nat): u16
    requires at + 2 <= |m|
  {
    0x100 * (m[at] as int) + (m[at + 1] as int)
  }

  function Le32(m: seq<u8>, at: nat): u32
    requires at + 4 <= |m|
  {
    Le16(m, at) + TWO16 * Le16(m, at + 2)
  }

  function Be32(m: seq<u8>, at: nat): u32
    requires at + 4 <= |m|
  {
    TWO16 * Be16(m, at) + Be16(m, at + 2)
  }

  function Le64(m: seq<u8>, at: nat): u64
    requires at + 8 <= |m|
  {
    Le32(m, at) + TWO32 * Le32(m, at + 4)
  }

  function PutLe16(x: u16): (b: seq<u8>)
    ensures |b| == 2 && Le16(b, 0) == x
  {
    [x % 0x100, x / 0x100]
  }

  function PutBe16(x: u16): (b: seq<u8>)
    ensures |b| == 2 && Be16(b, 0) == x
  {
    [x / 0x100, x % 0x100]
  }

  function PutLe32(x: u32): (b: seq<u8>)
    ensures |b| == 4 && Le32(b, 0) == x
  {
    PutLe16(x % TWO16) + PutLe16(x / TWO16)
  }

  function PutBe32(x: u32): (b: seq<u8>)
    ensures |b| == 4 && Be32(b, 0) == x
  {
    PutBe16(x / TWO16) + PutBe16(x % TWO16)
  }

  function PutLe64(x: u64): (b: seq<u8>)
    ensures |b| == 8 && Le64(b, 0) == x
  {
    PutLe32(x % TWO32) + PutLe32(x / TWO32)
  }

  /** The value of a 64-bit unsigned result stored into a C `int`. */
  function ToInt32(x: int): int {
    var low := x % TWO32;
    if low < TWO31 then low else low - TWO32
  }
}
