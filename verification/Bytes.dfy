/** Fixed-width integers and the network byte order in which every header is read and written. */
module Bytes {

  const U16_SIZE := 0x1_0000
  const U32_SIZE := 0x1_0000_0000
  const U64_SIZE := 0x1_0000_0000_0000_0000

  type byte = b: int | 0 <= b < 256
  type u15 = x: int | 0 <= x < 0x8000
  type u16 = x: int | 0 <= x < U16_SIZE
  type u32 = x: int | 0 <= x < U32_SIZE
  type u64 = x: int | 0 <= x < U64_SIZE

  datatype Option<+T> = None | Some(value: T)

  function Put16(v: u16): (s: seq<byte>)
    ensures |s| == 2
  {
    [v / 256, v % 256]
  }

  function Put32(v: u32): (s: seq<byte>)
    ensures |s| == 4
  {
    Put16(v / U16_SIZE) + Put16(v % U16_SIZE)
  }

  function Put64(v: u64): (s: seq<byte>)
    ensures |s| == 8
  {
    Put32(v / U32_SIZE) + Put32(v % U32_SIZE)
  }

  function Get16(s: seq<byte>, at: nat): u16
    requires at + 2 <= |s|
  {
    (s[at] as int) * 256 + s[at + 1]
  }

  function Get32(s: seq<byte>, at: nat): u32
    requires at + 4 <= |s|
  {
    Get16(s, at) * U16_SIZE + Get16(s, at + 2)
  }

  function Get64(s: seq<byte>, at: nat): u64
    requires at + 8 <= |s|
  {
    Get32(s, at) * U32_SIZE + Get32(s, at + 4)
  }

  lemma GetPut32(v: u32, tail: seq<byte>)
    ensures Get32(Put32(v) + tail, 0) == v
  {
  }

  lemma GetPut64(v: u64)
    ensures Get64(Put64(v), 0) == v
  {
  }

  /** A 16-bit field does not depend on what surrounds it. */
  lemma Get16Slice(s: seq<byte>, lo: nat, hi: nat, at: nat)
    requires lo <= hi <= |s| && lo + at + 2 <= hi
    ensures Get16(s[lo..hi], at) == Get16(s, lo + at)
  {
  }

  /** Differences of 32-bit counters are differences of the numbers they stand for. */
  lemma Diff32(a: nat, b: nat)
    ensures (a % U32_SIZE - b % U32_SIZE) % U32_SIZE == (a - b) % U32_SIZE
    ensures a % U32_SIZE == b % U32_SIZE <==> (a - b) % U32_SIZE == 0
  {
    var q, r := a / U32_SIZE - b / U32_SIZE, a % U32_SIZE - b % U32_SIZE;
    assert a - b == q * U32_SIZE + r;
  }

  lemma Add32(a: nat, b: nat)
    ensures (a % U32_SIZE + b) % U32_SIZE == (a + b) % U32_SIZE
  {
    Diff32(a + b, a % U32_SIZE + b);
    assert a - a % U32_SIZE == a / U32_SIZE * U32_SIZE;
  }
}
