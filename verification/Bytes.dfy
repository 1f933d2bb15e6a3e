/** Byte strings, and the little-endian integer fields of a ZIP record. */
module Bytes {

  type byte = x: int | 0 <= x < 256

  const U16: nat := 0x1_0000
  const U32: nat := 0x1_0000_0000

  /** The outcome of an operation that may refuse its input by throwing. */
  datatype Outcome<+T> = Ok(value: T) | Rejected

  function LE16(n: nat): (r: seq<byte>)
    requires n < U16
    ensures |r| == 2 && Read16(r, 0) == n
  {
    [n % 256, n / 256]
  }

  function LE32(n: nat): (r: seq<byte>)
    requires n < U32
    ensures |r| == 4 && Read32(r, 0) == n
  {
    [n % 256, n / 256 % 256, n / 256 / 256 % 256, n / 256 / 256 / 256]
  }

  function Read16(s: seq<byte>, i: nat): (n: nat)
    requires i + 2 <= |s|
    ensures n < U16
  {
    s[i] as int + 256 * (s[i + 1] as int)
  }

  function Read32(s: seq<byte>, i: nat): (n: nat)
    requires i + 4 <= |s|
    ensures n < U32
  {
    s[i] as int + 256 * (s[i + 1] as int) + 65536 * (s[i + 2] as int) + 16777216 * (s[i + 3] as int)
  }

  /** `part` occupies `whole` from offset `at`. */
  ghost predicate At(whole: seq<byte>, at: nat, part: seq<byte>) {
    at + |part| <= |whole| && whole[at..at + |part|] == part
  }
}
