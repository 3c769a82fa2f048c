/** Byte-level encodings the writers use: Rust's `to_le_bytes`/`to_be_bytes`
    on `u16` and `u32`, and the integer conversions `try_from(..).unwrap_or(0)`
    and `as u16`. */
module Bytes {

  newtype byte = x: int | 0 <= x < 256

  const U16_LIMIT: nat := 0x1_0000
  const U32_LIMIT: nat := 0x1_0000_0000

  function DecodeLE16(b: seq<byte>): nat
    requires |b| == 2
  {
    b[0] as nat + 256 * b[1] as nat
  }

  function DecodeBE16(b: seq<byte>): nat
    requires |b| == 2
  {
    256 * b[0] as nat + b[1] as nat
  }

  function DecodeLE32(b: seq<byte>): nat
    requires |b| == 4
  {
    b[0] as nat + 256 * b[1] as nat + 65536 * b[2] as nat + 16777216 * b[3] as nat
  }

  /** `u16::to_le_bytes`. */
  function LE16(n: nat): (b: seq<byte>)
    requires n < U16_LIMIT
    ensures |b| == 2 && DecodeLE16(b) == n
  {
    [(n % 256) as byte, (n / 256) as byte]
  }

  /** `u16::to_be_bytes`, written by the segment builders as `length >> 8`
      followed by `length & 0xff`. */
  function BE16(n: nat): (b: seq<byte>)
    requires n < U16_LIMIT
    ensures |b| == 2 && DecodeBE16(b) == n
  {
    [(n / 256) as byte, (n % 256) as byte]
  }

  /** `u32::to_le_bytes`. */
  function LE32(n: nat): (b: seq<byte>)
    requires n < U32_LIMIT
    ensures |b| == 4 && DecodeLE32(b) == n
  {
    var q1 := n / 256;
    var q2 := q1 / 256;
    assert n == n % 256 + 256 * q1 && q1 == q1 % 256 + 256 * q2 && q2 == q2 % 256 + 256 * (q2 / 256);
    [(n % 256) as byte, (q1 % 256) as byte, (q2 % 256) as byte, (q2 / 256) as byte]
  }

  /** `u16::try_from(n).unwrap_or(0)`. */
  function U16OrZero(n: nat): (r: nat)
    ensures r < U16_LIMIT
    ensures n < U16_LIMIT ==> r == n
    ensures n >= U16_LIMIT ==> r == 0
  {
    if n < U16_LIMIT then n else 0
  }

  /** `u32::try_from(n).unwrap_or(0)`. */
  function U32OrZero(n: nat): (r: nat)
    ensures r < U32_LIMIT
    ensures n < U32_LIMIT ==> r == n
    ensures n >= U32_LIMIT ==> r == 0
  {
    if n < U32_LIMIT then n else 0
  }

  /** `n as u16`: wrap-around truncation. */
  function WrapU16(n: nat): (r: nat)
    ensures r < U16_LIMIT
    ensures n < U16_LIMIT ==> r == n
  {
    n % U16_LIMIT
  }

  function Zeros(n: nat): (z: seq<byte>)
    ensures |z| == n && forall i :: 0 <= i < n ==> z[i] == 0
  {
    seq(n, _ => 0)
  }

  const U64_LIMIT: nat := 0x1_0000_0000_0000_0000

  function DecodeLE64(b: seq<byte>): nat
    requires |b| == 8
  {
    DecodeLE32(b[..4]) + U32_LIMIT * DecodeLE32(b[4..])
  }

  /** `u64::to_le_bytes`. */
  function LE64(n: nat): (b: seq<byte>)
    requires n < U64_LIMIT
    ensures |b| == 8 && DecodeLE64(b) == n
  {
    var lo := LE32(n % U32_LIMIT);
    var hi := LE32(n / U32_LIMIT);
    assert (lo + hi)[..4] == lo && (lo + hi)[4..] == hi;
    lo + hi
  }
}
