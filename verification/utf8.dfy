/** UTF-8 as Rust's `String` and `str` use it: `as_bytes` (encoding),
    `std::str::from_utf8` (validation), `String::from_utf8_lossy`
    (decoding with U+FFFD for each maximal ill-formed subpart), `len`
    (byte length) and `is_char_boundary`. */
module Utf8 {
  import opened Bytes

  predicate IsCont(b: byte) {
    0x80 <= b <= 0xBF
  }

  /** Number of bytes `c` occupies in UTF-8 (`char::len_utf8`). */
  function CharWidth(c: char): (w: nat)
    ensures 1 <= w <= 4
    ensures w == 1 <==> c < '\U{0080}'
  {
    if c as int < 0x80 then 1
    else if c as int < 0x800 then 2
    else if c as int < 0x1_0000 then 3
    else 4
  }

  /** `String::len`: the byte length of the UTF-8 encoding of `s`. */
  function ByteLen(s: string): nat {
    if |s| == 0 then 0 else CharWidth(s[0]) + ByteLen(s[1..])
  }

  /** UTF-8 encoding of one scalar value. */
  function EncodeChar(c: char): (b: seq<byte>)
    ensures |b| == CharWidth(c)
  {
    var n := c as int;
    if n < 0x80 then [n as byte]
    else if n < 0x800 then [(0xC0 + n / 64) as byte, (0x80 + n % 64) as byte]
    else if n < 0x1_0000 then
      [(0xE0 + n / 4096) as byte, (0x80 + (n / 64) % 64) as byte, (0x80 + n % 64) as byte]
    else
      [(0xF0 + n / 262144) as byte, (0x80 + (n / 4096) % 64) as byte,
       (0x80 + (n / 64) % 64) as byte, (0x80 + n % 64) as byte]
  }

  /** `str::as_bytes`. */
  function Encode(s: string): (b: seq<byte>)
    ensures |b| == ByteLen(s)
  {
    if |s| == 0 then [] else EncodeChar(s[0]) + Encode(s[1..])
  }

  /** One decoding step at the start of `b`: `(w, true)` when `b[..w]` is a
      well-formed sequence, `(w, false)` when `b[..w]` is the maximal prefix
      of a well-formed sequence that cannot be completed (Unicode's
      "maximal subpart", the unit `from_utf8_lossy` replaces by U+FFFD). */
  function Step(b: seq<byte>): (r: (nat, bool))
    requires |b| > 0
    ensures 1 <= r.0 <= |b| && r.0 <= 4
  {
    var b0 := b[0];
    if b0 < 0x80 then (1, true)
    else if 0xC2 <= b0 <= 0xDF then
      (if |b| >= 2 && IsCont(b[1]) then (2, true) else (1, false))
    else if 0xE0 <= b0 <= 0xEF then
      var lo: byte := if b0 == 0xE0 then 0xA0 else 0x80;
      var hi: byte := if b0 == 0xED then 0x9F else 0xBF;
      if |b| >= 2 && lo <= b[1] <= hi then
        (if |b| >= 3 && IsCont(b[2]) then (3, true) else (2, false))
      else (1, false)
    else if 0xF0 <= b0 <= 0xF4 then
      var lo: byte := if b0 == 0xF0 then 0x90 else 0x80;
      var hi: byte := if b0 == 0xF4 then 0x8F else 0xBF;
      if |b| >= 2 && lo <= b[1] <= hi then
        if |b| >= 3 && IsCont(b[2]) then
          (if |b| >= 4 && IsCont(b[3]) then (4, true) else (3, false))
        else (2, false)
      else (1, false)
    else (1, false)
  }

  /** The scalar value of a well-formed sequence found by `Step`. */
  function DecodeChar(b: seq<byte>): char
    requires |b| > 0 && Step(b).1
  {
    var w := Step(b).0;
    if w == 1 then b[0] as int as char
    else if w == 2 then ((b[0] as int - 0xC0) * 64 + (b[1] as int - 0x80)) as char
    else if w == 3 then
      ((b[0] as int - 0xE0) * 4096 + (b[1] as int - 0x80) * 64 + (b[2] as int - 0x80)) as char
    else
      ((b[0] as int - 0xF0) * 262144 + (b[1] as int - 0x80) * 4096
        + (b[2] as int - 0x80) * 64 + (b[3] as int - 0x80)) as char
  }

  /** `std::str::from_utf8(b).is_ok()`. */
  predicate Valid(b: seq<byte>) {
    |b| == 0 || (Step(b).1 && Valid(b[Step(b).0..]))
  }

  /** `String::from_utf8_lossy`. */
  function DecodeLossy(b: seq<byte>): string {
    if |b| == 0 then ""
    else
      var (w, ok) := Step(b);
      (if ok then [DecodeChar(b)] else ['\U{FFFD}']) + DecodeLossy(b[w..])
  }

  /** Bytes below 0x80 always decode to themselves. */
  lemma {:induction false} DecodeAscii(b: seq<byte>)
    requires forall i :: 0 <= i < |b| ==> b[i] < 0x80
    ensures Valid(b)
    ensures |DecodeLossy(b)| == |b|
    ensures forall i :: 0 <= i < |b| ==> DecodeLossy(b)[i] as int == b[i] as int
  {
    if |b| > 0 {
      DecodeAscii(b[1..]);
    }
  }

  lemma DecodeAppendAscii(a: seq<byte>, rest: seq<byte>)
    requires |a| > 0 && a[0] < 0x80
    ensures DecodeLossy(a + rest) == [a[0] as int as char] + DecodeLossy(a[1..] + rest)
  {
    assert (a + rest)[1..] == a[1..] + rest;
  }

  lemma EncodeCharStep(c: char, rest: seq<byte>)
    ensures Step(EncodeChar(c) + rest) == (CharWidth(c), true)
    ensures DecodeChar(EncodeChar(c) + rest) == c
  {
    var n := c as int;
    var b := EncodeChar(c) + rest;
    if n < 0x80 {
    } else if n < 0x800 {
      Step2(n, b);
    } else if n < 0x1_0000 {
      Step3(n, b);
    } else {
      Step4(n, b);
    }
  }

  lemma Step2(n: int, b: seq<byte>)
    requires 0x80 <= n < 0x800 && |b| >= 2
    requires b[0] as int == 0xC0 + n / 64 && b[1] as int == 0x80 + n % 64
    ensures Step(b) == (2, true)
    ensures (b[0] as int - 0xC0) * 64 + (b[1] as int - 0x80) == n
  {
  }

  lemma Step3(n: int, b: seq<byte>)
    requires 0x800 <= n < 0x1_0000 && !(0xD800 <= n < 0xE000) && |b| >= 3
    requires b[0] as int == 0xE0 + n / 4096 && b[1] as int == 0x80 + (n / 64) % 64
    requires b[2] as int == 0x80 + n % 64
    ensures Step(b) == (3, true)
    ensures (b[0] as int - 0xE0) * 4096 + (b[1] as int - 0x80) * 64 + (b[2] as int - 0x80) == n
  {
    assert n == (n / 4096) * 4096 + ((n / 64) % 64) * 64 + n % 64;
  }

  lemma Step4(n: int, b: seq<byte>)
    requires 0x1_0000 <= n < 0x11_0000 && |b| >= 4
    requires b[0] as int == 0xF0 + n / 262144 && b[1] as int == 0x80 + (n / 4096) % 64
    requires b[2] as int == 0x80 + (n / 64) % 64 && b[3] as int == 0x80 + n % 64
    ensures Step(b) == (4, true)
    ensures (b[0] as int - 0xF0) * 262144 + (b[1] as int - 0x80) * 4096
      + (b[2] as int - 0x80) * 64 + (b[3] as int - 0x80) == n
  {
    Step4Digits(n);
  }

  /** The four 6-bit groups of a supplementary-plane scalar value. */
  lemma Step4Digits(n: int)
    requires 0x1_0000 <= n < 0x11_0000
    ensures n == (n / 262144) * 262144 + ((n / 4096) % 64) * 4096 + ((n / 64) % 64) * 64 + n % 64
    ensures 0 <= n / 262144 <= 4
    ensures n / 262144 == 0 ==> 16 <= (n / 4096) % 64
    ensures n / 262144 == 4 ==> (n / 4096) % 64 < 16
  {
    var q1 := n / 64;
    var q2 := q1 / 64;
    var q3 := q2 / 64;
    assert n == 64 * q1 + n % 64;
    assert q1 == 64 * q2 + q1 % 64;
    assert q2 == 64 * q3 + q2 % 64;
    assert n / 4096 == q2;
    assert n / 262144 == q3;
  }

  /** Decoding inverts encoding, so a Rust `String` survives
      `from_utf8_lossy(s.as_bytes())` unchanged. */
  lemma {:induction false} DecodeEncode(s: string)
    ensures Valid(Encode(s))
    ensures DecodeLossy(Encode(s)) == s
  {
    if |s| > 0 {
      var e := EncodeChar(s[0]);
      EncodeCharStep(s[0], Encode(s[1..]));
      assert (e + Encode(s[1..]))[|e|..] == Encode(s[1..]);
      DecodeEncode(s[1..]);
    }
  }

  /** Byte length of the first `k` characters of `s`. */
  function PrefixBytes(s: string, k: nat): nat
    requires k <= |s|
  {
    ByteLen(s[..k])
  }

  /** `str::is_char_boundary(n)`. */
  predicate IsCharBoundary(s: string, n: nat) {
    exists k | 0 <= k <= |s| :: PrefixBytes(s, k) == n
  }

  lemma ByteLenAppend(a: string, b: string)
    ensures ByteLen(a + b) == ByteLen(a) + ByteLen(b)
  {
    if |a| > 0 {
      assert (a + b)[1..] == a[1..] + b;
      ByteLenAppend(a[1..], b);
    } else {
      assert a + b == b;
    }
  }

  lemma {:induction false} ByteLenAscii(s: string)
    requires forall i :: 0 <= i < |s| ==> s[i] < '\U{0080}'
    ensures ByteLen(s) == |s|
  {
    if |s| > 0 {
      ByteLenAscii(s[1..]);
    }
  }

  /** ASCII text is its own encoding, byte for byte. */
  lemma {:induction false} EncodeAscii(s: string)
    requires forall i :: 0 <= i < |s| ==> s[i] < '\U{0080}'
    ensures |Encode(s)| == |s|
    ensures forall i :: 0 <= i < |s| ==> Encode(s)[i] as int == s[i] as int
  {
    if |s| > 0 {
      EncodeAscii(s[1..]);
      assert Encode(s) == [s[0] as int as byte] + Encode(s[1..]);
    }
  }
}
