/** EXIF field values as the exif crate hands them over, their TIFF
    encoding as the writers produce it (src/exif/processors.rs:721-913),
    a decoder for that encoding, and their display form
    (`format_exif_value`). */
module ExifValues {
  import opened Wrappers
  import opened Text
  import opened Bytes
  import Utf8

  datatype Ratio = Ratio(num: nat, denom: nat)
  datatype SRatio = SRatio(snum: int, sdenom: int)

  /** The crate's `Value`. Floats and doubles are held as their IEEE-754
      bit patterns; `Undefined` drops the crate's offset, which nothing
      here reads. */
  datatype Value =
    | Byte(bytes: seq<byte>)
    | Ascii(strings: seq<seq<byte>>)
    | Short(shorts: seq<nat>)
    | Long(longs: seq<nat>)
    | Rational(rationals: seq<Ratio>)
    | SByte(sbytes: seq<int>)
    | Undefined(undefined: seq<byte>)
    | SShort(sshorts: seq<int>)
    | SLong(slongs: seq<int>)
    | SRational(srationals: seq<SRatio>)
    | Float(floatBits: seq<nat>)
    | Double(doubleBits: seq<nat>)
    | Unknown(unknownTag: nat, unknownType: nat, unknownCount: nat)

  const I8_MIN: int := -0x80
  const I16_MIN: int := -0x8000
  const I32_MIN: int := -0x8000_0000

  predicate InU16(x: nat) { x < U16_LIMIT }
  predicate InU32(x: nat) { x < U32_LIMIT }
  predicate InI8(x: int) { I8_MIN <= x < -I8_MIN }
  predicate InI16(x: int) { I16_MIN <= x < -I16_MIN }
  predicate InI32(x: int) { I32_MIN <= x < -I32_MIN }

  /** Every number fits the Rust type the crate stores it in. */
  predicate ValidValue(v: Value) {
    match v
    case Short(xs) => forall i :: 0 <= i < |xs| ==> InU16(xs[i])
    case Long(xs) => forall i :: 0 <= i < |xs| ==> InU32(xs[i])
    case Rational(xs) => forall i :: 0 <= i < |xs| ==> InU32(xs[i].num) && InU32(xs[i].denom)
    case SByte(xs) => forall i :: 0 <= i < |xs| ==> InI8(xs[i])
    case SShort(xs) => forall i :: 0 <= i < |xs| ==> InI16(xs[i])
    case SLong(xs) => forall i :: 0 <= i < |xs| ==> InI32(xs[i])
    case SRational(xs) => forall i :: 0 <= i < |xs| ==> InI32(xs[i].snum) && InI32(xs[i].sdenom)
    case Float(xs) => forall i :: 0 <= i < |xs| ==> InU32(xs[i])
    case Double(xs) => forall i :: 0 <= i < |xs| ==> xs[i] < U64_LIMIT
    case _ => true
  }

  // ---------------------------------------------------------------------
  // TIFF type codes and element sizes

  /** The TIFF field type the writers record for a value. */
  function TypeCode(v: Value): (t: nat)
    ensures 1 <= t <= 13
  {
    match v
    case Byte(_) => 0x01
    case Ascii(_) => 0x02
    case Short(_) => 0x03
    case Long(_) => 0x04
    case Rational(_) => 0x05
    case SByte(_) => 0x06
    case Undefined(_) => 0x07
    case SShort(_) => 0x08
    case SLong(_) => 0x09
    case SRational(_) => 0x0A
    case Float(_) => 0x0B
    case Double(_) => 0x0C
    case Unknown(_, _, _) => 13
  }

  /** Bytes per element of a TIFF type, as the merged writer's count
      computation assumes (1 for byte-sized and unlisted types). */
  function UnitSize(typ: nat): (w: nat)
    ensures w in {1, 2, 4, 8}
  {
    if typ == 0x03 || typ == 0x08 then 2
    else if typ == 0x04 || typ == 0x09 || typ == 0x0B then 4
    else if typ == 0x05 || typ == 0x0A || typ == 0x0C then 8
    else 1
  }

  // ---------------------------------------------------------------------
  // Fixed-width element codecs

  function EncodeAll<T>(xs: seq<T>, enc: T -> seq<byte>): seq<byte> {
    if |xs| == 0 then [] else enc(xs[0]) + EncodeAll(xs[1..], enc)
  }

  function DecodeAll<T>(b: seq<byte>, w: nat, dec: seq<byte> --> T): seq<T>
    requires w > 0
    requires forall c: seq<byte> :: |c| == w ==> dec.requires(c)
    decreases |b|
  {
    if |b| < w then [] else [dec(b[..w])] + DecodeAll(b[w..], w, dec)
  }

  /** Fixed-width encodings concatenate to `w` bytes per element. */
  lemma {:induction false} EncodeAllLength<T>(xs: seq<T>, w: nat, enc: T -> seq<byte>)
    requires forall i :: 0 <= i < |xs| ==> |enc(xs[i])| == w
    ensures |EncodeAll(xs, enc)| == w * |xs|
  {
    if |xs| > 0 {
      assert forall i :: 0 <= i < |xs[1..]| ==> xs[1..][i] == xs[i + 1];
      EncodeAllLength(xs[1..], w, enc);
      assert w * |xs| == w + w * (|xs| - 1);
    }
  }

  /** Decoding a concatenation of fixed-width encodings gives the elements
      back, provided each element decodes from its own encoding. */
  lemma DecodeEncodeAll<T>(xs: seq<T>, w: nat, enc: T -> seq<byte>, dec: seq<byte> --> T)
    requires w > 0
    requires forall c: seq<byte> :: |c| == w ==> dec.requires(c)
    requires forall i :: 0 <= i < |xs| ==> |enc(xs[i])| == w && dec(enc(xs[i])) == xs[i]
    ensures |EncodeAll(xs, enc)| == w * |xs|
    ensures DecodeAll(EncodeAll(xs, enc), w, dec) == xs
  {
    EncodeAllLength(xs, w, enc);
    DecodeEncodeEach(xs, w, enc, dec);
  }

  lemma {:induction false} DecodeEncodeEach<T>(xs: seq<T>, w: nat, enc: T -> seq<byte>, dec: seq<byte> --> T)
    requires w > 0
    requires forall c: seq<byte> :: |c| == w ==> dec.requires(c)
    requires forall i :: 0 <= i < |xs| ==> |enc(xs[i])| == w && dec(enc(xs[i])) == xs[i]
    ensures DecodeAll(EncodeAll(xs, enc), w, dec) == xs
  {
    if |xs| > 0 {
      var head := enc(xs[0]);
      var tail := EncodeAll(xs[1..], enc);
      assert EncodeAll(xs, enc) == head + tail;
      assert forall i :: 0 <= i < |xs[1..]| ==> xs[1..][i] == xs[i + 1];
      DecodeEncodeEach(xs[1..], w, enc, dec);
      assert (head + tail)[..w] == head;
      assert (head + tail)[w..] == tail;
      assert xs == [xs[0]] + xs[1..];
    }
  }

  /** Two's-complement storage of a signed value in `bits` bits. */
  function Wrap(x: int, limit: nat): nat
    requires limit > 0
    ensures Wrap(x, limit) < limit
  {
    x % limit
  }

  /** Reading a two's-complement value back. */
  function Signed(u: nat, limit: nat): int {
    if 2 * u >= limit then u - limit else u
  }

  lemma SignedWrap(x: int, limit: int)
    requires limit > 0 && -limit <= 2 * x < limit
    ensures Signed(Wrap(x, limit), limit) == x
  {
    if x >= 0 {
      assert x % limit == x;
    } else {
      var y := x + limit;
      assert 0 <= y < limit;
      ModShift(x, limit);
    }
  }

  lemma ModShift(x: int, m: int)
    requires m > 0 && -m <= x < 0
    ensures x % m == x + m
  {
    var q := x / m;
    var r := x % m;
    assert x == q * m + r && 0 <= r < m;
    MulSign(q, m);
    assert q == -1;
  }

  lemma MulSign(q: int, m: int)
    requires m > 0
    ensures q >= 0 ==> q * m >= 0
    ensures q <= -2 ==> q * m <= -2 * m
  {
  }

  function U16Bytes(x: nat): seq<byte> { LE16(x % U16_LIMIT) }
  function U32Bytes(x: nat): seq<byte> { LE32(x % U32_LIMIT) }
  function U64Bytes(x: nat): seq<byte> { LE64(x % U64_LIMIT) }
  function I8Byte(x: int): seq<byte> { [Wrap(x, 256) as byte] }
  function I16Bytes(x: int): seq<byte> { LE16(Wrap(x, U16_LIMIT)) }
  function I32Bytes(x: int): seq<byte> { LE32(Wrap(x, U32_LIMIT)) }
  function RatioBytes(r: Ratio): seq<byte> { U32Bytes(r.num) + U32Bytes(r.denom) }
  function SRatioBytes(r: SRatio): seq<byte> { I32Bytes(r.snum) + I32Bytes(r.sdenom) }
  function OneByte(b: byte): seq<byte> { [b] }

  /** The bytes the merged writer stores for a value: each element's
      `to_le_bytes`, numerator before denominator, signed bytes cast with
      `as u8`, floats as their bit patterns; ASCII strings are handled
      separately and unknown values are not written. */
  function ValueBytes(v: Value): seq<byte>
    requires !v.Ascii? && !v.Unknown?
  {
    match v
    case Byte(xs) => EncodeAll(xs, OneByte)
    case Short(xs) => EncodeAll(xs, U16Bytes)
    case Long(xs) => EncodeAll(xs, U32Bytes)
    case Rational(xs) => EncodeAll(xs, RatioBytes)
    case SByte(xs) => EncodeAll(xs, I8Byte)
    case Undefined(xs) => EncodeAll(xs, OneByte)
    case SShort(xs) => EncodeAll(xs, I16Bytes)
    case SLong(xs) => EncodeAll(xs, I32Bytes)
    case SRational(xs) => EncodeAll(xs, SRatioBytes)
    case Float(xs) => EncodeAll(xs, U32Bytes)
    case Double(xs) => EncodeAll(xs, U64Bytes)
  }

  /** Number of elements of a non-ASCII value. */
  function ElementCount(v: Value): nat
    requires !v.Ascii? && !v.Unknown?
  {
    match v
    case Byte(xs) => |xs|
    case Short(xs) => |xs|
    case Long(xs) => |xs|
    case Rational(xs) => |xs|
    case SByte(xs) => |xs|
    case Undefined(xs) => |xs|
    case SShort(xs) => |xs|
    case SLong(xs) => |xs|
    case SRational(xs) => |xs|
    case Float(xs) => |xs|
    case Double(xs) => |xs|
  }

  function DecU16(c: seq<byte>): nat requires |c| == 2 { DecodeLE16(c) }
  function DecU32(c: seq<byte>): nat requires |c| == 4 { DecodeLE32(c) }
  function DecU64(c: seq<byte>): nat requires |c| == 8 { DecodeLE64(c) }
  function DecRatio(c: seq<byte>): Ratio requires |c| == 8 { Ratio(DecodeLE32(c[..4]), DecodeLE32(c[4..])) }
  function DecI8(c: seq<byte>): int requires |c| == 1 { Signed(c[0] as nat, 256) }
  function DecI16(c: seq<byte>): int requires |c| == 2 { Signed(DecodeLE16(c), U16_LIMIT) }
  function DecI32(c: seq<byte>): int requires |c| == 4 { Signed(DecodeLE32(c), U32_LIMIT) }
  function DecSRatio(c: seq<byte>): SRatio requires |c| == 8 {
    SRatio(Signed(DecodeLE32(c[..4]), U32_LIMIT), Signed(DecodeLE32(c[4..]), U32_LIMIT))
  }

  /** A reader for the stored bytes of a non-ASCII TIFF type: the partner of
      `ValueBytes`. */
  function DecodeValue(typ: nat, b: seq<byte>): Value {
    if typ == 0x01 then Byte(b)
    else if typ == 0x03 then Short(DecodeAll(b, 2, DecU16))
    else if typ == 0x04 then Long(DecodeAll(b, 4, DecU32))
    else if typ == 0x05 then Rational(DecodeAll(b, 8, DecRatio))
    else if typ == 0x06 then SByte(DecodeAll(b, 1, DecI8))
    else if typ == 0x08 then SShort(DecodeAll(b, 2, DecI16))
    else if typ == 0x09 then SLong(DecodeAll(b, 4, DecI32))
    else if typ == 0x0A then SRational(DecodeAll(b, 8, DecSRatio))
    else if typ == 0x0B then Float(DecodeAll(b, 4, DecU32))
    else if typ == 0x0C then Double(DecodeAll(b, 8, DecU64))
    else Undefined(b)
  }

  lemma {:induction false} EncodeOneByte(xs: seq<byte>)
    ensures EncodeAll(xs, OneByte) == xs
  {
    if |xs| > 0 {
      EncodeOneByte(xs[1..]);
      assert xs == [xs[0]] + xs[1..];
    }
  }

  lemma RatioRoundTrip(xs: seq<Ratio>)
    requires forall i :: 0 <= i < |xs| ==> InU32(xs[i].num) && InU32(xs[i].denom)
    ensures |EncodeAll(xs, RatioBytes)| == 8 * |xs|
    ensures DecodeAll(EncodeAll(xs, RatioBytes), 8, DecRatio) == xs
  {
    forall i | 0 <= i < |xs|
      ensures |RatioBytes(xs[i])| == 8 && DecRatio(RatioBytes(xs[i])) == xs[i]
    {
      var a := U32Bytes(xs[i].num);
      var b := U32Bytes(xs[i].denom);
      assert (a + b)[..4] == a && (a + b)[4..] == b;
    }
    DecodeEncodeAll(xs, 8, RatioBytes, DecRatio);
  }

  lemma SRatioRoundTrip(xs: seq<SRatio>)
    requires forall i :: 0 <= i < |xs| ==> InI32(xs[i].snum) && InI32(xs[i].sdenom)
    ensures |EncodeAll(xs, SRatioBytes)| == 8 * |xs|
    ensures DecodeAll(EncodeAll(xs, SRatioBytes), 8, DecSRatio) == xs
  {
    forall i | 0 <= i < |xs|
      ensures |SRatioBytes(xs[i])| == 8 && DecSRatio(SRatioBytes(xs[i])) == xs[i]
    {
      var a := I32Bytes(xs[i].snum);
      var b := I32Bytes(xs[i].sdenom);
      assert (a + b)[..4] == a && (a + b)[4..] == b;
      SignedWrap(xs[i].snum, U32_LIMIT);
      SignedWrap(xs[i].sdenom, U32_LIMIT);
    }
    DecodeEncodeAll(xs, 8, SRatioBytes, DecSRatio);
  }

  lemma I8RoundTrip(x: int)
    requires InI8(x)
    ensures |I8Byte(x)| == 1 && DecI8(I8Byte(x)) == x
  {
    SignedWrap(x, 256);
  }

  lemma I16RoundTrip(x: int)
    requires InI16(x)
    ensures |I16Bytes(x)| == 2 && DecI16(I16Bytes(x)) == x
  {
    SignedWrap(x, U16_LIMIT);
  }

  lemma I32RoundTrip(x: int)
    requires InI32(x)
    ensures |I32Bytes(x)| == 4 && DecI32(I32Bytes(x)) == x
  {
    SignedWrap(x, U32_LIMIT);
  }

  lemma U16sRoundTrip(xs: seq<nat>)
    requires forall i :: 0 <= i < |xs| ==> InU16(xs[i])
    ensures |EncodeAll(xs, U16Bytes)| == 2 * |xs|
    ensures DecodeAll(EncodeAll(xs, U16Bytes), 2, DecU16) == xs
  {
    DecodeEncodeAll(xs, 2, U16Bytes, DecU16);
  }

  lemma U32sRoundTrip(xs: seq<nat>)
    requires forall i :: 0 <= i < |xs| ==> InU32(xs[i])
    ensures |EncodeAll(xs, U32Bytes)| == 4 * |xs|
    ensures DecodeAll(EncodeAll(xs, U32Bytes), 4, DecU32) == xs
  {
    DecodeEncodeAll(xs, 4, U32Bytes, DecU32);
  }

  lemma U64sRoundTrip(xs: seq<nat>)
    requires forall i :: 0 <= i < |xs| ==> xs[i] < U64_LIMIT
    ensures |EncodeAll(xs, U64Bytes)| == 8 * |xs|
    ensures DecodeAll(EncodeAll(xs, U64Bytes), 8, DecU64) == xs
  {
    DecodeEncodeAll(xs, 8, U64Bytes, DecU64);
  }

  lemma I8sRoundTrip(xs: seq<int>)
    requires forall i :: 0 <= i < |xs| ==> InI8(xs[i])
    ensures |EncodeAll(xs, I8Byte)| == |xs|
    ensures DecodeAll(EncodeAll(xs, I8Byte), 1, DecI8) == xs
  {
    forall x | InI8(x) ensures |I8Byte(x)| == 1 && DecI8(I8Byte(x)) == x { I8RoundTrip(x); }
    DecodeEncodeAll(xs, 1, I8Byte, DecI8);
  }

  lemma I16sRoundTrip(xs: seq<int>)
    requires forall i :: 0 <= i < |xs| ==> InI16(xs[i])
    ensures |EncodeAll(xs, I16Bytes)| == 2 * |xs|
    ensures DecodeAll(EncodeAll(xs, I16Bytes), 2, DecI16) == xs
  {
    forall x | InI16(x) ensures |I16Bytes(x)| == 2 && DecI16(I16Bytes(x)) == x { I16RoundTrip(x); }
    DecodeEncodeAll(xs, 2, I16Bytes, DecI16);
  }

  lemma I32sRoundTrip(xs: seq<int>)
    requires forall i :: 0 <= i < |xs| ==> InI32(xs[i])
    ensures |EncodeAll(xs, I32Bytes)| == 4 * |xs|
    ensures DecodeAll(EncodeAll(xs, I32Bytes), 4, DecI32) == xs
  {
    forall x | InI32(x) ensures |I32Bytes(x)| == 4 && DecI32(I32Bytes(x)) == x { I32RoundTrip(x); }
    DecodeEncodeAll(xs, 4, I32Bytes, DecI32);
  }

  /** The stored bytes of every valid non-ASCII value decode back to it, and
      there are as many as the element count times the type's unit size. */
  lemma ValueRoundTrip(v: Value)
    requires ValidValue(v) && !v.Ascii? && !v.Unknown?
    ensures |ValueBytes(v)| == UnitSize(TypeCode(v)) * ElementCount(v)
    ensures DecodeValue(TypeCode(v), ValueBytes(v)) == v
  {
    if v.Byte? || v.Undefined? || v.Short? || v.Long? || v.Float? || v.Double? {
      UnsignedRoundTrip(v);
    } else {
      SignedOrRatioRoundTrip(v);
    }
  }

  /** `ValueRoundTrip` for the unsigned and floating-point types. */
  lemma UnsignedRoundTrip(v: Value)
    requires ValidValue(v) && (v.Byte? || v.Undefined? || v.Short? || v.Long? || v.Float? || v.Double?)
    ensures |ValueBytes(v)| == UnitSize(TypeCode(v)) * ElementCount(v)
    ensures DecodeValue(TypeCode(v), ValueBytes(v)) == v
  {
    match v
    case Byte(xs) => EncodeOneByte(xs);
    case Undefined(xs) => EncodeOneByte(xs);
    case Short(xs) => U16sRoundTrip(xs);
    case Long(xs) => U32sRoundTrip(xs);
    case Float(xs) => U32sRoundTrip(xs);
    case Double(xs) => U64sRoundTrip(xs);
  }

  /** `ValueRoundTrip` for the signed and rational types. */
  lemma SignedOrRatioRoundTrip(v: Value)
    requires ValidValue(v) && (v.SByte? || v.SShort? || v.SLong? || v.Rational? || v.SRational?)
    ensures |ValueBytes(v)| == UnitSize(TypeCode(v)) * ElementCount(v)
    ensures DecodeValue(TypeCode(v), ValueBytes(v)) == v
  {
    match v
    case Rational(xs) => RatioRoundTrip(xs);
    case SRational(xs) => SRatioRoundTrip(xs);
    case SByte(xs) => I8sRoundTrip(xs);
    case SShort(xs) => I16sRoundTrip(xs);
    case SLong(xs) => I32sRoundTrip(xs);
  }

  // ---------------------------------------------------------------------
  // Display form (`format_exif_value`)

  function MapSeq<T, U>(xs: seq<T>, f: T -> U): (r: seq<U>)
    ensures |r| == |xs| && forall i :: 0 <= i < |xs| ==> r[i] == f(xs[i])
  {
    seq(|xs|, i requires 0 <= i < |xs| => f(xs[i]))
  }

  /** `{:?}` of an integer slice: `[1, 2, 3]`. */
  function DebugList(xs: seq<int>): string {
    "[" + Join(MapSeq(xs, IntToString), ", ") + "]"
  }

  function ByteInt(b: byte): int { b as int }

  function RatioText(r: Ratio): string {
    NatToString(r.num) + "/" + NatToString(r.denom)
  }

  function SRatioText(r: SRatio): string {
    IntToString(r.snum) + "/" + IntToString(r.sdenom)
  }

  /** The characters the ASCII cleaner keeps. */
  predicate IsPrintable(c: char) {
    IsAsciiGraphic(c) || IsAsciiWhitespace(c)
  }

  predicate AllPrintable(s: string) {
    forall i :: 0 <= i < |s| ==> IsPrintable(s[i])
  }

  /** `chars().all(|c| !c.is_ascii_graphic() && !c.is_ascii_whitespace())`. */
  predicate NothingPrintable(s: string) {
    forall i :: 0 <= i < |s| ==> !IsPrintable(s[i])
  }

  lemma PrintableIsAscii(s: string)
    requires AllPrintable(s)
    ensures IsAscii(s)
  {
  }

  /** `trim_end_matches('\0')`. */
  function TrimEndNul(s: string): (r: string)
    ensures |r| <= |s| && r == s[..|r|]
    ensures forall i :: |r| <= i < |s| ==> s[i] == '\0'
    ensures |r| > 0 ==> r[|r| - 1] != '\0'
  {
    if |s| > 0 && s[|s| - 1] == '\0' then TrimEndNul(s[..|s| - 1]) else s
  }

  /** `chars().filter(is_ascii_graphic || is_ascii_whitespace)`. */
  function KeepPrintable(s: string): (r: string)
    ensures AllPrintable(r)
    ensures AllPrintable(s) ==> r == s
  {
    if |s| == 0 then ""
    else (if IsPrintable(s[0]) then [s[0]] else []) + KeepPrintable(s[1..])
  }

  /** The filter keeps every printable character, in order: filtering a
      string with one more character at the end adds exactly that
      character when it is printable. */
  lemma {:induction false} KeepPrintableAppend(s: string, c: char)
    ensures KeepPrintable(s + [c]) == KeepPrintable(s) + (if IsPrintable(c) then [c] else [])
    decreases |s|
  {
    var last: string := if IsPrintable(c) then [c] else [];
    if |s| == 0 {
      assert [c][1..] == [];
      assert KeepPrintable([c]) == last + KeepPrintable([]);
      assert s + [c] == [c];
    } else {
      var t := s + [c];
      assert t[0] == s[0] && t[1..] == s[1..] + [c];
      var head: string := if IsPrintable(s[0]) then [s[0]] else [];
      assert KeepPrintable(t) == head + KeepPrintable(s[1..] + [c]);
      KeepPrintableAppend(s[1..], c);
      assert KeepPrintable(s) == head + KeepPrintable(s[1..]);
      assert head + (KeepPrintable(s[1..]) + last) == (head + KeepPrintable(s[1..])) + last;
    }
  }

  /** A character survives the filter exactly when it is printable and
      occurs in the input. */
  lemma {:induction false} KeepPrintableMembers(s: string, c: char)
    ensures c in KeepPrintable(s) <==> c in s && IsPrintable(c)
  {
    if |s| > 0 {
      KeepPrintableMembers(s[1..], c);
      assert s == [s[0]] + s[1..];
    }
  }

  /** One ASCII string of the field, cleaned for display. */
  function CleanAscii(b: seq<byte>): (r: string)
    ensures AllPrintable(r)
  {
    Trim(KeepPrintable(TrimEndNul(Utf8.DecodeLossy(b))))
  }

  const BINARY_PLACEHOLDER: string := "<binary data>"

  /** The cleaned strings of an ASCII field, empty ones dropped. */
  function AsciiParts(strings: seq<seq<byte>>): seq<string> {
    if |strings| == 0 then []
    else
      var c := CleanAscii(strings[0]);
      var rest := AsciiParts(strings[1..]);
      if c == "" then rest else [c] + rest
  }

  /** Every kept string is non-empty and printable. */
  lemma {:induction false} AsciiPartsClean(strings: seq<seq<byte>>)
    ensures forall p :: p in AsciiParts(strings) ==> |p| > 0 && AllPrintable(p)
  {
    if |strings| > 0 {
      AsciiPartsClean(strings[1..]);
      var c := CleanAscii(strings[0]);
      var rest := AsciiParts(strings[1..]);
      if c == "" {
        assert AsciiParts(strings) == rest;
      } else {
        assert AsciiParts(strings) == [c] + rest;
      }
    }
  }

  /** The ASCII arm: the cleaned strings joined by ", ", or the placeholder
      when the result is empty or holds nothing printable. */
  function FormatAscii(strings: seq<seq<byte>>): string {
    var result := Join(AsciiParts(strings), ", ");
    if |result| == 0 || NothingPrintable(result) then BINARY_PLACEHOLDER else result
  }

  /** The placeholder appears exactly when every string cleans to nothing:
      the "nothing printable" test never fires on its own, since the cleaner
      has already removed every such character. */
  lemma FormatAsciiMeaning(strings: seq<seq<byte>>)
    ensures |AsciiParts(strings)| == 0 ==> FormatAscii(strings) == BINARY_PLACEHOLDER
    ensures |AsciiParts(strings)| > 0 ==> FormatAscii(strings) == Join(AsciiParts(strings), ", ")
  {
    var parts := AsciiParts(strings);
    AsciiPartsClean(strings);
    if |parts| > 0 {
      JoinPrintable(parts);
    }
  }

  /** Joining non-empty printable items by ", " leaves something printable. */
  lemma JoinPrintable(parts: seq<string>)
    requires |parts| > 0
    requires forall i :: 0 <= i < |parts| ==> |parts[i]| > 0 && AllPrintable(parts[i])
    ensures |Join(parts, ", ")| > 0 && !NothingPrintable(Join(parts, ", "))
  {
    assert Join(parts, ", ")[0] == parts[0][0];
  }

  /** `format_exif_value`. Floats and doubles are rendered by Rust's
      shortest round-trip `Display`, passed in as `floatText` and
      `doubleText` (keyed by bit pattern). An ASCII field shows its cleaned
      strings joined by ", ", and the placeholder only when none is left. */
  function FormatExifValue(v: Value, floatText: nat -> string, doubleText: nat -> string): (r: string)
    ensures v.Ascii? && |AsciiParts(v.strings)| == 0 ==> r == BINARY_PLACEHOLDER
    ensures v.Ascii? && |AsciiParts(v.strings)| > 0 ==> r == Join(AsciiParts(v.strings), ", ")
  {
    match v
    case Byte(xs) => DebugList(MapSeq(xs, ByteInt))
    case Ascii(ss) =>
      FormatAsciiMeaning(ss);
      FormatAscii(ss)
    case Short(xs) => Join(MapSeq(xs, NatToString), ", ")
    case Long(xs) => Join(MapSeq(xs, NatToString), ", ")
    case Rational(xs) => Join(MapSeq(xs, RatioText), ", ")
    case SByte(xs) => DebugList(xs)
    case Undefined(xs) => "Undefined(" + NatToString(|xs|) + " bytes)"
    case SShort(xs) => Join(MapSeq(xs, IntToString), ", ")
    case SLong(xs) => Join(MapSeq(xs, IntToString), ", ")
    case SRational(xs) => Join(MapSeq(xs, SRatioText), ", ")
    case Float(xs) => Join(MapSeq(xs, floatText), ", ")
    case Double(xs) => Join(MapSeq(xs, doubleText), ", ")
    case Unknown(a, b, c) =>
      "Unknown(tag=" + NatToString(a) + ", type=" + NatToString(b) + ", count=" + NatToString(c) + ")"
  }

  lemma DecodeTerminated(s: string)
    requires |s| > 0 && IsAsciiGraphic(s[0]) && IsAsciiGraphic(s[|s| - 1])
    requires AllPrintable(s)
    ensures Utf8.DecodeLossy(Utf8.Encode(s) + [0]) == s + ['\0']
  {
    assert forall i :: 0 <= i < |s| ==> s[i] < '\U{0080}';
    Utf8.EncodeAscii(s);
    var e := Utf8.Encode(s);
    var b := e + [0];
    assert forall i :: 0 <= i < |b| ==> b[i] < 0x80 by {
      forall i | 0 <= i < |b| ensures b[i] < 0x80 {
        if i < |e| { assert b[i] == e[i]; } else { assert b[i] == 0; }
      }
    }
    Utf8.DecodeAscii(b);
    var d := Utf8.DecodeLossy(b);
    var t := s + ['\0'];
    forall i | 0 <= i < |t| ensures d[i] == t[i] {
      if i < |s| {
        assert b[i] == e[i];
        assert d[i] as int == s[i] as int;
      } else {
        assert b[i] == 0;
      }
    }
  }
  lemma TrimEndNulTerminated(s: string)
    requires |s| > 0 && IsAsciiGraphic(s[0]) && IsAsciiGraphic(s[|s| - 1])
    ensures TrimEndNul(s + ['\0']) == s
  {
    assert (s + ['\0'])[..|s|] == s;
  }
  lemma CleanTerminated(s: string)
    requires |s| > 0 && IsAsciiGraphic(s[0]) && IsAsciiGraphic(s[|s| - 1])
    requires AllPrintable(s)
    ensures CleanAscii(Utf8.Encode(s) + [0]) == s
  {
    var b := Utf8.Encode(s) + [0];
    DecodeTerminated(s);
    var d := Utf8.DecodeLossy(b);
    assert d == s + ['\0'];
    TrimEndNulTerminated(s);
    var t := TrimEndNul(d);
    assert t == s;
    var k := KeepPrintable(t);
    assert k == s;
    GraphicNotWhitespace(s[0]);
    GraphicNotWhitespace(s[|s| - 1]);
    TrimOfUntrimmed(s);
    assert Trim(k) == s;
  }

  /** A trimmed printable ASCII string stored with its NUL terminator is
      displayed as itself. */
  lemma AsciiRoundTrip(s: string, floatText: nat -> string, doubleText: nat -> string)
    requires |s| > 0 && IsAsciiGraphic(s[0]) && IsAsciiGraphic(s[|s| - 1])
    requires AllPrintable(s)
    ensures FormatExifValue(Ascii([Utf8.Encode(s) + [0]]), floatText, doubleText) == s
  {
    var b := Utf8.Encode(s) + [0];
    PartsTerminated(s);
    FormatAsciiMeaning([b]);
  }

  lemma PartsTerminated(s: string)
    requires |s| > 0 && IsAsciiGraphic(s[0]) && IsAsciiGraphic(s[|s| - 1])
    requires AllPrintable(s)
    ensures AsciiParts([Utf8.Encode(s) + [0]]) == [s]
  {
    var b := Utf8.Encode(s) + [0];
    CleanTerminated(s);
    assert [b][1..] == [];
  }

  /** A list of unsigned numbers is displayed as their decimal forms joined
      by ", ", which splits and parses back to the list. */
  lemma NatListRoundTrip(xs: seq<nat>)
    requires |xs| > 0
    ensures var parts := SplitList(Join(MapSeq(xs, NatToString), ", "));
      |parts| == |xs| && forall i :: 0 <= i < |xs| ==> IsDigits(parts[i]) && DigitsValue(parts[i]) == xs[i]
  {
    var strs := MapSeq(xs, NatToString);
    forall i | 0 <= i < |strs| ensures ',' !in strs[i] {
      assert IsDigits(strs[i]);
    }
    SplitJoinList(strs);
    forall i | 0 <= i < |xs| ensures DigitsValue(strs[i]) == xs[i] {
      NatToStringRoundTrip(xs[i]);
    }
  }

  lemma ShortRoundTrip(xs: seq<nat>, floatText: nat -> string, doubleText: nat -> string)
    requires |xs| > 0
    ensures var parts := SplitList(FormatExifValue(Short(xs), floatText, doubleText));
      |parts| == |xs| && forall i :: 0 <= i < |xs| ==> IsDigits(parts[i]) && DigitsValue(parts[i]) == xs[i]
  {
    NatListRoundTrip(xs);
  }

  lemma {:induction false} MapAscii<T>(xs: seq<T>, f: T -> string, sep: string)
    requires IsAscii(sep)
    requires forall x :: IsAscii(f(x))
    ensures IsAscii(Join(MapSeq(xs, f), sep))
  {
    JoinAscii(MapSeq(xs, f), sep);
  }

  lemma NatAscii(n: nat)
    ensures IsAscii(NatToString(n))
  {
    DigitsAscii(NatToString(n));
  }

  lemma RatiosAscii(xs: seq<Ratio>)
    ensures IsAscii(Join(MapSeq(xs, RatioText), ", "))
  {
    forall r: Ratio ensures IsAscii(RatioText(r)) { NatAscii(r.num); NatAscii(r.denom); }
    MapAscii(xs, RatioText, ", ");
  }

  lemma NatsAscii(xs: seq<nat>)
    ensures IsAscii(Join(MapSeq(xs, NatToString), ", "))
  {
    forall n: nat ensures IsAscii(NatToString(n)) { NatAscii(n); }
    MapAscii(xs, NatToString, ", ");
  }

  lemma AsciiPartsAscii(ss: seq<seq<byte>>)
    ensures IsAscii(Join(AsciiParts(ss), ", "))
  {
    var parts := AsciiParts(ss);
    AsciiPartsClean(ss);
    forall i | 0 <= i < |parts| ensures IsAscii(parts[i]) {
      PrintableIsAscii(parts[i]);
    }
    JoinAscii(parts, ", ");
  }

  lemma AsciiFieldAscii(ss: seq<seq<byte>>)
    ensures IsAscii(FormatAscii(ss))
  {
    FormatAsciiMeaning(ss);
    if |AsciiParts(ss)| == 0 {
      PlaceholderAscii();
    } else {
      AsciiPartsAscii(ss);
    }
  }

  lemma PlaceholderAscii()
    ensures IsAscii(BINARY_PLACEHOLDER)
  {
  }

  lemma UnknownAscii(a: nat, b: nat, c: nat)
    ensures IsAscii("Unknown(tag=" + NatToString(a) + ", type=" + NatToString(b) + ", count=" + NatToString(c) + ")")
  {
    NatAscii(a);
    NatAscii(b);
    NatAscii(c);
  }

  /** Every display form is ASCII, so cutting it at any byte offset falls
      on a character boundary, given renderers for floats and doubles that
      produce ASCII (Rust's float `Display` does). */
  lemma FormatIsAscii(v: Value, floatText: nat -> string, doubleText: nat -> string)
    requires forall x :: IsAscii(floatText(x)) && IsAscii(doubleText(x))
    ensures IsAscii(FormatExifValue(v, floatText, doubleText))
  {
    if v.Float? || v.Double? {
      FloatsAscii(v, floatText, doubleText);
    } else if v.Ascii? || v.Undefined? || v.Unknown? {
      TextualAscii(v, floatText, doubleText);
    } else {
      NumbersAscii(v, floatText, doubleText);
    }
  }

  lemma FloatsAscii(v: Value, floatText: nat -> string, doubleText: nat -> string)
    requires v.Float? || v.Double?
    requires forall x :: IsAscii(floatText(x)) && IsAscii(doubleText(x))
    ensures IsAscii(FormatExifValue(v, floatText, doubleText))
  {
    match v
    case Float(xs) => MapAscii(xs, floatText, ", ");
    case Double(xs) => MapAscii(xs, doubleText, ", ");
  }

  lemma TextualAscii(v: Value, floatText: nat -> string, doubleText: nat -> string)
    requires v.Ascii? || v.Undefined? || v.Unknown?
    ensures IsAscii(FormatExifValue(v, floatText, doubleText))
  {
    match v
    case Ascii(ss) => AsciiFieldAscii(ss);
    case Undefined(xs) => NatAscii(|xs|);
    case Unknown(a, b, c) => UnknownAscii(a, b, c);
  }

  lemma NumbersAscii(v: Value, floatText: nat -> string, doubleText: nat -> string)
    requires !v.Float? && !v.Double? && !v.Ascii? && !v.Undefined? && !v.Unknown?
    ensures IsAscii(FormatExifValue(v, floatText, doubleText))
  {
    if v.Short? || v.Long? || v.Rational? {
      UnsignedAscii(v, floatText, doubleText);
    } else {
      SignedAscii(v, floatText, doubleText);
    }
  }

  lemma UnsignedAscii(v: Value, floatText: nat -> string, doubleText: nat -> string)
    requires v.Short? || v.Long? || v.Rational?
    ensures IsAscii(FormatExifValue(v, floatText, doubleText))
  {
    match v
    case Short(xs) => NatsAscii(xs);
    case Long(xs) => NatsAscii(xs);
    case Rational(xs) => RatiosAscii(xs);
  }

  lemma SignedAscii(v: Value, floatText: nat -> string, doubleText: nat -> string)
    requires v.Byte? || v.SByte? || v.SShort? || v.SLong? || v.SRational?
    ensures IsAscii(FormatExifValue(v, floatText, doubleText))
  {
    if v.Byte? || v.SByte? {
      ByteSizedAscii(v, floatText, doubleText);
    } else {
      WideSignedAscii(v, floatText, doubleText);
    }
  }

  lemma ByteSizedAscii(v: Value, floatText: nat -> string, doubleText: nat -> string)
    requires v.Byte? || v.SByte?
    ensures IsAscii(FormatExifValue(v, floatText, doubleText))
  {
    match v
    case Byte(xs) => MapAscii(MapSeq(xs, ByteInt), IntToString, ", ");
    case SByte(xs) => MapAscii(xs, IntToString, ", ");
  }

  lemma WideSignedAscii(v: Value, floatText: nat -> string, doubleText: nat -> string)
    requires v.SShort? || v.SLong? || v.SRational?
    ensures IsAscii(FormatExifValue(v, floatText, doubleText))
  {
    match v
    case SShort(xs) => MapAscii(xs, IntToString, ", ");
    case SLong(xs) => MapAscii(xs, IntToString, ", ");
    case SRational(xs) => MapAscii(xs, SRatioText, ", ");
  }
}
