/** The single-IFD TIFF block and APP1 segment both EXIF builders write
    (src/exif/processors.rs:81-206 and 721-913): an 8-byte little-endian
    TIFF header pointing at offset 8, the entry count, 12-byte entry
    records, a zero next-IFD pointer, then every value longer than four
    bytes, in entry order, at the offsets the records name. */
module Ifd {
  import opened Wrappers
  import opened Bytes
  import ExifValues

  /** One queued IFD entry: tag, TIFF type, the count the record states and
      the value bytes. */
  datatype Entry = Entry(tag: nat, typ: nat, count: nat, data: seq<byte>)

  /** The Rust types the builders hold these in: `u16` tags, `u8` types. */
  predicate WellTyped(e: Entry) {
    e.tag < U16_LIMIT && e.typ < 256
  }

  predicate AllWellTyped(es: seq<Entry>) {
    forall i :: 0 <= i < |es| ==> WellTyped(es[i])
  }

  /** The record's count fits its `u32` field and agrees with the value's
      length, as a TIFF reader computes it from the type. */
  predicate WellFormed(e: Entry) {
    WellTyped(e) && e.count < U32_LIMIT && |e.data| == e.count * ExifValues.UnitSize(e.typ)
  }

  predicate AllWellFormed(es: seq<Entry>) {
    forall i :: 0 <= i < |es| ==> WellFormed(es[i])
  }

  /** Bytes the entry's value occupies after the IFD. */
  function Extra(e: Entry): nat {
    if |e.data| <= 4 then 0 else |e.data|
  }

  function ExtraSum(es: seq<Entry>): nat {
    if |es| == 0 then 0 else Extra(es[0]) + ExtraSum(es[1..])
  }

  /** The record's last four bytes: the value zero-padded when it fits,
      otherwise its offset from the TIFF header (0 when that offset does
      not fit a `u32`). */
  function ValueField(e: Entry, offset: nat): (r: seq<byte>)
    ensures |r| == 4
  {
    if |e.data| <= 4 then e.data + Zeros(4 - |e.data|) else LE32(U32OrZero(offset))
  }

  function Record(e: Entry, offset: nat): (r: seq<byte>)
    requires WellTyped(e)
    ensures |r| == 12
  {
    LE16(e.tag) + [e.typ as byte, 0x00] + LE32(U32OrZero(e.count)) + ValueField(e, offset)
  }

  /** The records of `es`, the first value stored past the IFD at `offset`. */
  function Records(es: seq<Entry>, offset: nat): (r: seq<byte>)
    requires AllWellTyped(es)
    ensures |r| == 12 * |es|
  {
    if |es| == 0 then []
    else Record(es[0], offset) + Records(es[1..], offset + Extra(es[0]))
  }

  /** The values that do not fit their records, in entry order. */
  function Overflow(es: seq<Entry>): (r: seq<byte>)
    ensures |r| == ExtraSum(es)
  {
    if |es| == 0 then []
    else (if |es[0].data| <= 4 then [] else es[0].data) + Overflow(es[1..])
  }

  /** "II*\0" followed by the first IFD's offset, 8, as a little-endian `u32`. */
  const TIFF_HEADER: seq<byte> := [0x49, 0x49, 0x2A, 0x00, 0x08, 0x00, 0x00, 0x00]

  /** "Exif\0\0". */
  const EXIF_HEADER: seq<byte> := [0x45, 0x78, 0x69, 0x66, 0x00, 0x00]

  /** Where the overflow area starts: header, count, records and next-IFD
      pointer (`8 + 2 + entry_count * 12 + 4`). */
  function DataStart(n: nat): nat {
    8 + 2 + 12 * n + 4
  }

  /** The TIFF block; the entry count is written `as u16`. */
  function Tiff(es: seq<Entry>): (t: seq<byte>)
    requires AllWellTyped(es)
    ensures |t| == DataStart(|es|) + ExtraSum(es)
  {
    TIFF_HEADER + LE16(WrapU16(|es|)) + Records(es, DataStart(|es|)) + [0, 0, 0, 0] + Overflow(es)
  }

  /** The APP1 segment: marker, big-endian length of the payload plus the
      two length bytes (0 when that does not fit a `u16`), payload. */
  function App1(es: seq<Entry>): (s: seq<byte>)
    requires AllWellTyped(es)
    ensures |s| == 4 + |EXIF_HEADER| + |Tiff(es)|
  {
    var data := EXIF_HEADER + Tiff(es);
    [0xFF, 0xE1] + BE16(U16OrZero(|data| + 2)) + data
  }

  // ---------------------------------------------------------------------
  // A reader for the block: the partner of the writer

  /** Reads the record at `p`; the value is `count * unit size` bytes,
      inline when at most four, otherwise at the stated offset. */
  function ReadEntry(t: seq<byte>, p: nat): Option<Entry>
    requires p + 12 <= |t|
  {
    var tag := DecodeLE16(t[p..p + 2]);
    var typ := DecodeLE16(t[p + 2..p + 4]);
    var count := DecodeLE32(t[p + 4..p + 8]);
    var size := count * ExifValues.UnitSize(typ);
    if size <= 4 then Some(Entry(tag, typ, count, t[p + 8..p + 8 + size]))
    else
      var offset := DecodeLE32(t[p + 8..p + 12]);
      if offset + size <= |t| then Some(Entry(tag, typ, count, t[offset..offset + size])) else None
  }

  function ReadEntries(t: seq<byte>, p: nat, n: nat): Option<seq<Entry>>
    decreases n
  {
    if n == 0 then Some([])
    else if p + 12 > |t| then None
    else match ReadEntry(t, p)
      case None => None
      case Some(e) =>
        match ReadEntries(t, p + 12, n - 1)
        case None => None
        case Some(rest) => Some([e] + rest)
  }

  function ParseTiff(t: seq<byte>): Option<seq<Entry>> {
    if |t| < 10 || t[..8] != TIFF_HEADER then None
    else ReadEntries(t, 10, DecodeLE16(t[8..10]))
  }

  /** Accepts an APP1 segment whose length field matches its size and whose
      payload is an EXIF header followed by a TIFF block. */
  function ParseApp1(s: seq<byte>): Option<seq<Entry>> {
    if |s| < 10 || s[..2] != [0xFF, 0xE1] || DecodeBE16(s[2..4]) + 2 != |s| || s[4..10] != EXIF_HEADER
    then None
    else ParseTiff(s[10..])
  }

  // ---------------------------------------------------------------------
  // Round trip

  lemma SubSlice<T>(t: seq<T>, p: nat, i: nat, j: nat, n: nat)
    requires p + n <= |t| && i <= j <= n
    ensures t[p..p + n][i..j] == t[p + i..p + j]
  {
    var s := t[p..p + n];
    forall k | 0 <= k < j - i
      ensures s[i..j][k] == t[p + i..p + j][k]
    {
      assert s[i..j][k] == s[i + k];
    }
  }

  lemma {:induction false} RecordsAt(es: seq<Entry>, offset: nat, k: nat)
    requires AllWellTyped(es) && k < |es|
    ensures Records(es, offset)[12 * k..12 * k + 12] == Record(es[k], offset + ExtraSum(es[..k]))
  {
    if k == 0 {
      RecordsAtFirst(es, offset);
    } else {
      TailWellTyped(es);
      RecordsAt(es[1..], offset + Extra(es[0]), k - 1);
      RecordsAtNext(es, offset, k);
    }
  }

  lemma TailWellTyped(es: seq<Entry>)
    requires AllWellTyped(es) && |es| > 0
    ensures AllWellTyped(es[1..])
  {
    forall i | 0 <= i < |es| - 1 ensures WellTyped(es[1..][i]) { assert es[1..][i] == es[i + 1]; }
  }

  lemma RecordsAtFirst(es: seq<Entry>, offset: nat)
    requires AllWellTyped(es) && 0 < |es|
    ensures Records(es, offset)[0..12] == Record(es[0], offset + ExtraSum(es[..0]))
  {
    TailWellTyped(es);
    var head := Record(es[0], offset);
    var rest := Records(es[1..], offset + Extra(es[0]));
    assert Records(es, offset) == head + rest;
    assert ExtraSum(es[..0]) == 0 by { assert es[..0] == []; }
    RecordSame(es[0], offset, es[0], offset + ExtraSum(es[..0]));
    ChunkFirst(Records(es, offset), head, rest, Record(es[0], offset + ExtraSum(es[..0])));
  }

  /** The step of `RecordsAt`: record `k` of `es` is record `k - 1` of its tail. */
  lemma RecordsAtNext(es: seq<Entry>, offset: nat, k: nat)
    requires AllWellTyped(es) && 0 < k < |es| && AllWellTyped(es[1..])
    requires Records(es[1..], offset + Extra(es[0]))[12 * (k - 1)..12 * (k - 1) + 12]
      == Record(es[1..][k - 1], offset + Extra(es[0]) + ExtraSum(es[1..][..k - 1]))
    ensures Records(es, offset)[12 * k..12 * k + 12] == Record(es[k], offset + ExtraSum(es[..k]))
  {
    var head := Record(es[0], offset);
    var rest := Records(es[1..], offset + Extra(es[0]));
    assert Records(es, offset) == head + rest;
    ExtraSumHead(es, k);
    RecordSame(es[1..][k - 1], offset + Extra(es[0]) + ExtraSum(es[1..][..k - 1]), es[k], offset + ExtraSum(es[..k]));
    ChunkAfter(Records(es, offset), head, rest, k, Record(es[k], offset + ExtraSum(es[..k])));
  }

  lemma ChunkFirst(all: seq<byte>, head: seq<byte>, rest: seq<byte>, x: seq<byte>)
    requires all == head + rest && |head| == 12 && head == x
    ensures all[0..12] == x
  {
    assert all[0..12] == head;
  }

  /** Chunk `k` of `head + rest`, past a 12-byte `head`, is chunk `k - 1` of `rest`. */
  lemma ChunkAfter(all: seq<byte>, head: seq<byte>, rest: seq<byte>, k: nat, x: seq<byte>)
    requires all == head + rest && |head| == 12 && 0 < k && 12 * k <= |rest|
    requires rest[12 * (k - 1)..12 * (k - 1) + 12] == x
    ensures all[12 * k..12 * k + 12] == x
  {
    SliceAfter(head, rest, 12 * (k - 1), 12);
  }

  lemma RecordSame(e: Entry, o: nat, e': Entry, o': nat)
    requires WellTyped(e) && e == e' && o == o'
    ensures Record(e, o) == Record(e', o')
  {
  }

  /** A slice past a prefix `h` is the same slice of what follows it. */
  lemma SliceAfter<T>(h: seq<T>, x: seq<T>, a: nat, n: nat)
    requires a + n <= |x|
    ensures (h + x)[|h| + a..|h| + a + n] == x[a..a + n]
  {
    var y := (h + x)[|h| + a..|h| + a + n];
    var z := x[a..a + n];
    forall i | 0 <= i < n
      ensures y[i] == z[i]
    {
      assert (h + x)[|h| + a + i] == x[a + i];
    }
  }

  lemma ExtraSumHead(es: seq<Entry>, k: nat)
    requires 0 < k <= |es|
    ensures ExtraSum(es[..k]) == Extra(es[0]) + ExtraSum(es[1..][..k - 1])
  {
    assert es[..k][0] == es[0];
    assert es[..k][1..] == es[1..][..k - 1];
  }

  lemma {:induction false} OverflowAt(es: seq<Entry>, k: nat)
    requires k < |es| && |es[k].data| > 4
    ensures ExtraSum(es[..k]) + |es[k].data| <= ExtraSum(es)
    ensures Overflow(es)[ExtraSum(es[..k])..ExtraSum(es[..k]) + |es[k].data|] == es[k].data
  {
    var tail := es[1..];
    var head := if |es[0].data| <= 4 then [] else es[0].data;
    assert |head| == Extra(es[0]);
    assert Overflow(es) == head + Overflow(tail);
    if k > 0 {
      OverflowAt(tail, k - 1);
      assert tail[k - 1] == es[k];
      ExtraSumHead(es, k);
      SliceAfter(head, Overflow(tail), ExtraSum(tail[..k - 1]), |es[k].data|);
    } else {
      assert es[..0] == [];
      assert head == es[0].data;
      assert Overflow(es)[0..|es[0].data|] == es[0].data;
    }
  }

  lemma ExtraSumPrefix(es: seq<Entry>, k: nat)
    requires k <= |es|
    ensures ExtraSum(es[..k]) <= ExtraSum(es)
    decreases k
  {
    if k > 0 {
      ExtraSumPrefix(es[1..], k - 1);
      assert es[..k][1..] == es[1..][..k - 1];
    }
  }

  lemma RecordPieces(r: seq<byte>, a: seq<byte>, b: seq<byte>, c: seq<byte>, d: seq<byte>)
    requires |a| == 2 && |b| == 2 && |c| == 4 && |d| == 4 && r == a + b + c + d
    ensures r[0..2] == a && r[2..4] == b && r[4..8] == c && r[8..12] == d
  {
    assert r[2..4] == [r[2], r[3]];
  }

  /** The four fields of a record written by `Record`, read back. */
  lemma RecordFields(t: seq<byte>, p: nat, e: Entry, offset: nat)
    requires WellFormed(e) && p + 12 <= |t|
    requires t[p..p + 12] == Record(e, offset)
    ensures DecodeLE16(t[p..p + 2]) == e.tag
    ensures DecodeLE16(t[p + 2..p + 4]) == e.typ
    ensures DecodeLE32(t[p + 4..p + 8]) == e.count
    ensures t[p + 8..p + 12] == ValueField(e, offset)
  {
    var b: seq<byte> := [e.typ as byte, 0x00];
    var r := t[p..p + 12];
    RecordPieces(r, LE16(e.tag), b, LE32(e.count), ValueField(e, offset));
    SubSlice(t, p, 0, 2, 12);
    SubSlice(t, p, 2, 4, 12);
    SubSlice(t, p, 4, 8, 12);
    SubSlice(t, p, 8, 12, 12);
  }

  /** Decoding one record written by `Record` gives the entry back. */
  lemma ReadRecord(t: seq<byte>, p: nat, e: Entry, offset: nat)
    requires WellFormed(e) && p + 12 <= |t|
    requires t[p..p + 12] == Record(e, offset)
    requires |e.data| > 4 ==> offset < U32_LIMIT && offset + |e.data| <= |t| && t[offset..offset + |e.data|] == e.data
    ensures ReadEntry(t, p) == Some(e)
  {
    RecordFields(t, p, e, offset);
    var size := |e.data|;
    assert size == DecodeLE32(t[p + 4..p + 8]) * ExifValues.UnitSize(DecodeLE16(t[p + 2..p + 4]));
    if size <= 4 {
      SubSlice(t, p + 8, 0, size, 4);
      assert ValueField(e, offset)[..size] == e.data;
    } else {
      assert DecodeLE32(t[p + 8..p + 12]) == offset;
    }
  }

  /** Where the parts of a five-part concatenation sit. */
  lemma Parts<T>(t: seq<T>, a: seq<T>, b: seq<T>, c: seq<T>, d: seq<T>, e: seq<T>)
    requires t == a + b + c + d + e
    ensures t[..|a|] == a
    ensures t[|a|..|a| + |b|] == b
    ensures t[|a| + |b|..|a| + |b| + |c|] == c
    ensures t[|a| + |b| + |c| + |d|..] == e
  {
    var abcd := a + b + c + d;
    assert t[..|abcd|] == abcd;
    assert t[|abcd|..] == e;
    PartsFront(abcd, a, b, c, d);
    SubSlice(t, 0, 0, |a|, |abcd|);
    SubSlice(t, 0, |a|, |a| + |b|, |abcd|);
    SubSlice(t, 0, |a| + |b|, |a| + |b| + |c|, |abcd|);
  }

  lemma PartsFront<T>(t: seq<T>, a: seq<T>, b: seq<T>, c: seq<T>, d: seq<T>)
    requires t == a + b + c + d
    ensures t[..|a|] == a
    ensures t[|a|..|a| + |b|] == b
    ensures t[|a| + |b|..|a| + |b| + |c|] == c
  {
    var abc := a + b + c;
    assert t[..|abc|] == abc;
    SubSlice(t, 0, 0, |a|, |abc|);
    SubSlice(t, 0, |a|, |a| + |b|, |abc|);
    SubSlice(t, 0, |a| + |b|, |a| + |b| + |c|, |abc|);
    assert abc[..|a|] == a;
    assert abc[|a|..|a| + |b|] == b;
    assert abc[|a| + |b|..] == c;
  }

  /** The TIFF block splits into its fixed head, the records and the
      overflow area. */
  lemma TiffParts(es: seq<Entry>)
    requires AllWellTyped(es)
    ensures Tiff(es)[..8] == TIFF_HEADER
    ensures Tiff(es)[8..10] == LE16(WrapU16(|es|))
    ensures Tiff(es)[10..10 + 12 * |es|] == Records(es, DataStart(|es|))
    ensures Tiff(es)[DataStart(|es|)..] == Overflow(es)
  {
    var t := Tiff(es);
    var records := Records(es, DataStart(|es|));
    TiffSplit(es, t, records);
    assert 10 + 12 * |es| == 10 + |records| && DataStart(|es|) == 14 + |records|;
  }

  lemma TiffSplit(es: seq<Entry>, t: seq<byte>, records: seq<byte>)
    requires AllWellTyped(es) && t == Tiff(es) && records == Records(es, DataStart(|es|))
    ensures t[..8] == TIFF_HEADER && t[8..10] == LE16(WrapU16(|es|))
    ensures t[10..10 + |records|] == records && t[14 + |records|..] == Overflow(es)
  {
    var count := LE16(WrapU16(|es|));
    var pad: seq<byte> := [0, 0, 0, 0];
    assert t == TIFF_HEADER + count + records + pad + Overflow(es);
    TiffPieces(t, TIFF_HEADER, count, records, pad, Overflow(es));
  }

  /** `Parts` for the TIFF block's shape: an 8-byte header, a 2-byte count,
      the records, 4 bytes of next-IFD pointer, the overflow area. */
  lemma TiffPieces(t: seq<byte>, h: seq<byte>, c: seq<byte>, r: seq<byte>, pad: seq<byte>, o: seq<byte>)
    requires |h| == 8 && |c| == 2 && |pad| == 4
    requires t == h + c + r + pad + o
    ensures t[..8] == h && t[8..10] == c && t[10..10 + |r|] == r && t[14 + |r|..] == o
  {
    Parts(t, h, c, r, pad, o);
  }

  /** `t` holds the records of `es` after a 10-byte head and their
      overflow area where the records say it starts. */
  predicate Laid(t: seq<byte>, es: seq<Entry>) {
    RecordsLaid(t, es) && OverflowLaid(t, es)
  }

  predicate RecordsLaid(t: seq<byte>, es: seq<Entry>) {
    && AllWellTyped(es)
    && DataStart(|es|) <= |t|
    && t[10..10 + 12 * |es|] == Records(es, DataStart(|es|))
  }

  predicate OverflowLaid(t: seq<byte>, es: seq<Entry>) {
    DataStart(|es|) <= |t| && t[DataStart(|es|)..] == Overflow(es)
  }

  /** The offset the records give entry `j`'s value. */
  function EntryOffset(es: seq<Entry>, j: nat): nat
    requires j <= |es|
  {
    DataStart(|es|) + ExtraSum(es[..j])
  }

  /** Where entry `j`'s record sits. */
  lemma RecordAt(t: seq<byte>, es: seq<Entry>, j: nat)
    requires RecordsLaid(t, es) && j < |es|
    ensures 10 + 12 * j + 12 <= |t|
    ensures t[10 + 12 * j..10 + 12 * j + 12] == Record(es[j], EntryOffset(es, j))
  {
    RecordsAt(es, DataStart(|es|), j);
    SubSlice(t, 10, 12 * j, 12 * j + 12, 12 * |es|);
  }

  /** Where entry `j`'s value sits when it does not fit the record. */
  lemma ValueAt(t: seq<byte>, es: seq<Entry>, j: nat)
    requires OverflowLaid(t, es) && j < |es| && |es[j].data| > 4
    ensures EntryOffset(es, j) + |es[j].data| <= |t|
    ensures t[EntryOffset(es, j)..EntryOffset(es, j) + |es[j].data|] == es[j].data
  {
    var start := DataStart(|es|);
    var a := ExtraSum(es[..j]);
    var n := |es[j].data|;
    var o := Overflow(es);
    assert start <= |t| && t[start..] == o;
    OverflowAt(es, j);
    assert o[a..a + n] == es[j].data;
    SuffixSlice(t, start, a, a + n);
  }

  lemma SuffixSlice<T>(t: seq<T>, start: nat, a: nat, b: nat)
    requires start <= |t| && a <= b <= |t| - start
    ensures t[start..][a..b] == t[start + a..start + b]
  {
    SubSlice(t, start, a, b, |t| - start);
    assert t[start..start + (|t| - start)] == t[start..];
  }

  lemma ReadEach(t: seq<byte>, es: seq<Entry>, j: nat)
    requires AllWellFormed(es) && j < |es|
    requires DataStart(|es|) + ExtraSum(es) < U32_LIMIT
    requires 10 + 12 * j + 12 <= |t|
    requires t[10 + 12 * j..10 + 12 * j + 12] == Record(es[j], EntryOffset(es, j))
    requires |es[j].data| > 4 ==>
      EntryOffset(es, j) + |es[j].data| <= |t| && t[EntryOffset(es, j)..EntryOffset(es, j) + |es[j].data|] == es[j].data
    ensures ReadEntry(t, 10 + 12 * j) == Some(es[j])
  {
    var e := es[j];
    var offset := EntryOffset(es, j);
    assert WellFormed(e);
    assert offset < U32_LIMIT by {
      ExtraSumPrefix(es, j);
    }
    ReadRecord(t, 10 + 12 * j, e, offset);
  }

  lemma ReadEvery(t: seq<byte>, es: seq<Entry>)
    requires Laid(t, es) && AllWellFormed(es)
    requires DataStart(|es|) + ExtraSum(es) < U32_LIMIT
    ensures forall k :: 0 <= k < |es| ==> 10 + 12 * k + 12 <= |t| && ReadEntry(t, 10 + 12 * k) == Some(es[k])
  {
    forall k | 0 <= k < |es|
      ensures 10 + 12 * k + 12 <= |t| && ReadEntry(t, 10 + 12 * k) == Some(es[k])
    {
      RecordAt(t, es, k);
      if |es[k].data| > 4 {
        ValueAt(t, es, k);
      }
      ReadEach(t, es, k);
    }
  }

  lemma {:induction false} ReadAll(t: seq<byte>, es: seq<Entry>, j: nat)
    requires j <= |es|
    requires forall k :: j <= k < |es| ==> 10 + 12 * k + 12 <= |t| && ReadEntry(t, 10 + 12 * k) == Some(es[k])
    ensures ReadEntries(t, 10 + 12 * j, |es| - j) == Some(es[j..])
    decreases |es| - j
  {
    if j < |es| {
      ReadAll(t, es, j + 1);
      assert es[j..] == [es[j]] + es[j + 1..];
    }
  }

  lemma ParseLaid(t: seq<byte>, es: seq<Entry>)
    requires |t| >= 10 && t[..8] == TIFF_HEADER && DecodeLE16(t[8..10]) == |es|
    requires Laid(t, es) && AllWellFormed(es)
    requires DataStart(|es|) + ExtraSum(es) < U32_LIMIT
    ensures ParseTiff(t) == Some(es)
  {
    ReadEvery(t, es);
    ParseRead(t, es);
  }

  lemma ParseRead(t: seq<byte>, es: seq<Entry>)
    requires |t| >= 10 && t[..8] == TIFF_HEADER && DecodeLE16(t[8..10]) == |es|
    requires forall k :: 0 <= k < |es| ==> 10 + 12 * k + 12 <= |t| && ReadEntry(t, 10 + 12 * k) == Some(es[k])
    ensures ParseTiff(t) == Some(es)
  {
    ReadAll(t, es, 0);
    assert es[0..] == es;
  }

  /** The reader recovers every well-formed entry list from the TIFF block,
      as long as the entry count fits its `u16` field and every offset its
      `u32` field. */
  lemma TiffRoundTrip(es: seq<Entry>)
    requires AllWellFormed(es) && |es| < U16_LIMIT
    requires DataStart(|es|) + ExtraSum(es) < U32_LIMIT
    ensures ParseTiff(Tiff(es)) == Some(es)
  {
    TiffParts(es);
    ParseLaid(Tiff(es), es);
  }

  /** The same for the whole APP1 segment, whenever its length fits the
      16-bit length field. */
  lemma App1RoundTrip(es: seq<Entry>)
    requires AllWellFormed(es)
    requires |EXIF_HEADER| + |Tiff(es)| + 2 < U16_LIMIT
    ensures ParseApp1(App1(es)) == Some(es)
  {
    var s := App1(es);
    var t := Tiff(es);
    var data := EXIF_HEADER + t;
    SegmentSlices(s, BE16(|data| + 2), EXIF_HEADER, t);
    TiffRoundTrip(es);
  }

  /** The pieces of a segment `FF E1`, a length, a 6-byte header and a body. */
  lemma SegmentSlices(s: seq<byte>, len: seq<byte>, h: seq<byte>, t: seq<byte>)
    requires |len| == 2 && |h| == 6 && s == [0xFF, 0xE1] + len + (h + t)
    ensures s[..2] == [0xFF, 0xE1] && s[2..4] == len && s[4..10] == h && s[10..] == t
  {
    assert s == [0xFF, 0xE1] + len + h + t;
  }

  /** An entry's value is as long as its count says. */
  predicate Sized(e: Entry) {
    |e.data| == e.count * ExifValues.UnitSize(e.typ)
  }

  /** The bytes the APP1 segment of `es` occupies, marker included. */
  function SegmentSize(es: seq<Entry>): nat {
    4 + |EXIF_HEADER| + DataStart(|es|) + ExtraSum(es)
  }

  /** An entry's overflow bytes are part of the overflow area. */
  lemma {:induction false} ExtraSumBound(es: seq<Entry>, i: nat)
    requires i < |es|
    ensures Extra(es[i]) <= ExtraSum(es)
  {
    if i > 0 {
      ExtraSumBound(es[1..], i - 1);
    }
  }

  /** A segment whose length fits its 16-bit field has counts fitting their
      32-bit fields. */
  lemma CountsFit(es: seq<Entry>)
    requires AllWellTyped(es)
    requires forall i :: 0 <= i < |es| ==> Sized(es[i])
    requires SegmentSize(es) < U16_LIMIT
    ensures AllWellFormed(es)
  {
    forall i | 0 <= i < |es|
      ensures WellFormed(es[i])
    {
      ExtraSumBound(es, i);
      assert es[i].count <= |es[i].data|;
    }
  }

  /** The round trip in the terms the builders are stated in: typed entries
      whose values match their counts, in a segment of at most 65535 bytes
      after the marker. */
  lemma SegmentRoundTrip(es: seq<Entry>)
    requires AllWellTyped(es)
    requires forall i :: 0 <= i < |es| ==> Sized(es[i])
    requires SegmentSize(es) < U16_LIMIT
    ensures ParseApp1(App1(es)) == Some(es)
  {
    CountsFit(es);
    App1RoundTrip(es);
  }

  /** The length field states the segment's size minus the marker, and is
      0 once that exceeds 65535. */
  lemma App1LengthField(es: seq<Entry>)
    requires AllWellTyped(es)
    ensures var s := App1(es);
      DecodeBE16(s[2..4]) == if |s| - 2 < U16_LIMIT then |s| - 2 else 0
  {
    var s := App1(es);
    assert s[2..4] == BE16(U16OrZero(|EXIF_HEADER + Tiff(es)| + 2));
  }
}
