/** The JPEG processor's metadata listing (src/exif/processors.rs:293-411):
    one row per EXIF field with its display name and value, the IPTC
    datasets found in APP13 segments, sorted by name. Values longer than
    50 bytes are cut and marked with an ellipsis. */
module ExifReadout {
  import opened Wrappers
  import opened Bytes
  import opened Text
  import Utf8
  import ExifTags
  import ExifValues
  import Sorting

  /** One line of the listing. */
  datatype Row = Row(name: string, value: string)

  function RowName(r: Row): string { r.name }

  // ---------------------------------------------------------------------
  // Cutting long values

  const DISPLAY_LIMIT: nat := 50
  const ELLIPSIS: char := '…'

  /** Byte length of the first `k` characters. */
  lemma {:induction false} PrefixBytesStep(s: string, k: nat)
    requires k < |s|
    ensures Utf8.PrefixBytes(s, k + 1) == Utf8.PrefixBytes(s, k) + Utf8.CharWidth(s[k])
  {
    assert s[..k + 1] == s[..k] + [s[k]];
    Utf8.ByteLenAppend(s[..k], [s[k]]);
    assert [s[k]][1..] == [];
  }

  /** Character boundaries grow strictly with the character count. */
  lemma {:induction false} PrefixBytesMonotone(s: string, j: nat, k: nat)
    requires j < k <= |s|
    ensures Utf8.PrefixBytes(s, j) < Utf8.PrefixBytes(s, k)
    decreases k - j
  {
    PrefixBytesStep(s, k - 1);
    if j < k - 1 {
      PrefixBytesMonotone(s, j, k - 1);
    }
  }

  /** The number of whole characters within the first `n` bytes, counting
      on from `k`. */
  function CharsWithinFrom(s: string, n: nat, k: nat): (r: nat)
    requires k <= |s| && Utf8.PrefixBytes(s, k) <= n
    ensures k <= r <= |s| && Utf8.PrefixBytes(s, r) <= n
    ensures r < |s| ==> Utf8.PrefixBytes(s, r + 1) > n
    decreases |s| - k
  {
    if k < |s| && Utf8.PrefixBytes(s, k + 1) <= n then CharsWithinFrom(s, n, k + 1) else k
  }

  /** The number of whole characters within the first `n` bytes of `s`. */
  function CharsWithin(s: string, n: nat): (r: nat)
    ensures r <= |s| && Utf8.PrefixBytes(s, r) <= n
    ensures r < |s| ==> Utf8.PrefixBytes(s, r + 1) > n
  {
    assert s[..0] == [];
    CharsWithinFrom(s, n, 0)
  }

  /** The boundary `CharsWithin` finds is the last one at or below `n`. */
  lemma LastBoundary(s: string, n: nat, m: nat)
    requires m <= n && Utf8.IsCharBoundary(s, m)
    ensures m <= Utf8.PrefixBytes(s, CharsWithin(s, n))
  {
    var r := CharsWithin(s, n);
    var j :| 0 <= j <= |s| && Utf8.PrefixBytes(s, j) == m;
    if j > r {
      if j > r + 1 {
        PrefixBytesMonotone(s, r + 1, j);
      }
    } else if j < r {
      PrefixBytesMonotone(s, j, r);
    }
  }

  /** `value.truncate(50); value.push('…')` for values over 50 bytes, as
      written: `None` where byte 50 falls inside a character, on which
      `String::truncate` panics. */
  function TruncateAsWritten(s: string): Option<string> {
    if Utf8.ByteLen(s) <= DISPLAY_LIMIT then Some(s)
    else
      var k := CharsWithin(s, DISPLAY_LIMIT);
      if Utf8.PrefixBytes(s, k) == DISPLAY_LIMIT then Some(s[..k] + [ELLIPSIS]) else None
  }

  /** The cut backed off to the last character boundary at or below byte
      50 before the ellipsis is added. The result is a prefix of the value,
      at most 53 bytes long, and is the value itself when that fits. */
  function Truncate(s: string): (r: string)
    ensures Utf8.ByteLen(s) <= DISPLAY_LIMIT ==> r == s
    ensures Utf8.ByteLen(s) > DISPLAY_LIMIT ==>
      0 < |r| <= |s| + 1 && r[|r| - 1] == ELLIPSIS && r[..|r| - 1] == s[..|r| - 1]
      && DISPLAY_LIMIT - 3 <= Utf8.ByteLen(r[..|r| - 1]) <= DISPLAY_LIMIT
    ensures Utf8.ByteLen(r) <= DISPLAY_LIMIT + 3
  {
    if Utf8.ByteLen(s) <= DISPLAY_LIMIT then s
    else
      var k := CharsWithin(s, DISPLAY_LIMIT);
      var r := s[..k] + [ELLIPSIS];
      assert k < |s| by {
        assert s[..|s|] == s;
      }
      PrefixBytesStep(s, k);
      assert r[..|r| - 1] == s[..k];
      Utf8.ByteLenAppend(s[..k], [ELLIPSIS]);
      assert [ELLIPSIS][1..] == [];
      r
  }

  /** The back-off loop: from byte 50 down to the nearest character
      boundary. */
  method BoundaryBackOff(s: string) returns (t: nat)
    requires Utf8.ByteLen(s) > DISPLAY_LIMIT
    ensures t == Utf8.PrefixBytes(s, CharsWithin(s, DISPLAY_LIMIT))
    ensures Utf8.IsCharBoundary(s, t)
  {
    var r := CharsWithin(s, DISPLAY_LIMIT);
    t := DISPLAY_LIMIT;
    while t > 0 && !Utf8.IsCharBoundary(s, t)
      invariant Utf8.PrefixBytes(s, r) <= t <= DISPLAY_LIMIT
      decreases t
    {
      assert Utf8.IsCharBoundary(s, Utf8.PrefixBytes(s, r));
      t := t - 1;
    }
    if t > 0 {
      LastBoundary(s, DISPLAY_LIMIT, t);
    }
    assert Utf8.IsCharBoundary(s, Utf8.PrefixBytes(s, r));
  }

  /** Where the code does not panic it cuts where the back-off does. */
  lemma TruncateAgrees(s: string)
    ensures TruncateAsWritten(s).Some? ==> TruncateAsWritten(s).value == Truncate(s)
  {
  }

  /** ASCII values never make the cut panic. */
  lemma TruncateAscii(s: string)
    requires IsAscii(s)
    ensures TruncateAsWritten(s) == Some(Truncate(s))
  {
    if Utf8.ByteLen(s) > DISPLAY_LIMIT {
      var k := CharsWithin(s, DISPLAY_LIMIT);
      Utf8.ByteLenAscii(s);
      Utf8.ByteLenAscii(s[..k]);
      if k < |s| {
        Utf8.ByteLenAscii(s[..k + 1]);
      }
    }
  }

  /** 49 ASCII letters followed by 'é' put byte 50 inside the 'é'. */
  lemma TruncateSplitsCharacter()
    ensures TruncateAsWritten(seq(49, _ => 'a') + "é") == None
    ensures Truncate(seq(49, _ => 'a') + "é") == seq(49, _ => 'a') + [ELLIPSIS]
  {
    var a: string := seq(49, _ => 'a');
    var s := a + "é";
    Utf8.ByteLenAscii(a);
    Utf8.ByteLenAppend(a, "é");
    var k := CharsWithin(s, DISPLAY_LIMIT);
    assert s[..49] == a;
    assert Utf8.PrefixBytes(s, 49) == 49;
    assert Utf8.ByteLen("é") == 2 by {
      assert "é"[1..] == [];
    }
    assert s[..50] == s;
    if k < 49 {
      if k + 1 < 49 {
        PrefixBytesMonotone(s, k + 1, 49);
      }
    }
    assert k == 49;
  }

  // ---------------------------------------------------------------------
  // IPTC datasets (`parse_iptc_records`)

  /** "IPTC: {name}" with the dataset's display name. */
  function IptcRowName(record: byte, dataset: byte): string {
    "IPTC: " + ExifTags.FormatIptcTag(record as nat, dataset as nat)
  }

  /** The dataset value as displayed: decoded with U+FFFD for bad UTF-8 and
      trimmed. */
  function IptcText(value: seq<byte>): string {
    Trim(Utf8.DecodeLossy(value))
  }

  /** The record walk as written, on the data from the walk's position on:
      a dataset is 0x1C, record, dataset, a big-endian length and the
      value; other bytes are stepped over one at a time; a dataset running
      past the end stops the walk. `None` when cutting a value panics. */
  function ParseIptcAsWritten(d: seq<byte>): Option<seq<Row>>
    decreases |d|
  {
    if |d| <= 8 then Some([])
    else if d[0] != 0x1C then ParseIptcAsWritten(d[1..])
    else
      var end := 5 + DecodeBE16(d[3..5]);
      if end > |d| then Some([])
      else
        var text := IptcText(d[5..end]);
        match ParseIptcAsWritten(d[end..])
        case None => None
        case Some(rest) =>
          if text == "" then Some(rest)
          else match TruncateAsWritten(text)
            case None => None
            case Some(v) => Some([Row(IptcRowName(d[1], d[2]), v)] + rest)
  }

  /** A listed IPTC dataset: named "IPTC: …", with a non-empty value of
      at most 53 bytes. */
  predicate IptcRow(r: Row) {
    IsPrefix("IPTC: ", r.name) && |r.value| > 0 && Utf8.ByteLen(r.value) <= DISPLAY_LIMIT + 3
  }

  lemma IptcRowShape(record: byte, dataset: byte, text: string)
    requires text != ""
    ensures IptcRow(Row(IptcRowName(record, dataset), Truncate(text)))
  {
    var name := IptcRowName(record, dataset);
    assert name[..6] == "IPTC: ";
  }

  /** The same walk with the value cut at a character boundary. */
  function ParseIptc(d: seq<byte>): (rows: seq<Row>)
    ensures forall r :: r in rows ==> IptcRow(r)
    decreases |d|
  {
    if |d| <= 8 then []
    else if d[0] != 0x1C then ParseIptc(d[1..])
    else
      var end := 5 + DecodeBE16(d[3..5]);
      if end > |d| then []
      else
        var text := IptcText(d[5..end]);
        var rest := ParseIptc(d[end..]);
        if text == "" then rest
        else
          IptcRowShape(d[1], d[2], text);
          [Row(IptcRowName(d[1], d[2]), Truncate(text))] + rest
  }

  lemma {:induction false} ParseIptcAgrees(d: seq<byte>)
    ensures ParseIptcAsWritten(d).Some? ==> ParseIptcAsWritten(d).value == ParseIptc(d)
    decreases |d|
  {
    if |d| > 8 {
      if d[0] != 0x1C {
        ParseIptcAgrees(d[1..]);
      } else {
        var end := 5 + DecodeBE16(d[3..5]);
        if end <= |d| {
          ParseIptcAgrees(d[end..]);
          TruncateAgrees(IptcText(d[5..end]));
        }
      }
    }
  }

  /** One dataset of the given length followed by four bytes of padding, so
      that the walk reads it. */
  function IptcDataset(record: byte, dataset: byte, value: seq<byte>): (d: seq<byte>)
    requires |value| < U16_LIMIT
    ensures |d| == |value| + 9
  {
    [0x1C, record, dataset] + BE16(|value|) + value + [0, 0, 0, 0]
  }

  /** A lone dataset with a non-blank value gives exactly one row. */
  lemma OneDataset(record: byte, dataset: byte, value: seq<byte>)
    requires |value| < U16_LIMIT && IptcText(value) != ""
    ensures ParseIptc(IptcDataset(record, dataset, value))
      == [Row(IptcRowName(record, dataset), Truncate(IptcText(value)))]
    ensures ParseIptcAsWritten(IptcDataset(record, dataset, value))
      == match TruncateAsWritten(IptcText(value))
         case None => None
         case Some(v) => Some([Row(IptcRowName(record, dataset), v)])
  {
    DatasetFields(record, dataset, value);
  }

  /** The fields the walk reads from a lone dataset, and the padding after
      it, which yields nothing. */
  lemma DatasetFields(record: byte, dataset: byte, value: seq<byte>)
    requires |value| < U16_LIMIT
    ensures var d := IptcDataset(record, dataset, value);
      && |d| > 8 && d[0] == 0x1C && d[1] == record && d[2] == dataset
      && DecodeBE16(d[3..5]) == |value| && d[5..5 + |value|] == value
      && ParseIptc(d[5 + |value|..]) == [] && ParseIptcAsWritten(d[5 + |value|..]) == Some([])
  {
    var d := IptcDataset(record, dataset, value);
    var end := 5 + |value|;
    assert d[3..5] == BE16(|value|);
    assert d[5..end] == value;
    assert |d[end..]| == 4;
  }

  /** A caption of 49 letters and an 'é' is cut inside the 'é': the code
      panics, the corrected cut drops the 'é'. */
  lemma IptcCutPanics()
    ensures var value := seq(49, _ => 0x61 as byte) + [0xC3, 0xA9];
      ParseIptcAsWritten(IptcDataset(2, 120, value)) == None
      && ParseIptc(IptcDataset(2, 120, value)) == [Row("IPTC: Caption/Abstract", seq(49, _ => 'a') + [ELLIPSIS])]
  {
    var value := seq(49, _ => 0x61 as byte) + [0xC3, 0xA9];
    CaptionText();
    TruncateSplitsCharacter();
    OneDataset(2, 120, value);
    CaptionName();
  }

  lemma CaptionText()
    ensures IptcText(seq(49, _ => 0x61 as byte) + [0xC3, 0xA9]) == seq(49, _ => 'a') + "é"
  {
    var a: seq<byte> := seq(49, _ => 0x61 as byte);
    var text: string := seq(49, _ => 'a') + "é";
    LossyCaption(a);
    assert !IsWhitespace(text[0]) && !IsWhitespace(text[49]);
    TrimOfUntrimmed(text);
  }

  lemma CaptionName()
    ensures IptcRowName(2, 120) == "IPTC: Caption/Abstract"
  {
    assert ExifTags.FormatIptcTag(2, 120) == "Caption/Abstract";
  }

  lemma DecodeHead(b: seq<byte>)
    requires |b| > 0 && b[0] < 0x80
    ensures Utf8.DecodeLossy(b) == [b[0] as int as char] + Utf8.DecodeLossy(b[1..])
  {
  }

  /** An ASCII prefix decodes on its own. */
  lemma {:induction false} DecodeAsciiThen(a: seq<byte>, rest: seq<byte>)
    requires forall i :: 0 <= i < |a| ==> a[i] < 0x80
    ensures Utf8.DecodeLossy(a + rest) == Utf8.DecodeLossy(a) + Utf8.DecodeLossy(rest)
    decreases |a|
  {
    if |a| == 0 {
      assert a + rest == rest;
    } else {
      var tail := a[1..];
      assert (a + rest)[1..] == tail + rest;
      DecodeHead(a + rest);
      DecodeHead(a);
      DecodeAsciiThen(tail, rest);
    }
  }

  lemma LossyCaption(a: seq<byte>)
    requires a == seq(49, _ => 0x61 as byte)
    ensures Utf8.DecodeLossy(a + [0xC3, 0xA9]) == seq(49, _ => 'a') + "é"
  {
    Utf8.DecodeAscii(a);
    DecodeAsciiThen(a, [0xC3, 0xA9]);
    var e: seq<byte> := [0xC3, 0xA9];
    assert Utf8.DecodeLossy(e) == "é" by {
      assert Utf8.Step(e) == (2, true);
      assert e[2..] == [];
    }
    assert Utf8.DecodeLossy(a) == seq(49, _ => 'a');
  }

  // ---------------------------------------------------------------------
  // APP13 segments (`read_iptc_data`)

  /** "Photoshop 3.0" and a NUL: the start of a Photoshop resource block. */
  const PHOTOSHOP: seq<byte> :=
    [0x50, 0x68, 0x6F, 0x74, 0x6F, 0x73, 0x68, 0x6F, 0x70, 0x20, 0x33, 0x2E, 0x30, 0x00]

  predicate IsPhotoshop(seg: seq<byte>) {
    |seg| >= |PHOTOSHOP| && seg[..|PHOTOSHOP|] == PHOTOSHOP
  }

  /** The rows of one APP13 payload: the IPTC datasets after a Photoshop
      header, nothing for any other payload. */
  function PayloadRows(seg: seq<byte>): seq<Row> {
    if IsPhotoshop(seg) then ParseIptc(seg[|PHOTOSHOP|..]) else []
  }

  function PayloadRowsAsWritten(seg: seq<byte>): Option<seq<Row>> {
    if IsPhotoshop(seg) then ParseIptcAsWritten(seg[|PHOTOSHOP|..]) else Some([])
  }

  /** The APP13 scan as written, on the file from the scan's position on.
      At FF ED with more than four bytes left the segment runs to two bytes
      past the marker plus its length field; a segment that fits is read
      from byte 4, which panics when the length field is below 2 (the
      slice would end before it starts). The scan steps two bytes past each
      marker and one byte past anything else. */
  function ScanApp13AsWritten(s: seq<byte>): Option<seq<Row>>
    decreases |s|
  {
    if |s| <= 1 then Some([])
    else if s[0] == 0xFF && s[1] == 0xED then
      var here: Option<seq<Row>> :=
        if |s| > 4 && 2 + DecodeBE16(s[2..4]) <= |s| then
          var end := 2 + DecodeBE16(s[2..4]);
          if end < 4 then None else PayloadRowsAsWritten(s[4..end])
        else Some([]);
      match here
      case None => None
      case Some(rows) =>
        match ScanApp13AsWritten(s[2..])
        case None => None
        case Some(rest) => Some(rows + rest)
    else ScanApp13AsWritten(s[1..])
  }

  /** The payload of the APP13 segment at the start of `s`, when its length
      field is at least 2 and it fits in the file. */
  function App13Payload(s: seq<byte>): (p: Option<seq<byte>>)
    requires |s| > 4
    ensures p.Some? ==> |p.value| + 4 <= |s| && p.value == s[4..4 + |p.value|]
    ensures p.Some? ==> |p.value| + 2 == DecodeBE16(s[2..4])
    ensures p.None? ==> DecodeBE16(s[2..4]) < 2 || DecodeBE16(s[2..4]) + 2 > |s|
  {
    var end := 2 + DecodeBE16(s[2..4]);
    if 4 <= end <= |s| then Some(s[4..end]) else None
  }

  /** The same scan with a length field below 2 skipped like a segment that
      does not fit. */
  function ScanApp13(s: seq<byte>): (rows: seq<Row>)
    ensures forall r :: r in rows ==> IptcRow(r)
    decreases |s|
  {
    if |s| <= 1 then []
    else if s[0] == 0xFF && s[1] == 0xED then
      var here: seq<Row> :=
        if |s| > 4 && App13Payload(s).Some? then PayloadRows(App13Payload(s).value) else [];
      here + ScanApp13(s[2..])
    else ScanApp13(s[1..])
  }

  /** `read_iptc_data` as written: the scan's bound `data.len() - 1`
      underflows on an empty file. */
  function ReadIptcAsWritten(data: seq<byte>): Option<seq<Row>> {
    if |data| == 0 then None else ScanApp13AsWritten(data)
  }

  /** `read_iptc_data` with both panics removed. Every row it lists is an
      IPTC row. */
  function ReadIptcData(data: seq<byte>): (rows: seq<Row>)
    ensures forall r :: r in rows ==> IptcRow(r)
    ensures |data| <= 1 ==> rows == []
  {
    ScanApp13(data)
  }

  lemma {:induction false} ScanApp13Agrees(s: seq<byte>)
    ensures ScanApp13AsWritten(s).Some? ==> ScanApp13AsWritten(s).value == ScanApp13(s)
    decreases |s|
  {
    if |s| > 1 {
      if s[0] == 0xFF && s[1] == 0xED {
        ScanApp13Agrees(s[2..]);
        if |s| > 4 && 2 + DecodeBE16(s[2..4]) <= |s| && 4 <= 2 + DecodeBE16(s[2..4]) {
          var seg := s[4..2 + DecodeBE16(s[2..4])];
          if IsPhotoshop(seg) {
            ParseIptcAgrees(seg[|PHOTOSHOP|..]);
          }
        }
      } else {
        ScanApp13Agrees(s[1..]);
      }
    }
  }

  /** Where `read_iptc_data` does not panic it lists what the corrected
      scan lists. */
  lemma ReadIptcAgrees(data: seq<byte>)
    ensures ReadIptcAsWritten(data).Some? ==> ReadIptcAsWritten(data).value == ReadIptcData(data)
  {
    ScanApp13Agrees(data);
  }

  /** An APP13 marker with a length field of 0 followed by one more byte:
      the code slices `data[4..2]` and panics; the corrected scan lists
      nothing. */
  lemma ShortApp13Panics()
    ensures ReadIptcAsWritten([0xFF, 0xED, 0x00, 0x00, 0x00]) == None
    ensures ReadIptcData([0xFF, 0xED, 0x00, 0x00, 0x00]) == []
  {
    var d: seq<byte> := [0xFF, 0xED, 0x00, 0x00, 0x00];
    assert d[2..4] == [0, 0];
    assert d[2..] == [0, 0, 0];
    assert d[2..][1..] == [0, 0];
    assert d[2..][1..][1..] == [0];
  }

  /** An APP13 segment holding a Photoshop block: its datasets come first,
      then whatever the scan finds from two bytes past the marker. */
  lemma {:induction false} App13Found(body: seq<byte>, after: seq<byte>)
    requires |PHOTOSHOP| + |body| + 2 < U16_LIMIT
    ensures var s := [0xFF, 0xED] + BE16(|PHOTOSHOP| + |body| + 2) + PHOTOSHOP + body + after;
      ReadIptcData(s) == ParseIptc(body) + ScanApp13(s[2..])
  {
    var s: seq<byte> := [0xFF, 0xED] + BE16(|PHOTOSHOP| + |body| + 2) + PHOTOSHOP + body + after;
    assert s[2..4] == BE16(|PHOTOSHOP| + |body| + 2);
    var seg := s[4..4 + |PHOTOSHOP| + |body|];
    assert seg == PHOTOSHOP + body;
    assert seg[..|PHOTOSHOP|] == PHOTOSHOP;
    assert seg[|PHOTOSHOP|..] == body;
  }

  // ---------------------------------------------------------------------
  // The listing (`read_exif`)

  /** A field as the EXIF reader yields it: its tag, its value and the
      number of the IFD it was found in (0 the primary image, 1 the
      thumbnail). */
  datatype ExifField = ExifField(tag: ExifTags.Tag, value: ExifValues.Value, ifd: nat)

  function IfdSuffix(ifd: nat): string {
    if ifd == 0 then "" else if ifd == 1 then " (Thumbnail)" else " (Sub-IFD)"
  }

  /** The row name: the display name, the IFD suffix, and the printed tag
      in brackets when that is a `Tag(…)` form the display name does not
      start. */
  function ExifRowName(t: ExifTags.Tag, ifd: nat): string {
    var name := ExifTags.FormatTagName(t);
    var full := name + IfdSuffix(ifd);
    var raw := ExifTags.TagText(t);
    if Contains(raw, "Tag(") && !IsPrefix(name, raw) then full + " [" + raw + "]" else full
  }

  /** The displayed value: the formatted value, cut as above when over 50
      bytes. Float and double values are rendered by the given functions. */
  function ExifText(f: ExifField, floatText: nat -> string, doubleText: nat -> string): string {
    ExifValues.FormatExifValue(f.value, floatText, doubleText)
  }

  function ExifRows(fs: seq<ExifField>, floatText: nat -> string, doubleText: nat -> string): (rows: seq<Row>)
    ensures |rows| == |fs|
  {
    if |fs| == 0 then []
    else
      [Row(ExifRowName(fs[0].tag, fs[0].ifd), Truncate(ExifText(fs[0], floatText, doubleText)))]
      + ExifRows(fs[1..], floatText, doubleText)
  }

  /** Row `i` is field `i`'s name and cut value. */
  lemma {:induction false} ExifRowsAt(fs: seq<ExifField>, floatText: nat -> string, doubleText: nat -> string, i: nat)
    requires i < |fs|
    ensures ExifRows(fs, floatText, doubleText)[i] ==
      Row(ExifRowName(fs[i].tag, fs[i].ifd), Truncate(ExifText(fs[i], floatText, doubleText)))
  {
    if i > 0 {
      ExifRowsAt(fs[1..], floatText, doubleText, i - 1);
      assert fs[1..][i - 1] == fs[i];
    }
  }

  /** The EXIF rows as written, `None` when a cut would panic. */
  function ExifRowsAsWritten(fs: seq<ExifField>, floatText: nat -> string, doubleText: nat -> string): Option<seq<Row>> {
    if |fs| == 0 then Some([])
    else
      match TruncateAsWritten(ExifText(fs[0], floatText, doubleText))
      case None => None
      case Some(v) =>
        match ExifRowsAsWritten(fs[1..], floatText, doubleText)
        case None => None
        case Some(rest) => Some([Row(ExifRowName(fs[0].tag, fs[0].ifd), v)] + rest)
  }

  /** `read_exif` as written, given the fields the reader found and the
      file's bytes: the EXIF rows, then the IPTC rows, sorted by name. */
  function ReadExifAsWritten(fs: seq<ExifField>, data: seq<byte>, floatText: nat -> string, doubleText: nat -> string): Option<seq<Row>> {
    match ExifRowsAsWritten(fs, floatText, doubleText)
    case None => None
    case Some(rows) =>
      match ReadIptcAsWritten(data)
      case None => None
      case Some(iptc) => Some(Sorting.SortBy(rows + iptc, RowName))
  }

  /** `read_exif` with the corrected IPTC scan: every EXIF row and every
      IPTC row exactly once, ordered by name. */
  function ReadExif(fs: seq<ExifField>, data: seq<byte>, floatText: nat -> string, doubleText: nat -> string): (rows: seq<Row>)
    ensures Sorting.SortedBy(rows, RowName)
    ensures multiset(rows) == multiset(ExifRows(fs, floatText, doubleText) + ReadIptcData(data))
    ensures |rows| == |fs| + |ReadIptcData(data)|
  {
    var all := ExifRows(fs, floatText, doubleText) + ReadIptcData(data);
    Sorting.SortBySorted(all, RowName);
    Sorting.SortBy(all, RowName)
  }

  /** With ASCII renderers for floats the EXIF values are ASCII, so
      `read_exif`'s own cut never panics. */
  lemma {:induction false} ExifRowsNeverPanic(fs: seq<ExifField>, floatText: nat -> string, doubleText: nat -> string)
    requires forall x :: IsAscii(floatText(x)) && IsAscii(doubleText(x))
    ensures ExifRowsAsWritten(fs, floatText, doubleText) == Some(ExifRows(fs, floatText, doubleText))
  {
    if |fs| > 0 {
      ExifValues.FormatIsAscii(fs[0].value, floatText, doubleText);
      TruncateAscii(ExifText(fs[0], floatText, doubleText));
      ExifRowsNeverPanic(fs[1..], floatText, doubleText);
    }
  }

  /** Where `read_exif` does not panic it lists what the corrected listing
      lists. */
  lemma ReadExifAgrees(fs: seq<ExifField>, data: seq<byte>, floatText: nat -> string, doubleText: nat -> string)
    requires forall x :: IsAscii(floatText(x)) && IsAscii(doubleText(x))
    ensures ReadExifAsWritten(fs, data, floatText, doubleText).Some? <==> ReadIptcAsWritten(data).Some?
    ensures ReadExifAsWritten(fs, data, floatText, doubleText).Some? ==>
      ReadExifAsWritten(fs, data, floatText, doubleText).value == ReadExif(fs, data, floatText, doubleText)
  {
    ExifRowsNeverPanic(fs, floatText, doubleText);
    ReadIptcAgrees(data);
  }

  /** Every EXIF field has its row in the listing. */
  lemma EveryFieldListed(fs: seq<ExifField>, data: seq<byte>, floatText: nat -> string, doubleText: nat -> string, i: nat)
    requires i < |fs|
    ensures Row(ExifRowName(fs[i].tag, fs[i].ifd), Truncate(ExifText(fs[i], floatText, doubleText)))
      in ReadExif(fs, data, floatText, doubleText)
  {
    var rows := ExifRows(fs, floatText, doubleText);
    var all := rows + ReadIptcData(data);
    ExifRowsAt(fs, floatText, doubleText, i);
    assert all[i] == rows[i];
    assert rows[i] in multiset(all);
  }

  /** Fallback names never begin with 'T', so none starts "Tag(". */
  lemma FallbackNotTag(text: string)
    ensures ExifTags.FallbackName(text).Some? ==>
      |ExifTags.FallbackName(text).value| > 0 && ExifTags.FallbackName(text).value[0] != 'T'
  {
    assert forall k | k in ExifTags.FALLBACK_NAMES ::
      |ExifTags.FALLBACK_NAMES[k]| > 0 && ExifTags.FALLBACK_NAMES[k][0] != 'T';
  }

  /** The display name of an unknown tag never starts its printed form. */
  lemma UnknownNameNotPrefix(t: ExifTags.Tag)
    requires ExifTags.ValidTag(t) && t.crateName.None?
    ensures Contains(ExifTags.TagText(t), "Tag(")
    ensures !IsPrefix(ExifTags.FormatTagName(t), ExifTags.TagText(t))
  {
    var name := ExifTags.FormatTagName(t);
    var raw := ExifTags.TagText(t);
    var digits := NatToString(t.number);
    ExifTags.FormatTagNameMeaning(t);
    ExifTags.UnknownTagText(t);
    FallbackNotTag(digits);
    assert raw[..4] == "Tag(";
    if ExifTags.FallbackName(digits).Some? {
      assert |name| > 0 && name[0] != raw[..4][0];
    } else {
      assert name == "Tag " + digits;
      assert |name| > 3 && name[3] != raw[..4][3];
    }
  }

  /** The row name in plain terms: a tag the crate knows is shown by its
      display name alone; an unknown tag also shows its printed form. */
  lemma ExifRowNameMeaning(t: ExifTags.Tag, ifd: nat)
    requires ExifTags.ValidTag(t)
    ensures ExifRowName(t, ifd) == ExifTags.FormatTagName(t) + IfdSuffix(ifd)
      + (if t.crateName.None? then " [" + ExifTags.TagText(t) + "]" else "")
  {
    if t.crateName.Some? {
      KnownRowName(t, ifd);
    } else {
      UnknownRowName(t, ifd);
    }
  }

  lemma UnknownRowName(t: ExifTags.Tag, ifd: nat)
    requires ExifTags.ValidTag(t) && t.crateName.None?
    ensures ExifRowName(t, ifd) == ExifTags.FormatTagName(t) + IfdSuffix(ifd) + (" [" + ExifTags.TagText(t) + "]")
  {
    UnknownNameNotPrefix(t);
  }

  lemma KnownRowName(t: ExifTags.Tag, ifd: nat)
    requires ExifTags.ValidTag(t) && t.crateName.Some?
    ensures ExifRowName(t, ifd) == ExifTags.FormatTagName(t) + IfdSuffix(ifd)
  {
    var n := t.crateName.value;
    ExifTags.IdentifierHasNoParen(n);
    assert ExifTags.TagText(t) == n;
  }

  /** The IFD suffix tells the primary image, the thumbnail and the other
      IFDs apart: one tag found in two of them gets two names. */
  lemma IfdSuffixDistinguishes(t: ExifTags.Tag, i: nat, j: nat)
    requires IfdSuffix(i) != IfdSuffix(j)
    ensures ExifRowName(t, i) != ExifRowName(t, j)
  {
    var name := ExifTags.FormatTagName(t);
    var raw := ExifTags.TagText(t);
    assert |IfdSuffix(i)| != |IfdSuffix(j)|;
  }
}
