/** How the JPEG processor rewrites a file (src/exif/processors.rs):
    after the start-of-image marker it writes a new APP1 segment and
    then either copies the file from the first byte that does not begin an
    APP1 segment (`set_creation_date`, `apply_exif_with_iso`), or copies it
    byte by byte, leaving out every APP1 (and, when erasing, APP0) segment
    it meets on the way (`apply_exif`, `erase_exif`).

    The source walks an index `i` over the file; here each walk is a
    function of the file from `i` on, so the recursive call on a suffix is
    the loop's next iteration. Reading the file, writing it back and
    reading the old metadata with the exif crate are not modelled: the
    file's bytes and the old fields are parameters, and an `Outcome` stands
    for what would be written. */
module JpegRewrite {
  import opened Wrappers
  import opened Bytes
  import opened Models
  import Ifd
  import ExifWriter

  /** What an operation ends in: the bytes written back, the error it
      returns, or a panic (an index or slice out of bounds). */
  datatype Outcome = Written(data: seq<byte>) | Failed(message: string) | Panicked

  const SOI: seq<byte> := [0xFF, 0xD8]
  const NOT_JPEG: string := "Not a valid JPEG file"
  const APP1: set<byte> := {0xE1}
  const APP0_APP1: set<byte> := {0xE0, 0xE1}

  predicate HasSoi(d: seq<byte>) {
    |d| >= 2 && d[..2] == SOI
  }

  /** `s` begins with 0xFF followed by one of `markers`. */
  predicate StartsMarker(s: seq<byte>, markers: set<byte>) {
    |s| >= 2 && s[0] == 0xFF && s[1] in markers
  }

  /** How far the walk jumps over a segment: the marker and the big-endian
      length, which counts itself. */
  function SegmentSpan(s: seq<byte>): (n: nat)
    requires |s| >= 4
    ensures n >= 2
  {
    2 + DecodeBE16(s[2..4])
  }

  /** A complete segment with one of `markers` whose length field states its
      size. */
  predicate IsSegment(seg: seq<byte>, markers: set<byte>) {
    StartsMarker(seg, markers) && |seg| >= 4 && SegmentSpan(seg) == |seg|
  }

  // ---------------------------------------------------------------------
  // Skipping the leading APP1 run (`set_creation_date`, `apply_exif_with_iso`)

  /** The walk as written: `None` when it reads a length past the end of
      the file, or jumps past the end and then slices from there. */
  function SkipRunAsWritten(s: seq<byte>): Option<seq<byte>>
    decreases |s|
  {
    if StartsMarker(s, APP1) then
      if |s| >= 4 && SegmentSpan(s) <= |s| then SkipRunAsWritten(s[SegmentSpan(s)..]) else None
    else Some(s)
  }

  /** The walk with a truncated last segment dropped instead of panicking.
      What is left is a suffix of the file that does not start an APP1
      segment. */
  function SkipRun(s: seq<byte>): (r: seq<byte>)
    ensures !StartsMarker(r, APP1)
    ensures |r| <= |s| && r == s[|s| - |r|..]
    decreases |s|
  {
    if StartsMarker(s, APP1) then
      if |s| >= 4 && SegmentSpan(s) <= |s| then
        var r := SkipRun(s[SegmentSpan(s)..]);
        assert s[SegmentSpan(s)..][|s| - SegmentSpan(s) - |r|..] == s[|s| - |r|..];
        r
      else []
    else s
  }

  /** `set_creation_date` and `apply_exif_with_iso` as written, given the
      new segment. */
  function RewriteAsWritten(d: seq<byte>, segment: seq<byte>): Outcome {
    if !HasSoi(d) then Failed(NOT_JPEG)
    else match SkipRunAsWritten(d[2..])
      case None => Panicked
      case Some(rest) => Written(SOI + segment + rest)
  }

  /** The same with the corrected walk: the start-of-image marker, the new
      segment, then the file after its leading APP1 segments. */
  function Rewrite(d: seq<byte>, segment: seq<byte>): (o: Outcome)
    ensures o.Failed? <==> !HasSoi(d)
    ensures o.Failed? ==> o.message == NOT_JPEG
    ensures !o.Panicked?
  {
    if !HasSoi(d) then Failed(NOT_JPEG) else Written(SOI + segment + SkipRun(d[2..]))
  }

  /** `set_creation_date`: the file with a date segment in place of its
      leading APP1 segments, with the corrected walk. */
  function SetCreationDate(d: seq<byte>, date: string, existing: seq<ExifWriter.Field>): (o: Outcome)
    ensures o.Failed? <==> !HasSoi(d)
  {
    Rewrite(d, ExifWriter.CreateDateExifSegment(date, existing))
  }

  /** `set_creation_date` as written: it panics where the walk does, and
      otherwise writes what `SetCreationDate` does. */
  function SetCreationDateAsWritten(d: seq<byte>, date: string, existing: seq<ExifWriter.Field>): (o: Outcome)
    ensures o.Failed? <==> !HasSoi(d)
    ensures o.Panicked? <==> HasSoi(d) && SkipRunAsWritten(d[2..]).None?
    ensures !o.Panicked? ==> o == SetCreationDate(d, date, existing)
  {
    var seg := ExifWriter.CreateDateExifSegment(date, existing);
    RewriteAgrees(d, seg);
    RewriteAsWritten(d, seg)
  }

  /** `apply_exif_with_iso`. */
  function ApplyExifWithIso(d: seq<byte>, sel: Selection, shotIso: Option<nat>, existing: seq<ExifWriter.Field>,
                            focalMilli: Option<nat>): (o: Outcome)
    requires ExifWriter.FocalReading(focalMilli)
    ensures o.Failed? <==> !HasSoi(d)
  {
    Rewrite(d, ExifWriter.CreateMergedExifSegmentWithIso(sel, shotIso, existing, focalMilli))
  }

  /** `apply_exif_with_iso` as written: it panics where the walk does, and
      otherwise writes what `ApplyExifWithIso` does. */
  function ApplyExifWithIsoAsWritten(d: seq<byte>, sel: Selection, shotIso: Option<nat>, existing: seq<ExifWriter.Field>,
                                     focalMilli: Option<nat>): (o: Outcome)
    requires ExifWriter.FocalReading(focalMilli)
    ensures o.Failed? <==> !HasSoi(d)
    ensures o.Panicked? <==> HasSoi(d) && SkipRunAsWritten(d[2..]).None?
    ensures !o.Panicked? ==> o == ApplyExifWithIso(d, sel, shotIso, existing, focalMilli)
  {
    var seg := ExifWriter.CreateMergedExifSegmentWithIso(sel, shotIso, existing, focalMilli);
    RewriteAgrees(d, seg);
    RewriteAsWritten(d, seg)
  }

  // ---------------------------------------------------------------------
  // The byte scan (`apply_exif`, `erase_exif`)

  /** The scan as written: `None` when a marker among the last three bytes
      makes it read a length past the end of the file. A segment running
      past the end ends the scan. */
  function ScanAsWritten(s: seq<byte>, markers: set<byte>): Option<seq<byte>>
    decreases |s|
  {
    if StartsMarker(s, markers) then
      if |s| < 4 then None
      else if SegmentSpan(s) <= |s| then ScanAsWritten(s[SegmentSpan(s)..], markers)
      else Some([])
    else if |s| >= 2 then
      match ScanAsWritten(s[1..], markers)
      case None => None
      case Some(r) => Some([s[0]] + r)
    else Some(s)
  }

  /** The scan with a truncated segment at the end dropped like one that
      runs past the end. */
  function Scan(s: seq<byte>, markers: set<byte>): (r: seq<byte>)
    ensures |r| <= |s|
    decreases |s|
  {
    if StartsMarker(s, markers) then
      if |s| >= 4 && SegmentSpan(s) <= |s| then Scan(s[SegmentSpan(s)..], markers) else []
    else if |s| >= 2 then [s[0]] + Scan(s[1..], markers)
    else s
  }

  function EraseExifAsWritten(d: seq<byte>): Outcome {
    if !HasSoi(d) then Failed(NOT_JPEG)
    else match ScanAsWritten(d[2..], APP0_APP1)
      case None => Panicked
      case Some(r) => Written(SOI + r)
  }

  /** `erase_exif`: the file without its APP0 and APP1 segments. */
  function EraseExif(d: seq<byte>): (o: Outcome)
    ensures o.Failed? <==> !HasSoi(d)
    ensures o.Failed? ==> o.message == NOT_JPEG
    ensures o.Written? ==> |o.data| >= 2 && o.data[..2] == SOI && |o.data| <= |d|
  {
    if !HasSoi(d) then Failed(NOT_JPEG) else Written(SOI + Scan(d[2..], APP0_APP1))
  }

  function ApplyScanAsWritten(d: seq<byte>, segment: seq<byte>): Outcome {
    if !HasSoi(d) then Failed(NOT_JPEG)
    else match ScanAsWritten(d[2..], APP1)
      case None => Panicked
      case Some(r) => Written(SOI + segment + r)
  }

  /** `apply_exif`: the new segment, then the file without its APP1
      segments. */
  function ApplyExif(d: seq<byte>, sel: Selection, existing: seq<ExifWriter.Field>, focalMilli: Option<nat>): (o: Outcome)
    requires ExifWriter.FocalReading(focalMilli)
    ensures o.Failed? <==> !HasSoi(d)
  {
    if !HasSoi(d) then Failed(NOT_JPEG)
    else Written(SOI + ExifWriter.CreateMergedExifSegment(sel, existing, focalMilli) + Scan(d[2..], APP1))
  }

  /** `erase_exif` as the loop the source runs, over an index into the
      file. */
  method EraseExifLoop(d: seq<byte>) returns (o: Outcome)
    ensures o == EraseExif(d)
  {
    if !HasSoi(d) {
      return Failed(NOT_JPEG);
    }
    var out := SOI;
    var i := 2;
    while i + 1 < |d|
      invariant 2 <= i <= |d|
      invariant out + Scan(d[i..], APP0_APP1) == SOI + Scan(d[2..], APP0_APP1)
      decreases |d| - i
    {
      if d[i] == 0xFF && (d[i + 1] == 0xE0 || d[i + 1] == 0xE1) {
        if i + 3 < |d| {
          var next := i + 2 + DecodeBE16(d[i + 2..i + 4]);
          ScanAtSegment(d, i, APP0_APP1);
          if next <= |d| {
            i := next;
            assert out + Scan(d[i..], APP0_APP1) == SOI + Scan(d[2..], APP0_APP1);
          } else {
            i := |d|;
            assert out + Scan(d[i..], APP0_APP1) == SOI + Scan(d[2..], APP0_APP1);
          }
        } else {
          ScanAtShort(d, i, APP0_APP1);
          i := |d|;
          assert out + Scan(d[i..], APP0_APP1) == SOI + Scan(d[2..], APP0_APP1);
        }
      } else {
        ScanAtByte(d, i, APP0_APP1);
        AppendAssoc(out, [d[i]], Scan(d[i + 1..], APP0_APP1));
        out := out + [d[i]];
        i := i + 1;
        assert out + Scan(d[i..], APP0_APP1) == SOI + Scan(d[2..], APP0_APP1);
      }
    }
    out := out + d[i..];
    return Written(out);
  }

  /** A segment at `i` is jumped over, or ends the walk when its length
      runs past the data. */
  lemma ScanAtSegment(d: seq<byte>, i: nat, markers: set<byte>)
    requires i + 3 < |d| && d[i] == 0xFF && d[i + 1] in markers
    ensures i + 2 + DecodeBE16(d[i + 2..i + 4]) <= |d| ==>
      Scan(d[i..], markers) == Scan(d[i + 2 + DecodeBE16(d[i + 2..i + 4])..], markers)
    ensures i + 2 + DecodeBE16(d[i + 2..i + 4]) > |d| ==> Scan(d[i..], markers) == []
    ensures Scan(d[|d|..], markers) == []
  {
    var t := d[i..];
    assert StartsMarker(t, markers);
    assert t[2..4] == d[i + 2..i + 4];
    var next := i + 2 + DecodeBE16(d[i + 2..i + 4]);
    if next <= |d| {
      assert t[SegmentSpan(t)..] == d[next..];
    }
    assert d[|d|..] == [];
  }

  /** A marker with no room for a length ends the walk. */
  lemma ScanAtShort(d: seq<byte>, i: nat, markers: set<byte>)
    requires i + 1 < |d| <= i + 3 && d[i] == 0xFF && d[i + 1] in markers
    ensures Scan(d[i..], markers) == [] && Scan(d[|d|..], markers) == []
  {
    assert StartsMarker(d[i..], markers);
    assert d[|d|..] == [];
  }

  lemma AppendAssoc(a: seq<byte>, b: seq<byte>, c: seq<byte>)
    ensures (a + b) + c == a + (b + c)
  {
  }

  /** Any other byte is copied. */
  lemma ScanAtByte(d: seq<byte>, i: nat, markers: set<byte>)
    requires i + 1 < |d| && !(d[i] == 0xFF && d[i + 1] in markers)
    ensures Scan(d[i..], markers) == [d[i]] + Scan(d[i + 1..], markers)
  {
    assert d[i..][1..] == d[i + 1..];
  }

  // ---------------------------------------------------------------------
  // The corrected walks agree with the code wherever it does not panic

  lemma {:induction false} SkipRunAgrees(s: seq<byte>)
    ensures SkipRunAsWritten(s).Some? ==> SkipRunAsWritten(s).value == SkipRun(s)
    decreases |s|
  {
    if StartsMarker(s, APP1) && |s| >= 4 && SegmentSpan(s) <= |s| {
      SkipRunAgrees(s[SegmentSpan(s)..]);
    }
  }

  lemma {:induction false} ScanAgrees(s: seq<byte>, markers: set<byte>)
    ensures ScanAsWritten(s, markers).Some? ==> ScanAsWritten(s, markers).value == Scan(s, markers)
    decreases |s|
  {
    if StartsMarker(s, markers) {
      if |s| >= 4 && SegmentSpan(s) <= |s| {
        ScanAgrees(s[SegmentSpan(s)..], markers);
      }
    } else if |s| >= 2 {
      ScanAgrees(s[1..], markers);
    }
  }

  lemma RewriteAgrees(d: seq<byte>, segment: seq<byte>)
    ensures !RewriteAsWritten(d, segment).Panicked? ==> RewriteAsWritten(d, segment) == Rewrite(d, segment)
  {
    if HasSoi(d) {
      SkipRunAgrees(d[2..]);
    }
  }

  lemma EraseAgrees(d: seq<byte>)
    ensures !EraseExifAsWritten(d).Panicked? ==> EraseExifAsWritten(d) == EraseExif(d)
  {
    if HasSoi(d) {
      ScanAgrees(d[2..], APP0_APP1);
    }
  }

  lemma ApplyScanAgrees(d: seq<byte>, segment: seq<byte>)
    ensures !ApplyScanAsWritten(d, segment).Panicked? ==>
      ApplyScanAsWritten(d, segment) == (if HasSoi(d) then Written(SOI + segment + Scan(d[2..], APP1)) else Failed(NOT_JPEG))
  {
    if HasSoi(d) {
      ScanAgrees(d[2..], APP1);
    }
  }

  /** An APP1 segment whose length runs past the end of the file makes the
      rewrite panic on the final slice; one cut inside its length field
      makes it index past the end. The corrected walk drops both. */
  lemma TruncatedApp1Panics(segment: seq<byte>)
    ensures RewriteAsWritten([0xFF, 0xD8, 0xFF, 0xE1, 0x00, 0x10], segment) == Panicked
    ensures RewriteAsWritten([0xFF, 0xD8, 0xFF, 0xE1], segment) == Panicked
    ensures Rewrite([0xFF, 0xD8, 0xFF, 0xE1, 0x00, 0x10], segment) == Written(SOI + segment)
    ensures Rewrite([0xFF, 0xD8, 0xFF, 0xE1], segment) == Written(SOI + segment)
  {
    var a: seq<byte> := [0xFF, 0xD8, 0xFF, 0xE1, 0x00, 0x10];
    assert a[2..][2..4] == [0x00, 0x10];
    assert [0xFF, 0xD8, 0xFF, 0xE1][..2] == SOI;
  }

  /** A marker byte pair among the last three bytes makes the scan read the
      length past the end. */
  lemma EraseTailPanics()
    ensures EraseExifAsWritten([0xFF, 0xD8, 0x00, 0xFF, 0xE1]) == Panicked
    ensures EraseExif([0xFF, 0xD8, 0x00, 0xFF, 0xE1]) == Written([0xFF, 0xD8, 0x00])
  {
    var d: seq<byte> := [0xFF, 0xD8, 0x00, 0xFF, 0xE1];
    assert d[2..][1..] == [0xFF, 0xE1];
    assert StartsMarker([0xFF, 0xE1], APP0_APP1);
  }

  // ---------------------------------------------------------------------
  // Structure of the rewritten file

  lemma SegmentThenRest(seg: seq<byte>, rest: seq<byte>, markers: set<byte>)
    requires IsSegment(seg, markers)
    ensures StartsMarker(seg + rest, markers)
    ensures |seg + rest| >= 4 && SegmentSpan(seg + rest) == |seg|
    ensures (seg + rest)[SegmentSpan(seg + rest)..] == rest
  {
    assert (seg + rest)[2..4] == seg[2..4];
  }

  /** The walk jumps over a complete APP1 segment. */
  lemma SkipRunSegment(seg: seq<byte>, rest: seq<byte>)
    requires IsSegment(seg, APP1)
    ensures SkipRun(seg + rest) == SkipRun(rest)
  {
    SegmentThenRest(seg, rest, APP1);
  }

  /** The rewritten file is the start-of-image marker, the new segment, and
      a tail of the old file that does not begin with another APP1 segment
      and in which every byte is where the old file had it. */
  lemma RewriteLayout(d: seq<byte>, segment: seq<byte>)
    requires HasSoi(d)
    ensures var out := Rewrite(d, segment).data;
      var tail := out[2 + |segment|..];
      out[..2] == SOI && out[2..2 + |segment|] == segment
      && !StartsMarker(tail, APP1) && tail == d[|d| - |tail|..]
  {
    var out := Rewrite(d, segment).data;
    assert out == SOI + segment + SkipRun(d[2..]);
    assert out[2 + |segment|..] == SkipRun(d[2..]);
    assert d[2..][|d| - 2 - |SkipRun(d[2..])|..] == d[|d| - |SkipRun(d[2..])|..];
  }

  /** Rewriting a file twice with the same well-formed segment changes
      nothing the second time: the first rewrite's segment is the only APP1
      segment the second one skips. */
  lemma RewriteIdempotent(d: seq<byte>, segment: seq<byte>)
    requires HasSoi(d) && IsSegment(segment, APP1)
    ensures Rewrite(Rewrite(d, segment).data, segment) == Rewrite(d, segment)
  {
    var rest := SkipRun(d[2..]);
    var x := segment + rest;
    assert Rewrite(d, segment).data == SOI + x;
    RewriteSoi(x, segment);
    SkipRunSegment(segment, rest);
    SkipRunStops(rest);
  }

  /** What a rewrite of a file with a start-of-image marker writes. */
  lemma RewriteSoi(x: seq<byte>, segment: seq<byte>)
    ensures Rewrite(SOI + x, segment) == Written(SOI + segment + SkipRun(x))
  {
    assert (SOI + x)[..2] == SOI;
    assert (SOI + x)[2..] == x;
  }

  /** The walk stops at once where no APP1 segment starts. */
  lemma SkipRunStops(s: seq<byte>)
    requires !StartsMarker(s, APP1)
    ensures SkipRun(s) == s
  {
  }

  /** A segment the builders produce is well-formed whenever it fits the
      16-bit length field. */
  lemma BuiltSegmentIsApp1(es: seq<Ifd.Entry>)
    requires Ifd.AllWellTyped(es) && Ifd.SegmentSize(es) < U16_LIMIT
    ensures IsSegment(Ifd.App1(es), APP1)
  {
    var s := Ifd.App1(es);
    Ifd.App1LengthField(es);
    assert s[..2] == [0xFF, 0xE1];
  }

  /** After `apply_exif_with_iso` the file's first segment reads back as the
      merged entries, and applying again with the same metadata leaves the
      file as it is. */
  lemma ApplyReadsBack(d: seq<byte>, sel: Selection, shotIso: Option<nat>, existing: seq<ExifWriter.Field>,
                       focalMilli: Option<nat>)
    requires ExifWriter.FocalReading(focalMilli) && HasSoi(d) && ExifWriter.AllValid(existing)
    requires Ifd.SegmentSize(ExifWriter.MergedEntries(sel, shotIso, existing, focalMilli)) < U16_LIMIT
    ensures var seg := ExifWriter.CreateMergedExifSegmentWithIso(sel, shotIso, existing, focalMilli);
      var out := ApplyExifWithIso(d, sel, shotIso, existing, focalMilli).data;
      Ifd.ParseApp1(out[2..2 + |seg|]) == Some(ExifWriter.MergedEntries(sel, shotIso, existing, focalMilli))
      && Rewrite(out, seg) == Written(out)
  {
    var es := ExifWriter.MergedEntries(sel, shotIso, existing, focalMilli);
    var seg := ExifWriter.CreateMergedExifSegmentWithIso(sel, shotIso, existing, focalMilli);
    ExifWriter.EntriesTyped(sel, shotIso, existing, focalMilli);
    ExifWriter.MergedReadBack(sel, shotIso, existing, focalMilli);
    RewriteLayout(d, seg);
    BuiltSegmentIsApp1(es);
    RewriteIdempotent(d, seg);
  }

  /** After `set_creation_date` the file's first segment reads back as the
      date builder's entries as written: the copied ASCII fields and the
      three dates, and setting the same date again leaves the file as it
      is. */
  lemma SetDateReadsBack(d: seq<byte>, date: string, existing: seq<ExifWriter.Field>)
    requires HasSoi(d) && ExifWriter.AllValid(existing)
    requires Ifd.SegmentSize(ExifWriter.DateEntriesAsWritten(date, existing)) < U16_LIMIT
    ensures var seg := ExifWriter.CreateDateExifSegment(date, existing);
      var out := SetCreationDate(d, date, existing).data;
      Ifd.ParseApp1(out[2..2 + |seg|]) == Some(ExifWriter.DateEntriesAsWritten(date, existing))
      && Rewrite(out, seg) == Written(out)
  {
    var es := ExifWriter.DateEntriesAsWritten(date, existing);
    var seg := ExifWriter.CreateDateExifSegment(date, existing);
    ExifWriter.DateAsWrittenTyped(date, existing);
    ExifWriter.DateReadBackAsWritten(date, existing);
    RewriteLayout(d, seg);
    BuiltSegmentIsApp1(es);
    RewriteIdempotent(d, seg);
  }

  /** The scan drops a complete APP0 or APP1 segment wherever it starts. */
  lemma ScanDropsSegment(seg: seq<byte>, rest: seq<byte>, markers: set<byte>)
    requires IsSegment(seg, markers)
    ensures Scan(seg + rest, markers) == Scan(rest, markers)
  {
    SegmentThenRest(seg, rest, markers);
  }

  /** Erasing removes a leading APP0 or APP1 segment, in particular the one
      a rewrite put there. */
  lemma EraseDropsSegment(seg: seq<byte>, rest: seq<byte>)
    requires IsSegment(seg, APP0_APP1)
    ensures EraseExif(SOI + seg + rest) == EraseExif(SOI + rest)
  {
    assert (SOI + seg + rest)[..2] == SOI && (SOI + seg + rest)[2..] == seg + rest;
    assert (SOI + rest)[..2] == SOI && (SOI + rest)[2..] == rest;
    ScanDropsSegment(seg, rest, APP0_APP1);
  }

  /** Bytes that start no marker pass through the scan unchanged. */
  lemma {:induction false} ScanKeepsPlain(s: seq<byte>, markers: set<byte>)
    requires forall i :: 0 <= i < |s| ==> s[i] != 0xFF
    ensures Scan(s, markers) == s
  {
    if |s| >= 2 {
      ScanKeepsPlain(s[1..], markers);
      assert s == [s[0]] + s[1..];
    }
  }
}
