/** The two EXIF segment builders of the JPEG processor
    (src/exif/processors.rs): the merged builder, which writes the
    equipment of a selection over the fields already in the file
    (`create_merged_exif_segment_with_iso`), and the date builder, which
    writes a new capture date (`create_date_exif_segment`). Both lay their
    entries out with `Ifd.App1`. */
module ExifWriter {
  import opened Wrappers
  import opened Bytes
  import Utf8
  import opened Models
  import opened ExifValues
  import opened Ifd
  import ExifTags

  /** A field of the metadata already in the file, as the exif crate reads
      it. A file without metadata has no fields. */
  datatype Field = Field(tag: ExifTags.Tag, value: Value)

  predicate AllValid(fs: seq<Field>) {
    forall i :: 0 <= i < |fs| ==> ValidValue(fs[i].value)
  }

  const MAKE: nat := 0x010F
  const MODEL: nat := 0x0110
  const ARTIST: nat := 0x013B
  const LENS_MAKE: nat := 0xA433
  const LENS_MODEL: nat := 0xA434
  const ISO_TAG: nat := 0x8827
  const FOCAL_LENGTH: nat := 0x920A
  const DATE_TIME: nat := 0x0132
  const DATE_TIME_ORIGINAL: nat := 0x9003
  const DATE_TIME_DIGITIZED: nat := 0x9004

  /** The tags the merged builder writes itself and never copies. */
  const OVERRIDDEN_TAGS: seq<nat> := [MAKE, MODEL, ARTIST, LENS_MAKE, LENS_MODEL, ISO_TAG, FOCAL_LENGTH]

  /** The tags the date builder writes itself and never copies. */
  const DATE_TAGS: seq<nat> := [DATE_TIME, DATE_TIME_ORIGINAL, DATE_TIME_DIGITIZED]

  // ---------------------------------------------------------------------
  // Entries

  /** `trim_end_matches('\0')`: NUL is a single zero byte in UTF-8. */
  function TrimZeros(b: seq<byte>): (r: seq<byte>)
    ensures |r| <= |b| && r == b[..|r|]
    ensures |r| > 0 ==> r[|r| - 1] != 0
    ensures forall i :: |r| <= i < |b| ==> b[i] == 0
  {
    if |b| == 0 || b[|b| - 1] != 0 then b else TrimZeros(b[..|b| - 1])
  }

  /** A string the builder writes: ASCII type, counted and stored with its
      NUL terminator. */
  function StringEntry(tag: nat, s: string): (e: Entry)
    ensures e.tag == tag && e.typ == 2
    ensures e.count == Utf8.ByteLen(s) + 1 && Sized(e)
  {
    Entry(tag, 2, Utf8.ByteLen(s) + 1, Utf8.Encode(s) + [0])
  }

  /** The strings of an existing ASCII field worth copying: valid UTF-8,
      not empty and shorter than 1000 bytes once trailing NULs are gone;
      copied without a terminator and counted as such. */
  function KeptStrings(tag: nat, ss: seq<seq<byte>>): (es: seq<Entry>)
    ensures |es| <= |ss|
    ensures forall i :: 0 <= i < |es| ==>
      es[i].tag == tag && es[i].typ == 2 && Sized(es[i])
      && 0 < |es[i].data| < 1000 && es[i].data[|es[i].data| - 1] != 0
  {
    if |ss| == 0 then []
    else
      var c := TrimZeros(ss[0]);
      (if Utf8.Valid(ss[0]) && 0 < |c| < 1000 then [Entry(tag, 2, |c|, c)] else [])
      + KeptStrings(tag, ss[1..])
  }

  /** The entry the merged builder copies for a non-ASCII value: its type,
      its little-endian bytes, and as count the byte length divided by the
      size the type's element has. */
  function TypedEntry(tag: nat, v: Value): Entry
    requires !v.Ascii? && !v.Unknown?
  {
    var data := ValueBytes(v);
    Entry(tag, TypeCode(v), |data| / UnitSize(TypeCode(v)), data)
  }

  /** What the merged builder copies of one existing field: nothing for a
      tag without a number, a tag in `skip` or an unknown value; the kept
      strings of an ASCII value; one typed entry otherwise. */
  function Preserved(f: Field, skip: seq<nat>): seq<Entry> {
    match ExifTags.TagToNumber(f.tag)
    case None => []
    case Some(n) =>
      if n in skip then []
      else match f.value
        case Ascii(ss) => KeptStrings(n, ss)
        case Unknown(_, _, _) => []
        case _ => [TypedEntry(n, f.value)]
  }

  /** `f` applied to each of `xs`, the results concatenated in order: the
      builders' loops over the existing fields. */
  function Flatten<T, U>(xs: seq<T>, f: T -> seq<U>): seq<U> {
    if |xs| == 0 then [] else f(xs[0]) + Flatten(xs[1..], f)
  }

  /** Every element of a flattened list comes from one of the inputs. */
  lemma {:induction false} FlattenAt<T, U>(xs: seq<T>, f: T -> seq<U>, i: nat)
    requires i < |Flatten(xs, f)|
    ensures exists j :: 0 <= j < |xs| && Flatten(xs, f)[i] in f(xs[j])
  {
    var head := f(xs[0]);
    var rest := Flatten(xs[1..], f);
    assert Flatten(xs, f) == head + rest;
    if i < |head| {
      assert (head + rest)[i] == head[i];
      assert head[i] in f(xs[0]);
    } else {
      FlattenAt(xs[1..], f, i - |head|);
      assert (head + rest)[i] == rest[i - |head|];
      var j :| 0 <= j < |xs[1..]| && rest[i - |head|] in f(xs[1..][j]);
      assert xs[1..][j] == xs[j + 1];
    }
  }

  /** Everything an input yields is in the flattened list. */
  lemma {:induction false} FlattenHas<T, U>(xs: seq<T>, f: T -> seq<U>, j: nat)
    requires j < |xs|
    ensures forall e :: e in f(xs[j]) ==> e in Flatten(xs, f)
  {
    assert Flatten(xs, f) == f(xs[0]) + Flatten(xs[1..], f);
    if j > 0 {
      FlattenHas(xs[1..], f, j - 1);
      assert xs[1..][j - 1] == xs[j];
    }
  }

  /** Two maps that agree on every input flatten alike. */
  lemma {:induction false} FlattenAgree<T, U>(xs: seq<T>, f: T -> seq<U>, g: T -> seq<U>)
    requires forall i :: 0 <= i < |xs| ==> f(xs[i]) == g(xs[i])
    ensures Flatten(xs, f) == Flatten(xs, g)
  {
    if |xs| > 0 {
      assert f(xs[0]) == g(xs[0]);
      assert forall i :: 0 <= i < |xs[1..]| ==> xs[1..][i] == xs[i + 1];
      FlattenAgree(xs[1..], f, g);
    }
  }

  /** The entries copied from all of `fs`, in order. */
  function PreservedAll(fs: seq<Field>, skip: seq<nat>): seq<Entry> {
    Flatten(fs, f => Preserved(f, skip))
  }

  /** Make, Model and Artist, then LensMake and the complete lens model
      when the selection has a lens. */
  function OurStrings(sel: Selection): (es: seq<Entry>)
    ensures |es| == if sel.lens.Some? then 5 else 3
  {
    [StringEntry(MAKE, sel.camera.maker), StringEntry(MODEL, sel.camera.model),
     StringEntry(ARTIST, sel.photographer.name)]
    + match sel.lens
      case None => []
      case Some(l) => [StringEntry(LENS_MAKE, l.maker), StringEntry(LENS_MODEL, CompleteLensModel(l))]
  }

  /** The ISO written: the shot's own when given, else the film's. */
  function IsoValue(sel: Selection, shotIso: Option<nat>): nat {
    shotIso.GetOr(sel.film.iso)
  }

  /** One SHORT holding `u16::try_from(iso).unwrap_or(0)`. */
  function IsoEntry(iso: nat): (e: Entry)
    ensures e.tag == ISO_TAG && Sized(e)
  {
    Entry(ISO_TAG, 3, 1, LE16(U16OrZero(iso)))
  }

  /** One RATIONAL: the focal length in thousandths of a millimetre over
      1000. */
  function FocalEntry(milli: nat): (e: Entry)
    requires milli < U32_LIMIT
    ensures e.tag == FOCAL_LENGTH && Sized(e)
  {
    Entry(FOCAL_LENGTH, 5, 1, LE32(milli) + LE32(1000))
  }

  /** A focal length reading as the program computes it: `None` when the
      lens's focal length does not parse as an `f32`, otherwise
      `(focal_length * 1000.0).abs() as u32`. Parsing and float arithmetic
      are not modelled; the caller supplies the result. */
  predicate FocalReading(focalMilli: Option<nat>) {
    focalMilli.Some? ==> focalMilli.value < U32_LIMIT
  }

  function FocalEntries(sel: Selection, focalMilli: Option<nat>): (es: seq<Entry>)
    requires FocalReading(focalMilli)
    ensures |es| == if sel.lens.Some? && focalMilli.Some? then 1 else 0
  {
    if sel.lens.Some? && focalMilli.Some? then [FocalEntry(focalMilli.value)] else []
  }

  /** The merged builder's entries, in the order it writes them: its
      strings, the copied fields, ISO, then the focal length. Every entry
      is one of the builder's own tags or a tag already in the file. */
  function MergedEntries(sel: Selection, shotIso: Option<nat>, existing: seq<Field>,
                         focalMilli: Option<nat>): (es: seq<Entry>)
    requires FocalReading(focalMilli)
    ensures forall i :: 0 <= i < |es| ==> es[i].tag in OVERRIDDEN_TAGS || NumberOfSome(existing, es[i].tag)
  {
    var ours := OurStrings(sel);
    var kept := PreservedAll(existing, OVERRIDDEN_TAGS);
    var tail := [IsoEntry(IsoValue(sel, shotIso))] + FocalEntries(sel, focalMilli);
    PreservedAllTags(existing, OVERRIDDEN_TAGS);
    TagsFrom(ours, kept, tail, existing);
    ours + kept + tail
  }

  /** The builder's own entries carry overridden tags and the copies carry
      tags of existing fields, so every merged entry has one or the other. */
  lemma TagsFrom(ours: seq<Entry>, kept: seq<Entry>, tail: seq<Entry>, existing: seq<Field>)
    requires forall i :: 0 <= i < |ours| ==> ours[i].tag in OVERRIDDEN_TAGS
    requires forall i :: 0 <= i < |kept| ==> NumberOfSome(existing, kept[i].tag)
    requires forall i :: 0 <= i < |tail| ==> tail[i].tag in OVERRIDDEN_TAGS
    ensures var es := ours + kept + tail;
      forall i :: 0 <= i < |es| ==> es[i].tag in OVERRIDDEN_TAGS || NumberOfSome(existing, es[i].tag)
  {
    var es := ours + kept + tail;
    forall i | 0 <= i < |es|
      ensures es[i].tag in OVERRIDDEN_TAGS || NumberOfSome(existing, es[i].tag)
    {
      if i < |ours| {
        assert es[i] == ours[i];
      } else if i < |ours| + |kept| {
        assert es[i] == kept[i - |ours|];
      } else {
        assert es[i] == tail[i - |ours| - |kept|];
      }
    }
  }

  /** `create_merged_exif_segment_with_iso`. */
  function CreateMergedExifSegmentWithIso(sel: Selection, shotIso: Option<nat>, existing: seq<Field>,
                                          focalMilli: Option<nat>): (s: seq<byte>)
    requires FocalReading(focalMilli)
    ensures |s| == SegmentSize(MergedEntries(sel, shotIso, existing, focalMilli))
    ensures s[..2] == [0xFF, 0xE1]
  {
    var es := MergedEntries(sel, shotIso, existing, focalMilli);
    EntriesTyped(sel, shotIso, existing, focalMilli);
    App1(es)
  }

  /** `create_merged_exif_segment`: the film's ISO. */
  function CreateMergedExifSegment(sel: Selection, existing: seq<Field>, focalMilli: Option<nat>): (s: seq<byte>)
    requires FocalReading(focalMilli)
    ensures AllValid(existing) && SegmentSize(MergedEntries(sel, None, existing, focalMilli)) < U16_LIMIT ==>
      ParseApp1(s) == Some(MergedEntries(sel, None, existing, focalMilli))
  {
    MergedReadBack(sel, None, existing, focalMilli);
    CreateMergedExifSegmentWithIso(sel, None, existing, focalMilli)
  }

  // ---------------------------------------------------------------------
  // The date builder

  /** The date builder as written copies only ASCII fields: its branch for
      every other value is empty. */
  function DatePreservedAsWritten(f: Field): seq<Entry> {
    if f.value.Ascii? then Preserved(f, DATE_TAGS) else []
  }

  function DatePreservedAllAsWritten(fs: seq<Field>): seq<Entry> {
    Flatten(fs, DatePreservedAsWritten)
  }

  function DateStrings(date: string): (es: seq<Entry>)
    ensures |es| == 3
  {
    [StringEntry(DATE_TIME, date), StringEntry(DATE_TIME_ORIGINAL, date), StringEntry(DATE_TIME_DIGITIZED, date)]
  }

  /** The date builder's entries as written: every one of them an ASCII
      string. */
  function DateEntriesAsWritten(date: string, existing: seq<Field>): (es: seq<Entry>)
    ensures forall i :: 0 <= i < |es| ==> es[i].typ == 2
  {
    var kept := DatePreservedAllAsWritten(existing);
    DateAsWrittenKeepsAsciiOnly(existing);
    assert forall i :: 0 <= i < 3 ==> DateStrings(date)[i].typ == 2;
    kept + DateStrings(date)
  }

  /** The date builder's entries as its comment says they should be: every
      field but the three dates copied the way the merged builder copies
      them, so the copies are fields of the file and never a date. */
  function DateEntries(date: string, existing: seq<Field>): (es: seq<Entry>)
    ensures |es| >= 3 && forall i :: 0 <= i < |es| - 3 ==> es[i].tag !in DATE_TAGS && NumberOfSome(existing, es[i].tag)
  {
    var kept := PreservedAll(existing, DATE_TAGS);
    PreservedAllTags(existing, DATE_TAGS);
    assert forall i :: 0 <= i < |kept| ==> (kept + DateStrings(date))[i] == kept[i];
    kept + DateStrings(date)
  }

  /** `create_date_exif_segment`: the ASCII fields other than the three
      dates, then the three dates. */
  function CreateDateExifSegment(date: string, existing: seq<Field>): (s: seq<byte>)
    ensures |s| == SegmentSize(DateEntriesAsWritten(date, existing))
    ensures s[..2] == [0xFF, 0xE1]
  {
    DateAsWrittenTyped(date, existing);
    App1(DateEntriesAsWritten(date, existing))
  }

  /** The date segment with every field but the dates copied, as the
      builder's comment intends. */
  function CreateDateExifSegmentPreserving(date: string, existing: seq<Field>): (s: seq<byte>)
    ensures |s| == SegmentSize(DateEntries(date, existing))
    ensures s[..2] == [0xFF, 0xE1]
  {
    DateEntriesTyped(date, existing);
    App1(DateEntries(date, existing))
  }

  // ---------------------------------------------------------------------
  // What the entries are

  predicate AllSized(es: seq<Entry>) {
    forall i :: 0 <= i < |es| ==> Sized(es[i])
  }

  lemma ConcatTyped(a: seq<Entry>, b: seq<Entry>)
    requires AllWellTyped(a) && AllWellTyped(b)
    ensures AllWellTyped(a + b)
    ensures AllSized(a) && AllSized(b) ==> AllSized(a + b)
  {
    forall i | 0 <= i < |a + b|
      ensures WellTyped((a + b)[i])
      ensures AllSized(a) && AllSized(b) ==> Sized((a + b)[i])
    {
      if i >= |a| {
        assert (a + b)[i] == b[i - |a|];
      }
    }
  }

  lemma DivExact(u: nat, k: nat)
    requires u in {1, 2, 4, 8}
    ensures (u * k) / u == k
  {
    if u == 1 {
    } else if u == 2 {
      assert 2 * k == k + k;
    } else if u == 4 {
      assert 4 * k == k + k + k + k;
    } else {
      assert 8 * k == k + k + k + k + k + k + k + k;
    }
  }

  /** A copied non-ASCII field keeps its type, counts its elements and
      reads back as the value it came from. */
  lemma TypedEntryReadBack(n: nat, v: Value)
    requires n < U16_LIMIT && ValidValue(v) && !v.Ascii? && !v.Unknown?
    ensures WellTyped(TypedEntry(n, v)) && Sized(TypedEntry(n, v))
    ensures TypedEntry(n, v).typ == TypeCode(v) && TypedEntry(n, v).count == ElementCount(v)
    ensures DecodeValue(TypedEntry(n, v).typ, TypedEntry(n, v).data) == v
  {
    ValueRoundTrip(v);
    DivExact(UnitSize(TypeCode(v)), ElementCount(v));
  }

  lemma PreservedTyped(f: Field, skip: seq<nat>)
    ensures AllWellTyped(Preserved(f, skip))
    ensures ValidValue(f.value) ==> AllSized(Preserved(f, skip))
  {
    match ExifTags.TagToNumber(f.tag)
    case None =>
    case Some(n) =>
      if n !in skip && !f.value.Ascii? && !f.value.Unknown? && ValidValue(f.value) {
        TypedEntryReadBack(n, f.value);
      } else if n !in skip && !f.value.Ascii? && !f.value.Unknown? {
        assert WellTyped(TypedEntry(n, f.value));
      }
  }

  lemma PreservedAllTyped(fs: seq<Field>, skip: seq<nat>)
    ensures AllWellTyped(PreservedAll(fs, skip))
    ensures AllValid(fs) ==> AllSized(PreservedAll(fs, skip))
  {
    var es := PreservedAll(fs, skip);
    forall i | 0 <= i < |es|
      ensures WellTyped(es[i])
      ensures AllValid(fs) ==> Sized(es[i])
    {
      FlattenAt(fs, f => Preserved(f, skip), i);
      var j :| 0 <= j < |fs| && es[i] in Preserved(fs[j], skip);
      PreservedTyped(fs[j], skip);
    }
  }

  lemma EntriesTyped(sel: Selection, shotIso: Option<nat>, existing: seq<Field>, focalMilli: Option<nat>)
    requires FocalReading(focalMilli)
    ensures AllWellTyped(MergedEntries(sel, shotIso, existing, focalMilli))
    ensures AllValid(existing) ==> AllSized(MergedEntries(sel, shotIso, existing, focalMilli))
  {
    var ours := OurStrings(sel);
    var kept := PreservedAll(existing, OVERRIDDEN_TAGS);
    var tail := [IsoEntry(IsoValue(sel, shotIso))] + FocalEntries(sel, focalMilli);
    OursTyped(sel);
    TailTyped(sel, shotIso, focalMilli);
    PreservedAllTyped(existing, OVERRIDDEN_TAGS);
    ConcatTyped(ours, kept);
    ConcatTyped(ours + kept, tail);
  }

  lemma OursTyped(sel: Selection)
    ensures AllWellTyped(OurStrings(sel)) && AllSized(OurStrings(sel))
  {
  }

  lemma TailTyped(sel: Selection, shotIso: Option<nat>, focalMilli: Option<nat>)
    requires FocalReading(focalMilli)
    ensures var tail := [IsoEntry(IsoValue(sel, shotIso))] + FocalEntries(sel, focalMilli);
      AllWellTyped(tail) && AllSized(tail)
  {
  }

  lemma DateEntriesTyped(date: string, existing: seq<Field>)
    ensures AllWellTyped(DateEntries(date, existing))
    ensures AllValid(existing) ==> AllSized(DateEntries(date, existing))
  {
    PreservedAllTyped(existing, DATE_TAGS);
    ConcatTyped(PreservedAll(existing, DATE_TAGS), DateStrings(date));
  }

  lemma DateAsWrittenTyped(date: string, existing: seq<Field>)
    ensures AllWellTyped(DateEntriesAsWritten(date, existing))
    ensures AllValid(existing) ==> AllSized(DateEntriesAsWritten(date, existing))
  {
    var es := DatePreservedAllAsWritten(existing);
    forall i | 0 <= i < |es|
      ensures WellTyped(es[i])
      ensures AllValid(existing) ==> Sized(es[i])
    {
      FlattenAt(existing, DatePreservedAsWritten, i);
      var j :| 0 <= j < |existing| && es[i] in DatePreservedAsWritten(existing[j]);
      assert es[i] in Preserved(existing[j], DATE_TAGS);
      PreservedTyped(existing[j], DATE_TAGS);
    }
    ConcatTyped(es, DateStrings(date));
  }

  /** The merged segment reads back as its entry list whenever it fits the
      16-bit length field, and the entry count the builder writes
      (`all_string_fields.len() + preserved_fields.len() + 1 + focal`) is
      the number of entries. */
  lemma MergedReadBack(sel: Selection, shotIso: Option<nat>, existing: seq<Field>, focalMilli: Option<nat>)
    requires FocalReading(focalMilli)
    ensures var es := MergedEntries(sel, shotIso, existing, focalMilli);
      |es| == (if sel.lens.Some? then 5 else 3) + |PreservedAll(existing, OVERRIDDEN_TAGS)| + 1
               + (if sel.lens.Some? && focalMilli.Some? then 1 else 0)
    ensures var es := MergedEntries(sel, shotIso, existing, focalMilli);
      AllValid(existing) && SegmentSize(es) < U16_LIMIT ==>
        ParseApp1(CreateMergedExifSegmentWithIso(sel, shotIso, existing, focalMilli)) == Some(es)
  {
    var es := MergedEntries(sel, shotIso, existing, focalMilli);
    EntriesTyped(sel, shotIso, existing, focalMilli);
    if AllValid(existing) && SegmentSize(es) < U16_LIMIT {
      SegmentRoundTrip(es);
    }
  }

  // ---------------------------------------------------------------------
  // What a reader finds in the entries

  /** A written string reads back, before its terminator, as the string. */
  lemma StringEntryReadBack(tag: nat, s: string)
    ensures var e := StringEntry(tag, s);
      e.data[e.count - 1] == 0 && Utf8.DecodeLossy(e.data[..e.count - 1]) == s
  {
    var e := StringEntry(tag, s);
    assert e.data[..e.count - 1] == Utf8.Encode(s);
    Utf8.DecodeEncode(s);
  }

  /** The ISO entry is a one-element SHORT holding the ISO, or 0 when the
      ISO does not fit 16 bits. */
  lemma IsoEntryReadBack(iso: nat)
    ensures IsoEntry(iso) == TypedEntry(ISO_TAG, Short([U16OrZero(iso)]))
    ensures DecodeValue(IsoEntry(iso).typ, IsoEntry(iso).data)
            == Short([if iso < U16_LIMIT then iso else 0])
  {
    var x: nat := U16OrZero(iso);
    var xs: seq<nat> := [x];
    var v := Short(xs);
    assert xs[1..] == [];
    assert x % U16_LIMIT == x;
    assert ValueBytes(v) == U16Bytes(x) + EncodeAll(xs[1..], U16Bytes);
    TypedEntryReadBack(ISO_TAG, v);
  }

  /** The focal-length entry is a one-element RATIONAL: the reading over
      1000. */
  lemma FocalEntryReadBack(milli: nat)
    requires milli < U32_LIMIT
    ensures FocalEntry(milli) == TypedEntry(FOCAL_LENGTH, Rational([Ratio(milli, 1000)]))
    ensures DecodeValue(FocalEntry(milli).typ, FocalEntry(milli).data) == Rational([Ratio(milli, 1000)])
  {
    var r := Ratio(milli, 1000);
    var rs: seq<Ratio> := [r];
    var v := Rational(rs);
    assert rs[1..] == [];
    assert milli % U32_LIMIT == milli && 1000 % U32_LIMIT == 1000;
    assert ValueBytes(v) == RatioBytes(r) + EncodeAll(rs[1..], RatioBytes);
    TypedEntryReadBack(FOCAL_LENGTH, v);
  }

  /** Every entry copied from a field carries that field's number, which
      is not a skipped tag. */
  lemma PreservedTags(f: Field, skip: seq<nat>)
    ensures forall e :: e in Preserved(f, skip) ==> e.tag !in skip && ExifTags.TagToNumber(f.tag) == Some(e.tag)
  {
  }

  /** `n` is the tag number of one of the fields `fs`. */
  predicate NumberOfSome(fs: seq<Field>, n: nat) {
    exists j :: 0 <= j < |fs| && ExifTags.TagToNumber(fs[j].tag) == Some(n)
  }

  /** Every copied entry carries the number of the field it came from, and
      never one of the skipped tags. */
  lemma PreservedAllTags(fs: seq<Field>, skip: seq<nat>)
    ensures forall i :: 0 <= i < |PreservedAll(fs, skip)| ==>
      PreservedAll(fs, skip)[i].tag !in skip && NumberOfSome(fs, PreservedAll(fs, skip)[i].tag)
  {
    var es := PreservedAll(fs, skip);
    forall i | 0 <= i < |es|
      ensures es[i].tag !in skip && NumberOfSome(fs, es[i].tag)
    {
      FlattenAt(fs, f => Preserved(f, skip), i);
      var j :| 0 <= j < |fs| && es[i] in Preserved(fs[j], skip);
      PreservedTags(fs[j], skip);
    }
  }

  /** Everything copied from one field is in the copied list. */
  lemma PreservedAllHas(fs: seq<Field>, skip: seq<nat>, j: nat)
    requires j < |fs|
    ensures forall e :: e in Preserved(fs[j], skip) ==> e in PreservedAll(fs, skip)
  {
    FlattenHas(fs, f => Preserved(f, skip), j);
  }

  /** The builder's own values win: an entry for one of its tags is one it
      wrote, never a copy of the old field. */
  lemma OverridesWin(sel: Selection, shotIso: Option<nat>, existing: seq<Field>, focalMilli: Option<nat>)
    requires FocalReading(focalMilli)
    ensures var es := MergedEntries(sel, shotIso, existing, focalMilli);
      var k := |OurStrings(sel)| + |PreservedAll(existing, OVERRIDDEN_TAGS)|;
      forall i :: 0 <= i < |es| && es[i].tag in OVERRIDDEN_TAGS ==> i < |OurStrings(sel)| || k <= i
    ensures var es := MergedEntries(sel, shotIso, existing, focalMilli);
      var k := |OurStrings(sel)| + |PreservedAll(existing, OVERRIDDEN_TAGS)|;
      es[..3] == [StringEntry(MAKE, sel.camera.maker), StringEntry(MODEL, sel.camera.model),
                  StringEntry(ARTIST, sel.photographer.name)]
      && es[k] == IsoEntry(IsoValue(sel, shotIso))
  {
    CopiesNotOverridden(sel, shotIso, existing, focalMilli);
    MergedLayout(sel, shotIso, existing, focalMilli);
  }

  lemma CopiesNotOverridden(sel: Selection, shotIso: Option<nat>, existing: seq<Field>, focalMilli: Option<nat>)
    requires FocalReading(focalMilli)
    ensures var es := MergedEntries(sel, shotIso, existing, focalMilli);
      var k := |OurStrings(sel)| + |PreservedAll(existing, OVERRIDDEN_TAGS)|;
      forall i :: |OurStrings(sel)| <= i < k ==> es[i].tag !in OVERRIDDEN_TAGS
  {
    var kept := PreservedAll(existing, OVERRIDDEN_TAGS);
    PreservedAllTags(existing, OVERRIDDEN_TAGS);
    forall e | e in kept
      ensures e.tag !in OVERRIDDEN_TAGS
    {
      var i :| 0 <= i < |kept| && kept[i] == e;
    }
    SecondPartTags(MergedEntries(sel, shotIso, existing, focalMilli), OurStrings(sel), kept,
                   [IsoEntry(IsoValue(sel, shotIso))] + FocalEntries(sel, focalMilli), OVERRIDDEN_TAGS);
  }

  /** Entries placed second in a concatenation keep what is known of their
      tags. */
  lemma SecondPartTags(es: seq<Entry>, a: seq<Entry>, b: seq<Entry>, c: seq<Entry>, skip: seq<nat>)
    requires es == a + b + c
    requires forall e :: e in b ==> e.tag !in skip
    ensures forall i :: |a| <= i < |a| + |b| ==> es[i].tag !in skip
  {
    forall i | |a| <= i < |a| + |b|
      ensures es[i].tag !in skip
    {
      assert es[i] == b[i - |a|];
    }
  }

  lemma MergedLayout(sel: Selection, shotIso: Option<nat>, existing: seq<Field>, focalMilli: Option<nat>)
    requires FocalReading(focalMilli)
    ensures var es := MergedEntries(sel, shotIso, existing, focalMilli);
      var k := |OurStrings(sel)| + |PreservedAll(existing, OVERRIDDEN_TAGS)|;
      es[..3] == [StringEntry(MAKE, sel.camera.maker), StringEntry(MODEL, sel.camera.model),
                  StringEntry(ARTIST, sel.photographer.name)]
      && es[k] == IsoEntry(IsoValue(sel, shotIso))
  {
    var ours := OurStrings(sel);
    var kept := PreservedAll(existing, OVERRIDDEN_TAGS);
    var iso := IsoEntry(IsoValue(sel, shotIso));
    var es := MergedEntries(sel, shotIso, existing, focalMilli);
    assert es == ours + kept + [iso] + FocalEntries(sel, focalMilli);
    assert es[|ours| + |kept|] == iso;
    assert es[..3] == ours[..3];
  }

  /** Every other field survives the merge: a valid non-ASCII field whose
      tag has a number the builder does not write is copied, and reads back
      as the same value with its element count. */
  lemma MergeKeepsTyped(sel: Selection, shotIso: Option<nat>, existing: seq<Field>, focalMilli: Option<nat>, j: nat)
    requires FocalReading(focalMilli) && j < |existing|
    requires ExifTags.TagToNumber(existing[j].tag).Some?
    requires ExifTags.TagToNumber(existing[j].tag).value !in OVERRIDDEN_TAGS
    requires ValidValue(existing[j].value) && !existing[j].value.Ascii? && !existing[j].value.Unknown?
    ensures var n := ExifTags.TagToNumber(existing[j].tag).value;
      var e := TypedEntry(n, existing[j].value);
      e in MergedEntries(sel, shotIso, existing, focalMilli)
      && e.count == ElementCount(existing[j].value)
      && DecodeValue(e.typ, e.data) == existing[j].value
  {
    var n := ExifTags.TagToNumber(existing[j].tag).value;
    PreservedAllHas(existing, OVERRIDDEN_TAGS, j);
    assert TypedEntry(n, existing[j].value) in Preserved(existing[j], OVERRIDDEN_TAGS);
    TypedEntryReadBack(n, existing[j].value);
  }

  /** `d` is the NUL-trimmed form of one of the valid strings `ss`. */
  predicate TrimmedFrom(ss: seq<seq<byte>>, d: seq<byte>) {
    exists k :: 0 <= k < |ss| && Utf8.Valid(ss[k]) && d == TrimZeros(ss[k])
  }

  /** The strings copied from an ASCII field: each is the NUL-trimmed form
      of a valid input string, and every valid input string whose trimmed
      form is non-empty and under 1000 bytes is copied. */
  lemma {:induction false} KeptStringsMeaning(tag: nat, ss: seq<seq<byte>>)
    ensures forall i :: 0 <= i < |KeptStrings(tag, ss)| ==> TrimmedFrom(ss, KeptStrings(tag, ss)[i].data)
    ensures forall k :: 0 <= k < |ss| && Utf8.Valid(ss[k]) && 0 < |TrimZeros(ss[k])| < 1000 ==>
      Entry(tag, 2, |TrimZeros(ss[k])|, TrimZeros(ss[k])) in KeptStrings(tag, ss)
  {
    if |ss| > 0 {
      KeptStringsMeaning(tag, ss[1..]);
      var c := TrimZeros(ss[0]);
      var head: seq<Entry> := if Utf8.Valid(ss[0]) && 0 < |c| < 1000 then [Entry(tag, 2, |c|, c)] else [];
      var rest: seq<Entry> := KeptStrings(tag, ss[1..]);
      assert KeptStrings(tag, ss) == head + rest;
      forall i | 0 <= i < |head + rest|
        ensures TrimmedFrom(ss, (head + rest)[i].data)
      {
        if i < |head| {
          assert (head + rest)[i] == head[0];
          assert Utf8.Valid(ss[0]) && head[0].data == TrimZeros(ss[0]);
        } else {
          assert (head + rest)[i] == rest[i - |head|];
          assert TrimmedFrom(ss[1..], rest[i - |head|].data);
          var k :| 0 <= k < |ss[1..]| && Utf8.Valid(ss[1..][k]) && rest[i - |head|].data == TrimZeros(ss[1..][k]);
          assert ss[1..][k] == ss[k + 1];
        }
      }
      forall k | 0 <= k < |ss| && Utf8.Valid(ss[k]) && 0 < |TrimZeros(ss[k])| < 1000
        ensures Entry(tag, 2, |TrimZeros(ss[k])|, TrimZeros(ss[k])) in head + rest
      {
        if k > 0 {
          assert ss[1..][k - 1] == ss[k];
          assert Entry(tag, 2, |TrimZeros(ss[k])|, TrimZeros(ss[k])) in rest;
        } else {
          assert head == [Entry(tag, 2, |c|, c)];
        }
      }
    }
  }

  // ---------------------------------------------------------------------
  // The date builder's entries

  /** The date segment reads back as its entries when it fits, ends with
      the three date strings, and no copied entry is a date. */
  lemma DateReadBack(date: string, existing: seq<Field>)
    ensures var es := DateEntries(date, existing);
      |es| == |PreservedAll(existing, DATE_TAGS)| + 3
      && es[|es| - 3..] == DateStrings(date)
      && forall i :: 0 <= i < |es| - 3 ==> es[i].tag !in DATE_TAGS
    ensures var es := DateEntries(date, existing);
      AllValid(existing) && SegmentSize(es) < U16_LIMIT ==> ParseApp1(CreateDateExifSegmentPreserving(date, existing)) == Some(es)
  {
    var es := DateEntries(date, existing);
    var kept := PreservedAll(existing, DATE_TAGS);
    PreservedAllTags(existing, DATE_TAGS);
    forall i | 0 <= i < |es| - 3
      ensures es[i].tag !in DATE_TAGS
    {
      assert es[i] == kept[i];
    }
    DateEntriesTyped(date, existing);
    if AllValid(existing) && SegmentSize(es) < U16_LIMIT {
      SegmentRoundTrip(es);
    }
  }

  /** The date segment as written reads back as its entries when it fits:
      the copied ASCII fields, none of them a date, then the three date
      strings. */
  lemma DateReadBackAsWritten(date: string, existing: seq<Field>)
    ensures var es := DateEntriesAsWritten(date, existing);
      |es| == |DatePreservedAllAsWritten(existing)| + 3
      && es[|es| - 3..] == DateStrings(date)
      && forall i :: 0 <= i < |es| - 3 ==> es[i].tag !in DATE_TAGS && es[i].typ == 2
    ensures var es := DateEntriesAsWritten(date, existing);
      AllValid(existing) && SegmentSize(es) < U16_LIMIT ==> ParseApp1(CreateDateExifSegment(date, existing)) == Some(es)
  {
    var es := DateEntriesAsWritten(date, existing);
    var kept := DatePreservedAllAsWritten(existing);
    DateAsWrittenKeepsAsciiOnly(existing);
    forall i | 0 <= i < |es| - 3
      ensures es[i].tag !in DATE_TAGS && es[i].typ == 2
    {
      assert es[i] == kept[i];
      FlattenAt(existing, DatePreservedAsWritten, i);
      var j :| 0 <= j < |existing| && kept[i] in DatePreservedAsWritten(existing[j]);
      assert kept[i] in Preserved(existing[j], DATE_TAGS);
      PreservedTags(existing[j], DATE_TAGS);
    }
    DateAsWrittenTyped(date, existing);
    if AllValid(existing) && SegmentSize(es) < U16_LIMIT {
      SegmentRoundTrip(es);
    }
  }

  lemma DatePreservedAscii(f: Field)
    ensures f.value.Ascii? ==> DatePreservedAsWritten(f) == Preserved(f, DATE_TAGS)
    ensures forall e :: e in DatePreservedAsWritten(f) ==> e.typ == 2
  {
  }

  /** The copying as written agrees with the corrected one on ASCII fields
      and drops every other field. */
  lemma DateAsWrittenKeepsAsciiOnly(fs: seq<Field>)
    ensures (forall i :: 0 <= i < |fs| ==> fs[i].value.Ascii?) ==>
      DatePreservedAllAsWritten(fs) == PreservedAll(fs, DATE_TAGS)
    ensures forall i :: 0 <= i < |DatePreservedAllAsWritten(fs)| ==> DatePreservedAllAsWritten(fs)[i].typ == 2
  {
    if forall i :: 0 <= i < |fs| ==> fs[i].value.Ascii? {
      forall i | 0 <= i < |fs|
        ensures DatePreservedAsWritten(fs[i]) == (f => Preserved(f, DATE_TAGS))(fs[i])
      {
        DatePreservedAscii(fs[i]);
      }
      FlattenAgree(fs, DatePreservedAsWritten, f => Preserved(f, DATE_TAGS));
    }
    var es := DatePreservedAllAsWritten(fs);
    forall i | 0 <= i < |es|
      ensures es[i].typ == 2
    {
      FlattenAt(fs, DatePreservedAsWritten, i);
      var j :| 0 <= j < |fs| && es[i] in DatePreservedAsWritten(fs[j]);
      DatePreservedAscii(fs[j]);
    }
  }

  const ORIENTATION_TOP_LEFT: Field := Field(ExifTags.Tag(ExifTags.Tiff, 0x0112, Some("Orientation")), Short([1]))

  /** A file tagged with an orientation loses it when its date is rewritten
      as written, and keeps it with the corrected copying. */
  lemma DateRewriteDropsOrientation(date: string)
    ensures DateEntriesAsWritten(date, [ORIENTATION_TOP_LEFT]) == DateStrings(date)
    ensures DateEntries(date, [ORIENTATION_TOP_LEFT])
            == [TypedEntry(0x0112, Short([1]))] + DateStrings(date)
  {
    var f := ORIENTATION_TOP_LEFT;
    assert ExifTags.IsStdNumbered(f.tag);
    assert ExifTags.TagToNumber(f.tag) == Some(0x0112);
    assert [f][1..] == [];
    assert DatePreservedAllAsWritten([f]) == DatePreservedAsWritten(f) + DatePreservedAllAsWritten([]);
    assert DatePreservedAsWritten(f) == [];
    assert Preserved(f, DATE_TAGS) == [TypedEntry(0x0112, Short([1]))];
    assert PreservedAll([f], DATE_TAGS) == Preserved(f, DATE_TAGS) + PreservedAll([], DATE_TAGS);
  }
}
