/** EXIF tag identities and their names (src/exif/processors.rs):
    `tag_to_number`, `format_tag_name` and `format_iptc_tag`.
    A tag of the exif crate is a context and a 16-bit number; the crate
    knows a name for many of them and prints `Tag(<context>, <number>)` for
    the rest. */
module ExifTags {
  import opened Wrappers
  import opened Text
  import Bytes
  import Paths

  datatype Context = Tiff | Exif | Gps | Interop

  /** `crateName` is the name the crate's own table gives the tag (used by
      both its `Display` and its `Debug`), `None` when the crate does not
      know the tag. */
  datatype Tag = Tag(ctx: Context, number: nat, crateName: Option<string>)

  predicate IsIdentifierChar(c: char) {
    ('a' <= c <= 'z') || ('A' <= c <= 'Z') || ('0' <= c <= '9') || c == '_'
  }

  /** The crate names its tags with Rust identifiers such as `ExposureTime`. */
  predicate IsIdentifier(s: string) {
    |s| > 0 && forall i :: 0 <= i < |s| ==> IsIdentifierChar(s[i])
  }

  /** The context the crate gives the standard tags named below: the TIFF
      tags of IFD0 (below 0x8000, and Copyright) or the Exif sub-IFD tags. */
  function StdContext(n: nat): Context {
    if n < 0x8000 || n == 0x8298 then Tiff else Exif
  }

  /** The tag numbers `tag_to_number` maps directly. */
  predicate IsNumbered(n: nat) {
    match n
    case 0x0100 | 0x0101 | 0x0103 | 0x0106 | 0x010e | 0x010f | 0x0110 | 0x0112 | 0x011a
       | 0x011b | 0x0128 | 0x0131 | 0x0132 | 0x013b | 0x8298 | 0x829a | 0x829d | 0x8822
       | 0x8827 | 0x9000 | 0x9003 | 0x9004 | 0x9201 | 0x9202 | 0x9203 | 0x9204 | 0x9205
       | 0x9206 | 0x9207 | 0x9208 | 0x9209 | 0x920a | 0xa001 | 0xa432 | 0xa433 | 0xa434
       | 0x9101 | 0x9102 | 0x9286 | 0xa000 | 0xa002 | 0xa003 | 0xa004 | 0xa20e | 0xa20f
       | 0xa210 | 0xa214 | 0xa215 | 0xa217 | 0xa300 | 0xa301 | 0xa302 | 0xa401 | 0xa402
       | 0xa403 | 0xa404 | 0xa405 | 0xa406 | 0xa407 | 0xa408 | 0xa409 | 0xa40a | 0xa40b
       | 0xa40c | 0xa420 | 0xa435 => true
    case _ => false
  }

  /** The display names `format_tag_name` gives the standard tags. */
  function StdName(n: nat): Option<string> {
    match n
    case 0x010f => Some("Make")
    case 0x0110 => Some("Model")
    case 0x013b => Some("Artist")
    case 0x8298 => Some("Copyright")
    case 0x0132 => Some("Date/Time")
    case 0x9003 => Some("Date/Time Original")
    case 0x9004 => Some("Date/Time Digitized")
    case 0x0131 => Some("Software")
    case 0x010e => Some("Image Description")
    case 0x0112 => Some("Orientation")
    case 0x011a => Some("X Resolution")
    case 0x011b => Some("Y Resolution")
    case 0x0128 => Some("Resolution Unit")
    case 0x829a => Some("Exposure Time")
    case 0x829d => Some("F-Number")
    case 0x8822 => Some("Exposure Program")
    case 0x8827 => Some("ISO Speed")
    case 0x9000 => Some("EXIF Version")
    case 0x9101 => Some("Components Configuration")
    case 0x9102 => Some("Compressed Bits Per Pixel")
    case 0x9201 => Some("Shutter Speed Value")
    case 0x9202 => Some("Aperture Value")
    case 0x9203 => Some("Brightness Value")
    case 0x9204 => Some("Exposure Bias Value")
    case 0x9205 => Some("Max Aperture Value")
    case 0x9206 => Some("Subject Distance")
    case 0x9207 => Some("Metering Mode")
    case 0x9208 => Some("Light Source")
    case 0x9209 => Some("Flash")
    case 0x920a => Some("Focal Length")
    case 0x9286 => Some("User Comment")
    case 0xa000 => Some("Flashpix Version")
    case 0xa001 => Some("Color Space")
    case 0xa002 => Some("Pixel X Dimension")
    case 0xa003 => Some("Pixel Y Dimension")
    case 0xa004 => Some("Related Sound File")
    case 0xa20e => Some("Focal Plane X Resolution")
    case 0xa20f => Some("Focal Plane Y Resolution")
    case 0xa210 => Some("Focal Plane Resolution Unit")
    case 0xa214 => Some("Subject Location")
    case 0xa215 => Some("Exposure Index")
    case 0xa217 => Some("Sensing Method")
    case 0xa300 => Some("File Source")
    case 0xa301 => Some("Scene Type")
    case 0xa302 => Some("CFA Pattern")
    case 0xa401 => Some("Custom Rendered")
    case 0xa402 => Some("Exposure Mode")
    case 0xa403 => Some("White Balance")
    case 0xa404 => Some("Digital Zoom Ratio")
    case 0xa405 => Some("Focal Length (35mm equiv)")
    case 0xa406 => Some("Scene Capture Type")
    case 0xa407 => Some("Gain Control")
    case 0xa408 => Some("Contrast")
    case 0xa409 => Some("Saturation")
    case 0xa40a => Some("Sharpness")
    case 0xa40b => Some("Device Setting Description")
    case 0xa40c => Some("Subject Distance Range")
    case 0xa420 => Some("Image Unique ID")
    case 0xa432 => Some("Lens Specification")
    case 0xa433 => Some("Lens Make")
    case 0xa434 => Some("Lens Model")
    case 0xa435 => Some("Lens Serial Number")
    case _ => None
  }

  /** Names `format_tag_name` gives tags the crate does not know, keyed by
      the decimal number in their printed form. */
  const FALLBACK_NAMES: map<string, string> := map[
    "34855" := "ISO Speed", "33434" := "Exposure Time", "33437" := "F-Number",
    "36867" := "Date/Time Original", "36868" := "Date/Time Digitized",
    "37377" := "Shutter Speed Value", "37378" := "Aperture Value",
    "37380" := "Exposure Bias Value", "37381" := "Max Aperture Value",
    "37382" := "Subject Distance", "37383" := "Metering Mode", "37384" := "Light Source",
    "37385" := "Flash", "37386" := "Focal Length", "42034" := "Lens Specification",
    "42035" := "Lens Make", "42036" := "Lens Model", "42037" := "Lens Serial Number",
    "37500" := "Maker Note", "40961" := "Color Space", "40962" := "Pixel X Dimension",
    "40963" := "Pixel Y Dimension", "41486" := "Focal Plane X Resolution",
    "41487" := "Focal Plane Y Resolution", "41488" := "Focal Plane Resolution Unit",
    "41495" := "Sensing Method", "41728" := "File Source", "41729" := "Scene Type",
    "41985" := "Custom Rendered", "41986" := "Exposure Mode", "41987" := "White Balance",
    "41988" := "Digital Zoom Ratio", "41989" := "Focal Length (35mm equiv)",
    "41990" := "Scene Capture Type", "41991" := "Gain Control", "41992" := "Contrast",
    "41993" := "Saturation", "41994" := "Sharpness", "42016" := "Image Unique ID"]

  function FallbackName(text: string): Option<string> {
    if text in FALLBACK_NAMES then Some(FALLBACK_NAMES[text]) else None
  }

  /** The tag has the context of the crate constant for its number
      (`Tag::Make` and the like match context and number). */
  predicate IsStd(t: Tag) {
    t.ctx == StdContext(t.number)
  }

  /** One of the crate constants `tag_to_number` lists. */
  predicate IsStdNumbered(t: Tag) {
    IsStd(t) && IsNumbered(t.number)
  }

  /** One of the crate constants `format_tag_name` names. */
  predicate IsStdNamed(t: Tag)
    ensures IsStdNamed(t) ==> StdName(t.number).Some?
  {
    IsStd(t) && StdName(t.number).Some?
  }

  /** A tag as the crate produces it: a 16-bit number, an identifier as
      name, and a name for every standard tag named here. */
  predicate ValidTag(t: Tag) {
    t.number < Bytes.U16_LIMIT
    && (t.crateName.Some? ==> IsIdentifier(t.crateName.value))
    && (IsStdNumbered(t) || IsStdNamed(t) ==> t.crateName.Some?)
  }

  function ContextName(c: Context): string {
    match c
    case Tiff => "Tiff"
    case Exif => "Exif"
    case Gps => "Gps"
    case Interop => "Interop"
  }

  /** The tag as the crate prints it (`Display` and `Debug` agree). */
  function TagText(t: Tag): (s: string)
    ensures t.crateName.Some? ==> s == t.crateName.value
  {
    match t.crateName
    case Some(name) => name
    case None => "Tag(" + ContextName(t.ctx) + ", " + NatToString(t.number) + ")"
  }

  /** Position of the last ", " in `s` (`rfind(", ")`). */
  function LastCommaSpace(s: string): (r: Option<nat>)
    ensures r.Some? ==> r.value + 1 < |s| && s[r.value] == ',' && s[r.value + 1] == ' '
    ensures r.Some? ==> forall k :: r.value < k < |s| - 1 ==> !(s[k] == ',' && s[k + 1] == ' ')
    ensures r.None? ==> forall k :: 0 <= k < |s| - 1 ==> !(s[k] == ',' && s[k + 1] == ' ')
  {
    if |s| < 2 then None
    else if s[|s| - 2] == ',' && s[|s| - 1] == ' ' then Some(|s| - 2)
    else LastCommaSpace(s[..|s| - 1])
  }

  /** The text between the last ", " and the last ')' of a printed tag. */
  function NumberText(s: string): Option<string> {
    match LastCommaSpace(s)
    case None => None
    case Some(c) =>
      match Paths.LastIndexOf(s, ')')
      case None => None
      case Some(e) => if c + 2 <= e then Some(s[c + 2..e]) else None
  }

  /** `str::parse::<u16>`: an optional '+', then at least one digit, and a
      value below 65536. */
  function ParseU16(s: string): (r: Option<nat>)
    ensures r.Some? ==> r.value < Bytes.U16_LIMIT
  {
    var digits := if |s| > 0 && s[0] == '+' then s[1..] else s;
    if |digits| > 0 && IsDigits(digits) && DigitsValue(digits) < Bytes.U16_LIMIT
    then Some(DigitsValue(digits)) else None
  }

  /** `tag_to_number`: the number of a standard tag, or the number read
      back from the printed form of a tag the crate does not know. */
  function TagToNumber(t: Tag): (r: Option<nat>)
    ensures r.Some? ==> r.value < Bytes.U16_LIMIT
  {
    if IsStdNumbered(t) && t.number < Bytes.U16_LIMIT then Some(t.number)
    else
      var s := TagText(t);
      if Contains(s, "Tag(") then
        match NumberText(s)
        case None => None
        case Some(n) => ParseU16(n)
      else None
  }

  /** `format_tag_name`. */
  function FormatTagName(t: Tag): (r: string)
    ensures IsStdNamed(t) ==> r == StdName(t.number).value
  {
    if IsStdNamed(t) then StdName(t.number).value
    else
      var s := TagText(t);
      if IsPrefix("Tag(", s) && IsSuffix(")", s) then
        match NumberText(s)
        case None => s
        case Some(n) => FallbackName(n).GetOr("Tag " + n)
      else s
  }

  // ---------------------------------------------------------------------
  // What the printed form gives back

  lemma IdentifierHasNoParen(s: string)
    requires IsIdentifier(s)
    ensures !Contains(s, "Tag(")
    ensures !IsPrefix("Tag(", s)
  {
    forall i | 0 <= i <= |s| - 4
      ensures !OccursAt(s, "Tag(", i)
    {
      assert s[i..i + 4][3] == s[i + 3] != '(';
    }
    if |s| >= 4 {
      assert s[..4][3] == s[3] != '(';
    }
  }

  /** The printed form of an unknown tag gives its decimal number back. */
  lemma UnknownTagText(t: Tag)
    requires t.crateName.None?
    ensures Contains(TagText(t), "Tag(") && IsPrefix("Tag(", TagText(t)) && IsSuffix(")", TagText(t))
    ensures NumberText(TagText(t)) == Some(NatToString(t.number))
  {
    var head := "Tag(" + ContextName(t.ctx);
    var d := NatToString(t.number);
    var s := TagText(t);
    assert s == head + ", " + d + ")";
    assert OccursAt(s, "Tag(", 0);
    assert s[..4] == "Tag(";
    var c := |head|;
    assert s[c] == ',' && s[c + 1] == ' ';
    assert forall k :: c + 2 <= k < |s| - 1 ==> s[k] == d[k - c - 2];
    assert LastCommaSpace(s) == Some(c) by {
      LastCommaSpaceIs(s, c);
    }
    assert Paths.LastIndexOf(s, ')') == Some(|s| - 1);
    assert s[c + 2..|s| - 1] == d;
  }

  lemma LastCommaSpaceIs(s: string, c: nat)
    requires c + 1 < |s| && s[c] == ',' && s[c + 1] == ' '
    requires forall k :: c < k < |s| - 1 ==> !(s[k] == ',' && s[k + 1] == ' ')
    ensures LastCommaSpace(s) == Some(c)
  {
    var r := LastCommaSpace(s);
    assert r.Some?;
  }

  lemma ParseU16OfDecimal(n: nat)
    requires n < Bytes.U16_LIMIT
    ensures ParseU16(NatToString(n)) == Some(n)
  {
    NatToStringRoundTrip(n);
  }

  /** `tag_to_number` in plain terms: every tag the crate does not know, and
      every standard tag listed, has its own number; other named tags have
      none. */
  lemma TagToNumberMeaning(t: Tag)
    requires ValidTag(t)
    ensures TagToNumber(t) ==
      if t.crateName.None? || IsStdNumbered(t) then Some(t.number) else None
  {
    if !IsStdNumbered(t) {
      match t.crateName
      case Some(name) => IdentifierHasNoParen(name);
      case None =>
        UnknownTagText(t);
        ParseU16OfDecimal(t.number);
    }
  }

  /** `format_tag_name` in plain terms. */
  lemma FormatTagNameMeaning(t: Tag)
    requires ValidTag(t)
    ensures FormatTagName(t) ==
      if IsStdNamed(t) then StdName(t.number).value
      else if t.crateName.Some? then t.crateName.value
      else FallbackName(NatToString(t.number)).GetOr("Tag " + NatToString(t.number))
  {
    if !IsStdNamed(t) {
      match t.crateName
      case Some(name) => IdentifierHasNoParen(name);
      case None => UnknownTagText(t);
    }
  }

  /** Every tag with a display name also has a number the writers can use. */
  lemma NamedTagsAreNumbered()
    ensures forall n :: StdName(n).Some? ==> IsNumbered(n)
  {
  }

  // ---------------------------------------------------------------------
  // IPTC dataset names

  /** Names of the record-2 datasets `format_iptc_tag` knows. */
  const IPTC_NAMES: map<nat, string> := map[
    5 := "Object Name", 15 := "Category", 20 := "Supplemental Categories",
    25 := "Keywords", 40 := "Special Instructions", 55 := "Date Created",
    60 := "Time Created", 62 := "Digital Creation Date", 63 := "Digital Creation Time",
    80 := "Byline", 85 := "Byline Title", 90 := "City", 92 := "Sublocation",
    95 := "Province/State", 100 := "Country/Primary Location Code",
    101 := "Country/Primary Location Name", 103 := "Original Transmission Reference",
    105 := "Headline", 110 := "Credit", 115 := "Source", 116 := "Copyright Notice",
    118 := "Contact", 120 := "Caption/Abstract", 122 := "Caption Writer/Editor"]

  /** `format_iptc_tag`. */
  function FormatIptcTag(record: nat, dataset: nat): (r: string)
    ensures record == 2 && dataset in IPTC_NAMES ==> r == IPTC_NAMES[dataset]
  {
    if record == 2 && dataset in IPTC_NAMES then IPTC_NAMES[dataset]
    else "Record " + NatToString(record) + " Dataset " + NatToString(dataset)
  }

  /** Reads "Record {r} Dataset {d}" back. */
  function ParseRecordDataset(s: string): Option<(nat, nat)> {
    if |s| >= 7 && s[..7] == "Record " then
      var rest := s[7..];
      var r := LeadingDigits(rest);
      var after := rest[|r|..];
      if |r| > 0 && |after| >= 9 && after[..9] == " Dataset " && |after| > 9 && IsDigits(after[9..])
      then Some((DigitsValue(r), DigitsValue(after[9..])))
      else None
    else None
  }

  /** The digits at the start of `s`. */
  function LeadingDigits(s: string): (r: string)
    ensures IsDigits(r) && |r| <= |s| && r == s[..|r|]
  {
    if |s| > 0 && '0' <= s[0] <= '9' then [s[0]] + LeadingDigits(s[1..]) else ""
  }

  lemma {:induction false} LeadingDigitsOf(d: string, rest: string)
    requires IsDigits(d)
    requires |rest| > 0 && !('0' <= rest[0] <= '9')
    ensures LeadingDigits(d + rest) == d
  {
    if |d| > 0 {
      assert (d + rest)[1..] == d[1..] + rest;
      LeadingDigitsOf(d[1..], rest);
    }
  }

  /** A named dataset never reads as "Record ...", and the generic form
      gives back its record and dataset numbers: the name identifies the
      dataset. */
  lemma IptcTagReadBack(record: nat, dataset: nat)
    ensures ParseRecordDataset(FormatIptcTag(record, dataset)) ==
      if record == 2 && dataset in IPTC_NAMES then None else Some((record, dataset))
  {
    if record == 2 && dataset in IPTC_NAMES {
      NamedTagNotNumeric(dataset);
    } else {
      NumericTagReadBack(record, dataset);
    }
  }

  /** The numeric form reads back as its two numbers. */
  lemma NumericTagReadBack(record: nat, dataset: nat)
    ensures ParseRecordDataset("Record " + NatToString(record) + " Dataset " + NatToString(dataset))
      == Some((record, dataset))
  {
    var r := NatToString(record);
    var d := NatToString(dataset);
    var s := "Record " + r + " Dataset " + d;
    AfterPrefix("Record ", r, " Dataset ", d);
    LeadingDigitsOf(r, " Dataset " + d);
    var after := s[7..][|r|..];
    assert after == " Dataset " + d;
    assert after[9..] == d;
    NatToStringRoundTrip(record);
    NatToStringRoundTrip(dataset);
  }

  lemma AfterPrefix(p: string, r: string, m: string, d: string)
    ensures (p + r + m + d)[..|p|] == p && (p + r + m + d)[|p|..] == r + (m + d)
  {
    assert p + r + m + d == p + (r + (m + d));
  }

  /** No dataset name starts like the numeric form. */
  lemma NamedTagNotNumeric(dataset: nat)
    requires dataset in IPTC_NAMES
    ensures ParseRecordDataset(IPTC_NAMES[dataset]) == None
  {
    assert forall k | k in IPTC_NAMES :: IPTC_NAMES[k][0] != 'R';
    var s := IPTC_NAMES[dataset];
    assert |s| < 7 || s[..7][0] != 'R';
  }

}
