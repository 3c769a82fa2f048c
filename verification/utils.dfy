/** Path input cleaning and extension checks (src/utils.rs). */
module Utils {
  import opened Wrappers
  import opened Text
  import Paths
  import FileTypes

  /** The 28 extensions `is_supported_image_format` accepts, lower case. */
  const SUPPORTED_EXTENSIONS: seq<string> := [
    "jpg", "jpeg", "tif", "tiff", "dng", "cr2", "cr3", "nef", "nrw", "arw",
    "srf", "sr2", "orf", "rw2", "raf", "srw", "pef", "x3f", "erf", "mef",
    "mrw", "dcr", "kdc", "3fr", "fff", "iiq", "k25", "rwl"]

  /** `is_supported_image_format`. */
  function IsSupportedImageFormat(path: string): (r: bool)
    ensures r ==> Paths.Extension(path).Some?
    ensures r <==> (Paths.Extension(path).Some? &&
                    ToLowerAscii(Paths.Extension(path).value) in SUPPORTED_EXTENSIONS)
  {
    match Paths.Extension(path)
    case None => false
    case Some(ext) => ToLowerAscii(ext) in SUPPORTED_EXTENSIONS
  }

  /** `get_file_type`: "jpeg", "tiff" or "dng" for those extensions and
      "raw" for any other extension, supported or not. */
  function GetFileType(path: string): (r: Option<string>)
    ensures r.None? <==> Paths.Extension(path).None?
    ensures r.Some? ==> r.value in ["jpeg", "tiff", "dng", "raw"]
  {
    match Paths.Extension(path)
    case None => None
    case Some(ext) =>
      var lower := ToLowerAscii(ext);
      if lower == "jpg" || lower == "jpeg" then Some("jpeg")
      else if lower == "tif" || lower == "tiff" then Some("tiff")
      else if lower == "dng" then Some("dng")
      else Some("raw")
  }

  /** The two extension lists agree: a path is supported exactly when
      `FileType::from_path` classifies it. */
  lemma SupportedIffClassified(path: string)
    ensures IsSupportedImageFormat(path) <==> FileTypes.FromPath(path).Some?
  {
    match Paths.Extension(path)
    case None =>
    case Some(ext) =>
      var lower := ToLowerAscii(ext);
      ExtensionListsAgree();
      DirectInList(lower);
  }

  /** The supported list is the directly handled extensions, then the raw ones. */
  lemma ExtensionListsAgree()
    ensures SUPPORTED_EXTENSIONS == DIRECT_EXTENSIONS + FileTypes.RAW_EXTENSIONS
  {
  }

  const DIRECT_EXTENSIONS: seq<string> := ["jpg", "jpeg", "tif", "tiff", "dng"]

  lemma DirectInList(ext: string)
    ensures ext in DIRECT_EXTENSIONS <==> ext == "jpg" || ext == "jpeg" || ext == "tif" || ext == "tiff" || ext == "dng"
  {
  }

  /** On supported paths the string category is the file type's name. */
  lemma FileTypeNameAgrees(path: string)
    requires IsSupportedImageFormat(path)
    ensures FileTypes.FromPath(path).Some?
    ensures GetFileType(path) == Some(FileTypes.AsStr(FileTypes.FromPath(path).value))
  {
    SupportedIffClassified(path);
  }

  /** Quote characters `clean_path` strips. */
  predicate IsQuote(c: char) {
    c == '"' || c == '\''
  }

  /** Rust's `str::replace("\\ ", " ")`: left-to-right, non-overlapping. */
  function UnescapeSpaces(s: string): (r: string)
    ensures |r| <= |s|
  {
    if |s| >= 2 && s[0] == '\\' && s[1] == ' ' then " " + UnescapeSpaces(s[2..])
    else if |s| == 0 then ""
    else [s[0]] + UnescapeSpaces(s[1..])
  }

  /** Shell-style escaping of spaces: a backslash before each space. */
  function EscapeSpaces(s: string): (r: string)
    ensures |r| >= |s|
  {
    if |s| == 0 then ""
    else if s[0] == ' ' then "\\ " + EscapeSpaces(s[1..])
    else [s[0]] + EscapeSpaces(s[1..])
  }

  /** Unescaping undoes shell-style escaping. */
  lemma {:induction false} UnescapeEscape(s: string)
    ensures UnescapeSpaces(EscapeSpaces(s)) == s
  {
    if |s| > 0 {
      UnescapeEscape(s[1..]);
      if s[0] == ' ' {
        assert ("\\ " + EscapeSpaces(s[1..]))[2..] == EscapeSpaces(s[1..]);
      } else {
        var e := [s[0]] + EscapeSpaces(s[1..]);
        assert e[1..] == EscapeSpaces(s[1..]);
        if s[0] == '\\' && |s| > 1 {
          // the next escaped character is never a space: a space becomes '\\'
          assert e[1] != ' ';
        }
      }
    }
  }

  /** A trimmed string with a quote character at both ends. The source
      slices `[1..len-1]` in that case, so a lone quote character (both
      first and last) is a slice panic; `clean_path` requires it away. */
  predicate QuotedAtBothEnds(t: string) {
    |t| > 0 && ((t[0] == '"' && t[|t| - 1] == '"') || (t[0] == '\'' && t[|t| - 1] == '\''))
  }

  /** `clean_path`: trims the input, then either drops one pair of
      surrounding quotes (no unescaping) or turns every "\\ " into a space. */
  function CleanPath(input: string): (r: string)
    requires !(|Trim(input)| == 1 && IsQuote(Trim(input)[0]))
    ensures QuotedAtBothEnds(Trim(input)) ==> |r| + 2 == |Trim(input)|
    ensures QuotedAtBothEnds(Trim(input)) ==> forall k :: 0 <= k < |r| ==> r[k] == Trim(input)[k + 1]
    ensures !QuotedAtBothEnds(Trim(input)) ==> r == UnescapeSpaces(Trim(input))
  {
    var trimmed := Trim(input);
    if QuotedAtBothEnds(trimmed) then trimmed[1..|trimmed| - 1]
    else UnescapeSpaces(trimmed)
  }

  /** A quoted path comes back unquoted and verbatim. */
  lemma CleanQuoted(q: char, p: string)
    requires IsQuote(q)
    ensures CleanPath([q] + p + [q]) == p
  {
    var s := [q] + p + [q];
    TrimOfUntrimmed(s);
  }

  /** A shell-escaped path with no surrounding whitespace or quotes comes
      back with its spaces restored. */
  lemma CleanEscaped(p: string)
    requires |p| > 0 && !IsWhitespace(p[0]) && !IsWhitespace(p[|p| - 1])
    requires !IsQuote(p[0])
    ensures CleanPath(EscapeSpaces(p)) == p
  {
    var e := EscapeSpaces(p);
    assert e[0] == p[0];
    EscapeLast(p);
    TrimOfUntrimmed(e);
    UnescapeEscape(p);
  }

  lemma {:induction false} EscapeLast(p: string)
    requires |p| > 0 && p[|p| - 1] != ' '
    ensures |EscapeSpaces(p)| > 0 && EscapeSpaces(p)[|EscapeSpaces(p)| - 1] == p[|p| - 1]
  {
    if |p| > 1 {
      EscapeLast(p[1..]);
    }
  }
}
