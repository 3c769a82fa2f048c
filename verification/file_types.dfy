/** File-type classification by extension (src/exif/file_types.rs). */
module FileTypes {
  import opened Wrappers
  import Text
  import Paths

  datatype FileType = Jpeg | Tiff | Dng | Raw

  /** The 23 camera raw extensions, in lower case. */
  const RAW_EXTENSIONS: seq<string> := [
    "cr2", "cr3", "nef", "nrw", "arw", "srf", "sr2", "orf", "rw2", "raf", "srw",
    "pef", "x3f", "erf", "mef", "mrw", "dcr", "kdc", "3fr", "fff", "iiq",
    "k25", "rwl"]

  /** Classification of an already lower-cased extension. */
  function FromLowerExtension(ext: string): (r: Option<FileType>)
    ensures r == Some(Jpeg) <==> ext == "jpg" || ext == "jpeg"
    ensures r == Some(Tiff) <==> ext == "tif" || ext == "tiff"
    ensures r == Some(Dng) <==> ext == "dng"
    ensures r == Some(Raw) <==> ext in RAW_EXTENSIONS
  {
    if ext == "jpg" || ext == "jpeg" then Some(Jpeg)
    else if ext == "tif" || ext == "tiff" then Some(Tiff)
    else if ext == "dng" then Some(Dng)
    else if ext in RAW_EXTENSIONS then Some(Raw)
    else None
  }

  /** `FileType::from_path`: the case-insensitive extension decides; a path
      without an extension, or with an unlisted one, has no file type. */
  function FromPath(path: string): (r: Option<FileType>)
    ensures Paths.Extension(path).None? ==> r.None?
    ensures Paths.Extension(path).Some? ==>
      r == FromLowerExtension(Text.ToLowerAscii(Paths.Extension(path).value))
  {
    match Paths.Extension(path)
    case None => None
    case Some(ext) => FromLowerExtension(Text.ToLowerAscii(ext))
  }

  predicate SupportsDirectExif(t: FileType) {
    t == Jpeg || t == Tiff
  }

  predicate SupportsDngProcessing(t: FileType) {
    t == Dng
  }

  predicate RequiresSidecar(t: FileType) {
    t == Raw
  }

  /** Every file type has exactly one of the three handling capabilities. */
  lemma ExactlyOneCapability(t: FileType)
    ensures SupportsDirectExif(t) || SupportsDngProcessing(t) || RequiresSidecar(t)
    ensures !(SupportsDirectExif(t) && SupportsDngProcessing(t))
    ensures !(SupportsDirectExif(t) && RequiresSidecar(t))
    ensures !(SupportsDngProcessing(t) && RequiresSidecar(t))
  {
  }

  /** `FileType::as_str`. */
  function AsStr(t: FileType): (s: string)
    ensures s in ["jpeg", "tiff", "dng", "raw"]
  {
    match t
    case Jpeg => "jpeg"
    case Tiff => "tiff"
    case Dng => "dng"
    case Raw => "raw"
  }

  lemma AsStrInjective(a: FileType, b: FileType)
    requires AsStr(a) == AsStr(b)
    ensures a == b
  {
  }
}
