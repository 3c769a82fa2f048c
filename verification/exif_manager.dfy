/** Batch processing in the EXIF manager (src/exif/exif_manager.rs): which
    processor a file goes to, the per-file results and totals of a batch,
    and the rule that staggers creation dates one second apart. Everything
    that touches a file is a parameter: whether a path is a regular file,
    what a processor reports for it, a file's metadata listing, the date
    parser, the user's answer at the prompt and the date writer. Dates are
    whole seconds. */
module ExifManager {
  import opened Wrappers
  import Paths
  import Utils
  import FileTypes
  import Sorting
  import FileSelector
  import ExifReadout
  import Bytes
  import Models
  import ExifWriter
  import JpegRewrite

  // ---------------------------------------------------------------------
  // Dispatch by file type

  datatype Processor = JpegProcessor | TiffProcessor | RawProcessor

  const UNSUPPORTED := "Unsupported file type: "

  /** The processor the manager hands a path to: JPEG files to the JPEG
      processor, TIFF and DNG files to the TIFF processor, the raw formats
      to the sidecar writer. */
  function Dispatch(path: string): (r: Result<Processor, string>)
    ensures r.Err? ==> r.error == UNSUPPORTED + path
  {
    match FileTypes.FromPath(path)
    case None => Err(UNSUPPORTED + path)
    case Some(t) =>
      match t
      case Jpeg => Ok(JpegProcessor)
      case Tiff => Ok(TiffProcessor)
      case Dng => Ok(TiffProcessor)
      case Raw => Ok(RawProcessor)
  }

  /** Dispatch in terms of the extension checks the batch uses: a path is
      dispatched exactly when it is a supported image, and its category
      names the processor. */
  lemma DispatchMeaning(path: string)
    ensures Dispatch(path).Ok? <==> Utils.IsSupportedImageFormat(path)
    ensures Dispatch(path) == Ok(JpegProcessor) <==>
      Utils.IsSupportedImageFormat(path) && Utils.GetFileType(path) == Some("jpeg")
    ensures Dispatch(path) == Ok(TiffProcessor) <==>
      Utils.IsSupportedImageFormat(path) && Utils.GetFileType(path) in {Some("tiff"), Some("dng")}
    ensures Dispatch(path) == Ok(RawProcessor) <==>
      Utils.IsSupportedImageFormat(path) && Utils.GetFileType(path) == Some("raw")
  {
    Utils.SupportedIffClassified(path);
    if Utils.IsSupportedImageFormat(path) {
      Utils.FileTypeNameAgrees(path);
    }
  }

  // ---------------------------------------------------------------------
  // Batches

  datatype FileResult = FileResult(name: string, success: bool, fileType: Option<string>, error: Option<string>)

  datatype Stats = Stats(processed: nat, failed: nat, files: seq<FileResult>)

  datatype ProcessingResult = ProcessingResult(success: bool, message: string, results: Stats)

  const UNKNOWN_OPERATION := "Unknown operation"
  const COMPLETED := "Processing completed"
  const NO_SUPPORTED_FILES := "No supported image files found"
  const NO_VALID_FILES := "No valid files to process"

  /** A path the batch processes: a regular file with a supported
      extension. */
  predicate Eligible(path: string, isFile: string -> bool) {
    isFile(path) && Utils.IsSupportedImageFormat(path)
  }

  /** The eligible paths in input order. */
  function EligiblePaths(paths: seq<string>, isFile: string -> bool): (r: seq<string>)
    ensures |r| <= |paths|
    ensures forall i :: 0 <= i < |r| ==> Eligible(r[i], isFile)
  {
    if |paths| == 0 then []
    else
      var init := EligiblePaths(paths[..|paths| - 1], isFile);
      if Eligible(paths[|paths| - 1], isFile) then init + [paths[|paths| - 1]] else init
  }

  lemma {:induction false} EligiblePathsAppend(a: seq<string>, b: seq<string>, isFile: string -> bool)
    ensures EligiblePaths(a + b, isFile) == EligiblePaths(a, isFile) + EligiblePaths(b, isFile)
    decreases |b|
  {
    if |b| == 0 {
      assert a + b == a;
    } else {
      var last := b[|b| - 1];
      assert (a + b)[..|a + b| - 1] == a + b[..|b| - 1];
      EligiblePathsAppend(a, b[..|b| - 1], isFile);
    }
  }

  /** What a call into a processor ends in: `Some(None)` when it
      succeeds, `Some(Some(e))` when it returns the error `e`, and `None`
      when it panics. Nothing in the manager catches a panic. */
  type Report = Option<Option<string>>

  /** What the operation reports for one file. "apply" without a selection
      panics at `selection.unwrap()` before any processor runs; "apply" and
      "erase" otherwise report what the processor does, panics included;
      any other operation fails. */
  function RunOperation(op: string, hasSelection: bool, path: string,
                        apply: string -> Report, erase: string -> Report): (r: Report)
    ensures r.None? <==> (op == "apply" && (!hasSelection || apply(path).None?)) || (op == "erase" && erase(path).None?)
    ensures op != "apply" && op != "erase" ==> r == Some(Some(UNKNOWN_OPERATION))
  {
    if op == "apply" then (if hasSelection then apply(path) else None)
    else if op == "erase" then erase(path)
    else Some(Some(UNKNOWN_OPERATION))
  }

  /** The result line for one file: its name, its category and the error,
      successful exactly when there is no error. */
  function Record(path: string, error: Option<string>): (r: FileResult)
    ensures r.success <==> r.error.None?
    ensures r.error == error && r.fileType == Utils.GetFileType(path)
  {
    FileResult(Paths.FileName(path).GetOr(""), error.None?, Utils.GetFileType(path), error)
  }

  /** The result lines of the given files in order, `None` when the
      operation panics on one of them. */
  function Reports(paths: seq<string>, op: string, hasSelection: bool,
                   apply: string -> Report, erase: string -> Report): (r: Option<seq<FileResult>>)
    ensures r.Some? ==> |r.value| == |paths|
  {
    if |paths| == 0 then Some([])
    else
      match Reports(paths[..|paths| - 1], op, hasSelection, apply, erase)
      case None => None
      case Some(files) =>
        match RunOperation(op, hasSelection, paths[|paths| - 1], apply, erase)
        case None => None
        case Some(e) => Some(files + [Record(paths[|paths| - 1], e)])
  }

  /** The counters kept next to the result lines. */
  function Tally(files: seq<FileResult>): (s: Stats)
    ensures s.files == files
    ensures s.processed + s.failed == |files|
  {
    if |files| == 0 then Stats(0, 0, [])
    else
      var s := Tally(files[..|files| - 1]);
      var f := files[|files| - 1];
      if f.success then Stats(s.processed + 1, s.failed, s.files + [f])
      else Stats(s.processed, s.failed + 1, s.files + [f])
  }

  /** The number of successful lines, counted from the front. */
  function CountSuccesses(files: seq<FileResult>): nat {
    if |files| == 0 then 0 else (if files[0].success then 1 else 0) + CountSuccesses(files[1..])
  }

  lemma {:induction false} CountSuccessesAppend(a: seq<FileResult>, f: FileResult)
    ensures CountSuccesses(a + [f]) == CountSuccesses(a) + (if f.success then 1 else 0)
    decreases |a|
  {
    if |a| == 0 {
      assert a + [f] == [f];
      assert [f][1..] == [];
    } else {
      assert (a + [f])[1..] == a[1..] + [f];
      CountSuccessesAppend(a[1..], f);
    }
  }

  /** The processed counter is the number of successful lines. */
  lemma {:induction false} TallyCounts(files: seq<FileResult>)
    ensures Tally(files).processed == CountSuccesses(files)
    ensures Tally(files).failed == |files| - CountSuccesses(files)
  {
    if |files| > 0 {
      var init := files[..|files| - 1];
      TallyCounts(init);
      CountSuccessesAppend(init, files[|files| - 1]);
      assert init + [files[|files| - 1]] == files;
    }
  }

  function Finish(stats: Stats, emptyMessage: string): ProcessingResult {
    if stats.processed > 0 || stats.failed > 0 then ProcessingResult(true, COMPLETED, stats)
    else ProcessingResult(false, emptyMessage, stats)
  }

  /** One batch over the given paths: the eligible files are processed in
      order, one result line each, and the batch succeeds exactly when it
      recorded a file. `None` when the operation panics. */
  function Batch(paths: seq<string>, isFile: string -> bool, op: string, hasSelection: bool,
                 apply: string -> Report, erase: string -> Report,
                 emptyMessage: string): (r: Option<ProcessingResult>)
    ensures r.Some? ==> r.value.results.processed + r.value.results.failed == |r.value.results.files|
    ensures r.Some? ==> |r.value.results.files| == |EligiblePaths(paths, isFile)|
    ensures r.Some? ==> (r.value.success <==> |r.value.results.files| > 0)
    ensures r.Some? ==> r.value.message == if r.value.success then COMPLETED else emptyMessage
  {
    match Reports(EligiblePaths(paths, isFile), op, hasSelection, apply, erase)
    case None => None
    case Some(files) => Some(Finish(Tally(files), emptyMessage))
  }

  /** `process_files_internal`: the loop over the selected files. */
  method ProcessFilesInternal(paths: seq<string>, isFile: string -> bool, op: string, hasSelection: bool,
                              apply: string -> Report, erase: string -> Report)
    returns (r: Option<ProcessingResult>)
    ensures r == Batch(paths, isFile, op, hasSelection, apply, erase, NO_VALID_FILES)
  {
    var completed, processed, failed, files := RecordFiles(paths, isFile, op, hasSelection, apply, erase);
    if !completed {
      return None;
    }
    if processed > 0 || failed > 0 {
      r := Some(ProcessingResult(true, COMPLETED, Stats(processed, failed, files)));
    } else {
      r := Some(ProcessingResult(false, NO_VALID_FILES, Stats(processed, failed, files)));
    }
  }

  /** The loop of `process_files_internal`: each eligible file in turn is
      processed, counted and given its result line. `completed` is false
      when the operation panicked. */
  method RecordFiles(paths: seq<string>, isFile: string -> bool, op: string, hasSelection: bool,
                     apply: string -> Report, erase: string -> Report)
    returns (completed: bool, processed: nat, failed: nat, files: seq<FileResult>)
    ensures completed <==> Reports(EligiblePaths(paths, isFile), op, hasSelection, apply, erase).Some?
    ensures completed ==> Reports(EligiblePaths(paths, isFile), op, hasSelection, apply, erase) == Some(files)
    ensures completed ==> Tally(files) == Stats(processed, failed, files)
  {
    processed, failed, files := 0, 0, [];
    var i := 0;
    while i < |paths|
      invariant 0 <= i <= |paths|
      invariant Reports(EligiblePaths(paths[..i], isFile), op, hasSelection, apply, erase) == Some(files)
      invariant Tally(files) == Stats(processed, failed, files)
    {
      var ok;
      ok, processed, failed, files := RecordOne(paths, i, isFile, op, hasSelection, apply, erase, processed, failed, files);
      if !ok {
        return false, processed, failed, files;
      }
      i := i + 1;
    }
    assert paths[..i] == paths;
    completed := true;
  }

  /** One turn of the loop: the file at `i` is skipped, or processed and
      recorded; `ok` is false when the operation panicked on it. */
  method RecordOne(paths: seq<string>, i: nat, isFile: string -> bool, op: string, hasSelection: bool,
                   apply: string -> Report, erase: string -> Report,
                   processed: nat, failed: nat, files: seq<FileResult>)
    returns (ok: bool, processed': nat, failed': nat, files': seq<FileResult>)
    requires i < |paths|
    requires Reports(EligiblePaths(paths[..i], isFile), op, hasSelection, apply, erase) == Some(files)
    requires Tally(files) == Stats(processed, failed, files)
    ensures ok ==> Reports(EligiblePaths(paths[..i + 1], isFile), op, hasSelection, apply, erase) == Some(files')
    ensures ok ==> Tally(files') == Stats(processed', failed', files')
    ensures !ok ==> Reports(EligiblePaths(paths, isFile), op, hasSelection, apply, erase).None?
  {
    ok, processed', failed', files' := true, processed, failed, files;
    if !Eligible(paths[i], isFile) {
      SkipCase(paths, i, isFile);
    } else {
      var report := RunOperation(op, hasSelection, paths[i], apply, erase);
      if report.None? {
        PanicCase(paths, i, isFile, op, hasSelection, apply, erase);
        return false, processed, failed, files;
      }
      var line := Record(paths[i], report.value);
      RecordCase(paths, i, isFile, op, hasSelection, apply, erase, files);
      TallyStep(files, line);
      if report.value.None? {
        processed' := processed + 1;
      } else {
        failed' := failed + 1;
      }
      files' := files + [line];
    }
  }

  lemma SkipCase(paths: seq<string>, i: nat, isFile: string -> bool)
    requires i < |paths| && !Eligible(paths[i], isFile)
    ensures EligiblePaths(paths[..i + 1], isFile) == EligiblePaths(paths[..i], isFile)
  {
    EligibleStep(paths, i, isFile);
    assert EligiblePaths(paths[..i], isFile) + [] == EligiblePaths(paths[..i], isFile);
  }

  lemma RecordCase(paths: seq<string>, i: nat, isFile: string -> bool, op: string, hasSelection: bool,
                   apply: string -> Report, erase: string -> Report, files: seq<FileResult>)
    requires i < |paths| && Eligible(paths[i], isFile)
    requires Reports(EligiblePaths(paths[..i], isFile), op, hasSelection, apply, erase) == Some(files)
    requires RunOperation(op, hasSelection, paths[i], apply, erase).Some?
    ensures Reports(EligiblePaths(paths[..i + 1], isFile), op, hasSelection, apply, erase)
      == Some(files + [Record(paths[i], RunOperation(op, hasSelection, paths[i], apply, erase).value)])
  {
    EligibleStep(paths, i, isFile);
    ReportsStep(EligiblePaths(paths[..i], isFile), paths[i], op, hasSelection, apply, erase);
  }

  lemma PanicCase(paths: seq<string>, i: nat, isFile: string -> bool, op: string, hasSelection: bool,
                  apply: string -> Report, erase: string -> Report)
    requires i < |paths| && Eligible(paths[i], isFile)
    requires RunOperation(op, hasSelection, paths[i], apply, erase).None?
    ensures Reports(EligiblePaths(paths, isFile), op, hasSelection, apply, erase).None?
  {
    EligibleStep(paths, i, isFile);
    ReportsStep(EligiblePaths(paths[..i], isFile), paths[i], op, hasSelection, apply, erase);
    PanicStops(paths, i + 1, isFile, op, hasSelection, apply, erase);
  }

  lemma EligibleStep(paths: seq<string>, i: nat, isFile: string -> bool)
    requires i < |paths|
    ensures EligiblePaths(paths[..i + 1], isFile) ==
      EligiblePaths(paths[..i], isFile) + (if Eligible(paths[i], isFile) then [paths[i]] else [])
  {
    assert paths[..i + 1][..i] == paths[..i];
  }

  lemma ReportsStep(ps: seq<string>, p: string, op: string, hasSelection: bool,
                    apply: string -> Report, erase: string -> Report)
    ensures Reports(ps + [p], op, hasSelection, apply, erase) ==
      match Reports(ps, op, hasSelection, apply, erase)
      case None => None
      case Some(files) =>
        match RunOperation(op, hasSelection, p, apply, erase)
        case None => None
        case Some(e) => Some(files + [Record(p, e)])
  {
    assert (ps + [p])[..|ps|] == ps;
  }

  lemma TallyStep(files: seq<FileResult>, f: FileResult)
    ensures Tally(files + [f]) ==
      if f.success then Stats(Tally(files).processed + 1, Tally(files).failed, files + [f])
      else Stats(Tally(files).processed, Tally(files).failed + 1, files + [f])
  {
    assert (files + [f])[..|files|] == files;
  }

  lemma PanicStops(paths: seq<string>, i: nat, isFile: string -> bool, op: string, hasSelection: bool,
                   apply: string -> Report, erase: string -> Report)
    requires i <= |paths|
    requires Reports(EligiblePaths(paths[..i], isFile), op, hasSelection, apply, erase).None?
    ensures Reports(EligiblePaths(paths, isFile), op, hasSelection, apply, erase).None?
  {
    var a, b := paths[..i], paths[i..];
    assert a + b == paths;
    EligiblePathsAppend(a, b, isFile);
    var ea, eb := EligiblePaths(a, isFile), EligiblePaths(b, isFile);
    assert EligiblePaths(paths, isFile) == ea + eb;
    ReportsStop(ea, eb, op, hasSelection, apply, erase);
  }

  /** Once the operation panics on a file, the batch panics whatever
      follows. */
  lemma {:induction false} ReportsStop(a: seq<string>, b: seq<string>, op: string, hasSelection: bool,
                                       apply: string -> Report, erase: string -> Report)
    requires Reports(a, op, hasSelection, apply, erase).None?
    ensures Reports(a + b, op, hasSelection, apply, erase).None?
    decreases |b|
  {
    if |b| == 0 {
      assert a + b == a;
    } else {
      assert (a + b)[..|a + b| - 1] == a + b[..|b| - 1];
      ReportsStop(a, b[..|b| - 1], op, hasSelection, apply, erase);
    }
  }

  /** The result lines follow the eligible files one to one and in order:
      the k-th line is the k-th eligible file's name, category and
      report. */
  lemma {:induction false} ReportsInOrder(paths: seq<string>, op: string, hasSelection: bool,
                                          apply: string -> Report, erase: string -> Report)
    ensures Reports(paths, op, hasSelection, apply, erase).Some? <==>
      forall k :: 0 <= k < |paths| ==> RunOperation(op, hasSelection, paths[k], apply, erase).Some?
    ensures Reports(paths, op, hasSelection, apply, erase).Some? ==>
      forall k :: 0 <= k < |paths| ==>
        Reports(paths, op, hasSelection, apply, erase).value[k] == ReportOf(paths[k], op, hasSelection, apply, erase)
    decreases |paths|
  {
    if |paths| > 0 {
      var n := |paths| - 1;
      var init := paths[..n];
      ReportsInOrder(init, op, hasSelection, apply, erase);
      assert init + [paths[n]] == paths;
      ReportsStep(init, paths[n], op, hasSelection, apply, erase);
      var r := Reports(paths, op, hasSelection, apply, erase);
      if r.Some? {
        var ri := Reports(init, op, hasSelection, apply, erase);
        assert r.value == ri.value + [ReportOf(paths[n], op, hasSelection, apply, erase)];
        forall k | 0 <= k < |paths|
          ensures r.value[k] == ReportOf(paths[k], op, hasSelection, apply, erase)
        {
          if k < n {
            assert r.value[k] == ri.value[k];
            assert init[k] == paths[k];
          }
        }
      }
      if forall k :: 0 <= k < |paths| ==> RunOperation(op, hasSelection, paths[k], apply, erase).Some? {
        assert forall k :: 0 <= k < |init| ==> init[k] == paths[k];
      }
      if r.Some? {
        forall k | 0 <= k < |paths|
          ensures RunOperation(op, hasSelection, paths[k], apply, erase).Some?
        {
          if k < n {
            assert init[k] == paths[k];
          }
        }
      }
    }
  }

  /** The line for one file whose operation did not panic. */
  function ReportOf(path: string, op: string, hasSelection: bool,
                    apply: string -> Report, erase: string -> Report): FileResult {
    Record(path, RunOperation(op, hasSelection, path, apply, erase).GetOr(None))
  }

  /** A batch panics exactly when the operation panics on one of the
      eligible files: on every one for "apply" without a selection, and
      otherwise where the processor itself panics. */
  lemma BatchPanics(paths: seq<string>, isFile: string -> bool, op: string, hasSelection: bool,
                    apply: string -> Report, erase: string -> Report, emptyMessage: string)
    ensures var elig := EligiblePaths(paths, isFile);
      Batch(paths, isFile, op, hasSelection, apply, erase, emptyMessage).None? <==>
      exists k :: 0 <= k < |elig| &&
        ((op == "apply" && (!hasSelection || apply(elig[k]).None?)) || (op == "erase" && erase(elig[k]).None?))
    ensures op == "apply" && !hasSelection ==>
      (Batch(paths, isFile, op, hasSelection, apply, erase, emptyMessage).None? <==> |EligiblePaths(paths, isFile)| > 0)
  {
    var elig := EligiblePaths(paths, isFile);
    BatchNone(paths, isFile, op, hasSelection, apply, erase, emptyMessage);
    PanicsOver(elig, op, hasSelection, apply, erase,
               Batch(paths, isFile, op, hasSelection, apply, erase, emptyMessage).None?);
  }

  /** The same, for any flag that says whether the lines are missing. */
  lemma PanicsOver(elig: seq<string>, op: string, hasSelection: bool,
                   apply: string -> Report, erase: string -> Report, missing: bool)
    requires missing <==> Reports(elig, op, hasSelection, apply, erase).None?
    ensures missing <==> (exists k :: 0 <= k < |elig| &&
                                      ((op == "apply" && (!hasSelection || apply(elig[k]).None?)) || (op == "erase" && erase(elig[k]).None?)))
    ensures op == "apply" && !hasSelection ==> (missing <==> |elig| > 0)
  {
    ReportsPanic(elig, op, hasSelection, apply, erase);
    if op == "apply" && !hasSelection && |elig| > 0 {
      assert 0 <= 0 < |elig| && op == "apply" && !hasSelection;
    }
  }

  /** A batch panics exactly when its result lines are missing. */
  lemma BatchNone(paths: seq<string>, isFile: string -> bool, op: string, hasSelection: bool,
                  apply: string -> Report, erase: string -> Report, emptyMessage: string)
    ensures Batch(paths, isFile, op, hasSelection, apply, erase, emptyMessage).None? <==>
      Reports(EligiblePaths(paths, isFile), op, hasSelection, apply, erase).None?
  {
  }

  /** The result lines are missing exactly when the operation panics on
      one of the files, stated through the processors themselves. */
  lemma ReportsPanic(ps: seq<string>, op: string, hasSelection: bool,
                     apply: string -> Report, erase: string -> Report)
    ensures Reports(ps, op, hasSelection, apply, erase).None? <==>
      exists k :: 0 <= k < |ps| &&
        ((op == "apply" && (!hasSelection || apply(ps[k]).None?)) || (op == "erase" && erase(ps[k]).None?))
  {
    ReportsInOrder(ps, op, hasSelection, apply, erase);
    forall k | 0 <= k < |ps|
      ensures RunOperation(op, hasSelection, ps[k], apply, erase).None? <==>
        ((op == "apply" && (!hasSelection || apply(ps[k]).None?)) || (op == "erase" && erase(ps[k]).None?))
    {
    }
  }

  /** The report of a JPEG processor call. */
  function JpegReport(o: JpegRewrite.Outcome): (r: Report)
    ensures r.None? <==> o.Panicked?
    ensures r == Some(None) <==> o.Written?
  {
    match o
    case Written(_) => Some(None)
    case Failed(e) => Some(Some(e))
    case Panicked => None
  }

  /** A JPEG whose file ends inside its first APP1 marker makes "apply"
      panic, and with it the whole batch, whatever the other files are. */
  lemma TruncatedJpegStopsBatch(paths: seq<string>, isFile: string -> bool, k: nat,
                                apply: string -> Report, erase: string -> Report,
                                sel: Models.Selection, shotIso: Option<nat>, existing: seq<ExifWriter.Field>,
                                focalMilli: Option<nat>, emptyMessage: string)
    requires ExifWriter.FocalReading(focalMilli)
    requires k < |paths| && Eligible(paths[k], isFile)
    requires apply(paths[k]) ==
      JpegReport(JpegRewrite.ApplyExifWithIsoAsWritten([0xFF, 0xD8, 0xFF, 0xE1], sel, shotIso, existing, focalMilli))
    ensures Batch(paths, isFile, "apply", true, apply, erase, emptyMessage).None?
  {
    var d: seq<Bytes.byte> := [0xFF, 0xD8, 0xFF, 0xE1];
    assert d[..2] == JpegRewrite.SOI;
    assert d[2..] == [0xFF, 0xE1];
    assert JpegRewrite.SkipRunAsWritten(d[2..]).None?;
    assert apply(paths[k]).None?;
    PanicCase(paths, k, isFile, "apply", true, apply, erase);
  }

  /** A JPEG that ends in an APP1 marker makes "erase" panic, and with it
      the whole batch, whatever the other files are. */
  lemma TailMarkerStopsErase(paths: seq<string>, isFile: string -> bool, k: nat, hasSelection: bool,
                             apply: string -> Report, erase: string -> Report, emptyMessage: string)
    requires k < |paths| && Eligible(paths[k], isFile)
    requires erase(paths[k]) == JpegReport(JpegRewrite.EraseExifAsWritten([0xFF, 0xD8, 0x00, 0xFF, 0xE1]))
    ensures Batch(paths, isFile, "erase", hasSelection, apply, erase, emptyMessage).None?
  {
    JpegRewrite.EraseTailPanics();
    assert erase(paths[k]).None?;
    PanicCase(paths, k, isFile, "erase", hasSelection, apply, erase);
  }

  /** An unknown operation fails every eligible file with "Unknown
      operation" and processes none. */
  lemma UnknownOperationFails(paths: seq<string>, isFile: string -> bool, op: string, hasSelection: bool,
                              apply: string -> Report, erase: string -> Report, emptyMessage: string)
    requires op != "apply" && op != "erase"
    ensures var r := Batch(paths, isFile, op, hasSelection, apply, erase, emptyMessage);
      r.Some? && r.value.results.processed == 0
      && r.value.results.failed == |EligiblePaths(paths, isFile)|
      && forall k :: 0 <= k < |r.value.results.files| ==>
           !r.value.results.files[k].success && r.value.results.files[k].error == Some(UNKNOWN_OPERATION)
  {
    var elig := EligiblePaths(paths, isFile);
    UnknownLines(elig, op, hasSelection, apply, erase);
    var files := Reports(elig, op, hasSelection, apply, erase).value;
    TallyCounts(files);
    NoSuccesses(files);
    assert Batch(paths, isFile, op, hasSelection, apply, erase, emptyMessage) == Some(Finish(Tally(files), emptyMessage));
  }

  /** Under an unknown operation every line is a failure with "Unknown
      operation". */
  lemma UnknownLines(ps: seq<string>, op: string, hasSelection: bool,
                     apply: string -> Report, erase: string -> Report)
    requires op != "apply" && op != "erase"
    ensures Reports(ps, op, hasSelection, apply, erase).Some?
    ensures var files := Reports(ps, op, hasSelection, apply, erase).value;
      forall k :: 0 <= k < |files| ==> !files[k].success && files[k].error == Some(UNKNOWN_OPERATION)
  {
    UnknownRun(op, hasSelection, apply, erase);
    ReportsInOrder(ps, op, hasSelection, apply, erase);
    var files := Reports(ps, op, hasSelection, apply, erase).value;
    forall k | 0 <= k < |files|
      ensures !files[k].success && files[k].error == Some(UNKNOWN_OPERATION)
    {
      assert files[k] == ReportOf(ps[k], op, hasSelection, apply, erase);
    }
  }

  lemma UnknownRun(op: string, hasSelection: bool, apply: string -> Report, erase: string -> Report)
    requires op != "apply" && op != "erase"
    ensures forall p :: RunOperation(op, hasSelection, p, apply, erase) == Some(Some(UNKNOWN_OPERATION))
  {
  }

  lemma {:induction false} NoSuccesses(files: seq<FileResult>)
    requires forall k :: 0 <= k < |files| ==> !files[k].success
    ensures CountSuccesses(files) == 0
  {
    if |files| > 0 {
      NoSuccesses(files[1..]);
    }
  }

  /** The counters of a batch: processed counts the successful lines. */
  lemma BatchCounts(paths: seq<string>, isFile: string -> bool, op: string, hasSelection: bool,
                    apply: string -> Report, erase: string -> Report, emptyMessage: string)
    ensures var r := Batch(paths, isFile, op, hasSelection, apply, erase, emptyMessage);
      r.Some? ==> r.value.results.processed == CountSuccesses(r.value.results.files)
  {
    var elig := EligiblePaths(paths, isFile);
    match Reports(elig, op, hasSelection, apply, erase)
    case None =>
    case Some(files) => TallyCounts(files);
  }

  /** The folder walk's entries: a path, or `None` for an entry the walk
      could not read (reported and skipped). */
  function WalkPaths(walk: seq<Option<string>>): (r: seq<string>)
    ensures |r| <= |walk|
    ensures forall p :: p in r <==> Some(p) in walk
  {
    if |walk| == 0 then []
    else (if walk[0].Some? then [walk[0].value] else []) + WalkPaths(walk[1..])
  }

  /** `process_folder_with_iso`: the same batch over every path the walk
      yields, with its own message when nothing was found. */
  function ProcessFolder(walk: seq<Option<string>>, isFile: string -> bool, op: string, hasSelection: bool,
                         apply: string -> Report, erase: string -> Report): (r: Option<ProcessingResult>)
    ensures r.Some? ==> (r.value.success <==> |EligiblePaths(WalkPaths(walk), isFile)| > 0)
    ensures r.Some? && !r.value.success ==> r.value.message == NO_SUPPORTED_FILES
  {
    Batch(WalkPaths(walk), isFile, op, hasSelection, apply, erase, NO_SUPPORTED_FILES)
  }

  // ---------------------------------------------------------------------
  // Creation dates

  const NO_DATE := "No valid creation date found in EXIF data"
  const DATE_TIME_ORIGINAL := "Date/Time Original"
  const DATE_TIME := "Date/Time"
  const DATE_TIME_DIGITIZED := "Date/Time Digitized"

  predicate IsDateName(name: string) {
    name == DATE_TIME_ORIGINAL || name == DATE_TIME || name == DATE_TIME_DIGITIZED
  }

  /** A listing row holding a date the parser reads. */
  predicate DatedRow(row: ExifReadout.Row, parse: string -> Option<int>) {
    IsDateName(row.name) && parse(row.value).Some?
  }

  /** `get_creation_date` as written: the first row of the listing, in
      listing order, that names one of the three date tags and parses. */
  function CreationDateAsWritten(rows: seq<ExifReadout.Row>, parse: string -> Option<int>): (r: Result<int, string>)
    ensures r.Err? ==> r.error == NO_DATE
    ensures r.Ok? <==> exists i :: 0 <= i < |rows| && DatedRow(rows[i], parse)
  {
    if |rows| == 0 then Err(NO_DATE)
    else if DatedRow(rows[0], parse) then Ok(parse(rows[0].value).value)
    else
      var r := CreationDateAsWritten(rows[1..], parse);
      assert forall i :: 1 <= i < |rows| ==> rows[i] == rows[1..][i - 1];
      r
  }

  /** The first parseable row with the given name. */
  function FirstDate(rows: seq<ExifReadout.Row>, name: string, parse: string -> Option<int>): (r: Option<int>)
    ensures r.Some? <==> exists i :: 0 <= i < |rows| && rows[i].name == name && parse(rows[i].value).Some?
  {
    if |rows| == 0 then None
    else if rows[0].name == name && parse(rows[0].value).Some? then parse(rows[0].value)
    else
      var r := FirstDate(rows[1..], name, parse);
      assert forall i :: 1 <= i < |rows| ==> rows[i] == rows[1..][i - 1];
      r
  }

  /** The creation date in the order the tags are meant to be tried: the
      original date, then the file date, then the digitized date. */
  function CreationDate(rows: seq<ExifReadout.Row>, parse: string -> Option<int>): (r: Result<int, string>)
    ensures r.Err? ==> r.error == NO_DATE
  {
    match FirstDate(rows, DATE_TIME_ORIGINAL, parse)
    case Some(d) => Ok(d)
    case None =>
      match FirstDate(rows, DATE_TIME, parse)
      case Some(d) => Ok(d)
      case None =>
        match FirstDate(rows, DATE_TIME_DIGITIZED, parse)
        case Some(d) => Ok(d)
        case None => Err(NO_DATE)
  }

  /** Row `i` is the first of the listing with this name whose value
      parses. */
  predicate FirstNamedAt(rows: seq<ExifReadout.Row>, name: string, parse: string -> Option<int>, i: int) {
    0 <= i < |rows| && rows[i].name == name && parse(rows[i].value).Some?
    && forall j :: 0 <= j < i ==> !(rows[j].name == name && parse(rows[j].value).Some?)
  }

  /** A row of this name parses somewhere in the listing. */
  predicate HasDate(rows: seq<ExifReadout.Row>, name: string, parse: string -> Option<int>) {
    exists i :: 0 <= i < |rows| && rows[i].name == name && parse(rows[i].value).Some?
  }

  /** Row `i` is the first dated row of the listing. */
  predicate FirstDatedAt(rows: seq<ExifReadout.Row>, parse: string -> Option<int>, i: int) {
    0 <= i < |rows| && DatedRow(rows[i], parse) && forall j :: 0 <= j < i ==> !DatedRow(rows[j], parse)
  }

  /** As written, the date is the first dated row's, in listing order,
      whichever of the three names it has. */
  lemma {:induction false} CreationDateAsWrittenFirst(rows: seq<ExifReadout.Row>, parse: string -> Option<int>, i: int)
    requires FirstDatedAt(rows, parse, i)
    ensures CreationDateAsWritten(rows, parse) == Ok(parse(rows[i].value).value)
  {
    if i > 0 {
      assert !DatedRow(rows[0], parse);
      assert FirstDatedAt(rows[1..], parse, i - 1) by {
        forall j | 0 <= j < i - 1
          ensures !DatedRow(rows[1..][j], parse)
        {
          assert rows[1..][j] == rows[j + 1];
        }
      }
      CreationDateAsWrittenFirst(rows[1..], parse, i - 1);
    }
  }

  /** `FirstDate` is the value of the first parseable row of its name. */
  lemma {:induction false} FirstDateAt(rows: seq<ExifReadout.Row>, name: string, parse: string -> Option<int>, i: int)
    requires FirstNamedAt(rows, name, parse, i)
    ensures FirstDate(rows, name, parse) == parse(rows[i].value)
  {
    if i > 0 {
      assert !(rows[0].name == name && parse(rows[0].value).Some?);
      assert FirstNamedAt(rows[1..], name, parse, i - 1) by {
        forall j | 0 <= j < i - 1
          ensures !(rows[1..][j].name == name && parse(rows[1..][j].value).Some?)
        {
          assert rows[1..][j] == rows[j + 1];
        }
      }
      FirstDateAt(rows[1..], name, parse, i - 1);
    }
  }

  /** The intended order on every listing: the first parseable original
      date when there is one; failing that the first parseable file date;
      failing that the first parseable digitized date; failing all three,
      no date. */
  lemma CreationDateOrder(rows: seq<ExifReadout.Row>, parse: string -> Option<int>)
    ensures forall i :: FirstNamedAt(rows, DATE_TIME_ORIGINAL, parse, i) ==>
      CreationDate(rows, parse) == Ok(parse(rows[i].value).value)
    ensures !HasDate(rows, DATE_TIME_ORIGINAL, parse) ==>
      forall i :: FirstNamedAt(rows, DATE_TIME, parse, i) ==> CreationDate(rows, parse) == Ok(parse(rows[i].value).value)
    ensures !HasDate(rows, DATE_TIME_ORIGINAL, parse) && !HasDate(rows, DATE_TIME, parse) ==>
      forall i :: FirstNamedAt(rows, DATE_TIME_DIGITIZED, parse, i) ==> CreationDate(rows, parse) == Ok(parse(rows[i].value).value)
    ensures !HasDate(rows, DATE_TIME_ORIGINAL, parse) && !HasDate(rows, DATE_TIME, parse)
      && !HasDate(rows, DATE_TIME_DIGITIZED, parse)
      ==> CreationDate(rows, parse) == Err(NO_DATE)
  {
    forall i | FirstNamedAt(rows, DATE_TIME_ORIGINAL, parse, i)
      ensures CreationDate(rows, parse) == Ok(parse(rows[i].value).value)
    {
      FirstDateAt(rows, DATE_TIME_ORIGINAL, parse, i);
    }
    forall i | !HasDate(rows, DATE_TIME_ORIGINAL, parse) && FirstNamedAt(rows, DATE_TIME, parse, i)
      ensures CreationDate(rows, parse) == Ok(parse(rows[i].value).value)
    {
      FirstDateAt(rows, DATE_TIME, parse, i);
    }
    forall i | !HasDate(rows, DATE_TIME_ORIGINAL, parse) && !HasDate(rows, DATE_TIME, parse)
               && FirstNamedAt(rows, DATE_TIME_DIGITIZED, parse, i)
      ensures CreationDate(rows, parse) == Ok(parse(rows[i].value).value)
    {
      FirstDateAt(rows, DATE_TIME_DIGITIZED, parse, i);
    }
  }

  /** Both find a date on the same listings; they differ only in which. */
  lemma CreationDateFound(rows: seq<ExifReadout.Row>, parse: string -> Option<int>)
    ensures CreationDate(rows, parse).Ok? <==> CreationDateAsWritten(rows, parse).Ok?
    ensures CreationDate(rows, parse).Ok? ==>
      exists i :: 0 <= i < |rows| && DatedRow(rows[i], parse) && CreationDate(rows, parse).value == parse(rows[i].value).value
  {
    FirstDateIsRow(rows, DATE_TIME_ORIGINAL, parse);
    FirstDateIsRow(rows, DATE_TIME, parse);
    FirstDateIsRow(rows, DATE_TIME_DIGITIZED, parse);
  }

  lemma {:induction false} FirstDateIsRow(rows: seq<ExifReadout.Row>, name: string, parse: string -> Option<int>)
    ensures FirstDate(rows, name, parse).Some? ==>
      exists i :: 0 <= i < |rows| && rows[i].name == name && parse(rows[i].value) == FirstDate(rows, name, parse)
  {
    if |rows| > 0 && !(rows[0].name == name && parse(rows[0].value).Some?) {
      FirstDateIsRow(rows[1..], name, parse);
      if FirstDate(rows, name, parse).Some? {
        var i :| 0 <= i < |rows[1..]| && rows[1..][i].name == name && parse(rows[1..][i].value) == FirstDate(rows, name, parse);
        assert rows[i + 1] == rows[1..][i];
      }
    }
  }

  /** The listing is sorted by name, so "Date/Time" comes before
      "Date/Time Original": where a file carries both, the code takes the
      file date although the original date is meant to come first. */
  lemma FileDateWins(parse: string -> Option<int>, fileDate: string, original: string)
    requires parse(fileDate).Some? && parse(original).Some?
    ensures var rows := [ExifReadout.Row(DATE_TIME, fileDate), ExifReadout.Row(DATE_TIME_ORIGINAL, original)];
      Sorting.SortedBy(rows, ExifReadout.RowName)
      && CreationDateAsWritten(rows, parse) == Ok(parse(fileDate).value)
      && CreationDate(rows, parse) == Ok(parse(original).value)
  {
    var rows := [ExifReadout.Row(DATE_TIME, fileDate), ExifReadout.Row(DATE_TIME_ORIGINAL, original)];
    TwoRowsSorted(rows);
    assert DatedRow(rows[0], parse);
    assert CreationDateAsWritten(rows, parse) == Ok(parse(fileDate).value);
    OriginalFound(rows, parse);
  }

  lemma TwoRowsSorted(rows: seq<ExifReadout.Row>)
    requires |rows| == 2 && rows[0].name == DATE_TIME && rows[1].name == DATE_TIME_ORIGINAL
    ensures Sorting.SortedBy(rows, ExifReadout.RowName)
  {
    FileDateFirst();
    TwoSorted(rows, DATE_TIME, DATE_TIME_ORIGINAL);
  }

  lemma TwoSorted(rows: seq<ExifReadout.Row>, a: string, b: string)
    requires |rows| == 2 && rows[0].name == a && rows[1].name == b && Sorting.LexLe(a, b)
    ensures Sorting.SortedBy(rows, ExifReadout.RowName)
  {
  }

  lemma FileDateFirst()
    ensures Sorting.LexLe(DATE_TIME, DATE_TIME_ORIGINAL)
  {
    assert DATE_TIME_ORIGINAL[..|DATE_TIME|] == DATE_TIME;
    PrefixLexLe(DATE_TIME, DATE_TIME_ORIGINAL);
  }

  lemma OriginalFound(rows: seq<ExifReadout.Row>, parse: string -> Option<int>)
    requires |rows| == 2 && rows[0].name == DATE_TIME && rows[1].name == DATE_TIME_ORIGINAL
    requires parse(rows[1].value).Some?
    ensures CreationDate(rows, parse) == Ok(parse(rows[1].value).value)
  {
    assert |rows[0].name| != |DATE_TIME_ORIGINAL|;
    var tail := rows[1..];
    assert tail[0] == rows[1];
    assert FirstDate(tail, DATE_TIME_ORIGINAL, parse) == parse(rows[1].value);
    assert FirstDate(rows, DATE_TIME_ORIGINAL, parse) == parse(rows[1].value);
  }

  lemma {:induction false} PrefixLexLe(a: string, b: string)
    requires |a| <= |b| && b[..|a|] == a
    ensures Sorting.LexLe(a, b)
  {
    if |a| > 0 {
      assert b[1..][..|a| - 1] == a[1..];
      PrefixLexLe(a[1..], b[1..]);
    }
  }

  /** What reading one file's date ends in: `Some(Ok(d))`, `Some(Err(e))`
      when `get_creation_date` returns an error, `None` when it panics. */
  type DateRead = Option<Result<int, string>>

  /** `get_creation_date`: the file's listing, then the first date row of
      it in listing order. `None` when reading the listing panics. */
  function DateOf(path: string, listing: string -> Option<Result<seq<ExifReadout.Row>, string>>,
                  parse: string -> Option<int>): (r: DateRead)
    ensures r.None? <==> listing(path).None?
    ensures listing(path).Some? && listing(path).value.Err? ==> r == Some(Err(listing(path).value.error))
    ensures listing(path).Some? && listing(path).value.Ok? ==>
      forall i :: FirstDatedAt(listing(path).value.value, parse, i) ==>
        r == Some(Ok(parse(listing(path).value.value[i].value).value))
  {
    match listing(path)
    case None => None
    case Some(Err(e)) => Some(Err(e))
    case Some(Ok(rows)) =>
      forall i | FirstDatedAt(rows, parse, i)
        ensures CreationDateAsWritten(rows, parse) == Ok(parse(rows[i].value).value)
      {
        CreationDateAsWrittenFirst(rows, parse, i);
      }
      Some(CreationDateAsWritten(rows, parse))
  }

  /** The date reader the manager passes around. */
  function DatesFrom(listing: string -> Option<Result<seq<ExifReadout.Row>, string>>,
                     parse: string -> Option<int>): string -> DateRead {
    p => DateOf(p, listing, parse)
  }

  /** A date that was read. */
  predicate Dated(d: DateRead) {
    d.Some? && d.value.Ok?
  }

  /** Every file has a readable date. */
  predicate AllDated(files: seq<string>, dateOf: string -> DateRead) {
    forall i :: 0 <= i < |files| ==> Dated(dateOf(files[i]))
  }

  /** Every date lies within one second of the first file's. */
  predicate WithinOneSecond(files: seq<string>, dateOf: string -> DateRead)
    requires AllDated(files, dateOf)
  {
    forall i :: 0 <= i < |files| ==> -1 <= dateOf(files[i]).value.value - dateOf(files[0]).value.value <= 1
  }

  /** The files count as sharing one creation date: more than one file,
      every date readable, all within one second of the first. */
  predicate IdenticalDates(files: seq<string>, dateOf: string -> DateRead) {
    |files| > 1 && AllDated(files, dateOf) && WithinOneSecond(files, dateOf)
  }

  /** Reading the date of file `i` panics, and the check reaches it: every
      earlier date was read. */
  predicate PanicsAt(files: seq<string>, dateOf: string -> DateRead, i: int) {
    0 <= i < |files| && dateOf(files[i]).None? && forall k :: 0 <= k < i ==> Dated(dateOf(files[k]))
  }

  /** What `check_identical_dates` returns: false for one file or none,
      a panic when it reaches a date read that panics, and otherwise
      whether the dates are identical. */
  function IdenticalDatesCheck(files: seq<string>, dateOf: string -> DateRead): Option<bool> {
    if |files| <= 1 then Some(false)
    else if exists i :: 0 <= i < |files| && PanicsAt(files, dateOf, i) then None
    else Some(IdenticalDates(files, dateOf))
  }

  /** `check_identical_dates`: collects the dates, giving up at the first
      file without one, then compares each with the first. `None` where a
      date read panics. */
  method CheckIdenticalDates(files: seq<string>, dateOf: string -> DateRead) returns (same: Option<bool>)
    ensures same == IdenticalDatesCheck(files, dateOf)
  {
    if |files| <= 1 {
      return Some(false);
    }
    var dates: seq<int> := [];
    var i := 0;
    while i < |files|
      invariant 0 <= i <= |files| && |dates| == i
      invariant forall k :: 0 <= k < i ==> Dated(dateOf(files[k])) && dates[k] == dateOf(files[k]).value.value
    {
      match dateOf(files[i])
      case None =>
        assert PanicsAt(files, dateOf, i);
        return None;
      case Some(Err(_)) =>
        NoPanicPast(files, dateOf, i);
        assert !AllDated(files, dateOf);
        return Some(false);
      case Some(Ok(d)) =>
        dates := dates + [d];
      i := i + 1;
    }
    forall j | 0 <= j < |files|
      ensures !PanicsAt(files, dateOf, j)
    {
    }
    var first := dates[0];
    var within := true;
    var j := 0;
    while j < |dates|
      invariant 0 <= j <= |dates|
      invariant within <==> forall k :: 0 <= k < j ==> -1 <= dates[k] - first <= 1
    {
      if !(-1 <= dates[j] - first <= 1) {
        within := false;
      }
      j := j + 1;
    }
    same := Some(within);
  }

  /** A date that is read as an error stops the check before any later
      file is read. */
  lemma NoPanicPast(files: seq<string>, dateOf: string -> DateRead, i: nat)
    requires i < |files| && dateOf(files[i]).Some? && dateOf(files[i]).value.Err?
    requires forall k :: 0 <= k < i ==> Dated(dateOf(files[k]))
    ensures !exists j :: 0 <= j < |files| && PanicsAt(files, dateOf, j)
  {
    forall j | 0 <= j < |files|
      ensures !PanicsAt(files, dateOf, j)
    {
      if j > i {
        assert !Dated(dateOf(files[i]));
      }
    }
  }

  /** With every date readable the check never panics, and it answers
      whether they are identical. */
  lemma CheckWhenAllDated(files: seq<string>, dateOf: string -> DateRead)
    ensures AllDated(files, dateOf) ==> IdenticalDatesCheck(files, dateOf) == Some(IdenticalDates(files, dateOf))
  {
    if AllDated(files, dateOf) {
      forall j | 0 <= j < |files|
        ensures !PanicsAt(files, dateOf, j)
      {
      }
    }
  }

  /** One date write: the file and its new date. */
  datatype DateWrite = DateWrite(path: string, date: int)

  /** The given files, the first at `date`, each following one a second
      later. */
  function Staggered(rest: seq<string>, date: int): (ws: seq<DateWrite>)
    ensures |ws| == |rest|
    decreases |rest|
  {
    if |rest| == 0 then [] else [DateWrite(rest[0], date)] + Staggered(rest[1..], date + 1)
  }

  lemma {:induction false} StaggeredAt(rest: seq<string>, date: int)
    ensures forall k :: 0 <= k < |rest| ==> Staggered(rest, date)[k] == DateWrite(rest[k], date + k)
    decreases |rest|
  {
    if |rest| > 0 {
      StaggeredAt(rest[1..], date + 1);
      forall k | 1 <= k < |rest|
        ensures Staggered(rest, date)[k] == DateWrite(rest[k], date + k)
      {
        assert Staggered(rest, date)[k] == Staggered(rest[1..], date + 1)[k - 1];
      }
    }
  }

  /** The files ordered by file name, equal names keeping their order. */
  function NameOrder(files: seq<string>): (sorted: seq<string>)
    ensures |sorted| == |files| && multiset(sorted) == multiset(files)
    ensures Sorting.SortedBy(sorted, FileSelector.NameKey)
  {
    Sorting.SortBySorted(files, FileSelector.NameKey);
    Sorting.SortBy(files, FileSelector.NameKey)
  }

  /** The writes `adjust_creation_dates` makes: the files in name order,
      the first keeping its date and every later one set to that date plus
      its position in seconds. Fails with the first file's date error;
      `None` when reading that date panics. */
  function AdjustPlan(files: seq<string>, dateOf: string -> DateRead): (r: Option<Result<seq<DateWrite>, string>>)
    ensures files == [] ==> r == Some(Ok([]))
    ensures files != [] && r.Some? && r.value.Ok? ==> |r.value.value| == |files| - 1
  {
    if |files| == 0 then Some(Ok([]))
    else
      var sorted := NameOrder(files);
      match dateOf(sorted[0])
      case None => None
      case Some(Err(e)) => Some(Err(e))
      case Some(Ok(base)) => Some(Ok(Staggered(sorted[1..], base + 1)))
  }

  function PlanPaths(plan: seq<DateWrite>): (ps: seq<string>)
    ensures |ps| == |plan| && forall k :: 0 <= k < |plan| ==> ps[k] == plan[k].path
  {
    if |plan| == 0 then [] else [plan[0].path] + PlanPaths(plan[1..])
  }

  /** The plan in plain terms: only the first file's date in name order is
      read; every other file is written once, in name order, the k-th at
      that date plus k seconds, so the new dates strictly increase and all
      differ from the kept one. */
  lemma AdjustPlanMeaning(files: seq<string>, dateOf: string -> DateRead)
    requires |files| > 0
    ensures Sorting.SortedBy(NameOrder(files), FileSelector.NameKey)
    ensures AdjustPlan(files, dateOf).None? <==> dateOf(NameOrder(files)[0]).None?
    ensures AdjustPlan(files, dateOf).Some? && AdjustPlan(files, dateOf).value.Ok? <==> Dated(dateOf(NameOrder(files)[0]))
    ensures Dated(dateOf(NameOrder(files)[0])) ==>
      StaggeredFrom(AdjustPlan(files, dateOf).value.value, NameOrder(files), dateOf(NameOrder(files)[0]).value.value)
  {
    var sorted := NameOrder(files);
    if Dated(dateOf(sorted[0])) {
      var base := dateOf(sorted[0]).value.value;
      StaggeredPlan(sorted, base);
    }
  }

  /** `plan` writes every file of `sorted` but the first, in order, the
      k-th at `base` plus k seconds; the files written and the one kept are
      `sorted` again, and the new dates strictly increase above `base`. */
  predicate StaggeredFrom(plan: seq<DateWrite>, sorted: seq<string>, base: int) {
    |sorted| > 0 && |plan| == |sorted| - 1
    && (forall k :: 1 <= k < |sorted| ==> plan[k - 1] == DateWrite(sorted[k], base + k))
    && multiset(PlanPaths(plan)) + multiset{sorted[0]} == multiset(sorted)
    && (forall i, j :: 0 <= i < j < |plan| ==> base < plan[i].date < plan[j].date)
  }

  lemma StaggeredPlan(sorted: seq<string>, base: int)
    requires |sorted| > 0
    ensures StaggeredFrom(Staggered(sorted[1..], base + 1), sorted, base)
  {
    var plan := Staggered(sorted[1..], base + 1);
    StaggeredAt(sorted[1..], base + 1);
    assert PlanPaths(plan) == sorted[1..];
    assert sorted == [sorted[0]] + sorted[1..];
  }

  /** What the adjustment did: the writes made, in order, and the error
      that stopped it, if any. */
  datatype Adjustment = Adjustment(written: seq<DateWrite>, error: Option<string>)

  /** The write of `plan[k]` panics, every earlier write having succeeded. */
  predicate WritePanicsAt(plan: seq<DateWrite>, setDate: DateWrite -> Report, k: int) {
    0 <= k < |plan| && setDate(plan[k]).None? && forall j :: 0 <= j < k ==> setDate(plan[j]) == Some(None)
  }

  /** Makes the writes in order and stops at the first that fails; `None`
      when a write panics before any fails. */
  function PerformWrites(plan: seq<DateWrite>, setDate: DateWrite -> Report): (r: Option<Adjustment>)
    ensures r.None? <==> exists k :: 0 <= k < |plan| && WritePanicsAt(plan, setDate, k)
    ensures r.Some? ==> |r.value.written| <= |plan| && r.value.written == plan[..|r.value.written|]
    ensures r.Some? ==> forall k :: 0 <= k < |r.value.written| ==> setDate(plan[k]) == Some(None)
    ensures r.Some? && r.value.error.None? ==> r.value.written == plan
    ensures r.Some? && r.value.error.Some? ==>
      |r.value.written| < |plan| && setDate(plan[|r.value.written|]) == Some(r.value.error)
  {
    if |plan| == 0 then Some(Adjustment([], None))
    else
      match setDate(plan[0])
      case None =>
        assert WritePanicsAt(plan, setDate, 0);
        None
      case Some(Some(e)) =>
        NoWritePanicPast(plan, setDate, 0);
        Some(Adjustment([], Some(e)))
      case Some(None) =>
        var r := PerformWrites(plan[1..], setDate);
        WritesStep(plan, setDate);
        match r
        case None => None
        case Some(a) =>
          assert forall k :: 1 <= k <= |a.written| ==> plan[k] == plan[1..][k - 1];
          Some(Adjustment([plan[0]] + a.written, a.error))
  }

  lemma NoWritePanicPast(plan: seq<DateWrite>, setDate: DateWrite -> Report, i: nat)
    requires i < |plan| && setDate(plan[i]).Some? && setDate(plan[i]).value.Some?
    ensures forall k :: 0 <= k < |plan| ==> !(WritePanicsAt(plan, setDate, k) && k >= i)
  {
    forall k | 0 <= k < |plan| && k > i
      ensures !WritePanicsAt(plan, setDate, k)
    {
      assert setDate(plan[i]) != Some(None);
    }
  }

  /** After a successful first write, a write panics in the plan exactly
      when one panics in the rest of it. */
  lemma WritesStep(plan: seq<DateWrite>, setDate: DateWrite -> Report)
    requires |plan| > 0 && setDate(plan[0]) == Some(None)
    ensures (exists k :: 0 <= k < |plan| && WritePanicsAt(plan, setDate, k)) <==>
      (exists k :: 0 <= k < |plan[1..]| && WritePanicsAt(plan[1..], setDate, k))
  {
    var rest := plan[1..];
    if exists k :: 0 <= k < |plan| && WritePanicsAt(plan, setDate, k) {
      var k :| 0 <= k < |plan| && WritePanicsAt(plan, setDate, k);
      assert k > 0;
      forall j | 0 <= j < k - 1
        ensures setDate(rest[j]) == Some(None)
      {
        assert rest[j] == plan[j + 1];
      }
      assert WritePanicsAt(rest, setDate, k - 1);
    }
    if exists k :: 0 <= k < |rest| && WritePanicsAt(rest, setDate, k) {
      var k :| 0 <= k < |rest| && WritePanicsAt(rest, setDate, k);
      forall j | 0 <= j < k + 1
        ensures setDate(plan[j]) == Some(None)
      {
        if j > 0 {
          assert plan[j] == rest[j - 1];
        }
      }
      assert WritePanicsAt(plan, setDate, k + 1);
    }
  }

  /** `adjust_creation_dates`: the plan, then the writes. `None` when
      reading the first date or one of the writes panics. */
  function AdjustCreationDates(files: seq<string>, dateOf: string -> DateRead,
                               setDate: DateWrite -> Report): (a: Option<Adjustment>)
    ensures AdjustPlan(files, dateOf).None? ==> a.None?
    ensures AdjustPlan(files, dateOf).Some? && AdjustPlan(files, dateOf).value.Err? ==>
      a == Some(Adjustment([], Some(AdjustPlan(files, dateOf).value.error)))
    ensures AdjustPlan(files, dateOf).Some? && AdjustPlan(files, dateOf).value.Ok? ==>
      var plan := AdjustPlan(files, dateOf).value.value;
      (a.None? <==> exists k :: 0 <= k < |plan| && WritePanicsAt(plan, setDate, k))
      && (a.Some? ==> |a.value.written| <= |plan| && a.value.written == plan[..|a.value.written|]
                      && (a.value.error.None? <==> a.value.written == plan))
  {
    match AdjustPlan(files, dateOf)
    case None => None
    case Some(Err(e)) => Some(Adjustment([], Some(e)))
    case Some(Ok(plan)) =>
      var a := PerformWrites(plan, setDate);
      assert a.Some? && a.value.error.Some? ==> |a.value.written| < |plan|;
      a
  }

  /** Whether `process_selected_files` (`oneSec == None`) or
      `process_selected_files_with_one_sec` (`Some(flag)`) looks at the
      creation dates at all. */
  predicate DateAdjustmentRuns(op: string, count: nat, oneSec: Option<bool>) {
    op == "apply" && count > 1 && oneSec != Some(false)
  }

  /** The date step before a batch: `Some(None)` when no date is touched,
      `Some(Some(a))` for an adjustment, `None` when it panics. The dates
      are adjusted when they are identical, and otherwise only when the
      user agrees at the prompt; an error here is only warned about. */
  function DateStep(files: seq<string>, op: string, oneSec: Option<bool>, agree: bool,
                    dateOf: string -> DateRead, setDate: DateWrite -> Report): (r: Option<Option<Adjustment>>)
    ensures !DateAdjustmentRuns(op, |files|, oneSec) ==> r == Some(None)
    ensures r.Some? && r.value.Some? ==>
      DateAdjustmentRuns(op, |files|, oneSec) && AdjustCreationDates(files, dateOf, setDate) == r.value
    ensures DateAdjustmentRuns(op, |files|, oneSec) && IdenticalDates(files, dateOf)
      && AdjustCreationDates(files, dateOf, setDate).Some?
      ==> r == Some(AdjustCreationDates(files, dateOf, setDate))
    ensures !IdenticalDates(files, dateOf) && !agree ==> r.None? || r == Some(None)
    ensures r.None? ==> (DateAdjustmentRuns(op, |files|, oneSec) &&
      ((exists i :: 0 <= i < |files| && PanicsAt(files, dateOf, i)) || AdjustCreationDates(files, dateOf, setDate).None?))
  {
    if !DateAdjustmentRuns(op, |files|, oneSec) then Some(None)
    else
      CheckWhenAllDated(files, dateOf);
      match IdenticalDatesCheck(files, dateOf)
      case None => None
      case Some(same) =>
        if same || agree then
          match AdjustCreationDates(files, dateOf, setDate)
          case None => None
          case Some(a) => Some(Some(a))
        else Some(None)
  }

  /** `process_selected_files(_with_one_sec)`: the date step over the
      files' listings, then the batch. A panic in either ends the call;
      otherwise the batch's result is what it would be without the date
      step. */
  function ProcessSelectedFiles(files: seq<string>, isFile: string -> bool, op: string, hasSelection: bool,
                                oneSec: Option<bool>, agree: bool,
                                listing: string -> Option<Result<seq<ExifReadout.Row>, string>>,
                                parse: string -> Option<int>, setDate: DateWrite -> Report,
                                apply: string -> Report, erase: string -> Report)
    : (r: Option<(Option<Adjustment>, ProcessingResult)>)
    ensures r.None? <==> DateStep(files, op, oneSec, agree, DatesFrom(listing, parse), setDate).None?
                         || Batch(files, isFile, op, hasSelection, apply, erase, NO_VALID_FILES).None?
    ensures r.Some? ==> Batch(files, isFile, op, hasSelection, apply, erase, NO_VALID_FILES) == Some(r.value.1)
    ensures r.Some? && r.value.0.Some? ==> op == "apply" && |files| > 1 && oneSec != Some(false)
  {
    match DateStep(files, op, oneSec, agree, DatesFrom(listing, parse), setDate)
    case None => None
    case Some(adjustment) =>
      match Batch(files, isFile, op, hasSelection, apply, erase, NO_VALID_FILES)
      case None => None
      case Some(result) => Some((adjustment, result))
  }

  /** A listing that panics for the first file stops a multi-file "apply"
      before any file is processed, whatever the batch would do. */
  lemma ListingPanicStopsAll(files: seq<string>, isFile: string -> bool, hasSelection: bool,
                             oneSec: Option<bool>, agree: bool,
                             listing: string -> Option<Result<seq<ExifReadout.Row>, string>>,
                             parse: string -> Option<int>, setDate: DateWrite -> Report,
                             apply: string -> Report, erase: string -> Report)
    requires |files| > 1 && oneSec != Some(false) && listing(files[0]).None?
    ensures ProcessSelectedFiles(files, isFile, "apply", hasSelection, oneSec, agree, listing, parse,
                                 setDate, apply, erase).None?
  {
    var dateOf := DatesFrom(listing, parse);
    assert dateOf(files[0]).None?;
    assert PanicsAt(files, dateOf, 0);
  }

  /** When the dates are identical and the write of the second file in
      name order (at the first file's date plus one second) panics, the
      whole call panics before any file is processed. */
  lemma DateWritePanicStopsAll(files: seq<string>, isFile: string -> bool, hasSelection: bool,
                               oneSec: Option<bool>, agree: bool,
                               listing: string -> Option<Result<seq<ExifReadout.Row>, string>>,
                               parse: string -> Option<int>, setDate: DateWrite -> Report,
                               apply: string -> Report, erase: string -> Report)
    requires |files| > 1 && oneSec != Some(false)
    requires IdenticalDates(files, DatesFrom(listing, parse))
    requires var dateOf := DatesFrom(listing, parse);
      var sorted := NameOrder(files);
      Dated(dateOf(sorted[0])) && setDate(DateWrite(sorted[1], dateOf(sorted[0]).value.value + 1)).None?
    ensures ProcessSelectedFiles(files, isFile, "apply", hasSelection, oneSec, agree, listing, parse,
                                 setDate, apply, erase).None?
  {
    var dateOf := DatesFrom(listing, parse);
    var sorted := NameOrder(files);
    CheckWhenAllDated(files, dateOf);
    AdjustPlanMeaning(files, dateOf);
    var plan := AdjustPlan(files, dateOf).value.value;
    assert plan[0] == DateWrite(sorted[1], dateOf(sorted[0]).value.value + 1);
    assert WritePanicsAt(plan, setDate, 0);
  }
}
