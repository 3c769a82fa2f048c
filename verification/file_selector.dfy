/** Directory scanning and display formatting of the interactive file
    picker (src/file_selector.rs). The directory walk itself is I/O: it is
    given as the sequence of entries `WalkDir` would yield. */
module FileSelector {
  import opened Wrappers
  import Paths
  import Utils
  import Sorting

  /** One item of the walk: an entry at `depth` below the root (the root
      itself is depth 0), or an error the walk reports. */
  datatype WalkEntry = Entry(path: string, isFile: bool, depth: nat) | WalkError

  /** Whether the walk keeps an entry: `max_depth(1)` unless recursive. */
  predicate WithinDepth(e: WalkEntry, recursive: bool) {
    e.Entry? && (recursive || e.depth <= 1)
  }

  /** The entries `scan_directory` keeps, in walk order. */
  predicate Keeps(e: WalkEntry, recursive: bool) {
    WithinDepth(e, recursive) && e.isFile && Utils.IsSupportedImageFormat(e.path)
  }

  /** The paths of the kept entries in walk order; errors are skipped. */
  function KeptPaths(walk: seq<WalkEntry>, recursive: bool): (r: seq<string>)
    ensures |r| <= |walk|
    ensures forall i :: 0 <= i < |r| ==> Utils.IsSupportedImageFormat(r[i])
  {
    if |walk| == 0 then []
    else (if Keeps(walk[0], recursive) then [walk[0].path] else []) + KeptPaths(walk[1..], recursive)
  }

  lemma {:induction false} KeptPathsMembers(walk: seq<WalkEntry>, recursive: bool, p: string)
    ensures p in KeptPaths(walk, recursive) <==>
      exists i :: 0 <= i < |walk| && Keeps(walk[i], recursive) && walk[i].path == p
  {
    if |walk| > 0 {
      KeptPathsMembers(walk[1..], recursive, p);
      if p in KeptPaths(walk[1..], recursive) {
        var i :| 0 <= i < |walk[1..]| && Keeps(walk[1..][i], recursive) && walk[1..][i].path == p;
        assert walk[i + 1] == walk[1..][i];
      }
      if exists i :: 0 <= i < |walk| && Keeps(walk[i], recursive) && walk[i].path == p {
        var i :| 0 <= i < |walk| && Keeps(walk[i], recursive) && walk[i].path == p;
        if i > 0 {
          assert walk[1..][i - 1] == walk[i];
        }
      }
    }
  }

  /** The sort key: the file name, or "" when there is none. */
  function NameKey(p: string): string {
    Paths.FileName(p).GetOr("")
  }

  /** `scan_directory`: the supported files of the walk, sorted by name. */
  function ScanDirectory(walk: seq<WalkEntry>, recursive: bool): (files: seq<string>)
    ensures multiset(files) == multiset(KeptPaths(walk, recursive))
  {
    Sorting.SortBy(KeptPaths(walk, recursive), NameKey)
  }

  /** The scan lists exactly the supported files the walk reaches within the
      depth limit, each as often as the walk yields it, ordered by name. */
  lemma ScanDirectoryContents(walk: seq<WalkEntry>, recursive: bool, p: string)
    ensures Sorting.SortedBy(ScanDirectory(walk, recursive), NameKey)
    ensures p in ScanDirectory(walk, recursive) <==>
      exists i :: 0 <= i < |walk| && walk[i].Entry? && walk[i].path == p && walk[i].isFile
        && (recursive || walk[i].depth <= 1) && Utils.IsSupportedImageFormat(p)
  {
    Sorting.SortBySorted(KeptPaths(walk, recursive), NameKey);
    KeptPathsMembers(walk, recursive, p);
    assert p in ScanDirectory(walk, recursive) <==> p in multiset(KeptPaths(walk, recursive));
  }

  /** `format_file_for_display`: the text of the path after `base` when
      `base` is a component-wise prefix, otherwise the bare file name. The
      text is the path's own, not re-rendered: a doubled separator or a
      "." inside it is shown as written. */
  function FormatFileForDisplay(file: string, base: string): (r: string)
    ensures Paths.StripPrefix(Paths.Components(file), Paths.Components(base)).None? ==>
      r == NameKey(file)
  {
    match Paths.StripPrefix(Paths.Components(file), Paths.Components(base))
    case Some(_) => Paths.StripPrefixText(file, |Paths.Components(base)|)
    case None => NameKey(file)
  }

  /** What is shown for a file below a non-empty `base` reads back as the
      file's components after those of `base`. */
  lemma DisplayComponents(file: string, base: string)
    requires |Paths.Components(base)| > 0
    requires Paths.StripPrefix(Paths.Components(file), Paths.Components(base)).Some?
    ensures Paths.Components(FormatFileForDisplay(file, base)) ==
      Paths.StripPrefix(Paths.Components(file), Paths.Components(base)).value
  {
    Paths.StripPrefixTextComponents(file, |Paths.Components(base)|);
  }

  /** A file below a non-empty `base` is shown as the text after the base
      and its separator, inner doubled separators and "." pieces included,
      when that text neither starts nor ends with an empty or "." piece. */
  lemma DisplayRelative(base: string, pieces: seq<string>)
    requires |base| > 0 && |pieces| > 0 && Paths.NoSlashes(pieces)
    requires !Paths.Skipped(pieces[0]) && !Paths.Skipped(pieces[|pieces| - 1])
    ensures FormatFileForDisplay(base + "/" + Paths.Join(pieces), base) == Paths.Join(pieces)
  {
    var file := base + "/" + Paths.Join(pieces);
    Paths.JoinAfter(base, pieces);
    var cb := Paths.Components(base);
    assert Paths.Components(file)[..|cb|] == cb;
    Paths.TextAfterBase(file, base, pieces);
  }

  /** A file directly inside `base` is shown by its name alone. */
  lemma DisplayChild(base: string, n: string)
    requires |base| > 0 && Paths.IsPlainName(n)
    ensures FormatFileForDisplay(base + "/" + n, base) == n
  {
    assert Paths.Join([n]) == n;
    DisplayRelative(base, [n]);
  }

  /** A file one directory below `base` is shown as "dir/name". */
  lemma DisplayGrandchild(base: string, d: string, n: string)
    requires |base| > 0 && Paths.IsPlainName(d) && Paths.IsPlainName(n)
    ensures FormatFileForDisplay(base + "/" + d + "/" + n, base) == d + "/" + n
  {
    assert Paths.Join([d, n]) == d + "/" + n by {
      assert [d, n][1..] == [n];
    }
    assert base + "/" + d + "/" + n == base + "/" + (d + "/" + n);
    DisplayRelative(base, [d, n]);
  }

  /** A doubled separator after the base is shown as it is written. */
  lemma DisplayKeepsDoubledSeparator()
    ensures FormatFileForDisplay("photos/a//b.jpg", "photos") == "a//b.jpg"
  {
    var pieces := ["a", "", "b.jpg"];
    assert Paths.Join(pieces) == "a//b.jpg" by {
      assert pieces[1..] == ["", "b.jpg"];
      assert pieces[1..][1..] == ["b.jpg"];
    }
    assert "photos/a//b.jpg" == "photos" + "/" + "a//b.jpg";
    DisplayRelative("photos", pieces);
  }
}
