/** The parts of Rust's `std::path::Path` the core relies on, over
    '/'-separated paths: `components`, `file_name`, `extension` and
    `strip_prefix`. */
module Paths {
  import opened Wrappers

  datatype Component = RootDir | CurDir | ParentDir | Normal(name: string)

  /** The '/'-separated pieces of `s`, empty pieces included. */
  function Split(s: string): (pieces: seq<string>)
    ensures |pieces| > 0
    ensures forall i, k :: 0 <= i < |pieces| && 0 <= k < |pieces[i]| ==> pieces[i][k] != '/'
  {
    if |s| == 0 then [""]
    else
      var rest := Split(s[1..]);
      if s[0] == '/' then [""] + rest else [[s[0]] + rest[0]] + rest[1..]
  }

  /** Components of the pieces after the first one: empty pieces and "."
      vanish, ".." is `ParentDir`. */
  function InnerComponents(pieces: seq<string>): (cs: seq<Component>)
    ensures forall i :: 0 <= i < |cs| ==> cs[i] != RootDir && cs[i] != CurDir
    ensures forall i :: 0 <= i < |cs| && cs[i].Normal? ==>
      cs[i].name != "" && cs[i].name != "." && cs[i].name != ".."
  {
    if |pieces| == 0 then []
    else
      var p := pieces[0];
      (if Skipped(p) then [] else if p == ".." then [ParentDir] else [Normal(p)])
        + InnerComponents(pieces[1..])
  }

  /** A piece the walk passes over without yielding a component. */
  predicate Skipped(piece: string) {
    piece == "" || piece == "."
  }

  /** No piece contains the separator. */
  predicate NoSlashes(pieces: seq<string>) {
    forall i, k :: 0 <= i < |pieces| && 0 <= k < |pieces[i]| ==> pieces[i][k] != '/'
  }

  /** `Path::components`: a leading '/' is `RootDir`; a leading "." of a
      relative path is `CurDir`; repeated separators and inner "." vanish. */
  function Components(p: string): (cs: seq<Component>)
    ensures forall i :: 0 < i < |cs| ==> cs[i] != RootDir && cs[i] != CurDir
    ensures forall i :: 0 <= i < |cs| && cs[i].Normal? ==>
      cs[i].name != "" && cs[i].name != "." && cs[i].name != ".."
  {
    var pieces := Split(p);
    if |p| > 0 && p[0] == '/' then [RootDir] + InnerComponents(pieces[1..])
    else if pieces[0] == "." then [CurDir] + InnerComponents(pieces[1..])
    else InnerComponents(pieces)
  }

  /** `Path::file_name`: the last component when it is a normal one. */
  function FileName(p: string): (r: Option<string>)
    ensures r.Some? ==> r.value != "" && r.value != "." && r.value != ".."
  {
    var cs := Components(p);
    if |cs| > 0 && cs[|cs| - 1].Normal? then Some(cs[|cs| - 1].name) else None
  }

  /** Index of the last occurrence of `c` in `s`. */
  function LastIndexOf(s: string, c: char): (r: Option<nat>)
    ensures r.Some? ==> r.value < |s| && s[r.value] == c
    ensures r.Some? ==> forall k :: r.value < k < |s| ==> s[k] != c
    ensures r.None? ==> forall k :: 0 <= k < |s| ==> s[k] != c
  {
    if |s| == 0 then None
    else if s[|s| - 1] == c then Some(|s| - 1)
    else LastIndexOf(s[..|s| - 1], c)
  }

  /** `Path::extension`: what follows the last '.' of the file name, unless
      that '.' is the name's first character or there is none. */
  function Extension(p: string): (r: Option<string>)
    ensures r.Some? ==> FileName(p).Some? && forall k :: 0 <= k < |r.value| ==> r.value[k] != '.'
  {
    match FileName(p)
    case None => None
    case Some(name) =>
      match LastIndexOf(name, '.')
      case None => None
      case Some(j) => if j == 0 then None else Some(name[j + 1..])
  }

  /** `Path::strip_prefix` on component lists: the components of `path`
      after `base`, when `base` is a component-wise prefix of `path`. */
  function StripPrefix(path: seq<Component>, base: seq<Component>): (r: Option<seq<Component>>)
    ensures r.Some? <==> |base| <= |path| && path[..|base|] == base
    ensures r.Some? ==> path == base + r.value
  {
    if |base| <= |path| && path[..|base|] == base then Some(path[|base|..]) else None
  }

  /** A name that is a single normal component. */
  predicate IsPlainName(n: string) {
    n != "" && n != "." && n != ".." && forall k :: 0 <= k < |n| ==> n[k] != '/'
  }

  lemma {:induction false} SplitJoin(a: string, b: string)
    ensures Split(a + "/" + b) == Split(a) + Split(b)
  {
    if |a| > 0 {
      assert (a + "/" + b)[1..] == a[1..] + "/" + b;
      SplitJoin(a[1..], b);
    } else {
      assert (a + "/" + b)[1..] == b;
    }
  }

  lemma {:induction false} SplitPlain(n: string)
    requires forall k :: 0 <= k < |n| ==> n[k] != '/'
    ensures Split(n) == [n]
  {
    if |n| > 0 {
      SplitPlain(n[1..]);
      assert [n[0]] + n[1..] == n;
    }
  }

  lemma {:induction false} InnerComponentsAppend(p: seq<string>, q: seq<string>)
    ensures InnerComponents(p + q) == InnerComponents(p) + InnerComponents(q)
  {
    if |p| > 0 {
      assert (p + q)[1..] == p[1..] + q;
      InnerComponentsAppend(p[1..], q);
    } else {
      assert p + q == q;
    }
  }

  /** Joining a plain name onto a non-empty path adds one normal component. */
  lemma ComponentsJoin(base: string, n: string)
    requires |base| > 0 && IsPlainName(n)
    ensures Components(base + "/" + n) == Components(base) + [Normal(n)]
  {
    var p := base + "/" + n;
    SplitJoin(base, n);
    SplitPlain(n);
    assert p[0] == base[0];
    var pieces := Split(base);
    assert Split(p) == pieces + [n];
    InnerPlain(n);
    assert Split(p)[0] == pieces[0];
    if p[0] == '/' || pieces[0] == "." {
      var head := if p[0] == '/' then RootDir else CurDir;
      assert (pieces + [n])[1..] == pieces[1..] + [n];
      InnerComponentsAppend(pieces[1..], [n]);
      assert Components(base) == [head] + InnerComponents(pieces[1..]);
      assert Components(p) == [head] + (InnerComponents(pieces[1..]) + [Normal(n)]);
    } else {
      InnerComponentsAppend(pieces, [n]);
      assert Components(p) == InnerComponents(pieces) + [Normal(n)];
    }
  }

  lemma InnerPlain(n: string)
    requires IsPlainName(n)
    ensures InnerComponents([n]) == [Normal(n)]
  {
    assert [n][1..] == [];
  }


  // ---------------------------------------------------------------------
  // The raw text `strip_prefix` leaves

  /** The pieces joined with '/', the inverse of `Split`. */
  function Join(pieces: seq<string>): string {
    if |pieces| == 0 then ""
    else if |pieces| == 1 then pieces[0]
    else pieces[0] + "/" + Join(pieces[1..])
  }

  predicate Rooted(p: string) {
    |p| > 0 && p[0] == '/'
  }

  /** The text before the walk's body, given whether the path is rooted
      and its pieces: the root "/", a leading "." of a relative path, or
      nothing. */
  function HeadOf(rooted: bool, pieces: seq<string>): (h: string)
    requires |pieces| > 0
    ensures |h| <= 1
  {
    if rooted then "/" else if pieces[0] == "." then "." else ""
  }

  /** The pieces the body walk starts from once the head is taken: taking
      the root or the "." consumes that one character only. */
  function BodyOf(rooted: bool, pieces: seq<string>): seq<string>
    requires |pieces| > 0
  {
    if rooted then pieces[1..]
    else if pieces[0] == "." then [""] + pieces[1..]
    else pieces
  }

  function Head(p: string): (h: string)
    ensures |h| <= 1
  {
    HeadOf(Rooted(p), Split(p))
  }

  function BodyPieces(p: string): seq<string> {
    BodyOf(Rooted(p), Split(p))
  }

  /** The component a head stands for. */
  function HeadComponents(h: string): seq<Component> {
    if h == "/" then [RootDir] else if h == "." then [CurDir] else []
  }

  /** The body walk past `k` components: the skipped pieces on the way are
      consumed too, those after the k-th component are left. */
  function Consume(pieces: seq<string>, k: nat): (r: seq<string>)
    ensures |r| <= |pieces| && r == pieces[|pieces| - |r|..]
    decreases |pieces|
  {
    if k == 0 || |pieces| == 0 then pieces
    else if Skipped(pieces[0]) then Consume(pieces[1..], k)
    else Consume(pieces[1..], k - 1)
  }

  /** `Components::trim_left`: leading skipped pieces dropped. */
  function TrimLeft(pieces: seq<string>): (r: seq<string>)
    ensures |r| <= |pieces| && r == pieces[|pieces| - |r|..]
    ensures |r| > 0 ==> !Skipped(r[0])
  {
    if |pieces| > 0 && Skipped(pieces[0]) then TrimLeft(pieces[1..]) else pieces
  }

  /** `Components::trim_right`: trailing skipped pieces dropped. */
  function TrimRight(pieces: seq<string>): (r: seq<string>)
    ensures |r| <= |pieces| && r == pieces[..|r|]
    ensures |r| > 0 ==> !Skipped(r[|r| - 1])
  {
    if |pieces| > 0 && Skipped(pieces[|pieces| - 1]) then TrimRight(pieces[..|pieces| - 1]) else pieces
  }

  /** `p.strip_prefix(base).display()` once the `k` components of `base`
      have matched: `Components::as_path` of what the walk has left. After
      at least one component the walk is in its body, and leading and
      trailing skipped pieces are trimmed; with none it has not started,
      and only the trailing ones are. Inner "//" and "/./" stay. */
  function StripPrefixText(p: string, k: nat): string {
    if k == 0 then UnstartedText(p) else BodyText(BodyPieces(p), k - |Head(p)|)
  }

  /** `as_path` of a walk that has not started: the head stays, trailing
      skipped pieces go. */
  function UnstartedText(p: string): string {
    Head(p) + Join(TrimRight(BodyPieces(p)))
  }

  /** The text the body walk leaves after `j` components, trimmed on both
      sides. */
  function BodyText(body: seq<string>, j: nat): string {
    Join(TrimRight(TrimLeft(Consume(body, j))))
  }

  lemma {:induction false} SplitOfJoin(pieces: seq<string>)
    requires |pieces| > 0 && NoSlashes(pieces)
    ensures Split(Join(pieces)) == pieces
  {
    if |pieces| == 1 {
      SplitPlain(pieces[0]);
    } else {
      assert NoSlashes(pieces[1..]);
      SplitOfJoin(pieces[1..]);
      SplitPlain(pieces[0]);
      SplitJoin(pieces[0], Join(pieces[1..]));
    }
  }

  /** The components are the head's component, if any, then those of the
      body pieces. */
  lemma HeadBody(p: string)
    ensures Components(p) == HeadComponents(Head(p)) + InnerComponents(BodyPieces(p))
    ensures |HeadComponents(Head(p))| == |Head(p)|
    ensures NoSlashes(BodyPieces(p))
  {
    var pieces := Split(p);
    if !Rooted(p) && pieces[0] == "." {
      assert ([""] + pieces[1..])[1..] == pieces[1..];
    }
  }

  lemma {:induction false} InnerConsume(pieces: seq<string>, k: nat)
    requires k <= |InnerComponents(pieces)|
    ensures InnerComponents(Consume(pieces, k)) == InnerComponents(pieces)[k..]
    decreases |pieces|
  {
    if k > 0 && |pieces| > 0 {
      InnerConsume(pieces[1..], if Skipped(pieces[0]) then k else k - 1);
    }
  }

  lemma {:induction false} InnerTrimLeft(pieces: seq<string>)
    ensures InnerComponents(TrimLeft(pieces)) == InnerComponents(pieces)
  {
    if |pieces| > 0 && Skipped(pieces[0]) {
      InnerTrimLeft(pieces[1..]);
    }
  }

  lemma {:induction false} InnerTrimRight(pieces: seq<string>)
    ensures InnerComponents(TrimRight(pieces)) == InnerComponents(pieces)
  {
    if |pieces| > 0 && Skipped(pieces[|pieces| - 1]) {
      var init := pieces[..|pieces| - 1];
      InnerTrimRight(init);
      assert init + [pieces[|pieces| - 1]] == pieces;
      InnerComponentsAppend(init, [pieces[|pieces| - 1]]);
    }
  }

  /** Separator-free pieces that do not start with a skipped one are the
      pieces of their join, which starts with neither a root nor a ".". */
  lemma JoinComponents(pieces: seq<string>)
    requires NoSlashes(pieces)
    requires |pieces| > 0 ==> !Skipped(pieces[0])
    ensures Components(Join(pieces)) == InnerComponents(pieces)
  {
    if |pieces| > 0 {
      SplitOfJoin(pieces);
      var s := Join(pieces);
      if |pieces| == 1 {
        assert s == pieces[0];
      } else {
        assert s == pieces[0] + "/" + Join(pieces[1..]);
      }
      assert s[0] == pieces[0][0];
    }
  }

  /** The text left after a matched, non-empty prefix has exactly the
      remaining components. */
  lemma StripPrefixTextComponents(p: string, k: nat)
    requires 0 < k <= |Components(p)|
    ensures Components(StripPrefixText(p, k)) == Components(p)[k..]
  {
    HeadBody(p);
    var body := BodyPieces(p);
    var j := k - |Head(p)|;
    assert Components(p)[k..] == InnerComponents(body)[j..];
    var r := TrimmedRest(body, j);
    assert StripPrefixText(p, k) == BodyText(body, j);
    JoinComponents(r);
  }

  /** What the body walk leaves after `j` components, trimmed on both
      sides, still has the remaining components and no separator. */
  lemma TrimmedRest(body: seq<string>, j: nat) returns (r: seq<string>)
    requires NoSlashes(body) && j <= |InnerComponents(body)|
    ensures r == TrimRight(TrimLeft(Consume(body, j)))
    ensures NoSlashes(r) && (|r| > 0 ==> !Skipped(r[0]))
    ensures InnerComponents(r) == InnerComponents(body)[j..]
  {
    InnerConsume(body, j);
    var c := Consume(body, j);
    NoSlashesSlice(body, |body| - |c|, |body|);
    var l := TrimLeft(c);
    InnerTrimLeft(c);
    NoSlashesSlice(c, |c| - |l|, |c|);
    r := TrimRight(l);
    InnerTrimRight(l);
    NoSlashesSlice(l, 0, |r|);
  }

  lemma NoSlashesSlice(pieces: seq<string>, a: nat, b: nat)
    requires NoSlashes(pieces) && a <= b <= |pieces|
    ensures NoSlashes(pieces[a..b])
  {
    forall i, k | 0 <= i < b - a && 0 <= k < |pieces[a..b][i]|
      ensures pieces[a..b][i][k] != '/'
    {
      assert pieces[a..b][i] == pieces[a + i];
    }
  }

  lemma {:induction false} ConsumeAppend(q: seq<string>, rest: seq<string>, k: nat)
    requires k <= |InnerComponents(q)|
    ensures Consume(q + rest, k) == Consume(q, k) + rest
    decreases |q|
  {
    if k > 0 && |q| > 0 {
      assert (q + rest)[1..] == q[1..] + rest;
      ConsumeAppend(q[1..], rest, if Skipped(q[0]) then k else k - 1);
    }
  }

  /** Consuming every component leaves only skipped pieces. */
  lemma {:induction false} ConsumeAll(q: seq<string>)
    ensures forall i :: 0 <= i < |Consume(q, |InnerComponents(q)|)| ==> Skipped(Consume(q, |InnerComponents(q)|)[i])
    decreases |q|
  {
    if |q| > 0 {
      ConsumeAll(q[1..]);
      if |InnerComponents(q)| == 0 {
        InnerNone(q);
      }
    }
  }

  lemma {:induction false} InnerNone(q: seq<string>)
    requires |InnerComponents(q)| == 0
    ensures forall i :: 0 <= i < |q| ==> Skipped(q[i])
  {
    if |q| > 0 {
      InnerNone(q[1..]);
      assert forall i :: 1 <= i < |q| ==> q[i] == q[1..][i - 1];
    }
  }

  lemma {:induction false} TrimLeftSkipped(e: seq<string>, rest: seq<string>)
    requires forall i :: 0 <= i < |e| ==> Skipped(e[i])
    ensures TrimLeft(e + rest) == TrimLeft(rest)
  {
    if |e| > 0 {
      assert (e + rest)[1..] == e[1..] + rest;
      TrimLeftSkipped(e[1..], rest);
    } else {
      assert e + rest == rest;
    }
  }

  /** Past the components of `base`, the walk over a path that continues
      `base` with `pieces` leaves exactly the text of `pieces`, when they
      neither start nor end with a skipped piece. */
  lemma TextAfterBase(p: string, base: string, pieces: seq<string>)
    requires |pieces| > 0 && !Skipped(pieces[0]) && !Skipped(pieces[|pieces| - 1])
    requires Head(p) == Head(base) && BodyPieces(p) == BodyPieces(base) + pieces
    requires |Components(base)| > 0
    ensures StripPrefixText(p, |Components(base)|) == Join(pieces)
  {
    HeadBody(base);
    var body := BodyPieces(base);
    var j := |Components(base)| - |Head(base)|;
    assert j == |InnerComponents(body)|;
    TextAfterBody(p, base, pieces, |Components(base)|, j, body);
  }

  lemma TextAfterBody(p: string, base: string, pieces: seq<string>, k: nat, j: nat, body: seq<string>)
    requires |pieces| > 0 && !Skipped(pieces[0]) && !Skipped(pieces[|pieces| - 1])
    requires Head(p) == Head(base) && BodyPieces(p) == body + pieces
    requires k > 0 && j == k - |Head(base)| && j == |InnerComponents(body)|
    ensures StripPrefixText(p, k) == Join(pieces)
  {
    PiecesAfter(body, pieces);
    StripTextBody(p, k);
  }

  lemma StripTextBody(p: string, k: nat)
    requires k > 0
    ensures StripPrefixText(p, k) == BodyText(BodyPieces(p), k - |Head(p)|)
  {
  }

  lemma PiecesAfter(body: seq<string>, pieces: seq<string>)
    requires |pieces| > 0 && !Skipped(pieces[0]) && !Skipped(pieces[|pieces| - 1])
    ensures TrimRight(TrimLeft(Consume(body + pieces, |InnerComponents(body)|))) == pieces
  {
    var j := |InnerComponents(body)|;
    ConsumeAppend(body, pieces, j);
    ConsumeAll(body);
    TrimLeftSkipped(Consume(body, j), pieces);
    assert TrimLeft(pieces) == pieces;
    assert TrimRight(pieces) == pieces;
  }

  /** A non-empty path followed by '/' and separator-free pieces: its
      components are the path's then the pieces', and its body pieces the
      path's then the pieces. */
  lemma JoinAfter(base: string, pieces: seq<string>)
    requires |base| > 0 && |pieces| > 0 && NoSlashes(pieces)
    ensures Head(base + "/" + Join(pieces)) == Head(base)
    ensures BodyPieces(base + "/" + Join(pieces)) == BodyPieces(base) + pieces
    ensures Components(base + "/" + Join(pieces)) == Components(base) + InnerComponents(pieces)
    ensures |Components(base)| > 0
  {
    var p := base + "/" + Join(pieces);
    SplitJoin(base, Join(pieces));
    SplitOfJoin(pieces);
    assert p[0] == base[0];
    AfterSplit(p, base, pieces);
    ComponentsNonEmpty(base);
  }

  lemma AfterSplit(p: string, base: string, pieces: seq<string>)
    requires |base| > 0 && |p| > 0 && p[0] == base[0]
    requires Split(p) == Split(base) + pieces
    ensures Head(p) == Head(base)
    ensures BodyPieces(p) == BodyPieces(base) + pieces
    ensures Components(p) == Components(base) + InnerComponents(pieces)
  {
    assert Rooted(p) == Rooted(base);
    BodyOfAppend(Rooted(p), Split(base), pieces);
    HeadBody(p);
    HeadBody(base);
    ComponentsAfter(Components(p), Components(base), HeadComponents(Head(base)),
                    BodyPieces(base), pieces, InnerComponents(BodyPieces(p)));
  }

  lemma ComponentsAfter(cp: seq<Component>, cb: seq<Component>, h: seq<Component>,
                        body: seq<string>, pieces: seq<string>, innerP: seq<Component>)
    requires innerP == InnerComponents(body + pieces)
    requires cp == h + innerP && cb == h + InnerComponents(body)
    ensures cp == cb + InnerComponents(pieces)
  {
    InnerComponentsAppend(body, pieces);
  }

  lemma BodyOfAppend(rooted: bool, bp: seq<string>, pieces: seq<string>)
    requires |bp| > 0
    ensures HeadOf(rooted, bp + pieces) == HeadOf(rooted, bp)
    ensures BodyOf(rooted, bp + pieces) == BodyOf(rooted, bp) + pieces
  {
    assert (bp + pieces)[1..] == bp[1..] + pieces;
  }

  /** A non-empty path has a component. */
  lemma ComponentsNonEmpty(p: string)
    requires |p| > 0
    ensures |Components(p)| > 0
  {
    HeadBody(p);
    var pieces := Split(p);
    if !Rooted(p) && pieces[0] != "." {
      SplitFirst(p);
      assert pieces == [pieces[0]] + pieces[1..];
      InnerComponentsAppend([pieces[0]], pieces[1..]);
    }
  }

  lemma SplitFirst(s: string)
    requires |s| > 0 && s[0] != '/'
    ensures |Split(s)[0]| > 0
  {
  }
}
