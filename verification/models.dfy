/** The equipment records and their display strings (src/models.rs).
    Identifiers are UUIDs in the program; here they are opaque naturals
    supplied by the caller. Creation timestamps are not modelled. */
module Models {
  import opened Wrappers
  import opened Text
  import Bytes

  type Id = nat

  datatype Camera = Camera(id: Id, maker: string, model: string)

  datatype Lens = Lens(id: Id, maker: string, model: string, focalLength: string,
                       aperture: string, mount: string)

  /** `iso` is a `u32` in the program. */
  datatype Film = Film(id: Id, maker: string, name: string, iso: nat)

  datatype Photographer = Photographer(id: Id, name: string, email: Option<string>)

  /** A camera with an optional lens. */
  datatype Setup = Setup(id: Id, name: string, cameraId: Id, lensId: Option<Id>)

  /** Everything needed to tag a roll of film. */
  datatype Selection = Selection(setup: Setup, camera: Camera, lens: Option<Lens>,
                                 film: Film, photographer: Photographer)

  predicate ValidFilm(f: Film) {
    f.iso < Bytes.U32_LIMIT
  }

  /** "{maker} {model}". */
  function CameraDisplayName(c: Camera): (r: string)
    ensures |r| == |c.maker| + 1 + |c.model|
    ensures IsPrefix(c.maker + " ", r) && IsSuffix(c.model, r)
  {
    c.maker + " " + c.model
  }

  /** "{model} f/{aperture}", the lens model written into EXIF. */
  function LensModelWithAperture(l: Lens): (r: string)
    ensures IsPrefix(l.model + " ", r) && IsSuffix(" f/" + l.aperture, r)
  {
    l.model + " f/" + l.aperture
  }

  /** "{model} {focal}mm f/{aperture}", the lens model written by the
      JPEG writer. */
  function CompleteLensModel(l: Lens): (r: string)
    ensures IsPrefix(l.model + " ", r) && IsSuffix("mm f/" + l.aperture, r)
  {
    l.model + " " + l.focalLength + "mm f/" + l.aperture
  }

  /** "{maker} {model} {focal}mm f/{aperture}". */
  function LensDisplayName(l: Lens): (r: string)
    ensures IsPrefix(l.maker + " ", r)
  {
    l.maker + " " + l.model + " " + l.focalLength + "mm f/" + l.aperture
  }

  /** "{maker} {name} (ISO {iso})". */
  function FilmDisplayName(f: Film): (r: string)
    ensures IsPrefix(f.maker + " " + f.name + " (ISO ", r)
    ensures IsSuffix(")", r)
  {
    f.maker + " " + f.name + " (ISO " + NatToString(f.iso) + ")"
  }

  /** "{name} <{email}>" or just the name. */
  function PhotographerDisplayName(p: Photographer): (r: string)
    ensures IsPrefix(p.name, r)
    ensures p.email.None? <==> |r| == |p.name|
  {
    match p.email
    case None => p.name
    case Some(e) => p.name + " <" + e + ">"
  }

  function SetupDisplayName(s: Setup): (r: string)
    ensures r == s.name
  {
    s.name
  }

  /** The lens display name is the maker followed by the complete lens
      model, and both lens-model strings end in the aperture. */
  lemma LensNamesAgree(l: Lens)
    ensures LensDisplayName(l) == l.maker + " " + CompleteLensModel(l)
    ensures IsSuffix(" f/" + l.aperture, CompleteLensModel(l))
    ensures |CompleteLensModel(l)| == |LensModelWithAperture(l)| + |l.focalLength| + 3
  {
    assert LensDisplayName(l) == l.maker + " " + CompleteLensModel(l);
    var r := CompleteLensModel(l);
    var t := " f/" + l.aperture;
    assert r[|r| - |t|..] == t;
  }

  /** Splits a camera display name back at its first space. */
  function SplitCameraName(display: string): Option<(string, string)> {
    match FirstIndexOf(display, ' ')
    case None => None
    case Some(i) => Some((display[..i], display[i + 1..]))
  }

  /** A camera whose maker has no space is recovered from its display name. */
  lemma CameraDisplayRoundTrip(c: Camera)
    requires forall k :: 0 <= k < |c.maker| ==> c.maker[k] != ' '
    ensures SplitCameraName(CameraDisplayName(c)) == Some((c.maker, c.model))
  {
    var d := CameraDisplayName(c);
    var i := FirstIndexOf(d, ' ');
    assert d[|c.maker|] == ' ';
    assert forall k :: 0 <= k < |c.maker| ==> d[k] == c.maker[k];
    assert d[..|c.maker|] == c.maker;
    assert d[|c.maker| + 1..] == c.model;
  }

  /** The digits at the end of `s`. */
  function TrailingDigits(s: string): (r: string)
    ensures IsDigits(r) && |r| <= |s| && r == s[|s| - |r|..]
  {
    if |s| > 0 && '0' <= s[|s| - 1] <= '9' then TrailingDigits(s[..|s| - 1]) + [s[|s| - 1]]
    else ""
  }

  lemma {:induction false} TrailingDigitsOf(a: string, d: string)
    requires IsDigits(d)
    requires |a| > 0 && !('0' <= a[|a| - 1] <= '9')
    ensures TrailingDigits(a + d) == d
    decreases |d|
  {
    if |d| > 0 {
      assert (a + d)[..|a + d| - 1] == a + d[..|d| - 1];
      TrailingDigitsOf(a, d[..|d| - 1]);
      assert d[..|d| - 1] + [d[|d| - 1]] == d;
    } else {
      assert a + d == a;
    }
  }

  /** The ISO speed read back from a film's display name. */
  function IsoOfFilmDisplay(display: string): Option<nat> {
    if |display| > 0 && display[|display| - 1] == ')' then
      var digits := TrailingDigits(display[..|display| - 1]);
      if |digits| > 0 then Some(DigitsValue(digits)) else None
    else None
  }

  /** Whatever the maker and name, the display name gives back the ISO. */
  lemma FilmDisplayIso(f: Film)
    ensures IsoOfFilmDisplay(FilmDisplayName(f)) == Some(f.iso)
  {
    var head := f.maker + " " + f.name + " (ISO ";
    var d := FilmDisplayName(f);
    assert d[..|d| - 1] == head + NatToString(f.iso);
    TrailingDigitsOf(head, NatToString(f.iso));
    NatToStringRoundTrip(f.iso);
  }

  /** The e-mail address read back from a photographer's display name:
      what sits between the last " <" and the closing '>'. */
  function EmailOfDisplay(display: string, name: string): Option<string> {
    if |display| >= |name| + 3 && display[..|name|] == name
       && display[|name|..|name| + 2] == " <" && display[|display| - 1] == '>'
    then Some(display[|name| + 2..|display| - 1])
    else None
  }

  /** The display name keeps the e-mail address recoverable, given the name. */
  lemma PhotographerDisplayRoundTrip(p: Photographer)
    ensures EmailOfDisplay(PhotographerDisplayName(p), p.name) == p.email
  {
    var d := PhotographerDisplayName(p);
    match p.email
    case None =>
    case Some(e) =>
      assert d[..|p.name|] == p.name;
      assert d[|p.name|..|p.name| + 2] == " <";
      assert d[|p.name| + 2..|d| - 1] == e;
  }
}
