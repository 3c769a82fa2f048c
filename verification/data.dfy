/** The equipment catalogue and its create/read/update/delete operations
    (src/data.rs). The catalogue is a value; each mutating operation
    returns the new catalogue. Loading and saving the file it lives in is
    not modelled, and fresh identifiers are supplied by the caller in place
    of `Uuid::new_v4`. */
module Data {
  import opened Wrappers
  import opened Models

  datatype Config = Config(cameras: seq<Camera>, lenses: seq<Lens>, films: seq<Film>,
                           photographers: seq<Photographer>, setups: seq<Setup>)

  // ---------------------------------------------------------------------
  // Lookup by identifier, shared by every kind of record

  /** Position of the first record with identifier `id` (`iter().find`). */
  function FindIndex<T>(s: seq<T>, id: Id, idOf: T -> Id): (r: Option<nat>)
    ensures r.Some? ==> r.value < |s| && idOf(s[r.value]) == id
    ensures r.Some? ==> forall k :: 0 <= k < r.value ==> idOf(s[k]) != id
    ensures r.None? ==> forall k :: 0 <= k < |s| ==> idOf(s[k]) != id
  {
    if |s| == 0 then None
    else if idOf(s[0]) == id then Some(0)
    else match FindIndex(s[1..], id, idOf)
      case None => None
      case Some(i) => Some(i + 1)
  }

  /** The first record with identifier `id`. */
  function Find<T>(s: seq<T>, id: Id, idOf: T -> Id): (r: Option<T>)
    ensures r.Some? ==> r.value in s && idOf(r.value) == id
    ensures r.None? <==> forall k :: 0 <= k < |s| ==> idOf(s[k]) != id
  {
    match FindIndex(s, id, idOf)
    case None => None
    case Some(i) => Some(s[i])
  }

  /** `retain(|x| x.id != id)`: every record with identifier `id` goes, the
      rest keep their order. */
  function Remove<T(!new)>(s: seq<T>, id: Id, idOf: T -> Id): (r: seq<T>)
    ensures |r| <= |s|
    ensures forall x :: x in r <==> x in s && idOf(x) != id
  {
    if |s| == 0 then []
    else (if idOf(s[0]) == id then [] else [s[0]]) + Remove(s[1..], id, idOf)
  }

  lemma {:induction false} FindAppend<T>(s: seq<T>, x: T, j: Id, idOf: T -> Id)
    ensures Find(s + [x], j, idOf) ==
      if Find(s, j, idOf).Some? then Find(s, j, idOf)
      else if idOf(x) == j then Some(x) else None
  {
    if |s| > 0 {
      assert (s + [x])[1..] == s[1..] + [x];
      FindAppend(s[1..], x, j, idOf);
    }
  }

  lemma FindCons<T>(x: T, t: seq<T>, j: Id, idOf: T -> Id)
    ensures Find([x] + t, j, idOf) == if idOf(x) == j then Some(x) else Find(t, j, idOf)
  {
    assert ([x] + t)[1..] == t;
    if idOf(x) != j {
      match FindIndex(t, j, idOf)
      case None =>
      case Some(i) => assert ([x] + t)[i + 1] == t[i];
    }
  }

  lemma {:induction false} FindRemove<T(!new)>(s: seq<T>, id: Id, j: Id, idOf: T -> Id)
    ensures Find(Remove(s, id, idOf), j, idOf) == if j == id then None else Find(s, j, idOf)
  {
    if |s| > 0 {
      var rest := Remove(s[1..], id, idOf);
      FindRemove(s[1..], id, j, idOf);
      assert s == [s[0]] + s[1..];
      FindCons(s[0], s[1..], j, idOf);
      if idOf(s[0]) != id {
        assert Remove(s, id, idOf) == [s[0]] + rest;
        FindCons(s[0], rest, j, idOf);
      } else {
        assert Remove(s, id, idOf) == rest;
      }
    }
  }

  lemma FindUpdate<T>(s: seq<T>, id: Id, y: T, j: Id, idOf: T -> Id)
    requires FindIndex(s, id, idOf).Some? && idOf(y) == id
    ensures Find(s[FindIndex(s, id, idOf).value := y], j, idOf) ==
      if j == id then Some(y) else Find(s, j, idOf)
  {
    var i := FindIndex(s, id, idOf).value;
    var t := s[i := y];
    if j == id {
      assert FindIndex(t, j, idOf) == Some(i) by {
        FindIndexFirst(t, j, idOf, i);
      }
    } else {
      match FindIndex(s, j, idOf)
      case None =>
      case Some(k) =>
        assert k != i;
        FindIndexFirst(t, j, idOf, k);
    }
  }

  /** `FindIndex` is characterised by its contract. */
  lemma {:induction false} FindIndexFirst<T>(s: seq<T>, id: Id, idOf: T -> Id, i: nat)
    requires i < |s| && idOf(s[i]) == id
    requires forall k :: 0 <= k < i ==> idOf(s[k]) != id
    ensures FindIndex(s, id, idOf) == Some(i)
  {
    if i > 0 {
      FindIndexFirst(s[1..], id, idOf, i - 1);
    }
  }

  function CameraId(c: Camera): Id { c.id }
  function LensId(l: Lens): Id { l.id }
  function FilmId(f: Film): Id { f.id }
  function PhotographerId(p: Photographer): Id { p.id }
  function SetupId(s: Setup): Id { s.id }

  predicate HasCamera(cfg: Config, id: Id) {
    Find(cfg.cameras, id, CameraId).Some?
  }

  predicate HasLens(cfg: Config, id: Id) {
    Find(cfg.lenses, id, LensId).Some?
  }

  /** Referential integrity: every setup names a camera of the catalogue,
      and a lens of the catalogue when it has one. */
  predicate RefsValid(cfg: Config) {
    forall s :: s in cfg.setups ==>
      HasCamera(cfg, s.cameraId) && (s.lensId.Some? ==> HasLens(cfg, s.lensId.value))
  }

  // ---------------------------------------------------------------------
  // Adding records

  function AddCamera(cfg: Config, id: Id, maker: string, model: string): (r: (Config, Camera))
    ensures r.1 == Camera(id, maker, model)
    ensures r.0 == cfg.(cameras := cfg.cameras + [r.1])
  {
    var c := Camera(id, maker, model);
    (cfg.(cameras := cfg.cameras + [c]), c)
  }

  function AddLens(cfg: Config, id: Id, maker: string, model: string, focalLength: string,
                   aperture: string, mount: string): (r: (Config, Lens))
    ensures r.1 == Lens(id, maker, model, focalLength, aperture, mount)
    ensures r.0 == cfg.(lenses := cfg.lenses + [r.1])
  {
    var l := Lens(id, maker, model, focalLength, aperture, mount);
    (cfg.(lenses := cfg.lenses + [l]), l)
  }

  function AddFilm(cfg: Config, id: Id, maker: string, name: string, iso: nat): (r: (Config, Film))
    ensures r.1 == Film(id, maker, name, iso)
    ensures r.0 == cfg.(films := cfg.films + [r.1])
  {
    var f := Film(id, maker, name, iso);
    (cfg.(films := cfg.films + [f]), f)
  }

  function AddPhotographer(cfg: Config, id: Id, name: string, email: Option<string>): (r: (Config, Photographer))
    ensures r.1 == Photographer(id, name, email)
    ensures r.0 == cfg.(photographers := cfg.photographers + [r.1])
  {
    var p := Photographer(id, name, email);
    (cfg.(photographers := cfg.photographers + [p]), p)
  }

  /** `add_setup`: the camera must exist ("Camera not found"), then the lens
      when one is given ("Lens not found"); on error nothing changes. */
  function AddSetup(cfg: Config, id: Id, name: string, cameraId: Id, lensId: Option<Id>): (r: Result<(Config, Setup), string>)
    ensures r.Err? <==> !HasCamera(cfg, cameraId) || (lensId.Some? && !HasLens(cfg, lensId.value))
    ensures r.Err? ==> r.error == (if !HasCamera(cfg, cameraId) then "Camera not found" else "Lens not found")
    ensures r.Ok? ==> r.value.1 == Setup(id, name, cameraId, lensId)
    ensures r.Ok? ==> r.value.0 == cfg.(setups := cfg.setups + [r.value.1])
  {
    if !HasCamera(cfg, cameraId) then Err("Camera not found")
    else if lensId.Some? && !HasLens(cfg, lensId.value) then Err("Lens not found")
    else
      var s := Setup(id, name, cameraId, lensId);
      Ok((cfg.(setups := cfg.setups + [s]), s))
  }

  /** After adding, the identifier finds the first record that carries it:
      an older one if the identifier was already taken, else the new one. */
  lemma AddCameraThenFind(cfg: Config, id: Id, maker: string, model: string, j: Id)
    ensures Find(AddCamera(cfg, id, maker, model).0.cameras, j, CameraId) ==
      if Find(cfg.cameras, j, CameraId).Some? then Find(cfg.cameras, j, CameraId)
      else if j == id then Some(Camera(id, maker, model)) else None
  {
    FindAppend(cfg.cameras, Camera(id, maker, model), j, CameraId);
  }

  lemma AddSetupThenFind(cfg: Config, id: Id, name: string, cameraId: Id, lensId: Option<Id>)
    requires AddSetup(cfg, id, name, cameraId, lensId).Ok?
    requires Find(cfg.setups, id, SetupId).None?
    ensures Find(AddSetup(cfg, id, name, cameraId, lensId).value.0.setups, id, SetupId)
      == Some(Setup(id, name, cameraId, lensId))
  {
    FindAppend(cfg.setups, Setup(id, name, cameraId, lensId), id, SetupId);
  }

  // ---------------------------------------------------------------------
  // Reading

  /** `create_selection`: looks up the setup, its camera, its lens when it
      has one, the film and the photographer, failing at the first missing
      one in that order. */
  function CreateSelection(cfg: Config, setupId: Id, filmId: Id, photographerId: Id): (r: Result<Selection, string>)
    ensures r.Ok? ==> Find(cfg.setups, setupId, SetupId) == Some(r.value.setup)
    ensures r.Ok? ==> Find(cfg.cameras, r.value.setup.cameraId, CameraId) == Some(r.value.camera)
    ensures r.Ok? ==> r.value.lens.Some? == r.value.setup.lensId.Some?
    ensures r.Ok? && r.value.lens.Some? ==>
      Find(cfg.lenses, r.value.setup.lensId.value, LensId) == Some(r.value.lens.value)
    ensures r.Ok? ==> Find(cfg.films, filmId, FilmId) == Some(r.value.film)
    ensures r.Ok? ==> Find(cfg.photographers, photographerId, PhotographerId) == Some(r.value.photographer)
    ensures Find(cfg.setups, setupId, SetupId).None? ==> r == Err("Setup not found")
  {
    match Find(cfg.setups, setupId, SetupId)
    case None => Err("Setup not found")
    case Some(setup) =>
      match Find(cfg.cameras, setup.cameraId, CameraId)
      case None => Err("Camera not found")
      case Some(camera) =>
        var lens: Result<Option<Lens>, string> :=
          match setup.lensId
          case None => Ok(None)
          case Some(lid) =>
            match Find(cfg.lenses, lid, LensId)
            case None => Err("Lens not found")
            case Some(l) => Ok(Some(l));
        if lens.Err? then Err(lens.error)
        else match Find(cfg.films, filmId, FilmId)
          case None => Err("Film not found")
          case Some(film) =>
            match Find(cfg.photographers, photographerId, PhotographerId)
            case None => Err("Photographer not found")
            case Some(p) => Ok(Selection(setup, camera, lens.value, film, p))
  }

  /** In a catalogue with referential integrity, a selection fails only for
      a missing setup, film or photographer, never for the setup's camera
      or lens. */
  lemma SelectionUnderIntegrity(cfg: Config, setupId: Id, filmId: Id, photographerId: Id)
    requires RefsValid(cfg)
    ensures CreateSelection(cfg, setupId, filmId, photographerId).Ok? <==>
      Find(cfg.setups, setupId, SetupId).Some? && Find(cfg.films, filmId, FilmId).Some?
      && Find(cfg.photographers, photographerId, PhotographerId).Some?
    ensures CreateSelection(cfg, setupId, filmId, photographerId).Err? ==>
      CreateSelection(cfg, setupId, filmId, photographerId).error in
        {"Setup not found", "Film not found", "Photographer not found"}
  {
    match Find(cfg.setups, setupId, SetupId)
    case None =>
    case Some(setup) =>
      assert setup in cfg.setups;
  }

  // ---------------------------------------------------------------------
  // Deleting

  /** `delete_camera`: refused while a setup uses the camera. */
  function DeleteCamera(cfg: Config, id: Id): (r: Result<Config, string>)
    ensures r.Err? <==> exists s :: s in cfg.setups && s.cameraId == id
    ensures r.Err? ==> r.error == "Cannot delete camera that is used in setups"
    ensures r.Ok? ==> r.value == cfg.(cameras := Remove(cfg.cameras, id, CameraId))
  {
    if exists s :: s in cfg.setups && s.cameraId == id then
      Err("Cannot delete camera that is used in setups")
    else Ok(cfg.(cameras := Remove(cfg.cameras, id, CameraId)))
  }

  /** `delete_lens`: refused while a setup uses the lens. */
  function DeleteLens(cfg: Config, id: Id): (r: Result<Config, string>)
    ensures r.Err? <==> exists s :: s in cfg.setups && s.lensId == Some(id)
    ensures r.Err? ==> r.error == "Cannot delete lens that is used in setups"
    ensures r.Ok? ==> r.value == cfg.(lenses := Remove(cfg.lenses, id, LensId))
  {
    if exists s :: s in cfg.setups && s.lensId == Some(id) then
      Err("Cannot delete lens that is used in setups")
    else Ok(cfg.(lenses := Remove(cfg.lenses, id, LensId)))
  }

  function DeleteFilm(cfg: Config, id: Id): (r: Config)
    ensures r == cfg.(films := Remove(cfg.films, id, FilmId))
  {
    cfg.(films := Remove(cfg.films, id, FilmId))
  }

  function DeletePhotographer(cfg: Config, id: Id): (r: Config)
    ensures r == cfg.(photographers := Remove(cfg.photographers, id, PhotographerId))
  {
    cfg.(photographers := Remove(cfg.photographers, id, PhotographerId))
  }

  function DeleteSetup(cfg: Config, id: Id): (r: Config)
    ensures r == cfg.(setups := Remove(cfg.setups, id, SetupId))
  {
    cfg.(setups := Remove(cfg.setups, id, SetupId))
  }

  /** After a successful delete the identifier finds nothing and every
      other identifier finds what it found before. */
  lemma DeleteCameraThenFind(cfg: Config, id: Id, j: Id)
    requires DeleteCamera(cfg, id).Ok?
    ensures Find(DeleteCamera(cfg, id).value.cameras, j, CameraId) ==
      if j == id then None else Find(cfg.cameras, j, CameraId)
  {
    FindRemove(cfg.cameras, id, j, CameraId);
  }

  lemma DeleteLensThenFind(cfg: Config, id: Id, j: Id)
    requires DeleteLens(cfg, id).Ok?
    ensures Find(DeleteLens(cfg, id).value.lenses, j, LensId) ==
      if j == id then None else Find(cfg.lenses, j, LensId)
  {
    FindRemove(cfg.lenses, id, j, LensId);
  }

  lemma DeleteSetupThenFind(cfg: Config, id: Id, j: Id)
    ensures Find(DeleteSetup(cfg, id).setups, j, SetupId) ==
      if j == id then None else Find(cfg.setups, j, SetupId)
  {
    FindRemove(cfg.setups, id, j, SetupId);
  }

  // ---------------------------------------------------------------------
  // Editing: the first record with the identifier is changed in place

  function EditCamera(cfg: Config, id: Id, maker: string, model: string): (r: (Config, bool))
    ensures r.1 <==> HasCamera(cfg, id)
    ensures !r.1 ==> r.0 == cfg
    ensures r.0.lenses == cfg.lenses && r.0.films == cfg.films
    ensures r.0.photographers == cfg.photographers && r.0.setups == cfg.setups
  {
    match FindIndex(cfg.cameras, id, CameraId)
    case None => (cfg, false)
    case Some(i) => (cfg.(cameras := cfg.cameras[i := cfg.cameras[i].(maker := maker, model := model)]), true)
  }

  function EditLens(cfg: Config, id: Id, maker: string, model: string, focalLength: string,
                    aperture: string, mount: string): (r: (Config, bool))
    ensures r.1 <==> HasLens(cfg, id)
    ensures !r.1 ==> r.0 == cfg
    ensures r.0.cameras == cfg.cameras && r.0.films == cfg.films
    ensures r.0.photographers == cfg.photographers && r.0.setups == cfg.setups
  {
    match FindIndex(cfg.lenses, id, LensId)
    case None => (cfg, false)
    case Some(i) =>
      (cfg.(lenses := cfg.lenses[i := cfg.lenses[i].(maker := maker, model := model,
        focalLength := focalLength, aperture := aperture, mount := mount)]), true)
  }

  function EditFilm(cfg: Config, id: Id, maker: string, name: string, iso: nat): (r: (Config, bool))
    ensures r.1 <==> Find(cfg.films, id, FilmId).Some?
    ensures !r.1 ==> r.0 == cfg
    ensures r.0.cameras == cfg.cameras && r.0.lenses == cfg.lenses
    ensures r.0.photographers == cfg.photographers && r.0.setups == cfg.setups
  {
    match FindIndex(cfg.films, id, FilmId)
    case None => (cfg, false)
    case Some(i) => (cfg.(films := cfg.films[i := cfg.films[i].(maker := maker, name := name, iso := iso)]), true)
  }

  function EditPhotographer(cfg: Config, id: Id, name: string, email: Option<string>): (r: (Config, bool))
    ensures r.1 <==> Find(cfg.photographers, id, PhotographerId).Some?
    ensures !r.1 ==> r.0 == cfg
    ensures r.0.cameras == cfg.cameras && r.0.lenses == cfg.lenses
    ensures r.0.films == cfg.films && r.0.setups == cfg.setups
  {
    match FindIndex(cfg.photographers, id, PhotographerId)
    case None => (cfg, false)
    case Some(i) =>
      (cfg.(photographers := cfg.photographers[i := cfg.photographers[i].(name := name, email := email)]), true)
  }

  /** `edit_setup`: the new camera, then the new lens, are validated before
      the setup is looked up; an unknown setup is `Ok(false)`. */
  function EditSetup(cfg: Config, id: Id, name: string, cameraId: Id, lensId: Option<Id>): (r: (Config, Result<bool, string>))
    ensures r.1 == Err("Camera not found") <==> !HasCamera(cfg, cameraId)
    ensures r.1 == Err("Lens not found") <==>
      HasCamera(cfg, cameraId) && lensId.Some? && !HasLens(cfg, lensId.value)
    ensures r.1 == Ok(true) <==>
      HasCamera(cfg, cameraId) && (lensId.Some? ==> HasLens(cfg, lensId.value))
      && Find(cfg.setups, id, SetupId).Some?
    ensures r.1 != Ok(true) ==> r.0 == cfg
    ensures r.0.cameras == cfg.cameras && r.0.lenses == cfg.lenses
    ensures r.0.films == cfg.films && r.0.photographers == cfg.photographers
  {
    if !HasCamera(cfg, cameraId) then (cfg, Err("Camera not found"))
    else if lensId.Some? && !HasLens(cfg, lensId.value) then (cfg, Err("Lens not found"))
    else match FindIndex(cfg.setups, id, SetupId)
      case None => (cfg, Ok(false))
      case Some(i) =>
        (cfg.(setups := cfg.setups[i := Setup(id, name, cameraId, lensId)]), Ok(true))
  }

  /** An edit is seen by the next lookup of that identifier, and by no other. */
  lemma EditCameraThenFind(cfg: Config, id: Id, maker: string, model: string, j: Id)
    requires HasCamera(cfg, id)
    ensures Find(EditCamera(cfg, id, maker, model).0.cameras, j, CameraId) ==
      if j == id then Some(Camera(id, maker, model)) else Find(cfg.cameras, j, CameraId)
  {
    var i := FindIndex(cfg.cameras, id, CameraId).value;
    FindUpdate(cfg.cameras, id, cfg.cameras[i].(maker := maker, model := model), j, CameraId);
  }

  lemma EditLensThenFind(cfg: Config, id: Id, maker: string, model: string, focalLength: string,
                         aperture: string, mount: string, j: Id)
    requires HasLens(cfg, id)
    ensures Find(EditLens(cfg, id, maker, model, focalLength, aperture, mount).0.lenses, j, LensId) ==
      if j == id then Some(Lens(id, maker, model, focalLength, aperture, mount))
      else Find(cfg.lenses, j, LensId)
  {
    var i := FindIndex(cfg.lenses, id, LensId).value;
    FindUpdate(cfg.lenses, id, cfg.lenses[i].(maker := maker, model := model,
      focalLength := focalLength, aperture := aperture, mount := mount), j, LensId);
  }

  lemma EditFilmThenFind(cfg: Config, id: Id, maker: string, name: string, iso: nat, j: Id)
    requires Find(cfg.films, id, FilmId).Some?
    ensures Find(EditFilm(cfg, id, maker, name, iso).0.films, j, FilmId) ==
      if j == id then Some(Film(id, maker, name, iso)) else Find(cfg.films, j, FilmId)
  {
    var i := FindIndex(cfg.films, id, FilmId).value;
    FindUpdate(cfg.films, id, cfg.films[i].(maker := maker, name := name, iso := iso), j, FilmId);
  }

  lemma EditPhotographerThenFind(cfg: Config, id: Id, name: string, email: Option<string>, j: Id)
    requires Find(cfg.photographers, id, PhotographerId).Some?
    ensures Find(EditPhotographer(cfg, id, name, email).0.photographers, j, PhotographerId) ==
      if j == id then Some(Photographer(id, name, email)) else Find(cfg.photographers, j, PhotographerId)
  {
    var i := FindIndex(cfg.photographers, id, PhotographerId).value;
    FindUpdate(cfg.photographers, id, cfg.photographers[i].(name := name, email := email), j, PhotographerId);
  }

  lemma EditSetupThenFind(cfg: Config, id: Id, name: string, cameraId: Id, lensId: Option<Id>, j: Id)
    requires EditSetup(cfg, id, name, cameraId, lensId).1 == Ok(true)
    ensures Find(EditSetup(cfg, id, name, cameraId, lensId).0.setups, j, SetupId) ==
      if j == id then Some(Setup(id, name, cameraId, lensId)) else Find(cfg.setups, j, SetupId)
  {
    FindUpdate(cfg.setups, id, Setup(id, name, cameraId, lensId), j, SetupId);
  }

  // ---------------------------------------------------------------------
  // Referential integrity is kept by every operation

  lemma HasCameraAppend(cfg: Config, c: Camera, id: Id)
    requires HasCamera(cfg, id)
    ensures HasCamera(cfg.(cameras := cfg.cameras + [c]), id)
  {
    FindAppend(cfg.cameras, c, id, CameraId);
  }

  lemma HasLensAppend(cfg: Config, l: Lens, id: Id)
    requires HasLens(cfg, id)
    ensures HasLens(cfg.(lenses := cfg.lenses + [l]), id)
  {
    FindAppend(cfg.lenses, l, id, LensId);
  }

  lemma AddKeepsIntegrity(cfg: Config, id: Id, a: string, b: string, c: string, d: string, e: string,
                          iso: nat, email: Option<string>, cameraId: Id, lensId: Option<Id>)
    requires RefsValid(cfg)
    ensures RefsValid(AddCamera(cfg, id, a, b).0)
    ensures RefsValid(AddLens(cfg, id, a, b, c, d, e).0)
    ensures RefsValid(AddFilm(cfg, id, a, b, iso).0)
    ensures RefsValid(AddPhotographer(cfg, id, a, email).0)
    ensures AddSetup(cfg, id, a, cameraId, lensId).Ok? ==> RefsValid(AddSetup(cfg, id, a, cameraId, lensId).value.0)
  {
    forall s | s in cfg.setups
      ensures HasCamera(AddCamera(cfg, id, a, b).0, s.cameraId)
      ensures s.lensId.Some? ==> HasLens(AddLens(cfg, id, a, b, c, d, e).0, s.lensId.value)
    {
      HasCameraAppend(cfg, Camera(id, a, b), s.cameraId);
      if s.lensId.Some? {
        HasLensAppend(cfg, Lens(id, a, b, c, d, e), s.lensId.value);
      }
    }
  }

  lemma DeleteKeepsIntegrity(cfg: Config, id: Id)
    requires RefsValid(cfg)
    ensures DeleteCamera(cfg, id).Ok? ==> RefsValid(DeleteCamera(cfg, id).value)
    ensures DeleteLens(cfg, id).Ok? ==> RefsValid(DeleteLens(cfg, id).value)
    ensures RefsValid(DeleteFilm(cfg, id))
    ensures RefsValid(DeletePhotographer(cfg, id))
    ensures RefsValid(DeleteSetup(cfg, id))
  {
    forall s | s in cfg.setups
      ensures DeleteCamera(cfg, id).Ok? ==> HasCamera(DeleteCamera(cfg, id).value, s.cameraId)
      ensures s.lensId.Some? && DeleteLens(cfg, id).Ok? ==> HasLens(DeleteLens(cfg, id).value, s.lensId.value)
    {
      FindRemove(cfg.cameras, id, s.cameraId, CameraId);
      if s.lensId.Some? {
        FindRemove(cfg.lenses, id, s.lensId.value, LensId);
      }
    }
  }

  lemma EditKeepsIntegrity(cfg: Config, id: Id, a: string, b: string, c: string, d: string, e: string,
                           iso: nat, email: Option<string>, cameraId: Id, lensId: Option<Id>)
    requires RefsValid(cfg)
    ensures RefsValid(EditCamera(cfg, id, a, b).0)
    ensures RefsValid(EditLens(cfg, id, a, b, c, d, e).0)
    ensures RefsValid(EditFilm(cfg, id, a, b, iso).0)
    ensures RefsValid(EditPhotographer(cfg, id, a, email).0)
    ensures RefsValid(EditSetup(cfg, id, a, cameraId, lensId).0)
  {
    EditCameraKeepsIntegrity(cfg, id, a, b);
    EditLensKeepsIntegrity(cfg, id, a, b, c, d, e);
    EditSetupKeepsIntegrity(cfg, id, a, cameraId, lensId);
  }

  lemma EditCameraKeepsIntegrity(cfg: Config, id: Id, a: string, b: string)
    requires RefsValid(cfg)
    ensures RefsValid(EditCamera(cfg, id, a, b).0)
  {
    forall s | s in cfg.setups
      ensures HasCamera(EditCamera(cfg, id, a, b).0, s.cameraId)
    {
      if HasCamera(cfg, id) {
        EditCameraThenFind(cfg, id, a, b, s.cameraId);
      }
    }
  }

  lemma EditLensKeepsIntegrity(cfg: Config, id: Id, a: string, b: string, c: string, d: string, e: string)
    requires RefsValid(cfg)
    ensures RefsValid(EditLens(cfg, id, a, b, c, d, e).0)
  {
    forall s | s in cfg.setups
      ensures s.lensId.Some? ==> HasLens(EditLens(cfg, id, a, b, c, d, e).0, s.lensId.value)
    {
      if s.lensId.Some? && HasLens(cfg, id) {
        EditLensThenFind(cfg, id, a, b, c, d, e, s.lensId.value);
      }
    }
  }

  lemma EditSetupKeepsIntegrity(cfg: Config, id: Id, a: string, cameraId: Id, lensId: Option<Id>)
    requires RefsValid(cfg)
    ensures RefsValid(EditSetup(cfg, id, a, cameraId, lensId).0)
  {
    var r := EditSetup(cfg, id, a, cameraId, lensId);
    if r.1 == Ok(true) {
      var i := FindIndex(cfg.setups, id, SetupId).value;
      forall s | s in r.0.setups
        ensures HasCamera(r.0, s.cameraId) && (s.lensId.Some? ==> HasLens(r.0, s.lensId.value))
      {
        var k :| 0 <= k < |r.0.setups| && r.0.setups[k] == s;
        if k != i {
          assert s == cfg.setups[k];
        }
      }
    }
  }
}
