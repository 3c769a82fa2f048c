/** The tag/value views of a selection used for sidecar metadata
    (src/exif/tags.rs): a tag-name map, a single-tag lookup and the XMP
    document. */
module Tags {
  import opened Wrappers
  import opened Text
  import opened Models

  const LENS_TAGS: set<string> := {"LensMake", "LensModel", "FocalLength", "FNumber"}
  const BODY_TAGS: set<string> := {"Make", "Model", "ISOSpeedRatings", "ISOSpeed", "Artist"}

  /** The ISO actually photographed: the shot ISO when given (push/pull
      processing), else the film's box speed. */
  function PhotographedIso(sel: Selection, shotIso: Option<nat>): nat {
    shotIso.GetOr(sel.film.iso)
  }

  /** `create_exif_object_with_iso`: ISOSpeedRatings keeps the film's box
      speed while ISOSpeed carries the photographed ISO. */
  function CreateExifObjectWithIso(sel: Selection, shotIso: Option<nat>): (m: map<string, string>)
    ensures m.Keys == BODY_TAGS + (if sel.lens.Some? then LENS_TAGS else {})
    ensures m["ISOSpeedRatings"] == NatToString(sel.film.iso)
    ensures m["ISOSpeed"] == NatToString(PhotographedIso(sel, shotIso))
  {
    var body := map["Make" := sel.camera.maker, "Model" := sel.camera.model];
    var withLens :=
      match sel.lens
      case None => body
      case Some(l) =>
        body["LensMake" := l.maker]["LensModel" := LensModelWithAperture(l)]
            ["FocalLength" := l.focalLength]["FNumber" := l.aperture];
    withLens["ISOSpeedRatings" := NatToString(sel.film.iso)]
            ["ISOSpeed" := NatToString(PhotographedIso(sel, shotIso))]
            ["Artist" := sel.photographer.name]
  }

  /** `create_exif_object`: both ISO tags carry the film's box speed. */
  function CreateExifObject(sel: Selection): (m: map<string, string>)
    ensures m.Keys == BODY_TAGS + (if sel.lens.Some? then LENS_TAGS else {})
    ensures m["ISOSpeed"] == m["ISOSpeedRatings"] == NatToString(sel.film.iso)
  {
    CreateExifObjectWithIso(sel, None)
  }

  /** With a shot ISO the map differs from the plain one in ISOSpeed only. */
  lemma ExifObjectShotIso(sel: Selection, shotIso: Option<nat>)
    ensures CreateExifObjectWithIso(sel, shotIso) ==
      CreateExifObject(sel)["ISOSpeed" := NatToString(PhotographedIso(sel, shotIso))]
  {
  }

  /** `get_tag_value_with_iso`: both ISO names answer the photographed ISO. */
  function GetTagValueWithIso(tag: string, sel: Selection, shotIso: Option<nat>): (r: Option<string>)
    ensures r.Some? ==> tag in BODY_TAGS + LENS_TAGS
  {
    if tag == "Make" then Some(sel.camera.maker)
    else if tag == "Model" then Some(sel.camera.model)
    else if tag == "LensMake" then (if sel.lens.Some? then Some(sel.lens.value.maker) else None)
    else if tag == "LensModel" then (if sel.lens.Some? then Some(LensModelWithAperture(sel.lens.value)) else None)
    else if tag == "FocalLength" then (if sel.lens.Some? then Some(sel.lens.value.focalLength) else None)
    else if tag == "FNumber" then (if sel.lens.Some? then Some(sel.lens.value.aperture) else None)
    else if tag == "ISOSpeedRatings" || tag == "ISOSpeed" then Some(NatToString(PhotographedIso(sel, shotIso)))
    else if tag == "Artist" then Some(sel.photographer.name)
    else None
  }

  /** `get_tag_value`. */
  function GetTagValue(tag: string, sel: Selection): (r: Option<string>)
    ensures r.Some? ==> tag in BODY_TAGS + LENS_TAGS
  {
    GetTagValueWithIso(tag, sel, None)
  }

  /** The lookup answers exactly what the map holds. */
  lemma GetAgreesWithMap(tag: string, sel: Selection)
    ensures GetTagValue(tag, sel) ==
      if tag in CreateExifObject(sel) then Some(CreateExifObject(sel)[tag]) else None
  {
  }

  /** With a shot ISO that differs from the box speed, the lookup and the map
      disagree on ISOSpeedRatings: the map keeps the box speed, the lookup
      answers the shot ISO. Every other tag agrees. */
  lemma GetWithIsoVersusMap(tag: string, sel: Selection, shotIso: Option<nat>)
    ensures tag != "ISOSpeedRatings" ==>
      GetTagValueWithIso(tag, sel, shotIso) ==
        if tag in CreateExifObjectWithIso(sel, shotIso)
        then Some(CreateExifObjectWithIso(sel, shotIso)[tag]) else None
    ensures tag == "ISOSpeedRatings" ==>
      (GetTagValueWithIso(tag, sel, shotIso) == Some(CreateExifObjectWithIso(sel, shotIso)[tag]) <==>
       PhotographedIso(sel, shotIso) == sel.film.iso)
  {
    if NatToString(PhotographedIso(sel, shotIso)) == NatToString(sel.film.iso) {
      NatToStringInjective(PhotographedIso(sel, shotIso), sel.film.iso);
    }
  }

  // ---------------------------------------------------------------------
  // XMP sidecar document

  /** The three lens lines, without a trailing newline; empty without a lens. */
  function LensBlock(lens: Option<Lens>): (r: string)
    ensures r == "" <==> lens.None?
  {
    match lens
    case None => ""
    case Some(l) =>
      "      <aux:LensModel>" + LensModelWithAperture(l) + "</aux:LensModel>\n"
      + "      <exif:FocalLength>" + l.focalLength + "</exif:FocalLength>\n"
      + "      <exif:FNumber>" + l.aperture + "</exif:FNumber>"
  }

  /** Everything before the lens block. */
  function XmpHead(maker: string, model: string): string {
    "<?xml version=\"1.0\" encoding=\"UTF-8\"?>\n"
    + "<x:xmpmeta xmlns:x=\"adobe:ns:meta/\" x:xmptk=\"Adobe XMP Core\">\n"
    + "  <rdf:RDF xmlns:rdf=\"http://www.w3.org/1999/02/22-rdf-syntax-ns#\">\n"
    + "    <rdf:Description rdf:about=\"\"\n"
    + "        xmlns:tiff=\"http://ns.adobe.com/tiff/1.0/\"\n"
    + "        xmlns:exif=\"http://ns.adobe.com/exif/1.0/\"\n"
    + "        xmlns:dc=\"http://purl.org/dc/elements/1.1/\"\n"
    + "        xmlns:aux=\"http://ns.adobe.com/exif/1.0/aux/\">\n"
    + "      <tiff:Make>" + maker + "</tiff:Make>\n"
    + "      <tiff:Model>" + model + "</tiff:Model>\n"
  }

  /** Everything after the lens block. */
  function XmpTail(iso: nat, creator: string): string {
    "\n"
    + "      <exif:ISOSpeedRatings>\n"
    + "        <rdf:Bag>\n"
    + "          <rdf:li>" + NatToString(iso) + "</rdf:li>\n"
    + "        </rdf:Bag>\n"
    + "      </exif:ISOSpeedRatings>\n"
    + "      <dc:creator>\n"
    + "        <rdf:Bag>\n"
    + "          <rdf:li>" + creator + "</rdf:li>\n"
    + "        </rdf:Bag>\n"
    + "      </dc:creator>\n"
    + "    </rdf:Description>\n"
    + "  </rdf:RDF>\n"
    + "</x:xmpmeta>"
  }

  /** `create_xmp_metadata_with_iso`: the XMP sidecar, whose single
      ISOSpeedRatings entry is the photographed ISO. The document opens
      with the header and the Make and Model lines and closes with that ISO
      and the creator. */
  function CreateXmpMetadataWithIso(sel: Selection, shotIso: Option<nat>): (r: string)
    ensures IsPrefix(XmpHead(sel.camera.maker, sel.camera.model), r)
    ensures IsSuffix(XmpTail(PhotographedIso(sel, shotIso), sel.photographer.name), r)
  {
    var head := XmpHead(sel.camera.maker, sel.camera.model);
    var tail := XmpTail(PhotographedIso(sel, shotIso), sel.photographer.name);
    Affixes(head, LensBlock(sel.lens), tail);
    head + LensBlock(sel.lens) + tail
  }

  /** The first and last parts of a three-part concatenation are its
      prefix and suffix. */
  lemma Affixes(a: string, b: string, c: string)
    ensures IsPrefix(a, a + b + c) && IsSuffix(c, a + b + c)
  {
    assert (a + b + c)[..|a|] == a;
    assert (a + b + c)[|a + b|..] == c;
  }

  /** `create_xmp_metadata`: the document ends with the film's box
      speed. */
  function CreateXmpMetadata(sel: Selection): (r: string)
    ensures IsSuffix(XmpTail(sel.film.iso, sel.photographer.name), r)
  {
    assert PhotographedIso(sel, None) == sel.film.iso;
    CreateXmpMetadataWithIso(sel, None)
  }

  /** A shot ISO only changes the ISO written: the document is the plain one
      for a film rated at that ISO. */
  lemma XmpShotIso(sel: Selection, shotIso: Option<nat>)
    ensures CreateXmpMetadataWithIso(sel, shotIso) ==
      CreateXmpMetadata(sel.(film := sel.film.(iso := PhotographedIso(sel, shotIso))))
  {
    var sel' := sel.(film := sel.film.(iso := PhotographedIso(sel, shotIso)));
    assert sel'.camera == sel.camera && sel'.lens == sel.lens && sel'.photographer == sel.photographer;
    assert PhotographedIso(sel', None) == PhotographedIso(sel, shotIso);
  }

  /** With a lens the document is the lens-less one with the lens block
      inserted after the Model line. */
  lemma XmpLensInsertion(sel: Selection)
    requires sel.lens.Some?
    ensures var plain := CreateXmpMetadata(sel.(lens := None));
            var k := |XmpHead(sel.camera.maker, sel.camera.model)|;
            k <= |plain| &&
            CreateXmpMetadata(sel) == plain[..k] + LensBlock(sel.lens) + plain[k..]
  {
    XmpParts(sel);
    XmpParts(sel.(lens := None));
    Insertion(XmpHead(sel.camera.maker, sel.camera.model), LensBlock(sel.lens),
              XmpTail(sel.film.iso, sel.photographer.name));
  }

  /** The document's three parts for the film's box speed. */
  lemma XmpParts(sel: Selection)
    ensures CreateXmpMetadata(sel) ==
      XmpHead(sel.camera.maker, sel.camera.model) + LensBlock(sel.lens) + XmpTail(sel.film.iso, sel.photographer.name)
  {
    assert PhotographedIso(sel, None) == sel.film.iso;
  }

  lemma Insertion(a: string, b: string, c: string)
    ensures |a| <= |a + "" + c| && a + b + c == (a + "" + c)[..|a|] + b + (a + "" + c)[|a|..]
  {
    var plain := a + "" + c;
    assert plain[..|a|] == a;
    assert plain[|a|..] == c;
  }
}
