# ifex metadata core in Dafny

ifex writes film-camera equipment (camera, lens, film stock, photographer)
into the EXIF metadata of photographs and reads that metadata back as a list
of tag names and values. This project models the parts of it that hold the
logic, as pure functions over immutable data, and proves what they promise.

- **The JPEG processor** (`src/exif/processors.rs`).
  - `Ifd` lays out an APP1 segment: the "Exif\0\0" identifier, a little-endian TIFF header, one IFD of 12-byte entries, and an overflow area for values longer than 4 bytes. It is paired with an IFD reader. The round trip `ParseApp1(App1(es)) == Some(es)` is proved for every entry list that fits the 16-bit segment length.
  - `ExifWriter` models the two segment builders: the merge of the selection's fields over the fields already in the file, and the date writer.
  - `JpegRewrite` models the byte loops that splice the new segment in or erase APP0/APP1 segments.
  - `ExifReadout` models the read-out: the EXIF rows, the APP13/IPTC scan, the 50-byte truncation and the final sort.
  - `ExifValues` formats values and gives their little-endian encodings. `ExifTags` holds the tag-number and tag-name tables.
- **Tag maps and XMP text** (`src/exif/tags.rs`): `Tags`.
- **Display strings** (`src/models.rs`): `Models`.
- **The equipment store** (`src/data.rs`): `Data`. The operations add, find, edit and delete equipment and build a selection. They preserve referential integrity: every setup's camera exists, and so does its lens when it has one.
- **Path classification** (`src/utils.rs`, `src/exif/file_types.rs`, `src/file_selector.rs`): `Utils`, `FileTypes`, `FileSelector` and `Paths`.
- **The batch manager** (`src/exif/exif_manager.rs`): `ExifManager`. It dispatches each file by type, keeps per-file results and counters, and staggers creation dates one second apart.
- **Support modules**:
  - `Bytes`: byte encodings.
  - `Text`: trimming on the Unicode `White_Space` characters, ASCII lower-casing and number printing.
  - `Utf8`: encoding and decoding.
  - `Sorting`: a stable insertion sort, with the lexicographic order Rust uses for `String`.
  - `Wrappers`: `Option` and `Result`.

Wherever the Rust code can panic (a slice or index out of bounds, `String::truncate` inside a character, an `unwrap` on `None`), the model keeps two versions:

- a function named `…AsWritten` that returns `None`, or `Panicked`, exactly where the code panics;
- a corrected function that never panics, with a lemma proving that the two agree on every input where the code does not panic.

The manager takes each processor as a parameter whose report can be a panic, so a panic in one file stops the whole batch, as it does in the program (`ExifManager.BatchPanics`, `ExifManager.TruncatedJpegStopsBatch`, `ExifManager.TailMarkerStopsErase`). The corrected functions carry the properties the code would have without its panics.

Two findings are not panics, and there the two versions differ on ordinary input: the date writer drops every non-ASCII field, and the creation date is the first date row of the sorted listing rather than the preferred tag. The members that model the program use the version as written (`ExifWriter.CreateDateExifSegment`, `JpegRewrite.SetCreationDate`, `ExifManager.DateOf`, and through them `ExifManager.ProcessSelectedFiles`). The intended behaviour is a separate member with its property proved (`ExifWriter.CreateDateExifSegmentPreserving`, `ExifManager.CreationDate`). All the cases are listed under Findings.

In `src/models.rs`, `Setup.lens_id` is declared as a `Uuid` and `Selection.lens` as a `Lens`. However, `src/data.rs`, `src/exif/tags.rs` and `src/exif/processors.rs` all use both as optional. The model follows that use and makes both an `Option`.

The intended format requires IFD entries in ascending tag order. The writer does not sort them and can emit the same tag twice. The model follows the code and claims no order.

Identifiers are natural numbers. Dates are whole seconds. The file system, the exif crate's reader, the prompt and the directory walk are parameters of the functions that use them.

## Model

| member | source | states |
|---|---|---|
| Bytes.LE16 | src/exif/processors.rs:147 | `u16::to_le_bytes`: two bytes that decode, low byte first, back to the value |
| Bytes.BE16 | src/exif/processors.rs:200-202 | the segment length as `length >> 8` then `length & 0xff`: two bytes that decode, high byte first, back to the value |
| Bytes.LE32 | src/exif/processors.rs:151 | `u32::to_le_bytes`: four bytes that decode little-endian back to the value |
| Bytes.LE64 | src/exif/processors.rs:864 | `u64::to_le_bytes` (the double's bit pattern): eight bytes that decode little-endian back to the value |
| Bytes.U16OrZero | src/exif/processors.rs:200 | `u16::try_from(n).unwrap_or(0)`: the value itself when it fits 16 bits, otherwise 0 |
| Bytes.U32OrZero | src/exif/processors.rs:151 | `u32::try_from(n).unwrap_or(0)`: the value itself when it fits 32 bits, otherwise 0 |
| Bytes.WrapU16 | src/exif/processors.rs:137 | `entry_count as u16`: below 2^16, and the count itself whenever it fits |
| Text.TrimStart | src/exif/processors.rs:390 | `str::trim_start`: a suffix of the input; everything dropped is whitespace and the result does not start with whitespace |
| Text.TrimEnd | src/exif/processors.rs:390 | `str::trim_end`: a prefix of the input; everything dropped is whitespace and the result does not end with whitespace |
| Text.Trim | src/exif/processors.rs:390 | `str::trim`: the infix left after the leading whitespace run, neither starting nor ending with whitespace |
| Text.TrimOfUntrimmed | src/utils.rs:16 | trimming a string that neither starts nor ends with whitespace leaves it unchanged |
| Text.ToLowerAscii | src/utils.rs:36 | extension lower-casing: same length, 'A'..'Z' mapped to 'a'..'z', every other character kept |
| Text.NatToString | src/models.rs:153 | `u32` formatting: a non-empty digit string without a leading zero |
| Text.NatToStringRoundTrip | src/models.rs:153 | reading the digits back gives the number, so the rendering loses nothing |
| Text.NatToStringInjective | src/models.rs:153 | distinct numbers render differently |
| Text.IntToString | src/exif/processors.rs:630-632 | signed formatting: ASCII, non-empty, and starting with '-' exactly for negative values |
| Text.JoinAscii | src/exif/processors.rs:598 | `join` of ASCII items with an ASCII separator is ASCII |
| Text.SplitJoinList | src/exif/processors.rs:598 | items free of commas joined by ", " split back into the same items |
| Utf8.CharWidth | src/exif/processors.rs:390 | UTF-8 width of a character: 1 to 4 bytes, 1 exactly for ASCII |
| Utf8.EncodeChar | src/exif/processors.rs:390 | the UTF-8 bytes of one character, as many as its width |
| Utf8.Encode | src/exif/processors.rs:390 | `str::as_bytes`: as many bytes as the string's byte length |
| Utf8.Step | src/exif/processors.rs:390 | one decoding step of `from_utf8_lossy` consumes 1 to 4 bytes and never more than there are |
| Utf8.DecodeAscii | src/exif/processors.rs:390 | bytes below 0x80 are valid UTF-8 and decode one character per byte, to themselves |
| Utf8.DecodeAppendAscii | src/exif/processors.rs:390 | a leading ASCII byte decodes to its character and decoding carries on after it |
| Utf8.EncodeCharStep | src/exif/processors.rs:390 | decoding the encoding of a character yields the character and consumes exactly its width |
| Utf8.DecodeEncode | src/exif/processors.rs:390 | decoding the UTF-8 encoding of any string gives the string back and reports no invalid sequence |
| Utf8.ByteLenAppend | src/exif/processors.rs:394 | byte length is additive over concatenation |
| Utf8.ByteLenAscii | src/exif/processors.rs:394 | an ASCII string is one byte per character |
| Utf8.EncodeAscii | src/exif/processors.rs:394 | an ASCII string is its own encoding, byte for byte |
| Sorting.LexLeTotal | src/exif/processors.rs:338 | `String::cmp` order: any two strings are comparable |
| Sorting.LexLeTransitive | src/exif/processors.rs:338 | `String::cmp` order is transitive |
| Sorting.LexLeAntisymmetric | src/exif/processors.rs:338 | `String::cmp` order is antisymmetric |
| Sorting.InsertBy | src/exif/processors.rs:338 | insertion keeps every element and adds exactly the new one |
| Sorting.SortBy | src/exif/processors.rs:338 | `sort_by` on a key: a permutation of its input |
| Sorting.InsertBySorted | src/exif/processors.rs:338 | inserting into a key-sorted sequence keeps it sorted |
| Sorting.SortBySorted | src/exif/processors.rs:338 | the result is sorted by the key |
| Sorting.SortBySortedIdentity | src/exif/processors.rs:338 | a sequence already sorted by the key is left as it is (the sort is stable) |
| Sorting.SortByIdempotent | src/exif/processors.rs:338 | sorting twice is sorting once |
| Paths.Split | src/file_selector.rs:80 | the '/'-separated pieces: at least one, none containing '/' |
| Paths.Components | src/file_selector.rs:80 | `Path::components`: a root or current-directory marker only in first place; normal components are never empty, "." or ".." |
| Paths.FileName | src/file_selector.rs:84 | `Path::file_name`: when present, never empty, "." or ".." |
| Paths.Extension | src/utils.rs:34 | `Path::extension`: only for a path with a file name, and never containing '.' |
| Paths.StripPrefix | src/file_selector.rs:80 | `Path::strip_prefix`: succeeds exactly when the base is a component-wise prefix, and the path is the base followed by the rest |
| Paths.SplitJoin | src/file_selector.rs:80 | splitting "a/b" gives the pieces of a followed by those of b |
| Paths.ComponentsJoin | src/file_selector.rs:80 | joining a plain name onto a non-empty path adds exactly one normal component |
| Paths.StripPrefixTextComponents | src/file_selector.rs:80-81 | the text `strip_prefix(..).display()` shows after k matched components has exactly the remaining components of the path |
| Paths.JoinAfter | src/file_selector.rs:80-81 | a base joined by '/' to separator-free names keeps the base's head, and its components are the base's followed by those of the names |
| FileTypes.FromLowerExtension | src/exif/file_types.rs:34-41 | each file type exactly for its listed extensions: jpg/jpeg, tif/tiff, dng, and the 23 raw ones |
| FileTypes.FromPath | src/exif/file_types.rs:30-49 | no extension, no type; otherwise the type of the ASCII-lower-cased extension |
| FileTypes.ExactlyOneCapability | src/exif/file_types.rs:56-75 | every file type has exactly one of direct EXIF, DNG processing and sidecar |
| FileTypes.AsStr | src/exif/file_types.rs:82-89 | one of "jpeg", "tiff", "dng", "raw" |
| FileTypes.AsStrInjective | src/exif/file_types.rs:82-89 | distinct file types have distinct names |
| Utils.IsSupportedImageFormat | src/utils.rs:33-74 | true exactly when the path has an extension whose lower-cased form is one of the 28 listed |
| Utils.GetFileType | src/utils.rs:86-98 | None exactly when the path has no extension; otherwise one of "jpeg", "tiff", "dng", "raw" |
| Utils.SupportedIffClassified | src/utils.rs:33-74 | the two extension lists agree: a path is supported exactly when `FileType::from_path` classifies it |
| Utils.FileTypeNameAgrees | src/utils.rs:86-98 | on a supported path the category is the `as_str` of the classified file type |
| Utils.UnescapeEscape | src/utils.rs:23 | replacing "\ " by " " undoes shell-style escaping of spaces |
| Utils.CleanPath | src/utils.rs:15-25 | a trimmed input with matching quotes at both ends loses exactly those two characters; any other input is the trimmed text with "\ " turned into spaces |
| Utils.CleanQuoted | src/utils.rs:15-25 | a path wrapped in matching quotes comes back verbatim |
| Utils.CleanEscaped | src/utils.rs:15-25 | a shell-escaped path with no surrounding whitespace or quotes comes back with its spaces restored |
| FileSelector.KeptPaths | src/file_selector.rs:48-53 | at most one path per walk entry, every one of a supported format |
| FileSelector.KeptPathsMembers | src/file_selector.rs:48-53 | a path is kept exactly when some walk entry within the depth limit is that file and has a supported format |
| FileSelector.ScanDirectory | src/file_selector.rs:39-63 | the kept paths, each as often as the walk yields it |
| FileSelector.ScanDirectoryContents | src/file_selector.rs:39-63 | sorted by file name, and listing a path exactly when the walk reaches it as a supported file within `max_depth(1)` unless recursive |
| FileSelector.FormatFileForDisplay | src/file_selector.rs:79-89 | when the base is not a prefix, the bare file name; otherwise the raw remainder of the path text, whose components are the rest (FileSelector.DisplayComponents) |
| FileSelector.DisplayComponents | src/file_selector.rs:80-81 | below a non-empty base, the displayed text's components are exactly the path's components after the base |
| FileSelector.DisplayRelative | src/file_selector.rs:79-89 | a file written as the base, '/' and separator-free names, the first and last neither empty nor ".", is shown as exactly those names joined by '/', inner "" and "." pieces kept |
| FileSelector.DisplayChild | src/file_selector.rs:79-89 | a file directly inside the base is shown by its name alone |
| FileSelector.DisplayGrandchild | src/file_selector.rs:79-89 | a file one directory down is shown as "dir/name" |
| FileSelector.DisplayKeepsDoubledSeparator | src/file_selector.rs:80-81 | "photos/a//b.jpg" below "photos" is shown as "a//b.jpg": the raw remainder, not a re-rendering of its components |
| Models.CameraDisplayName | src/models.rs:40-42 | the maker, a space, then the model |
| Models.CameraDisplayRoundTrip | src/models.rs:40-42 | a camera whose maker has no space is recovered from its display name |
| Models.LensModelWithAperture | src/models.rs:104-106 | the model, a space, and " f/" with the aperture at the end |
| Models.CompleteLensModel | src/models.rs:112-114 | the model, a space, and "mm f/" with the aperture at the end |
| Models.LensDisplayName | src/models.rs:93-98 | starts with the maker and a space |
| Models.LensNamesAgree | src/models.rs:93-114 | the display name is the maker before the complete lens model, which ends like the model-with-aperture form and is longer by the focal length and "mm " |
| Models.FilmDisplayName | src/models.rs:152-154 | "{maker} {name} (ISO " … ")" |
| Models.FilmDisplayIso | src/models.rs:152-154 | the ISO speed reads back from any film's display name |
| Models.PhotographerDisplayName | src/models.rs:190-195 | starts with the name, and is the name alone exactly when there is no e-mail |
| Models.PhotographerDisplayRoundTrip | src/models.rs:190-195 | given the name, the e-mail (or its absence) reads back from the display name |
| Data.Find | src/data.rs:143-183 | `get_*_by_id`: the first record carrying the identifier, and None exactly when no record carries it |
| Data.Remove | src/data.rs:249-270 | `retain(\|x\| x.id != id)`: keeps exactly the records with other identifiers |
| Data.AddCamera | src/data.rs:41-49 | the new camera is returned and appended; nothing else changes |
| Data.AddLens | src/data.rs:51-66 | the new lens is returned and appended; nothing else changes |
| Data.AddFilm | src/data.rs:68-76 | the new film is returned and appended; nothing else changes |
| Data.AddPhotographer | src/data.rs:78-87 | the new photographer is returned and appended; nothing else changes |
| Data.AddSetup | src/data.rs:89-109 | fails exactly when the camera, or the given lens, is not in the catalogue, with "Camera not found" checked first and "Lens not found" second; otherwise the setup is appended |
| Data.AddCameraThenFind | src/data.rs:41-49 | after adding, an identifier finds its older record if it had one, else the new camera if it is the new identifier, else nothing |
| Data.AddSetupThenFind | src/data.rs:89-109 | a setup added under a fresh identifier is found by it |
| Data.CreateSelection | src/data.rs:185-222 | on success every part is the record the catalogue holds under the identifier (the setup's camera, its lens exactly when it has one, the film, the photographer); an unknown setup gives "Setup not found" |
| Data.SelectionUnderIntegrity | src/data.rs:185-222 | in a catalogue whose setups all name existing equipment, the selection succeeds exactly when setup, film and photographer exist, and otherwise fails with one of those three messages |
| Data.DeleteCamera | src/data.rs:224-235 | refused with "Cannot delete camera that is used in setups" exactly when some setup uses it; otherwise only the camera list changes, losing that identifier |
| Data.DeleteLens | src/data.rs:237-247 | refused with "Cannot delete lens that is used in setups" exactly when some setup uses it; otherwise only the lens list changes |
| Data.DeleteFilm | src/data.rs:249-255 | only the film list changes, losing the identifier |
| Data.DeletePhotographer | src/data.rs:257-263 | only the photographer list changes, losing the identifier |
| Data.DeleteSetup | src/data.rs:265-270 | only the setup list changes, losing the identifier |
| Data.DeleteCameraThenFind | src/data.rs:224-235 | after a delete the identifier finds nothing and every other identifier finds what it found before |
| Data.DeleteLensThenFind | src/data.rs:237-247 | after a delete the identifier finds nothing and every other identifier finds what it found before |
| Data.DeleteSetupThenFind | src/data.rs:265-270 | after a delete the identifier finds nothing and every other identifier finds what it found before |
| Data.EditCamera | src/data.rs:272-283 | reports true exactly when the camera exists; on false nothing changes; the other lists never change |
| Data.EditLens | src/data.rs:285-307 | reports true exactly when the lens exists; on false nothing changes; the other lists never change |
| Data.EditFilm | src/data.rs:309-321 | reports true exactly when the film exists; on false nothing changes; the other lists never change |
| Data.EditPhotographer | src/data.rs:323-334 | reports true exactly when the photographer exists; on false nothing changes; the other lists never change |
| Data.EditSetup | src/data.rs:336-363 | "Camera not found" exactly when the new camera is missing, then "Lens not found" for a missing new lens, `Ok(true)` exactly when both exist and the setup does; anything but `Ok(true)` changes nothing; the equipment lists never change |
| Data.EditCameraThenFind | src/data.rs:272-283 | after an edit the identifier finds the edited camera and every other identifier what it found before |
| Data.EditLensThenFind | src/data.rs:285-307 | after an edit the identifier finds the edited lens and every other identifier what it found before |
| Data.EditFilmThenFind | src/data.rs:309-321 | after an edit the identifier finds the edited film and every other identifier what it found before |
| Data.EditPhotographerThenFind | src/data.rs:323-334 | after an edit the identifier finds the edited photographer and every other identifier what it found before |
| Data.EditSetupThenFind | src/data.rs:336-363 | after a successful edit the identifier finds the new setup and every other identifier what it found before |
| Data.AddKeepsIntegrity | src/data.rs:41-109 | every add keeps each setup's camera and lens in the catalogue |
| Data.DeleteKeepsIntegrity | src/data.rs:224-270 | every permitted delete keeps each setup's camera and lens in the catalogue |
| Data.EditKeepsIntegrity | src/data.rs:272-363 | every edit keeps each setup's camera and lens in the catalogue |
| Tags.CreateExifObjectWithIso | src/exif/tags.rs:54-90 | the keys are the five body tags plus the four lens tags exactly when there is a lens; ISOSpeedRatings is the film's box speed and ISOSpeed the photographed ISO |
| Tags.CreateExifObject | src/exif/tags.rs:23-52 | the same keys, with both ISO tags the film's box speed |
| Tags.ExifObjectShotIso | src/exif/tags.rs:54-90 | with a shot ISO the map differs from the plain one in ISOSpeed only |
| Tags.GetTagValueWithIso | src/exif/tags.rs:117-151 | answers only for the nine known tag names |
| Tags.GetTagValue | src/exif/tags.rs:92-115 | answers only for the nine known tag names |
| Tags.GetAgreesWithMap | src/exif/tags.rs:23-115 | the single-tag lookup answers exactly what the tag map holds |
| Tags.GetWithIsoVersusMap | src/exif/tags.rs:54-151 | with a shot ISO the lookup agrees with the map on every tag but ISOSpeedRatings, and on that one exactly when the shot ISO equals the box speed |
| Tags.LensBlock | src/exif/tags.rs:207-218 | the lens lines are empty exactly when there is no lens |
| Tags.CreateXmpMetadataWithIso | src/exif/tags.rs:205-251 | the document opens with the header, Make and Model lines and closes with the photographed ISO and the creator; Tags.XmpShotIso and Tags.XmpLensInsertion relate it to the plain and lens-less documents |
| Tags.CreateXmpMetadata | src/exif/tags.rs:153-203 | the document closes with the film's box speed and the creator |
| Tags.XmpShotIso | src/exif/tags.rs:153-252 | a shot ISO changes only the ISO written: the document is the plain one for a film rated at that ISO |
| Tags.XmpParts | src/exif/tags.rs:153-203 | the plain document is the head, the lens lines and the tail for the box speed |
| Tags.XmpLensInsertion | src/exif/tags.rs:153-203 | with a lens the document is the lens-less one with the lens lines inserted after the Model line |
| ExifTags.TagText | src/exif/processors.rs:1094 | a tag the crate knows prints as its own name; any other prints as "Tag(<context>, <number>)" |
| ExifTags.TagToNumber | src/exif/processors.rs:1019-1109 | `tag_to_number` answers only 16-bit numbers |
| ExifTags.TagToNumberMeaning | src/exif/processors.rs:1019-1109 | every tag the crate does not know, and every standard tag listed, maps to its own number; every other tag the crate names maps to nothing |
| ExifTags.UnknownTagText | src/exif/processors.rs:1094-1099 | the printed form of an unknown tag contains "Tag(", is wrapped in "Tag(" … ")", and the text between the last ", " and the last ')' is the decimal number |
| ExifTags.ParseU16OfDecimal | src/exif/processors.rs:1099 | `parse::<u16>` reads the decimal form of any 16-bit number back |
| ExifTags.IdentifierHasNoParen | src/exif/processors.rs:1095 | a crate name (an identifier) never contains "Tag(", so the fallback never fires for it |
| ExifTags.FormatTagName | src/exif/processors.rs:449-573 | a standard tag in the table gets its table name |
| ExifTags.FormatTagNameMeaning | src/exif/processors.rs:449-573 | the table name for a standard tag, the crate's own name for any other known tag, and for an unknown tag the fallback name of its number or "Tag <number>" |
| ExifTags.NamedTagsAreNumbered | src/exif/processors.rs:449-573 | every tag number `format_tag_name` names is also one `tag_to_number` lists |
| ExifTags.LastCommaSpace | src/exif/processors.rs:520 | `rfind(", ")`: the position of the last ", ", None exactly when there is none |
| ExifTags.FormatIptcTag | src/exif/processors.rs:414-447 | the 24 record-2 datasets get their names |
| ExifTags.IptcTagReadBack | src/exif/processors.rs:414-447 | a named dataset never reads as "Record … Dataset …", and every other pair reads back as its record and dataset numbers, so the label identifies the dataset |
| ExifValues.TypeCode | src/exif/processors.rs:767-868 | the TIFF field type recorded for a value is one of the codes 1 to 13 |
| ExifValues.UnitSize | src/exif/processors.rs:779-868 | the element size of a field type is 1, 2, 4 or 8 bytes |
| ExifValues.DecodeEncodeAll | src/exif/processors.rs:779-868 | concatenating fixed-width element encodings gives `width * count` bytes, and cutting them at the width and decoding each chunk gives the elements back |
| ExifValues.SignedWrap | src/exif/processors.rs:829 | the `as u8` / two's-complement cast of an in-range signed value reads back as the value |
| ExifValues.RatioRoundTrip | src/exif/processors.rs:797-806 | rationals stored numerator then denominator, each 4 bytes little-endian, read back |
| ExifValues.SRatioRoundTrip | src/exif/processors.rs:807-816 | signed rationals read back the same way |
| ExifValues.I8RoundTrip | src/exif/processors.rs:829 | a signed byte cast with `as u8` reads back |
| ExifValues.I16RoundTrip | src/exif/processors.rs:837 | `i16::to_le_bytes` reads back |
| ExifValues.I32RoundTrip | src/exif/processors.rs:846 | `i32::to_le_bytes` reads back |
| ExifValues.U16sRoundTrip | src/exif/processors.rs:779-787 | a list of shorts stored little-endian reads back |
| ExifValues.U32sRoundTrip | src/exif/processors.rs:788-796 | a list of longs (and of float bit patterns) stored little-endian reads back |
| ExifValues.U64sRoundTrip | src/exif/processors.rs:860-868 | a list of double bit patterns stored little-endian reads back |
| ExifValues.I8sRoundTrip | src/exif/processors.rs:827-832 | a list of signed bytes reads back |
| ExifValues.I16sRoundTrip | src/exif/processors.rs:833-841 | a list of signed shorts reads back |
| ExifValues.I32sRoundTrip | src/exif/processors.rs:842-850 | a list of signed longs reads back |
| ExifValues.ValueRoundTrip | src/exif/processors.rs:779-868 | every preserved non-ASCII value is stored in `unit size * count` bytes and reads back as the same value of the same type |
| ExifValues.UnsignedRoundTrip | src/exif/processors.rs:779-868 | the same, for bytes, undefined, shorts, longs, floats and doubles |
| ExifValues.SignedOrRatioRoundTrip | src/exif/processors.rs:797-850 | the same, for signed values and rationals |
| ExifValues.TrimEndNul | src/exif/processors.rs:589 | `trim_end_matches('\0')`: a prefix, only NULs removed, and none left at the end |
| ExifValues.KeepPrintable | src/exif/processors.rs:590-592 | the filter keeps only ASCII graphic and whitespace characters and leaves a string of them unchanged; it keeps every printable character in order (ExifValues.KeepPrintableAppend, ExifValues.KeepPrintableMembers) |
| ExifValues.KeepPrintableAppend | src/exif/processors.rs:590-592 | filtering a string with one more character at the end adds exactly that character when it is printable and nothing otherwise, so the printable characters survive in order |
| ExifValues.KeepPrintableMembers | src/exif/processors.rs:590-592 | a character is in the result exactly when it is in the input and printable |
| ExifValues.CleanAscii | src/exif/processors.rs:586-594 | one cleaned ASCII string holds printable characters only |
| ExifValues.AsciiPartsClean | src/exif/processors.rs:584-596 | every string kept in an ASCII field's display is non-empty and printable |
| ExifValues.FormatAsciiMeaning | src/exif/processors.rs:583-609 | the placeholder "<binary data>" appears exactly when every string cleans to nothing; otherwise the cleaned strings joined by ", " |
| ExifValues.JoinPrintable | src/exif/processors.rs:600-604 | joining non-empty printable strings leaves something printable, so the "nothing printable" test never fires on a non-empty result |
| ExifValues.CleanTerminated | src/exif/processors.rs:586-594 | a printable string with a NUL terminator cleans back to itself |
| ExifValues.AsciiRoundTrip | src/exif/processors.rs:583-609 | an ASCII field holding one terminated printable string displays as that string |
| ExifValues.NatListRoundTrip | src/exif/processors.rs:611-620 | a list of unsigned numbers displayed as decimals joined by ", " splits and parses back to the list |
| ExifValues.ShortRoundTrip | src/exif/processors.rs:611-615 | the display of a non-empty Short field splits and parses back to the shorts |
| ExifValues.FormatIsAscii | src/exif/processors.rs:580-662 | every display of a value is ASCII, given ASCII renderings of floats and doubles |
| ExifValues.FormatExifValue | src/exif/processors.rs:580-657 | an ASCII field shows its cleaned strings joined by ", ", or "<binary data>" when none is left; the other arms read back through ExifValues.ShortRoundTrip, ExifValues.NatListRoundTrip and ExifValues.AsciiRoundTrip, and every display is ASCII (ExifValues.FormatIsAscii) |
| Ifd.Record | src/exif/processors.rs:945-972 | a well-typed entry is laid out as one 12-byte IFD record |
| Ifd.Records | src/exif/processors.rs:918-972 | the records of n entries take exactly 12·n bytes |
| Ifd.Overflow | src/exif/processors.rs:938-970 | the out-of-line value area holds exactly the bytes of every value longer than 4 bytes |
| Ifd.Tiff | src/exif/processors.rs:733-1006 | the TIFF block is the 8-byte header, the count, 12 bytes per entry, the 4-byte next-IFD pointer and then the overflow values |
| Ifd.App1 | src/exif/processors.rs:728-1012 | the APP1 segment is marker, length field, the 6-byte Exif header and the TIFF block |
| Ifd.RecordsAt | src/exif/processors.rs:918-972 | the k-th 12-byte record is entry k's record, pointing at the sum of the overflow sizes of the entries before it |
| Ifd.OverflowAt | src/exif/processors.rs:966-970 | a value longer than 4 bytes sits in the overflow area at the offset its record points at |
| Ifd.RecordFields | src/exif/processors.rs:945-972 | tag, type and count read back little-endian from the record's first 8 bytes |
| Ifd.ReadRecord | src/exif/processors.rs:945-972 | a reader that follows the record's offset recovers the entry exactly |
| Ifd.TiffParts | src/exif/processors.rs:733-1006 | the TIFF block carries "II*\0" with IFD offset 8, the entry count wrapped to 16 bits, the records and then the overflow |
| Ifd.RecordAt | src/exif/processors.rs:918-972 | in a laid-out TIFF block, record j is at byte 10 + 12·j |
| Ifd.ValueAt | src/exif/processors.rs:966-970 | in a laid-out TIFF block, entry j's long value is at the offset its record names |
| Ifd.ReadEach | src/exif/processors.rs:945-972 | each record of a laid-out TIFF block reads back as its entry when all offsets fit in 32 bits |
| Ifd.ReadEvery | src/exif/processors.rs:909-1006 | every record of a laid-out TIFF block reads back as its entry |
| Ifd.ReadAll | src/exif/processors.rs:909-972 | reading the remaining records from any point returns the remaining entries in order |
| Ifd.ParseLaid | src/exif/processors.rs:733-1006 | a TIFF block with the right header and count whose records and overflow are laid out parses to the entries |
| Ifd.ParseRead | src/exif/processors.rs:733-972 | a parse succeeds with the entries whenever header, count and every record read back |
| Ifd.TiffRoundTrip | src/exif/processors.rs:733-1006 | parsing the TIFF block built from fewer than 65536 well-formed entries whose offsets fit in 32 bits gives the entries back |
| Ifd.App1RoundTrip | src/exif/processors.rs:728-1012 | parsing an APP1 segment that fits its 16-bit length gives the entries back |
| Ifd.CountsFit | src/exif/processors.rs:951-958 | every entry of a segment under 64 KiB has a count that fits 32 bits, so the `unwrap_or(0)` fallback is never taken |
| Ifd.SegmentRoundTrip | src/exif/processors.rs:728-1012 | any well-typed list of entries whose segment stays under 64 KiB round-trips through the APP1 segment |
| Ifd.App1LengthField | src/exif/processors.rs:1009-1011 | the length field is the segment size minus the 2 marker bytes, or 0 once that exceeds 65535 |
| Ifd.ExtraSumBound | src/exif/processors.rs:966-970 | one entry's overflow never exceeds the total overflow |
| JpegRewrite.SegmentSpan | src/exif/processors.rs:62-64 | the big-endian length field plus the 2 marker bytes, so a skip always advances |
| JpegRewrite.SkipRun | src/exif/processors.rs:57-71 | what is left after skipping the leading APP1 segments is a suffix of the input that does not start with an APP1 marker |
| JpegRewrite.Rewrite | src/exif/processors.rs:50-74 | the rewrite fails with "Not a valid JPEG file" exactly when the file does not start with FF D8, and never panics |
| JpegRewrite.SetCreationDate | src/exif/processors.rs:36-78 | setting the date, with the date segment as written, fails exactly on a file without the start-of-image marker |
| JpegRewrite.SetCreationDateAsWritten | src/exif/processors.rs:36-78 | as written, setting the date fails exactly without FF D8, panics exactly where the APP1 skip runs past the end, and otherwise writes what JpegRewrite.SetCreationDate writes |
| JpegRewrite.ApplyExifWithIso | src/exif/processors.rs:664-708 | applying metadata fails exactly on a file without the start-of-image marker |
| JpegRewrite.ApplyExifWithIsoAsWritten | src/exif/processors.rs:664-708 | as written, applying fails exactly without FF D8, panics exactly where the APP1 skip runs past the end, and otherwise writes what JpegRewrite.ApplyExifWithIso writes |
| JpegRewrite.Scan | src/exif/processors.rs:270-286 | the copy that leaves out segments is never longer than what it copies from |
| JpegRewrite.EraseExif | src/exif/processors.rs:260-290 | erasing fails exactly on a file without FF D8; otherwise the result starts with FF D8 and is no longer than the input |
| JpegRewrite.ApplyExif | src/exif/processors.rs:213-257 | the copy-based apply fails exactly on a file without the start-of-image marker |
| JpegRewrite.EraseExifLoop | src/exif/processors.rs:260-290 | the index-walking loop computes the same outcome as the recursive erase |
| JpegRewrite.ScanAtSegment | src/exif/processors.rs:272-278 | at a listed marker the walk jumps over the whole segment, or stops copying when the jump passes the end |
| JpegRewrite.ScanAtShort | src/exif/processors.rs:271-278 | a listed marker within the last 3 bytes ends the copy |
| JpegRewrite.ScanAtByte | src/exif/processors.rs:281-282 | any other byte is copied and the walk moves on by one |
| JpegRewrite.SkipRunAgrees | src/exif/processors.rs:57-71 | wherever the source's skip loop does not panic it stops where the bounds-checked one does |
| JpegRewrite.ScanAgrees | src/exif/processors.rs:270-286 | wherever the source's copy loop does not panic it copies what the bounds-checked one does |
| JpegRewrite.RewriteAgrees | src/exif/processors.rs:50-74 | wherever the source's rewrite does not panic, it writes what the corrected one writes |
| JpegRewrite.EraseAgrees | src/exif/processors.rs:260-290 | wherever the source's erase does not panic, it writes what the corrected one writes |
| JpegRewrite.ApplyScanAgrees | src/exif/processors.rs:231-247 | wherever the source's copy-based apply does not panic, it writes what the corrected one writes |
| JpegRewrite.TruncatedApp1Panics | src/exif/processors.rs:57-63 | a file that ends inside or just after an APP1 marker makes the source panic, while the corrected rewrite writes the new segment |
| JpegRewrite.EraseTailPanics | src/exif/processors.rs:271-277 | an APP1 marker in a file's last two bytes makes the source's erase panic, while the corrected erase keeps the bytes before it |
| JpegRewrite.SegmentThenRest | src/exif/processors.rs:59-65 | a complete segment is recognised by its marker and skipping it lands exactly on what follows |
| JpegRewrite.SkipRunSegment | src/exif/processors.rs:57-71 | a leading APP1 segment is skipped as a whole |
| JpegRewrite.RewriteLayout | src/exif/processors.rs:50-72 | the output is FF D8, the new segment, then an unchanged suffix of the old file that does not start with APP1 |
| JpegRewrite.RewriteIdempotent | src/exif/processors.rs:50-74 | rewriting again with the same well-formed segment changes nothing |
| JpegRewrite.RewriteSoi | src/exif/processors.rs:50-72 | on a JPEG the output is FF D8, the segment, and the old file after the skipped APP1 run |
| JpegRewrite.SkipRunStops | src/exif/processors.rs:57-71 | nothing is skipped when the file does not continue with an APP1 segment |
| JpegRewrite.BuiltSegmentIsApp1 | src/exif/processors.rs:728-1012 | a built segment under 64 KiB is one complete APP1 segment |
| JpegRewrite.ApplyReadsBack | src/exif/processors.rs:664-708 | after applying, the APP1 segment behind FF D8 parses to the merged entries, and applying the same segment again changes nothing |
| JpegRewrite.SetDateReadsBack | src/exif/processors.rs:36-206 | after setting the date, the segment behind FF D8 parses to the copied ASCII fields and the three dates, and setting the same date again changes nothing |
| JpegRewrite.ScanDropsSegment | src/exif/processors.rs:272-278 | a complete listed segment is left out as a whole |
| JpegRewrite.EraseDropsSegment | src/exif/processors.rs:260-290 | an APP0 or APP1 segment right after FF D8 leaves no trace in the erased file |
| JpegRewrite.ScanKeepsPlain | src/exif/processors.rs:270-286 | a stretch without FF bytes is copied unchanged |
| ExifWriter.TrimZeros | src/exif/processors.rs:770 | the longest prefix not ending in a NUL, with only NULs cut off behind it |
| ExifWriter.StringEntry | src/exif/processors.rs:919-940 | one of the builder's own strings becomes an ASCII entry whose count is its UTF-8 length plus the terminator |
| ExifWriter.KeptStrings | src/exif/processors.rs:767-778 | the copies of an ASCII field are ASCII entries under the field's tag, non-empty, under 1000 bytes, without a trailing NUL, at most one per string |
| ExifWriter.OurStrings | src/exif/processors.rs:885-897 | Make, Model and Artist always, LensMake and LensModel only when a lens is selected |
| ExifWriter.IsoEntry | src/exif/processors.rs:976-982 | the ISO entry is tag 0x8827 and fits its SHORT count |
| ExifWriter.FocalEntry | src/exif/processors.rs:984-998 | the focal-length entry is tag 0x920A with one RATIONAL value |
| ExifWriter.FocalEntries | src/exif/processors.rs:902-906 | a focal-length entry exists exactly when a lens is selected and its focal length parses |
| ExifWriter.CreateMergedExifSegmentWithIso | src/exif/processors.rs:721-1015 | the merged segment is an APP1 segment whose size is the laid-out size of the merged entries |
| ExifWriter.CreateMergedExifSegment | src/exif/processors.rs:711-719 | without a shot ISO the segment parses back to the merged entries with the film's ISO, when the existing values are valid and it fits |
| ExifWriter.MergedEntries | src/exif/processors.rs:738-906 | every merged entry carries one of the builder's own tags or the number of a field already in the file; ExifWriter.MergedReadBack, ExifWriter.MergedLayout and ExifWriter.OverridesWin give the count, order and values |
| ExifWriter.DateStrings | src/exif/processors.rs:96-100 | the date builder writes exactly the three date tags |
| ExifWriter.CreateDateExifSegment | src/exif/processors.rs:81-206 | the date segment as written is an APP1 segment whose size is the laid-out size of the copied ASCII fields and the three dates |
| ExifWriter.CreateDateExifSegmentPreserving | src/exif/processors.rs:96-131 | the corrected date segment, every field but the dates copied, is an APP1 segment of the laid-out size of its entries |
| ExifWriter.DateEntriesAsWritten | src/exif/processors.rs:96-131 | every entry the date builder writes is an ASCII string; ExifWriter.DateReadBackAsWritten and ExifWriter.DateRewriteDropsOrientation say what it keeps and loses |
| ExifWriter.DateEntries | src/exif/processors.rs:96-131 | as intended, the copies before the three dates are fields of the file and never a date tag; ExifWriter.DateReadBack reads them back |
| ExifWriter.DateAsWrittenTyped | src/exif/processors.rs:136-190 | every entry of the date segment as written has a type the IFD writer knows, and fits its count when the old values are valid |
| ExifWriter.TypedEntryReadBack | src/exif/processors.rs:779-868 | a copied non-ASCII value keeps its type code, counts its elements, and decodes back to the same value |
| ExifWriter.EntriesTyped | src/exif/processors.rs:909-1000 | every merged entry has a type the IFD writer knows, and fits its count when the old values are valid |
| ExifWriter.DateEntriesTyped | src/exif/processors.rs:136-190 | every entry of the date segment has a type the IFD writer knows, and fits its count when the old values are valid |
| ExifWriter.MergedReadBack | src/exif/processors.rs:909-1012 | the entry count is our strings, the copies, the ISO entry and an optional focal entry, and the segment parses back to exactly those entries when it fits |
| ExifWriter.StringEntryReadBack | src/exif/processors.rs:919-940 | a written string ends in NUL and decodes, before it, to the original text |
| ExifWriter.IsoEntryReadBack | src/exif/processors.rs:976-982 | the ISO entry holds one SHORT: the ISO, or 0 when it exceeds 65535 |
| ExifWriter.FocalEntryReadBack | src/exif/processors.rs:984-998 | the focal length is written as the RATIONAL thousandths / 1000 |
| ExifWriter.PreservedTags | src/exif/processors.rs:755-873 | what is copied of a field carries that field's tag number and never a skipped tag |
| ExifWriter.PreservedAllTags | src/exif/processors.rs:752-875 | every copied entry comes from some existing field with that number and is never a skipped tag |
| ExifWriter.PreservedAllHas | src/exif/processors.rs:752-875 | nothing copied from a single field is lost from the full list of copies |
| ExifWriter.OverridesWin | src/exif/processors.rs:738-762 | the builder's own tags appear only where it wrote them, and its Make, Model, Artist and ISO values are the selection's |
| ExifWriter.CopiesNotOverridden | src/exif/processors.rs:755-762 | no copied entry carries one of the seven overridden tags |
| ExifWriter.MergedLayout | src/exif/processors.rs:884-982 | the entries start with Make, Model and Artist from the selection, and the ISO entry follows the copies |
| ExifWriter.MergeKeepsTyped | src/exif/processors.rs:779-868 | every valid non-ASCII field not overridden survives the merge and reads back as the same value |
| ExifWriter.KeptStringsMeaning | src/exif/processors.rs:767-778 | each copy is the NUL-trimmed form of a valid string, and every valid string that is non-empty and under 1000 bytes after trimming is copied |
| ExifWriter.DateReadBack | src/exif/processors.rs:96-206 | the corrected date segment ends with the three date strings, copies no date tag, and parses back to its entries when it fits |
| ExifWriter.DateReadBackAsWritten | src/exif/processors.rs:96-206 | the date segment as written holds the copied ASCII fields, none a date and all of type ASCII, then the three date strings, and parses back to them when it fits |
| ExifWriter.DatePreservedAscii | src/exif/processors.rs:117-128 | the date builder as written copies ASCII fields as the merged builder does and copies nothing else |
| ExifWriter.DateAsWrittenKeepsAsciiOnly | src/exif/processors.rs:106-131 | as written, the date builder agrees with the corrected copying on all-ASCII input and only ever keeps ASCII entries |
| ExifWriter.DateRewriteDropsOrientation | src/exif/processors.rs:118-131 | setting the date as written loses a SHORT Orientation field that the corrected copying keeps |
| ExifReadout.CharsWithin | src/exif/processors.rs:308-310 | the number of whole characters whose UTF-8 encoding fits in n bytes: one more would not fit |
| ExifReadout.LastBoundary | src/exif/processors.rs:308-310 | no character boundary at or below n lies beyond the cut the truncation uses |
| ExifReadout.Truncate | src/exif/processors.rs:307-311 | a value of at most 50 bytes is kept; a longer one becomes a prefix of at least 47 and at most 50 bytes followed by '…' |
| ExifReadout.BoundaryBackOff | src/exif/processors.rs:308-310 | backing off from byte 50 one byte at a time stops at the last character boundary, the one the truncation cuts at |
| ExifReadout.TruncateAgrees | src/exif/processors.rs:307-311 | wherever `String::truncate(50)` does not panic it gives the corrected truncation |
| ExifReadout.TruncateAscii | src/exif/processors.rs:307-311 | on ASCII text the truncation as written never panics and agrees with the corrected one |
| ExifReadout.TruncateSplitsCharacter | src/exif/processors.rs:308-310 | 49 letters and an 'é' make the truncation as written panic, while the corrected one keeps the 49 letters and adds '…' |
| ExifReadout.IptcRowShape | src/exif/processors.rs:392-400 | every IPTC row is named "IPTC: …" and holds a non-empty value of at most 53 bytes |
| ExifReadout.ParseIptc | src/exif/processors.rs:378-411 | every row parsed from a Photoshop resource is an IPTC row |
| ExifReadout.ParseIptcAgrees | src/exif/processors.rs:378-411 | wherever the source's record loop does not panic, it lists the rows the corrected loop lists |
| ExifReadout.IptcDataset | src/exif/processors.rs:383-389 | a dataset is the 0x1C marker, record, dataset, a 16-bit length and the value: 5 bytes more than the value (plus padding so the loop's 8-byte lookahead sees it) |
| ExifReadout.OneDataset | src/exif/processors.rs:381-403 | a single dataset with a non-blank value gives exactly its one row, named by `format_iptc_tag`, with the trimmed and truncated text |
| ExifReadout.IptcCutPanics | src/exif/processors.rs:390-399 | a caption of 49 letters and an 'é' makes the IPTC parser as written panic; the corrected one lists "IPTC: Caption/Abstract" with the letters and '…' |
| ExifReadout.CaptionText | src/exif/processors.rs:390 | the lossy decoding and trim of that caption is the 49 letters and the 'é' |
| ExifReadout.CaptionName | src/exif/processors.rs:400 | record 2, dataset 120 is listed as "IPTC: Caption/Abstract" |
| ExifReadout.App13Payload | src/exif/processors.rs:355-361 | the payload is the bytes after the length field up to the segment's end, present exactly when the length is at least 2 and the segment fits |
| ExifReadout.ScanApp13 | src/exif/processors.rs:352-372 | everything the APP13 scan lists is an IPTC row |
| ExifReadout.ReadIptcData | src/exif/processors.rs:346-375 | a file lists only IPTC rows, and a file of at most one byte lists none |
| ExifReadout.ScanApp13Agrees | src/exif/processors.rs:352-372 | wherever the source's scan does not panic, it lists the rows the corrected scan lists |
| ExifReadout.ReadIptcAgrees | src/exif/processors.rs:346-375 | wherever `read_iptc_data` does not panic, it returns the corrected rows |
| ExifReadout.ShortApp13Panics | src/exif/processors.rs:356-361 | an APP13 marker with a length field of 0 makes the scan as written panic, while the corrected scan lists nothing |
| ExifReadout.App13Found | src/exif/processors.rs:352-368 | an APP13 segment holding a Photoshop header lists its IPTC rows, and the scan goes on two bytes past the marker |
| ExifReadout.ExifRows | src/exif/processors.rs:303-332 | one row per EXIF field, in the fields' order |
| ExifReadout.ExifRowsAt | src/exif/processors.rs:303-331 | field i's row carries its formatted name with the IFD suffix and its formatted, truncated value |
| ExifReadout.ReadExif | src/exif/processors.rs:293-340 | the listing is sorted by name and is a permutation of the EXIF rows and the IPTC rows, one per field plus the IPTC rows |
| ExifReadout.ExifRowsNeverPanic | src/exif/processors.rs:303-332 | the EXIF rows never panic when the float and double texts are ASCII, because every other formatted value is ASCII |
| ExifReadout.ReadExifAgrees | src/exif/processors.rs:293-340 | the listing as written panics exactly when the APP13 scan does, and otherwise equals the corrected listing |
| ExifReadout.EveryFieldListed | src/exif/processors.rs:303-338 | every EXIF field's row is in the sorted listing |
| ExifReadout.FallbackNotTag | src/exif/processors.rs:326-327 | no name produced by the fallback formatter starts with "Tag(" |
| ExifReadout.UnknownNameNotPrefix | src/exif/processors.rs:326-328 | for a tag the crate does not name, its debug text contains "Tag(" and does not start with the formatted name, so the raw text is appended |
| ExifReadout.ExifRowNameMeaning | src/exif/processors.rs:314-331 | a row's name starts with the formatted tag name and its IFD suffix |
| ExifReadout.UnknownRowName | src/exif/processors.rs:326-328 | a tag the crate does not name is listed as name, IFD suffix and " [Tag(…)]" |
| ExifReadout.KnownRowName | src/exif/processors.rs:319-330 | a tag the crate names is listed as its formatted name and IFD suffix, nothing more |
| ExifReadout.IfdSuffixDistinguishes | src/exif/processors.rs:314-318 | the same tag in IFDs with different suffixes gets different row names |
| ExifManager.Dispatch | src/exif/exif_manager.rs:472-491 | a path without a supported extension fails with "Unsupported file type: " and the path |
| ExifManager.DispatchMeaning | src/exif/exif_manager.rs:472-514 | a path is dispatched exactly when the batch counts it as a supported image, JPEG to the JPEG processor, TIFF and DNG to the TIFF processor, raw formats to the sidecar writer |
| ExifManager.EligiblePaths | src/exif/exif_manager.rs:385-386 | only existing files with a supported image extension are processed, never more than were given |
| ExifManager.EligiblePathsAppend | src/exif/exif_manager.rs:385-386 | filtering a list in two parts gives the two filtered parts one after the other |
| ExifManager.RunOperation | src/exif/exif_manager.rs:400-404 | "apply" without a selection panics at the `unwrap`, "apply" and "erase" otherwise pass on the processor's report, panic included, and any other operation fails with "Unknown operation" |
| ExifManager.Record | src/exif/exif_manager.rs:387-419 | a result line is successful exactly when it carries no error, and records the error and the file's category |
| ExifManager.Reports | src/exif/exif_manager.rs:385-421 | one result line per processed file, unless the operation panics |
| ExifManager.Tally | src/exif/exif_manager.rs:402-418 | the counters add up to the number of result lines, which are kept as they are |
| ExifManager.TallyCounts | src/exif/exif_manager.rs:402-418 | processed counts the successful lines and failed counts the rest |
| ExifManager.Batch | src/exif/exif_manager.rs:377-442 | one line per eligible file; success exactly when a file was recorded, with "Processing completed" or the batch's empty-list message |
| ExifManager.ProcessFilesInternal | src/exif/exif_manager.rs:377-442 | the loop over the selected files computes the batch's result |
| ExifManager.RecordFiles | src/exif/exif_manager.rs:385-421 | the loop keeps its counters equal to the tally of the lines recorded so far, and completes exactly when no file panics |
| ExifManager.RecordOne | src/exif/exif_manager.rs:386-420 | one loop step extends the lines and counters by the file's line, skips an ineligible file, or stops on a panic |
| ExifManager.ReportsStop | src/exif/exif_manager.rs:392-396 | once a file panics, no later file can rescue the batch |
| ExifManager.ReportsInOrder | src/exif/exif_manager.rs:385-421 | the batch completes exactly when no file panics, and line k is file k's outcome |
| ExifManager.BatchPanics | src/exif/exif_manager.rs:390-421 | a batch panics exactly when, for some eligible file, "apply" has no selection or its processor panics, or "erase" panics; for "apply" without a selection, exactly when a file is eligible |
| ExifManager.ReportsPanic | src/exif/exif_manager.rs:390-421 | the result lines are missing exactly when the operation panics on one of the files |
| ExifManager.JpegReport | src/exif/processors.rs:664-708 | a JPEG processor's outcome as the manager sees it: a panic exactly when the processor panicked, success exactly when it wrote the file |
| ExifManager.TruncatedJpegStopsBatch | src/exif/processors.rs:57-71 | a JPEG that ends inside its first APP1 marker makes "apply" panic and with it the whole batch |
| ExifManager.TailMarkerStopsErase | src/exif/processors.rs:271-277 | a JPEG that ends in an APP1 marker makes "erase" panic and with it the whole batch |
| ExifManager.UnknownOperationFails | src/exif/exif_manager.rs:392-396 | an operation other than "apply" or "erase" fails every eligible file with "Unknown operation" and processes none |
| ExifManager.BatchCounts | src/exif/exif_manager.rs:402-418 | the processed counter equals the number of successful lines |
| ExifManager.WalkPaths | src/exif/exif_manager.rs:254-300 | the walk yields exactly the paths of its readable entries; unreadable ones are skipped |
| ExifManager.ProcessFolder | src/exif/exif_manager.rs:245-322 | a folder succeeds exactly when it holds an eligible file, and otherwise reports "No supported image files found" |
| ExifManager.CreationDateAsWritten | src/exif/exif_manager.rs:107-120 | a date is found exactly when some listing row names a date tag and parses; otherwise the "No valid creation date" error |
| ExifManager.FirstDate | src/exif/exif_manager.rs:111-117 | a date is found for a name exactly when a row of that name parses |
| ExifManager.CreationDate | src/exif/exif_manager.rs:110-119 | the intended order: a missing date is reported with the "No valid creation date" error (ExifManager.CreationDateOrder gives the order on every listing) |
| ExifManager.CreationDateFound | src/exif/exif_manager.rs:107-120 | the preference order finds a date on exactly the listings the code does, and it is the parsed value of a date row |
| ExifManager.CreationDateAsWrittenFirst | src/exif/exif_manager.rs:110-117 | as written, the date is the parsed value of the first dated row of the listing, whichever of the three names it has |
| ExifManager.FirstDateAt | src/exif/exif_manager.rs:111-117 | the date found for a name is the value of the first parseable row of that name |
| ExifManager.CreationDateOrder | src/exif/exif_manager.rs:110-119 | on every listing the intended date is the first parseable "Date/Time Original", failing that the first "Date/Time", failing that the first "Date/Time Digitized", and otherwise the "No valid creation date" error |
| ExifManager.FileDateWins | src/exif/exif_manager.rs:110-117 | on a sorted listing holding both "Date/Time" and "Date/Time Original", the code takes the file date while the intended order takes the original date |
| ExifManager.DateOf | src/exif/exif_manager.rs:107-120 | `get_creation_date` as written: a panic exactly when reading the listing panics, the listing's error passed on, and otherwise the first dated row of the listing |
| ExifManager.CheckIdenticalDates | src/exif/exif_manager.rs:79-104 | the loop answers ExifManager.IdenticalDatesCheck: false for one file or none, a panic at the first date read that panics after only dated files, and otherwise whether all dates are present and within one second of the first |
| ExifManager.NoPanicPast | src/exif/exif_manager.rs:86-92 | a file without a date ends the check before any later file is read, so no later panic is reached |
| ExifManager.CheckWhenAllDated | src/exif/exif_manager.rs:79-104 | when every file has a date the check never panics and answers whether the dates are identical |
| ExifManager.Staggered | src/exif/exif_manager.rs:151-160 | one write per remaining file |
| ExifManager.StaggeredAt | src/exif/exif_manager.rs:151-160 | the k-th remaining file is written at the start date plus k seconds |
| ExifManager.NameOrder | src/exif/exif_manager.rs:143-146 | the files sorted by file name, a permutation of the given ones |
| ExifManager.AdjustPlan | src/exif/exif_manager.rs:137-163 | no writes for no files, otherwise one write for every file but the first, or the first file's date error, or a panic reading that date |
| ExifManager.AdjustPlanMeaning | src/exif/exif_manager.rs:137-163 | the plan panics exactly when reading the first date in name order panics, exists exactly when that file has a date, and then writes every other file once, in name order, at the first date plus its position in seconds |
| ExifManager.StaggeredPlan | src/exif/exif_manager.rs:151-160 | the staggered writes cover all but the first file with dates base+1, base+2, … |
| ExifManager.PerformWrites | src/exif/exif_manager.rs:151-162 | the writes happen in order and stop at the first failure, whose error is returned; a panic exactly when a write panics after only successful ones |
| ExifManager.WritesStep | src/exif/exif_manager.rs:151-162 | after a successful first write, the plan reaches a panicking write exactly when the rest of it does |
| ExifManager.AdjustCreationDates | src/exif/exif_manager.rs:137-163 | a panic reading the first date or in a reached write ends it; a missing first date writes nothing; otherwise a prefix of the plan is written, all of it exactly when there is no error |
| ExifManager.DateStep | src/exif/exif_manager.rs:182-227 | dates are touched only for "apply" on more than one file with one-second mode not switched off; they are adjusted whenever the dates are identical and the adjustment does not panic, and never when they differ and the user declines; a panic only from the check or the adjustment |
| ExifManager.ProcessSelectedFiles | src/exif/exif_manager.rs:332-373 | the call panics exactly when the date step or the batch panics; otherwise the batch's result is the one it has without the date step, and an adjustment happens only for "apply" on more than one file |
| ExifManager.ListingPanicStopsAll | src/exif/exif_manager.rs:339-343 | a listing that panics for the first file stops a multi-file "apply" before any file is processed |
| ExifManager.DateWritePanicStopsAll | src/exif/exif_manager.rs:182-190 | with identical dates, a panic writing the second file's date stops the whole call before any file is processed |

## Left out

- File I/O (`fs::read`, `fs::write`, `File::open`, `is_file`), loading and saving the configuration, and printing. Files are byte sequences. `is_file` is a predicate parameter. Printed warnings have no effect on results.
- The exif crate's reader (`Reader::read_from_container`) is foreign code. Its output is an input list of fields (`ExifWriter.Field`, `ExifReadout.ExifField`), and a file without metadata has none.
- Floating point:
  - The `f32` parse of the focal length and `(f * 1000.0).abs() as u32` are a parameter `focalMilli`, constrained to fit 32 bits.
  - The `Display` text of `f32` and `f64` values is the pair of parameters `floatText` and `doubleText`. Float payloads are kept as opaque bit patterns.
- The TIFF processor (an image re-encode through the image crate) and the raw processor (XMP sidecar files on disk) are not modelled beyond the dispatch that selects them. Their XMP text, `Tags.CreateXmpMetadataWithIso`, is modelled.
- chrono parsing, formatting and the local time offset. A date is an integer number of seconds, and parsing a listing value is a parameter `parse`. Likewise `i64::try_from(index).unwrap_or(0)`, which cannot fail for an index of a list in memory.
- The interactive prompt is the boolean parameter `agree`. A prompt error counts as declining, which is how the code reaches the same path.
- UUID generation, `Utc::now` and serde. Identifiers are natural numbers supplied by the caller.
- The command line and interactive interface (`src/main.rs`, `src/cli.rs`, `src/interface.rs`, `src/prompts.rs`). `src/lib.rs` and `src/exif/mod.rs` only re-export.
- `walkdir`: the walk is a parameter. Unreadable entries are `None` and are skipped, as the code skips them after a warning.
- Unicode: `str::trim` is modelled on the full Unicode `White_Space` set, as Rust defines it. `to_lowercase` is modelled on ASCII letters only, because the extensions it is applied to are compared with ASCII lists. `from_utf8_lossy` is modelled in full, replacing each maximal invalid subpart by U+FFFD.
- ExifTags.TagText stands for both the `Display` and the `Debug` text of a tag. The crate prints a known tag the same way in both, and an unknown one as `Tag(context, number)`.
- Utils.CleanPath: requires that a lone `'` or `"` is not the whole trimmed input. On such an input the code slices `[1..0]` and panics.
- Bytes.WrapU16: states only that the result is below 65536 and that a count below 65536 is unchanged. That is all the layout lemmas need.
- Models.SetupDisplayName: returns the setup's name, which is all the source does, so it has no row.
- ExifValues.AsciiParts and ExifReadout.ExifRows carry their properties in the lemmas named in the table rather than in their own contracts.
- ExifValues.FormatExifValue: its own contract covers the ASCII arm only. The other arms are covered by the lemmas its row names.
- ExifManager.DateStep: the "prompt error counts as declining" case is the parameter `agree` being false. The warning printed when the step fails is not modelled.
- An ISO above 65535 is written as 0 (`u16::try_from(..).unwrap_or(0)`) and is not clamped to 65535. A segment longer than 65535 bytes gets the length field 0. The model follows the code in both cases.

## Findings

| source | as written | input that shows it | evidently intended | confidence | as-written member | corrected member |
|---|---|---|---|---|---|---|
| src/exif/processors.rs:396-398 | `display_value.truncate(50)` panics when byte 50 falls inside a multi-byte character | an IPTC caption (record 2, dataset 120) of 49 `a` followed by `é`: 51 bytes, cut inside the `é` | cut at the last character boundary at or below 50 bytes, then append '…' | not executed | ExifReadout.ParseIptcAsWritten (ExifReadout.IptcCutPanics) | ExifReadout.ParseIptc (ExifReadout.ParseIptcAgrees) |
| src/exif/processors.rs:356-361 | an APP13 segment whose length field is 0 or 1 gives `segment_end < i + 4`, and the slice `data[i + 4..segment_end]` panics | the bytes FF ED 00 00 00 | skip such a segment like one that does not fit | not executed | ExifReadout.ReadIptcAsWritten (ExifReadout.ShortApp13Panics) | ExifReadout.ReadIptcData (ExifReadout.ReadIptcAgrees) |
| src/exif/processors.rs:57-71 | the APP1 skip reads the length bytes at i+2 and i+3 without a bounds check, and `original_data[i..]` panics once a length jumps past the end | FF D8 FF E1 00 10 (a length running past the end) and FF D8 FF E1 (no length bytes) | stop skipping when the segment is cut off and write just the new segment | not executed | JpegRewrite.RewriteAsWritten (JpegRewrite.TruncatedApp1Panics) | JpegRewrite.Rewrite (JpegRewrite.RewriteAgrees) |
| src/exif/processors.rs:271-277 | the erase loop reads the length bytes of an APP0/APP1 marker found in the last two or three bytes of the file out of bounds | FF D8 00 FF E1 | stop at a segment header that is cut off, keeping the bytes before it | not executed | JpegRewrite.EraseExifAsWritten (JpegRewrite.EraseTailPanics) | JpegRewrite.EraseExif (JpegRewrite.EraseAgrees) |
| src/exif/processors.rs:118-131 | the date writer copies only ASCII fields: its branch for every other value is empty, although its comment promises to preserve the other fields | a JPEG whose only field is Orientation = 1 (SHORT): setting the date drops it | copy non-ASCII fields as the merged writer does | not executed | ExifWriter.DateEntriesAsWritten (ExifWriter.DateRewriteDropsOrientation), used by ExifWriter.CreateDateExifSegment and JpegRewrite.SetCreationDate | ExifWriter.CreateDateExifSegmentPreserving (ExifWriter.DateReadBack) |
| src/exif/exif_manager.rs:110-117 | the comment says DateTimeOriginal is tried first, but the loop takes the first date row of the listing, and the listing is sorted by name, so "Date/Time" comes before "Date/Time Original" | a file with both DateTime and DateTimeOriginal set to different parseable dates: the file date wins | prefer "Date/Time Original", then "Date/Time", then "Date/Time Digitized" | not executed | ExifManager.CreationDateAsWritten (ExifManager.FileDateWins), used by ExifManager.DateOf | ExifManager.CreationDate (ExifManager.CreationDateOrder) |
