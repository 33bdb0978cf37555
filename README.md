# PhotoLocator upload and GPS decoding, in Dafny

PhotoLocator is a small Flask service. A client posts a photo to `/analyze`.
The service checks the upload's name, stores the file under a fresh name and
reads the image's size and format. It then looks for a GPS position in the
image's EXIF metadata. The answer carries that position, or a fixed demo
location in Moscow when the photo has none. Everything the service does
lives in `app.py`. This project models its three pieces of logic:

- `upload_check.dfy` (module `UploadCheck`) models `allowed_file`. It takes
  the text after the last dot, lower-cases it and tests it against
  `{png, jpg, jpeg, gif}`.
- `gps_exif.dfy` (module `GpsExif`) models `get_gps_from_exif` with its inner
  `convert_to_degrees`. It covers the scan over the EXIF entries, the loop
  that names the GPS tags, the degree/minute/second conversion
  `d + m/60 + s/3600`, the sign flips for 'S' and 'W', and the altitude
  default. The image library is abstract. What it reports about a file is
  the value `ImageFile`. Its two tag-name tables are the parameter
  `TagTables`. Dictionary iteration order is the order of a sequence.
  Every exception the source catches becomes `None`.
- `photo_analysis.dfy` (module `PhotoAnalysis`) models `analyze_photo`. It
  has three ordered rejections (HTTP 400) before anything is written. Then
  the upload is saved and decoded (HTTP 500 when decoding fails). Last, the
  location is chosen: the decoder's, with source `gps_exif`, or the demo
  location (55.7558, 37.6176) with source `demo`. The upload directory is
  the class `UploadFolder`. The random token and `secure_filename` are
  parameters.
- `wrappers.dfy` (module `Wrappers`) holds the `Option` type.

Coordinates are Dafny `real`s. EXIF stores them as rationals, and the model
computes the exact rational value that the source approximates in floating
point.

Three facts about the code shape the model. The GPS location's source string
is `gps_exif`. The altitude is GPSAltitude passed through unchanged, with
GPSAltitudeRef ignored. Latitude and longitude are not range-checked.

## Model

| member | source | states |
|---|---|---|
| `UploadCheck.LowerChar` | app.py:38 | `.lower()` on one character: an upper-case ASCII letter becomes the same letter in lower case, any other character is unchanged |
| `UploadCheck.Lower` | app.py:38 | `.lower()` on the extension: same length, and each character is lower-cased on its own in place, so no upper-case letter is left and every other character stays where it was |
| `UploadCheck.LastIndexOf` | app.py:38 | the position `rsplit('.', 1)` splits at: it holds a dot, no dot follows it, and it is -1 exactly when there is no dot |
| `UploadCheck.Extension` | app.py:37-38 | the extension is absent exactly when the name has no dot; otherwise it is dot-free and the name is some stem, a dot, then the extension |
| `UploadCheck.AllowedFile` | app.py:36-38 | judged on the `rsplit` extension; a name without a dot is never accepted |
| `UploadCheck.ExtensionOfJoin` | app.py:38 | for `stem + "." + ext` with a dot-free `ext`, the extension is `ext`, whatever the stem holds (dots included) |
| `UploadCheck.AllowedFileIff` | app.py:36-38 | a name with a dot is accepted if and only if its lower-cased last extension is one of png, jpg, jpeg, gif |
| `UploadCheck.AllowedFileIgnoresCase` | app.py:38 | a name and its lower-cased form get the same verdict |
| `UploadCheck.AcceptsLastExtensionAnyCase` | app.py:38 | `a.tar.JPG` is accepted |
| `UploadCheck.RejectsInnerExtension` | app.py:38 | `x.jpg.txt` is refused |
| `UploadCheck.RejectsEmptyExtension` | app.py:38 | `photo.` (empty extension) is refused |
| `GpsExif.TagOf` | app.py:50 | the `.get(id, id)` lookup: `table[id]` exactly when the table knows the id, the id itself otherwise |
| `GpsExif.NamedTags` | app.py:52-55 | the `gps_info` dictionary: every entry's name is a key, and every key is the name of some entry |
| `GpsExif.NamedTagsLastWins` | app.py:52-55 | the value under a tag is that of the last entry carrying the tag |
| `GpsExif.CollectGpsInfo` | app.py:52-55 | the loop fills `gps_info` with exactly the named-tag dictionary of the block |
| `GpsExif.Degrees` | app.py:57-61 | `convert_to_degrees`: fails exactly for text and for a tuple whose length is not 3; a number is taken as it is; a triple with whole minutes below 60 and seconds below 60 lands within its whole degree |
| `GpsExif.Sexagesimal` | app.py:57-60 | the EXIF encoding that `convert_to_degrees` inverts: whole degrees, whole minutes below 60, seconds below 60 |
| `GpsExif.DegreesOfSexagesimal` | app.py:57-60 | converting the degree/minute/second encoding of any non-negative angle gives that angle back |
| `GpsExif.SexagesimalOfDegrees` | app.py:57-60 | a normalised triple converts to `d + m/60 + s/3600`, and encoding that value gives back the same triple |
| `GpsExif.MoscowCentreExample` | app.py:57-60 | (55, 45, 30) converts to about 55.758333 and (37, 37, 3.6) to about 37.6177, within 1e-4 |
| `GpsExif.DecodeFix` | app.py:63-76 | with both coordinates present, a fix exists exactly when both convert, and each coordinate has the converted magnitude |
| `GpsExif.DecodeFixCharacterised` | app.py:64-75 | each coordinate is negated exactly for reference 'S' / 'W' and left as converted otherwise; altitude is GPSAltitude, or 0 when absent |
| `GpsExif.DecodeGpsInfo` | app.py:64-76 | the statements with their in-place sign flips compute exactly `DecodeFix` |
| `GpsExif.ScanExif` | app.py:49-80 | the scan over the EXIF entries; with no entry named GPSInfo there is no position |
| `GpsExif.GpsFromImage` | app.py:42-80 | an unopenable file, missing EXIF or empty EXIF gives no position; a position needs a decoded image with EXIF entries |
| `GpsExif.FixOnlyWithBothCoordinates` | app.py:49-80 | a position is produced only from a GPSInfo entry whose dictionary holds both GPSLatitude and GPSLongitude, and it is that entry's decoded fix |
| `GpsExif.FirstCompleteBlockDecides` | app.py:49-76 | the first GPSInfo entry holding both coordinates decides the result, when no earlier GPSInfo value is a non-dictionary |
| `GpsExif.GetGpsFromExif` | app.py:40-80 | the scan over `exif_data.items()` returns exactly the position the EXIF entries determine; an undecodable file or missing EXIF gives None |
| `PhotoAnalysis.StoredName` | app.py:112-113 | the stored name is the token, an underscore, then the sanitised name |
| `PhotoAnalysis.StoredNamesDistinct` | app.py:111-114 | two uploads stored with different tokens of one length get different names, even with the same original file name |
| `PhotoAnalysis.ValidationOrder` | app.py:98-109 | missing field, then empty name, give the "no file" 400; otherwise a refused extension gives the format 400; a 400 writes nothing and every other answer follows a write |
| `PhotoAnalysis.AcceptedUploadOutcome` | app.py:111-160 | an accepted upload is saved under token_securename; an undecodable image gives a 500 carrying the error text; a decodable one gives a success with its size and format |
| `PhotoAnalysis.LocationOf` | app.py:137-154 | the source is demo exactly when there is no GPS fix, an altitude is present exactly when there is one, and a fix's coordinates are copied |
| `PhotoAnalysis.Analyze` | app.py:95-160 | a file is saved only for a present photo with an accepted name, under token_securename; a success names the saved file; a 500 follows a save |
| `PhotoAnalysis.LocationSelection` | app.py:137-154 | without GPS data the location is the demo (55.7558, 37.6176) with no altitude; with it, latitude, longitude and altitude are copied unchanged with source gps_exif; the map link points at the location |
| `PhotoAnalysis.AnalyzePhoto` | app.py:95-160 | the handler answers as `Analyze` does and appends to the upload folder exactly the one name that `Analyze` says was written |
| `PhotoAnalysis.UploadFolder.Save` | app.py:115 | saving appends the name to the folder's contents |

## Left out

- Flask routing, CORS, the cache-control headers, the 404 and 500 handlers, `/health` with its timestamp, logging and the environment configuration: framework glue and wall-clock input.
- `Image.open`, `img._getexif()`, `img.size`, `img.format` and the `ExifTags.TAGS` / `GPSTAGS` tables: foreign library calls. Their results are the inputs `ImageFile` and `TagTables`.
- `secure_filename` and `uuid.uuid4()`: foreign sanitiser and randomness. They are the parameters `secure` and `token`; that the random token differs between requests is an assumption of `StoredNamesDistinct`, not something the model produces.
- `os.path.join`, `file.save` and `os.makedirs`: file-system I/O. The folder is the list of names it holds, not the bytes written.
- The `MAX_CONTENT_LENGTH` cap: the framework enforces it before the handler runs.
- The catch-all at the end of `analyze_photo` is modelled for one exception only, the image that cannot be decoded. Every other exception raised inside its `try` is not modelled, so the model answers success where the source would answer 500. These include failures of `file.save` and of the foreign sanitiser. They also include `jsonify(response)` failing to serialise the raw GPSAltitude value, which with some versions of the image library is a rational object rather than a plain number.
- The `address` and `note` strings and the text of `map_url`: float-to-string formatting. The map link is modelled by the coordinates it points at.
- Floating point: the model computes with exact reals. Python's rounding in `d + m/60.0 + s/3600.0` is not modelled.
- Lower: only 'A' to 'Z' are lower-cased, where Python's `str.lower()` covers all of Unicode. No other character lower-cases to exactly one of the letters in png, jpg, jpeg or gif, so acceptance is the same.
- Degrees: a coordinate stored as text is always a conversion failure. Python's `float()` would accept text that spells a number.
- Degrees: tuple elements are numbers. Older image libraries store each element as a (numerator, denominator) pair, on which the source's arithmetic raises.
- An upload whose file name is missing altogether (`None` rather than a string) is not modelled: names are strings.
- A GPSInfo value that is not a dictionary ends the scan with no position (the source's iteration over it raises). Values that are iterable but not dictionaries are not distinguished.
