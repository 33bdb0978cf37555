/**
 * The `/analyze` request handler (`analyze_photo`): three ordered
 * validations that reject with HTTP 400 before anything is written, the
 * upload stored under a fresh name, the image decoded (HTTP 500 when it
 * cannot be), and a location taken from the EXIF GPS data or, without it,
 * a fixed demo location.
 *
 * The random token (`uuid4().hex`) and the name sanitiser
 * (`secure_filename`) are parameters; the upload directory is the object
 * UploadFolder, which records the names written to it.
 */
module PhotoAnalysis {
  import opened Wrappers
  import opened UploadCheck
  import opened GpsExif

  const PHOTO_FIELD := "photo"
  const NO_FILE_ERROR := "Файл не выбран"
  const FORMAT_ERROR := "Неподдерживаемый формат файла. Используйте JPG, PNG, GIF"
  const PROCESSING_ERROR_PREFIX := "Ошибка обработки: "

  /** The fallback location (Moscow) reported for a photo without GPS data. */
  const DEMO_LATITUDE: real := 55.7558
  const DEMO_LONGITUDE: real := 37.6176

  /** One file field of the multipart form: the client's file name and the bytes, as an image. */
  datatype Upload = Upload(filename: string, content: ImageFile)

  /** The request as the handler sees it: its file fields by name. */
  datatype Request = Request(files: map<string, Upload>)

  datatype Source = GpsExifSource | DemoSource

  /** The `location` object; the demo location carries no altitude. */
  datatype Location = Location(latitude: real, longitude: real, altitude: Option<GpsValue>, source: Source)

  datatype ImageInfo = ImageInfo(width: nat, height: nat, format: string)

  /**
   * The JSON answer. A success carries the stored name, the image info, the
   * location, and the coordinates its OpenStreetMap link points at.
   */
  datatype Response =
    | BadRequest(error: string)
    | ServerError(error: string)
    | Success(filename: string, imageInfo: ImageInfo, location: Location, mapAt: (real, real))
  {
    function Status(): (code: int)
      ensures code == 400 || code == 500 || code == 200
      ensures code == 200 <==> Success?
    {
      match this
      case BadRequest(_) => 400
      case ServerError(_) => 500
      case Success(_, _, _, _) => 200
    }
  }

  /** The answer together with the name of the file written, if one was. */
  datatype Outcome = Outcome(response: Response, saved: Option<string>)

  /** The upload directory: the names written to it, oldest first. */
  class UploadFolder {
    var stored: seq<string>

    constructor ()
      ensures stored == []
    {
      stored := [];
    }

    method Save(name: string)
      modifies this
      ensures stored == old(stored) + [name]
    {
      stored := stored + [name];
    }
  }

  /**
   * `f"{token}_{secure_filename(filename)}"`: the token, an underscore, then
   * the sanitised name.
   */
  function StoredName(token: string, secure: string -> string, filename: string): (name: string)
    ensures |name| == |token| + 1 + |secure(filename)|
    ensures name[..|token|] == token && name[|token|] == '_'
    ensures name[|token| + 1..] == secure(filename)
  {
    token + "_" + secure(filename)
  }

  /** Tokens of one length that differ give stored names that differ, whatever the file names. */
  lemma StoredNamesDistinct(t1: string, t2: string, secure: string -> string, f1: string, f2: string)
    requires |t1| == |t2| && t1 != t2
    ensures StoredName(t1, secure, f1) != StoredName(t2, secure, f2)
  {
  }

  /** The location block: the decoded fix copied through, or the demo location. */
  function LocationOf(gps: Option<GpsFix>): (loc: Location)
    ensures loc.source == DemoSource <==> gps.None?
    ensures loc.altitude.Some? <==> gps.Some?
    ensures gps.Some? ==> (loc.latitude, loc.longitude) == (gps.value.latitude, gps.value.longitude)
  {
    match gps
    case Some(fix) => Location(fix.latitude, fix.longitude, Some(fix.altitude), GpsExifSource)
    case None => Location(DEMO_LATITUDE, DEMO_LONGITUDE, None, DemoSource)
  }

  /** What `analyze_photo` answers and writes for a request. */
  function Analyze(req: Request, token: string, secure: string -> string, tables: TagTables): (out: Outcome)
    ensures out.saved.Some? ==>
      && PHOTO_FIELD in req.files
      && AllowedFile(req.files[PHOTO_FIELD].filename)
      && out.saved.value == StoredName(token, secure, req.files[PHOTO_FIELD].filename)
    ensures out.response.Success? ==> out.saved == Some(out.response.filename)
    ensures out.response.Status() == 500 ==> out.saved.Some?
  {
    if PHOTO_FIELD !in req.files then Outcome(BadRequest(NO_FILE_ERROR), None)
    else
      var file := req.files[PHOTO_FIELD];
      if file.filename == "" then Outcome(BadRequest(NO_FILE_ERROR), None)
      else if !AllowedFile(file.filename) then Outcome(BadRequest(FORMAT_ERROR), None)
      else
        var name := StoredName(token, secure, file.filename);
        match file.content
        case Undecodable(reason) => Outcome(ServerError(PROCESSING_ERROR_PREFIX + reason), Some(name))
        case Decoded(width, height, format, _) =>
          var location := LocationOf(GpsFromImage(file.content, tables));
          Outcome(
            Success(name, ImageInfo(width, height, format), location, (location.latitude, location.longitude)),
            Some(name))
  }

  /**
   * The three rejections, in their order: a missing photo field or an empty
   * file name gives the "no file" message, otherwise a refused extension
   * gives the format message; a rejection writes nothing, and every other
   * answer follows a write.
   */
  lemma ValidationOrder(req: Request, token: string, secure: string -> string, tables: TagTables)
    ensures var out := Analyze(req, token, secure, tables);
      && (out.response == BadRequest(NO_FILE_ERROR) <==>
            PHOTO_FIELD !in req.files || req.files[PHOTO_FIELD].filename == "")
      && (out.response == BadRequest(FORMAT_ERROR) <==>
            PHOTO_FIELD in req.files && req.files[PHOTO_FIELD].filename != "" &&
            !AllowedFile(req.files[PHOTO_FIELD].filename))
      && (out.response.Status() == 400 <==> out.saved.None?)
  {
  }

  /**
   * A decodable photo that passed validation gets a success naming the
   * stored file; an undecodable one gets a 500 whose message carries the
   * decoder's text.
   */
  lemma AcceptedUploadOutcome(req: Request, token: string, secure: string -> string, tables: TagTables)
    requires PHOTO_FIELD in req.files
    requires AllowedFile(req.files[PHOTO_FIELD].filename)
    ensures var out, file := Analyze(req, token, secure, tables), req.files[PHOTO_FIELD];
      && out.saved == Some(StoredName(token, secure, file.filename))
      && (file.content.Undecodable? ==>
            out.response == ServerError(PROCESSING_ERROR_PREFIX + file.content.reason))
      && (file.content.Decoded? ==>
            out.response.Success? && out.response.filename == out.saved.value &&
            out.response.imageInfo == ImageInfo(file.content.width, file.content.height, file.content.format))
  {
  }

  /**
   * Without GPS data the location is the demo one; with it, latitude,
   * longitude and altitude are the decoder's, unchanged. Either way the map
   * link points at the reported location.
   */
  lemma LocationSelection(req: Request, token: string, secure: string -> string, tables: TagTables)
    ensures var out := Analyze(req, token, secure, tables);
      out.response.Success? ==>
        var gps := GpsFromImage(req.files[PHOTO_FIELD].content, tables);
        && out.response.mapAt == (out.response.location.latitude, out.response.location.longitude)
        && (gps.None? ==> out.response.location == Location(DEMO_LATITUDE, DEMO_LONGITUDE, None, DemoSource))
        && (gps.Some? ==>
              && out.response.location.source == GpsExifSource
              && out.response.location.latitude == gps.value.latitude
              && out.response.location.longitude == gps.value.longitude
              && out.response.location.altitude == Some(gps.value.altitude))
  {
  }

  /** The handler: validate, save, decode, then assemble the answer. */
  method AnalyzePhoto(req: Request, token: string, secure: string -> string, tables: TagTables, folder: UploadFolder)
    returns (response: Response)
    modifies folder
    ensures response == Analyze(req, token, secure, tables).response
    ensures var saved := Analyze(req, token, secure, tables).saved;
      folder.stored == old(folder.stored) + (if saved.Some? then [saved.value] else [])
  {
    if PHOTO_FIELD !in req.files {
      return BadRequest(NO_FILE_ERROR);
    }
    var file := req.files[PHOTO_FIELD];
    if file.filename == "" {
      return BadRequest(NO_FILE_ERROR);
    }
    if !AllowedFile(file.filename) {
      return BadRequest(FORMAT_ERROR);
    }
    var uniqueName := StoredName(token, secure, file.filename);
    folder.Save(uniqueName);
    if file.content.Undecodable? {
      return ServerError(PROCESSING_ERROR_PREFIX + file.content.reason);
    }
    var info := ImageInfo(file.content.width, file.content.height, file.content.format);
    var gps := GetGpsFromExif(file.content, tables);
    var location := LocationOf(gps);
    response := Success(uniqueName, info, location, (location.latitude, location.longitude));
  }
}
