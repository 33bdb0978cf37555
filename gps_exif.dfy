/**
 * Extraction of a GPS position from an image's EXIF metadata
 * (`get_gps_from_exif` with its inner `convert_to_degrees`).
 *
 * The image library is not modelled: what it reports about a stored file
 * is the value ImageFile, and its two tag-name tables are the parameter
 * TagTables. Every exception raised while reading the metadata is caught
 * by the source and turned into "no GPS data"; here that is None.
 */
module GpsExif {
  import opened Wrappers

  /** A raw value of the GPS block: a tuple of rationals, one number, or text. */
  datatype GpsValue = Rationals(parts: seq<real>) | Number(x: real) | Text(s: string)

  /**
   * A tag after the lookup `TABLE.get(id, id)`: the table's name for the id,
   * or the numeric id itself when the table does not know it.
   */
  datatype Tag = Named(name: string) | Unnamed(id: int)

  /** A value of the top-level EXIF dictionary: a GPS sub-dictionary, or anything else. */
  datatype ExifValue = GpsIfd(entries: seq<(int, GpsValue)>) | Plain

  /** The library's tables from EXIF tag ids and GPS tag ids to tag names. */
  datatype TagTables = TagTables(exifTags: map<int, string>, gpsTags: map<int, string>)

  /**
   * A stored upload as the image library sees it: either it cannot be
   * decoded (with the exception's text), or it has a size, a format and
   * EXIF entries in dictionary order (None when the image has no EXIF
   * dictionary or reading it raises).
   */
  datatype ImageFile =
    | Undecodable(reason: string)
    | Decoded(width: nat, height: nat, format: string, exif: Option<seq<(int, ExifValue)>>)

  /** A decoded position: signed decimal degrees and the raw altitude value. */
  datatype GpsFix = GpsFix(latitude: real, longitude: real, altitude: GpsValue)

  const GPS_INFO: Tag := Named("GPSInfo")
  const LATITUDE: Tag := Named("GPSLatitude")
  const LATITUDE_REF: Tag := Named("GPSLatitudeRef")
  const LONGITUDE: Tag := Named("GPSLongitude")
  const LONGITUDE_REF: Tag := Named("GPSLongitudeRef")
  const ALTITUDE: Tag := Named("GPSAltitude")

  /** `table.get(id, id)`: the table's name when it has one, the id itself otherwise. */
  function TagOf(id: int, table: map<int, string>): (t: Tag)
    ensures t.Named? <==> id in table
    ensures t.Named? ==> t.name == table[id]
    ensures t.Unnamed? ==> t.id == id
  {
    if id in table then Named(table[id]) else Unnamed(id)
  }

  /**
   * The dictionary `gps_info` built from a GPS block: each entry is stored
   * under its looked-up name, a later entry overwriting an earlier one.
   */
  function NamedTags(block: seq<(int, GpsValue)>, table: map<int, string>): (info: map<Tag, GpsValue>)
    ensures forall t :: t in info ==> exists i :: 0 <= i < |block| && TagOf(block[i].0, table) == t
    ensures forall i :: 0 <= i < |block| ==> TagOf(block[i].0, table) in info
  {
    if block == [] then map[]
    else
      var last := block[|block| - 1];
      NamedTags(block[..|block| - 1], table)[TagOf(last.0, table) := last.1]
  }

  /** The value stored under a name is that of the last entry carrying the name. */
  lemma {:induction false} NamedTagsLastWins(block: seq<(int, GpsValue)>, table: map<int, string>, i: nat)
    requires i < |block|
    requires forall j :: i < j < |block| ==> TagOf(block[j].0, table) != TagOf(block[i].0, table)
    ensures TagOf(block[i].0, table) in NamedTags(block, table)
    ensures NamedTags(block, table)[TagOf(block[i].0, table)] == block[i].1
  {
    if i < |block| - 1 {
      var init := block[..|block| - 1];
      assert init[i] == block[i];
      forall j | i < j < |init|
        ensures TagOf(init[j].0, table) != TagOf(init[i].0, table)
      {
        assert init[j] == block[j];
      }
      NamedTagsLastWins(init, table, i);
    }
  }

  /** The loop that fills `gps_info` entry by entry. */
  method CollectGpsInfo(block: seq<(int, GpsValue)>, table: map<int, string>)
    returns (info: map<Tag, GpsValue>)
    ensures info == NamedTags(block, table)
  {
    info := map[];
    for i := 0 to |block|
      invariant info == NamedTags(block[..i], table)
    {
      assert block[..i + 1][..i] == block[..i];
      info := info[TagOf(block[i].0, table) := block[i].1];
    }
    assert block[..|block|] == block;
  }

  /** Whole minutes below 60 and seconds below 60, as a normalised angle has them. */
  predicate IsMinuteSecond(m: real, sec: real)
  {
    m == m.Floor as real && 0.0 <= m < 60.0 && 0.0 <= sec < 60.0
  }

  /**
   * `convert_to_degrees`: a degree/minute/second triple becomes
   * d + m/60 + s/3600, a single number is taken as it is. None stands for
   * the exception raised by unpacking a tuple whose length is not 3, or by
   * `float` applied to text.
   */
  function Degrees(v: GpsValue): (r: Option<real>)
    ensures r.None? <==> v.Text? || (v.Rationals? && |v.parts| != 3)
    ensures v.Number? ==> r == Some(v.x)
    ensures v.Rationals? && |v.parts| == 3 && IsMinuteSecond(v.parts[1], v.parts[2]) ==>
      v.parts[0] <= r.value < v.parts[0] + 1.0
  {
    match v
    case Rationals(parts) =>
      if |parts| == 3 then Some(parts[0] + parts[1] / 60.0 + parts[2] / 3600.0) else None
    case Number(x) => Some(x)
    case Text(_) => None
  }

  /**
   * The encoding the EXIF GPS tags use for an angle: whole degrees, whole
   * minutes below 60, and the seconds that remain, below 60.
   */
  function Sexagesimal(x: real): (parts: seq<real>)
    requires 0.0 <= x
    ensures |parts| == 3
    ensures parts[0] == parts[0].Floor as real && 0.0 <= parts[0] <= x
    ensures parts[1] == parts[1].Floor as real && 0.0 <= parts[1] < 60.0
    ensures 0.0 <= parts[2] < 60.0
  {
    var d := x.Floor as real;
    var minutes := (x - d) * 60.0;
    var m := minutes.Floor as real;
    [d, m, (minutes - m) * 60.0]
  }

  /** Decoding the sexagesimal encoding of an angle gives the angle back. */
  lemma DegreesOfSexagesimal(x: real)
    requires 0.0 <= x
    ensures Degrees(Rationals(Sexagesimal(x))) == Some(x)
  {
  }

  /**
   * A normalised triple (whole degrees, whole minutes below 60, seconds
   * below 60) decodes to the angle whose encoding is that same triple:
   * the decoding loses nothing.
   */
  lemma SexagesimalOfDegrees(d: nat, m: nat, s: real)
    requires m < 60 && 0.0 <= s < 60.0
    ensures Degrees(Rationals([d as real, m as real, s])) == Some(d as real + m as real / 60.0 + s / 3600.0)
    ensures Sexagesimal(d as real + m as real / 60.0 + s / 3600.0) == [d as real, m as real, s]
  {
    var x := d as real + m as real / 60.0 + s / 3600.0;
    var frac := m as real / 60.0 + s / 3600.0;
    assert frac < 1.0;
    assert x.Floor == d;
    var minutes := (x - d as real) * 60.0;
    assert minutes == m as real + s / 60.0;
    assert minutes.Floor == m;
    assert (minutes - m as real) * 60.0 == s;
  }

  /** A known position: 55°45'30" N and 37°37'3.6" E decode to about 55.758333 and 37.6177. */
  lemma MoscowCentreExample()
    ensures Degrees(Rationals([55.0, 45.0, 30.0])).Some?
    ensures -0.0001 <= Degrees(Rationals([55.0, 45.0, 30.0])).value - 55.758333 <= 0.0001
    ensures Degrees(Rationals([37.0, 37.0, 3.6])).Some?
    ensures -0.0001 <= Degrees(Rationals([37.0, 37.0, 3.6])).value - 37.6177 <= 0.0001
  {
  }

  /** `gps_info.get(ref) == hemisphere`. */
  predicate RefIs(info: map<Tag, GpsValue>, ref: Tag, hemisphere: string)
  {
    ref in info && info[ref] == Text(hemisphere)
  }

  function Abs(x: real): (a: real)
    ensures a >= 0.0 && (a == x || a == -x)
  {
    if x < 0.0 then -x else x
  }

  /**
   * The position decoded from a GPS dictionary holding both coordinates:
   * each is converted, the latitude negated for a southern and the
   * longitude for a western reference, and the altitude defaults to 0.
   * None when a conversion raises.
   */
  function DecodeFix(info: map<Tag, GpsValue>): (fix: Option<GpsFix>)
    requires LATITUDE in info && LONGITUDE in info
    ensures fix.Some? <==> Degrees(info[LATITUDE]).Some? && Degrees(info[LONGITUDE]).Some?
    ensures fix.Some? ==>
      && Abs(fix.value.latitude) == Abs(Degrees(info[LATITUDE]).value)
      && Abs(fix.value.longitude) == Abs(Degrees(info[LONGITUDE]).value)
  {
    match (Degrees(info[LATITUDE]), Degrees(info[LONGITUDE]))
    case (Some(lat), Some(lon)) =>
      Some(GpsFix(
        if RefIs(info, LATITUDE_REF, "S") then -lat else lat,
        if RefIs(info, LONGITUDE_REF, "W") then -lon else lon,
        if ALTITUDE in info then info[ALTITUDE] else Number(0.0)))
    case _ => None
  }

  /**
   * Each coordinate is negated exactly for the 'S' (latitude) or 'W'
   * (longitude) reference, and left as converted for a missing or any other
   * reference; the altitude is GPSAltitude, or 0 when absent.
   */
  lemma DecodeFixCharacterised(info: map<Tag, GpsValue>)
    requires LATITUDE in info && LONGITUDE in info
    ensures DecodeFix(info).Some? ==>
      var fix, lat, lon := DecodeFix(info).value, Degrees(info[LATITUDE]).value, Degrees(info[LONGITUDE]).value;
      && (RefIs(info, LATITUDE_REF, "S") ==> fix.latitude == -lat)
      && (!RefIs(info, LATITUDE_REF, "S") ==> fix.latitude == lat)
      && (RefIs(info, LONGITUDE_REF, "W") ==> fix.longitude == -lon)
      && (!RefIs(info, LONGITUDE_REF, "W") ==> fix.longitude == lon)
      && fix.altitude == (if ALTITUDE in info then info[ALTITUDE] else Number(0.0))
  {
  }

  /** The GPS dictionary of an EXIF entry named GPSInfo whose value is a sub-dictionary. */
  function BlockInfo(entry: (int, ExifValue), tables: TagTables): (info: map<Tag, GpsValue>)
    requires entry.1.GpsIfd?
  {
    NamedTags(entry.1.entries, tables.gpsTags)
  }

  /** An EXIF entry named GPSInfo whose GPS dictionary holds both coordinates. */
  predicate HasCoordinates(entry: (int, ExifValue), tables: TagTables)
  {
    && TagOf(entry.0, tables.exifTags) == GPS_INFO
    && entry.1.GpsIfd?
    && LATITUDE in BlockInfo(entry, tables)
    && LONGITUDE in BlockInfo(entry, tables)
  }

  /**
   * The scan over the EXIF entries: the first GPSInfo entry whose dictionary
   * holds both coordinates decides; a GPSInfo entry lacking one is passed
   * over; a GPSInfo value that is not a dictionary cannot be iterated and
   * ends the scan with None.
   */
  function ScanExif(entries: seq<(int, ExifValue)>, tables: TagTables): (fix: Option<GpsFix>)
    ensures (forall i :: 0 <= i < |entries| ==> TagOf(entries[i].0, tables.exifTags) != GPS_INFO) ==> fix.None?
  {
    if entries == [] then None
    else if TagOf(entries[0].0, tables.exifTags) != GPS_INFO then ScanExif(entries[1..], tables)
    else if entries[0].1.Plain? then None
    else if HasCoordinates(entries[0], tables) then DecodeFix(BlockInfo(entries[0], tables))
    else ScanExif(entries[1..], tables)
  }

  /** `get_gps_from_exif` on a stored file. */
  function GpsFromImage(image: ImageFile, tables: TagTables): (fix: Option<GpsFix>)
    ensures image.Undecodable? ==> fix.None?
    ensures image.Decoded? && (image.exif.None? || image.exif.value == []) ==> fix.None?
    ensures fix.Some? ==> image.Decoded? && image.exif.Some? && image.exif.value != []
  {
    match image
    case Undecodable(_) => None
    case Decoded(_, _, _, exif) => if exif.None? then None else ScanExif(exif.value, tables)
  }

  /**
   * A position is produced only from a GPSInfo entry holding both
   * GPSLatitude and GPSLongitude, and it is that entry's decoded fix.
   */
  lemma {:induction false} FixOnlyWithBothCoordinates(entries: seq<(int, ExifValue)>, tables: TagTables)
    ensures ScanExif(entries, tables).Some? ==>
      exists i :: 0 <= i < |entries| && HasCoordinates(entries[i], tables) &&
        ScanExif(entries, tables) == DecodeFix(BlockInfo(entries[i], tables))
  {
    if entries != [] && ScanExif(entries, tables).Some? {
      if HasCoordinates(entries[0], tables) && ScanExif(entries, tables) == DecodeFix(BlockInfo(entries[0], tables)) {
      } else {
        var rest := entries[1..];
        assert ScanExif(entries, tables) == ScanExif(rest, tables);
        FixOnlyWithBothCoordinates(rest, tables);
        var i :| 0 <= i < |rest| && HasCoordinates(rest[i], tables) &&
          ScanExif(rest, tables) == DecodeFix(BlockInfo(rest[i], tables));
        assert entries[i + 1] == rest[i];
      }
    }
  }

  /**
   * When the GPSInfo entries before the first one holding both coordinates
   * are all dictionaries, the position is that entry's decoded fix.
   */
  lemma {:induction false} FirstCompleteBlockDecides(entries: seq<(int, ExifValue)>, tables: TagTables, k: nat)
    requires k < |entries| && HasCoordinates(entries[k], tables)
    requires forall j :: 0 <= j < k ==> !HasCoordinates(entries[j], tables)
    requires forall j :: 0 <= j < k ==> entries[j].1.GpsIfd? || TagOf(entries[j].0, tables.exifTags) != GPS_INFO
    ensures ScanExif(entries, tables) == DecodeFix(BlockInfo(entries[k], tables))
  {
    if k > 0 {
      var rest := entries[1..];
      assert rest[k - 1] == entries[k];
      forall j | 0 <= j < k - 1
        ensures !HasCoordinates(rest[j], tables)
        ensures rest[j].1.GpsIfd? || TagOf(rest[j].0, tables.exifTags) != GPS_INFO
      {
        assert rest[j] == entries[j + 1];
      }
      FirstCompleteBlockDecides(rest, tables, k - 1);
    }
  }

  /**
   * The statements that turn a GPS dictionary holding both coordinates into
   * a position: convert, flip the sign by the hemisphere reference, default
   * the altitude. A failed conversion is the exception that ends in None.
   */
  method DecodeGpsInfo(info: map<Tag, GpsValue>) returns (fix: Option<GpsFix>)
    requires LATITUDE in info && LONGITUDE in info
    ensures fix == DecodeFix(info)
  {
    var lat := Degrees(info[LATITUDE]);
    if lat.None? {
      return None;
    }
    var latitude := lat.value;
    if RefIs(info, LATITUDE_REF, "S") {
      latitude := -latitude;
    }
    var lon := Degrees(info[LONGITUDE]);
    if lon.None? {
      return None;
    }
    var longitude := lon.value;
    if RefIs(info, LONGITUDE_REF, "W") {
      longitude := -longitude;
    }
    var altitude := if ALTITUDE in info then info[ALTITUDE] else Number(0.0);
    return Some(GpsFix(latitude, longitude, altitude));
  }

  /** The method form: the loop over `exif_data.items()`. */
  method GetGpsFromExif(image: ImageFile, tables: TagTables) returns (fix: Option<GpsFix>)
    ensures fix == GpsFromImage(image, tables)
  {
    if image.Undecodable? {
      return None;
    }
    if image.exif.None? || image.exif.value == [] {
      return None;
    }
    var entries := image.exif.value;
    var i := 0;
    while i < |entries|
      invariant 0 <= i <= |entries|
      invariant ScanExif(entries[i..], tables) == ScanExif(entries, tables)
    {
      var (id, value) := entries[i];
      if TagOf(id, tables.exifTags) == GPS_INFO {
        match value {
          case Plain =>
            return None;
          case GpsIfd(block) =>
            var info := CollectGpsInfo(block, tables.gpsTags);
            if LATITUDE in info && LONGITUDE in info {
              fix := DecodeGpsInfo(info);
              return;
            }
        }
      }
      assert entries[i..][1..] == entries[i + 1..];
      i := i + 1;
    }
    return None;
  }
}
