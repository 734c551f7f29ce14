/** `CsvReader.readAlerts`: every line of the alert file is split at commas,
    its first five fields are trimmed and parsed, and a line that does not
    yield a complete record is skipped. Reading the file itself is left out:
    the model starts from its lines. */
module CsvReader {
  import opened Wrappers
  import opened Seqs
  import opened JavaText
  import opened LocalTime
  import opened Gestures

  /** `AlertRecord`. */
  datatype AlertRecord = AlertRecord(
    timestamp: Time,
    cameraId: string,
    latitude: real,
    longitude: real,
    gestureTag: GestureTag)

  /** The `try` block for the fields of one line: timestamp, camera,
      latitude, longitude, gesture. Any failing parse makes the whole line fail. */
  function ParseFields(parts: seq<string>): (r: Option<AlertRecord>)
    requires |parts| >= 5
    ensures r.Some? ==> r.value.cameraId == Trim(parts[1])
  {
    Decode(Trim(parts[0]), Trim(parts[1]), Trim(parts[2]), Trim(parts[3]), ToUpper(Trim(parts[4])))
  }

  /** The record made of the prepared field texts, if each of them parses. */
  function Decode(time: string, camera: string, lat: string, lng: string, tag: string): (r: Option<AlertRecord>)
    ensures r.Some? <==> ParseTime(time).Some? && ParseDecimal(lat).Some? && ParseDecimal(lng).Some? && ValueOf(tag).Some?
  {
    var ts := ParseTime(time);
    var la := ParseDecimal(lat);
    var ln := ParseDecimal(lng);
    var g := ValueOf(tag);
    if ts.Some? && la.Some? && ln.Some? && g.Some? then
      Some(AlertRecord(ts.value, camera, la.value, ln.value, g.value))
    else None
  }

  /** One turn of the `while` loop: a line with fewer than five fields is
      skipped, otherwise its first five fields are parsed. */
  function ParseLine(line: string): (r: Option<AlertRecord>)
  {
    var parts := JavaSplit(line, ',');
    if |parts| < 5 then None else ParseFields(parts)
  }

  /** `readAlerts`, from the file's lines. */
  function ReadAlerts(lines: seq<string>): (r: seq<AlertRecord>)
    ensures |r| <= |lines|
  {
    FilterMap(lines, ParseLine)
  }

  /** A line that splits into fewer than five fields yields no record. */
  lemma ShortLineSkipped(line: string)
    requires |JavaSplit(line, ',')| < 5
    ensures ReadAlerts([line]) == []
  {
    FilterMapSingle(line, ParseLine);
  }

  /** Fields after the fifth are never looked at. */
  lemma ExtraFieldsIgnored(parts: seq<string>, extra: seq<string>)
    requires |parts| == 5
    ensures ParseFields(parts + extra) == ParseFields(parts)
  {
    var p := parts + extra;
    assert p[0] == parts[0] && p[1] == parts[1] && p[2] == parts[2] && p[3] == parts[3] && p[4] == parts[4];
  }

  /** Two gesture fields that differ only in case and surrounding spaces. */
  predicate SameGestureText(a: string, b: string) {
    ToUpper(Trim(a)) == ToUpper(Trim(b))
  }

  /** The gesture field is matched without regard to case or surrounding spaces. */
  lemma GestureCaseInsensitive(parts: seq<string>, g: string)
    requires |parts| >= 5
    requires SameGestureText(g, parts[4])
    ensures ParseFields(parts[4 := g]) == ParseFields(parts)
  {
    var p := parts[4 := g];
    assert p[0] == parts[0] && p[1] == parts[1] && p[2] == parts[2] && p[3] == parts[3] && p[4] == g;
  }

  /** Records come out in line order: reading two runs of lines one after
      the other gives the records of the first run, then those of the second. */
  lemma ReadAlertsConcat(a: seq<string>, b: seq<string>)
    ensures ReadAlerts(a + b) == ReadAlerts(a) + ReadAlerts(b)
  {
    FilterMapConcat(a, b, ParseLine);
  }

  /** A line that fails to parse is skipped and reading continues with the next. */
  lemma BadLineSkipped(a: seq<string>, bad: string, b: seq<string>)
    requires ParseLine(bad) == None
    ensures ReadAlerts(a + [bad] + b) == ReadAlerts(a) + ReadAlerts(b)
  {
    FilterMapConcat(a + [bad], b, ParseLine);
    FilterMapConcat(a, [bad], ParseLine);
    FilterMapSingle(bad, ParseLine);
  }

  /** A line that parses contributes exactly its record, in its place. */
  lemma GoodLineKept(a: seq<string>, line: string, b: seq<string>)
    requires ParseLine(line).Some?
    ensures ReadAlerts(a + [line] + b) == ReadAlerts(a) + [ParseLine(line).value] + ReadAlerts(b)
  {
    FilterMapConcat(a + [line], b, ParseLine);
    FilterMapConcat(a, [line], ParseLine);
    FilterMapSingle(line, ParseLine);
  }

  /** Every record read is the parse of some line. */
  lemma ReadAlertsSound(lines: seq<string>, rec: AlertRecord)
    ensures rec in ReadAlerts(lines) <==> exists k :: 0 <= k < |lines| && ParseLine(lines[k]) == Some(rec)
  {
  }

  // ---------------------------------------------------------------------------
  // Writing a line the reader accepts

  /** A CSV line with the given five fields. */
  function RenderLine(time: string, camera: string, lat: string, lng: string, tag: string): string {
    Join([time, camera, lat, lng, tag], ',')
  }

  /** A field the reader takes back verbatim: no comma, no surrounding space. */
  predicate CleanField(s: string) {
    ',' !in s && Trim(s) == s
  }

  lemma FormattedTimeIsClean(t: Time)
    ensures CleanField(FormatTime(t))
  {
    var s := FormatTime(t);
    assert TrimStart(s) == s;
    assert TrimEnd(s) == s;
  }

  /** A line of five clean fields, the last one non-empty, is split back
      into exactly those fields and decoded from them. */
  lemma ParseCleanLine(time: string, camera: string, lat: string, lng: string, tag: string)
    requires CleanField(time) && CleanField(camera) && CleanField(lat) && CleanField(lng) && CleanField(tag)
    requires tag != []
    ensures ParseLine(RenderLine(time, camera, lat, lng, tag)) == Decode(time, camera, lat, lng, ToUpper(tag))
  {
    var fields := [time, camera, lat, lng, tag];
    assert forall k :: 0 <= k < |fields| ==> ',' !in fields[k];
    JavaSplitJoin(fields, ',');
  }

  /** A line of clean fields whose time, numbers and gesture name (in any
      case) parse is read back as exactly the record of those values. */
  lemma ParseRenderedLine(time: string, camera: string, lat: string, lng: string, tag: string)
    requires CleanField(time) && CleanField(camera) && CleanField(lat) && CleanField(lng) && CleanField(tag)
    requires ParseTime(time).Some? && ParseDecimal(lat).Some? && ParseDecimal(lng).Some?
    requires ValueOf(ToUpper(tag)).Some?
    ensures ParseLine(RenderLine(time, camera, lat, lng, tag))
      == Some(AlertRecord(ParseTime(time).value, camera, ParseDecimal(lat).value, ParseDecimal(lng).value,
                          ValueOf(ToUpper(tag)).value))
  {
    AcceptedTagNonEmpty(tag);
    ParseCleanLine(time, camera, lat, lng, tag);
    DecodeParsed(time, camera, lat, lng, ToUpper(tag));
  }

  /** Fields that all parse decode to the record of their values. */
  lemma DecodeParsed(time: string, camera: string, lat: string, lng: string, tag: string)
    requires ParseTime(time).Some? && ParseDecimal(lat).Some? && ParseDecimal(lng).Some? && ValueOf(tag).Some?
    ensures Decode(time, camera, lat, lng, tag)
      == Some(AlertRecord(ParseTime(time).value, camera, ParseDecimal(lat).value, ParseDecimal(lng).value,
                          ValueOf(tag).value))
  {
  }

  /** No gesture has an empty name, so an accepted gesture field is not empty. */
  lemma AcceptedTagNonEmpty(tag: string)
    requires ValueOf(ToUpper(tag)).Some?
    ensures tag != []
  {
    ValueOfSpec(ToUpper(tag));
    NameNonEmpty(ValueOf(ToUpper(tag)).value);
  }

}
