/** `AlertDispatchService`: turns the alert records of the current window
    into the DTOs sent to the dashboard, looking up each gesture's metadata
    in the repository. The JPA repository is a map from gesture name to row. */
module Dispatch {
  import opened Wrappers
  import opened Seqs
  import opened LocalTime
  import opened Gestures
  import opened CsvReader

  /** A `gesture_metadata` row; `gestureTag` is its primary key. */
  datatype Metadata = Metadata(
    gestureTag: string,
    description: string,
    aggressionScore: int,
    proximityScore: int,
    movementIntensityScore: int)

  /** The repository's rows, by primary key. */
  type Repository = map<string, Metadata>

  /** `AlertDTO`, with the severity in tenths (see `SeverityTenths`). */
  datatype AlertDto = AlertDto(
    id: string,
    lat: real,
    lng: real,
    severityTenths: int,
    time: string,
    description: string)

  // ---------------------------------------------------------------------------
  // The repository

  /** `findById(key)`. */
  function FindById(repo: Repository, key: string): (r: Option<Metadata>)
    ensures r.Some? <==> key in repo
  {
    if key in repo then Some(repo[key]) else None
  }

  /** `saveAll(rows)`: each row is stored under its key, a later row
      replacing an earlier one with the same key. */
  function SaveAll(repo: Repository, rows: seq<Metadata>): (r: Repository)
    decreases |rows|
  {
    if rows == [] then repo
    else SaveAll(repo[rows[0].gestureTag := rows[0]], rows[1..])
  }

  /** A key of `rows`. */
  predicate KeyOf(rows: seq<Metadata>, key: string) {
    exists i :: 0 <= i < |rows| && rows[i].gestureTag == key
  }

  /** No two rows share a key. */
  predicate DistinctKeys(rows: seq<Metadata>) {
    forall i, j :: 0 <= i < j < |rows| ==> rows[i].gestureTag != rows[j].gestureTag
  }

  /** Two row lists with distinct keys and no key in common together have
      distinct keys. */
  lemma DistinctKeysConcat(a: seq<Metadata>, b: seq<Metadata>)
    requires DistinctKeys(a) && DistinctKeys(b)
    requires forall i, j :: 0 <= i < |a| && 0 <= j < |b| ==> a[i].gestureTag != b[j].gestureTag
    ensures DistinctKeys(a + b)
  {
  }

  /** After `saveAll` the repository holds the keys it had and those of the rows. */
  lemma {:induction false} SaveAllKeys(repo: Repository, rows: seq<Metadata>)
    ensures forall k :: k in SaveAll(repo, rows) <==> k in repo || KeyOf(rows, k)
    decreases |rows|
  {
    if rows != [] {
      var repo' := repo[rows[0].gestureTag := rows[0]];
      SaveAllKeys(repo', rows[1..]);
      forall k
        ensures KeyOf(rows, k) <==> k == rows[0].gestureTag || KeyOf(rows[1..], k)
      {
        if KeyOf(rows, k) && k != rows[0].gestureTag {
          var i :| 0 <= i < |rows| && rows[i].gestureTag == k;
          assert rows[1..][i - 1] == rows[i];
        }
        if KeyOf(rows[1..], k) {
          var i :| 0 <= i < |rows[1..]| && rows[1..][i].gestureTag == k;
          assert rows[i + 1] == rows[1..][i];
        }
      }
    }
  }

  /** With distinct keys, every row can be found again under its key. */
  lemma {:induction false} SaveAllFinds(repo: Repository, rows: seq<Metadata>, i: int)
    requires DistinctKeys(rows) && 0 <= i < |rows|
    ensures rows[i].gestureTag in SaveAll(repo, rows)
    ensures SaveAll(repo, rows)[rows[i].gestureTag] == rows[i]
    decreases |rows|
  {
    var repo' := repo[rows[0].gestureTag := rows[0]];
    if i == 0 {
      SaveAllKeeps(repo', rows[1..], rows[0].gestureTag);
    } else {
      assert rows[1..][i - 1] == rows[i];
      SaveAllFinds(repo', rows[1..], i - 1);
    }
  }

  /** A key none of the rows carries keeps its old value. */
  lemma {:induction false} SaveAllKeeps(repo: Repository, rows: seq<Metadata>, key: string)
    requires key in repo
    requires forall i :: 0 <= i < |rows| ==> rows[i].gestureTag != key
    ensures key in SaveAll(repo, rows) && SaveAll(repo, rows)[key] == repo[key]
    decreases |rows|
  {
    if rows != [] {
      SaveAllKeeps(repo[rows[0].gestureTag := rows[0]], rows[1..], key);
    }
  }

  // ---------------------------------------------------------------------------
  // Severity

  /** `calculateSeverity`, `0.5 a + 0.3 p + 0.2 m`, scaled by ten so that it
      is an integer. */
  function SeverityTenths(m: Metadata): (r: int)
    ensures r as real == 10.0 * (0.5 * m.aggressionScore as real + 0.3 * m.proximityScore as real
                                 + 0.2 * m.movementIntensityScore as real)
  {
    5 * m.aggressionScore + 3 * m.proximityScore + 2 * m.movementIntensityScore
  }

  /** Every score is on the 0..10 scale. */
  predicate ScoresInRange(m: Metadata) {
    0 <= m.aggressionScore <= 10 && 0 <= m.proximityScore <= 10 && 0 <= m.movementIntensityScore <= 10
  }

  /** The weights sum to one, so scores on the 0..10 scale give a severity
      on the 0..10 scale (0..100 tenths), reached at the two extremes. */
  lemma SeverityBounds(m: Metadata)
    requires ScoresInRange(m)
    ensures 0 <= SeverityTenths(m) <= 100
    ensures SeverityTenths(m) == 0 <==> m.aggressionScore == 0 && m.proximityScore == 0 && m.movementIntensityScore == 0
    ensures SeverityTenths(m) == 100 <==> m.aggressionScore == 10 && m.proximityScore == 10 && m.movementIntensityScore == 10
  {
  }

  /** Raising any one score never lowers the severity. */
  lemma SeverityMonotone(m: Metadata, n: Metadata)
    requires m.aggressionScore <= n.aggressionScore
    requires m.proximityScore <= n.proximityScore
    requires m.movementIntensityScore <= n.movementIntensityScore
    ensures SeverityTenths(m) <= SeverityTenths(n)
  {
  }

  // ---------------------------------------------------------------------------
  // toDTOs

  /** The DTO built for one record from its metadata. */
  function ToDto(rec: AlertRecord, m: Metadata): (d: AlertDto)
    ensures d.id == rec.cameraId && d.lat == rec.latitude && d.lng == rec.longitude
    ensures d.description == m.description && d.severityTenths == SeverityTenths(m)
    ensures |d.time| == 8
  {
    AlertDto(rec.cameraId, rec.latitude, rec.longitude, SeverityTenths(m),
             FormatTime(rec.timestamp), m.description)
  }

  /** One turn of the loop: the record's DTO, or nothing when the repository
      has no row for its gesture's name. */
  function Convert(repo: Repository): AlertRecord -> Option<AlertDto> {
    (rec: AlertRecord) => match FindById(repo, Name(rec.gestureTag))
                          case None => None
                          case Some(m) => Some(ToDto(rec, m))
  }

  /** `toDTOs(records)`. */
  function ToDtos(repo: Repository, records: seq<AlertRecord>): (r: seq<AlertDto>)
    ensures |r| <= |records|
  {
    FilterMap(records, Convert(repo))
  }

  /** The repository knows the record's gesture. */
  predicate Known(repo: Repository, rec: AlertRecord) {
    Name(rec.gestureTag) in repo
  }

  /** A record with no metadata yields nothing; any other yields exactly the
      DTO built from its metadata. */
  lemma ToDtosSingle(repo: Repository, rec: AlertRecord)
    ensures !Known(repo, rec) <==> ToDtos(repo, [rec]) == []
    ensures Known(repo, rec) ==> ToDtos(repo, [rec]) == [ToDto(rec, repo[Name(rec.gestureTag)])]
  {
    FilterMapSingle(rec, Convert(repo));
  }

  /** DTOs come out in record order. */
  lemma ToDtosConcat(repo: Repository, a: seq<AlertRecord>, b: seq<AlertRecord>)
    ensures ToDtos(repo, a + b) == ToDtos(repo, a) + ToDtos(repo, b)
  {
    FilterMapConcat(a, b, Convert(repo));
  }

  /** When every record's gesture is known, nothing is dropped. */
  lemma ToDtosAllKnown(repo: Repository, records: seq<AlertRecord>)
    requires forall k :: 0 <= k < |records| ==> Known(repo, records[k])
    ensures |ToDtos(repo, records)| == |records|
  {
    assert forall k :: 0 <= k < |records| ==> Convert(repo)(records[k]).Some?;
  }

  /** Every DTO is the DTO of some known record, built from that record's
      metadata; and every known record has its DTO in the output. */
  lemma ToDtosMembers(repo: Repository, records: seq<AlertRecord>, d: AlertDto)
    ensures d in ToDtos(repo, records)
       <==> exists k :: 0 <= k < |records| && Known(repo, records[k])
                        && d == ToDto(records[k], repo[Name(records[k].gestureTag)])
  {
  }

  /** The DTO's time is the record's time written as `HH:mm:ss`; reading it
      back gives the time without its fraction of a second. */
  lemma DtoTime(rec: AlertRecord, m: Metadata)
    ensures |ToDto(rec, m).time| == 8
    ensures ParseTime(ToDto(rec, m).time) == Some(WholeSeconds(rec.timestamp))
  {
    ParseFormat(rec.timestamp);
  }
}
