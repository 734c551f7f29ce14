/** `DataInitializer`: the 24 gesture-metadata rows saved at start-up, and
    what they guarantee to the dispatch step and how they agree with the
    CCTV pipeline's threat table. */
module SeedData {
  import opened Gestures
  import opened Threat
  import opened CsvReader
  import opened Dispatch

  /** The aggressive gestures (`DataInitializer.java` lines 18-25). */
  const AggressiveRows: seq<Metadata> := [
    Metadata("RAISED_HAND", "Hand raised in an aggressive motion, possibly to strike.", 8, 7, 6),
    Metadata("PUSHING", "Physical shoving or pushing of another person.", 9, 8, 6),
    Metadata("PUNCHING", "Closed-fist striking action.", 10, 9, 9),
    Metadata("SLAPPING", "Open-hand slap directed at someone.", 9, 9, 7),
    Metadata("GRABBING", "Grabbing or restraining action.", 8, 9, 5),
    Metadata("CHASING", "Running after a person aggressively.", 7, 6, 10),
    Metadata("BLOCKING_WAY", "Physically obstructing someone\U{2019}s movement.", 7, 8, 4),
    Metadata("INTIMIDATING_POSTURE", "Threatening body language close to a person.", 8, 9, 3)
  ]

  /** The suspicious gestures (lines 27-31). */
  const SuspiciousRows: seq<Metadata> := [
    Metadata("STARING", "Prolonged, uncomfortable staring.", 5, 8, 1),
    Metadata("LOITERING", "Remaining in area without reason.", 3, 6, 2),
    Metadata("FOLLOWING", "Trailing someone for a suspicious period.", 6, 8, 4),
    Metadata("HOVERING", "Standing very close without contact.", 4, 9, 2),
    Metadata("POINTING", "Directing attention with finger in a forceful manner.", 5, 5, 2)
  ]

  /** The distress gestures (lines 33-38). */
  const DistressRows: seq<Metadata> := [
    Metadata("WAVING_FOR_HELP", "Arm waving to signal for help.", 0, 7, 6),
    Metadata("HANDS_UP", "Both hands raised in submission or to get attention.", 1, 6, 3),
    Metadata("CALLING_PHONE", "Gesture suggesting calling someone.", 0, 5, 1),
    Metadata("RUNNING_AWAY", "Person fleeing rapidly from danger.", 0, 9, 9),
    Metadata("FALLING", "Unexpected fall indicating distress or accident.", 0, 6, 7),
    Metadata("HAND_SIGNAL_SOS", "Recognized hand signal for domestic abuse or help.", 0, 10, 3)
  ]

  /** The neutral gestures (lines 40-44). */
  const NeutralRows: seq<Metadata> := [
    Metadata("WALKING", "Normal walking.", 0, 3, 2),
    Metadata("STANDING", "Neutral posture, standing.", 0, 2, 1),
    Metadata("SITTING", "Seated posture.", 0, 1, 0),
    Metadata("TALKING", "Conversational gestures.", 1, 3, 2),
    Metadata("GESTURING_CASUALLY", "Non-aggressive hand motion.", 1, 3, 2)
  ]

  /** The rows passed to `saveAll`, in source order. */
  const SeedRows: seq<Metadata> := AggressiveRows + SuspiciousRows + DistressRows + NeutralRows

  /** The repository after start-up, saved into an empty table. */
  const Seeded: Repository := SaveAll(map[], SeedRows)

  /** What every seeded row satisfies: scores on the 0..10 scale and a
      severity between 0.3 and 9.5. */
  predicate RowInRange(m: Metadata) {
    ScoresInRange(m) && 3 <= SeverityTenths(m) <= 95
  }

  /** The threat table rates every aggressive gesture RED. */
  lemma AggressiveRowsLevel()
    ensures forall i :: 0 <= i < |AggressiveRows| ==> LevelOf(AggressiveRows[i].gestureTag) == Red
  {
  }

  /** The aggressive gestures have aggression 7 to 10, and all their scores and
      severities are in range. */
  lemma AggressiveRowsScores()
    ensures forall i :: 0 <= i < |AggressiveRows| ==>
      RowInRange(AggressiveRows[i]) && 7 <= AggressiveRows[i].aggressionScore <= 10
  {
  }

  /** The threat table rates every suspicious gesture YELLOW. */
  lemma SuspiciousRowsLevel()
    ensures forall i :: 0 <= i < |SuspiciousRows| ==> LevelOf(SuspiciousRows[i].gestureTag) == Yellow
  {
  }

  /** The suspicious gestures have aggression 3 to 6, and all their scores and
      severities are in range. */
  lemma SuspiciousRowsScores()
    ensures forall i :: 0 <= i < |SuspiciousRows| ==>
      RowInRange(SuspiciousRows[i]) && 3 <= SuspiciousRows[i].aggressionScore <= 6
  {
  }

  /** The suspicious gestures are listed once each. */
  lemma SuspiciousKeysDistinct()
    ensures DistinctKeys(SuspiciousRows)
  {
  }

  /** The threat table rates every distress gesture GREEN. */
  lemma DistressRowsLevel()
    ensures forall i :: 0 <= i < |DistressRows| ==> LevelOf(DistressRows[i].gestureTag) == Green
  {
  }

  /** The distress gestures have aggression 0 to 1, and all their scores and
      severities are in range. */
  lemma DistressRowsScores()
    ensures forall i :: 0 <= i < |DistressRows| ==>
      RowInRange(DistressRows[i]) && 0 <= DistressRows[i].aggressionScore <= 1
  {
  }

  /** The distress gestures are listed once each. */
  lemma DistressKeysDistinct()
    ensures DistinctKeys(DistressRows)
  {
  }

  /** The threat table rates every neutral gesture GREEN. */
  lemma NeutralRowsLevel()
    ensures forall i :: 0 <= i < |NeutralRows| ==> LevelOf(NeutralRows[i].gestureTag) == Green
  {
  }

  /** The neutral gestures have aggression 0 to 1, and all their scores and
      severities are in range. */
  lemma NeutralRowsScores()
    ensures forall i :: 0 <= i < |NeutralRows| ==>
      RowInRange(NeutralRows[i]) && 0 <= NeutralRows[i].aggressionScore <= 1
  {
  }

  /** The neutral gestures are listed once each. */
  lemma NeutralKeysDistinct()
    ensures DistinctKeys(NeutralRows)
  {
  }

  /** The aggressive gestures are listed once each. */
  lemma AggressiveKeysDistinct()
    ensures DistinctKeys(AggressiveRows)
  {
  }

  /** No distress gesture is also listed as neutral. */
  lemma DistressNeutralDisjoint()
    ensures forall i, j :: 0 <= i < |DistressRows| && 0 <= j < |NeutralRows| ==>
      DistressRows[i].gestureTag != NeutralRows[j].gestureTag
  {
  }

  /** There are 24 rows and no two share a key: within a group the names differ, and
      across groups the threat levels (or, for the two GREEN groups, the
      names) differ. */
  lemma SeedKeysDistinct()
    ensures |SeedRows| == 24 && DistinctKeys(SeedRows)
  {
    AggressiveRowsLevel();
    SuspiciousRowsLevel();
    DistressRowsLevel();
    NeutralRowsLevel();
    AggressiveKeysDistinct();
    SuspiciousKeysDistinct();
    DistressKeysDistinct();
    NeutralKeysDistinct();
    DistressNeutralDisjoint();
    var a, b, c, d := AggressiveRows, SuspiciousRows, DistressRows, NeutralRows;
    DistinctKeysConcat(a, b);
    DistinctKeysConcat(a + b, c);
    forall i, j | 0 <= i < |a + b + c| && 0 <= j < |d|
      ensures (a + b + c)[i].gestureTag != d[j].gestureTag
    {
      if i >= |a + b| {
        assert (a + b + c)[i] == c[i - |a + b|];
      }
    }
    DistinctKeysConcat(a + b + c, d);
  }

  /** Every seeded row has its scores and severity in range, and its
      aggression score tells its threat level: 7 and above is RED, 2 to 6
      YELLOW, below 2 GREEN. */
  lemma SeedRowsFacts(i: int)
    requires 0 <= i < |SeedRows|
    ensures RowInRange(SeedRows[i])
    ensures LevelOf(SeedRows[i].gestureTag) == Red <==> SeedRows[i].aggressionScore >= 7
    ensures LevelOf(SeedRows[i].gestureTag) == Yellow <==> 2 <= SeedRows[i].aggressionScore <= 6
    ensures LevelOf(SeedRows[i].gestureTag) == Green <==> SeedRows[i].aggressionScore < 2
  {
    var a, b, c, d := AggressiveRows, SuspiciousRows, DistressRows, NeutralRows;
    if i < |a| {
      AggressiveRowsLevel();
      AggressiveRowsScores();
    } else if i < |a| + |b| {
      SuspiciousRowsLevel();
      SuspiciousRowsScores();
      assert SeedRows[i] == b[i - |a|];
    } else if i < |a| + |b| + |c| {
      DistressRowsLevel();
      DistressRowsScores();
      assert SeedRows[i] == c[i - |a| - |b|];
    } else {
      NeutralRowsLevel();
      NeutralRowsScores();
      assert SeedRows[i] == d[i - |a| - |b| - |c|];
    }
  }

  /** The extremes of the seeded severities: every row lies between 0.3 and
      9.5, and SITTING and PUNCHING reach them. */
  lemma SeedSeverityExtremes()
    ensures forall i :: 0 <= i < |SeedRows| ==> 3 <= SeverityTenths(SeedRows[i]) <= 95
    ensures SeedRows[21].gestureTag == "SITTING" && SeverityTenths(SeedRows[21]) == 3
    ensures SeedRows[2].gestureTag == "PUNCHING" && SeverityTenths(SeedRows[2]) == 95
  {
    forall i | 0 <= i < |SeedRows|
      ensures 3 <= SeverityTenths(SeedRows[i]) <= 95
    {
      SeedRowsFacts(i);
    }
  }

  /** Where each gesture's row is. */
  lemma RowOf(t: GestureTag) returns (i: int)
    ensures 0 <= i < |SeedRows| && SeedRows[i].gestureTag == Name(t)
  {
    match t
    case RAISED_HAND => i := 0;
    case PUSHING => i := 1;
    case PUNCHING => i := 2;
    case SLAPPING => i := 3;
    case GRABBING => i := 4;
    case CHASING => i := 5;
    case BLOCKING_WAY => i := 6;
    case INTIMIDATING_POSTURE => i := 7;
    case STARING => i := 8;
    case LOITERING => i := 9;
    case FOLLOWING => i := 10;
    case HOVERING => i := 11;
    case POINTING => i := 12;
    case WAVING_FOR_HELP => i := 13;
    case HANDS_UP => i := 14;
    case CALLING_PHONE => i := 15;
    case RUNNING_AWAY => i := 16;
    case FALLING => i := 17;
    case HAND_SIGNAL_SOS => i := 18;
    case WALKING => i := 19;
    case STANDING => i := 20;
    case SITTING => i := 21;
    case TALKING => i := 22;
    case GESTURING_CASUALLY => i := 23;
  }

  /** The gesture constant row `i` is keyed by. */
  lemma TagOf(i: int) returns (t: GestureTag)
    requires 0 <= i < |SeedRows|
    ensures Name(t) == SeedRows[i].gestureTag
  {
    var a, b, c, d := AggressiveRows, SuspiciousRows, DistressRows, NeutralRows;
    if i < |a| {
      t := AggressiveTag(i);
    } else if i < |a| + |b| {
      t := SuspiciousTag(i - |a|);
      assert SeedRows[i] == b[i - |a|];
    } else if i < |a| + |b| + |c| {
      t := DistressTag(i - |a| - |b|);
      assert SeedRows[i] == c[i - |a| - |b|];
    } else {
      t := NeutralTag(i - |a| - |b| - |c|);
      assert SeedRows[i] == d[i - |a| - |b| - |c|];
    }
  }

  lemma AggressiveTag(j: int) returns (t: GestureTag)
    requires 0 <= j < |AggressiveRows|
    ensures Name(t) == AggressiveRows[j].gestureTag
  {
    if j == 0 { t := RAISED_HAND; }
    else if j == 1 { t := PUSHING; }
    else if j == 2 { t := PUNCHING; }
    else if j == 3 { t := SLAPPING; }
    else if j == 4 { t := GRABBING; }
    else if j == 5 { t := CHASING; }
    else if j == 6 { t := BLOCKING_WAY; }
    else { t := INTIMIDATING_POSTURE; }
  }

  lemma SuspiciousTag(j: int) returns (t: GestureTag)
    requires 0 <= j < |SuspiciousRows|
    ensures Name(t) == SuspiciousRows[j].gestureTag
  {
    if j == 0 { t := STARING; }
    else if j == 1 { t := LOITERING; }
    else if j == 2 { t := FOLLOWING; }
    else if j == 3 { t := HOVERING; }
    else { t := POINTING; }
  }

  lemma DistressTag(j: int) returns (t: GestureTag)
    requires 0 <= j < |DistressRows|
    ensures Name(t) == DistressRows[j].gestureTag
  {
    if j == 0 { t := WAVING_FOR_HELP; }
    else if j == 1 { t := HANDS_UP; }
    else if j == 2 { t := CALLING_PHONE; }
    else if j == 3 { t := RUNNING_AWAY; }
    else if j == 4 { t := FALLING; }
    else { t := HAND_SIGNAL_SOS; }
  }

  lemma NeutralTag(j: int) returns (t: GestureTag)
    requires 0 <= j < |NeutralRows|
    ensures Name(t) == NeutralRows[j].gestureTag
  {
    if j == 0 { t := WALKING; }
    else if j == 1 { t := STANDING; }
    else if j == 2 { t := SITTING; }
    else if j == 3 { t := TALKING; }
    else { t := GESTURING_CASUALLY; }
  }

  /** The seeded repository holds exactly the seeded rows, each under its own key. */
  lemma SeededRows(key: string)
    ensures key in Seeded <==> KeyOf(SeedRows, key)
    ensures key in Seeded ==> exists i :: 0 <= i < |SeedRows| && Seeded[key] == SeedRows[i]
  {
    SaveAllKeys(map[], SeedRows);
    if key in Seeded {
      var i :| 0 <= i < |SeedRows| && SeedRows[i].gestureTag == key;
      SeedKeysDistinct();
      SaveAllFinds(map[], SeedRows, i);
    }
  }

  /** The seeded keys are exactly the names of the `GestureTag` constants,
      and each gesture's metadata is its own row. */
  lemma SeededKeysAreNames(key: string)
    ensures key in Seeded <==> exists t :: Name(t) == key
    ensures forall t :: Name(t) in Seeded ==> Seeded[Name(t)].gestureTag == Name(t)
  {
    SeededRows(key);
    if key in Seeded {
      var i :| 0 <= i < |SeedRows| && SeedRows[i].gestureTag == key;
      var t := TagOf(i);
    }
    forall t | Name(t) == key
      ensures key in Seeded
    {
      var i := RowOf(t);
    }
    forall t | Name(t) in Seeded
      ensures Seeded[Name(t)].gestureTag == Name(t)
    {
      var i := RowOf(t);
      SeedKeysDistinct();
      SaveAllFinds(map[], SeedRows, i);
    }
  }

  /** Every gesture constant has metadata. */
  lemma SeededKnowsEveryGesture(t: GestureTag)
    ensures Name(t) in Seeded
  {
    SeededKeysAreNames(Name(t));
  }

  /** Against the seeded repository `toDTOs` never drops a record. */
  lemma SeededNeverDrops(records: seq<AlertRecord>)
    ensures |ToDtos(Seeded, records)| == |records|
  {
    forall k | 0 <= k < |records|
      ensures Known(Seeded, records[k])
    {
      SeededKnowsEveryGesture(records[k].gestureTag);
    }
    ToDtosAllKnown(Seeded, records);
  }

  /** Every DTO built against the seeded repository has a severity between
      0.3 and 9.5. */
  lemma SeededDtoSeverity(records: seq<AlertRecord>, d: AlertDto)
    requires d in ToDtos(Seeded, records)
    ensures 3 <= d.severityTenths <= 95
  {
    ToDtosMembers(Seeded, records, d);
    var k :| 0 <= k < |records| && Known(Seeded, records[k])
             && d == ToDto(records[k], Seeded[Name(records[k].gestureTag)]);
    SeededRows(Name(records[k].gestureTag));
    var i :| 0 <= i < |SeedRows| && Seeded[Name(records[k].gestureTag)] == SeedRows[i];
    SeedRowsFacts(i);
  }
}
