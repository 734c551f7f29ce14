# WomenSafety core, modelled in Dafny

This project models the decision logic of the WomenSafety system. Three parts are covered:

- the CCTV pipeline's scene analysis;
- the alert backend that replays recorded alerts on a simulated clock;
- the dashboard's client-side state.

Every module is a set of pure functions over immutable values. Each request, click or timer callback of the original becomes one function from the old state to the new. The modules are:

- `Wrappers`: `Option` and `Result`.
- `Seqs`: filtering, filter-map and a stable insertion sort. The sort is the model of `List.sort` with a comparator.
- `Geometry`: box centres, squared distances and `itertools.combinations`, which together make up `compute_distances`.
- `Clustering`: the distance graph and the depth-first search of `compute_clusters` (`queue.pop()` takes the last element, so the worklist is a stack).
- `Threat`: `THREAT_LEVELS`, `get_cluster_threat` and `get_most_indecent_gesture`.
- `Gestures`: the `GestureTag` enum, its names and `valueOf`.
- `JavaText`: the Java string operations the CSV reader relies on. These are `trim`, `split(",")` with its trailing-empty rule, ASCII `toUpperCase` and a decimal `parseDouble`.
- `LocalTime`: `LocalTime` as a nanosecond of the day, with `parse`, `HH:mm:ss` formatting and `plusSeconds`.
- `CsvReader`: `readAlerts` over the lines of the file.
- `SimClock`: `SimulationClock`, with the real instants as parameters.
- `Simulator`: `CsvSimulatorService`, a value stepped by each request.
- `Dispatch`: `AlertDispatchService`, the metadata repository as a map, and the severity.
- `SeedData`: the 24 rows `DataInitializer` saves.
- `Login`: the official login form.
- `Menu`: the side menu's accordion and its export file name.
- `Dashboard`: the dashboard page. This covers the severity tiers, the counts, polling, selection, dismissal, login and logout.

Some numeric choices:

- Severities are integers in tenths: `0.5a + 0.3p + 0.2m` is `5a + 3p + 2m` tenths.
- Coordinates are `real`.
- Pixel distances are compared squared, so `hypot(dx, dy) < t` becomes `dx² + dy² < t²` for `t > 0`.

Some behaviours of the code that a reader may not expect, all modelled as written:

- The dashboard stores a copy of the clicked alert, not its id. The detail view keeps showing it after a poll that no longer contains it.
- Dismissing removes every alert with that id, not just one.
- On the first request, an alert file with no usable line makes `getFirst` throw. The service then stays uninitialised, so the next request tries again.
- The replay window is empty once the simulated time is at or after 23:59:58. `plusSeconds(2)` wraps past midnight, so `alertTime.isBefore(now.plusSeconds(2))` fails for every alert at or after `now`.

## Model

| member | source | states |
|---|---|---|
| Geometry.Center | CAM02/logic.py:74-76 | the centre lies at half the width and half the height from the corner, rounded down as Python's `//` does |
| Geometry.SqDist | CAM02/logic.py:84-85 | the distance between centres is never negative and is zero exactly for the same point |
| Geometry.CombinationsCount | CAM02/logic.py:82 | `combinations(items, 2)` yields n(n-1)/2 pairs |
| Geometry.CombinationsComplete | CAM02/logic.py:82 | every pair of positions i < j is yielded |
| Geometry.CombinationsSound | CAM02/logic.py:82 | every yielded pair is some (s[i], s[j]) with i < j |
| Geometry.CombinationsNoDup | CAM02/logic.py:82 | over distinct ids, no pair is yielded twice |
| Geometry.PairListedOnce | CAM02/logic.py:82 | each pair of ids appears exactly once, in dict order, and never reversed |
| Geometry.ComputeDistances | CAM02/logic.py:78-87 | one entry per unordered pair of tracked people, each carrying the two ids in dict order and the distance between their box centres |
| Geometry.DistancesArePairs | CAM02/logic.py:78-87 | (a, b) is listed if and only if a comes before b in the frame's key order |
| Clustering.AddEdgesSpec | CAM02/logic.py:93-96 | after the loop, w is a neighbour of v iff it was already one or some listed pair of v and w, in either order, is below the threshold |
| Clustering.AdjacencySpec | CAM02/logic.py:89-96 | in the adjacency map, w is a neighbour of v iff both are tracked, they differ, and their centres are closer than the threshold |
| Clustering.EdgeListedIsNear | CAM02/logic.py:93-96 | each pair the loop links is a pair of different tracked people closer than the threshold |
| Clustering.NearIsEdgeListed | CAM02/logic.py:93-96 | each pair of different tracked people closer than the threshold is linked |
| Clustering.AdjacencyIsGraph | CAM02/logic.py:91-96 | the adjacency map has exactly the tracked ids as keys and is symmetric |
| Clustering.LinkedSymmetric | CAM02/logic.py:95-96 | in the symmetric adjacency map, reachability goes both ways |
| Clustering.LinkedTransitive | CAM02/logic.py:98-110 | reachability composes, so each cluster is closed under it |
| Clustering.SearchFrom | CAM02/logic.py:101-110 | one depth-first search from an unvisited id returns, with no duplicates and starting at that id, exactly the ids reachable from it, and marks them visited |
| Clustering.Pop | CAM02/logic.py:104-109 | one turn of the `while queue` loop keeps the search invariant and shrinks the unvisited ids or the queue |
| Clustering.Components | CAM02/logic.py:98-111 | the clusters partition the ids: each is non-empty, they are disjoint and they cover every id. Two ids share a cluster iff one reaches the other. The clusters come in the order the loop over the ids starts them: each starts at an id all of whose predecessors lie in earlier clusters |
| Clustering.SeedsIncrease | CAM02/logic.py:100-110 | the ids that start the clusters occur in the id list in increasing order, so the clusters are ordered by their earliest id |
| Clustering.ComputeClusters | CAM02/logic.py:89-111 | the clusters are the connected components of the threshold-distance graph over the tracked people, listed in the order of their earliest id in the frame |
| Threat.Priority | CAM02/logic.py:202 | the priorities run from 1 to 3, with GREEN lowest and RED highest |
| Threat.PriorityInjective | CAM02/logic.py:202 | different levels have different priorities |
| Threat.LevelOfSpec | CAM02/logic.py:114-139 | a gesture ranks above GREEN only if the table lists it at that level; an unlisted gesture is GREEN |
| Threat.FightingGesturesAreGreen | CAM02/logic.py:114-139 | KICKING, WRESTLING, SHOVING and FIGHTING are missing from the table and so count as GREEN |
| Threat.LevelAt | CAM02/logic.py:208-209 | a person with no gesture recorded counts as WALKING, which is GREEN |
| Threat.FlagWith | CAM02/logic.py:213-224 | the inner loop raises the flag iff some later member is within the radius and one of the two shows the level |
| Threat.FlagAnyIff | CAM02/logic.py:212-224 | the double loop raises the flag iff some pair in the cluster is within the radius and one of the two shows the level |
| Threat.MaxLevelFrom | CAM02/logic.py:230-234 | the fallback loop returns the highest level among the members, or the starting GREEN |
| Threat.ClusterThreat | CAM02/logic.py:201-235 | RED if a close pair (under 100 px) involves a RED gesture; otherwise YELLOW if a pair under 200 px involves a YELLOW one; otherwise the highest member level |
| Threat.ClusterThreatIsMemberLevel | CAM02/logic.py:226-235 | the cluster's level is GREEN or the level of one of its members |
| Threat.SingleMemberThreat | CAM02/logic.py:201-235 | a single person's cluster has that person's level |
| Threat.YellowNeighbourMasksRed | CAM02/logic.py:220-229 | a RED and a YELLOW person between 100 and 200 px apart make a YELLOW cluster, below its highest member level |
| Threat.FlattenMembers | CAM02/logic.py:241-242 | the nested loops visit exactly the members of all clusters |
| Threat.PickWorst | CAM02/logic.py:241-249 | the loop returns the first gesture of strictly highest level when it beats the starting level, and the starting gesture otherwise |
| Threat.MostIndecentGestureSpec | CAM02/logic.py:237-249 | WALKING when every gesture in the frame is GREEN; otherwise the first gesture, in cluster order, of the highest level present |
| Gestures.LookupSpec | backend/src/main/java/com/Hackathon/backend/Model/GestureTag.java:8-34 | a name found in the list belongs to a listed constant; a name not found belongs to none |
| Gestures.NameInjective | backend/src/main/java/com/Hackathon/backend/Model/GestureTag.java:8-34 | two constants have the same name iff they are the same constant |
| Gestures.ValueOfSpec | backend/src/main/java/com/Hackathon/backend/Util/CsvReader.java:37 | `valueOf` succeeds exactly on the 24 constant names and returns the constant with that name |
| Gestures.ValueOfName | backend/src/main/java/com/Hackathon/backend/Util/CsvReader.java:37 | `valueOf(t.name())` is t |
| JavaText.TrimSpec | backend/src/main/java/com/Hackathon/backend/Util/CsvReader.java:33-37 | `trim` returns a contiguous middle part: only spaces are cut from either end, and the result starts and ends with a non-space |
| JavaText.TrimIdempotent | backend/src/main/java/com/Hackathon/backend/Util/CsvReader.java:33-37 | trimming twice is trimming once |
| JavaText.ToUpper | backend/src/main/java/com/Hackathon/backend/Util/CsvReader.java:37 | upper-casing maps each character on its own and keeps the length |
| JavaText.UpperCharSpec | backend/src/main/java/com/Hackathon/backend/Util/CsvReader.java:37 | exactly the lower-case ASCII letters change, each to its capital |
| JavaText.ToUpperIdempotent | backend/src/main/java/com/Hackathon/backend/Util/CsvReader.java:37 | the result has no lower-case letter, and upper-casing it again changes nothing |
| JavaText.JoinSplitAll | backend/src/main/java/com/Hackathon/backend/Util/CsvReader.java:24 | joining the pieces of a split with the separator gives the line back |
| JavaText.SplitAllJoin | backend/src/main/java/com/Hackathon/backend/Util/CsvReader.java:24 | splitting a join of separator-free pieces gives the pieces back |
| JavaText.DropTrailingEmpty | backend/src/main/java/com/Hackathon/backend/Util/CsvReader.java:24 | only trailing empty pieces are removed, and the last piece left is not empty |
| JavaText.JavaSplitSpec | backend/src/main/java/com/Hackathon/backend/Util/CsvReader.java:24 | `split(",")` gives a prefix of all the pieces, with trailing empty ones dropped; a line without a comma gives itself |
| JavaText.JavaSplitJoin | backend/src/main/java/com/Hackathon/backend/Util/CsvReader.java:24 | splitting a joined line whose last field is non-empty returns the fields |
| JavaText.DigitsValuePad | backend/src/main/java/com/Hackathon/backend/Util/CsvReader.java:33 | reading a zero-padded number gives the number back |
| JavaText.ParseDecimalInteger | backend/src/main/java/com/Hackathon/backend/Util/CsvReader.java:35-36 | a digit string parses to its value, and with a leading minus to its negation |
| JavaText.ParseDecimalNeedsDigit | backend/src/main/java/com/Hackathon/backend/Util/CsvReader.java:35-36 | a text without a digit is rejected |
| LocalTime.Of | backend/src/main/java/com/Hackathon/backend/Util/CsvReader.java:33 | a time built from hour, minute, second and nanosecond has exactly those fields |
| LocalTime.OfFields | backend/src/main/java/com/Hackathon/backend/Util/CsvReader.java:33 | a time is determined by its four fields |
| LocalTime.WholeSeconds | backend/src/main/java/com/Hackathon/backend/Service/AlertDispatchService.java:47 | dropping the fraction keeps the second of the day and zeroes the nanoseconds |
| LocalTime.FormatTime | backend/src/main/java/com/Hackathon/backend/Service/AlertDispatchService.java:47 | `HH:mm:ss` gives eight characters: six digits with colons at positions 2 and 5 |
| LocalTime.ParseFormat | backend/src/main/java/com/Hackathon/backend/Service/AlertDispatchService.java:47 | parsing a formatted time gives the time without its fraction of a second |
| LocalTime.FormatParse | backend/src/main/java/com/Hackathon/backend/Util/CsvReader.java:33 | an eight-character time that parses formats back to the same text |
| LocalTime.JavaRem | backend/src/main/java/com/Hackathon/backend/Util/SimulationClock.java:34 | Java's `%` is smaller than the divisor in magnitude and has the sign of the dividend |
| LocalTime.PlusSeconds | backend/src/main/java/com/Hackathon/backend/Util/SimulationClock.java:34 | `plusSeconds` keeps the nanoseconds |
| LocalTime.PlusSecondsModular | backend/src/main/java/com/Hackathon/backend/Util/SimulationClock.java:34 | adding seconds is adding them on a 24-hour dial, for negative amounts too |
| LocalTime.PlusSecondsAdd | backend/src/main/java/com/Hackathon/backend/Util/SimulationClock.java:34 | adding a seconds and then b seconds is adding a + b seconds |
| LocalTime.PlusSecondsDay | backend/src/main/java/com/Hackathon/backend/Util/SimulationClock.java:34 | adding a whole day gives the same time |
| LocalTime.PlusSecondsWraps | backend/src/main/java/com/Hackathon/backend/Service/CsvSimulatorService.java:58 | adding less than a day either stays on the same day or wraps past midnight to an earlier time |
| CsvReader.Decode | backend/src/main/java/com/Hackathon/backend/Util/CsvReader.java:31-52 | a line gives a record iff the time, both coordinates and the gesture all parse |
| CsvReader.ReadAlerts | backend/src/main/java/com/Hackathon/backend/Util/CsvReader.java:17-60 | there are never more records than lines |
| CsvReader.ShortLineSkipped | backend/src/main/java/com/Hackathon/backend/Util/CsvReader.java:26-29 | a line that splits into fewer than five fields yields nothing |
| CsvReader.ExtraFieldsIgnored | backend/src/main/java/com/Hackathon/backend/Util/CsvReader.java:33-37 | fields after the fifth do not affect the record |
| CsvReader.GestureCaseInsensitive | backend/src/main/java/com/Hackathon/backend/Util/CsvReader.java:37 | a gesture field that is the same after trimming and upper-casing gives the same record |
| CsvReader.ReadAlertsConcat | backend/src/main/java/com/Hackathon/backend/Util/CsvReader.java:23-53 | lines are read independently and in order |
| CsvReader.BadLineSkipped | backend/src/main/java/com/Hackathon/backend/Util/CsvReader.java:49-52 | a line whose parse throws is dropped without affecting the others |
| CsvReader.GoodLineKept | backend/src/main/java/com/Hackathon/backend/Util/CsvReader.java:48 | a line that parses contributes its record at its place |
| CsvReader.ReadAlertsSound | backend/src/main/java/com/Hackathon/backend/Util/CsvReader.java:17-60 | a record is in the result iff some line parses to it |
| CsvReader.ParseCleanLine | backend/src/main/java/com/Hackathon/backend/Util/CsvReader.java:24-37 | a line written from five comma-free, space-free fields decodes those fields, with the gesture upper-cased |
| CsvReader.ParseRenderedLine | backend/src/main/java/com/Hackathon/backend/Util/CsvReader.java:24-46 | such a line whose fields all parse gives the record made of them |
| SimClock.ToInt32 | backend/src/main/java/com/Hackathon/backend/Util/SimulationClock.java:28 | the `(int)` cast lands in the 32-bit range and agrees with the long value modulo 2^32 |
| SimClock.ToInt32InRange | backend/src/main/java/com/Hackathon/backend/Util/SimulationClock.java:28 | the cast leaves a value already in range unchanged |
| SimClock.MarkStart | backend/src/main/java/com/Hackathon/backend/Util/SimulationClock.java:17-20 | after `markStart` both fields are set |
| SimClock.WholeSecondsBetween | backend/src/main/java/com/Hackathon/backend/Util/SimulationClock.java:27-28 | `getSeconds` is the elapsed time rounded down to whole seconds |
| SimClock.ElapsedSeconds | backend/src/main/java/com/Hackathon/backend/Util/SimulationClock.java:23-29 | fails iff either field is unset, and otherwise returns a 32-bit value |
| SimClock.CurrentSimulatedTime | backend/src/main/java/com/Hackathon/backend/Util/SimulationClock.java:32-35 | fails iff the clock is not started; the simulated time keeps the fraction of a second of the first alert |
| SimClock.ElapsedIsWholeSeconds | backend/src/main/java/com/Hackathon/backend/Util/SimulationClock.java:23-29 | within 2^31 s of the start, the result is the real elapsed time in whole seconds |
| SimClock.SimulatedTimeModular | backend/src/main/java/com/Hackathon/backend/Util/SimulationClock.java:32-35 | the simulated time is the first alert's time plus the elapsed seconds, on a 24-hour dial |
| SimClock.StartShowsFirstAlert | backend/src/main/java/com/Hackathon/backend/Util/SimulationClock.java:17-35 | during the first real second, the simulated time is the first alert's time |
| SimClock.MarkStartForgets | backend/src/main/java/com/Hackathon/backend/Util/SimulationClock.java:17-20 | `markStart` overwrites everything, so the clock's earlier state does not matter |
| SimClock.RestartReplaces | backend/src/main/java/com/Hackathon/backend/Util/SimulationClock.java:17-20 | a second `markStart` replaces the first |
| SimClock.UnstartedFails | backend/src/main/java/com/Hackathon/backend/Util/SimulationClock.java:24-26 | an unstarted clock throws from both getters |
| Simulator.InitializeIfNeeded | backend/src/main/java/com/Hackathon/backend/Service/CsvSimulatorService.java:34-43 | succeeds iff already initialised or the file has a record; on failure the service stays uninitialised; once initialised it changes nothing |
| Simulator.InitSortsStably | backend/src/main/java/com/Hackathon/backend/Service/CsvSimulatorService.java:36-37 | the timeline is the records sorted by time: a permutation that keeps the file order among equal times |
| Simulator.ClockStartsAtEarliest | backend/src/main/java/com/Hackathon/backend/Service/CsvSimulatorService.java:37-39 | the clock starts at the time of a record that no other record precedes |
| Simulator.EmptyFileFails | backend/src/main/java/com/Hackathon/backend/Service/CsvSimulatorService.java:38 | with no usable line, the request throws, and both the initialised flag and the clock are left as they were |
| Simulator.GetCurrentAlerts | backend/src/main/java/com/Hackathon/backend/Service/CsvSimulatorService.java:48-62 | a failed initialisation makes the request fail, and the request leaves the service as initialisation left it |
| Simulator.GetCurrentAlertsKeepsInv | backend/src/main/java/com/Hackathon/backend/Service/CsvSimulatorService.java:34-62 | an initialised service keeps a sorted, non-empty timeline and a clock started at its first record |
| Simulator.InitializeOnce | backend/src/main/java/com/Hackathon/backend/Service/CsvSimulatorService.java:35 | after a successful request, later requests neither reread the file nor restart the clock |
| Simulator.InitializedNeverFails | backend/src/main/java/com/Hackathon/backend/Service/CsvSimulatorService.java:48-62 | once initialised, every request succeeds, leaves the service unchanged and returns the window at the current simulated time |
| Simulator.FirstRequest | backend/src/main/java/com/Hackathon/backend/Service/CsvSimulatorService.java:34-62 | the first request with a usable file returns the records of the first two simulated seconds, counted from the earliest one |
| Simulator.WindowMembers | backend/src/main/java/com/Hackathon/backend/Service/CsvSimulatorService.java:53-61 | an alert is returned iff it is in the timeline, not before now, and before now plus two seconds |
| Simulator.WindowSorted | backend/src/main/java/com/Hackathon/backend/Service/CsvSimulatorService.java:53-61 | the returned alerts keep the timeline's order |
| Simulator.WindowBeforeMidnight | backend/src/main/java/com/Hackathon/backend/Service/CsvSimulatorService.java:57-58 | away from midnight, the window is the two seconds starting now |
| Simulator.WindowEmptyNearMidnight | backend/src/main/java/com/Hackathon/backend/Service/CsvSimulatorService.java:57-58 | from two seconds before midnight on, the window is empty |
| Dispatch.FindById | backend/src/main/java/com/Hackathon/backend/Service/AlertDispatchService.java:34 | the lookup finds a row iff the key is stored |
| Dispatch.SaveAllKeys | backend/src/main/java/com/Hackathon/backend/MyConfig/DataInitializer.java:17-45 | after `saveAll` the repository holds exactly the old keys and the rows' keys |
| Dispatch.SaveAllFinds | backend/src/main/java/com/Hackathon/backend/MyConfig/DataInitializer.java:17-45 | with distinct keys, each saved row is found under its key |
| Dispatch.SaveAllKeeps | backend/src/main/java/com/Hackathon/backend/MyConfig/DataInitializer.java:17-45 | a key no row carries keeps its row |
| Dispatch.SeverityTenths | backend/src/main/java/com/Hackathon/backend/Service/AlertDispatchService.java:66-70 | the integer tenths equal ten times the weighted sum, exactly |
| Dispatch.SeverityBounds | backend/src/main/java/com/Hackathon/backend/Service/AlertDispatchService.java:66-70 | scores from 0 to 10 give a severity from 0 to 10; each extreme is reached only when all three scores are at it |
| Dispatch.SeverityMonotone | backend/src/main/java/com/Hackathon/backend/Service/AlertDispatchService.java:66-70 | raising a score never lowers the severity |
| Dispatch.ToDto | backend/src/main/java/com/Hackathon/backend/Service/AlertDispatchService.java:44-56 | the DTO carries the record's camera and position, the metadata's description and severity, and an eight-character time |
| Dispatch.ToDtosSingle | backend/src/main/java/com/Hackathon/backend/Service/AlertDispatchService.java:34-39 | a record whose gesture has no row is skipped; any other becomes exactly its DTO |
| Dispatch.ToDtosConcat | backend/src/main/java/com/Hackathon/backend/Service/AlertDispatchService.java:29-59 | records are converted independently and in order |
| Dispatch.ToDtosAllKnown | backend/src/main/java/com/Hackathon/backend/Service/AlertDispatchService.java:29-59 | when every gesture has a row, nothing is dropped |
| Dispatch.ToDtosMembers | backend/src/main/java/com/Hackathon/backend/Service/AlertDispatchService.java:26-64 | a DTO is in the output iff it is built from some record with a known gesture and that gesture's row |
| Dispatch.DtoTime | backend/src/main/java/com/Hackathon/backend/Service/AlertDispatchService.java:47 | the DTO's time reads back as the record's time without its fraction |
| SeedData.SeedKeysDistinct | backend/src/main/java/com/Hackathon/backend/MyConfig/DataInitializer.java:17-45 | the 24 seeded rows have distinct keys |
| SeedData.SeedRowsFacts | backend/src/main/java/com/Hackathon/backend/MyConfig/DataInitializer.java:17-45 | every seeded score is from 0 to 10. A row's gesture is RED in the threat table iff its aggression is at least 7, YELLOW iff it is 2 to 6, and GREEN iff it is below 2 |
| SeedData.SeedSeverityExtremes | backend/src/main/java/com/Hackathon/backend/MyConfig/DataInitializer.java:18-44 | every seeded severity lies between 0.3 and 9.5, and SITTING and PUNCHING reach the two ends |
| SeedData.RowOf | backend/src/main/java/com/Hackathon/backend/MyConfig/DataInitializer.java:17-45 | every gesture constant has a seeded row |
| SeedData.TagOf | backend/src/main/java/com/Hackathon/backend/MyConfig/DataInitializer.java:17-45 | every seeded key is the name of a gesture constant |
| SeedData.SeededRows | backend/src/main/java/com/Hackathon/backend/MyConfig/DataInitializer.java:17-45 | the seeded repository holds exactly the seeded keys, each with one of the seeded rows |
| SeedData.SeededKeysAreNames | backend/src/main/java/com/Hackathon/backend/MyConfig/DataInitializer.java:17-45 | its keys are exactly the gesture names, each stored under its own name |
| SeedData.SeededKnowsEveryGesture | backend/src/main/java/com/Hackathon/backend/MyConfig/DataInitializer.java:17-45 | every gesture finds its metadata |
| SeedData.SeededNeverDrops | backend/src/main/java/com/Hackathon/backend/Service/AlertDispatchService.java:36-39 | with the seeded repository, no record is ever skipped |
| SeedData.SeededDtoSeverity | backend/src/main/java/com/Hackathon/backend/Service/AlertDispatchService.java:44 | with the seeded repository, every severity is from 0.3 to 9.5 |
| Seqs.FilterMembers | frontend/src/App.tsx:120 | `filter` keeps exactly the elements that pass the test |
| Seqs.FilterKeepsAllIff | frontend/src/App.tsx:120 | `filter` changes nothing iff every element passes |
| Seqs.FilterIdempotent | frontend/src/App.tsx:120 | filtering twice with the same test is filtering once |
| Seqs.SortByIsStableSort | backend/src/main/java/com/Hackathon/backend/Service/CsvSimulatorService.java:37 | `List.sort` with a key comparator orders by key, permutes its input and keeps the input order among equal keys |
| Seqs.SortedHeadIsLeast | backend/src/main/java/com/Hackathon/backend/Service/CsvSimulatorService.java:38 | the first element of a sorted list has the least key |
| Dashboard.TiersPartition | frontend/src/App.tsx:131-143 | every severity falls in exactly one tier |
| Dashboard.TextColorAgree | frontend/src/App.tsx:131-143 | the label and the colour name the same tier, and name it iff the severity is in it |
| Dashboard.TierBoundaries | frontend/src/App.tsx:138-143 | the bounds are strict: 80 is High, 60 is Medium, 40 is Low |
| Dashboard.TierMonotone | frontend/src/App.tsx:131-143 | a higher severity never gets a lower tier |
| Dashboard.CountsPartition | frontend/src/App.tsx:209-224 | the four tier counts add up to the number of alerts |
| Dashboard.CountMatchesLabels | frontend/src/App.tsx:209-224 | each count is the number of alerts whose label is that tier |
| Dashboard.Refresh | frontend/src/App.tsx:107-116 | a poll replaces the alerts and the update time and leaves the selection, the map target and the mode alone |
| Dashboard.Dismiss | frontend/src/App.tsx:119-125 | dismissal changes neither the mode nor the update time |
| Dashboard.Select | frontend/src/App.tsx:249-252 | clicking an alert selects it and flies the map to its position |
| Dashboard.CloseDetails | frontend/src/App.tsx:155-158 | closing clears the selection and the map target and keeps the alerts |
| Dashboard.HandleLogin | frontend/src/App.tsx:145-148 | a login enters official mode and closes the form |
| Dashboard.HandleLogout | frontend/src/App.tsx:150-152 | a logout leaves official mode and changes nothing else |
| Dashboard.StepKeepsInv | frontend/src/App.tsx:97-158 | every event keeps two facts: the map target is set iff something is selected, and the login form is never open in official mode |
| Dashboard.DismissAlerts | frontend/src/App.tsx:120 | dismissal keeps exactly the alerts with another id, changes nothing iff no alert has that id, and a second dismissal of the same id does nothing more |
| Dashboard.DismissSelection | frontend/src/App.tsx:121-124 | the selection is cleared iff it had the dismissed id, and the map target is reset with it |
| Dashboard.GuestCannotDismiss | frontend/src/App.tsx:317-336 | outside official mode, no click changes the alerts |
| Dashboard.PollAfterDismiss | frontend/src/App.tsx:107-125 | the next poll replaces the list with the fetched data whatever was dismissed, and a selection the dismissal did not touch survives it |
| Dashboard.SelectThenClose | frontend/src/App.tsx:155-158 | clicking a row selects it; closing then clears the selection and the map target and leaves the list alone |
| Dashboard.LoginLogout | frontend/src/App.tsx:145-152 | logging in and out again leaves the page as before, with the login form closed |
| Dashboard.LoginFlow | frontend/src/components/LoginPage.tsx:15-31 | from guest mode, submitting and letting the check run ends in official mode iff the credentials are one of the accepted pairs |
| Dashboard.CloseDuringDelay | frontend/src/App.tsx:411-415 | closing the form does not cancel the pending check: with the form closed in between, the page still ends in official mode iff the credentials are accepted, and the form stays closed |
| Login.Submit | frontend/src/components/LoginPage.tsx:15-21 | an enabled submit clears the error, shows the spinner and captures the credentials; a disabled one changes nothing |
| Login.Resolve | frontend/src/components/LoginPage.tsx:21-30 | the spinner always stops and the fields are kept |
| Login.SubmitResolve | frontend/src/components/LoginPage.tsx:15-31 | login succeeds iff the pair is admin/admin123 or officer/officer123; only a failure shows the message |
| Login.EditsDuringDelayIgnored | frontend/src/components/LoginPage.tsx:21-28 | typing during the delay does not change the outcome |
| Login.NoDoubleSubmit | frontend/src/components/LoginPage.tsx:101 | while loading, the disabled button submits nothing |
| Login.CredentialsAreExact | frontend/src/components/LoginPage.tsx:22-24 | the comparison is exact: other cases or cross-paired passwords fail |
| Login.TogglePassword | frontend/src/components/LoginPage.tsx:79 | the eye button flips the visibility and keeps the credentials |
| Menu.VisibleSections | frontend/src/components/HamburgerMenu.tsx:215-377 | the official sections are listed iff the user is official; the others always are |
| Menu.FeatureClick | frontend/src/components/HamburgerMenu.tsx:31-33 | a click expands the clicked section unless it was the expanded one, which it collapses |
| Menu.ClickTwice | frontend/src/components/HamburgerMenu.tsx:31-33 | two clicks on a section restore the state iff nothing or that section was expanded |
| Menu.Render | frontend/src/components/HamburgerMenu.tsx:26-29 | a closed menu renders nothing; an open one shows the visible sections with at most the active one expanded |
| Menu.ReopenKeepsSection | frontend/src/components/HamburgerMenu.tsx:27-29 | closing and reopening keeps the expanded section, and an official section is hidden after logout |
| Menu.ColonsToDashes | frontend/src/components/HamburgerMenu.tsx:36 | `replace(/:/g, '-')` changes each colon to a dash and nothing else |
| Menu.StampOfIsoInstant | frontend/src/components/HamburgerMenu.tsx:36 | the stamp is the ISO date and time to the second, with dashes for colons; putting the colons back restores it |
| Menu.ExportFileNameShape | frontend/src/components/HamburgerMenu.tsx:35-38 | the file name is the fixed prefix, the 19-character stamp, a dot and the format |

## Left out

- Reading the CSV file and the `IOException` path (`CsvReader.java:20,55-57`): the model starts from the file's lines.
- Console output and stack traces: they have no effect on results.
- The computer-vision pipeline around the scene logic: YOLO detection, DeepSORT tracking, pose estimation, `detect_gesture` and `classify_gender`. These are foreign libraries and floating-point heuristics. Each person's gesture is an input.
- Spring wiring, JPA persistence and the REST controller: the repository is a map and each request is a function call.
- Concurrency: `synchronized`, `setInterval` and `setTimeout`. Each callback is a separate step, applied in the order the caller chooses.
- Clustering.Components: a cluster's members are listed in visit order, starting at the id the search began from. Python's `list(set)` lists them in hash order, which the model does not reproduce, so ties between equally graded gestures inside one cluster may break differently in `get_most_indecent_gesture`.
- Clocks: `Instant.now()` and `new Date()` are parameters. The two `Instant.now()` calls in a first request are taken to be the same instant.
- Geometry.SqDist: `math.hypot` is compared squared. This matches the float comparison exactly only up to floating-point rounding.
- Dispatch.SeverityTenths: the severity is exact tenths. The `double` rounding of `0.5a + 0.3p + 0.2m` is not modelled.
- JavaText.ParseDecimal: only the decimal subset of `Double.parseDouble` is modelled: a sign, digits and an optional fraction. Exponents, hexadecimal, `NaN`, `Infinity`, type suffixes and surrounding whitespace are rejected, where Java would accept them.
- JavaText.ToUpper: only ASCII letters are mapped. Java's full Unicode case mapping and locale rules are left out.
- LocalTime.ParseTime: accepts `HH:mm`, `HH:mm:ss` and `HH:mm:ss.f` with zero to nine fraction digits, as `LocalTime.parse` does; a bare trailing `.` parses. Error messages are not modelled.
- Dashboard: rendering, the map, `alert()` pop-ups, `alertAuthorities` and the hard-coded demo data of `fetchAlerts` are left out. A poll's data is a parameter.
- Menu: the section bodies, `generateReport` and the other pop-up-only buttons are left out. `exportData`'s time is an ISO string parameter.
