/** `CsvSimulatorService`: on the first request the alert file is read, sorted
    by timestamp and the simulation clock is started at the earliest alert;
    every request returns the alerts of the two simulated seconds starting
    at the current simulated time. The service is a value and each request a
    step from one value to the next. */
module Simulator {
  import opened Wrappers
  import opened Seqs
  import opened LocalTime
  import opened CsvReader
  import opened SimClock

  /** The service's fields `initialized`, `alertTimeline` and its clock. */
  datatype Service = Service(initialized: bool, timeline: seq<AlertRecord>, clock: Clock)

  /** The service as Spring constructs it. */
  const Fresh: Service := Service(false, [], Unstarted)

  /** `NoSuchElementException` from `getFirst` on an empty list, or the
      clock's `IllegalStateException`. */
  datatype Fault = NoSuchElement | ClockFault(error: ClockError)

  /** The state after a call and what the call returned or threw. */
  datatype Step<T> = Step(service: Service, outcome: Result<T, Fault>)

  /** The sort key `AlertRecord::getTimestamp`. */
  function Timestamp(a: AlertRecord): int {
    a.timestamp
  }

  /** The service invariant: once initialised, the timeline is non-empty and
      sorted, and the clock was started at its first alert. */
  predicate Inv(s: Service) {
    s.initialized ==>
      |s.timeline| > 0 && SortedBy(s.timeline, Timestamp)
      && s.clock.realStart.Some? && s.clock.offset == Some(s.timeline[0].timestamp)
  }

  /** `initializeIfNeeded()`, with the file's lines and the real instant as
      parameters. On an empty file the sorted (empty) list is stored before
      `getFirst` throws, and `initialized` stays false. */
  function InitializeIfNeeded(s: Service, lines: seq<string>, now: Instant): (r: Step<()>)
    ensures r.outcome.Ok? <==> s.initialized || |ReadAlerts(lines)| > 0
    ensures r.outcome.Err? ==> r.outcome.error == NoSuchElement && !r.service.initialized
    ensures r.outcome.Ok? ==> r.service.initialized
    ensures s.initialized ==> r.service == s
  {
    if s.initialized then Step(s, Ok(()))
    else
      var timeline := SortBy(ReadAlerts(lines), Timestamp);
      if |timeline| == 0 then Step(s.(timeline := timeline), Err(NoSuchElement))
      else Step(Service(true, timeline, MarkStart(s.clock, now, timeline[0].timestamp)), Ok(()))
  }

  /** The filter of `getCurrentAlerts`: not before `now` and before `now`
      plus two seconds, the latter computed with `plusSeconds`. */
  function InWindow(now: Time): AlertRecord -> bool {
    (a: AlertRecord) => !(a.timestamp < now) && a.timestamp < PlusSeconds(now, 2)
  }

  /** The alerts of the timeline that fall in the window at `now`, in timeline order. */
  function Window(timeline: seq<AlertRecord>, now: Time): (r: seq<AlertRecord>)
    ensures |r| <= |timeline|
  {
    Filter(timeline, InWindow(now))
  }

  /** `getCurrentAlerts()` at real instant `now`. */
  function GetCurrentAlerts(s: Service, lines: seq<string>, now: Instant): (r: Step<seq<AlertRecord>>)
    ensures InitializeIfNeeded(s, lines, now).outcome.Err? ==> r.outcome.Err?
    ensures r.service == InitializeIfNeeded(s, lines, now).service
  {
    var init := InitializeIfNeeded(s, lines, now);
    if init.outcome.Err? then Step(init.service, Err(init.outcome.error))
    else
      match CurrentSimulatedTime(init.service.clock, now)
      case Err(e) => Step(init.service, Err(ClockFault(e)))
      case Ok(simNow) => Step(init.service, Ok(Window(init.service.timeline, simNow)))
  }

  // ---------------------------------------------------------------------------
  // Initialisation

  /** The freshly constructed service satisfies the invariant. */
  lemma FreshInv()
    ensures Inv(Fresh)
  {
  }

  /** Initialisation stores the records read, sorted by timestamp: a
      permutation, in ascending order, with records of equal timestamp in
      file order. */
  lemma InitSortsStably(s: Service, lines: seq<string>, now: Instant)
    requires !s.initialized
    ensures var tl := InitializeIfNeeded(s, lines, now).service.timeline;
      SortedBy(tl, Timestamp)
      && multiset(tl) == multiset(ReadAlerts(lines))
      && forall k :: Filter(tl, HasKey(Timestamp, k)) == Filter(ReadAlerts(lines), HasKey(Timestamp, k))
  {
    SortByIsStableSort(ReadAlerts(lines), Timestamp);
  }

  /** The clock is started at the earliest timestamp in the file. */
  lemma ClockStartsAtEarliest(s: Service, lines: seq<string>, now: Instant)
    requires !s.initialized && |ReadAlerts(lines)| > 0
    ensures var c := InitializeIfNeeded(s, lines, now).service.clock;
      c.realStart == Some(now) && c.offset.Some?
      && (exists a :: a in ReadAlerts(lines) && c.offset.value == a.timestamp)
      && forall a :: a in ReadAlerts(lines) ==> c.offset.value <= a.timestamp
  {
    var recs := ReadAlerts(lines);
    var tl := SortBy(recs, Timestamp);
    SortByIsStableSort(recs, Timestamp);
    SortedHeadIsLeast(tl, Timestamp);
    assert tl[0] in multiset(recs);
    forall a | a in recs
      ensures tl[0].timestamp <= a.timestamp
    {
      assert a in multiset(tl);
      var k :| 0 <= k < |tl| && tl[k] == a;
      assert Timestamp(tl[0]) <= Timestamp(tl[k]);
    }
  }

  /** A file without a single readable record makes the first request throw
      `NoSuchElementException`; the service stays uninitialised and the next
      request tries again. */
  lemma EmptyFileFails(s: Service, lines: seq<string>, now: Instant)
    requires !s.initialized && ReadAlerts(lines) == []
    ensures GetCurrentAlerts(s, lines, now).outcome == Err(NoSuchElement)
    ensures !GetCurrentAlerts(s, lines, now).service.initialized
    ensures GetCurrentAlerts(s, lines, now).service.clock == s.clock
  {
  }

  /** Every request keeps the invariant. */
  lemma GetCurrentAlertsKeepsInv(s: Service, lines: seq<string>, now: Instant)
    requires Inv(s)
    ensures Inv(GetCurrentAlerts(s, lines, now).service)
  {
    if !s.initialized && |ReadAlerts(lines)| > 0 {
      SortByIsStableSort(ReadAlerts(lines), Timestamp);
    }
  }

  /** Initialisation happens once: after a successful request, later requests
      neither re-read the file nor restart the clock, whatever the file now holds. */
  lemma InitializeOnce(s: Service, lines1: seq<string>, now1: Instant, lines2: seq<string>, now2: Instant)
    requires GetCurrentAlerts(s, lines1, now1).outcome.Ok?
    ensures var s1 := GetCurrentAlerts(s, lines1, now1).service;
      GetCurrentAlerts(s1, lines2, now2).service == s1
  {
  }

  /** On an initialised service the clock is always running, so a request
      never fails and returns the window at the current simulated time. */
  lemma InitializedNeverFails(s: Service, lines: seq<string>, now: Instant)
    requires Inv(s) && s.initialized
    ensures CurrentSimulatedTime(s.clock, now).Ok?
    ensures GetCurrentAlerts(s, lines, now)
         == Step(s, Ok(Window(s.timeline, CurrentSimulatedTime(s.clock, now).value)))
  {
  }

  /** The first request returns the alerts of the first two simulated
      seconds, counted from the earliest alert. */
  lemma FirstRequest(s: Service, lines: seq<string>, now: Instant)
    requires !s.initialized && |ReadAlerts(lines)| > 0
    ensures var tl := SortBy(ReadAlerts(lines), Timestamp);
      GetCurrentAlerts(s, lines, now).outcome == Ok(Window(tl, tl[0].timestamp))
  {
    var tl := SortBy(ReadAlerts(lines), Timestamp);
    StartShowsFirstAlert(s.clock, now, tl[0].timestamp, now);
  }

  // ---------------------------------------------------------------------------
  // The window

  /** The window holds exactly the timeline's alerts from `now` inclusive to
      `now` plus two seconds (as `plusSeconds` computes it) exclusive. */
  lemma WindowMembers(timeline: seq<AlertRecord>, now: Time, a: AlertRecord)
    ensures a in Window(timeline, now)
       <==> a in timeline && now <= a.timestamp && a.timestamp < PlusSeconds(now, 2)
  {
    FilterMembers(timeline, InWindow(now));
  }

  /** The window of a sorted timeline is sorted. */
  lemma WindowSorted(timeline: seq<AlertRecord>, now: Time)
    requires SortedBy(timeline, Timestamp)
    ensures SortedBy(Window(timeline, now), Timestamp)
  {
    FilterKeepsSorted(timeline, InWindow(now), Timestamp);
  }

  /** Before 23:59:58 the window is the two seconds `[now, now + 2 s)`. */
  lemma WindowBeforeMidnight(now: Time, a: AlertRecord)
    requires now + 2 * NanosPerSecond < NanosPerDay
    ensures InWindow(now)(a) <==> now <= a.timestamp < now + 2 * NanosPerSecond
  {
    PlusSecondsWraps(now, 2);
  }

  /** From 23:59:58 on, `now.plusSeconds(2)` wraps past midnight to a time
      before `now`, so no alert is ever returned. */
  lemma WindowEmptyNearMidnight(timeline: seq<AlertRecord>, now: Time)
    requires now + 2 * NanosPerSecond >= NanosPerDay
    ensures Window(timeline, now) == []
  {
    PlusSecondsWraps(now, 2);
    FilterNone(timeline, InWindow(now));
  }
}
