/** The dashboard page (`SafetyDashboard`): the alert list with its severity
    tiers and counts, the selected alert and map target, and the official
    mode. Every handler is a function from one state to the next; what the
    user can click in a given state is spelled out by `Step`. */
module Dashboard {
  import opened Wrappers
  import opened Seqs
  import opened Login

  /** The frontend's `Alert`. */
  datatype Alert = Alert(
    id: int,
    lat: real,
    lng: real,
    kind: string,
    severity: real,
    time: string,
    description: string,
    location: string)

  /** A map position `[lat, lng]`. */
  datatype Position = Position(lat: real, lng: real)

  // ---------------------------------------------------------------------------
  // Severity tiers

  /** `getSeverityText`. */
  function SeverityText(severity: real): string {
    if severity > 80.0 then "Critical"
    else if severity > 60.0 then "High"
    else if severity > 40.0 then "Medium"
    else "Low"
  }

  /** `getSeverityColor`. */
  function SeverityColor(severity: real): string {
    if severity > 80.0 then "bg-red-500"
    else if severity > 60.0 then "bg-orange-500"
    else if severity > 40.0 then "bg-yellow-500"
    else "bg-green-500"
  }

  datatype Tier = Low | Medium | High | Critical

  /** The range the stats bar counts for each tier. */
  predicate InTier(severity: real, t: Tier) {
    match t
    case Critical => severity > 80.0
    case High => 60.0 < severity <= 80.0
    case Medium => 40.0 < severity <= 60.0
    case Low => severity <= 40.0
  }

  function TierText(t: Tier): string {
    match t
    case Critical => "Critical"
    case High => "High"
    case Medium => "Medium"
    case Low => "Low"
  }

  function TierColor(t: Tier): string {
    match t
    case Critical => "bg-red-500"
    case High => "bg-orange-500"
    case Medium => "bg-yellow-500"
    case Low => "bg-green-500"
  }

  /** Every severity lies in exactly one tier. */
  lemma TiersPartition(severity: real)
    ensures exists t :: InTier(severity, t)
    ensures forall t, u :: InTier(severity, t) && InTier(severity, u) ==> t == u
  {
    if severity > 80.0 { assert InTier(severity, Critical); }
    else if severity > 60.0 { assert InTier(severity, High); }
    else if severity > 40.0 { assert InTier(severity, Medium); }
    else { assert InTier(severity, Low); }
  }

  /** The text, the colour and the stats-bar range all name the same tier. */
  lemma TextColorAgree(severity: real, t: Tier)
    ensures SeverityText(severity) == TierText(t) <==> InTier(severity, t)
    ensures SeverityColor(severity) == TierColor(t) <==> InTier(severity, t)
  {
  }

  /** The tier bounds are exclusive below: 80 is High, 60 is Medium, 40 is Low. */
  lemma TierBoundaries()
    ensures SeverityText(80.0) == "High" && SeverityText(60.0) == "Medium" && SeverityText(40.0) == "Low"
    ensures SeverityText(80.5) == "Critical"
  {
  }

  /** A higher severity never gets a lower tier. */
  function TierRank(t: Tier): int {
    match t
    case Low => 0
    case Medium => 1
    case High => 2
    case Critical => 3
  }

  lemma TierMonotone(s1: real, s2: real, t1: Tier, t2: Tier)
    requires s1 <= s2 && InTier(s1, t1) && InTier(s2, t2)
    ensures TierRank(t1) <= TierRank(t2)
  {
  }

  // ---------------------------------------------------------------------------
  // The stats bar

  /** The filter behind one badge of the stats bar. */
  function TierFilter(t: Tier): Alert -> bool {
    (a: Alert) => InTier(a.severity, t)
  }

  /** The number shown next to one tier's badge. */
  function Count(alerts: seq<Alert>, t: Tier): (n: nat)
    ensures n <= |alerts|
  {
    |Filter(alerts, TierFilter(t))|
  }

  /** The four counts add up to "Total Active Alerts". */
  lemma {:induction false} CountsPartition(alerts: seq<Alert>)
    ensures Count(alerts, Critical) + Count(alerts, High) + Count(alerts, Medium) + Count(alerts, Low)
         == |alerts|
    decreases |alerts|
  {
    if alerts != [] {
      CountsPartition(alerts[1..]);
      TiersPartition(alerts[0].severity);
    }
  }

  /** A badge counts exactly the rows of the list labelled with its tier. */
  lemma CountMatchesLabels(alerts: seq<Alert>, t: Tier)
    ensures Count(alerts, t) == |Filter(alerts, (a: Alert) => SeverityText(a.severity) == TierText(t))|
  {
    forall k | 0 <= k < |alerts|
      ensures TierFilter(t)(alerts[k]) == (SeverityText(alerts[k].severity) == TierText(t))
    {
      TextColorAgree(alerts[k].severity, t);
    }
    FilterExt(alerts, TierFilter(t), (a: Alert) => SeverityText(a.severity) == TierText(t));
  }

  // ---------------------------------------------------------------------------
  // Page state and handlers

  /** The page's state hooks. `lastUpdate` is a clock reading. */
  datatype Page = Page(
    alerts: seq<Alert>,
    selected: Option<Alert>,
    flyTo: Option<Position>,
    isOfficial: bool,
    showLogin: bool,
    showMenu: bool,
    lastUpdate: int)

  /** The page as first rendered at time `now`. */
  function Initial(now: int): (p: Page)
    ensures p.alerts == [] && p.selected.None? && !p.isOfficial
  {
    Page([], None, None, false, false, false, now)
  }

  /** `loadData`: the fetched list replaces the whole list. */
  function Refresh(p: Page, data: seq<Alert>, now: int): (r: Page)
    ensures r.alerts == data && r.lastUpdate == now
    ensures r.selected == p.selected && r.flyTo == p.flyTo && r.isOfficial == p.isOfficial
  {
    p.(alerts := data, lastUpdate := now)
  }

  /** The filter of `dismissAlert`. */
  function OtherId(id: int): Alert -> bool {
    (a: Alert) => a.id != id
  }

  /** `dismissAlert(id)`: drops every alert with that id; clears the
      selection and the map target when the selected alert has that id. */
  function Dismiss(p: Page, id: int): (r: Page)
    ensures r.isOfficial == p.isOfficial && r.lastUpdate == p.lastUpdate
  {
    var alerts := Filter(p.alerts, OtherId(id));
    if p.selected.Some? && p.selected.value.id == id then p.(alerts := alerts, selected := None, flyTo := None)
    else p.(alerts := alerts)
  }

  /** Clicking a marker or a row: the clicked alert itself is stored, and the
      map flies to it. */
  function Select(p: Page, a: Alert): (r: Page)
    ensures r.selected == Some(a) && r.flyTo == Some(Position(a.lat, a.lng))
    ensures r.alerts == p.alerts && r.isOfficial == p.isOfficial
  {
    p.(selected := Some(a), flyTo := Some(Position(a.lat, a.lng)))
  }

  /** `handleCloseDetails`. */
  function CloseDetails(p: Page): (r: Page)
    ensures r.selected.None? && r.flyTo.None? && r.alerts == p.alerts
  {
    p.(selected := None, flyTo := None)
  }

  /** `handleLogin`, the form's `onLogin`. */
  function HandleLogin(p: Page): (r: Page)
    ensures r.isOfficial && !r.showLogin && r.alerts == p.alerts && r.selected == p.selected
  {
    p.(isOfficial := true, showLogin := false)
  }

  /** `handleLogout`: only official mode ends; nothing else changes. */
  function HandleLogout(p: Page): (r: Page)
    ensures !r.isOfficial && r.alerts == p.alerts && r.selected == p.selected && r.flyTo == p.flyTo
    ensures r.showLogin == p.showLogin && r.showMenu == p.showMenu && r.lastUpdate == p.lastUpdate
  {
    p.(isOfficial := false)
  }

  /** What can happen to the page: a poll, a click on something the page
      shows, or the login form's timer calling `onLogin` (`LoginSucceeded`),
      which may fire after the form was closed. Rows and markers are
      addressed by their position in the list. */
  datatype Event =
    | Poll(data: seq<Alert>, now: int)
    | ClickAlert(index: int)
    | CloseDetailsClicked
    | DismissRowClicked(index: int)
    | DismissSelectedClicked
    | LoginButtonClicked
    | LoginClosed
    | LoginSucceeded
    | LogoutClicked
    | MenuButtonClicked
    | MenuClosed

  /** The page after an event. A click on something the page does not show
      in its current state (a dismiss button outside official mode, the
      login button in official mode, a row that is not there) changes nothing. */
  function Step(p: Page, e: Event): Page {
    match e
    case Poll(data, now) => Refresh(p, data, now)
    case ClickAlert(i) => if 0 <= i < |p.alerts| then Select(p, p.alerts[i]) else p
    case CloseDetailsClicked => if p.selected.Some? then CloseDetails(p) else p
    case DismissRowClicked(i) => if p.isOfficial && 0 <= i < |p.alerts| then Dismiss(p, p.alerts[i].id) else p
    case DismissSelectedClicked => if p.isOfficial && p.selected.Some? then Dismiss(p, p.selected.value.id) else p
    case LoginButtonClicked => if !p.isOfficial then p.(showLogin := true) else p
    case LoginClosed => p.(showLogin := false)
    case LoginSucceeded => HandleLogin(p)
    case LogoutClicked => if p.isOfficial then HandleLogout(p) else p
    case MenuButtonClicked => p.(showMenu := true)
    case MenuClosed => p.(showMenu := false)
  }

  /** What holds on every reachable page: the map flies to the selected
      alert's position and nowhere when nothing is selected; the login form
      is never open in official mode. */
  predicate Inv(p: Page) {
    (p.selected.None? <==> p.flyTo.None?)
    && (p.selected.Some? ==> p.flyTo == Some(Position(p.selected.value.lat, p.selected.value.lng)))
    && (p.isOfficial ==> !p.showLogin)
  }

  lemma InitialInv(now: int)
    ensures Inv(Initial(now))
  {
  }

  lemma StepKeepsInv(p: Page, e: Event)
    requires Inv(p)
    ensures Inv(Step(p, e))
  {
  }

  /** Dismiss keeps exactly the alerts with another id, in their order; a
      missing id changes nothing, so dismissing twice is dismissing once. */
  lemma DismissAlerts(p: Page, id: int)
    ensures forall a :: a in Dismiss(p, id).alerts <==> a in p.alerts && a.id != id
    ensures (forall k :: 0 <= k < |p.alerts| ==> p.alerts[k].id != id) <==> Dismiss(p, id).alerts == p.alerts
    ensures Dismiss(Dismiss(p, id), id).alerts == Dismiss(p, id).alerts
  {
    var keep := OtherId(id);
    var q := Dismiss(p, id);
    assert q.alerts == Filter(p.alerts, keep);
    assert Dismiss(q, id).alerts == Filter(q.alerts, keep);
    FilterMembers(p.alerts, keep);
    FilterKeepsAllIff(p.alerts, keep);
    FilterIdempotent(p.alerts, keep);
  }

  /** Dismiss clears the selection and the map target exactly when the
      selected alert has the dismissed id, and leaves both alone otherwise. */
  lemma DismissSelection(p: Page, id: int)
    ensures Dismiss(p, id).selected.None? <==> p.selected.None? || p.selected.value.id == id
    ensures !(p.selected.Some? && p.selected.value.id == id) ==>
      Dismiss(p, id).selected == p.selected && Dismiss(p, id).flyTo == p.flyTo
    ensures p.selected.Some? && p.selected.value.id == id ==> Dismiss(p, id).flyTo.None?
  {
  }

  /** Outside official mode no click removes an alert. */
  lemma GuestCannotDismiss(p: Page, e: Event)
    requires !p.isOfficial && !e.Poll?
    ensures Step(p, e).alerts == p.alerts
  {
  }

  /** A poll undoes dismissals: after it the list is the fetched snapshot,
      whatever was dismissed before. The selection is a stored copy and
      survives the poll, even when the snapshot no longer contains it. */
  lemma PollAfterDismiss(p: Page, id: int, data: seq<Alert>, now: int)
    ensures Step(Dismiss(p, id), Poll(data, now)).alerts == data
    ensures p.selected.Some? && p.selected.value.id != id ==>
      Step(Dismiss(p, id), Poll(data, now)).selected == p.selected
  {
  }

  /** Clicking an alert and then closing the details leaves no selection
      and no map target, and the list untouched. */
  lemma SelectThenClose(p: Page, i: int)
    requires 0 <= i < |p.alerts|
    ensures Step(p, ClickAlert(i)).selected == Some(p.alerts[i])
    ensures var q := Step(Step(p, ClickAlert(i)), CloseDetailsClicked);
      q.selected.None? && q.flyTo.None? && q.alerts == p.alerts
  {
  }

  /** Login then logout returns to guest mode with the login form closed;
      logout touches nothing but the mode. */
  lemma LoginLogout(p: Page)
    requires Inv(p) && p.showLogin
    ensures Step(Step(p, LoginSucceeded), LogoutClicked) == p.(showLogin := false)
  {
  }

  /** A guest page enters official mode exactly when the form's check
      accepts the submitted credentials. */
  lemma LoginFlow(p: Page, f: Form)
    requires !p.isOfficial && CanSubmit(f)
    ensures var (g, pending) := Submit(f);
      var r := Resolve(g, pending.value);
      var q := if r.loggedIn then Step(p, LoginSucceeded) else p;
      q.isOfficial <==> ValidCredentials(f.username, f.password)
  {
    SubmitResolve(f);
  }

  /** Closing the form does not cancel the pending check: its timer still
      calls `onLogin`, so a guest who submits valid credentials and closes
      the form within the delay still ends in official mode, exactly as if
      the form had stayed open. */
  lemma CloseDuringDelay(p: Page, f: Form)
    requires CanSubmit(f)
    ensures Step(Step(p, LoginClosed), LoginSucceeded) == Step(p, LoginSucceeded)
    ensures var (g, pending) := Submit(f);
      var closed := Step(p, LoginClosed);
      var q := if Resolve(g, pending.value).loggedIn then Step(closed, LoginSucceeded) else closed;
      !p.isOfficial ==> (q.isOfficial <==> ValidCredentials(f.username, f.password)) && !q.showLogin
  {
    SubmitResolve(f);
  }
}
