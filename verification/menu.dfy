/** The side menu (`HamburgerMenu`): an accordion of sections of which at
    most one is expanded, some sections shown to officials only, and the
    file name offered by the export buttons. */
module Menu {
  import opened Wrappers
  import opened JavaText

  /** The sections above the official block, in display order. */
  const LeadingSections: seq<string> := ["stats", "map", "filters", "time"]

  /** The sections shown only in official mode. */
  const OfficialSections: seq<string> := ["reports", "export", "users", "logs"]

  /** The sections below the official block. */
  const TrailingSections: seq<string> := ["settings", "help", "about"]

  /** The sections listed for a user of the given kind, in display order. */
  function VisibleSections(isOfficial: bool): (r: seq<string>)
    ensures forall s :: s in OfficialSections ==> (s in r <==> isOfficial)
    ensures forall s :: s in LeadingSections + TrailingSections ==> s in r
  {
    LeadingSections + (if isOfficial then OfficialSections else []) + TrailingSections
  }

  /** `activeTab`: the one expanded section, if any. A single optional value,
      so two sections are never expanded together. */
  datatype MenuState = MenuState(activeTab: Option<string>)

  /** The state when the dashboard first renders the menu. */
  const Collapsed: MenuState := MenuState(None)

  /** `handleFeatureClick(feature)`. */
  function FeatureClick(m: MenuState, feature: string): (r: MenuState)
    ensures r.activeTab == Some(feature) <==> m.activeTab != Some(feature)
    ensures r.activeTab.Some? ==> r.activeTab.value == feature
  {
    MenuState(if m.activeTab == Some(feature) then None else Some(feature))
  }

  /** Clicking the same section twice restores the state exactly when that
      state had nothing expanded or had that very section expanded; after
      two clicks on a section nothing else is ever expanded. */
  lemma ClickTwice(m: MenuState, feature: string)
    ensures FeatureClick(FeatureClick(m, feature), feature) == m
        <==> m.activeTab == None || m.activeTab == Some(feature)
    ensures FeatureClick(FeatureClick(m, feature), feature).activeTab in {None, Some(feature)}
  {
  }

  /** What the menu renders: nothing when closed, otherwise the visible
      sections and the one among them that is expanded. */
  datatype View = View(sections: seq<string>, expanded: Option<string>)

  function Render(isOpen: bool, isOfficial: bool, m: MenuState): (r: Option<View>)
    ensures r.Some? <==> isOpen
    ensures r.Some? ==> r.value.sections == VisibleSections(isOfficial)
    ensures r.Some? && r.value.expanded.Some? ==>
      r.value.expanded == m.activeTab && r.value.expanded.value in r.value.sections
  {
    if !isOpen then None
    else
      var sections := VisibleSections(isOfficial);
      var expanded := if m.activeTab.Some? && m.activeTab.value in sections then m.activeTab else None;
      Some(View(sections, expanded))
  }

  /** Closing the menu hides it but keeps `activeTab` (the component stays
      mounted), so reopening shows the same section expanded. An official
      section left expanded is hidden, not collapsed, after logout. */
  lemma ReopenKeepsSection(m: MenuState, isOfficial: bool, f: string)
    ensures Render(false, isOfficial, m) == None
    ensures m.activeTab == Some(f) && f in VisibleSections(isOfficial) ==>
      Render(true, isOfficial, m).value.expanded == Some(f)
    ensures m.activeTab == Some(f) && f in OfficialSections ==>
      Render(true, false, m).value.expanded == None && Render(true, true, m).value.expanded == Some(f)
  {
    if m.activeTab == Some(f) && f in OfficialSections {
      assert f !in LeadingSections + TrailingSections;
    }
  }

  // ---------------------------------------------------------------------------
  // Export

  /** `text.replace(/:/g, '-')`. */
  function ColonsToDashes(s: string): (r: string)
    ensures |r| == |s| && ':' !in r
    ensures forall k :: 0 <= k < |s| ==> r[k] == (if s[k] == ':' then '-' else s[k])
  {
    if s == [] then [] else [if s[0] == ':' then '-' else s[0]] + ColonsToDashes(s[1..])
  }

  /** `text.slice(0, n)`. */
  function Slice(s: string, n: nat): (r: string)
    ensures |r| == if |s| < n then |s| else n
    ensures r <= s
  {
    if |s| <= n then s else s[..n]
  }

  /** The file-name stamp made from `new Date().toISOString()`. */
  function Stamp(iso: string): (r: string)
  {
    ColonsToDashes(Slice(iso, 19))
  }

  /** The file name in the export message. */
  function ExportFileName(iso: string, format: string): string {
    "safety_report_" + Stamp(iso) + "." + format
  }

  /** `exportData(format)`'s message. */
  function ExportMessage(iso: string, format: string): string {
    "Exporting data in " + ToUpper(format) + " format... File: " + ExportFileName(iso, format)
  }

  /** The shape of `toISOString()` for years 0000 to 9999:
      `YYYY-MM-DDTHH:mm:ss.sssZ`. */
  predicate IsIsoInstant(s: string) {
    |s| == 24
    && s[4] == '-' && s[7] == '-' && s[10] == 'T' && s[13] == ':' && s[16] == ':'
    && s[19] == '.' && s[23] == 'Z'
    && forall k :: 0 <= k < 24 && k !in {4, 7, 10, 13, 16, 19, 23} ==> IsDigit(s[k])
  }

  /** Putting the two colons of the time of day back. */
  function RestoreColons(stamp: string): (r: string)
    requires |stamp| == 19
  {
    stamp[..13] + ":" + stamp[14..16] + ":" + stamp[17..]
  }

  /** For an ISO instant the stamp is its first 19 characters, date and time
      to the second, with the two colons of the time replaced by dashes:
      it contains no colon and putting the colons back gives those 19
      characters again. */
  lemma StampOfIsoInstant(iso: string)
    requires IsIsoInstant(iso)
    ensures |Stamp(iso)| == 19 && ':' !in Stamp(iso)
    ensures Stamp(iso)[13] == '-' && Stamp(iso)[16] == '-'
    ensures forall k :: 0 <= k < 19 && k != 13 && k != 16 ==> Stamp(iso)[k] == iso[k]
    ensures RestoreColons(Stamp(iso)) == iso[..19]
  {
    var st := Stamp(iso);
    forall k | 0 <= k < 19 && k != 13 && k != 16
      ensures st[k] == iso[k]
    {
      assert iso[k] != ':' by {
        if k !in {4, 7, 10} {
          assert IsDigit(iso[k]);
        }
      }
    }
    assert RestoreColons(st) == iso[..19];
  }

  /** The export file name starts with the fixed prefix, ends with the
      chosen format and, for an ISO instant, has a 19-character stamp
      between them. */
  lemma ExportFileNameShape(iso: string, format: string)
    requires IsIsoInstant(iso)
    ensures var name := ExportFileName(iso, format);
      |name| == 14 + 19 + 1 + |format|
      && name[..14] == "safety_report_"
      && name[14..33] == Stamp(iso)
      && name[33..] == "." + format
  {
    StampOfIsoInstant(iso);
  }
}
