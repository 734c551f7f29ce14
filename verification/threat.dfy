/** Threat grading of the CCTV pipeline: the gesture-to-level table, the
    grade of one cluster, and the worst gesture of a whole frame. */
module Threat {
  import opened Wrappers
  import opened Geometry

  datatype Level = Green | Yellow | Red

  /** `level_priority` / `priority`: GREEN 1, YELLOW 2, RED 3. */
  function Priority(l: Level): (p: int)
    ensures 1 <= p <= 3
    ensures p == 1 <==> l == Green
    ensures p == 3 <==> l == Red
  {
    match l
    case Green => 1
    case Yellow => 2
    case Red => 3
  }

  /** The priority tells levels apart, so "highest priority" names one level. */
  lemma PriorityInjective(a: Level, b: Level)
    ensures Priority(a) == Priority(b) <==> a == b
  {
  }

  /** `THREAT_LEVELS`. */
  const ThreatLevels: map<string, Level> := map[
    "RAISED_HAND" := Red,
    "PUSHING" := Red,
    "PUNCHING" := Red,
    "SLAPPING" := Red,
    "GRABBING" := Red,
    "CHASING" := Red,
    "BLOCKING_WAY" := Red,
    "INTIMIDATING_POSTURE" := Red,
    "STARING" := Yellow,
    "LOITERING" := Yellow,
    "FOLLOWING" := Yellow,
    "HOVERING" := Yellow,
    "POINTING" := Yellow,
    "WAVING_FOR_HELP" := Green,
    "HANDS_UP" := Green,
    "CALLING_PHONE" := Green,
    "RUNNING_AWAY" := Green,
    "FALLING" := Green,
    "HAND_SIGNAL_SOS" := Green,
    "WALKING" := Green,
    "STANDING" := Green,
    "SITTING" := Green,
    "TALKING" := Green,
    "GESTURING_CASUALLY" := Green
  ]

  /** `THREAT_LEVELS.get(g, "GREEN")`. */
  function LevelOf(g: string): Level {
    if g in ThreatLevels then ThreatLevels[g] else Green
  }

  /** The table grades a gesture above GREEN iff it lists the gesture with
      that grade: unknown names never raise an alarm. */
  lemma LevelOfSpec(g: string)
    ensures LevelOf(g) != Green ==> g in ThreatLevels && ThreatLevels[g] == LevelOf(g)
    ensures g !in ThreatLevels ==> LevelOf(g) == Green
  {
  }

  /** Four of the gestures the pose classifier can emit are not in the table,
      so a fight is graded GREEN. */
  lemma FightingGesturesAreGreen()
    ensures "KICKING" !in ThreatLevels && LevelOf("KICKING") == Green
    ensures "WRESTLING" !in ThreatLevels && LevelOf("WRESTLING") == Green
    ensures "SHOVING" !in ThreatLevels && LevelOf("SHOVING") == Green
    ensures "FIGHTING" !in ThreatLevels && LevelOf("FIGHTING") == Green
  {
  }

  /** `attributes.get('gesture', 'WALKING')`. */
  function GestureOf(n: Node): string {
    n.gesture.GetOr("WALKING")
  }

  /** The level of a person: a missing gesture counts as WALKING, which is GREEN. */
  function LevelAt(f: Frame, id: TrackId): (l: Level)
    requires id in f.nodes
    ensures f.nodes[id].gesture == None ==> l == Green
  {
    LevelOf(GestureOf(f.nodes[id]))
  }

  predicate AllIn(f: Frame, c: seq<TrackId>) {
    forall k :: 0 <= k < |c| ==> c[k] in f.nodes
  }

  // ---------------------------------------------------------------------------
  // get_cluster_threat

  /** A pair of people closer than `radius`, one of whom shows level `lvl`. */
  predicate Qualifies(f: Frame, a: TrackId, b: TrackId, radius: int, lvl: Level)
    requires a in f.nodes && b in f.nodes
  {
    Below(DistSq(f, a, b), radius) && (LevelAt(f, a) == lvl || LevelAt(f, b) == lvl)
  }

  /** Two members at positions `i < j` qualify: the condition that sets
      `close_red` (radius 100, RED) or `close_yellow` (radius 200, YELLOW). */
  ghost predicate ClosePair(f: Frame, c: seq<TrackId>, radius: int, lvl: Level)
    requires AllIn(f, c)
  {
    exists i, j :: 0 <= i < j < |c| && Qualifies(f, c[i], c[j], radius, lvl)
  }

  /** The inner loop `for nid2 in cluster[i+1:]` for one `nid1 == a`. */
  function FlagWith(f: Frame, a: TrackId, rest: seq<TrackId>, radius: int, lvl: Level): (b: bool)
    requires a in f.nodes && AllIn(f, rest)
    ensures b <==> exists j :: 0 <= j < |rest| && Qualifies(f, a, rest[j], radius, lvl)
    decreases |rest|
  {
    if rest == [] then false
    else
      var later := FlagWith(f, a, rest[1..], radius, lvl);
      assert forall j :: 1 <= j < |rest| ==> rest[j] == rest[1..][j - 1];
      Qualifies(f, a, rest[0], radius, lvl) || later
  }

  /** The outer loop `for i, nid1 in enumerate(cluster)`: the flag ends up set. */
  function FlagAny(f: Frame, c: seq<TrackId>, radius: int, lvl: Level): bool
    requires AllIn(f, c)
    decreases |c|
  {
    c != [] && (FlagWith(f, c[0], c[1..], radius, lvl) || FlagAny(f, c[1..], radius, lvl))
  }

  /** The nested loops set the flag iff some pair of the cluster qualifies. */
  lemma {:induction false} FlagAnyIff(f: Frame, c: seq<TrackId>, radius: int, lvl: Level)
    requires AllIn(f, c)
    ensures FlagAny(f, c, radius, lvl) <==> ClosePair(f, c, radius, lvl)
    decreases |c|
  {
    if c != [] {
      FlagAnyIff(f, c[1..], radius, lvl);
      FlagAnyStepSound(f, c, radius, lvl);
      FlagAnyStepComplete(f, c, radius, lvl);
    }
  }

  /** A pair found by the loops over `c` is a qualifying pair of `c`, given
      that this holds for the loops over its tail. */
  lemma FlagAnyStepSound(f: Frame, c: seq<TrackId>, radius: int, lvl: Level)
    requires AllIn(f, c) && c != []
    requires FlagAny(f, c[1..], radius, lvl) ==> ClosePair(f, c[1..], radius, lvl)
    ensures FlagAny(f, c, radius, lvl) ==> ClosePair(f, c, radius, lvl)
  {
    var t := c[1..];
    if FlagWith(f, c[0], t, radius, lvl) {
      var j :| 0 <= j < |t| && Qualifies(f, c[0], t[j], radius, lvl);
      assert c[j + 1] == t[j];
    } else if FlagAny(f, t, radius, lvl) {
      var i, j :| 0 <= i < j < |t| && Qualifies(f, t[i], t[j], radius, lvl);
      assert c[i + 1] == t[i] && c[j + 1] == t[j];
    }
  }

  /** A qualifying pair of `c` is found by the loops over `c`, given that
      this holds for the loops over its tail. */
  lemma FlagAnyStepComplete(f: Frame, c: seq<TrackId>, radius: int, lvl: Level)
    requires AllIn(f, c) && c != []
    requires ClosePair(f, c[1..], radius, lvl) ==> FlagAny(f, c[1..], radius, lvl)
    ensures ClosePair(f, c, radius, lvl) ==> FlagAny(f, c, radius, lvl)
  {
    var t := c[1..];
    if ClosePair(f, c, radius, lvl) {
      var i, j :| 0 <= i < j < |c| && Qualifies(f, c[i], c[j], radius, lvl);
      if i == 0 {
        assert t[j - 1] == c[j];
      } else {
        assert t[i - 1] == c[i] && t[j - 1] == c[j];
      }
    }
  }

  /** `r` is the highest member level, GREEN for an empty cluster. */
  ghost predicate IsMaxLevel(f: Frame, c: seq<TrackId>, r: Level)
    requires AllIn(f, c)
  {
    && (r == Green || exists k :: 0 <= k < |c| && LevelAt(f, c[k]) == r)
    && (forall k :: 0 <= k < |c| ==> Priority(LevelAt(f, c[k])) <= Priority(r))
  }

  /** The fallback loop `for threat in threats`, starting from `acc`: it keeps
      the first level of strictly higher priority each time. */
  function MaxLevelFrom(f: Frame, c: seq<TrackId>, acc: Level): (r: Level)
    requires AllIn(f, c)
    ensures r == acc || exists k :: 0 <= k < |c| && LevelAt(f, c[k]) == r
    ensures Priority(acc) <= Priority(r)
    ensures forall k :: 0 <= k < |c| ==> Priority(LevelAt(f, c[k])) <= Priority(r)
    decreases |c|
  {
    if c == [] then acc
    else
      var l := LevelAt(f, c[0]);
      var acc' := if Priority(l) > Priority(acc) then l else acc;
      var r := MaxLevelFrom(f, c[1..], acc');
      assert forall k :: 1 <= k < |c| ==> c[k] == c[1..][k - 1];
      assert r == acc' || exists k :: 0 <= k < |c| && LevelAt(f, c[k]) == r by {
        if r != acc' {
          var k :| 0 <= k < |c[1..]| && LevelAt(f, c[1..][k]) == r;
          assert c[k + 1] == c[1..][k];
        }
      }
      r
  }

  /** `get_cluster_threat(cluster, nodes)`. */
  function ClusterThreat(c: seq<TrackId>, f: Frame): (r: Level)
    requires AllIn(f, c)
    ensures ClosePair(f, c, 100, Red) ==> r == Red
    ensures !ClosePair(f, c, 100, Red) && ClosePair(f, c, 200, Yellow) ==> r == Yellow
    ensures !ClosePair(f, c, 100, Red) && !ClosePair(f, c, 200, Yellow) ==> IsMaxLevel(f, c, r)
  {
    FlagAnyIff(f, c, 100, Red);
    FlagAnyIff(f, c, 200, Yellow);
    if FlagAny(f, c, 100, Red) then Red
    else if FlagAny(f, c, 200, Yellow) then Yellow
    else MaxLevelFrom(f, c, Green)
  }

  /** The grade of a cluster is always the level of one of its members (or
      GREEN): proximity never invents a level nobody shows. */
  lemma ClusterThreatIsMemberLevel(c: seq<TrackId>, f: Frame)
    requires AllIn(f, c)
    ensures var r := ClusterThreat(c, f);
      r == Green || exists k :: 0 <= k < |c| && LevelAt(f, c[k]) == r
  {
    if ClosePair(f, c, 100, Red) {
      var i, j :| 0 <= i < j < |c| && Qualifies(f, c[i], c[j], 100, Red);
    } else if ClosePair(f, c, 200, Yellow) {
      var i, j :| 0 <= i < j < |c| && Qualifies(f, c[i], c[j], 200, Yellow);
    }
  }

  /** A lone person has no pairs, so the grade is that person's own level. */
  lemma SingleMemberThreat(id: TrackId, f: Frame)
    requires id in f.nodes
    ensures ClusterThreat([id], f) == LevelAt(f, id)
  {
    var c := [id];
    assert !ClosePair(f, c, 100, Red);
    assert !ClosePair(f, c, 200, Yellow);
    assert LevelAt(f, c[0]) == LevelAt(f, id);
    PriorityInjective(ClusterThreat(c, f), LevelAt(f, id));
  }

  /** A RED person and a YELLOW one at a distance of at least 100 and below
      200 (120 pixels, say, which also joins them at the default clustering
      threshold 150) form a cluster graded YELLOW, although its highest member
      level is RED: the YELLOW rule masks the fallback to the maximum. */
  lemma YellowNeighbourMasksRed(f: Frame, a: TrackId, b: TrackId)
    requires a in f.nodes && b in f.nodes
    requires LevelAt(f, a) == Red && LevelAt(f, b) == Yellow
    requires !Below(DistSq(f, a, b), 100) && Below(DistSq(f, a, b), 200)
    ensures ClusterThreat([a, b], f) == Yellow
    ensures !IsMaxLevel(f, [a, b], ClusterThreat([a, b], f))
  {
    var c := [a, b];
    assert c[0] == a && c[1] == b;
    assert !ClosePair(f, c, 100, Red);
    assert Qualifies(f, c[0], c[1], 200, Yellow);
  }

  // ---------------------------------------------------------------------------
  // get_most_indecent_gesture

  /** The ids of all clusters, cluster by cluster, in the order the nested
      loops visit them. */
  function Flatten(cs: seq<seq<TrackId>>): (r: seq<TrackId>)
    ensures |cs| == 1 ==> r == cs[0]
  {
    if cs == [] then [] else cs[0] + Flatten(cs[1..])
  }

  /** Every id of the flattened list comes from some cluster and vice versa. */
  lemma {:induction false} FlattenMembers(cs: seq<seq<TrackId>>, x: TrackId)
    ensures x in Flatten(cs) <==> exists c :: 0 <= c < |cs| && x in cs[c]
  {
    if cs != [] {
      FlattenMembers(cs[1..], x);
      if x in Flatten(cs[1..]) {
        var c :| 0 <= c < |cs[1..]| && x in cs[1..][c];
        assert cs[c + 1] == cs[1..][c];
      }
      if exists c :: 0 <= c < |cs| && x in cs[c] {
        var c :| 0 <= c < |cs| && x in cs[c];
        if c > 0 {
          assert cs[1..][c - 1] == cs[c];
        }
      }
    }
  }

  /** The gestures of the visited ids, in visiting order. */
  function GesturesOf(f: Frame, ids: seq<TrackId>): (r: seq<string>)
    requires AllIn(f, ids)
    ensures |r| == |ids|
    ensures forall k :: 0 <= k < |ids| ==> r[k] == GestureOf(f.nodes[ids[k]])
  {
    seq(|ids|, k requires 0 <= k < |ids| => GestureOf(f.nodes[ids[k]]))
  }

  function Rank(g: string): int {
    Priority(LevelOf(g))
  }

  /** Position `i` holds a gesture of the highest rank, and no earlier
      position reaches that rank. */
  ghost predicate IsFirstWorst(gs: seq<string>, i: int) {
    && 0 <= i < |gs|
    && (forall k :: 0 <= k < i ==> Rank(gs[k]) < Rank(gs[i]))
    && (forall k :: 0 <= k < |gs| ==> Rank(gs[k]) <= Rank(gs[i]))
  }

  /** The loop of `get_most_indecent_gesture` from the state
      `(indecent_gesture, max_threat) == (best, top)`: a gesture replaces the
      current one only when its level has strictly higher priority. The result
      stays `best` when nothing outranks `top`, and is otherwise the first
      gesture of the highest rank. */
  function PickWorst(gs: seq<string>, best: string, top: Level): (r: string)
    ensures || (r == best && forall k :: 0 <= k < |gs| ==> Rank(gs[k]) <= Priority(top))
            || (exists i :: IsFirstWorst(gs, i) && r == gs[i] && Rank(gs[i]) > Priority(top))
    decreases |gs|
  {
    if gs == [] then best
    else
      var l := LevelOf(gs[0]);
      if Priority(l) > Priority(top) then
        var r := PickWorst(gs[1..], gs[0], l);
        PickWorstHead(gs, r);
        r
      else
        var r := PickWorst(gs[1..], best, top);
        PickWorstSkip(gs, best, top, r);
        r
  }

  /** The head outranks `top` and the tail's result is the pick from the head. */
  lemma PickWorstHead(gs: seq<string>, r: string)
    requires gs != []
    requires || (r == gs[0] && forall k :: 0 <= k < |gs[1..]| ==> Rank(gs[1..][k]) <= Rank(gs[0]))
             || (exists i :: IsFirstWorst(gs[1..], i) && r == gs[1..][i] && Rank(gs[1..][i]) > Rank(gs[0]))
    ensures exists i :: IsFirstWorst(gs, i) && r == gs[i] && Rank(gs[i]) >= Rank(gs[0])
  {
    var t := gs[1..];
    if r == gs[0] && forall k :: 0 <= k < |t| ==> Rank(t[k]) <= Rank(gs[0]) {
      assert forall k :: 1 <= k < |gs| ==> gs[k] == t[k - 1];
      assert IsFirstWorst(gs, 0);
    } else {
      var i :| IsFirstWorst(t, i) && r == t[i] && Rank(t[i]) > Rank(gs[0]);
      assert forall k :: 1 <= k < |gs| ==> gs[k] == t[k - 1];
      assert IsFirstWorst(gs, i + 1);
    }
  }

  /** The head does not outrank `top`, so the pick is the tail's pick. */
  lemma PickWorstSkip(gs: seq<string>, best: string, top: Level, r: string)
    requires gs != [] && Rank(gs[0]) <= Priority(top)
    requires || (r == best && forall k :: 0 <= k < |gs[1..]| ==> Rank(gs[1..][k]) <= Priority(top))
             || (exists i :: IsFirstWorst(gs[1..], i) && r == gs[1..][i] && Rank(gs[1..][i]) > Priority(top))
    ensures || (r == best && forall k :: 0 <= k < |gs| ==> Rank(gs[k]) <= Priority(top))
            || (exists i :: IsFirstWorst(gs, i) && r == gs[i] && Rank(gs[i]) > Priority(top))
  {
    var t := gs[1..];
    assert forall k :: 1 <= k < |gs| ==> gs[k] == t[k - 1];
    if !(r == best && forall k :: 0 <= k < |t| ==> Rank(t[k]) <= Priority(top)) {
      var i :| IsFirstWorst(t, i) && r == t[i] && Rank(t[i]) > Priority(top);
      assert IsFirstWorst(gs, i + 1);
    }
  }

  /** `get_most_indecent_gesture(clusters, nodes)`. */
  function MostIndecentGesture(clusters: seq<seq<TrackId>>, f: Frame): (r: string)
    requires AllIn(f, Flatten(clusters))
  {
    PickWorst(GesturesOf(f, Flatten(clusters)), "WALKING", Green)
  }

  /** When every gesture in the frame is GREEN the answer is "WALKING";
      otherwise it is the first gesture, in visiting order, of the highest
      level present, and that level is above GREEN. */
  lemma MostIndecentGestureSpec(clusters: seq<seq<TrackId>>, f: Frame)
    requires AllIn(f, Flatten(clusters))
    ensures var gs := GesturesOf(f, Flatten(clusters));
      var r := MostIndecentGesture(clusters, f);
      && ((forall k :: 0 <= k < |gs| ==> LevelOf(gs[k]) == Green) ==> r == "WALKING")
      && ((exists k :: 0 <= k < |gs| && LevelOf(gs[k]) != Green) ==>
            exists i :: IsFirstWorst(gs, i) && r == gs[i] && LevelOf(r) != Green)
  {
    var gs := GesturesOf(f, Flatten(clusters));
    var r := PickWorst(gs, "WALKING", Green);
    if exists i :: IsFirstWorst(gs, i) && r == gs[i] && Rank(gs[i]) > Priority(Green) {
      var i :| IsFirstWorst(gs, i) && r == gs[i] && Rank(gs[i]) > Priority(Green);
      assert LevelOf(gs[i]) != Green;
    } else {
      assert forall k :: 0 <= k < |gs| ==> Rank(gs[k]) <= Priority(Green);
    }
  }
}
