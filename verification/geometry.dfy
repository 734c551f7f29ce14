/** The tracked-people frame of the CCTV pipeline: bounding boxes, their
    centres, and the pairwise distances between everyone in the frame.
    Distances are squared integers: `math.hypot(dx, dy) < t` is modelled as
    `dx*dx + dy*dy < t*t`, which agrees with it for every `t >= 0`. */
module Geometry {
  import opened Wrappers
  import opened Seqs

  /** DeepSORT's track identifier. */
  type TrackId = string

  /** A box as `(x, y, w, h)`: left, top, width, height in pixels. */
  datatype BBox = BBox(x: int, y: int, w: int, h: int)

  datatype Point = Point(x: int, y: int)

  /** Centre of a box, with Python's floor division `w // 2`. */
  function Center(b: BBox): (c: Point)
    ensures 2 * (c.x - b.x) <= b.w < 2 * (c.x - b.x) + 2
    ensures 2 * (c.y - b.y) <= b.h < 2 * (c.y - b.y) + 2
  {
    Point(b.x + b.w / 2, b.y + b.h / 2)
  }

  /** Squared Euclidean distance; it is zero only between equal points. */
  function SqDist(p: Point, q: Point): (d: int)
    ensures d >= 0
    ensures d == 0 <==> p == q
  {
    (p.x - q.x) * (p.x - q.x) + (p.y - q.y) * (p.y - q.y)
  }

  /** `hypot(...) < threshold`, for a squared distance: no distance is below a
      threshold that is zero or negative. */
  predicate Below(dist2: int, threshold: int) {
    threshold > 0 && dist2 < threshold * threshold
  }

  /** What the pipeline keeps about one tracked person: the last box and the
      recognised gesture, absent until a gesture was detected. */
  datatype Node = Node(bbox: BBox, gesture: Option<string>)

  /** Python's `nodes` dict: insertion order of the ids, and the entries. */
  datatype Frame = Frame(order: seq<TrackId>, nodes: map<TrackId, Node>) {
    /** A dict has each key once, and its key order lists exactly its keys. */
    predicate Valid() {
      NoDup(order) && nodes.Keys == set id | id in order
    }
  }

  /** Squared distance between the centres of two people in the frame. */
  function DistSq(f: Frame, a: TrackId, b: TrackId): int
    requires a in f.nodes && b in f.nodes
  {
    SqDist(Center(f.nodes[a].bbox), Center(f.nodes[b].bbox))
  }

  /** `itertools.combinations(s, 2)`: the pairs `(s[i], s[j])` with `i < j`,
      ordered by `i` and then by `j`. */
  function Combinations<T>(s: seq<T>): (r: seq<(T, T)>)
    ensures forall k :: 0 <= k < |r| ==> r[k].0 in s && r[k].1 in s
    decreases |s|
  {
    if |s| < 2 then []
    else
      var rest := Combinations(s[1..]);
      assert forall k :: 0 <= k < |rest| ==> rest[k].0 in s && rest[k].1 in s by {
        forall k | 0 <= k < |rest| ensures rest[k].0 in s && rest[k].1 in s {
          assert rest[k].0 in s[1..] && rest[k].1 in s[1..];
        }
      }
      seq(|s| - 1, k requires 0 <= k < |s| - 1 => (s[0], s[k + 1])) + rest
  }

  /** There are n(n-1)/2 combinations of n elements. */
  lemma {:induction false} CombinationsCount<T>(s: seq<T>)
    ensures |Combinations(s)| == |s| * (|s| - 1) / 2
    decreases |s|
  {
    if |s| >= 2 {
      CombinationsCount(s[1..]);
      var n := |s|;
      assert (n - 1) * (n - 2) + 2 * (n - 1) == n * (n - 1);
    }
  }

  /** Every pair of positions `i < j` is listed. */
  lemma {:induction false} CombinationsComplete<T>(s: seq<T>, i: int, j: int)
    requires 0 <= i < j < |s|
    ensures (s[i], s[j]) in Combinations(s)
    decreases i
  {
    var row := seq(|s| - 1, k requires 0 <= k < |s| - 1 => (s[0], s[k + 1]));
    assert Combinations(s) == row + Combinations(s[1..]);
    if i == 0 {
      assert row[j - 1] == (s[i], s[j]);
    } else {
      CombinationsComplete(s[1..], i - 1, j - 1);
    }
  }

  /** Every listed pair comes from positions `i < j`. */
  lemma {:induction false} CombinationsSound<T>(s: seq<T>, p: (T, T))
    requires p in Combinations(s)
    ensures exists i, j :: 0 <= i < j < |s| && p == (s[i], s[j])
    decreases |s|
  {
    var row := seq(|s| - 1, k requires 0 <= k < |s| - 1 => (s[0], s[k + 1]));
    assert Combinations(s) == row + Combinations(s[1..]);
    if p in row {
      var k :| 0 <= k < |row| && row[k] == p;
      assert p == (s[0], s[k + 1]);
    } else {
      CombinationsSound(s[1..], p);
      var i, j :| 0 <= i < j < |s[1..]| && p == (s[1..][i], s[1..][j]);
      assert p == (s[i + 1], s[j + 1]);
    }
  }

  /** Over distinct elements no pair is listed twice. */
  lemma {:induction false} CombinationsNoDup<T>(s: seq<T>)
    requires NoDup(s)
    ensures NoDup(Combinations(s))
    decreases |s|
  {
    if |s| >= 2 {
      var row := seq(|s| - 1, k requires 0 <= k < |s| - 1 => (s[0], s[k + 1]));
      var rest := Combinations(s[1..]);
      assert NoDup(s[1..]);
      CombinationsNoDup(s[1..]);
      assert Combinations(s) == row + rest;
      forall a, b | 0 <= a < |row| && 0 <= b < |rest|
        ensures row[a] != rest[b]
      {
        assert rest[b].0 in s[1..];
        assert s[0] !in s[1..];
      }
      forall a, b | 0 <= a < b < |row|
        ensures row[a] != row[b]
      {
        assert s[a + 1] != s[b + 1];
      }
      NoDupConcat(row, rest);
    }
  }

  /** Over distinct elements each unordered pair is listed exactly once, and
      only in its `(earlier, later)` orientation. */
  lemma PairListedOnce<T>(s: seq<T>, i: int, j: int)
    requires NoDup(s) && 0 <= i < j < |s|
    ensures exists k :: 0 <= k < |Combinations(s)| && Combinations(s)[k] == (s[i], s[j])
    ensures forall k, l :: (0 <= k < |Combinations(s)| && 0 <= l < |Combinations(s)|
              && Combinations(s)[k] == (s[i], s[j]) && Combinations(s)[l] == (s[i], s[j])) ==> k == l
    ensures (s[j], s[i]) !in Combinations(s)
  {
    CombinationsComplete(s, i, j);
    CombinationsNoDup(s);
    if (s[j], s[i]) in Combinations(s) {
      CombinationsSound(s, (s[j], s[i]));
    }
  }

  /** One entry of `compute_distances`. */
  datatype Pair = Pair(id1: TrackId, id2: TrackId, dist2: int)

  /** `compute_distances`: every unordered pair of people, in dict order, with
      the squared distance between their centres. */
  function ComputeDistances(f: Frame): (r: seq<Pair>)
    requires f.Valid()
    ensures |r| == |f.order| * (|f.order| - 1) / 2
    ensures forall k :: 0 <= k < |r| ==>
              r[k].id1 in f.nodes && r[k].id2 in f.nodes && r[k].dist2 == DistSq(f, r[k].id1, r[k].id2)
  {
    var c := Combinations(f.order);
    CombinationsCount(f.order);
    seq(|c|, k requires 0 <= k < |c| => Pair(c[k].0, c[k].1, DistSq(f, c[k].0, c[k].1)))
  }

  /** The entries of `compute_distances` are exactly the pairs of people listed
      earlier-first: each pair once, never reversed, never a person with itself. */
  lemma DistancesArePairs(f: Frame, a: TrackId, b: TrackId)
    requires f.Valid()
    ensures (exists k :: 0 <= k < |ComputeDistances(f)| && ComputeDistances(f)[k].id1 == a && ComputeDistances(f)[k].id2 == b)
        <==> exists i, j :: 0 <= i < j < |f.order| && f.order[i] == a && f.order[j] == b
  {
    var r := ComputeDistances(f);
    var c := Combinations(f.order);
    if exists k :: 0 <= k < |r| && r[k].id1 == a && r[k].id2 == b {
      var k :| 0 <= k < |r| && r[k].id1 == a && r[k].id2 == b;
      assert c[k] == (a, b);
      CombinationsSound(f.order, (a, b));
    }
    if exists i, j :: 0 <= i < j < |f.order| && f.order[i] == a && f.order[j] == b {
      var i, j :| 0 <= i < j < |f.order| && f.order[i] == a && f.order[j] == b;
      CombinationsComplete(f.order, i, j);
      var k :| 0 <= k < |c| && c[k] == (a, b);
      assert r[k].id1 == a && r[k].id2 == b;
    }
  }
}
