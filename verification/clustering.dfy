/** `compute_clusters` of the CCTV pipeline: people whose centres are closer
    than a threshold are joined, and the connected components of that graph,
    found by a depth-first search, are the clusters. */
module Clustering {
  import opened Seqs
  import opened Geometry

  /** Python's `adjacency` dict: the neighbours of each id. */
  type Graph = map<TrackId, set<TrackId>>

  /** `g` is an undirected graph whose vertices are exactly the ids in `ids`. */
  predicate IsGraphOn(ids: seq<TrackId>, g: Graph) {
    && g.Keys == (set id | id in ids)
    && (forall v, w :: v in g && w in g[v] ==> w in g && v in g[w])
  }

  /** `adjacency[a].add(b); adjacency[b].add(a)` */
  function Connect(g: Graph, a: TrackId, b: TrackId): Graph
    requires a in g && b in g
  {
    var g1 := g[a := g[a] + {b}];
    g1[b := g1[b] + {a}]
  }

  /** The loop over `compute_distances(nodes)` that joins every pair closer
      than `threshold`. */
  function AddEdges(g: Graph, pairs: seq<Pair>, threshold: int): (r: Graph)
    requires forall k :: 0 <= k < |pairs| ==> pairs[k].id1 in g && pairs[k].id2 in g
    ensures r.Keys == g.Keys
    decreases |pairs|
  {
    if pairs == [] then g
    else
      var p := pairs[0];
      var g' := if Below(p.dist2, threshold) then Connect(g, p.id1, p.id2) else g;
      AddEdges(g', pairs[1..], threshold)
  }

  /** Some close-enough entry of `pairs` joins `v` and `w`, in either orientation. */
  ghost predicate EdgeListed(pairs: seq<Pair>, threshold: int, v: TrackId, w: TrackId) {
    exists k :: 0 <= k < |pairs| && Below(pairs[k].dist2, threshold)
      && ((pairs[k].id1 == v && pairs[k].id2 == w) || (pairs[k].id1 == w && pairs[k].id2 == v))
  }

  /** An edge ends up in the adjacency iff it was there or some close pair adds it. */
  lemma {:induction false} AddEdgesSpec(g: Graph, pairs: seq<Pair>, threshold: int, v: TrackId, w: TrackId)
    requires forall k :: 0 <= k < |pairs| ==> pairs[k].id1 in g && pairs[k].id2 in g
    requires v in g
    ensures w in AddEdges(g, pairs, threshold)[v] <==> w in g[v] || EdgeListed(pairs, threshold, v, w)
    decreases |pairs|
  {
    if pairs != [] {
      var p := pairs[0];
      var g' := if Below(p.dist2, threshold) then Connect(g, p.id1, p.id2) else g;
      AddEdgesSpec(g', pairs[1..], threshold, v, w);
      var here := Below(p.dist2, threshold) && ((p.id1 == v && p.id2 == w) || (p.id1 == w && p.id2 == v));
      assert w in g'[v] <==> w in g[v] || here;
      if EdgeListed(pairs, threshold, v, w) && !here {
        var k :| 0 <= k < |pairs| && Below(pairs[k].dist2, threshold)
          && ((pairs[k].id1 == v && pairs[k].id2 == w) || (pairs[k].id1 == w && pairs[k].id2 == v));
        assert k > 0;
        assert pairs[1..][k - 1] == pairs[k];
      }
      if EdgeListed(pairs[1..], threshold, v, w) {
        var k :| 0 <= k < |pairs[1..]| && Below(pairs[1..][k].dist2, threshold)
          && ((pairs[1..][k].id1 == v && pairs[1..][k].id2 == w) || (pairs[1..][k].id1 == w && pairs[1..][k].id2 == v));
        assert pairs[k + 1] == pairs[1..][k];
      }
      if here {
        assert pairs[0] == p;
      }
    }
  }

  /** Two people of the frame stand closer than `threshold`. */
  predicate Near(f: Frame, a: TrackId, b: TrackId, threshold: int)
    requires a in f.nodes && b in f.nodes
  {
    Below(DistSq(f, a, b), threshold)
  }

  lemma NearSymmetric(f: Frame, a: TrackId, b: TrackId, threshold: int)
    requires a in f.nodes && b in f.nodes
    ensures Near(f, a, b, threshold) == Near(f, b, a, threshold)
  {
    var p, q := Center(f.nodes[a].bbox), Center(f.nodes[b].bbox);
    assert (p.x - q.x) * (p.x - q.x) == (q.x - p.x) * (q.x - p.x);
    assert (p.y - q.y) * (p.y - q.y) == (q.y - p.y) * (q.y - p.y);
  }

  /** The adjacency `compute_clusters` builds. */
  function Adjacency(f: Frame, threshold: int): Graph
    requires f.Valid()
  {
    AddEdges(map id | id in f.order :: {}, ComputeDistances(f), threshold)
  }

  /** Two people are adjacent iff they are different people closer than the threshold. */
  lemma AdjacencySpec(f: Frame, threshold: int, v: TrackId, w: TrackId)
    requires f.Valid() && v in f.nodes
    ensures v in Adjacency(f, threshold)
    ensures w in Adjacency(f, threshold)[v] <==> w in f.nodes && v != w && Near(f, v, w, threshold)
  {
    var d := ComputeDistances(f);
    var g0: Graph := map id | id in f.order :: {};
    AddEdgesSpec(g0, d, threshold, v, w);
    if EdgeListed(d, threshold, v, w) {
      EdgeListedIsNear(f, threshold, v, w);
    }
    if w in f.nodes && v != w && Near(f, v, w, threshold) {
      NearIsEdgeListed(f, threshold, v, w);
    }
  }

  lemma EdgeListedIsNear(f: Frame, threshold: int, v: TrackId, w: TrackId)
    requires f.Valid() && EdgeListed(ComputeDistances(f), threshold, v, w)
    ensures v in f.nodes && w in f.nodes && v != w && Near(f, v, w, threshold)
  {
    var d := ComputeDistances(f);
    var k :| 0 <= k < |d| && Below(d[k].dist2, threshold)
      && ((d[k].id1 == v && d[k].id2 == w) || (d[k].id1 == w && d[k].id2 == v));
    var a, b := d[k].id1, d[k].id2;
    DistancesArePairs(f, a, b);
    var i, j :| 0 <= i < j < |f.order| && f.order[i] == a && f.order[j] == b;
    assert a != b;
    NearSymmetric(f, a, b, threshold);
  }

  lemma NearIsEdgeListed(f: Frame, threshold: int, v: TrackId, w: TrackId)
    requires f.Valid() && v in f.nodes && w in f.nodes && v != w && Near(f, v, w, threshold)
    ensures EdgeListed(ComputeDistances(f), threshold, v, w)
  {
    assert v in f.order && w in f.order;
    var i :| 0 <= i < |f.order| && f.order[i] == v;
    var j :| 0 <= j < |f.order| && f.order[j] == w;
    if i < j {
      OrderedPairListed(f, threshold, v, w, i, j);
    } else {
      NearSymmetric(f, v, w, threshold);
      OrderedPairListed(f, threshold, w, v, j, i);
    }
  }

  /** A close pair, listed earlier-first, has a close entry in the distances. */
  lemma OrderedPairListed(f: Frame, threshold: int, a: TrackId, b: TrackId, i: int, j: int)
    requires f.Valid() && a in f.nodes && b in f.nodes && Near(f, a, b, threshold)
    requires 0 <= i < j < |f.order| && f.order[i] == a && f.order[j] == b
    ensures exists k :: (0 <= k < |ComputeDistances(f)| && Below(ComputeDistances(f)[k].dist2, threshold)
                         && ComputeDistances(f)[k].id1 == a && ComputeDistances(f)[k].id2 == b)
  {
    var d := ComputeDistances(f);
    DistancesArePairs(f, a, b);
    var k :| 0 <= k < |d| && d[k].id1 == a && d[k].id2 == b;
    assert Below(d[k].dist2, threshold);
  }

  lemma AdjacencyIsGraph(f: Frame, threshold: int)
    requires f.Valid()
    ensures IsGraphOn(f.order, Adjacency(f, threshold))
  {
    var g := Adjacency(f, threshold);
    forall v, w | v in g && w in g[v]
      ensures w in g && v in g[w]
    {
      AdjacencySpec(f, threshold, v, w);
      AdjacencySpec(f, threshold, w, v);
      NearSymmetric(f, v, w, threshold);
    }
  }

  // ---------------------------------------------------------------------------
  // Chains of neighbours

  /** `p` walks from neighbour to neighbour. */
  ghost predicate IsChain(g: Graph, p: seq<TrackId>) {
    |p| >= 1 && forall k :: 0 <= k < |p| - 1 ==> p[k] in g && p[k + 1] in g[p[k]]
  }

  /** Some chain leads from `a` to `b`. */
  ghost predicate Linked(g: Graph, a: TrackId, b: TrackId) {
    exists p :: IsChain(g, p) && p[0] == a && p[|p| - 1] == b
  }

  lemma LinkedRefl(g: Graph, a: TrackId)
    ensures Linked(g, a, a)
  {
    assert IsChain(g, [a]);
  }

  lemma LinkedStep(g: Graph, a: TrackId, b: TrackId, c: TrackId)
    requires Linked(g, a, b) && b in g && c in g[b]
    ensures Linked(g, a, c)
  {
    var p :| IsChain(g, p) && p[0] == a && p[|p| - 1] == b;
    var q := p + [c];
    assert IsChain(g, q);
  }

  lemma LinkedSymmetric(ids: seq<TrackId>, g: Graph, a: TrackId, b: TrackId)
    requires IsGraphOn(ids, g) && Linked(g, a, b)
    ensures Linked(g, b, a)
  {
    var p :| IsChain(g, p) && p[0] == a && p[|p| - 1] == b;
    var n := |p|;
    var q := seq(n, k requires 0 <= k < n => p[n - 1 - k]);
    forall k | 0 <= k < n - 1
      ensures q[k] in g && q[k + 1] in g[q[k]]
    {
      assert p[n - 2 - k] in g && p[n - 1 - k] in g[p[n - 2 - k]];
    }
    assert IsChain(g, q);
  }

  lemma LinkedTransitive(g: Graph, a: TrackId, b: TrackId, c: TrackId)
    requires Linked(g, a, b) && Linked(g, b, c)
    ensures Linked(g, a, c)
  {
    var p :| IsChain(g, p) && p[0] == a && p[|p| - 1] == b;
    var q :| IsChain(g, q) && q[0] == b && q[|q| - 1] == c;
    var r := p + q[1..];
    forall k | 0 <= k < |r| - 1
      ensures r[k] in g && r[k + 1] in g[r[k]]
    {
      if k < |p| - 1 {
      } else {
        assert r[k] == q[k - |p| + 1] && r[k + 1] == q[k - |p| + 2];
      }
    }
    assert IsChain(g, r);
  }

  /** No edge leaves `s`. */
  ghost predicate Closed(g: Graph, s: set<TrackId>) {
    forall v, w :: v in s && v in g && w in g[v] ==> w in s
  }

  lemma {:induction false} ChainStaysIn(g: Graph, s: set<TrackId>, p: seq<TrackId>, k: nat)
    requires Closed(g, s) && IsChain(g, p) && p[0] in s && k < |p|
    ensures p[k] in s
    decreases k
  {
    if k > 0 {
      ChainStaysIn(g, s, p, k - 1);
    }
  }

  /** Whatever is linked to a member of a closed set lies in it. */
  lemma ClosedHoldsLinked(g: Graph, s: set<TrackId>, a: TrackId, b: TrackId)
    requires Closed(g, s) && a in s && Linked(g, a, b)
    ensures b in s
  {
    var p :| IsChain(g, p) && p[0] == a && p[|p| - 1] == b;
    ChainStaysIn(g, s, p, |p| - 1);
  }

  // ---------------------------------------------------------------------------
  // The search

  /** Some cluster holds `x`. */
  ghost predicate InSome(clusters: seq<seq<TrackId>>, x: TrackId) {
    exists c :: 0 <= c < |clusters| && x in clusters[c]
  }

  /** Non-empty, duplicate-free, pairwise disjoint clusters whose members are
      exactly the ids. */
  ghost predicate IsPartition(ids: seq<TrackId>, clusters: seq<seq<TrackId>>) {
    && (forall c :: 0 <= c < |clusters| ==> |clusters[c]| > 0 && NoDup(clusters[c]))
    && (forall c, d, x :: 0 <= c < d < |clusters| && x in clusters[c] ==> x !in clusters[d])
    && (forall x :: x in ids <==> InSome(clusters, x))
  }

  /** Each cluster is everything linked to any of its members. */
  ghost predicate AreComponents(g: Graph, clusters: seq<seq<TrackId>>) {
    forall c, a, b :: 0 <= c < |clusters| && a in clusters[c] ==> (b in clusters[c] <==> Linked(g, a, b))
  }

  /** The clusters come in the order the outer loop starts them: the first
      member of each is an id all of whose predecessors in `ids` lie in
      earlier clusters. */
  ghost predicate SeededInOrder(ids: seq<TrackId>, clusters: seq<seq<TrackId>>) {
    forall c, j :: 0 <= c < |clusters| && |clusters[c]| > 0 && 0 <= j < |ids| && ids[j] == clusters[c][0] ==>
      CoveredBefore(ids, clusters[..c], j)
  }

  /** Every id before position `j` lies in one of `clusters`. */
  ghost predicate CoveredBefore(ids: seq<TrackId>, clusters: seq<seq<TrackId>>, j: int)
    requires 0 <= j <= |ids|
  {
    forall k :: 0 <= k < j ==> InSome(clusters, ids[k])
  }

  /** In a partition seeded in order, the first members of the clusters occur
      in `ids` in increasing order, so the clusters are sorted by the position
      of their earliest id. */
  lemma SeedsIncrease(ids: seq<TrackId>, clusters: seq<seq<TrackId>>, c: int, d: int, i: int, j: int)
    requires IsPartition(ids, clusters) && SeededInOrder(ids, clusters)
    requires 0 <= c < d < |clusters| && 0 <= i < |ids| && 0 <= j < |ids|
    requires ids[i] == clusters[c][0] && ids[j] == clusters[d][0]
    ensures i < j
  {
    assert clusters[d][0] in clusters[d];
    assert ids[i] != ids[j] by {
      assert clusters[c][0] in clusters[c];
    }
    forall e | 0 <= e < c
      ensures ids[j] !in clusters[..c][e]
    {
      assert clusters[..c][e] == clusters[e];
    }
    assert !InSome(clusters[..c], ids[j]);
    assert CoveredBefore(ids, clusters[..c], i);
  }

  /** The ids before position `i` were visited, so they lie in clusters. */
  lemma VisitedCovered(ids: seq<TrackId>, clusters: seq<seq<TrackId>>, visited: set<TrackId>, i: int)
    requires 0 <= i <= |ids|
    requires forall x :: x in visited <==> InSome(clusters, x)
    requires forall k :: 0 <= k < i ==> ids[k] in visited
    ensures CoveredBefore(ids, clusters, i)
  {
  }

  /** Appending the cluster started at `ids[i]`, when every earlier id is
      already in a cluster, keeps the clusters seeded in order. */
  lemma AppendSeeded(ids: seq<TrackId>, clusters: seq<seq<TrackId>>, cluster: seq<TrackId>, i: int)
    requires NoDup(ids) && 0 <= i < |ids|
    requires SeededInOrder(ids, clusters)
    requires |cluster| > 0 && cluster[0] == ids[i]
    requires CoveredBefore(ids, clusters, i)
    ensures SeededInOrder(ids, clusters + [cluster])
  {
    var cl := clusters + [cluster];
    forall c, j | 0 <= c < |cl| && |cl[c]| > 0 && 0 <= j < |ids| && ids[j] == cl[c][0]
      ensures CoveredBefore(ids, cl[..c], j)
    {
      if c < |clusters| {
        assert cl[c] == clusters[c] && cl[..c] == clusters[..c];
      } else {
        assert cl[..c] == clusters;
        assert j == i;
      }
    }
  }

  /** The cluster a finished search from `nid` produced is a whole component,
      and together with what was visited before it is closed. */
  lemma FinishCluster(ids: seq<TrackId>, g: Graph, before: set<TrackId>, cluster: seq<TrackId>, nid: TrackId)
    requires IsGraphOn(ids, g) && Closed(g, before)
    requires |cluster| > 0 && cluster[0] == nid
    requires forall x :: x in cluster ==> x !in before && x in g
    requires forall x :: x in cluster ==> Linked(g, nid, x)
    requires forall v, w :: v in cluster && w in g[v] ==> w in before || w in cluster
    ensures Closed(g, set x | x in cluster)
    ensures Closed(g, before + set x | x in cluster)
    ensures forall a, b :: a in cluster ==> (b in cluster <==> Linked(g, a, b))
  {
    var cs := set x | x in cluster;
    assert Closed(g, cs);
    forall a, b | a in cluster
      ensures b in cluster <==> Linked(g, a, b)
    {
      if b in cluster {
        LinkedSymmetric(ids, g, nid, a);
        LinkedTransitive(g, a, nid, b);
      }
      if Linked(g, a, b) {
        ClosedHoldsLinked(g, cs, a, b);
      }
    }
  }

  /** The outer loop's bookkeeping after a new cluster is appended. */
  lemma AppendCluster(ids: seq<TrackId>, g: Graph, clusters: seq<seq<TrackId>>, cluster: seq<TrackId>, before: set<TrackId>)
    requires forall x :: x in before <==> InSome(clusters, x)
    requires forall x :: x in cluster ==> x !in before
    requires forall c, d, x :: 0 <= c < d < |clusters| && x in clusters[c] ==> x !in clusters[d]
    ensures forall x :: x in before + (set y | y in cluster) <==> InSome(clusters + [cluster], x)
    ensures forall c, d, x :: 0 <= c < d < |clusters + [cluster]| && x in (clusters + [cluster])[c]
              ==> x !in (clusters + [cluster])[d]
  {
    var cl := clusters + [cluster];
    forall x
      ensures x in before + (set y | y in cluster) <==> InSome(cl, x)
    {
      if x in cluster {
        assert cl[|clusters|] == cluster;
      }
      if InSome(cl, x) {
        var c :| 0 <= c < |cl| && x in cl[c];
        if c < |clusters| {
          assert cl[c] == clusters[c];
        }
      }
      if InSome(clusters, x) {
        var c :| 0 <= c < |clusters| && x in clusters[c];
        assert cl[c] == clusters[c];
      }
    }
    forall c, d, x | 0 <= c < d < |cl| && x in cl[c]
      ensures x !in cl[d]
    {
      if d == |clusters| {
        assert cl[c] == clusters[c];
        assert InSome(clusters, x);
      }
    }
  }

  /** A whole component appended to whole components leaves whole
      components, each non-empty and free of duplicates. */
  lemma AppendComponent(g: Graph, clusters: seq<seq<TrackId>>, cluster: seq<TrackId>)
    requires AreComponents(g, clusters)
    requires forall c :: 0 <= c < |clusters| ==> |clusters[c]| > 0 && NoDup(clusters[c])
    requires |cluster| > 0 && NoDup(cluster)
    requires forall a, b :: a in cluster ==> (b in cluster <==> Linked(g, a, b))
    ensures AreComponents(g, clusters + [cluster])
    ensures forall c :: 0 <= c < |clusters + [cluster]| ==>
      |(clusters + [cluster])[c]| > 0 && NoDup((clusters + [cluster])[c])
  {
    var cl := clusters + [cluster];
    assert forall c :: 0 <= c < |clusters| ==> cl[c] == clusters[c];
    assert cl[|clusters|] == cluster;
  }

  /** One search of `compute_clusters`, from `nid`, which is not yet visited. */
  method SearchFrom(ids: seq<TrackId>, g: Graph, before: set<TrackId>, nid: TrackId)
    returns (cluster: seq<TrackId>, visited: set<TrackId>)
    requires IsGraphOn(ids, g) && Closed(g, before) && before <= g.Keys
    requires nid in g && nid !in before
    ensures visited == before + set x | x in cluster
    ensures |cluster| > 0 && cluster[0] == nid && NoDup(cluster)
    ensures forall x :: x in cluster ==> x !in before
    ensures visited <= g.Keys && Closed(g, visited)
    ensures forall a, b :: a in cluster ==> (b in cluster <==> Linked(g, a, b))
  {
    cluster, visited := Explore(ids, g, before, nid);
    assert forall x :: x in cluster ==> x in visited;
    FinishCluster(ids, g, before, cluster, nid);
    assert visited == before + set x | x in cluster;
  }

  /** What holds of the `while queue` loop of a search from `nid`: what is
      visited is what was visited before plus this cluster, every member and
      every queued id is linked to `nid`, and every neighbour of a member has
      been visited or is queued. */
  ghost predicate ExploreInv(g: Graph, before: set<TrackId>, nid: TrackId,
                             cluster: seq<TrackId>, visited: set<TrackId>, queue: set<TrackId>)
  {
    && (forall x :: x in visited <==> x in before || x in cluster)
    && (forall x :: x in cluster ==> x !in before)
    && nid !in before
    && NoDup(cluster)
    && visited <= g.Keys && queue <= g.Keys
    && ((cluster == [] && queue == {nid}) || (|cluster| > 0 && cluster[0] == nid))
    && (forall x :: x in cluster ==> Linked(g, nid, x))
    && (forall x :: x in queue ==> Linked(g, nid, x))
    && (forall v, w :: v in cluster && w in g[v] ==> w in visited || w in queue)
  }

  /** Popping an id already visited keeps the loop's invariant. */
  lemma SkipVisited(g: Graph, before: set<TrackId>, nid: TrackId, cluster: seq<TrackId>,
                    visited: set<TrackId>, queue: set<TrackId>, current: TrackId)
    requires ExploreInv(g, before, nid, cluster, visited, queue)
    requires current in queue && current in visited
    ensures ExploreInv(g, before, nid, cluster, visited, queue - {current})
  {
  }

  /** Visiting a popped id keeps the loop's invariant. */
  lemma VisitNew(ids: seq<TrackId>, g: Graph, before: set<TrackId>, nid: TrackId, cluster: seq<TrackId>,
                 visited: set<TrackId>, queue: set<TrackId>, current: TrackId)
    requires IsGraphOn(ids, g)
    requires ExploreInv(g, before, nid, cluster, visited, queue)
    requires current in queue && current !in visited
    ensures ExploreInv(g, before, nid, cluster + [current], visited + {current},
                       (queue - {current}) + (g[current] - (visited + {current})))
  {
    var cluster', visited' := cluster + [current], visited + {current};
    var queue' := (queue - {current}) + (g[current] - visited');
    forall w | w in g[current]
      ensures Linked(g, nid, w) && w in g
    {
      LinkedStep(g, nid, current, w);
    }
    forall v, w | v in cluster' && w in g[v]
      ensures w in visited' || w in queue'
    {
      if v != current {
        assert v in cluster;
      }
    }
    assert NoDup(cluster') by {
      forall i, j | 0 <= i < j < |cluster'|
        ensures cluster'[i] != cluster'[j]
      {
        if j == |cluster| {
          assert cluster'[i] in cluster;
        }
      }
    }
    if cluster == [] {
      assert current == nid;
    }
  }

  /** The `while queue` loop. The Python stack is a set here: the order of its
      pops decides only the order of members inside a cluster, which no caller
      depends on. On return every neighbour of a member has been visited. */
  method Explore(ids: seq<TrackId>, g: Graph, before: set<TrackId>, nid: TrackId)
    returns (cluster: seq<TrackId>, visited: set<TrackId>)
    requires IsGraphOn(ids, g) && before <= g.Keys
    requires nid in g && nid !in before
    ensures ExploreInv(g, before, nid, cluster, visited, {})
  {
    visited := before;
    cluster := [];
    var queue: set<TrackId> := {nid};
    LinkedRefl(g, nid);
    while queue != {}
      invariant ExploreInv(g, before, nid, cluster, visited, queue)
      decreases |g.Keys - visited|, |queue|
    {
      cluster, visited, queue := Pop(ids, g, before, nid, cluster, visited, queue);
    }
  }

  lemma RemoveShrinks(s: set<TrackId>, x: TrackId)
    requires x in s
    ensures |s - {x}| < |s|
  {
  }

  lemma VisitShrinks(keys: set<TrackId>, visited: set<TrackId>, x: TrackId)
    requires x in keys && x !in visited
    ensures |keys - (visited + {x})| < |keys - visited|
  {
    assert keys - (visited + {x}) == (keys - visited) - {x};
    RemoveShrinks(keys - visited, x);
  }

  /** One turn of the `while queue` loop: pop an id and, unless it was seen,
      make it a member and push its unseen neighbours. */
  method Pop(ids: seq<TrackId>, g: Graph, before: set<TrackId>, nid: TrackId,
             cluster: seq<TrackId>, visited: set<TrackId>, queue: set<TrackId>)
    returns (cluster': seq<TrackId>, visited': set<TrackId>, queue': set<TrackId>)
    requires IsGraphOn(ids, g)
    requires ExploreInv(g, before, nid, cluster, visited, queue) && queue != {}
    ensures ExploreInv(g, before, nid, cluster', visited', queue')
    ensures |g.Keys - visited'| < |g.Keys - visited|
      || (visited' == visited && |queue'| < |queue|)
  {
    var current :| current in queue;
    if current !in visited {
      visited' := visited + {current};
      cluster' := cluster + [current];
      queue' := (queue - {current}) + (g[current] - visited');
      VisitNew(ids, g, before, nid, cluster, visited, queue, current);
      VisitShrinks(g.Keys, visited, current);
    } else {
      cluster', visited', queue' := cluster, visited, queue - {current};
      SkipVisited(g, before, nid, cluster, visited, queue, current);
      RemoveShrinks(queue, current);
    }
  }

  /** The outer loop of `compute_clusters` over a prepared graph: a search from
      every id not yet visited, in id order. */
  method Components(ids: seq<TrackId>, g: Graph) returns (clusters: seq<seq<TrackId>>)
    requires IsGraphOn(ids, g) && NoDup(ids)
    ensures IsPartition(ids, clusters)
    ensures AreComponents(g, clusters)
    ensures SeededInOrder(ids, clusters)
  {
    clusters := [];
    var visited: set<TrackId> := {};
    for i := 0 to |ids|
      invariant forall x :: x in visited <==> InSome(clusters, x)
      invariant forall k :: 0 <= k < i ==> ids[k] in visited
      invariant visited <= g.Keys
      invariant Closed(g, visited)
      invariant forall c :: 0 <= c < |clusters| ==> |clusters[c]| > 0 && NoDup(clusters[c])
      invariant forall c, d, x :: 0 <= c < d < |clusters| && x in clusters[c] ==> x !in clusters[d]
      invariant AreComponents(g, clusters)
      invariant SeededInOrder(ids, clusters)
    {
      var nid := ids[i];
      if nid !in visited {
        var cluster, visited' := SearchFrom(ids, g, visited, nid);
        VisitedCovered(ids, clusters, visited, i);
        AppendSeeded(ids, clusters, cluster, i);
        AppendCluster(ids, g, clusters, cluster, visited);
        AppendComponent(g, clusters, cluster);
        clusters := clusters + [cluster];
        visited := visited';
      }
    }
  }

  /** `compute_clusters(nodes, threshold)`: the clusters partition the frame's
      ids, and two people share a cluster iff a chain of people, each closer
      than `threshold` to the next, joins them. */
  method ComputeClusters(f: Frame, threshold: int) returns (clusters: seq<seq<TrackId>>)
    requires f.Valid()
    ensures IsPartition(f.order, clusters)
    ensures AreComponents(Adjacency(f, threshold), clusters)
    ensures SeededInOrder(f.order, clusters)
  {
    var g := Adjacency(f, threshold);
    AdjacencyIsGraph(f, threshold);
    clusters := Components(f.order, g);
  }
}
