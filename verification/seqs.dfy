/** Sequence operations shared by the backend and the dashboard: order-preserving
    filtering, filter-and-map, duplicate-freedom and a stable sort by an integer key. */
module Seqs {
  import opened Wrappers

  /** No element occurs twice. */
  predicate NoDup<T(==)>(s: seq<T>) {
    forall i, j :: 0 <= i < j < |s| ==> s[i] != s[j]
  }

  /** Two duplicate-free sequences with no element in common concatenate to
      a duplicate-free sequence. */
  lemma NoDupConcat<T>(a: seq<T>, b: seq<T>)
    requires NoDup(a) && NoDup(b)
    requires forall i, j :: 0 <= i < |a| && 0 <= j < |b| ==> a[i] != b[j]
    ensures NoDup(a + b)
  {
    var c := a + b;
    forall i, j | 0 <= i < j < |c|
      ensures c[i] != c[j]
    {
      if j < |a| {
        assert c[i] == a[i] && c[j] == a[j];
      } else if i >= |a| {
        assert c[i] == b[i - |a|] && c[j] == b[j - |a|];
      } else {
        assert c[i] == a[i] && c[j] == b[j - |a|];
      }
    }
  }

  /** The elements of `s` that satisfy `p`, in their original order. */
  function Filter<T(!new)>(s: seq<T>, p: T -> bool): (r: seq<T>)
    ensures |r| <= |s|
    ensures forall k :: 0 <= k < |r| ==> p(r[k])
    decreases |s|
  {
    if s == [] then []
    else (if p(s[0]) then [s[0]] else []) + Filter(s[1..], p)
  }

  /** Filter keeps exactly the elements that satisfy the predicate. */
  lemma {:induction false} FilterMembers<T(!new)>(s: seq<T>, p: T -> bool)
    ensures forall x :: x in Filter(s, p) <==> x in s && p(x)
    decreases |s|
  {
    if s != [] {
      FilterMembers(s[1..], p);
      assert s == [s[0]] + s[1..];
    }
  }

  /** Filtering distributes over concatenation: order is kept and nothing moves
      between the two halves. */
  lemma {:induction false} FilterConcat<T(!new)>(a: seq<T>, b: seq<T>, p: T -> bool)
    ensures Filter(a + b, p) == Filter(a, p) + Filter(b, p)
    decreases |a|
  {
    if a == [] {
      assert a + b == b;
    } else {
      assert (a + b)[1..] == a[1..] + b;
      FilterConcat(a[1..], b, p);
    }
  }

  /** A filter that keeps every element returns its input; one that drops some
      element returns something strictly shorter. */
  lemma {:induction false} FilterKeepsAllIff<T(!new)>(s: seq<T>, p: T -> bool)
    ensures Filter(s, p) == s <==> forall k :: 0 <= k < |s| ==> p(s[k])
    decreases |s|
  {
    if s != [] {
      FilterKeepsAllIff(s[1..], p);
      if !p(s[0]) {
        assert |Filter(s, p)| < |s|;
      } else {
        assert forall k :: 1 <= k < |s| ==> s[k] == s[1..][k - 1];
      }
    }
  }

  /** Filters by predicates that agree on the elements give the same result. */
  lemma {:induction false} FilterExt<T(!new)>(s: seq<T>, p: T -> bool, q: T -> bool)
    requires forall k :: 0 <= k < |s| ==> p(s[k]) == q(s[k])
    ensures Filter(s, p) == Filter(s, q)
    decreases |s|
  {
    if s != [] {
      FilterExt(s[1..], p, q);
    }
  }

  /** A filter that no element passes returns nothing. */
  lemma {:induction false} FilterNone<T(!new)>(s: seq<T>, p: T -> bool)
    requires forall k :: 0 <= k < |s| ==> !p(s[k])
    ensures Filter(s, p) == []
    decreases |s|
  {
    if s != [] {
      FilterNone(s[1..], p);
    }
  }

  /** Filtering twice by the same predicate is filtering once. */
  lemma FilterIdempotent<T(!new)>(s: seq<T>, p: T -> bool)
    ensures Filter(Filter(s, p), p) == Filter(s, p)
  {
    FilterKeepsAllIff(Filter(s, p), p);
  }

  /** `s` is in ascending order of `key`. */
  predicate SortedBy<T(!new)>(s: seq<T>, key: T -> int) {
    forall i, j :: 0 <= i < j < |s| ==> key(s[i]) <= key(s[j])
  }

  /** A filter of a sorted sequence is sorted: it is a subsequence. */
  lemma {:induction false} FilterKeepsSorted<T(!new)>(s: seq<T>, p: T -> bool, key: T -> int)
    requires SortedBy(s, key)
    ensures SortedBy(Filter(s, p), key)
    decreases |s|
  {
    if s != [] {
      FilterKeepsSorted(s[1..], p, key);
      var rest := Filter(s[1..], p);
      forall k | 0 <= k < |rest|
        ensures key(s[0]) <= key(rest[k])
      {
        FilterMembers(s[1..], p);
        assert rest[k] in s[1..];
      }
    }
  }

  /** Applies `f` to every element and keeps the `Some` results, in order
      (a loop that `continue`s past the elements it cannot convert). */
  function FilterMap<A, B(!new)>(s: seq<A>, f: A -> Option<B>): (r: seq<B>)
    ensures |r| <= |s|
    ensures (forall k :: 0 <= k < |s| ==> f(s[k]).Some?) ==> |r| == |s|
    ensures forall y :: y in r <==> exists k :: 0 <= k < |s| && f(s[k]) == Some(y)
    decreases |s|
  {
    if s == [] then []
    else
      var rest := FilterMap(s[1..], f);
      assert forall y :: (exists k :: 0 <= k < |s[1..]| && f(s[1..][k]) == Some(y))
                         <==> (exists k :: 1 <= k < |s| && f(s[k]) == Some(y)) by {
        forall y | exists k :: 1 <= k < |s| && f(s[k]) == Some(y)
          ensures exists k :: 0 <= k < |s[1..]| && f(s[1..][k]) == Some(y)
        {
          var k :| 1 <= k < |s| && f(s[k]) == Some(y);
          assert s[1..][k - 1] == s[k];
        }
      }
      match f(s[0])
      case Some(b) => [b] + rest
      case None => rest
  }

  /** FilterMap of one element: its image, or nothing. */
  lemma FilterMapSingle<A, B(!new)>(x: A, f: A -> Option<B>)
    ensures FilterMap([x], f) == (match f(x) case Some(y) => [y] case None => [])
  {
    assert [x][1..] == [];
  }

  /** FilterMap distributes over concatenation: outputs come in input order. */
  lemma {:induction false} FilterMapConcat<A, B(!new)>(a: seq<A>, b: seq<A>, f: A -> Option<B>)
    ensures FilterMap(a + b, f) == FilterMap(a, f) + FilterMap(b, f)
    decreases |a|
  {
    if a == [] {
      assert a + b == b;
    } else {
      assert (a + b)[1..] == a[1..] + b;
      assert (a + b)[0] == a[0];
      FilterMapConcat(a[1..], b, f);
    }
  }

  // ---------------------------------------------------------------------------
  // Stable sort by an integer key (the model of java.util.List.sort, which the
  // JDK documents as stable).

  /** The keep-only-key-`k` predicate, named so that every use is the same term. */
  function HasKey<T(!new)>(key: T -> int, k: int): T -> bool {
    x => key(x) == k
  }

  /** Inserts `x` in front of the first element whose key is not smaller. */
  function Insert<T(!new)>(x: T, s: seq<T>, key: T -> int): (r: seq<T>)
    ensures |r| == |s| + 1
    decreases |s|
  {
    if s == [] || key(x) <= key(s[0]) then [x] + s
    else [s[0]] + Insert(x, s[1..], key)
  }

  lemma {:induction false} InsertPermutes<T(!new)>(x: T, s: seq<T>, key: T -> int)
    ensures multiset(Insert(x, s, key)) == multiset(s) + multiset{x}
    decreases |s|
  {
    if s != [] && key(x) > key(s[0]) {
      InsertPermutes(x, s[1..], key);
      HeadTail(s);
      assert multiset(s) == multiset{s[0]} + multiset(s[1..]);
    }
  }

  lemma {:induction false} InsertSorted<T(!new)>(x: T, s: seq<T>, key: T -> int)
    requires SortedBy(s, key)
    ensures SortedBy(Insert(x, s, key), key)
    decreases |s|
  {
    if s != [] && key(x) > key(s[0]) {
      InsertSorted(x, s[1..], key);
      var t := Insert(x, s[1..], key);
      forall k | 0 <= k < |t|
        ensures key(s[0]) <= key(t[k])
      {
        InsertPermutes(x, s[1..], key);
        assert t[k] in multiset(t);
        assert t[k] == x || t[k] in multiset(s[1..]);
        if t[k] != x {
          assert t[k] in s[1..];
        }
      }
    }
  }

  lemma FilterSingle<T(!new)>(x: T, p: T -> bool)
    ensures Filter([x], p) == if p(x) then [x] else []
  {
    assert [x][1..] == [];
  }

  /** Among the elements with key `k`, `x` goes first and the rest keep their order. */
  lemma {:induction false} InsertKeepsKeyClass<T(!new)>(x: T, s: seq<T>, key: T -> int, k: int)
    requires SortedBy(s, key)
    ensures Filter(Insert(x, s, key), HasKey(key, k))
         == (if key(x) == k then [x] else []) + Filter(s, HasKey(key, k))
    decreases |s|
  {
    var p := HasKey(key, k);
    if s == [] || key(x) <= key(s[0]) {
      assert Insert(x, s, key) == [x] + s;
      FilterConcat([x], s, p);
      FilterSingle(x, p);
    } else {
      InsertKeepsKeyClass(x, s[1..], key, k);
      InsertBehindStep(x, s, key, k);
    }
  }

  /** The step of InsertKeepsKeyClass where `x` is inserted behind the head. */
  lemma InsertBehindStep<T(!new)>(x: T, s: seq<T>, key: T -> int, k: int)
    requires s != [] && key(x) > key(s[0])
    requires Filter(Insert(x, s[1..], key), HasKey(key, k))
          == (if key(x) == k then [x] else []) + Filter(s[1..], HasKey(key, k))
    ensures Filter(Insert(x, s, key), HasKey(key, k))
         == (if key(x) == k then [x] else []) + Filter(s, HasKey(key, k))
  {
    var t := Insert(x, s[1..], key);
    assert Insert(x, s, key) == [s[0]] + t;
    HeadTail(s);
    FilterConsStep(s[0], t, s[1..], HasKey(key, k), if key(x) == k then [x] else []);
  }

  /** Putting one element in front of two sequences whose filters differ
      by a prefix `mid` keeps that difference, when the element is dropped
      or `mid` is empty. */
  lemma FilterConsStep<T(!new)>(y: T, t: seq<T>, u: seq<T>, p: T -> bool, mid: seq<T>)
    requires Filter(t, p) == mid + Filter(u, p)
    requires !p(y) || mid == []
    ensures Filter([y] + t, p) == mid + Filter([y] + u, p)
  {
    FilterCons(y, t, p);
    FilterCons(y, u, p);
    if p(y) {
      assert mid == [];
    } else {
      assert Filter([y] + t, p) == Filter(t, p);
    }
  }

  /** Filtering a sequence with a given head. */
  lemma FilterCons<T(!new)>(y: T, t: seq<T>, p: T -> bool)
    ensures Filter([y] + t, p) == (if p(y) then [y] else []) + Filter(t, p)
  {
    assert ([y] + t)[0] == y && ([y] + t)[1..] == t;
  }

  lemma HeadTail<T>(s: seq<T>)
    requires s != []
    ensures [s[0]] + s[1..] == s
  {
  }

  /** Insertion sort, stable. */
  function SortBy<T(!new)>(s: seq<T>, key: T -> int): (r: seq<T>)
    ensures |r| == |s|
    decreases |s|
  {
    if s == [] then []
    else Insert(s[0], SortBy(s[1..], key), key)
  }

  /** The sort orders by key, permutes its input, and keeps elements of equal
      key in their input order (the subsequence of each key class is unchanged). */
  lemma {:induction false} SortByIsStableSort<T(!new)>(s: seq<T>, key: T -> int)
    ensures SortedBy(SortBy(s, key), key)
    ensures multiset(SortBy(s, key)) == multiset(s)
    ensures forall k :: Filter(SortBy(s, key), HasKey(key, k)) == Filter(s, HasKey(key, k))
    decreases |s|
  {
    if s != [] {
      SortByIsStableSort(s[1..], key);
      InsertSorted(s[0], SortBy(s[1..], key), key);
      InsertPermutes(s[0], SortBy(s[1..], key), key);
      HeadTail(s);
      assert multiset(s) == multiset{s[0]} + multiset(s[1..]);
      forall k
        ensures Filter(SortBy(s, key), HasKey(key, k)) == Filter(s, HasKey(key, k))
      {
        InsertKeepsKeyClass(s[0], SortBy(s[1..], key), key, k);
      }
    }
  }

  /** The first element of a sorted non-empty sequence has the least key. */
  lemma SortedHeadIsLeast<T(!new)>(s: seq<T>, key: T -> int)
    requires SortedBy(s, key) && |s| > 0
    ensures forall k :: 0 <= k < |s| ==> key(s[0]) <= key(s[k])
  {
  }
}
