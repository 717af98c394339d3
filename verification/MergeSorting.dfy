/** What a natural merge sort does to a sequence: runs, merging, stability. */
module MergeSorting {
  import opened Containers

  type Less<!E> = (E, E) -> bool

  /** less is asymmetric and its negation transitive on the elements of s. */
  ghost predicate StrictWeakOrder<E>(less: Less<E>, s: seq<E>) {
    && (forall x, y :: x in s && y in s && less(x, y) ==> !less(y, x))
    && (forall x, y, z {:trigger less(x, y), less(y, z)} ::
          x in s && y in s && z in s && !less(x, y) && !less(y, z) ==> !less(x, z))
  }

  /** Positions lo .. hi are in nondecreasing order. */
  ghost predicate SortedSeg<E>(less: Less<E>, s: seq<E>, lo: nat, hi: nat)
    requires hi <= |s|
  {
    forall x, y :: lo <= x < y < hi ==> !less(s[y], s[x])
  }

  ghost predicate Sorted<E>(less: Less<E>, s: seq<E>) {
    SortedSeg(less, s, 0, |s|)
  }

  ghost predicate Before<E>(s: seq<E>, x: E, y: E) {
    exists p, q :: 0 <= p < q < |s| && s[p] == x && s[q] == y
  }

  /** Any two elements are in the order they had in s0, unless less puts them
      the other way round. */
  ghost predicate KeepsOrder<E>(less: Less<E>, s0: seq<E>, s: seq<E>) {
    forall i, j :: 0 <= i < j < |s| ==> less(s[i], s[j]) || Before(s0, s[i], s[j])
  }

  /** r is s sorted, with equal elements in their original order. */
  ghost predicate IsStableSort<E>(less: Less<E>, s: seq<E>, r: seq<E>) {
    multiset(r) == multiset(s) && Sorted(less, r) && KeepsOrder(less, s, r)
  }

  lemma BeforeIsOneWay<E>(s: seq<E>, x: E, y: E)
    requires Distinct(s) && Before(s, x, y)
    ensures !Before(s, y, x)
  {
  }

  /** A list of distinct elements has only one stable sort. */
  lemma {:induction false} StableSortIsUnique<E>(less: Less<E>, s: seq<E>, r: seq<E>, t: seq<E>)
    requires Distinct(s) && StrictWeakOrder(less, s)
    requires IsStableSort(less, s, r) && IsStableSort(less, s, t)
    ensures r == t
  {
    assert |r| == |multiset(r)| == |s| == |multiset(t)| == |t|;
    if r != t {
      var k := FirstDifference(r, t);
      var x, y := r[k], t[k];
      assert x in multiset(r) && y in multiset(t);
      var i := Later(s, r, t, k);
      var j := Later(s, t, r, k);
      // x comes before y in r, and y before x in t
      assert (less(x, y) || Before(s, x, y)) && (less(y, x) || Before(s, y, x));
      assert !less(y, x) && !less(x, y);
      BeforeIsOneWay(s, x, y);
    }
  }

  lemma FirstDifference<E>(r: seq<E>, t: seq<E>) returns (k: nat)
    requires |r| == |t| && r != t
    ensures k < |r| && r[..k] == t[..k] && r[k] != t[k]
  {
    k := 0;
    while r[k] == t[k]
      invariant k < |r| && r[..k] == t[..k]
      decreases |r| - k
    {
      k := k + 1;
    }
  }

  /** After a common prefix, the next element of r occurs later in t. */
  lemma Later<E>(s: seq<E>, t: seq<E>, r: seq<E>, k: nat) returns (i: nat)
    requires multiset(r) == multiset(s) == multiset(t) && |r| == |t| && k < |r| && r[..k] == t[..k] && r[k] != t[k]
    ensures k < i < |t| && t[i] == r[k]
  {
    assert r == r[..k] + r[k..] && t == t[..k] + t[k..];
    assert multiset(r) == multiset(r[..k]) + multiset(r[k..]);
    assert multiset(t) == multiset(t[..k]) + multiset(t[k..]);
    assert multiset(r[k..]) == multiset(r) - multiset(r[..k]);
    assert multiset(t[k..]) == multiset(t) - multiset(t[..k]);
    assert r[k..][0] in multiset(r[k..]);
    assert r[k] in t[k..];
    var j :| 0 <= j < |t[k..]| && t[k..][j] == r[k];
    i := k + j;
  }

  // ------------------------------------------------------------------- merging

  /** The element at j moves down to i; those between move up by one. */
  function MoveTo<E>(s: seq<E>, i: nat, j: nat): (r: seq<E>)
    requires i <= j < |s|
    ensures |r| == |s|
    ensures forall k :: 0 <= k < |s| ==> r[k] == if k == i then s[j] else if i < k <= j then s[k - 1] else s[k]
  {
    seq(|s|, k requires 0 <= k < |s| => if k == i then s[j] else if i < k <= j then s[k - 1] else s[k])
  }

  lemma MoveToPermutes<E>(s: seq<E>, i: nat, j: nat)
    requires i <= j < |s|
    ensures multiset(MoveTo(s, i, j)) == multiset(s)
  {
    assert MoveTo(s, i, j) == s[..i] + [s[j]] + s[i..j] + s[j + 1..];
    assert s == s[..i] + s[i..j] + [s[j]] + s[j + 1..];
    hide MoveTo;
    SwapPermutes(s[..i], [s[j]], s[i..j], s[j + 1..]);
  }

  lemma SwapPermutes<E>(a: seq<E>, b: seq<E>, c: seq<E>, d: seq<E>)
    ensures multiset(a + b + c + d) == multiset(a + c + b + d)
  {
    assert multiset(a + b + c + d) == multiset(a) + multiset(b) + multiset(c) + multiset(d);
    assert multiset(a + c + b + d) == multiset(a) + multiset(c) + multiset(b) + multiset(d);
  }

  /** Between lo and e everything is in order except possibly across j: the runs
      i .. j and j .. e are sorted, and lo .. i is finished. */
  ghost predicate Merging<E>(less: Less<E>, s: seq<E>, lo: nat, i: nat, j: nat, e: nat) {
    && lo <= i <= j <= e <= |s|
    && forall x, y :: lo <= x < y < e && !(i <= x < j <= y) ==> !less(s[y], s[x])
  }

  lemma MergeStarts<E>(less: Less<E>, s: seq<E>, lo: nat, j: nat, e: nat)
    requires lo <= j <= e <= |s| && SortedSeg(less, s, lo, j) && SortedSeg(less, s, j, e)
    ensures Merging(less, s, lo, lo, j, e)
  {
  }

  lemma MergeEnds<E>(less: Less<E>, s: seq<E>, lo: nat, i: nat, j: nat, e: nat)
    requires Merging(less, s, lo, i, j, e) && (i == j || j == e)
    ensures SortedSeg(less, s, lo, e)
  {
  }

  lemma MergeKeeps<E>(less: Less<E>, s: seq<E>, lo: nat, i: nat, j: nat, e: nat)
    requires Merging(less, s, lo, i, j, e) && i < j < e && StrictWeakOrder(less, s)
    requires !less(s[j], s[i])
    ensures Merging(less, s, lo, i + 1, j, e)
  {
    forall y | j <= y < e
      ensures !less(s[y], s[i])
    {
      assert y != j ==> !less(s[y], s[j]);
    }
  }

  lemma MergeMoves<E>(less: Less<E>, s: seq<E>, lo: nat, i: nat, j: nat, e: nat)
    requires Merging(less, s, lo, i, j, e) && i < j < e && StrictWeakOrder(less, s)
    requires less(s[j], s[i])
    ensures forall x :: i <= x < j ==> less(s[j], s[x])
    ensures Merging(less, MoveTo(s, i, j), lo, i + 1, j + 1, e)
  {
    forall x | i <= x < j
      ensures less(s[j], s[x])
    {
      assert x != i ==> !less(s[x], s[i]);
      assert s[x] in s && s[i] in s && s[j] in s;
    }
  }

  lemma MoveKeepsOrder<E>(less: Less<E>, s0: seq<E>, s: seq<E>, i: nat, j: nat)
    requires i <= j < |s| && KeepsOrder(less, s0, s)
    requires forall x :: i <= x < j ==> less(s[j], s[x])
    ensures KeepsOrder(less, s0, MoveTo(s, i, j))
  {
  }

  lemma SameElements<E>(less: Less<E>, s: seq<E>, r: seq<E>)
    requires multiset(r) == multiset(s)
    ensures StrictWeakOrder(less, s) ==> StrictWeakOrder(less, r)
  {
    assert forall x :: x in r <==> x in multiset(r);
    assert forall x :: x in s <==> x in multiset(s);
  }

  // ---------------------------------------------------------------------- runs

  /** Where a run ends: positions at which an element is less than the one before. */
  ghost function Descents<E>(less: Less<E>, s: seq<E>): nat {
    if |s| < 2 then 0
    else Descents(less, s[..|s| - 1]) + if less(s[|s| - 1], s[|s| - 2]) then 1 else 0
  }

  ghost function Break<E>(less: Less<E>, a: seq<E>, b: seq<E>): nat {
    if a != [] && b != [] && less(b[0], a[|a| - 1]) then 1 else 0
  }

  lemma {:induction false} DescentsAppend<E>(less: Less<E>, a: seq<E>, b: seq<E>)
    ensures Descents(less, a + b) == Descents(less, a) + Break(less, a, b) + Descents(less, b)
  {
    if |b| == 0 {
      assert a + b == a;
    } else if |a| == 0 {
      assert a + b == b;
    } else if |b| == 1 {
      assert (a + b)[..|a + b| - 1] == a;
    } else {
      assert (a + b)[..|a + b| - 1] == a + b[..|b| - 1];
      DescentsAppend(less, a, b[..|b| - 1]);
    }
  }

  lemma {:induction false} SortedHasNoDescents<E>(less: Less<E>, s: seq<E>)
    requires Sorted(less, s)
    ensures Descents(less, s) == 0
  {
    if |s| >= 2 {
      SortedHasNoDescents(less, s[..|s| - 1]);
    }
  }

  /** A run found by comparing neighbours is sorted. */
  lemma {:induction false} NeighboursSuffice<E>(less: Less<E>, s: seq<E>, lo: nat, hi: nat)
    requires lo <= hi <= |s| && StrictWeakOrder(less, s)
    requires forall x :: lo <= x < hi - 1 ==> !less(s[x + 1], s[x])
    ensures SortedSeg(less, s, lo, hi)
  {
    if lo < hi {
      NeighboursSuffice(less, s, lo, hi - 1);
      forall x | lo <= x < hi - 1
        ensures !less(s[hi - 1], s[x])
      {
        if x < hi - 2 {
          assert !less(s[hi - 2], s[x]) && !less(s[hi - 2 + 1], s[hi - 2]);
        }
      }
    }
  }

  lemma BreakAfter<E>(less: Less<E>, p: seq<E>, q: seq<E>, r: seq<E>)
    requires q != []
    ensures Break(less, p + q, r) == Break(less, q, r)
  {
    assert (p + q)[|p + q| - 1] == q[|q| - 1];
  }

  /** A sorted stretch adds the descents at its two ends only. */
  lemma DescentsAround<E>(less: Less<E>, l: seq<E>, x: seq<E>, r: seq<E>)
    requires x != [] && Sorted(less, x)
    ensures Descents(less, l + x + r) == Descents(less, l) + Break(less, l, x) + Break(less, x, r) + Descents(less, r)
  {
    hide Descents, Break;
    DescentsAppend(less, l + x, r);
    DescentsAppend(less, l, x);
    SortedHasNoDescents(less, x);
    BreakAfter(less, l, x, r);
  }

  /** Merging two neighbouring runs removes a descent: the one between them goes,
      and those at the two ends were there already. */
  lemma MergeRemovesDescent<E>(less: Less<E>, l: seq<E>, a: seq<E>, b: seq<E>, m: seq<E>, r: seq<E>)
    requires a != [] && b != [] && Sorted(less, a) && Sorted(less, b) && Sorted(less, m) && m != []
    requires less(b[0], a[|a| - 1])
    requires l != [] ==> less(a[0], l[|l| - 1])
    requires r != [] ==> less(r[0], b[|b| - 1])
    ensures Descents(less, l + m + r) < Descents(less, l + a + b + r)
  {
    hide Descents, Sorted;
    DescentsAround(less, l, m, r);
    DescentsAround(less, l + a, b, r);
    DescentsAppend(less, l, a);
    SortedHasNoDescents(less, a);
    BreakAfter(less, l, a, b);
  }

  // -------------------------------------------------- the algorithm on sequences

  /** inplace_merge from its state (i, j) on. */
  ghost function Merge<E>(less: Less<E>, s: seq<E>, i: nat, j: nat, e: nat): (r: seq<E>)
    requires i <= j <= e <= |s|
    ensures |r| == |s|
    decreases 2 * e - i - j
  {
    if i == j || j == e then s
    else if less(s[j], s[i]) then Merge(less, MoveTo(s, i, j), i + 1, j + 1, e)
    else Merge(less, s, i + 1, j, e)
  }

  /** The exclusive end of the nondecreasing run that starts at i. */
  ghost function RunEnd<E>(less: Less<E>, s: seq<E>, i: nat): (j: nat)
    requires i < |s|
    ensures i < j <= |s|
    decreases |s| - i
  {
    if i + 1 == |s| || less(s[i + 1], s[i]) then i + 1 else RunEnd(less, s, i + 1)
  }

  /** One pass of list_sort from position p on: the result and the runs output. */
  ghost function Pass<E>(less: Less<E>, s: seq<E>, p: nat): (seq<E>, nat)
    requires p <= |s|
    decreases |s| - p
  {
    if p == |s| then (s, 0)
    else
      var j := RunEnd(less, s, p);
      if j == |s| then (s, 1)
      else
        var e := RunEnd(less, s, j);
        var (r, n) := Pass(less, Merge(less, s, p, j, e), e);
        (r, n + 1)
  }

  lemma {:induction false} MergePermutes<E>(less: Less<E>, s: seq<E>, i: nat, j: nat, e: nat)
    requires i <= j <= e <= |s|
    ensures multiset(Merge(less, s, i, j, e)) == multiset(s)
    decreases 2 * e - i - j
  {
    if i < j < e {
      if less(s[j], s[i]) {
        MoveToPermutes(s, i, j);
        MergePermutes(less, MoveTo(s, i, j), i + 1, j + 1, e);
      } else {
        MergePermutes(less, s, i + 1, j, e);
      }
    }
  }

  lemma {:induction false} MergeStaysInside<E>(less: Less<E>, s: seq<E>, i: nat, j: nat, e: nat, k: nat)
    requires i <= j <= e <= |s| && k < |s| && !(i <= k < e)
    ensures Merge(less, s, i, j, e)[k] == s[k]
    decreases 2 * e - i - j
  {
    if i < j < e {
      if less(s[j], s[i]) {
        MergeStaysInside(less, MoveTo(s, i, j), i + 1, j + 1, e, k);
      } else {
        MergeStaysInside(less, s, i + 1, j, e, k);
      }
    }
  }

  lemma {:induction false} MergeSorts<E>(less: Less<E>, s: seq<E>, lo: nat, i: nat, j: nat, e: nat)
    requires Merging(less, s, lo, i, j, e) && StrictWeakOrder(less, s)
    ensures SortedSeg(less, Merge(less, s, i, j, e), lo, e)
    decreases 2 * e - i - j
  {
    if i == j || j == e {
      MergeEnds(less, s, lo, i, j, e);
    } else if less(s[j], s[i]) {
      MergeMoves(less, s, lo, i, j, e);
      MoveToPermutes(s, i, j);
      SameElements(less, s, MoveTo(s, i, j));
      MergeSorts(less, MoveTo(s, i, j), lo, i + 1, j + 1, e);
    } else {
      MergeKeeps(less, s, lo, i, j, e);
      MergeSorts(less, s, lo, i + 1, j, e);
    }
  }

  lemma {:induction false} MergeKeepsOrder<E>(less: Less<E>, s0: seq<E>, s: seq<E>, lo: nat, i: nat, j: nat, e: nat)
    requires Merging(less, s, lo, i, j, e) && StrictWeakOrder(less, s) && KeepsOrder(less, s0, s)
    ensures KeepsOrder(less, s0, Merge(less, s, i, j, e))
    decreases 2 * e - i - j
  {
    hide KeepsOrder, StrictWeakOrder, MoveTo;
    if i < j < e {
      if less(s[j], s[i]) {
        assert KeepsOrder(less, s0, MoveTo(s, i, j)) by {
          MergeMoves(less, s, lo, i, j, e);
          MoveKeepsOrder(less, s0, s, i, j);
        }
        MergeMoves(less, s, lo, i, j, e);
        MoveToPermutes(s, i, j);
        SameElements(less, s, MoveTo(s, i, j));
        MergeKeepsOrder(less, s0, MoveTo(s, i, j), lo, i + 1, j + 1, e);
      } else {
        MergeKeeps(less, s, lo, i, j, e);
        MergeKeepsOrder(less, s0, s, lo, i + 1, j, e);
      }
    }
  }

  lemma {:induction false} RunIsMaximal<E>(less: Less<E>, s: seq<E>, i: nat)
    requires i < |s| && StrictWeakOrder(less, s)
    ensures SortedSeg(less, s, i, RunEnd(less, s, i))
    ensures RunEnd(less, s, i) < |s| ==> less(s[RunEnd(less, s, i)], s[RunEnd(less, s, i) - 1])
  {
    RunNeighbours(less, s, i);
    NeighboursSuffice(less, s, i, RunEnd(less, s, i));
  }

  lemma {:induction false} RunNeighbours<E>(less: Less<E>, s: seq<E>, i: nat)
    requires i < |s|
    ensures forall x :: i <= x < RunEnd(less, s, i) - 1 ==> !less(s[x + 1], s[x])
    ensures RunEnd(less, s, i) < |s| ==> less(s[RunEnd(less, s, i)], s[RunEnd(less, s, i) - 1])
    decreases |s| - i
  {
    if i + 1 < |s| && !less(s[i + 1], s[i]) {
      RunNeighbours(less, s, i + 1);
    }
  }

  /** One merge of a pass: runs p .. j and j .. e become one run. */
  lemma MergeRuns<E>(less: Less<E>, s: seq<E>, p: nat, j: nat, e: nat)
    requires p < j < e <= |s| && StrictWeakOrder(less, s)
    requires SortedSeg(less, s, p, j) && SortedSeg(less, s, j, e)
    ensures var m := Merge(less, s, p, j, e);
      && SortedSeg(less, m, p, e) && multiset(m) == multiset(s) && StrictWeakOrder(less, m)
      && (forall k :: 0 <= k < |s| && !(p <= k < e) ==> m[k] == s[k])
  {
    MergeStarts(less, s, p, j, e);
    MergeSorts(less, s, p, p, j, e);
    MergePermutes(less, s, p, j, e);
    SameElements(less, s, Merge(less, s, p, j, e));
    forall k | 0 <= k < |s| && !(p <= k < e)
      ensures Merge(less, s, p, j, e)[k] == s[k]
    {
      MergeStaysInside(less, s, p, j, e, k);
    }
  }

  /** The last element of the merged run is at least each element that went in,
      so a descent after the second run is still there. */
  lemma MergedEndIsMax<E>(less: Less<E>, s: seq<E>, m: seq<E>, p: nat, e: nat, x: nat)
    requires p <= x < e <= |s| == |m| && SortedSeg(less, m, p, e)
    requires multiset(m) == multiset(s) && forall k :: 0 <= k < |s| && !(p <= k < e) ==> m[k] == s[k]
    requires StrictWeakOrder(less, s)
    ensures !less(m[e - 1], s[x])
  {
    SegmentPermuted(s, m, p, e);
    assert s[p..e][x - p] in multiset(s[p..e]);
    assert s[x] in m[p..e];
    var y :| 0 <= y < |m[p..e]| && m[p..e][y] == s[x];
    assert m[p + y] == s[x];
  }

  lemma SegmentPermuted<E>(s: seq<E>, m: seq<E>, p: nat, e: nat)
    requires p <= e <= |s| == |m| && multiset(m) == multiset(s)
    requires forall k :: 0 <= k < |s| && !(p <= k < e) ==> m[k] == s[k]
    ensures multiset(m[p..e]) == multiset(s[p..e])
  {
    SplitMultiset(s, p, e);
    SplitMultiset(m, p, e);
    assert s[..p] == m[..p] && s[e..] == m[e..];
  }

  lemma SplitMultiset<E>(s: seq<E>, p: nat, e: nat)
    requires p <= e <= |s|
    ensures multiset(s[p..e]) == multiset(s) - multiset(s[..p]) - multiset(s[e..])
  {
    assert s == s[..p] + s[p..e] + s[e..];
  }

  lemma SliceSorted<E>(less: Less<E>, s: seq<E>, lo: nat, hi: nat)
    requires lo <= hi <= |s| && SortedSeg(less, s, lo, hi)
    ensures Sorted(less, s[lo..hi])
  {
  }

  /** The state between two merges of a pass: everything before p was output, and
      a descent separates it from what follows. */
  ghost predicate AtBoundary<E>(less: Less<E>, s: seq<E>, p: nat) {
    p <= |s| && (0 < p < |s| ==> less(s[p], s[p - 1]))
  }

  lemma BoundaryMoves<E>(less: Less<E>, s: seq<E>, p: nat, j: nat, e: nat)
    requires p < j < e <= |s| && StrictWeakOrder(less, s)
    requires SortedSeg(less, s, p, j) && SortedSeg(less, s, j, e)
    requires e < |s| ==> less(s[e], s[e - 1])
    ensures AtBoundary(less, Merge(less, s, p, j, e), e)
  {
    MergeRuns(less, s, p, j, e);
    if e < |s| {
      var m := Merge(less, s, p, j, e);
      MergedEndIsMax(less, s, m, p, e, e - 1);
      assert s[e] in s && s[e - 1] in s && m[e - 1] in multiset(m);
    }
  }

  lemma Cut<E>(s: seq<E>, p: nat, j: nat, e: nat)
    requires p <= j <= e <= |s|
    ensures s == s[..p] + s[p..j] + s[j..e] + s[e..]
  {
  }

  lemma CutOnce<E>(s: seq<E>, p: nat, e: nat)
    requires p <= e <= |s|
    ensures s == s[..p] + s[p..e] + s[e..]
  {
  }

  lemma DescentLost<E>(less: Less<E>, s: seq<E>, m: seq<E>, p: nat, j: nat, e: nat)
    requires p < j < e <= |s| == |m| && AtBoundary(less, s, p)
    requires SortedSeg(less, s, p, j) && SortedSeg(less, s, j, e) && SortedSeg(less, m, p, e)
    requires less(s[j], s[j - 1]) && (e < |s| ==> less(s[e], s[e - 1]))
    requires m[..p] == s[..p] && m[e..] == s[e..]
    ensures Descents(less, m) < Descents(less, s)
  {
    SliceSorted(less, s, p, j);
    SliceSorted(less, s, j, e);
    SliceSorted(less, m, p, e);
    Cut(s, p, j, e);
    CutOnce(m, p, e);
    MergeRemovesDescent(less, s[..p], s[p..j], s[j..e], m[p..e], s[e..]);
  }

  lemma MergeLosesDescent<E>(less: Less<E>, s: seq<E>, p: nat, j: nat, e: nat)
    requires p < j < e <= |s| && StrictWeakOrder(less, s) && AtBoundary(less, s, p)
    requires SortedSeg(less, s, p, j) && SortedSeg(less, s, j, e)
    requires less(s[j], s[j - 1]) && (e < |s| ==> less(s[e], s[e - 1]))
    ensures Descents(less, Merge(less, s, p, j, e)) < Descents(less, s)
  {
    MergeRuns(less, s, p, j, e);
    DescentLost(less, s, Merge(less, s, p, j, e), p, j, e);
  }

  /** The runs a pass picks at p, and what merging them gives. */
  lemma PassStep<E>(less: Less<E>, s: seq<E>, p: nat)
    requires p < |s| && StrictWeakOrder(less, s) && AtBoundary(less, s, p) && RunEnd(less, s, p) < |s|
    ensures var j := RunEnd(less, s, p); var e := RunEnd(less, s, j); var m := Merge(less, s, p, j, e);
      && StrictWeakOrder(less, m) && multiset(m) == multiset(s) && AtBoundary(less, m, e)
      && SortedSeg(less, m, p, e) && Descents(less, m) < Descents(less, s)
  {
    var j := RunEnd(less, s, p);
    var e := RunEnd(less, s, j);
    RunIsMaximal(less, s, p);
    RunIsMaximal(less, s, j);
    MergeRuns(less, s, p, j, e);
    BoundaryMoves(less, s, p, j, e);
    MergeLosesDescent(less, s, p, j, e);
  }

  /** A pass loses a descent for each merge; it merges at least once whenever it
      outputs more than one run. */
  lemma {:induction false} PassMakesProgress<E>(less: Less<E>, s: seq<E>, p: nat)
    requires p <= |s| && StrictWeakOrder(less, s) && AtBoundary(less, s, p)
    ensures var (r, n) := Pass(less, s, p);
      && multiset(r) == multiset(s) && Descents(less, r) <= Descents(less, s)
      && (n > 1 ==> Descents(less, r) < Descents(less, s))
    decreases |s| - p
  {
    if p < |s| && RunEnd(less, s, p) < |s| {
      var j := RunEnd(less, s, p);
      var e := RunEnd(less, s, j);
      PassStep(less, s, p);
      PassMakesProgress(less, Merge(less, s, p, j, e), e);
    }
  }

  lemma {:induction false} PassKeepsOrder<E>(less: Less<E>, s0: seq<E>, s: seq<E>, p: nat)
    requires p <= |s| && StrictWeakOrder(less, s) && KeepsOrder(less, s0, s)
    ensures KeepsOrder(less, s0, Pass(less, s, p).0)
    decreases |s| - p
  {
    if p < |s| && RunEnd(less, s, p) < |s| {
      var j := RunEnd(less, s, p);
      var e := RunEnd(less, s, j);
      RunIsMaximal(less, s, p);
      RunIsMaximal(less, s, j);
      MergeStarts(less, s, p, j, e);
      MergeKeepsOrder(less, s0, s, p, p, j, e);
      MergeRuns(less, s, p, j, e);
      PassKeepsOrder(less, s0, Merge(less, s, p, j, e), e);
    }
  }

  lemma PassCounts<E>(less: Less<E>, s: seq<E>, p: nat)
    requires p <= |s|
    ensures Pass(less, s, p).1 == 0 <==> p == |s|
    ensures p == |s| ==> Pass(less, s, p).0 == s
  {
  }

  /** A pass that outputs at most one run leaves the sequence sorted. */
  lemma OneRunIsSorted<E>(less: Less<E>, s: seq<E>)
    requires StrictWeakOrder(less, s) && Pass(less, s, 0).1 <= 1
    ensures Sorted(less, Pass(less, s, 0).0)
  {
    if s != [] {
      var j := RunEnd(less, s, 0);
      if j == |s| {
        RunIsMaximal(less, s, 0);
      } else {
        var e := RunEnd(less, s, j);
        var m := Merge(less, s, 0, j, e);
        assert Pass(less, s, 0) == (Pass(less, m, e).0, Pass(less, m, e).1 + 1);
        PassCounts(less, m, e);
        PassStep(less, s, 0);
      }
    }
  }

  /** Where list_sort is after a pass that output n runs. */
  ghost predicate SortState<E>(less: Less<E>, s0: seq<E>, s: seq<E>, n: nat) {
    && StrictWeakOrder(less, s) && multiset(s) == multiset(s0) && KeepsOrder(less, s0, s)
    && (n <= 1 ==> Sorted(less, s))
  }

  /** One pass keeps the state, and the descents fall if it output several runs. */
  lemma PassIsStable<E>(less: Less<E>, s0: seq<E>, s: seq<E>, n: nat)
    requires SortState(less, s0, s, n)
    ensures SortState(less, s0, Pass(less, s, 0).0, Pass(less, s, 0).1)
    ensures Descents(less, Pass(less, s, 0).0) <= Descents(less, s)
    ensures Pass(less, s, 0).1 > 1 ==> Descents(less, Pass(less, s, 0).0) < Descents(less, s)
  {
    PassMakesProgress(less, s, 0);
    PassKeepsOrder(less, s0, s, 0);
    SameElements(less, s, Pass(less, s, 0).0);
    if Pass(less, s, 0).1 <= 1 { OneRunIsSorted(less, s); }
  }

  lemma SortStarts<E>(less: Less<E>, s: seq<E>)
    requires StrictWeakOrder(less, s)
    ensures SortState(less, s, s, 2)
  {
    forall i, j | 0 <= i < j < |s|
      ensures Before(s, s[i], s[j])
    {
    }
  }
}
