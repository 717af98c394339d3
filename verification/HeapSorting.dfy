/** The C library's heapsort and binary search, with its 1-based heap. */
module HeapSorting {
  import opened Containers

  /** A strcmp-style comparison: negative, zero or positive. */
  type Compare<!T> = (T, T) -> int

  /** compare orders all values: signs are opposite, and "not greater" is transitive. */
  ghost predicate TotalPreorder<T(!new)>(cmp: Compare<T>) {
    && (forall x, y :: cmp(x, y) > 0 <==> cmp(y, x) < 0)
    && (forall x, y, z :: cmp(x, y) <= 0 && cmp(y, z) <= 0 ==> cmp(x, z) <= 0)
  }

  ghost predicate Sorted<T>(cmp: Compare<T>, s: seq<T>) {
    forall i, j :: 0 <= i < j < |s| ==> cmp(s[i], s[j]) <= 0
  }

  // ------------------------------------------------------- heaps in a sequence

  /** do_swap, with 1-based indexes. */
  function Swap<T>(s: seq<T>, i: nat, j: nat): (r: seq<T>)
    requires 1 <= i <= |s| && 1 <= j <= |s|
    ensures |r| == |s|
  {
    s[i - 1 := s[j - 1]][j - 1 := s[i - 1]]
  }

  /** The largest of element i and its children among the first cnt. */
  function Largest<T>(cmp: Compare<T>, s: seq<T>, i: nat, cnt: nat): (m: nat)
    requires 1 <= i <= cnt <= |s|
    ensures m == i || (m <= cnt && (m == 2 * i || m == 2 * i + 1))
  {
    var m := if 2 * i <= cnt && cmp(s[2 * i - 1], s[i - 1]) > 0 then 2 * i else i;
    if 2 * i + 1 <= cnt && cmp(s[2 * i], s[m - 1]) > 0 then 2 * i + 1 else m
  }

  /** heapify: element i floats down. */
  function SiftDown<T>(cmp: Compare<T>, s: seq<T>, i: nat, cnt: nat): (r: seq<T>)
    requires 1 <= i <= cnt <= |s|
    ensures |r| == |s|
    decreases cnt - i
  {
    var m := Largest(cmp, s, i, cnt);
    if m == i then s else SiftDown(cmp, Swap(s, i, m), m, cnt)
  }

  /** Element c is not greater than element p (1-based). */
  predicate AtMost<T>(cmp: Compare<T>, s: seq<T>, c: nat, p: nat) {
    1 <= c <= |s| && 1 <= p <= |s| && cmp(s[c - 1], s[p - 1]) <= 0
  }

  /** No element with index >= 2 lo among the first cnt is greater than its parent,
      except perhaps the children of `hole`. */
  ghost predicate HeapBut<T>(cmp: Compare<T>, s: seq<T>, lo: nat, cnt: nat, hole: nat) {
    && 1 <= lo && cnt <= |s|
    && forall k: nat {:trigger AtMost(cmp, s, k, k / 2)} :: 2 * lo <= k <= cnt && k / 2 != hole ==> AtMost(cmp, s, k, k / 2)
  }

  ghost predicate Heap<T>(cmp: Compare<T>, s: seq<T>, lo: nat, cnt: nat) {
    HeapBut(cmp, s, lo, cnt, 0)
  }

  /** While element i floats down, its children are bounded by its parent. */
  ghost predicate Sifting<T>(cmp: Compare<T>, s: seq<T>, lo: nat, i: nat, cnt: nat) {
    && 1 <= lo <= i <= cnt && HeapBut(cmp, s, lo, cnt, i)
    && (i >= 2 * lo && 2 * i <= cnt ==> AtMost(cmp, s, 2 * i, i / 2))
    && (i >= 2 * lo && 2 * i + 1 <= cnt ==> AtMost(cmp, s, 2 * i + 1, i / 2))
  }

  lemma LargestIsLargest<T(!new)>(cmp: Compare<T>, s: seq<T>, i: nat, cnt: nat)
    requires TotalPreorder(cmp) && 1 <= i <= cnt <= |s|
    ensures Dominates(cmp, s, i, cnt, Largest(cmp, s, i, cnt))
  {
  }

  /** m is the largest of i and its children. */
  ghost predicate Dominates<T>(cmp: Compare<T>, s: seq<T>, i: nat, cnt: nat, m: nat) {
    && AtMost(cmp, s, i, m)
    && (2 * i <= cnt ==> AtMost(cmp, s, 2 * i, m))
    && (2 * i + 1 <= cnt ==> AtMost(cmp, s, 2 * i + 1, m))
  }

  lemma SiftChild<T>(cmp: Compare<T>, s: seq<T>, lo: nat, i: nat, cnt: nat, m: nat, k: nat)
    requires Sifting(cmp, s, lo, i, cnt) && Dominates(cmp, s, i, cnt, m)
    requires m <= cnt && (m == 2 * i || m == 2 * i + 1) && 2 * lo <= k <= cnt && k / 2 != m
    ensures AtMost(cmp, Swap(s, i, m), k, k / 2)
  {
    assert k / 2 != i ==> AtMost(cmp, s, k, k / 2);
    if k / 2 == i {
      assert k == 2 * i || k == 2 * i + 1;
    }
  }

  lemma SiftStops<T>(cmp: Compare<T>, s: seq<T>, lo: nat, i: nat, cnt: nat)
    requires Sifting(cmp, s, lo, i, cnt) && Dominates(cmp, s, i, cnt, i)
    ensures Heap(cmp, s, lo, cnt)
  {
    forall k: nat | 2 * lo <= k <= cnt
      ensures AtMost(cmp, s, k, k / 2)
    {
      assert k / 2 == i ==> k == 2 * i || k == 2 * i + 1;
    }
  }

  lemma SiftSwaps<T>(cmp: Compare<T>, s: seq<T>, lo: nat, i: nat, cnt: nat, m: nat)
    requires Sifting(cmp, s, lo, i, cnt) && Dominates(cmp, s, i, cnt, m)
    requires m <= cnt && (m == 2 * i || m == 2 * i + 1)
    ensures Sifting(cmp, Swap(s, i, m), lo, m, cnt)
  {
    forall k: nat | 2 * lo <= k <= cnt && k / 2 != m
      ensures AtMost(cmp, Swap(s, i, m), k, k / 2)
    {
      SiftChild(cmp, s, lo, i, cnt, m, k);
    }
    assert 2 * m <= cnt ==> AtMost(cmp, s, 2 * m, 2 * m / 2);
    assert 2 * m + 1 <= cnt ==> AtMost(cmp, s, 2 * m + 1, (2 * m + 1) / 2);
  }

  lemma {:induction false} SiftMakesHeap<T(!new)>(cmp: Compare<T>, s: seq<T>, lo: nat, i: nat, cnt: nat)
    requires TotalPreorder(cmp) && Sifting(cmp, s, lo, i, cnt)
    ensures Heap(cmp, SiftDown(cmp, s, i, cnt), lo, cnt)
    decreases cnt - i
  {
    LargestIsLargest(cmp, s, i, cnt);
    var m := Largest(cmp, s, i, cnt);
    if m == i {
      SiftStops(cmp, s, lo, i, cnt);
    } else {
      SiftSwaps(cmp, s, lo, i, cnt, m);
      SiftMakesHeap(cmp, Swap(s, i, m), lo, m, cnt);
    }
  }

  lemma {:induction false} SiftPermutes<T>(cmp: Compare<T>, s: seq<T>, i: nat, cnt: nat)
    requires 1 <= i <= cnt <= |s|
    ensures multiset(SiftDown(cmp, s, i, cnt)[..cnt]) == multiset(s[..cnt])
    ensures SiftDown(cmp, s, i, cnt)[cnt..] == s[cnt..]
    decreases cnt - i
  {
    var m := Largest(cmp, s, i, cnt);
    if m != i {
      var t := Swap(s, i, m);
      assert t[..cnt] == Swap(s[..cnt], i, m) && t[cnt..] == s[cnt..];
      SiftPermutes(cmp, t, m, cnt);
    }
  }

  /** The root is a maximum. */
  lemma {:induction false} RootIsMax<T(!new)>(cmp: Compare<T>, s: seq<T>, cnt: nat, k: nat)
    requires TotalPreorder(cmp) && Heap(cmp, s, 1, cnt) && 1 <= k <= cnt
    ensures AtMost(cmp, s, k, 1)
  {
    if k > 1 {
      assert AtMost(cmp, s, k, k / 2);
      RootIsMax(cmp, s, cnt, k / 2);
    } else {
      Reflexive(cmp, s[0]);
    }
  }

  lemma Reflexive<T(!new)>(cmp: Compare<T>, x: T)
    requires TotalPreorder(cmp)
    ensures cmp(x, x) == 0
  {
  }

  // ------------------------------------------------------------ the whole sort

  /** The first loop of sort, from index i down: build a heap. */
  function Build<T>(cmp: Compare<T>, s: seq<T>, i: nat): (r: seq<T>)
    requires i <= |s| / 2
    ensures |r| == |s|
    decreases i
  {
    if i == 0 then s else Build(cmp, SiftDown(cmp, s, i, |s|), i - 1)
  }

  /** The second loop, from count i down: move the maximum behind the heap. */
  function Extract<T>(cmp: Compare<T>, s: seq<T>, i: nat): (r: seq<T>)
    requires i <= |s|
    ensures |r| == |s|
    decreases i
  {
    if i <= 1 then s else Extract(cmp, SiftDown(cmp, Swap(s, 1, i), 1, i - 1), i - 1)
  }

  function HeapSort<T>(cmp: Compare<T>, s: seq<T>): (r: seq<T>) {
    Extract(cmp, Build(cmp, s, |s| / 2), |s|)
  }

  lemma {:induction false} BuildMakesHeap<T(!new)>(cmp: Compare<T>, s: seq<T>, i: nat)
    requires TotalPreorder(cmp) && i <= |s| / 2 && Heap(cmp, s, i + 1, |s|)
    ensures Heap(cmp, Build(cmp, s, i), 1, |s|)
    decreases i
  {
    if i > 0 {
      GrowHeap(cmp, s, i);
      SiftMakesHeap(cmp, s, i, i, |s|);
      BuildMakesHeap(cmp, SiftDown(cmp, s, i, |s|), i - 1);
    }
  }

  lemma GrowHeap<T>(cmp: Compare<T>, s: seq<T>, i: nat)
    requires 1 <= i <= |s| / 2 && Heap(cmp, s, i + 1, |s|)
    ensures Sifting(cmp, s, i, i, |s|)
  {
    forall k: nat | 2 * i <= k <= |s| && k / 2 != i
      ensures AtMost(cmp, s, k, k / 2)
    {
      assert 2 * (i + 1) <= k;
    }
  }

  lemma {:induction false} BuildPermutes<T>(cmp: Compare<T>, s: seq<T>, i: nat)
    requires i <= |s| / 2
    ensures multiset(Build(cmp, s, i)) == multiset(s)
    decreases i
  {
    if i > 0 {
      SiftPermutes(cmp, s, i, |s|);
      var t := SiftDown(cmp, s, i, |s|);
      assert t[..|s|] == t && s[..|s|] == s;
      BuildPermutes(cmp, t, i - 1);
    }
  }

  /** The state of the second loop: a heap of i elements, none greater than any of
      the sorted rest. */
  ghost predicate Extracting<T>(cmp: Compare<T>, s: seq<T>, i: nat) {
    && i <= |s| && Heap(cmp, s, 1, i) && Sorted(cmp, s[i..])
    && forall x, y :: 0 <= x < i <= y < |s| ==> cmp(s[x], s[y]) <= 0
  }

  lemma ExtractHeap<T(!new)>(cmp: Compare<T>, s: seq<T>, i: nat)
    requires TotalPreorder(cmp) && Extracting(cmp, s, i) && i >= 2
    ensures Heap(cmp, SiftDown(cmp, Swap(s, 1, i), 1, i - 1), 1, i - 1)
  {
    var t := Swap(s, 1, i);
    forall k: nat | 2 <= k <= i - 1 && k / 2 != 1
      ensures AtMost(cmp, t, k, k / 2)
    {
      assert AtMost(cmp, s, k, k / 2);
    }
    SiftMakesHeap(cmp, t, 1, 1, i - 1);
  }

  /** Where an element of the shrunken heap was before. */
  lemma ExtractSource<T>(cmp: Compare<T>, s: seq<T>, i: nat, x: nat) returns (j: nat)
    requires 2 <= i <= |s| && x < i - 1
    ensures 1 <= j <= i && SiftDown(cmp, Swap(s, 1, i), 1, i - 1)[x] == s[j - 1]
  {
    var t := Swap(s, 1, i);
    var r := SiftDown(cmp, t, 1, i - 1);
    SiftPermutes(cmp, t, 1, i - 1);
    assert r[..i - 1][x] in multiset(r[..i - 1]);
    var k :| 0 <= k < i - 1 && t[..i - 1][k] == r[x];
    j := if k == 0 then i else k + 1;
  }

  lemma ExtractTail<T>(cmp: Compare<T>, s: seq<T>, i: nat)
    requires Extracting(cmp, s, i) && i >= 2
    ensures SiftDown(cmp, Swap(s, 1, i), 1, i - 1)[i - 1..] == [s[0]] + s[i..]
    ensures Sorted(cmp, [s[0]] + s[i..])
  {
    hide SiftDown, Heap;
    var t := Swap(s, 1, i);
    SiftPermutes(cmp, t, 1, i - 1);
    assert t[i - 1..] == [s[0]] + s[i..];
  }

  /** What stays in the heap is not greater than the maximum taken out, nor than
      anything taken out before. */
  lemma ExtractBound<T(!new)>(cmp: Compare<T>, s: seq<T>, i: nat, x: nat, y: nat)
    requires TotalPreorder(cmp) && Extracting(cmp, s, i) && i >= 2 && x < i - 1 <= y < |s|
    ensures var r := SiftDown(cmp, Swap(s, 1, i), 1, i - 1); cmp(r[x], r[y]) <= 0
  {
    var r := SiftDown(cmp, Swap(s, 1, i), 1, i - 1);
    var j := ExtractSource(cmp, s, i, x);
    ExtractTail(cmp, s, i);
    assert r[y] == r[i - 1..][y - (i - 1)];
    if y == i - 1 {
      RootIsMax(cmp, s, i, j);
    }
  }

  lemma ExtractStep<T(!new)>(cmp: Compare<T>, s: seq<T>, i: nat)
    requires TotalPreorder(cmp) && Extracting(cmp, s, i) && i >= 2
    ensures Extracting(cmp, SiftDown(cmp, Swap(s, 1, i), 1, i - 1), i - 1)
  {
    var r := SiftDown(cmp, Swap(s, 1, i), 1, i - 1);
    ExtractHeap(cmp, s, i);
    ExtractTail(cmp, s, i);
    forall x, y | 0 <= x < i - 1 <= y < |r|
      ensures cmp(r[x], r[y]) <= 0
    {
      ExtractBound(cmp, s, i, x, y);
    }
  }

  lemma {:induction false} ExtractSorts<T(!new)>(cmp: Compare<T>, s: seq<T>, i: nat)
    requires TotalPreorder(cmp) && Extracting(cmp, s, i)
    ensures Sorted(cmp, Extract(cmp, s, i))
    decreases i
  {
    if i > 1 {
      ExtractStep(cmp, s, i);
      ExtractSorts(cmp, SiftDown(cmp, Swap(s, 1, i), 1, i - 1), i - 1);
    } else {
      assert s == s[..i] + s[i..];
    }
  }

  lemma {:induction false} ExtractPermutes<T>(cmp: Compare<T>, s: seq<T>, i: nat)
    requires i <= |s|
    ensures multiset(Extract(cmp, s, i)) == multiset(s)
    decreases i
  {
    if i > 1 {
      var t := Swap(s, 1, i);
      var r := SiftDown(cmp, t, 1, i - 1);
      SiftPermutes(cmp, t, 1, i - 1);
      JoinBags(r, t, i - 1);
      ExtractPermutes(cmp, r, i - 1);
    }
  }

  lemma JoinBags<T>(r: seq<T>, t: seq<T>, n: nat)
    requires n <= |r| == |t| && multiset(r[..n]) == multiset(t[..n]) && r[n..] == t[n..]
    ensures multiset(r) == multiset(t)
  {
    assert r == r[..n] + r[n..] && t == t[..n] + t[n..];
  }

  /** heapsort gives a sorted permutation, for every length and every preorder. */
  lemma HeapSortSorts<T(!new)>(cmp: Compare<T>, s: seq<T>)
    requires TotalPreorder(cmp)
    ensures Sorted(cmp, HeapSort(cmp, s)) && multiset(HeapSort(cmp, s)) == multiset(s)
  {
    var b := Build(cmp, s, |s| / 2);
    BuildMakesHeap(cmp, s, |s| / 2);
    BuildPermutes(cmp, s, |s| / 2);
    ExtractSorts(cmp, b, |s|);
    ExtractPermutes(cmp, b, |s|);
  }

  // ----------------------------------------------------------- the code, in place

  method DoSwap<T>(a: array<T>, i: nat, j: nat)
    requires 1 <= i <= a.Length && 1 <= j <= a.Length
    modifies a
    ensures a[..] == Swap(old(a[..]), i, j)
  {
    a[i - 1], a[j - 1] := a[j - 1], a[i - 1];
  }

  /** heapify, as a loop. */
  method Heapify<T>(a: array<T>, start: nat, cnt: nat, cmp: Compare<T>)
    requires 1 <= start <= cnt <= a.Length
    modifies a
    ensures a[..] == SiftDown(cmp, old(a[..]), start, cnt)
  {
    var i := start;
    while true
      invariant 1 <= i <= cnt
      invariant SiftDown(cmp, a[..], i, cnt) == SiftDown(cmp, old(a[..]), start, cnt)
      decreases cnt - i
    {
      var left, right, max := 2 * i, 2 * i + 1, i;
      if left <= cnt && cmp(a[left - 1], a[max - 1]) > 0 {
        max := left;
      }
      if right <= cnt && cmp(a[right - 1], a[max - 1]) > 0 {
        max := right;
      }
      assert max == Largest(cmp, a[..], i, cnt);
      if max == i {
        break;
      }
      DoSwap(a, i, max);
      i := max;
    }
  }

  /** The two loops of sort. */
  method RunHeapSort<T>(a: array<T>, cmp: Compare<T>)
    modifies a
    ensures a[..] == HeapSort(cmp, old(a[..]))
  {
    var cnt := a.Length;
    var i := cnt / 2;
    while i > 0
      invariant 0 <= i <= cnt / 2
      invariant Build(cmp, a[..], i) == Build(cmp, old(a[..]), cnt / 2)
    {
      Heapify(a, i, cnt, cmp);
      i := i - 1;
    }
    i := cnt;
    while i > 1
      invariant 0 <= i <= cnt
      invariant Extract(cmp, a[..], i) == HeapSort(cmp, old(a[..]))
    {
      DoSwap(a, 1, i);
      Heapify(a, 1, i - 1, cmp);
      i := i - 1;
    }
  }

  /** sort: a sorted permutation of the array, in place. */
  method Sort<T(!new)>(a: array<T>, cmp: Compare<T>)
    requires TotalPreorder(cmp)
    modifies a
    ensures Sorted(cmp, a[..]) && multiset(a[..]) == multiset(old(a[..]))
  {
    HeapSortSorts(cmp, a[..]);
    RunHeapSort(a, cmp);
  }

  /** binary_search: finds an element equal to the key exactly when there is one. */
  method BinarySearch<T(!new)>(key: T, a: array<T>, cmp: Compare<T>) returns (r: Option<nat>)
    requires TotalPreorder(cmp) && Sorted(cmp, a[..])
    ensures r.Some? ==> r.value < a.Length && cmp(key, a[r.value]) == 0
    ensures r.None? ==> forall k :: 0 <= k < a.Length ==> cmp(key, a[k]) != 0
  {
    var first, last := 0, a.Length;
    while first < last
      invariant 0 <= first <= last <= a.Length
      invariant forall k :: 0 <= k < first ==> cmp(key, a[k]) > 0
      invariant forall k :: last <= k < a.Length ==> cmp(key, a[k]) < 0
    {
      var range := last - first;
      var middle := first + range / 2;
      var c := cmp(key, a[middle]);
      if c < 0 {
        SearchLeft(cmp, key, a[..], middle);
        last := middle;
      } else if c > 0 {
        SearchRight(cmp, key, a[..], middle);
        first := middle + 1;
      } else {
        return Some(middle);
      }
    }
    return None;
  }

  lemma SearchLeft<T(!new)>(cmp: Compare<T>, key: T, s: seq<T>, m: nat)
    requires TotalPreorder(cmp) && Sorted(cmp, s) && m < |s| && cmp(key, s[m]) < 0
    ensures forall k :: m <= k < |s| ==> cmp(key, s[k]) < 0
  {
    forall k | m <= k < |s|
      ensures cmp(key, s[k]) < 0
    {
      assert k > m ==> cmp(s[m], s[k]) <= 0;
    }
  }

  lemma SearchRight<T(!new)>(cmp: Compare<T>, key: T, s: seq<T>, m: nat)
    requires TotalPreorder(cmp) && Sorted(cmp, s) && m < |s| && cmp(key, s[m]) > 0
    ensures forall k :: 0 <= k <= m ==> cmp(key, s[k]) > 0
  {
    forall k | 0 <= k <= m
      ensures cmp(key, s[k]) > 0
    {
      assert k < m ==> cmp(s[k], s[m]) <= 0;
    }
  }
}
