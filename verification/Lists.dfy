/** Doubly linked lists with a head and a tail sentinel, updated in place. */
module Lists {
  import opened Containers
  import opened MergeSorting

  class Elem<T(0)> {
    var prev: Elem?<T>
    var next: Elem?<T>
    const value: T

    constructor (value: T)
      ensures this.value == value
    {
      this.value := value;
      prev, next := null, null;
    }

    /** A head or tail; its value is never looked at. */
    constructor Sentinel()
      ensures prev == null && next == null
    {
      prev, next := null, null;
    }
  }

  /** Consecutive elements of the segment point at each other. */
  ghost predicate Linked<T(0)>(seg: seq<Elem<T>>)
    reads seg
  {
    && (forall i {:trigger seg[i].next} :: 0 <= i < |seg| - 1 ==> seg[i].next == seg[i + 1])
    && (forall i {:trigger seg[i].prev} :: 0 < i < |seg| ==> seg[i].prev == seg[i - 1])
  }

  lemma JoinLinked<T(0)>(a: seq<Elem<T>>, b: seq<Elem<T>>)
    requires Linked(a) && Linked(b)
    requires a != [] && b != [] ==> a[|a| - 1].next == b[0] && b[0].prev == a[|a| - 1]
    ensures Linked(a + b)
  {
  }

  ghost predicate Apart<T>(a: seq<T>, b: seq<T>) {
    forall i, j :: 0 <= i < |a| && 0 <= j < |b| ==> a[i] != b[j]
  }

  lemma InsertKeepsDistinct<T>(c: seq<T>, b: nat, seg: seq<T>)
    requires Distinct(c) && Distinct(seg) && Apart(seg, c) && b <= |c|
    ensures Distinct(c[..b] + seg + c[b..])
  {
  }

  function Interior<T>(c: seq<T>): seq<T>
    requires |c| >= 2
  {
    c[1..|c| - 1]
  }

  /** c with positions f .. l moved to just before position b. */
  function Spliced<T>(c: seq<T>, b: nat, f: nat, l: nat): seq<T>
    requires f <= l <= |c| && b <= |c| && (b < f || l <= b)
  {
    if b < f then c[..b] + c[f..l] + c[b..f] + c[l..] else c[..f] + c[l..b] + c[f..l] + c[b..]
  }

  lemma SplicedOne<T>(c: seq<T>, i: nat, j: nat, q: nat)
    requires i < j && j + 2 < |c| && q < |c|
    ensures var r := Spliced(c, i + 1, j + 1, j + 2);
      |r| == |c| && r[q] == if q <= i then c[q] else if q == i + 1 then c[j + 1] else if q <= j + 1 then c[q - 1] else c[q]
  {
  }

  /** Splicing one element, seen from between the sentinels. */
  lemma SpliceIsMove<T>(c: seq<T>, i: nat, j: nat)
    requires i < j && j + 2 < |c|
    ensures var r := Spliced(c, i + 1, j + 1, j + 2);
      && |r| == |c| && Interior(r) == MoveTo(Interior(c), i, j) && r[i + 2] == c[i + 1]
      && (forall k :: 0 <= k < |r| ==> r[k] in c) && (forall k :: j + 2 <= k < |r| ==> r[k] == c[k])
  {
    hide Spliced;
    var r, m := Spliced(c, i + 1, j + 1, j + 2), MoveTo(Interior(c), i, j);
    SplicedOne(c, i, j, i + 2);
    forall k | 0 <= k < |m| ensures Interior(r)[k] == m[k] {
      SplicedOne(c, i, j, k + 1);
      assert Interior(r)[k] == r[k + 1];
      assert m[k] == Interior(c)[if k == i then j else if i < k <= j then k - 1 else k];
    }
    forall k | 0 <= k < |r| ensures r[k] in c && (j + 2 <= k ==> r[k] == c[k]) {
      SplicedOne(c, i, j, k);
    }
  }

  lemma SplicedNothing<T>(c: seq<T>, b: nat, f: nat)
    requires f <= |c| && b <= |c|
    ensures Spliced(c, b, f, f) == c
  {
  }

  /** Taking the segment out and putting it back in at its new place. */
  lemma SplicedIs<T>(c: seq<T>, b: nat, f: nat, l: nat)
    requires Distinct(c) && f <= l <= |c| && b < |c| && (b < f || l <= b)
    ensures
      var rest := c[..f] + c[l..];
      var k := if b < f then b else b - (l - f);
      && k < |rest| && rest[k] == c[b] && rest[..k] + c[f..l] + rest[k..] == Spliced(c, b, f, l)
      && Apart(c[f..l], rest) && Distinct(c[f..l])
  {
    var rest := c[..f] + c[l..];
    if b < f {
      assert rest[..b] == c[..b] && rest[b..] == c[b..f] + c[l..];
    } else {
      var k := b - (l - f);
      assert rest[..k] == c[..f] + c[l..b] && rest[k..] == c[b..];
    }
  }

  lemma StillApart<T>(c: seq<T>, rest: seq<T>, f: nat, l: nat, d: seq<T>, old_d: seq<T>, b: nat)
    requires Distinct(c) && f <= l <= |c| && b <= |old_d| && Apart(c, old_d)
    requires rest == c[..f] + c[l..] && d == old_d[..b] + c[f..l] + old_d[b..]
    ensures Apart(rest, d)
  {
    forall i, j | 0 <= i < |rest| && 0 <= j < |d| ensures rest[i] != d[j] {
      var x := if i < f then i else i + (l - f);
      assert rest[i] == c[x];
      if j < b {
        assert d[j] == old_d[j];
      } else if j < b + (l - f) {
        assert d[j] == c[f + (j - b)];
      } else {
        assert d[j] == old_d[j - (l - f)];
      }
    }
  }

  lemma ReversedChain<T>(c: seq<T>, r: seq<T>)
    requires |c| >= 2 && Distinct(c) && r == [c[0]] + Reversed(Interior(c)) + [c[|c| - 1]]
    ensures |r| == |c| && Distinct(r) && Interior(r) == Reversed(Interior(c))
    ensures forall q :: 1 <= q < |c| - 1 ==> r[q] == c[|c| - 1 - q]
  {
    assert forall q :: 1 <= q < |c| - 1 ==> r[q] == c[|c| - 1 - q];
  }

  class List<T(0)> {
    const head: Elem<T>
    const tail: Elem<T>
    ghost var chain: seq<Elem<T>>   // head, the interior elements in order, tail

    /** The links run forward and backward along the chain, which repeats nothing. */
    ghost predicate Valid()
      reads this, chain
    {
      && |chain| >= 2 && chain[0] == head && chain[|chain| - 1] == tail
      && Distinct(chain)
      && head.prev == null && tail.next == null
      && Linked(chain)
    }

    /** The interior elements. */
    ghost function Elems(): seq<Elem<T>>
      requires |chain| >= 2
      reads this
    {
      Interior(chain)
    }

    constructor ()
      ensures Valid() && Elems() == [] && fresh(head) && fresh(tail)
    {
      head := new Elem.Sentinel();
      tail := new Elem.Sentinel();
      new;
      head.next := tail;
      tail.prev := head;
      chain := [head, tail];
    }

    /** list_insert: elem goes just before the element at position k. */
    method Insert(before: Elem<T>, elem: Elem<T>, ghost k: nat)
      requires Valid() && 0 < k < |chain| && chain[k] == before && elem !in chain
      modifies this, chain, elem
      ensures Valid() && chain == old(chain)[..k] + [elem] + old(chain)[k..]
    {
      elem.prev := before.prev;
      elem.next := before;
      before.prev.next := elem;
      before.prev := elem;
      chain := chain[..k] + [elem] + chain[k..];
    }

    /** list_remove: the element at position k leaves the list. */
    method Remove(elem: Elem<T>, ghost k: nat) returns (next: Elem<T>)
      requires Valid() && 0 < k < |chain| - 1 && chain[k] == elem
      modifies this, chain
      ensures Valid() && chain == old(chain)[..k] + old(chain)[k + 1..]
      ensures next == old(chain)[k + 1]
    {
      elem.prev.next := elem.next;
      elem.next.prev := elem.prev;
      next := elem.next;
      chain := chain[..k] + chain[k + 1..];
    }

    /** The first half of list_splice: positions f .. l leave the list, still
        linked to each other. */
    method Unlink(first: Elem<T>, lst: Elem<T>, ghost f: nat, ghost l: nat)
      requires Valid() && 0 < f < l < |chain| && chain[f] == first && chain[l - 1] == lst
      modifies this, chain
      ensures Valid() && chain == old(chain)[..f] + old(chain)[l..]
      ensures Linked(old(chain)[f..l])
    {
      ghost var c := chain;
      first.prev.next := lst.next;
      lst.next.prev := first.prev;
      chain := c[..f] + c[l..];
      assert Linked(chain);
    }

    /** The second half: a linked segment goes in just before position b. */
    method Link(before: Elem<T>, first: Elem<T>, lst: Elem<T>, ghost b: nat, ghost seg: seq<Elem<T>>)
      requires Valid() && 0 < b < |chain| && chain[b] == before
      requires |seg| > 0 && seg[0] == first && seg[|seg| - 1] == lst && Linked(seg) && Distinct(seg)
      requires Apart(seg, chain)
      modifies this, chain, seg
      ensures Valid() && chain == old(chain)[..b] + seg + old(chain)[b..]
    {
      ghost var c := chain;
      first.prev := before.prev;
      lst.next := before;
      before.prev.next := first;
      before.prev := lst;
      InsertKeepsDistinct(c, b, seg);
      chain := c[..b] + seg + c[b..];
      assert Linked(c[..b]) && Linked(seg) && Linked(c[b..]);
      JoinLinked(c[..b], seg);
      JoinLinked(c[..b] + seg, c[b..]);
    }

    /** list_splice within one list: positions f .. l move to just before position b. */
    method Splice(before: Elem<T>, first: Elem<T>, last: Elem<T>, ghost b: nat, ghost f: nat, ghost l: nat)
      requires Valid() && 0 < f <= l < |chain| && 0 < b < |chain| && (b < f || l <= b)
      requires chain[b] == before && chain[f] == first && chain[l] == last
      modifies this, chain
      ensures Valid() && chain == Spliced(old(chain), b, f, l)
    {
      if first == last {
        assert f == l;
        SplicedNothing(chain, b, f);
        return;
      }
      hide Spliced, Distinct, Linked;
      var lst := last.prev;
      ghost var c := chain;
      Unlink(first, lst, f, l);
      ghost var k := if b < f then b else b - (l - f);
      SplicedIs(c, b, f, l);
      Link(before, first, lst, k, c[f..l]);
    }

    /** list_splice between two lists: positions f .. l of the other list move to just
        before position b of this one. */
    method SpliceFrom(other: List<T>, before: Elem<T>, first: Elem<T>, last: Elem<T>, ghost b: nat, ghost f: nat, ghost l: nat)
      requires Valid() && other.Valid() && other != this && Apart(other.chain, chain)
      requires 0 < f <= l < |other.chain| && 0 < b < |chain|
      requires chain[b] == before && other.chain[f] == first && other.chain[l] == last
      modifies this, chain, other, other.chain
      ensures Valid() && other.Valid() && Apart(other.chain, chain)
      ensures chain == old(chain)[..b] + old(other.chain)[f..l] + old(chain)[b..]
      ensures other.chain == old(other.chain)[..f] + old(other.chain)[l..]
    {
      if first == last {
        assert f == l;
        assert chain == chain[..b] + chain[b..] && other.chain == other.chain[..f] + other.chain[f..];
        return;
      }
      var lst := last.prev;
      ghost var c := other.chain;
      other.Unlink(first, lst, f, l);
      ghost var rest := other.chain;
      Link(before, first, lst, b, c[f..l]);
      StillApart(c, rest, f, l, chain, old(chain), b);
    }

    /** The order on elements that less gives through their values. */
    static ghost function ByValue(less: Less<T>): Less<Elem<T>> {
      (a: Elem<T>, b: Elem<T>) => less(a.value, b.value)
    }

    /** find_end_of_run: the nondecreasing run that starts at position i. */
    method FindEndOfRun(a: Elem<T>, less: Less<T>, ghost i: nat) returns (end: Elem<T>)
      requires Valid() && i < |Elems()| && a == chain[i + 1]
      ensures end == chain[RunEnd(ByValue(less), Elems(), i) + 1]
    {
      ghost var lt := ByValue(less);
      end := a.next;
      ghost var j := i + 1;
      while end != tail && !less(end.value, end.prev.value)
        invariant i < j <= |Elems()| && end == chain[j + 1]
        invariant RunEnd(lt, Elems(), j - 1) == RunEnd(lt, Elems(), i)
        decreases |chain| - j
      {
        end, j := end.next, j + 1;
      }
    }

    /** One element moves down from position j to position i. */
    method MoveOne(a0: Elem<T>, b: Elem<T>, after: Elem<T>, ghost i: nat, ghost j: nat)
      requires Valid() && i < j < |Elems()|
      requires a0 == chain[i + 1] && b == chain[j + 1] && after == chain[j + 2]
      modifies this, chain
      ensures Valid() && Elems() == MoveTo(old(Elems()), i, j) && |chain| == |old(chain)|
      ensures forall k :: 0 <= k < |chain| ==> chain[k] in old(chain)
      ensures chain[i + 2] == a0 && forall k :: j + 2 <= k < |chain| ==> chain[k] == old(chain)[k]
    {
      hide Spliced, MoveTo, Linked, Distinct;
      SpliceIsMove(chain, i, j);
      Splice(a0, b, after, i + 1, j + 1, j + 2);
    }

    /** One turn of inplace_merge's loop: p advances past an element that is in
        place, or q's element is spliced in before p. */
    method MergeTurn(p: Elem<T>, q: Elem<T>, less: Less<T>, ghost i: nat, ghost j: nat, ghost e: nat)
      returns (p1: Elem<T>, q1: Elem<T>, ghost j1: nat)
      requires Valid() && i < j < e <= |Elems()| && p == chain[i + 1] && q == chain[j + 1]
      modifies this, chain
      ensures Valid() && |chain| == |old(chain)| && chain[e + 1] == old(chain)[e + 1]
      ensures forall k :: 0 <= k < |chain| ==> chain[k] in old(chain)
      ensures j <= j1 <= j + 1 && p1 == chain[i + 2] && q1 == chain[j1 + 1]
      ensures Merge(ByValue(less), Elems(), i + 1, j1, e) == Merge(ByValue(less), old(Elems()), i, j, e)
    {
      p1, q1, j1 := p, q, j;
      if !less(q.value, p.value) {
        p1 := p.next;
      } else {
        q1, j1 := q.next, j + 1;
        MoveOne(p, q1.prev, q1, i, j);
      }
    }

    /** inplace_merge: the runs lo .. mid and mid .. e become one. */
    method InplaceMerge(a0: Elem<T>, a1b0: Elem<T>, b1: Elem<T>, less: Less<T>, ghost lo: nat, ghost mid: nat, ghost e: nat)
      requires Valid() && lo < mid < e <= |Elems()|
      requires a0 == chain[lo + 1] && a1b0 == chain[mid + 1] && b1 == chain[e + 1]
      modifies this, chain
      ensures Valid() && Elems() == Merge(ByValue(less), old(Elems()), lo, mid, e)
      ensures |chain| == |old(chain)| && chain[e + 1] == b1
      ensures forall k :: 0 <= k < |chain| ==> chain[k] in old(chain)
    {
      hide Linked;
      ghost var lt := ByValue(less);
      var p, q := a0, a1b0;
      ghost var i: nat, j: nat := lo, mid;
      while p != q && q != b1
        invariant Valid() && |chain| == |old(chain)| && forall k :: 0 <= k < |chain| ==> chain[k] in old(chain)
        invariant lo <= i <= j <= e && p == chain[i + 1] && q == chain[j + 1] && b1 == chain[e + 1]
        invariant Merge(lt, Elems(), i, j, e) == Merge(lt, old(Elems()), lo, mid, e)
        decreases 2 * e - i - j
      {
        p, q, j := MergeTurn(p, q, less, i, j, e);
        i := i + 1;
      }
    }

    /** One iteration of list_sort's pass: the run at p is merged with the next one,
        unless it is the last. */
    method OutputRun(a0: Elem<T>, less: Less<T>, ghost p: nat) returns (b1: Elem<T>, last: bool, ghost e: nat)
      requires Valid() && p < |Elems()| && a0 == chain[p + 1]
      modifies this, chain
      ensures Valid() && |chain| == |old(chain)| && forall k :: 0 <= k < |chain| ==> chain[k] in old(chain)
      ensures p < e <= |Elems()| && b1 == chain[e + 1]
      ensures if last then Pass(ByValue(less), old(Elems()), p) == (Elems(), 1) else
        var (r, n) := Pass(ByValue(less), Elems(), e); Pass(ByValue(less), old(Elems()), p) == (r, n + 1)
    {
      ghost var lt := ByValue(less);
      var a1b0 := FindEndOfRun(a0, less, p);
      ghost var j := RunEnd(lt, Elems(), p);
      last := a1b0 == tail;
      b1, e := a1b0, j;
      if !last {
        b1 := FindEndOfRun(a1b0, less, j);
        e := RunEnd(lt, Elems(), j);
        InplaceMerge(a0, a1b0, b1, less, p, j, e);
      }
    }

    /** One pass of list_sort: neighbouring runs are merged two by two. */
    method SortPass(less: Less<T>) returns (runs: nat)
      requires Valid()
      modifies this, chain
      ensures Valid() && |chain| == |old(chain)| && forall k :: 0 <= k < |chain| ==> chain[k] in old(chain)
      ensures (Elems(), runs) == Pass(ByValue(less), old(Elems()), 0)
    {
      ghost var lt := ByValue(less);
      runs := 0;
      var a0 := head.next;
      ghost var p: nat := 0;
      while a0 != tail
        invariant Valid() && |chain| == |old(chain)| && forall k :: 0 <= k < |chain| ==> chain[k] in old(chain)
        invariant p <= |Elems()| && a0 == chain[p + 1]
        invariant Pass(lt, Elems(), p).0 == Pass(lt, old(Elems()), 0).0
        invariant Pass(lt, Elems(), p).1 + runs == Pass(lt, old(Elems()), 0).1
        decreases |chain| - p
      {
        runs := runs + 1;
        var last;
        a0, last, p := OutputRun(a0, less, p);
        if last {
          return;
        }
      }
    }

    /** list_sort: passes until one run is left.  The result is the stable sort of
        the input, and the number of descents bounds the number of passes. */
    method Sort(less: Less<T>)
      requires Valid() && StrictWeakOrder(ByValue(less), Elems())
      modifies this, chain
      ensures Valid() && IsStableSort(ByValue(less), old(Elems()), Elems())
    {
      hide Pass, Sorted, KeepsOrder, StrictWeakOrder, Descents;
      ghost var lt, s0 := ByValue(less), Elems();
      SortStarts(lt, s0);
      PassIsStable(lt, s0, s0, 2);
      var runs := SortPass(less);
      while runs > 1
        invariant Valid() && |chain| == |old(chain)| && forall k :: 0 <= k < |chain| ==> chain[k] in old(chain)
        invariant SortState(lt, s0, Elems(), runs)
        decreases Descents(lt, Elems()), if runs > 1 then 1 else 0
      {
        PassIsStable(lt, s0, Elems(), runs);
        runs := SortPass(less);
      }
    }

    /** list_reverse: the links of every element are swapped. */
    method Reverse()
      requires Valid()
      modifies this, chain
      ensures Valid() && Elems() == Reversed(old(Elems())) && |chain| == |old(chain)|
    {
      if head.next != tail {
        ghost var c := chain;
        SwapLinks();
        head.next, tail.prev := tail.prev, head.next;
        head.next.prev, tail.prev.next := tail.prev.next, head.next.prev;
        chain := [head] + Reversed(Interior(c)) + [tail];
        ReversedChain(c, chain);
      }
    }

    /** The loop of list_reverse. */
    method SwapLinks()
      requires Valid()
      modifies chain
      ensures head.next == old(head.next) && tail.prev == old(tail.prev) && head.prev == null && tail.next == null
      ensures forall k {:trigger chain[k].next} :: 1 <= k < |chain| - 1 ==> chain[k].next == chain[k - 1]
      ensures forall k {:trigger chain[k].prev} :: 1 <= k < |chain| - 1 ==> chain[k].prev == chain[k + 1]
    {
      var e := head.next;
      ghost var i: nat := 1;
      while e != tail
        invariant 1 <= i <= |chain| - 1 && e == chain[i]
        invariant head.next == old(head.next) && tail.prev == old(tail.prev) && head.prev == null && tail.next == null
        invariant forall k {:trigger chain[k].next} :: 1 <= k < |chain| - 1 ==>
            chain[k].next == if k < i then chain[k - 1] else chain[k + 1]
        invariant forall k {:trigger chain[k].prev} :: 1 <= k < |chain| - 1 ==>
            chain[k].prev == if k < i then chain[k + 1] else chain[k - 1]
        decreases |chain| - i
      {
        e.prev, e.next := e.next, e.prev;
        e, i := e.prev, i + 1;
      }
    }
  }
}
