/** The chained hash table: buckets of lists, resized to a power of two. */
module Hashing {
  import opened Containers
  import opened Bits
  import opened Numbers

  /** What the table is given: a hash and an ordering. */
  datatype Keying<!E> = Keying(hash: E -> nat, less: (E, E) -> bool)

  predicate Same<E>(key: Keying<E>, x: E, y: E) { !key.less(x, y) && !key.less(y, x) }

  /** Neither-less is an equivalence, and equal elements hash alike. */
  ghost predicate Lawful<E(!new)>(key: Keying<E>) {
    && (forall x :: Same(key, x, x))
    && (forall x, y, z :: Same(key, x, y) && Same(key, y, z) ==> Same(key, x, z))
    && (forall x, y :: Same(key, x, y) ==> key.hash(x) == key.hash(y))
  }

  // ------------------------------------------------------------------ buckets

  type Buckets<E> = seq<seq<E>>

  /** All elements, with how often they occur. */
  ghost function Bag<E>(bs: Buckets<E>): multiset<E> {
    if bs == [] then multiset{} else multiset(bs[0]) + Bag(bs[1..])
  }

  lemma {:induction false} BagMember<E>(bs: Buckets<E>, x: E)
    ensures x in Bag(bs) <==> exists i :: 0 <= i < |bs| && x in bs[i]
  {
    if bs != [] {
      BagMember(bs[1..], x);
      if x in Bag(bs[1..]) {
        var i :| 0 <= i < |bs[1..]| && x in bs[1..][i];
        assert x in bs[i + 1];
      }
      forall i | 0 <= i < |bs| && x in bs[i]
        ensures i == 0 || x in Bag(bs[1..])
      {
        if i > 0 { assert x in bs[1..][i - 1]; }
      }
    }
  }

  lemma {:induction false} BagContains<E>(bs: Buckets<E>, i: nat)
    requires i < |bs|
    ensures multiset(bs[i]) <= Bag(bs)
  {
    if i > 0 { BagContains(bs[1..], i - 1); }
  }

  lemma ExchangeIn<E>(a: multiset<E>, b: multiset<E>, x: multiset<E>, y: multiset<E>)
    requires x <= b
    ensures a + (b - x + y) == a + b - x + y
  {
  }

  lemma {:induction false} BagUpdate<E>(bs: Buckets<E>, i: nat, q: seq<E>)
    requires i < |bs|
    ensures Bag(bs[i := q]) == Bag(bs) - multiset(bs[i]) + multiset(q)
  {
    var all := bs[i := q];
    assert Bag(bs) == multiset(bs[0]) + Bag(bs[1..]) && Bag(all) == multiset(all[0]) + Bag(all[1..]);
    if i == 0 {
      assert all[1..] == bs[1..];
    } else {
      assert all[1..] == bs[1..][i - 1 := q];
      BagUpdate(bs[1..], i - 1, q);
      BagContains(bs[1..], i - 1);
      hide Bag;
      ExchangeIn(multiset(bs[0]), Bag(bs[1..]), multiset(bs[i]), multiset(q));
    }
  }

  /** The bucket an element belongs in, of n. */
  function Home<E>(key: Keying<E>, n: nat, x: E): (i: nat)
    requires n > 0
    ensures i < n
  {
    key.hash(x) % n
  }

  /** Elements sit in the bucket their hash selects. */
  ghost predicate Placed<E>(key: Keying<E>, bs: Buckets<E>) {
    |bs| > 0 && forall i, x {:trigger x in bs[i]} :: 0 <= i < |bs| && x in bs[i] ==> Home(key, |bs|, x) == i
  }

  /** No two elements are equal. */
  ghost predicate Different<E(!new)>(key: Keying<E>, b: multiset<E>) {
    && (forall x :: b[x] <= 1)
    && (forall x, y :: x in b && y in b && Same(key, x, y) ==> x == y)
  }

  lemma {:induction false} BagOfEmpties<E>(bs: Buckets<E>)
    requires forall i :: 0 <= i < |bs| ==> bs[i] == []
    ensures Bag(bs) == multiset{}
  {
    if bs != [] { BagOfEmpties(bs[1..]); }
  }

  ghost function Members<E(!new)>(b: multiset<E>): set<E> { set x | x in b }

  /** Without repetitions the bag is a set, and its size is the set's. */
  lemma {:induction false} BagIsSet<E(!new)>(key: Keying<E>, b: multiset<E>)
    requires Different(key, b)
    ensures multiset(Members(b)) == b && |Members(b)| == |b|
  {
    var s := Members(b);
    assert forall x :: multiset(s)[x] == b[x];
    assert multiset(s) == b;
  }

  // -------------------------------------------------------------------- table

  /** A table of n elements: a power of two of buckets, at least four, each
      element in its own bucket, and no two equal. */
  ghost predicate Table<E(!new)>(key: Keying<E>, bs: Buckets<E>, n: nat) {
    && |bs| >= 4 && FloorPow2(|bs|) == |bs|
    && Placed(key, bs)
    && Different(key, Bag(bs))
    && n == |Bag(bs)|
  }

  ghost predicate Absent<E>(key: Keying<E>, xs: seq<E>, e: E) {
    forall x :: x in xs ==> !Same(key, x, e)
  }

  /** Masking with one less than the bucket count is the remainder. */
  lemma MaskIsRemainder(h: nat, n: nat)
    requires n > 0 && FloorPow2(n) == n
    ensures And(h, n - 1) == h % n
  {
    var k := FloorPow2IsPow2(n);
    AndMask(h, k);
  }

  /** If the bucket of e holds nothing equal to it, the whole table does not. */
  lemma AbsentEverywhere<E(!new)>(key: Keying<E>, bs: Buckets<E>, e: E)
    requires Lawful(key) && Placed(key, bs)
    requires Absent(key, bs[Home(key, |bs|, e)], e)
    ensures forall x :: x in Bag(bs) ==> !Same(key, x, e)
  {
    forall x | x in Bag(bs) ensures !Same(key, x, e) {
      BagMember(bs, x);
      var i :| 0 <= i < |bs| && x in bs[i];
    }
  }

  /** A bucket holds nothing equal to e when the whole table does not. */
  lemma AbsentInBucket<E(!new)>(key: Keying<E>, bs: Buckets<E>, b: nat, e: E)
    requires b < |bs|
    ensures (forall x :: x in Members(Bag(bs)) ==> !Same(key, x, e)) ==> Absent(key, bs[b], e)
  {
    BagContains(bs, b);
    assert forall x :: x in bs[b] ==> x in multiset(bs[b]);
  }

  /** No other element of the table is equal to e once one is. */
  lemma OnlyOne<E(!new)>(key: Keying<E>, bs: Buckets<E>, b: nat, j: nat, e: E)
    requires Lawful(key) && Different(key, Bag(bs))
    requires b < |bs| && j < |bs[b]| && Same(key, bs[b][j], e)
    ensures forall x :: x in Members(Bag(bs)) && x != bs[b][j] ==> !Same(key, x, e)
  {
    BagMember(bs, bs[b][j]);
    forall x | x in Bag(bs) && Same(key, x, e) ensures x == bs[b][j] {
      assert Same(key, e, bs[b][j]);
    }
  }

  lemma Held<E(!new)>(bs: Buckets<E>, b: nat, j: nat)
    requires b < |bs| && j < |bs[b]|
    ensures bs[b][j] in Members(Bag(bs))
  {
    BagMember(bs, bs[b][j]);
  }

  lemma PushFront<E>(xs: seq<E>, e: E)
    ensures multiset([e] + xs) == multiset(xs) + multiset{e}
  {
  }

  function Without<E>(xs: seq<E>, j: nat): seq<E>
    requires j < |xs|
  {
    xs[..j] + xs[j + 1..]
  }

  lemma TakeOut<E>(xs: seq<E>, j: nat)
    requires j < |xs|
    ensures multiset(Without(xs, j)) == multiset(xs) - multiset{xs[j]}
    ensures forall x :: x in Without(xs, j) ==> x in xs
  {
    assert xs == xs[..j] + [xs[j]] + xs[j + 1..];
  }

  lemma PlacedUpdate<E>(key: Keying<E>, bs: Buckets<E>, i: nat, q: seq<E>)
    requires Placed(key, bs) && i < |bs|
    requires forall x :: x in q ==> x in bs[i] || Home(key, |bs|, x) == i
    ensures Placed(key, bs[i := q])
  {
    var next := bs[i := q];
    forall k, x | 0 <= k < |next| && x in next[k] ensures Home(key, |next|, x) == k {
      if k == i && x in bs[i] { assert x in bs[k]; }
    }
  }

  /** Pushing e onto its bucket adds e to the contents. */
  lemma PushIsAdd<E>(key: Keying<E>, bs: Buckets<E>, e: E)
    requires Placed(key, bs)
    ensures
      var i := Home(key, |bs|, e);
      var next := bs[i := [e] + bs[i]];
      Placed(key, next) && Bag(next) == Bag(bs) + multiset{e}
  {
    var i := Home(key, |bs|, e);
    PushFront(bs[i], e);
    BagContains(bs, i);
    BagUpdate(bs, i, [e] + bs[i]);
    PlacedUpdate(key, bs, i, [e] + bs[i]);
  }

  lemma PopIsRemove<E>(key: Keying<E>, bs: Buckets<E>, i: nat, j: nat)
    requires Placed(key, bs) && i < |bs| && j < |bs[i]|
    ensures
      var next := bs[i := Without(bs[i], j)];
      && Placed(key, next) && bs[i][j] in Bag(bs)
      && Bag(next) == Bag(bs) - multiset{bs[i][j]}
  {
    var q := Without(bs[i], j);
    TakeOut(bs[i], j);
    BagContains(bs, i);
    BagUpdate(bs, i, q);
    PlacedUpdate(key, bs, i, q);
    assert bs[i][j] in multiset(bs[i]);
  }

  /** An insertion of an element with no equal keeps the table. */
  lemma AddKeepsTable<E(!new)>(key: Keying<E>, bs: Buckets<E>, n: nat, e: E)
    requires Lawful(key) && Table(key, bs, n)
    requires Absent(key, bs[Home(key, |bs|, e)], e)
    ensures
      var i := Home(key, |bs|, e);
      Table(key, bs[i := [e] + bs[i]], n + 1)
  {
    PushIsAdd(key, bs, e);
    AbsentEverywhere(key, bs, e);
    assert Same(key, e, e);
  }

  lemma RemoveKeepsTable<E(!new)>(key: Keying<E>, bs: Buckets<E>, n: nat, i: nat, j: nat)
    requires Table(key, bs, n) && i < |bs| && j < |bs[i]|
    ensures n > 0
    ensures Table(key, bs[i := Without(bs[i], j)], n - 1)
  {
    PopIsRemove(key, bs, i, j);
  }

  // ---------------------------------------------------------------- iteration

  /** Every bucket's elements, in bucket order. */
  ghost function Flatten<E>(bs: Buckets<E>): seq<E> {
    if bs == [] then [] else bs[0] + Flatten(bs[1..])
  }

  lemma {:induction false} FlattenIsBag<E>(bs: Buckets<E>)
    ensures multiset(Flatten(bs)) == Bag(bs)
  {
    if bs != [] { FlattenIsBag(bs[1..]); }
  }

  /** What an iterator standing at element pos of bucket i has yet to visit. */
  ghost function Ahead<E>(bs: Buckets<E>, i: nat, pos: int): seq<E>
    requires i < |bs| ==> -1 <= pos < |bs[i]|
  {
    if i >= |bs| then [] else bs[i][pos + 1..] + Flatten(bs[i + 1..])
  }

  lemma AheadOfEmpty<E>(bs: Buckets<E>, i: nat, pos: int)
    requires i < |bs| && pos == |bs[i]| - 1
    ensures i + 1 == |bs| ==> Ahead(bs, i, pos) == []
    ensures i + 1 < |bs| ==> Ahead(bs, i, pos) == Ahead(bs, i + 1, -1)
  {
    if i + 1 < |bs| {
      assert bs[i + 1..][0] == bs[i + 1] && bs[i + 1..][1..] == bs[i + 2..];
    }
  }

  /** The number of buckets for so many elements. */
  function Ideal(elems: nat): nat { FloorPow2(if elems / 2 < 4 then 4 else elems / 2) }

  /** It is a power of two, at least four, and gives less than five elements a bucket; with
      eight or more elements it gives at least two. */
  lemma IdealLoad(elems: nat) returns (k: nat)
    ensures Ideal(elems) == Pow2(k) && k >= 2
    ensures elems < 4 * Ideal(elems) + 2 && (elems >= 8 ==> 2 * Ideal(elems) <= elems)
  {
    k := FloorPow2IsPow2(if elems / 2 < 4 then 4 else elems / 2);
    FloorAtLeastFour(if elems / 2 < 4 then 4 else elems / 2);
  }

  lemma FloorAtLeastFour(x: nat)
    requires x >= 4
    ensures FloorPow2(x) >= 4 && FloorPow2(FloorPow2(x)) == FloorPow2(x)
  {
    var k := FloorPow2IsPow2(x);
    FloorPow2OfPow2(k);
    assert FloorPow2(x) == 4 * FloorPow2(x / 2 / 2);
  }

  /** The hash masked to the bucket count. */
  method BucketIndex<E>(key: Keying<E>, n: nat, e: E) returns (b: nat)
    requires n > 0 && FloorPow2(n) == n
    ensures b == Home(key, n, e)
  {
    MaskIsRemainder(key.hash(e), n);
    b := And(key.hash(e), n - 1);
  }

  /** Moves the front element of an old bucket to the front of its new one. */
  method MoveFirst<E(!new)>(key: Keying<E>, spent: array<seq<E>>, i: nat, next: array<seq<E>>)
    requires i < spent.Length && spent != next && spent[i] != []
    requires next.Length > 0 && FloorPow2(next.Length) == next.Length && Placed(key, next[..])
    modifies spent, next
    ensures spent[..] == old(spent[..])[i := old(spent[i])[1..]]
    ensures Placed(key, next[..])
    ensures Bag(spent[..]) + Bag(next[..]) == old(Bag(spent[..]) + Bag(next[..]))
  {
    ghost var s0, n0 := spent[..], next[..];
    var x := spent[i][0];
    var b := BucketIndex(key, next.Length, x);
    spent[i] := spent[i][1..];
    next[b] := [x] + next[b];
    assert spent[..] == s0[i := s0[i][1..]];
    assert next[..] == n0[b := [x] + n0[b]];
    PushIsAdd(key, n0, x);
    DropIsRemove(s0, i);
  }

  /** Moves the elements of one old bucket, front first, to the new buckets. */
  method Empty<E(!new)>(key: Keying<E>, spent: array<seq<E>>, i: nat, next: array<seq<E>>)
    requires i < spent.Length && spent != next
    requires next.Length > 0 && FloorPow2(next.Length) == next.Length && Placed(key, next[..])
    modifies spent, next
    ensures spent[i] == [] && forall k :: 0 <= k < spent.Length && k != i ==> spent[k] == old(spent[k])
    ensures Placed(key, next[..])
    ensures Bag(spent[..]) + Bag(next[..]) == old(Bag(spent[..]) + Bag(next[..]))
  {
    while spent[i] != []
      invariant forall k :: 0 <= k < spent.Length && k != i ==> spent[k] == old(spent[k])
      invariant Placed(key, next[..])
      invariant Bag(spent[..]) + Bag(next[..]) == old(Bag(spent[..]) + Bag(next[..]))
      decreases |spent[i]|
    {
      MoveFirst(key, spent, i, next);
    }
  }

  /** Empties the old buckets into the new ones. */
  method MoveAll<E(!new)>(key: Keying<E>, spent: array<seq<E>>, next: array<seq<E>>)
    requires spent != next
    requires next.Length > 0 && FloorPow2(next.Length) == next.Length && Placed(key, next[..])
    requires Bag(next[..]) == multiset{}
    modifies spent, next
    ensures Placed(key, next[..]) && Bag(next[..]) == old(Bag(spent[..]))
  {
    var i := 0;
    while i < spent.Length
      invariant i <= spent.Length
      invariant forall k :: 0 <= k < i ==> spent[k] == []
      invariant Placed(key, next[..])
      invariant Bag(spent[..]) + Bag(next[..]) == old(Bag(spent[..]))
    {
      Empty(key, spent, i, next);
      i := i + 1;
    }
    BagOfEmpties(spent[..]);
  }

  lemma DropIsRemove<E>(bs: Buckets<E>, i: nat)
    requires i < |bs| && bs[i] != []
    ensures Bag(bs[i := bs[i][1..]]) + multiset{bs[i][0]} == Bag(bs)
  {
    var x, rest := bs[i][0], bs[i][1..];
    assert bs[i] == [x] + rest;
    PushFront(rest, x);
    BagUpdate(bs, i, rest);
    BagContains(bs, i);
  }

  class HashTable<E(!new, ==)> {
    const key: Keying<E>
    var elemCnt: nat
    var buckets: array<seq<E>>

    ghost predicate Valid()
      reads this, buckets
    {
      Table(key, buckets[..], elemCnt)
    }

    /** The elements in the table. */
    ghost function Contents(): set<E>
      reads this, buckets
    {
      Members(Bag(buckets[..]))
    }

    constructor (key: Keying<E>)
      ensures Valid() && fresh(buckets) && this.key == key && Contents() == {} && elemCnt == 0
    {
      this.key := key;
      elemCnt := 0;
      buckets := new seq<E>[4](_ => []);
      new;
      BagOfEmpties(buckets[..]);
      FloorPow2OfPow2(2);
    }

    /** The count is the number of elements. */
    method Size() returns (n: nat)
      requires Valid()
      ensures n == |Contents()|
    {
      BagIsSet(key, Bag(buckets[..]));
      n := elemCnt;
    }

    method FindBucket(e: E) returns (b: nat)
      requires Valid()
      ensures b < buckets.Length && b == Home(key, buckets.Length, e)
    {
      b := BucketIndex(key, buckets.Length, e);
    }

    /** The first element of the bucket that is equal to e. */
    method FindElem(b: nat, e: E) returns (found: Option<nat>)
      requires b < buckets.Length
      ensures found.Some? ==> found.value < |buckets[b]| && Same(key, buckets[b][found.value], e)
      ensures found.None? ==> Absent(key, buckets[b], e)
    {
      var j := 0;
      while j < |buckets[b]|
        invariant j <= |buckets[b]|
        invariant Absent(key, buckets[b][..j], e)
      {
        var x := buckets[b][j];
        if !key.less(x, e) && !key.less(e, x) {
          return Some(j);
        }
        j := j + 1;
      }
      found := None;
    }

    /** An element equal to e, just when the table has one. */
    method Find(e: E) returns (found: Option<E>)
      requires Valid() && Lawful(key)
      ensures found.Some? ==> found.value in Contents() && Same(key, found.value, e)
      ensures found.None? <==> forall x :: x in Contents() ==> !Same(key, x, e)
    {
      var b := FindBucket(e);
      var j := FindElem(b, e);
      if j.Some? {
        found := Some(buckets[b][j.value]);
        Held(buckets[..], b, j.value);
      } else {
        found := None;
        AbsentEverywhere(key, buckets[..], e);
      }
    }

    method InsertElem(b: nat, e: E)
      requires Valid() && Lawful(key)
      requires b < buckets.Length && b == Home(key, buckets.Length, e) && Absent(key, buckets[b], e)
      modifies this`elemCnt, buckets
      ensures Valid() && Contents() == old(Contents()) + {e}
    {
      ghost var bs := buckets[..];
      AddKeepsTable(key, bs, elemCnt, e);
      PushIsAdd(key, bs, e);
      elemCnt := elemCnt + 1;
      buckets[b] := [e] + buckets[b];
      assert buckets[..] == bs[b := [e] + bs[b]];
    }

    method RemoveElem(b: nat, j: nat)
      requires Valid() && b < buckets.Length && j < |buckets[b]|
      modifies this`elemCnt, buckets
      ensures Valid() && old(buckets[b][j]) in old(Contents())
      ensures Contents() == old(Contents()) - {old(buckets[b][j])}
      ensures buckets[b] == Without(old(buckets[b]), j)
    {
      ghost var bs := buckets[..];
      RemoveKeepsTable(key, bs, elemCnt, b, j);
      PopIsRemove(key, bs, b, j);
      elemCnt := elemCnt - 1;
      buckets[b] := buckets[b][..j] + buckets[b][j + 1..];
      assert buckets[..] == bs[b := Without(bs[b], j)];
    }

    /** The bucket count for the present number of elements. */
    method IdealCount() returns (n: nat)
      ensures n == Ideal(elemCnt)
      ensures n >= 4 && FloorPow2(n) == n
    {
      var start := if elemCnt / 2 < 4 then 4 else elemCnt / 2;
      n := start;
      TurnOffKeepsTop(n);
      while !(n != 0 && TurnOffLeast(n) == 0)
        invariant n > 0 && FloorPow2(n) == FloorPow2(start)
        invariant TurnOffLeast(n) == 0 <==> n == FloorPow2(n)
        invariant TurnOffLeast(n) > 0 ==> TurnOffLeast(n) < n && FloorPow2(TurnOffLeast(n)) == FloorPow2(n)
        decreases n
      {
        n := TurnOffLeast(n);
        TurnOffKeepsTop(n);
      }
      FloorAtLeastFour(start);
    }

    /** Moves to the ideal number of buckets when memory allows; either way
        the contents stay. */
    method Rehash(memory: bool)
      requires Valid()
      modifies this`buckets, buckets
      ensures Valid() && Contents() == old(Contents())
      ensures buckets == old(buckets) || fresh(buckets)
      ensures if memory then buckets.Length == Ideal(elemCnt) else buckets == old(buckets)
    {
      var n := IdealCount();
      if n == buckets.Length || !memory {
        return;
      }
      var next := new seq<E>[n](_ => []);
      BagOfEmpties(next[..]);
      MoveAll(key, buckets, next);
      buckets := next;
    }

    /** Adds e unless the table has an equal element, which is returned. */
    method Insert(e: E, memory: bool) returns (found: Option<E>)
      requires Valid() && Lawful(key)
      modifies this, buckets
      ensures Valid() && (buckets == old(buckets) || fresh(buckets))
      ensures found.Some? ==> found.value in old(Contents()) && Same(key, found.value, e)
      ensures found.None? <==> forall x :: x in old(Contents()) ==> !Same(key, x, e)
      ensures Contents() == if found.None? then old(Contents()) + {e} else old(Contents())
      ensures if memory then buckets.Length == Ideal(elemCnt) else buckets == old(buckets)
    {
      var b := FindBucket(e);
      var j := FindElem(b, e);
      if j.Some? {
        found := Some(buckets[b][j.value]);
        Held(buckets[..], b, j.value);
      } else {
        found := None;
        AbsentEverywhere(key, buckets[..], e);
        InsertElem(b, e);
      }
      Rehash(memory);
    }

    /** Takes any element equal to e out of its bucket. */
    method Evict(b: nat, e: E) returns (found: Option<E>)
      requires Valid() && Lawful(key) && b < buckets.Length && b == Home(key, buckets.Length, e)
      modifies this`elemCnt, buckets
      ensures Valid() && Absent(key, buckets[b], e)
      ensures found.Some? ==> found.value in old(Contents()) && Same(key, found.value, e)
      ensures found.None? <==> forall x :: x in old(Contents()) ==> !Same(key, x, e)
      ensures Contents() == if found.None? then old(Contents()) else old(Contents()) - {found.value}
    {
      var j := FindElem(b, e);
      if j.Some? {
        found := Some(buckets[b][j.value]);
        OnlyOne(key, buckets[..], b, j.value, e);
        RemoveElem(b, j.value);
        AbsentInBucket(key, buckets[..], b, e);
      } else {
        found := None;
        AbsentEverywhere(key, buckets[..], e);
      }
    }

    /** Adds e in place of an equal element, which is returned. */
    method Replace(e: E, memory: bool) returns (found: Option<E>)
      requires Valid() && Lawful(key)
      modifies this, buckets
      ensures Valid() && (buckets == old(buckets) || fresh(buckets))
      ensures found.Some? ==> found.value in old(Contents()) && Same(key, found.value, e)
      ensures found.None? <==> forall x :: x in old(Contents()) ==> !Same(key, x, e)
      ensures Contents() == (if found.None? then old(Contents()) else old(Contents()) - {found.value}) + {e}
      ensures if memory then buckets.Length == Ideal(elemCnt) else buckets == old(buckets)
    {
      var b := FindBucket(e);
      found := Evict(b, e);
      InsertElem(b, e);
      Rehash(memory);
    }

    /** Removes and returns an element equal to e, if there is one. */
    method Delete(e: E, memory: bool) returns (found: Option<E>)
      requires Valid() && Lawful(key)
      modifies this, buckets
      ensures Valid() && (buckets == old(buckets) || fresh(buckets))
      ensures found.Some? ==> found.value in old(Contents()) && Same(key, found.value, e)
      ensures found.None? <==> forall x :: x in old(Contents()) ==> !Same(key, x, e)
      ensures Contents() == if found.None? then old(Contents()) else old(Contents()) - {found.value}
      ensures if memory && found.Some? then buckets.Length == Ideal(elemCnt) else buckets == old(buckets)
    {
      var b := FindBucket(e);
      var j := FindElem(b, e);
      if j.Some? {
        found := Some(buckets[b][j.value]);
        RemoveElem(b, j.value);
        Rehash(memory);
      } else {
        found := None;
        AbsentEverywhere(key, buckets[..], e);
      }
    }
  }

  /** A walk over the elements of a table. */
  class Walk<E(!new, ==)> {
    const table: HashTable<E>
    var bucket: nat
    var pos: int

    ghost predicate Valid()
      reads this, table, table.buckets
    {
      && table.buckets.Length > 0
      && (bucket < table.buckets.Length ==> -1 <= pos < |table.buckets[bucket]|)
    }

    /** What is still to be visited. */
    ghost function Rest(): seq<E>
      requires Valid()
      reads this, table, table.buckets
    {
      Ahead(table.buckets[..], bucket, pos)
    }

    constructor (table: HashTable<E>)
      requires table.buckets.Length > 0
      ensures Valid() && this.table == table && bucket == 0 && Rest() == Flatten(table.buckets[..])
    {
      this.table := table;
      bucket := 0;
      pos := -1;
    }

    /** The next element, or None when every element has been visited. */
    method Next() returns (e: Option<E>)
      requires Valid() && bucket < table.buckets.Length
      modifies this
      ensures Valid()
      ensures old(Rest()) == [] ==> e.None? && Rest() == [] && bucket == table.buckets.Length
      ensures old(Rest()) != [] ==>
        && e == Some(old(Rest())[0]) && Rest() == old(Rest())[1..]
        && bucket < table.buckets.Length
    {
      ghost var bs := table.buckets[..];
      ghost var rest := Rest();
      pos := pos + 1;
      while pos == |table.buckets[bucket]|
        invariant bucket < table.buckets.Length && 0 <= pos <= |table.buckets[bucket]|
        invariant rest == Ahead(bs, bucket, pos - 1)
        decreases table.buckets.Length - bucket
      {
        AheadOfEmpty(bs, bucket, pos - 1);
        bucket := bucket + 1;
        if bucket >= table.buckets.Length {
          return None;
        }
        pos := 0;
      }
      e := Some(table.buckets[bucket][pos]);
      assert bs[bucket][pos..] == [bs[bucket][pos]] + bs[bucket][pos + 1..];
    }
  }

  lemma ShiftFirst<E>(xs: seq<E>, rest: seq<E>)
    requires rest != []
    ensures xs + [rest[0]] + rest[1..] == xs + rest
  {
  }

  /** The elements in the order of a walk. */
  method Collect<E(!new, ==)>(table: HashTable<E>) returns (visited: seq<E>)
    requires table.buckets.Length > 0
    ensures visited == Flatten(table.buckets[..])
  {
    visited := [];
    var walk := new Walk(table);
    ghost var all := walk.Rest();
    var going := true;
    while going
      invariant walk.Valid() && walk.table == table && fresh(walk)
      invariant going ==> walk.bucket < table.buckets.Length
      invariant !going ==> walk.Rest() == []
      invariant visited + walk.Rest() == all
      decreases going, |walk.Rest()|
    {
      ghost var rest := walk.Rest();
      var e := walk.Next();
      if e.Some? {
        ShiftFirst(visited, rest);
        visited := visited + [e.value];
      } else {
        going := false;
      }
    }
  }

  /** Walking a table to the end visits each of its elements exactly once. */
  method VisitAll<E(!new, ==)>(table: HashTable<E>) returns (visited: seq<E>)
    requires table.Valid()
    ensures multiset(visited) == multiset(table.Contents()) && |visited| == table.elemCnt
  {
    visited := Collect(table);
    FlattenIsBag(table.buckets[..]);
    BagIsSet(table.key, Bag(table.buckets[..]));
  }
}
