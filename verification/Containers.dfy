/** The option type, and sequences without repetition and what is done with them. */
module Containers {

  datatype Option<+T> = None | Some(value: T)

  ghost predicate Distinct<T>(q: seq<T>) {
    forall i, j :: 0 <= i < j < |q| ==> q[i] != q[j]
  }

  lemma DropFirst<T>(q: seq<T>)
    requires q != [] && Distinct(q)
    ensures Distinct(q[1..])
    ensures forall x :: x in q[1..] <==> x in q && x != q[0]
  {
    assert q == [q[0]] + q[1..];
  }

  lemma ConsDistinct<T>(x: T, q: seq<T>)
    requires Distinct(q) && x !in q
    ensures Distinct([x] + q)
  {
    var r := [x] + q;
    forall i, j | 0 <= i < j < |r| ensures r[i] != r[j] {
      assert r[j] == q[j - 1];
    }
  }

  /** list_remove: q with x taken off. */
  function Unlisted<T(==)>(q: seq<T>, x: T): seq<T> {
    if q == [] then [] else if q[0] == x then q[1..] else [q[0]] + Unlisted(q[1..], x)
  }

  lemma {:induction false} UnlistedIs<T>(q: seq<T>, x: T)
    requires Distinct(q)
    ensures Distinct(Unlisted(q, x)) && forall y :: y in Unlisted(q, x) <==> y in q && y != x
  {
    if q != [] {
      DropFirst(q);
      if q[0] != x {
        UnlistedIs(q[1..], x);
        ConsDistinct(q[0], Unlisted(q[1..], x));
        assert Unlisted(q, x) == [q[0]] + Unlisted(q[1..], x);
      }
    }
  }

  function Reversed<T>(s: seq<T>): (r: seq<T>)
    ensures |r| == |s|
  {
    seq(|s|, i requires 0 <= i < |s| => s[|s| - 1 - i])
  }

  lemma {:induction false} SubsetSize<T>(a: set<T>, b: set<T>)
    requires a <= b
    ensures |a| <= |b|
  {
    if a != {} {
      var x :| x in a;
      SubsetSize(a - {x}, b - {x});
    }
  }
}
