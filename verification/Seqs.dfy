/** Facts about sequences shared by the search trees and the queues. */
module Seqs {

  predicate Distinct<T(==)>(s: seq<T>) {
    forall i, j :: 0 <= i < j < |s| ==> s[i] != s[j]
  }

  function InsertAt<T>(s: seq<T>, i: nat, x: T): seq<T>
    requires i <= |s|
  {
    s[..i] + [x] + s[i..]
  }

  function RemoveAt<T>(s: seq<T>, i: nat): seq<T>
    requires i < |s|
  {
    s[..i] + s[i + 1..]
  }

  /** The same elements from back to front. */
  function Mirrored<T>(s: seq<T>): (m: seq<T>)
    ensures |m| == |s|
  {
    seq(|s|, i requires 0 <= i < |s| => s[|s| - 1 - i])
  }

  function Elements<T(==)>(s: seq<T>): set<T> {
    set x | x in s
  }

  lemma InsertAtFacts<T>(s: seq<T>, i: nat, x: T)
    requires i <= |s|
    ensures Elements(InsertAt(s, i, x)) == Elements(s) + {x}
    ensures Distinct(s) && x !in s ==> Distinct(InsertAt(s, i, x))
    ensures |InsertAt(s, i, x)| == |s| + 1
    ensures forall k {:trigger InsertAt(s, i, x)[k]} :: 0 <= k <= |s| ==>
      InsertAt(s, i, x)[k] == if k < i then s[k] else if k == i then x else s[k - 1]
  {
  }

  lemma RemoveAtFacts<T>(s: seq<T>, i: nat)
    requires i < |s|
    requires Distinct(s)
    ensures Elements(RemoveAt(s, i)) == Elements(s) - {s[i]}
    ensures Distinct(RemoveAt(s, i))
    ensures |RemoveAt(s, i)| == |s| - 1
    ensures forall k {:trigger RemoveAt(s, i)[k]} :: 0 <= k < |s| - 1 ==> RemoveAt(s, i)[k] == if k < i then s[k] else s[k + 1]
  {
  }

  lemma RemoveAtLeft<T>(a: seq<T>, b: seq<T>, i: nat)
    requires i < |a|
    ensures RemoveAt(a + b, i) == RemoveAt(a, i) + b
  {
  }

  lemma RemoveAtRight<T>(a: seq<T>, b: seq<T>, i: nat)
    requires i < |b|
    ensures RemoveAt(a + b, |a| + i) == a + RemoveAt(b, i)
  {
  }

  lemma RemoveAtMiddle<T>(a: seq<T>, x: T, b: seq<T>)
    ensures RemoveAt(a + [x] + b, |a|) == a + b
  {
  }

  lemma RemoveFirst<T>(s: seq<T>)
    requires s != []
    ensures RemoveAt(s, 0) == s[1..]
  {
  }

  lemma UpdateFacts<T>(s: seq<T>, i: nat, x: T)
    requires i < |s|
    requires Distinct(s)
    ensures Elements(s[i := x]) == Elements(s) - {s[i]} + {x}
    ensures x !in s ==> Distinct(s[i := x])
  {
    var u := s[i := x];
    assert u[i] == x;
    forall y | y in s && y != s[i] ensures y in u {
      var k :| 0 <= k < |s| && s[k] == y;
      assert u[k] == y;
    }
  }

  lemma DistinctFrom<T>(s: seq<T>, i: nat)
    requires Distinct(s) && i < |s|
    ensures forall k :: 0 <= k < |s| && k != i ==> s[k] != s[i]
  {
  }

  /** A duplicate-free sequence has as many elements as positions. */
  lemma {:induction false} DistinctSize<T>(s: seq<T>)
    requires Distinct(s)
    ensures |Elements(s)| == |s|
  {
    if s != [] {
      DistinctSize(s[1..]);
      assert s == [s[0]] + s[1..];
      assert Elements(s) == {s[0]} + Elements(s[1..]);
    } else {
      assert Elements(s) == {};
    }
  }

  /** Walking a suffix one position further to the front. */
  lemma MirroredSuffix<T>(s: seq<T>, i: nat)
    requires i < |s|
    ensures Mirrored(s[i..]) == Mirrored(s[i + 1..]) + [s[i]]
  {
  }

  lemma DistinctParts<T>(a: seq<T>, x: T, b: seq<T>)
    requires Distinct(a + [x] + b)
    ensures Distinct(a) && Distinct(b) && x !in a && x !in b
    ensures forall y :: y in a ==> y !in b
  {
    var s := a + [x] + b;
    assert s[|a|] == x;
    forall i | 0 <= i < |a| ensures a[i] == s[i] && a[i] != x {}
    forall i | 0 <= i < |b| ensures b[i] == s[|a| + 1 + i] && b[i] != x {}
    forall i, j | 0 <= i < |a| && 0 <= j < |b| ensures a[i] != b[j] {
      assert s[i] != s[|a| + 1 + j];
    }
    forall i, j | 0 <= i < j < |b| ensures b[i] != b[j] {
      assert s[|a| + 1 + i] != s[|a| + 1 + j];
    }
  }

  /** A number above all of a finite set. */
  lemma {:induction false} FreshAddress(live: set<nat>) returns (a: nat)
    ensures forall b :: b in live ==> b < a
  {
    if b :| b in live {
      var a' := FreshAddress(live - {b});
      a := if a' <= b then b + 1 else a';
      assert forall c :: c in live ==> c == b || c in live - {b};
    } else {
      a := 0;
    }
  }
}
