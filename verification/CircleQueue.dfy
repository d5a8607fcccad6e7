/** The CIRCLEQ macros of queue.h: the head itself, cast to an entry, is the sentinel. */
module CircleQueue {
  import opened Seqs

  /** A `struct type *` that may be the head in disguise. */
  datatype Link = Head | At(entry: Entry)

  class Entry {
    var next: Link
    var prev: Link
  }

  class Queue {
    var first: Link
    var last: Link
    ghost var elems: seq<Entry>

    /** What the ring holds at position i; -1 and |elems| are both the head. */
    ghost function Ring(i: int): Link
      reads this`elems
    {
      if 0 <= i < |elems| then At(elems[i]) else Head
    }

    /** The next field at position i, where position -1 is the head. */
    ghost function NextAt(i: int): Link
      requires -1 <= i < |elems|
      reads this`first, this`elems, elems`next
    {
      if i == -1 then first else elems[i].next
    }

    /** The previous field at position i, where position |elems| is the head. */
    ghost function PrevAt(i: int): Link
      requires 0 <= i <= |elems|
      reads this`last, this`elems, elems`prev
    {
      if i == |elems| then last else elems[i].prev
    }

    ghost predicate Valid()
      reads this, elems
    {
      && Distinct(elems)
      && (forall i :: -1 <= i < |elems| ==> NextAt(i) == Ring(i + 1))
      && (forall i :: 0 <= i <= |elems| ==> PrevAt(i) == Ring(i - 1))
    }

    /** `CIRCLEQ_NEXT(l) = v`, or the head's first field if l is the head. */
    method SetNext(l: Link, v: Link, ghost i: int)
      requires Distinct(elems) && -1 <= i < |elems| && l == Ring(i)
      modifies this`first, elems`next
      ensures NextAt(i) == v && forall j :: -1 <= j < |elems| && j != i ==> NextAt(j) == old(NextAt(j))
      ensures forall j :: 0 <= j <= |elems| ==> PrevAt(j) == old(PrevAt(j))
    {
      if l == Head {
        first := v;
      } else {
        l.entry.next := v;
      }
    }

    /** `CIRCLEQ_PREV(l) = v`, or the head's last field if l is the head. */
    method SetPrev(l: Link, v: Link, ghost i: int)
      requires Distinct(elems) && 0 <= i <= |elems| && l == Ring(i)
      modifies this`last, elems`prev
      ensures PrevAt(i) == v && forall j :: 0 <= j <= |elems| && j != i ==> PrevAt(j) == old(PrevAt(j))
      ensures forall j :: -1 <= j < |elems| ==> NextAt(j) == old(NextAt(j))
    {
      if l == Head {
        last := v;
      } else {
        l.entry.prev := v;
      }
    }

    /** CIRCLEQ_INIT. */
    constructor ()
      ensures Valid() && elems == []
    {
      first, last, elems := Head, Head, [];
    }

    /** CIRCLEQ_INSERT_AFTER. */
    method InsertAfter(at: Entry, e: Entry, ghost i: nat)
      requires Valid() && e !in elems
      requires i < |elems| && elems[i] == at
      modifies this, elems, e
      ensures Valid() && elems == InsertAt(old(elems), i + 1, e)
    {
      assert at.next == NextAt(i);
      e.next := at.next;
      e.prev := At(at);
      SetPrev(at.next, At(e), i + 1);
      SetNext(At(at), At(e), i);
      Grow(e, i + 1);
    }

    /** CIRCLEQ_INSERT_BEFORE. */
    method InsertBefore(at: Entry, e: Entry, ghost i: nat)
      requires Valid() && e !in elems
      requires i < |elems| && elems[i] == at
      modifies this, elems, e
      ensures Valid() && elems == InsertAt(old(elems), i, e)
    {
      assert at.prev == PrevAt(i);
      e.next := At(at);
      e.prev := at.prev;
      SetNext(at.prev, At(e), i - 1);
      SetPrev(At(at), At(e), i);
      Grow(e, i);
    }

    /** Once e and both its neighbours are linked, e is the element at position i. */
    ghost method Grow(e: Entry, i: nat)
      requires Distinct(elems) && e !in elems && i <= |elems|
      requires e.next == Ring(i) && e.prev == Ring(i - 1)
      requires NextAt(i - 1) == At(e) && PrevAt(i) == At(e)
      requires forall j :: -1 <= j < |elems| && j != i - 1 ==> NextAt(j) == Ring(j + 1)
      requires forall j :: 0 <= j <= |elems| && j != i ==> PrevAt(j) == Ring(j - 1)
      modifies this`elems
      ensures Valid() && elems == InsertAt(old(elems), i, e)
    {
      hide Distinct, InsertAt;
      ghost var n := |elems|;
      InsertAtFacts(elems, i, e);
      elems := InsertAt(elems, i, e);
      forall j | -1 <= j < |elems| ensures NextAt(j) == Ring(j + 1) {
        assert j < i - 1 ==> old(NextAt(j)) == old(Ring(j + 1));
        assert j > i ==> old(NextAt(j - 1)) == old(Ring(j));
      }
      forall j | 0 <= j <= |elems| ensures PrevAt(j) == Ring(j - 1) {
        assert j < i ==> old(PrevAt(j)) == old(Ring(j - 1));
        assert j > i + 1 ==> old(PrevAt(j - 1)) == old(Ring(j - 2));
      }
    }

    /** CIRCLEQ_INSERT_HEAD. */
    method InsertHead(e: Entry)
      requires Valid() && e !in elems
      modifies this, elems, e
      ensures Valid() && elems == [e] + old(elems)
    {
      assert first == NextAt(-1) && last == PrevAt(|elems|);
      e.next := first;
      e.prev := Head;
      if last == Head {
        last := At(e);
      } else {
        SetPrev(first, At(e), 0);
      }
      SetNext(Head, At(e), -1);
      Grow(e, 0);
    }

    /** CIRCLEQ_INSERT_TAIL. */
    method InsertTail(e: Entry)
      requires Valid() && e !in elems
      modifies this, elems, e
      ensures Valid() && elems == old(elems) + [e]
    {
      assert first == NextAt(-1) && last == PrevAt(|elems|);
      e.next := Head;
      e.prev := last;
      if first == Head {
        first := At(e);
      } else {
        SetNext(last, At(e), |elems| - 1);
      }
      SetPrev(Head, At(e), |elems|);
      Grow(e, |elems|);
    }

    /** CIRCLEQ_REMOVE. */
    method Remove(e: Entry, ghost i: nat)
      requires Valid()
      requires i < |elems| && elems[i] == e
      modifies this, elems
      ensures Valid() && elems == RemoveAt(old(elems), i)
      ensures e.next == old(e.next) && e.prev == old(e.prev)
    {
      assert e.next == NextAt(i) && e.prev == PrevAt(i);
      SetPrev(e.next, e.prev, i + 1);
      assert e.next == NextAt(i) && e.prev == PrevAt(i);
      SetNext(e.prev, e.next, i - 1);
      assert e.next == NextAt(i) && e.prev == PrevAt(i);
      Shrink(i);
    }

    /** Once both neighbours bypass position i, it is out of the ring. */
    ghost method Shrink(i: nat)
      requires Distinct(elems) && i < |elems|
      requires NextAt(i - 1) == Ring(i + 1) && PrevAt(i + 1) == Ring(i - 1)
      requires forall j :: -1 <= j < |elems| && j != i - 1 ==> NextAt(j) == Ring(j + 1)
      requires forall j :: 0 <= j <= |elems| && j != i + 1 ==> PrevAt(j) == Ring(j - 1)
      modifies this`elems
      ensures Valid() && elems == RemoveAt(old(elems), i)
    {
      hide Distinct, RemoveAt;
      RemoveAtFacts(elems, i);
      elems := RemoveAt(elems, i);
      forall j | -1 <= j < |elems| ensures NextAt(j) == Ring(j + 1) {
        assert j < i - 1 ==> old(NextAt(j)) == old(Ring(j + 1));
        assert j >= i ==> old(NextAt(j + 1)) == old(Ring(j + 2));
      }
      forall j | 0 <= j <= |elems| ensures PrevAt(j) == Ring(j - 1) {
        assert j < i ==> old(PrevAt(j)) == old(Ring(j - 1));
        assert j > i ==> old(PrevAt(j + 1)) == old(Ring(j));
      }
    }

    /** CIRCLEQ_FOREACH and CIRCLEQ_FOREACH_REVERSE see one sequence from both ends. */
    method BothWays() returns (forward: seq<Entry>, backward: seq<Entry>)
      requires Valid()
      ensures forward == elems && backward == Mirrored(elems)
    {
      forward, backward := [], [];
      var e := first;
      assert first == NextAt(-1) && last == PrevAt(|elems|);
      while e != Head
        invariant |forward| <= |elems| && forward == elems[..|forward|]
        invariant e == Ring(|forward|)
        decreases |elems| - |forward|
      {
        assert e.entry.next == NextAt(|forward|);
        forward := forward + [e.entry];
        e := e.entry.next;
      }
      e := last;
      ghost var left := |elems|;
      while e != Head
        invariant 0 <= left <= |elems| && backward == Mirrored(elems[left..])
        invariant e == Ring(left - 1)
        decreases left
      {
        backward := backward + [e.entry];
        left := left - 1;
        assert e.entry.prev == PrevAt(left);
        MirroredSuffix(elems, left);
        e := e.entry.prev;
      }
      assert elems[0..] == elems;
    }
  }
}
