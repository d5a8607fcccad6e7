/** The STAILQ macros of queue.h: singly linked, with the address of the last next field. */
module SingleTailQueue {
  import opened Seqs
  import opened QueueSlots

  class Entry {
    var next: Entry?
  }

  class Queue {
    var first: Entry?
    var last: Slot<Entry>
    ghost var elems: seq<Entry>

    ghost function After(i: int): Entry?
      requires -1 <= i < |elems|
      reads this
    {
      if i + 1 < |elems| then elems[i + 1] else null
    }

    ghost predicate Valid()
      reads this, elems
    {
      && Distinct(elems)
      && first == After(-1)
      && last == (if elems == [] then HeadFirst else NextOf(elems[|elems| - 1]))
      && (forall i {:trigger elems[i].next} :: 0 <= i < |elems| ==> elems[i].next == After(i))
    }

    /** STAILQ_INIT. */
    constructor ()
      ensures Valid() && elems == []
    {
      first, last, elems := null, HeadFirst, [];
    }

    /** STAILQ_INSERT_HEAD. */
    method InsertHead(e: Entry)
      requires Valid() && e !in elems
      modifies this, e
      ensures Valid() && elems == [e] + old(elems)
    {
      e.next := first;
      if e.next == null {
        last := NextOf(e);
      }
      first := e;
      elems := [e] + elems;
    }

    /** STAILQ_INSERT_TAIL. */
    method InsertTail(e: Entry)
      requires Valid() && e !in elems
      modifies this, elems, e
      ensures Valid() && elems == old(elems) + [e]
    {
      e.next := null;
      match last {
        case HeadFirst => first := e;
        case NextOf(n) => n.next := e;
      }
      last := NextOf(e);
      elems := elems + [e];
    }

    /** STAILQ_INSERT_AFTER. */
    method InsertAfter(at: Entry, e: Entry, ghost i: nat)
      requires Valid() && e !in elems
      requires i < |elems| && elems[i] == at
      modifies this, at, e
      ensures Valid() && elems == InsertAt(old(elems), i + 1, e)
    {
      hide Distinct, InsertAt;
      DistinctFrom(elems, i);
      InsertAtFacts(elems, i + 1, e);
      e.next := at.next;
      if e.next == null {
        last := NextOf(e);
      }
      at.next := e;
      elems := InsertAt(elems, i + 1, e);
    }

    /** STAILQ_REMOVE_HEAD. */
    method RemoveHead()
      requires Valid() && elems != []
      modifies this
      ensures Valid() && elems == old(elems)[1..]
    {
      first := first.next;
      if first == null {
        last := HeadFirst;
      }
      elems := elems[1..];
    }

    /** STAILQ_REMOVE_HEAD_UNTIL: everything up to and including e goes. */
    method RemoveHeadUntil(e: Entry, ghost i: nat)
      requires Valid()
      requires i < |elems| && elems[i] == e
      modifies this
      ensures Valid() && elems == old(elems)[i + 1..]
    {
      first := e.next;
      if first == null {
        last := HeadFirst;
      }
      elems := elems[i + 1..];
    }

    /** STAILQ_REMOVE: the search for the predecessor ends for every member. */
    method Remove(e: Entry, ghost i: nat)
      requires Valid()
      requires i < |elems| && elems[i] == e
      modifies this, elems
      ensures Valid() && elems == RemoveAt(old(elems), i)
      ensures e.next == old(e.next)
    {
      if first == e {
        RemoveHead();
      } else {
        var cur := first;
        ghost var k := 0;
        while cur.next != e
          invariant 0 <= k < i && cur == elems[k]
          decreases i - k
        {
          cur := cur.next;
          k := k + 1;
        }
        DistinctFrom(elems, i);
        DistinctFrom(elems, k);
        RemoveAtFacts(elems, i);
        cur.next := cur.next.next;
        if cur.next == null {
          last := NextOf(cur);
        }
        elems := RemoveAt(elems, i);
      }
    }

    /** STAILQ_LAST: the entry around the last next field. */
    method Last() returns (e: Entry?)
      requires Valid()
      ensures e == if elems == [] then null else elems[|elems| - 1]
    {
      if first == null {
        e := null;
      } else {
        e := last.entry;
      }
    }
  }
}
