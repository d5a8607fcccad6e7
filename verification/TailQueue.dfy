/**
 The TAILQ macros of queue.h.

 `tqe_prev` and `tqh_last` hold the address of a pointer field: the head's first field or some
 entry's next field.  A head and an entry both start with a pointer followed by such an address,
 so reading an address as if it were a head gives the address stored right behind the field.
 */
module TailQueue {
  import opened Seqs
  import opened QueueSlots

  class Entry {
    var datum: int
    var next: Entry?
    var prev: Slot<Entry>

    constructor (datum: int)
      ensures this.datum == datum
    {
      this.datum := datum;
      next := null;
      prev := HeadFirst;
    }
  }

  class Queue {
    var first: Entry?
    var last: Slot<Entry>
    /** The entries in the queue, front to back. */
    ghost var elems: seq<Entry>

    /** The entry at position i, or null past the end. */
    ghost function At(i: int): Entry?
      requires 0 <= i
      reads this`elems
    {
      if i < |elems| then elems[i] else null
    }

    /** The address of the field that points to position i. */
    ghost function SlotOf(i: int): Slot<Entry>
      requires 0 <= i <= |elems|
      reads this`elems
    {
      if i == 0 then HeadFirst else NextOf(elems[i - 1])
    }

    /** The pointer stored at position i, where position -1 is the head. */
    ghost function NextAt(i: int): Entry?
      requires -1 <= i < |elems|
      reads this`first, this`elems, elems`next
    {
      if i == -1 then first else elems[i].next
    }

    /** The address stored at position i, where position |elems| is the head. */
    ghost function BackAt(i: int): Slot<Entry>
      requires 0 <= i <= |elems|
      reads this`last, this`elems, elems`prev
    {
      if i == |elems| then last else elems[i].prev
    }

    /** Each pointer leads to the next entry, each address is that of the pointer to its owner. */
    ghost predicate Valid()
      reads this, elems
    {
      && Distinct(elems)
      && (forall i :: -1 <= i < |elems| ==> NextAt(i) == At(i + 1))
      && (forall i :: 0 <= i <= |elems| ==> BackAt(i) == SlotOf(i))
    }

    /** TAILQ_INIT. */
    constructor ()
      ensures Valid() && elems == []
    {
      first, last, elems := null, HeadFirst, [];
    }

    /** `*slot = v` for an address of this queue. */
    method Write(slot: Slot<Entry>, v: Entry?, ghost i: int)
      requires Distinct(elems) && -1 <= i < |elems| && slot == SlotOf(i + 1)
      modifies this`first, elems`next
      ensures NextAt(i) == v && forall j :: -1 <= j < |elems| && j != i ==> NextAt(j) == old(NextAt(j))
      ensures forall j :: 0 <= j <= |elems| ==> BackAt(j) == old(BackAt(j))
    {
      match slot
      case HeadFirst => first := v;
      case NextOf(n) => n.next := v;
    }

    /** The `if (n != NULL) n->prev = slot; else head->last = slot;` of the macros. */
    method SetBack(n: Entry?, slot: Slot<Entry>, ghost i: int)
      requires Distinct(elems) && 0 <= i <= |elems| && n == At(i)
      modifies this`last, elems`prev
      ensures BackAt(i) == slot && forall j :: 0 <= j <= |elems| && j != i ==> BackAt(j) == old(BackAt(j))
      ensures forall j :: -1 <= j < |elems| ==> NextAt(j) == old(NextAt(j))
    {
      if n != null {
        n.prev := slot;
      } else {
        last := slot;
      }
    }

    /** Once e and both its neighbours are linked, e is the entry at position i. */
    ghost method Grow(e: Entry, i: nat)
      requires Distinct(elems) && e !in elems && i <= |elems|
      requires e.next == At(i) && e.prev == SlotOf(i)
      requires NextAt(i - 1) == e && BackAt(i) == NextOf(e)
      requires forall j :: -1 <= j < |elems| && j != i - 1 ==> NextAt(j) == At(j + 1)
      requires forall j :: 0 <= j <= |elems| && j != i ==> BackAt(j) == SlotOf(j)
      modifies this`elems
      ensures Valid() && elems == InsertAt(old(elems), i, e)
    {
      hide Distinct, InsertAt;
      InsertAtFacts(elems, i, e);
      elems := InsertAt(elems, i, e);
      forall j | -1 <= j < |elems| ensures NextAt(j) == At(j + 1) {
        assert j < i - 1 ==> old(NextAt(j)) == old(At(j + 1));
        assert j > i ==> old(NextAt(j - 1)) == old(At(j));
      }
      forall j | 0 <= j <= |elems| ensures BackAt(j) == SlotOf(j) {
        assert j < i ==> old(BackAt(j)) == old(SlotOf(j));
        assert j > i + 1 ==> old(BackAt(j - 1)) == old(SlotOf(j - 1));
      }
    }

    /** Once both neighbours bypass position i, it is out of the queue. */
    ghost method Shrink(i: nat)
      requires Distinct(elems) && i < |elems|
      requires NextAt(i - 1) == At(i + 1) && BackAt(i + 1) == SlotOf(i)
      requires forall j :: -1 <= j < |elems| && j != i - 1 ==> NextAt(j) == At(j + 1)
      requires forall j :: 0 <= j <= |elems| && j != i + 1 ==> BackAt(j) == SlotOf(j)
      modifies this`elems
      ensures Valid() && elems == RemoveAt(old(elems), i)
    {
      hide Distinct, RemoveAt;
      RemoveAtFacts(elems, i);
      elems := RemoveAt(elems, i);
      forall j | -1 <= j < |elems| ensures NextAt(j) == At(j + 1) {
        assert j < i - 1 ==> old(NextAt(j)) == old(At(j + 1));
        assert j >= i ==> old(NextAt(j + 1)) == old(At(j + 2));
      }
      forall j | 0 <= j <= |elems| ensures BackAt(j) == SlotOf(j) {
        assert j < i ==> old(BackAt(j)) == old(SlotOf(j));
        assert j > i ==> old(BackAt(j + 1)) == old(SlotOf(j + 1));
      }
    }

    /** `*slot`. */
    function Read(slot: Slot<Entry>): Entry?
      reads this, if slot.NextOf? then {slot.entry} else {}
    {
      match slot
      case HeadFirst => first
      case NextOf(n) => n.next
    }

    /** The address stored behind the field at `slot`: a head's tqh_last or an entry's tqe_prev. */
    function Behind(slot: Slot<Entry>): Slot<Entry>
      reads this, if slot.NextOf? then {slot.entry} else {}
    {
      match slot
      case HeadFirst => last
      case NextOf(n) => n.prev
    }

    /** TAILQ_INSERT_HEAD. */
    method InsertHead(e: Entry)
      requires Valid() && e !in elems
      modifies this, elems`prev, elems`next, e`next, e`prev
      ensures Valid() && elems == [e] + old(elems)
    {
      assert first == NextAt(-1);
      e.next := first;
      SetBack(e.next, NextOf(e), 0);
      Write(HeadFirst, e, -1);
      e.prev := HeadFirst;
      Grow(e, 0);
    }

    /** TAILQ_INSERT_TAIL. */
    method InsertTail(e: Entry)
      requires Valid() && e !in elems
      modifies this, elems`prev, elems`next, e`next, e`prev
      ensures Valid() && elems == old(elems) + [e]
    {
      assert last == BackAt(|elems|);
      e.next := null;
      e.prev := last;
      Write(last, e, |elems| - 1);
      last := NextOf(e);
      Grow(e, |elems|);
    }

    /** TAILQ_INSERT_AFTER. */
    method InsertAfter(at: Entry, e: Entry, ghost i: nat)
      requires Valid() && e !in elems
      requires i < |elems| && elems[i] == at
      modifies this, elems`next, elems`prev, e`next, e`prev
      ensures Valid() && elems == InsertAt(old(elems), i + 1, e)
    {
      assert at.next == NextAt(i);
      e.next := at.next;
      SetBack(e.next, NextOf(e), i + 1);
      Write(NextOf(at), e, i);
      e.prev := NextOf(at);
      Grow(e, i + 1);
    }

    /** TAILQ_INSERT_BEFORE. */
    method InsertBefore(at: Entry, e: Entry, ghost i: nat)
      requires Valid() && e !in elems
      requires i < |elems| && elems[i] == at
      modifies this, elems`next, elems`prev, e`next, e`prev
      ensures Valid() && elems == InsertAt(old(elems), i, e)
    {
      assert at.prev == BackAt(i);
      e.prev := at.prev;
      e.next := at;
      Write(at.prev, e, i - 1);
      SetBack(at, NextOf(e), i);
      Grow(e, i);
    }

    /** TAILQ_REMOVE.  The removed entry keeps its own two fields. */
    method Remove(e: Entry, ghost i: nat)
      requires Valid()
      requires i < |elems| && elems[i] == e
      modifies this, elems`next, elems`prev
      ensures Valid() && elems == RemoveAt(old(elems), i)
      ensures e.next == old(e.next) && e.prev == old(e.prev)
    {
      assert e.next == NextAt(i) && e.prev == BackAt(i);
      SetBack(e.next, e.prev, i + 1);
      assert e.next == NextAt(i) && e.prev == BackAt(i);
      Write(e.prev, e.next, i - 1);
      assert e.next == NextAt(i) && e.prev == BackAt(i);
      Shrink(i);
    }

    /** TAILQ_LAST, through the cast of `tqh_last` to a head. */
    method Last() returns (e: Entry?)
      requires Valid()
      ensures e == if elems == [] then null else elems[|elems| - 1]
    {
      assert last == BackAt(|elems|);
      assert elems != [] ==> Behind(last) == BackAt(|elems| - 1);
      assert Read(SlotOf(|elems|)) == NextAt(|elems| - 1);
      assert elems != [] ==> Read(SlotOf(|elems| - 1)) == NextAt(|elems| - 2);
      e := Read(Behind(last));
    }

    /** TAILQ_PREV, through the cast of `tqe_prev` to a head. */
    method Prev(at: Entry, ghost i: nat) returns (e: Entry?)
      requires Valid()
      requires i < |elems| && elems[i] == at
      ensures e == if i == 0 then null else elems[i - 1]
    {
      assert at.prev == BackAt(i);
      assert i > 0 ==> Behind(at.prev) == BackAt(i - 1);
      assert i > 0 ==> Read(SlotOf(i - 1)) == NextAt(i - 2);
      assert i == 0 ==> Behind(at.prev) == BackAt(|elems|) && Read(SlotOf(|elems|)) == NextAt(|elems| - 1);
      e := Read(Behind(at.prev));
    }

    /** TAILQ_FOREACH. */
    method Forward() returns (seen: seq<Entry>)
      requires Valid()
      ensures seen == elems
    {
      seen := [];
      var e := first;
      assert first == NextAt(-1);
      while e != null
        invariant |seen| <= |elems| && seen == elems[..|seen|]
        invariant e == At(|seen|)
        decreases |elems| - |seen|
      {
        assert e.next == NextAt(|seen|);
        seen := seen + [e];
        e := e.next;
      }
    }

    /** TAILQ_FOREACH_REVERSE: exactly the reverse of the forward traversal. */
    method Backward() returns (seen: seq<Entry>)
      requires Valid()
      ensures seen == Mirrored(elems)
    {
      seen := [];
      var e := Last();
      ghost var left := |elems|;
      while e != null
        invariant 0 <= left <= |elems| && seen == Mirrored(elems[left..])
        invariant e == if left == 0 then null else elems[left - 1]
        decreases left
      {
        seen := seen + [e];
        left := left - 1;
        MirroredSuffix(elems, left);
        e := Prev(e, left);
      }
      assert elems[0..] == elems;
    }

    /**
     TAILQ_FOREACH_SAFE with TAILQ_REMOVE and kfree in its body.  The queue ends empty and well
     formed, every entry is freed once, and no freed entry is read.
     */
    method Drain() returns (data: seq<int>, ghost freed: seq<Entry>)
      requires Valid()
      modifies this, elems`next, elems`prev
      ensures Valid() && elems == []
      ensures freed == old(elems)
      ensures |data| == |old(elems)| && forall k :: 0 <= k < |data| ==> data[k] == old(elems)[k].datum
    {
      hide RemoveAt;
      data, freed := [], [];
      ghost var all := elems;
      var e := first;
      assert first == NextAt(-1) && (e != null ==> e.next == NextAt(0));
      var next := if e != null then e.next else null;
      while e != null
        invariant Valid()
        invariant |data| + |elems| == |all| && elems == all[|data|..] && freed == all[..|data|]
        invariant forall k :: 0 <= k < |data| ==> data[k] == all[k].datum
        invariant e == At(0)
        invariant next == if |elems| > 1 then elems[1] else null
        decreases |elems|
      {
        assert e == elems[0] && elems[0] == all[|data|];
        assert e !in freed;
        data := data + [e.datum];
        RemoveFirst(elems);
        Remove(e, 0);
        freed := freed + [e];
        e := next;
        assert first == NextAt(-1);
        assert e != null ==> e == elems[0] && e !in freed && e.next == NextAt(0);
        next := if e != null then e.next else null;
      }
    }
  }
}
