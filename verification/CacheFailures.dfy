/**
 What goes wrong in the scan cache when the comparator does not order the keys, and the exact
 condition under which nothing can.
 */
module CacheFailures {
  import opened Wrappers
  import opened Seqs
  import opened SearchTree
  import opened Records
  import opened CacheModel
  import opened CacheTrees
  import opened CacheRuns

  // ----- building blocks of a failing run

  /** The same records in both trees, which is how they look while every insert is fresh. */
  ghost predicate Twin(c: Cache) {
    Sound(c) && Items(c.scan) == Items(c.lru)
  }

  /** Both records of a fresh insert, at one address. */
  function InsertAtAddr(f: FileInfo, now: Stamp, a: nat, fix: Fix): Event {
    InsertEv(f, now, Some(a), Some(a), fix)
  }

  function NewRecord(f: FileInfo, now: Stamp, a: nat): Record {
    Record(a, Entry(f.key, f.gen, now))
  }

  lemma FreshInsert(c: Cache, f: FileInfo, now: Stamp, a: nat, fix: Fix) returns (d: Cache)
    requires Twin(c) && Find(c.scan, ToKey(f.key)).None? && !Clash(Items(c.scan), now)
    requires a !in Addrs(Items(c.scan))
    ensures Perform(c, InsertAtAddr(f, now, a, fix)) == Some((d, Code(0)))
    ensures d.scan == Rebalance(Link(c.scan, NewRecord(f, now, a), ToKey(f.key)), fix.scanIn)
    ensures Twin(d) && Items(d.scan) == Items(c.scan) + {NewRecord(f, now, a)}
  {
    hide Slab, LruSorted, Items, Link, Find, Clash, ToKey, ToStamp;
    var e := Entry(f.key, f.gen, now);
    InsertFacts(c, e, Some(a), Some(a), fix);
    d := InsertOn(c, e, Some(a), Some(a), fix).0;
  }

  /**
   If the oldest record cannot be found by its key, inserting its file again and evicting one entry
   takes the trees out of step: the LRU record of the old goes with the scan record of the new.
   */
  lemma Relapse(c: Cache, x: Record, later: Stamp, a: nat, fix: Fix, fixes: seq<Fix>) returns (d: Cache, e: Cache)
    requires Twin(c) && x in Items(c.scan) && Find(c.scan, ToKey(x.entry.key)).None?
    requires forall r :: r in Items(c.scan) && r != x ==> Older(x.entry.stamp, r.entry.stamp)
    requires Older(x.entry.stamp, later) && !Clash(Items(c.scan), later)
    requires a !in Addrs(Items(c.scan)) && fix.scanIn == []
    ensures Perform(c, InsertAtAddr(FileInfo(x.entry.key, x.entry.gen), later, a, fix)) == Some((d, Code(0)))
    ensures Perform(d, EvictEv(1, fixes)) == Some((e, Quiet))
    ensures !InStep(e)
  {
    hide Slab, LruSorted, ScanSorted, Items, Link, Find, Clash, ToKey, ToFile, InsertOn, Older, Unlink;
    var f := FileInfo(x.entry.key, x.entry.gen);
    var again := NewRecord(f, later, a);
    d := FreshInsert(c, f, later, a, fix);
    assert again != x by { assert x.addr in Addrs(Items(c.scan)); }
    LinkedIsFound(c.scan, again);
    OldestComesFirst(d.lru, x);
    var l, r;
    e, l, r := EvictRound(d, 1, fixes);
    assert x in Items(e.scan) && x.entry in Entries(Items(e.scan));
    forall p | p in Items(e.lru) ensures p.entry != x.entry {
      NotOlderThanItself(x.entry.stamp);
    }
  }

  lemma NotOlderThanItself(s: Stamp)
    ensures !Older(s, s)
  {
  }

  lemma OldestComesFirst(t: Tree<Record>, x: Record)
    requires LruSorted(t) && x in Items(t)
    requires forall r :: r in Items(t) && r != x ==> Older(x.entry.stamp, r.entry.stamp)
    ensures t.Node? && Inorder(t)[0] == x
  {
    hide Older, LruSorted;
    FirstIsOldest(t);
    FirstInItems(t);
  }

  lemma EmptyIsTwin()
    ensures Twin(EMPTY) && Items(EMPTY.scan) == {}
  {
    assert Addrs({}) == {};
  }

  // ----- the shapes

  function Single(r: Record): Tree<Record> { Node(Leaf, r, Leaf) }

  lemma LinkSingle(r: Record, x: Record, k: Key)
    ensures Link(Leaf, x, ToKey(k)) == Single(x)
    ensures Link(Single(r), x, ToKey(k)) ==
            if KeyCompare(k, r.entry.key) < 0 then Node(Single(x), r, Leaf) else Node(Leaf, r, Single(x))
  {
    assert Link(Leaf, x, ToKey(k)) == Single(x);
  }

  lemma FindSingle(r: Record, k: Key)
    ensures k != r.entry.key ==> Find(Single(r), ToKey(k)).None?
  {
    CompareZero(k, r.entry.key);
  }

  lemma TurnOnce(t: Tree<Record>, turn: Turn)
    ensures Rebalance(t, [Rotation([], turn)]) == Rotate(t, turn)
  {
    var fix := [Rotation([], turn)];
    assert fix[1..] == [];
    assert RotateAt(t, fix[0].slot, fix[0].turn) == Rotate(t, turn);
  }

  /** The run `evs` from the empty cache ends in c. */
  ghost predicate Leads(evs: seq<Event>, c: Cache) {
    Exec(EMPTY, evs).Some? && Exec(EMPTY, evs).value.0 == c
  }

  lemma LeadsOn(evs: seq<Event>, c: Cache, ev: Event, d: Cache, out: Outcome)
    requires Leads(evs, c) && Perform(c, ev) == Some((d, out))
    ensures Leads(evs + [ev], d)
  {
    ExecSnoc(EMPTY, evs, ev);
  }

  /** The last two steps of a failing run. */
  lemma Fails(evs: seq<Event>, c: Cache, x: Record, later: Stamp, a: nat, fix: Fix, fixes: seq<Fix>)
    requires Leads(evs, c)
    requires Twin(c) && x in Items(c.scan) && Find(c.scan, ToKey(x.entry.key)).None?
    requires forall r :: r in Items(c.scan) && r != x ==> Older(x.entry.stamp, r.entry.stamp)
    requires Older(x.entry.stamp, later) && !Clash(Items(c.scan), later)
    requires a !in Addrs(Items(c.scan)) && fix.scanIn == []
    ensures var again := InsertAtAddr(FileInfo(x.entry.key, x.entry.gen), later, a, fix);
            var run := Exec(EMPTY, evs + [again] + [EvictEv(1, fixes)]);
            run.Some? && !InStep(run.value.0)
  {
    hide Twin, Items, Find, Older, Clash, Exec, Perform, InStep;
    var again := InsertAtAddr(FileInfo(x.entry.key, x.entry.gen), later, a, fix);
    var d, e := Relapse(c, x, later, a, fix, fixes);
    LeadsOn(evs, c, again, d, Code(0));
    LeadsOn(evs + [again], d, EvictEv(1, fixes), e, Quiet);
  }

  /** The first two inserts, of two different keys. */
  lemma FirstTwo(a: FileInfo, b: FileInfo, at: seq<Stamp>, fa: Fix, fb: Fix) returns (c: Cache)
    requires a.key != b.key && |at| >= 2 && fa.scanIn == []
    requires forall i, j :: 0 <= i < j < |at| ==> Older(at[i], at[j])
    ensures Leads([InsertAtAddr(a, at[0], 1, fa)] + [InsertAtAddr(b, at[1], 2, fb)], c)
    ensures var ra, rb := NewRecord(a, at[0], 1), NewRecord(b, at[1], 2);
            && Twin(c) && Items(c.scan) == {ra, rb}
            && c.scan == Rebalance(if KeyCompare(b.key, a.key) < 0 then Node(Single(rb), ra, Leaf)
                                   else Node(Leaf, ra, Single(rb)), fb.scanIn)
  {
    hide Twin, Items, Older, Clash, Exec, Perform, InStep, Inorder;
    var ra, rb := NewRecord(a, at[0], 1), NewRecord(b, at[1], 2);
    var e1, e2 := InsertAtAddr(a, at[0], 1, fa), InsertAtAddr(b, at[1], 2, fb);
    EmptyIsTwin();
    NoClash({}, at, 0);
    var c1 := FreshInsert(EMPTY, a, at[0], 1, fa);
    LinkSingle(ra, ra, a.key);
    LinkSingle(ra, rb, b.key);
    assert {} + {ra} == {ra} && {ra} + {rb} == {ra, rb};
    FindSingle(ra, b.key);
    NoClash({ra}, at, 1);
    c := FreshInsert(c1, b, at[1], 2, fb);
    NoEvents();
    LeadsOn([], EMPTY, e1, c1, Code(0));
    assert [] + [e1] == [e1];
    LeadsOn([e1], c1, e2, c, Code(0));
  }

  // ----- two devices, with the rotations a red-black tree makes

  /** The red-black rules: a red node has black children, and all paths have `height` black nodes. */
  ghost predicate Coloured(t: Tree<Record>, height: nat, red: bool) {
    match t
    case Leaf => height == 0 && !red
    case Node(l, _, r) =>
      if red then Coloured(l, height, false) && Coloured(r, height, false)
      else
        && height > 0
        && (Coloured(l, height - 1, false) || Coloured(l, height - 1, true))
        && (Coloured(r, height - 1, false) || Coloured(r, height - 1, true))
  }

  /** A tree that can be coloured by the rules, with a black root. */
  ghost predicate RedBlackShape(t: Tree<Record>) {
    exists height: nat :: Coloured(t, height, false)
  }

  function Chain(a: Record, b: Record, c: Record): Tree<Record> {
    Node(Leaf, a, Node(Leaf, b, Single(c)))
  }

  lemma NoBlackNodes(t: Tree<Record>)
    requires Coloured(t, 0, false) || Coloured(t, 0, true)
    ensures |Inorder(t)| <= 1
  {
  }

  /** The only red-black tree over three items has the middle one at the root. */
  lemma ChainMustTurn(a: Record, b: Record, c: Record, fix: seq<Rotation>)
    requires RedBlackShape(Rebalance(Chain(a, b, c), fix))
    ensures Rebalance(Chain(a, b, c), fix) == Node(Single(a), b, Single(c))
  {
    assert Inorder(Single(c)) == [c];
    assert Inorder(Node(Leaf, b, Single(c))) == [b, c];
    var height: nat :| Coloured(Rebalance(Chain(a, b, c), fix), height, false);
    ThreeItems(Rebalance(Chain(a, b, c), fix), a, b, c, height);
  }

  lemma ThreeItems(t: Tree<Record>, a: Record, b: Record, c: Record, height: nat)
    requires Inorder(t) == [a, b, c] && Coloured(t, height, false)
    ensures t == Node(Single(a), b, Single(c))
  {
    var l, r := t.left, t.right;
    assert Coloured(l, height - 1, false) || Coloured(l, height - 1, true);
    assert Coloured(r, height - 1, false) || Coloured(r, height - 1, true);
    if l.Leaf? {
      NoBlackNodes(r);
    } else if r.Leaf? {
      NoBlackNodes(l);
    } else {
      NotEmpty(l);
      NotEmpty(r);
      assert |Inorder(l)| == 1 && |Inorder(r)| == 1;
      OnlyItem(l);
      OnlyItem(r);
      var s := Inorder(t);
      assert s[0] == Inorder(l)[0] && s[1] == t.item && s[2] == Inorder(r)[0];
    }
  }

  lemma NotEmpty(t: Tree<Record>)
    requires t.Node?
    ensures |Inorder(t)| > 0
  {
  }

  lemma OnlyItem(t: Tree<Record>)
    requires |Inorder(t)| == 1
    ensures t == Single(Inorder(t)[0])
  {
    if t.left.Node? {
      NotEmpty(t.left);
    }
    if t.right.Node? {
      NotEmpty(t.right);
    }
  }

  /** a, b and c inserted in this order, a again, and one entry evicted. */
  function FourThenEvict(a: FileInfo, b: FileInfo, c: FileInfo, at: seq<Stamp>, fix: seq<Fix>, fixes: seq<Fix>): seq<Event>
    requires |at| == |fix| == 4
  {
    [InsertAtAddr(a, at[0], 1, fix[0])] + [InsertAtAddr(b, at[1], 2, fix[1])] + [InsertAtAddr(c, at[2], 3, fix[2])]
    + [InsertAtAddr(a, at[3], 4, fix[3])] + [EvictEv(1, fixes)]
  }

  /**
   The code on two devices.  a is on another device than b and c, and c compares above b.  The
   first two inserts and the last need no rotation; after the third the chain a, b, c is no
   red-black tree, and the only one over it has b at the root.  Then a is lost: its second insert
   is not seen as a duplicate, and the eviction takes the trees out of step.  The rotations of the
   LRU tree, and those after the eviction, are arbitrary.
   */
  lemma TwoDevicesBreakPairs(a: FileInfo, b: FileInfo, c: FileInfo, at: seq<Stamp>, fix: seq<Fix>, fixes: seq<Fix>)
    requires a.key.dev != b.key.dev && a.key.dev != c.key.dev && KeyCompare(c.key, b.key) > 0
    requires |at| == |fix| == 4 && forall i, j :: 0 <= i < j < 4 ==> Older(at[i], at[j])
    requires fix[0].scanIn == fix[1].scanIn == fix[3].scanIn == []
    requires RedBlackShape(Rebalance(Chain(NewRecord(a, at[0], 1), NewRecord(b, at[1], 2), NewRecord(c, at[2], 3)),
                                     fix[2].scanIn))
    ensures var run := Exec(EMPTY, FourThenEvict(a, b, c, at, fix, fixes));
            run.Some? && !InStep(run.value.0)
  {
    hide Twin, Items, Older, Clash, Exec, Perform, InStep, Inorder, RedBlackShape;
    var ra, rb, rc := NewRecord(a, at[0], 1), NewRecord(b, at[1], 2), NewRecord(c, at[2], 3);
    var e1, e2, e3 := InsertAtAddr(a, at[0], 1, fix[0]), InsertAtAddr(b, at[1], 2, fix[1]), InsertAtAddr(c, at[2], 3, fix[2]);
    var c2 := FirstTwo(a, b, at, fix[0], fix[1]);
    assert c2.scan == Node(Leaf, ra, Single(rb));
    LinkSingle(rb, rc, c.key);
    assert Link(c2.scan, rc, ToKey(c.key)) == Chain(ra, rb, rc);
    CompareZero(c.key, b.key);
    FindSingle(rb, c.key);
    assert Find(c2.scan, ToKey(c.key)) == Find(Single(rb), ToKey(c.key));
    NoClash({ra, rb}, at, 2);
    var c3 := FreshInsert(c2, c, at[2], 3, fix[2]);
    ChainMustTurn(ra, rb, rc, fix[2].scanIn);
    FindSingle(rc, a.key);
    assert Find(c3.scan, ToKey(a.key)) == Find(Single(rc), ToKey(a.key));
    NoClash({ra, rb} + {rc}, at, 3);
    LeadsOn([e1] + [e2], c2, e3, c3, Code(0));
    Fails([e1] + [e2] + [e3], c3, ra, at[3], 4, fix[3], fixes);
  }

  lemma NoEvents()
    ensures Exec(EMPTY, []) == Some((EMPTY, []))
  {
  }

  /** A stamp later than all those of rs clashes with none of them. */
  lemma NoClash(rs: set<Record>, at: seq<Stamp>, k: nat)
    requires k < |at| && forall i, j :: 0 <= i < j < |at| ==> Older(at[i], at[j])
    requires forall r :: r in rs ==> exists i :: 0 <= i < k && r.entry.stamp == at[i]
    ensures !Clash(rs, at[k])
  {
  }

  /** The inputs exist: one left rotation at the root is what the third insert needs. */
  lemma OneTurnIsRedBlack(a: Record, b: Record, c: Record)
    ensures RedBlackShape(Rebalance(Chain(a, b, c), [Rotation([], Left)]))
    ensures !RedBlackShape(Chain(a, b, c))
  {
    TurnOnce(Chain(a, b, c), Left);
    assert Coloured(Leaf, 0, false);
    assert Coloured(Single(a), 0, true) && Coloured(Single(c), 0, true);
    assert Coloured(Node(Single(a), b, Single(c)), 1, false);
    if RedBlackShape(Chain(a, b, c)) {
      ChainMustTurn(a, b, c, []);
    }
  }

  // ----- the exact condition, for every set of keys

  function At(n: nat): Stamp
    requires n < 10
  {
    Stamp(n, 0)
  }

  lemma Ticks()
    ensures forall i, j :: 0 <= i < j < 10 ==> Older(At(i), At(j))
  {
  }

  function Turned(turn: Turn): Fix { STILL.(scanIn := [Rotation([], turn)]) }

  /** A key told apart inconsistently from another is lost after one rotation. */
  lemma PairFails(a: Key, b: Key) returns (evs: seq<Event>)
    requires a != b && !Antisymmetric(a, b)
    ensures Over(evs, {a, b})
    ensures Exec(EMPTY, evs).Some? && !InStep(Exec(EMPTY, evs).value.0)
  {
    hide Twin, Items, Clash, Exec, Perform, InStep, Inorder, KeyCompare, Older;
    var fa, fb, turn := FileInfo(a, 0), FileInfo(b, 0), if KeyCompare(b, a) < 0 then Right else Left;
    var at := [At(0), At(1), At(2)];
    Ticks();
    var ra, rb := NewRecord(fa, at[0], 1), NewRecord(fb, at[1], 2);
    CompareZero(a, b);
    CompareZero(b, a);
    var c2 := FirstTwo(fa, fb, at, STILL, Turned(turn));
    TurnOnce(if turn == Right then Node(Single(rb), ra, Leaf) else Node(Leaf, ra, Single(rb)), turn);
    assert c2.scan == if turn == Left then Node(Single(ra), rb, Leaf) else Node(Leaf, rb, Single(ra));
    assert Find(c2.scan, ToKey(a)) == Find(Leaf, ToKey(a));
    NoClash({ra, rb}, at, 2);
    var e1, e2 := InsertAtAddr(fa, at[0], 1, STILL), InsertAtAddr(fb, at[1], 2, Turned(turn));
    Fails([e1] + [e2], c2, ra, at[2], 3, STILL, []);
    evs := [e1] + [e2] + [InsertAtAddr(fa, at[2], 3, STILL)] + [EvictEv(1, [])];
  }

  /** Three keys that the comparator puts in a circle: one is lost after two rotations. */
  lemma TripleFails(x: Key, y: Key, z: Key) returns (evs: seq<Event>)
    requires KeyCompare(x, y) < 0 && KeyCompare(y, z) < 0 && KeyCompare(x, z) > 0
    requires Antisymmetric(x, y) && Antisymmetric(y, z)
    ensures Over(evs, {x, y, z})
    ensures Exec(EMPTY, evs).Some? && !InStep(Exec(EMPTY, evs).value.0)
  {
    hide Twin, Items, Clash, Exec, Perform, InStep, Inorder, KeyCompare, Older;
    var fx, fy, fz := FileInfo(x, 0), FileInfo(y, 0), FileInfo(z, 0);
    var at := [At(0), At(1), At(2), At(3)];
    Ticks();
    var rx, ry, rz := NewRecord(fx, at[0], 1), NewRecord(fy, at[1], 2), NewRecord(fz, at[2], 3);
    var left := Turned(Left);
    CompareZero(x, y);
    var c2 := FirstTwo(fx, fy, at, STILL, left);
    TurnOnce(Node(Leaf, rx, Single(ry)), Left);
    assert c2.scan == Node(Single(rx), ry, Leaf);
    assert Find(c2.scan, ToKey(z)) == Find(Leaf, ToKey(z));
    LinkSingle(ry, rz, z);
    var c3 := FreshInsertRight(c2, fz, at, Single(rx), ry, left);
    assert Find(c3.scan, ToKey(x)) == Find(Leaf, ToKey(x));
    NoClash({rx, ry} + {rz}, at, 3);
    var e1, e2, e3 := InsertAtAddr(fx, at[0], 1, STILL), InsertAtAddr(fy, at[1], 2, left), InsertAtAddr(fz, at[2], 3, left);
    LeadsOn([e1] + [e2], c2, e3, c3, Code(0));
    Fails([e1] + [e2] + [e3], c3, rx, at[3], 4, STILL, []);
    evs := [e1] + [e2] + [e3] + [InsertAtAddr(fx, at[3], 4, STILL)] + [EvictEv(1, [])];
  }

  /** A third insert that goes right of the root and is turned to the top. */
  lemma FreshInsertRight(c: Cache, f: FileInfo, at: seq<Stamp>, l: Tree<Record>, r: Record, fix: Fix) returns (d: Cache)
    requires Twin(c) && c.scan == Node(l, r, Leaf) && KeyCompare(f.key, r.entry.key) > 0
    requires |at| > 2 && forall i, j :: 0 <= i < j < |at| ==> Older(at[i], at[j])
    requires forall q :: q in Items(c.scan) ==> (q.entry.stamp == at[0] || q.entry.stamp == at[1]) && q.addr < 3
    requires fix == Turned(Left)
    ensures Perform(c, InsertAtAddr(f, at[2], 3, fix)) == Some((d, Code(0)))
    ensures d.scan == Node(c.scan, NewRecord(f, at[2], 3), Leaf)
    ensures Twin(d) && Items(d.scan) == Items(c.scan) + {NewRecord(f, at[2], 3)}
  {
    hide Twin, Items, Older, Clash, Perform, Inorder;
    var x := NewRecord(f, at[2], 3);
    assert Find(c.scan, ToKey(f.key)) == Find(Leaf, ToKey(f.key));
    NoClash(Items(c.scan), at, 2);
    d := FreshInsert(c, f, at[2], 3, fix);
    LinkSingle(r, x, f.key);
    assert Link(c.scan, x, ToKey(f.key)) == Node(l, r, Single(x));
    TurnOnce(Node(l, r, Single(x)), Left);
  }

  /** Over keys the comparator does not order, some run takes the trees out of step. */
  lemma UnorderedFails(ks: set<Key>) returns (evs: seq<Event>)
    requires !OrderOn(ks)
    ensures Over(evs, ks)
    ensures Exec(EMPTY, evs).Some? && !InStep(Exec(EMPTY, evs).value.0)
  {
    hide Exec, InStep, Antisymmetric;
    if a, b :| a in ks && b in ks && !Antisymmetric(a, b) {
      AntisymmetricIff(a, b);
      evs := PairFails(a, b);
      OverMore(evs, {a, b}, ks);
    } else {
      var a, b, c :| a in ks && b in ks && c in ks && KeyCompare(a, b) < 0 && KeyCompare(b, c) < 0 && !(KeyCompare(a, c) < 0);
      Circle(a, b, c);
      evs := TripleFails(a, b, c);
      OverMore(evs, {a, b, c}, ks);
    }
  }

  lemma Circle(a: Key, b: Key, c: Key)
    requires Antisymmetric(a, b) && KeyCompare(a, b) < 0 && KeyCompare(b, c) < 0 && !(KeyCompare(a, c) < 0)
    ensures KeyCompare(a, c) > 0
  {
    CompareZero(a, c);
  }

  lemma OverMore(evs: seq<Event>, some: set<Key>, ks: set<Key>)
    requires Over(evs, some) && some <= ks
    ensures Over(evs, ks)
  {
  }

  /** Every run of the cache over ks, whatever is allocated, read from the clock and rotated, ends in step. */
  ghost predicate NeverOutOfStep(ks: set<Key>) {
    forall evs :: Over(evs, ks) && Exec(EMPTY, evs).Some? ==> InStep(Exec(EMPTY, evs).value.0)
  }

  /**
   The exact condition.  The trees stay in step in every run over ks if and only if the comparator
   orders ks, that is if and only if the keys share a device and lie within half a turn.
   */
  lemma InStepIff(ks: set<Key>)
    ensures NeverOutOfStep(ks) <==> OrderOn(ks)
    ensures NeverOutOfStep(ks) <==> ks == {} || exists base :: base in ks && HalfTurnFrom(ks, base)
  {
    OrderOnIff(ks);
    hide OrderOn, HalfTurnFrom, Exec, InStep, Sound, ScanSorted, Over, ContentsOf;
    if OrderOn(ks) {
      forall evs | Over(evs, ks) && Exec(EMPTY, evs).Some? ensures InStep(Exec(EMPTY, evs).value.0) {
        EmptyIsGood(ks);
        ExecKeeps(EMPTY, evs, ks);
      }
    } else {
      var evs := UnorderedFails(ks);
    }
  }
}
