/**
 The binary search trees behind the cache (the RB_* macros of cache.h).

 A node pointer is a subtree, the address of a child field is the list of turns
 that leads to it from the root, and a comparator with its first argument fixed
 is a function `dir` from items to int.  The kernel's rebalancing is any list of
 rotations, so everything proved here holds for every shape a tree can take.
 */
module SearchTree {
  import opened Wrappers
  import opened Seqs

  datatype Tree<T> = Leaf | Node(left: Tree<T>, item: T, right: Tree<T>)
  datatype Turn = Left | Right
  datatype Rotation = Rotation(slot: seq<Turn>, turn: Turn)

  function Inorder<T>(t: Tree<T>): seq<T> {
    match t
    case Leaf => []
    case Node(l, x, r) => Inorder(l) + [x] + Inorder(r)
  }

  function Items<T(==)>(t: Tree<T>): set<T> {
    Elements(Inorder(t))
  }

  // ----- slots: addresses of child fields

  predicate IsSlot<T>(t: Tree<T>, slot: seq<Turn>) {
    slot == [] ||
    (t.Node? && IsSlot(if slot[0] == Left then t.left else t.right, slot[1..]))
  }

  function At<T>(t: Tree<T>, slot: seq<Turn>): Tree<T>
    requires IsSlot(t, slot)
  {
    if slot == [] then t
    else At(if slot[0] == Left then t.left else t.right, slot[1..])
  }

  /** Storing a subtree through the address of a child field. */
  function Store<T>(t: Tree<T>, slot: seq<Turn>, u: Tree<T>): Tree<T>
    requires IsSlot(t, slot)
  {
    if slot == [] then u
    else if slot[0] == Left then t.(left := Store(t.left, slot[1..], u))
    else t.(right := Store(t.right, slot[1..], u))
  }

  lemma {:induction false} SlotStep<T>(t: Tree<T>, slot: seq<Turn>, turn: Turn, u: Tree<T>)
    requires IsSlot(t, slot) && At(t, slot).Node?
    ensures IsSlot(t, slot + [turn])
    ensures var n := At(t, slot);
            && At(t, slot + [turn]) == (if turn == Left then n.left else n.right)
            && Store(t, slot + [turn], u) ==
               Store(t, slot, if turn == Left then n.(left := u) else n.(right := u))
  {
    var deeper := slot + [turn];
    if slot == [] {
      assert deeper[1..] == [];
      assert IsSlot(if turn == Left then t.left else t.right, deeper[1..]);
    } else {
      assert deeper[1..] == slot[1..] + [turn];
      SlotStep(if slot[0] == Left then t.left else t.right, slot[1..], turn, u);
    }
  }

  // ----- rebalancing: any list of rotations

  function Rotate<T>(t: Tree<T>, turn: Turn): (u: Tree<T>)
    ensures Inorder(u) == Inorder(t)
  {
    if turn == Left && t.Node? && t.right.Node? then
      var u := Node(Node(t.left, t.item, t.right.left), t.right.item, t.right.right);
      assert Inorder(u) == Inorder(t.left) + [t.item] + Inorder(t.right.left)
                           + [t.right.item] + Inorder(t.right.right);
      assert Inorder(t) == Inorder(t.left) + [t.item] + (Inorder(t.right.left)
                           + [t.right.item] + Inorder(t.right.right));
      u
    else if turn == Right && t.Node? && t.left.Node? then
      var u := Node(t.left.left, t.left.item, Node(t.left.right, t.item, t.right));
      assert Inorder(t) == Inorder(t.left.left) + [t.left.item] + Inorder(t.left.right)
                           + [t.item] + Inorder(t.right);
      assert Inorder(u) == Inorder(t.left.left) + [t.left.item] + (Inorder(t.left.right)
                           + [t.item] + Inorder(t.right));
      u
    else t
  }

  function RotateAt<T>(t: Tree<T>, slot: seq<Turn>, turn: Turn): (u: Tree<T>)
    ensures Inorder(u) == Inorder(t)
    decreases |slot|
  {
    if slot == [] then Rotate(t, turn)
    else if t.Leaf? then t
    else if slot[0] == Left then t.(left := RotateAt(t.left, slot[1..], turn))
    else t.(right := RotateAt(t.right, slot[1..], turn))
  }

  /** rb_insert_color and the fix-up half of rb_erase: the in-order sequence stays. */
  function Rebalance<T>(t: Tree<T>, fix: seq<Rotation>): (u: Tree<T>)
    ensures Inorder(u) == Inorder(t)
    decreases |fix|
  {
    if fix == [] then t
    else Rebalance(RotateAt(t, fix[0].slot, fix[0].turn), fix[1..])
  }

  // ----- searching

  function Find<T>(t: Tree<T>, dir: T -> int): Option<T> {
    match t
    case Leaf => None
    case Node(l, x, r) =>
      if dir(x) == 0 then Some(x) else Find(if dir(x) < 0 then l else r, dir)
  }

  /** `dir` points at position i from everywhere in s. */
  ghost predicate GuidesTo<T>(s: seq<T>, dir: T -> int, i: nat) {
    && i < |s|
    && dir(s[i]) == 0
    && (forall j :: 0 <= j < i ==> dir(s[j]) > 0)
    && (forall j :: i < j < |s| ==> dir(s[j]) < 0)
  }

  /** Whatever the comparator, a search returns only a matching item of the tree. */
  lemma {:induction false} FindSound<T>(t: Tree<T>, dir: T -> int)
    ensures Find(t, dir).Some? ==> Find(t, dir).value in Items(t) && dir(Find(t, dir).value) == 0
  {
    if t.Node? {
      FindSound(t.left, dir);
      FindSound(t.right, dir);
    }
  }

  /** A comparator that guides to an item finds it in every shape. */
  lemma {:induction false} FindComplete<T>(t: Tree<T>, dir: T -> int, i: nat)
    requires GuidesTo(Inorder(t), dir, i)
    ensures Find(t, dir) == Some(Inorder(t)[i])
  {
    var s, l, r := Inorder(t), Inorder(t.left), Inorder(t.right);
    assert s[|l|] == t.item;
    if i < |l| {
      assert forall j :: 0 <= j < |l| ==> l[j] == s[j];
      FindComplete(t.left, dir, i);
    } else if i > |l| {
      assert forall j :: 0 <= j < |r| ==> r[j] == s[|l| + 1 + j];
      FindComplete(t.right, dir, i - |l| - 1);
    }
  }

  /** RB_SEARCH. */
  method Search<T>(t: Tree<T>, dir: T -> int) returns (found: Option<T>)
    ensures found == Find(t, dir)
  {
    var n := t;
    found := None;
    while n.Node?
      invariant Find(t, dir) == Find(n, dir)
      decreases n
    {
      var res := dir(n.item);
      if res == 0 {
        found := Some(n.item);
        break;
      }
      n := if res < 0 then n.left else n.right;
    }
  }

  // ----- inserting

  /** The tree before rebalancing: x hangs from the null field where the search for it ends. */
  function Link<T>(t: Tree<T>, x: T, dir: T -> int): Tree<T> {
    match t
    case Leaf => Node(Leaf, x, Leaf)
    case Node(l, y, r) =>
      if dir(y) < 0 then Node(Link(l, x, dir), y, r) else Node(l, y, Link(r, x, dir))
  }

  /** How many items of the tree end up in front of the linked one. */
  function Place<T>(t: Tree<T>, dir: T -> int): nat {
    match t
    case Leaf => 0
    case Node(l, y, r) =>
      if dir(y) < 0 then Place(l, dir) else |Inorder(l)| + 1 + Place(r, dir)
  }

  /** RB_INSERT: 0 after linking, -1 and an untouched tree when the search for x succeeds. */
  method Insert<T>(t: Tree<T>, x: T, dir: T -> int, fix: seq<Rotation>) returns (u: Tree<T>, ret: int)
    ensures ret == if Find(t, dir).Some? then -1 else 0
    ensures ret == -1 ==> u == t
    ensures ret == 0 ==> u == Rebalance(Link(t, x, dir), fix)
  {
    var n, slot := t, [];
    while n.Node?
      invariant IsSlot(t, slot) && At(t, slot) == n
      invariant Find(t, dir) == Find(n, dir)
      invariant Link(t, x, dir) == Store(t, slot, Link(n, x, dir))
      decreases n
    {
      var res := dir(n.item);
      if res == 0 {
        return t, -1;
      }
      var turn := if res < 0 then Left else Right;
      SlotStep(t, slot, turn, Link(if turn == Left then n.left else n.right, x, dir));
      n := if res < 0 then n.left else n.right;
      slot := slot + [turn];
    }
    u := Rebalance(Store(t, slot, Node(Leaf, x, Leaf)), fix);
    ret := 0;
  }

  lemma {:induction false} LinkInorder<T>(t: Tree<T>, x: T, dir: T -> int)
    ensures Place(t, dir) <= |Inorder(t)|
    ensures Inorder(Link(t, x, dir)) == InsertAt(Inorder(t), Place(t, dir), x)
  {
    if t.Node? {
      var l, r := Inorder(t.left), Inorder(t.right);
      if dir(t.item) < 0 {
        LinkInorder(t.left, x, dir);
        var p := Place(t.left, dir);
        assert Inorder(t)[..p] == l[..p];
        assert Inorder(t)[p..] == l[p..] + [t.item] + r;
      } else {
        LinkInorder(t.right, x, dir);
        var p := Place(t.right, dir);
        assert Inorder(t)[..|l| + 1 + p] == l + [t.item] + r[..p];
        assert Inorder(t)[|l| + 1 + p..] == r[p..];
      }
    }
  }

  // ----- sorted trees

  /** Strictly increasing, with both argument orders of the comparator agreeing on it. */
  ghost predicate SortedBy<T>(s: seq<T>, cmp: (T, T) -> int) {
    forall i, j :: 0 <= i < j < |s| ==> cmp(s[i], s[j]) < 0 < cmp(s[j], s[i])
  }

  /** x compares with the items of s as a new item of one strict order does. */
  ghost predicate Fits<T>(s: seq<T>, x: T, cmp: (T, T) -> int) {
    && (forall i :: 0 <= i < |s| ==> cmp(x, s[i]) < 0 < cmp(s[i], x) || cmp(s[i], x) < 0 < cmp(x, s[i]))
    && (forall i, j :: 0 <= i < j < |s| && cmp(x, s[i]) < 0 ==> cmp(x, s[j]) < 0)
  }

  lemma {:induction false} PlaceSplits<T>(t: Tree<T>, x: T, dir: T -> int, cmp: (T, T) -> int)
    requires Fits(Inorder(t), x, cmp)
    requires forall y :: y in Inorder(t) ==> dir(y) == cmp(x, y)
    ensures Place(t, dir) <= |Inorder(t)|
    ensures forall j :: 0 <= j < Place(t, dir) ==> cmp(x, Inorder(t)[j]) > 0
    ensures forall j :: Place(t, dir) <= j < |Inorder(t)| ==> cmp(x, Inorder(t)[j]) < 0
  {
    if t.Node? {
      var s, l, r := Inorder(t), Inorder(t.left), Inorder(t.right);
      var n := |l|;
      assert s[n] == t.item;
      assert forall j :: 0 <= j < n ==> l[j] == s[j];
      assert forall j :: 0 <= j < |r| ==> r[j] == s[n + 1 + j];
      if dir(t.item) < 0 {
        PlaceSplits(t.left, x, dir, cmp);
      } else {
        PlaceSplits(t.right, x, dir, cmp);
        forall j | n < j < |s| ensures s[j] == r[j - n - 1] {}
        forall j | 0 <= j < n ensures cmp(x, s[j]) > 0 {
          assert !(cmp(x, s[j]) < 0);
        }
      }
    }
  }

  /** A new key of one strict order lands at its sorted place, for every shape. */
  lemma LinkSorted<T>(t: Tree<T>, x: T, dir: T -> int, cmp: (T, T) -> int)
    requires SortedBy(Inorder(t), cmp)
    requires Fits(Inorder(t), x, cmp)
    requires forall y :: y in Inorder(t) ==> dir(y) == cmp(x, y)
    ensures SortedBy(Inorder(Link(t, x, dir)), cmp)
  {
    hide InsertAt, Link;
    LinkInorder(t, x, dir);
    PlaceSplits(t, x, dir, cmp);
    var s, p := Inorder(t), Place(t, dir);
    InsertAtFacts(s, p, x);
    var u := InsertAt(s, p, x);
    forall i, j | 0 <= i < j < |u| ensures cmp(u[i], u[j]) < 0 < cmp(u[j], u[i]) {
    }
  }

  /** Searching for a member of a sorted tree with any `dir` that agrees with the order. */
  lemma SortedSearch<T>(t: Tree<T>, x: T, dir: T -> int, cmp: (T, T) -> int)
    requires SortedBy(Inorder(t), cmp) && x in Inorder(t)
    requires dir(x) == 0
    requires forall y :: y in Inorder(t) && y != x ==> dir(y) == cmp(x, y)
    ensures Find(t, dir) == Some(x)
  {
    var i :| 0 <= i < |Inorder(t)| && Inorder(t)[i] == x;
    var s := Inorder(t);
    forall j | 0 <= j < |s| && j != i ensures s[j] != x && dir(s[j]) == cmp(x, s[j]) {
      assert s[j] in s;
    }
    FindComplete(t, dir, i);
  }

  // ----- erasing, replacing, leftmost

  function PopMin<T>(t: Tree<T>): (r: (T, Tree<T>))
    requires t.Node?
    ensures Inorder(t) == [r.0] + Inorder(r.1)
  {
    if t.left.Leaf? then (t.item, t.right)
    else
      var (m, l) := PopMin(t.left);
      (m, t.(left := l))
  }

  /** What rb_erase leaves in the erased node's place: its successor takes over. */
  function Join<T>(l: Tree<T>, r: Tree<T>): (t: Tree<T>)
    ensures Inorder(t) == Inorder(l) + Inorder(r)
  {
    if l.Leaf? then r
    else if r.Leaf? then l
    else
      var (m, rest) := PopMin(r);
      Node(l, m, rest)
  }

  function Unlink<T(==)>(t: Tree<T>, x: T): Tree<T> {
    match t
    case Leaf => Leaf
    case Node(l, y, r) =>
      if y == x then Join(l, r)
      else if x in Inorder(l) then t.(left := Unlink(l, x))
      else t.(right := Unlink(r, x))
  }

  lemma {:induction false} UnlinkInorder<T>(t: Tree<T>, x: T) returns (i: nat)
    requires x in Inorder(t)
    ensures i < |Inorder(t)| && Inorder(t)[i] == x
    ensures Inorder(Unlink(t, x)) == RemoveAt(Inorder(t), i)
  {
    hide RemoveAt, Join;
    var l, r := Inorder(t.left), Inorder(t.right);
    if t.item == x {
      i := |l|;
      RemoveAtMiddle(l, t.item, r);
    } else if x in l {
      i := UnlinkInorder(t.left, x);
      RemoveAtLeft(l, [t.item] + r, i);
      assert Inorder(t) == l + ([t.item] + r);
      assert Inorder(Unlink(t, x)) == RemoveAt(l, i) + ([t.item] + r);
    } else {
      var k := UnlinkInorder(t.right, x);
      i := |l| + 1 + k;
      RemoveAtRight(l + [t.item], r, k);
    }
  }

  /** Erasing a node takes exactly its item out and keeps any order. */
  lemma UnlinkFacts<T>(t: Tree<T>, x: T, cmp: (T, T) -> int)
    requires Distinct(Inorder(t)) && x in Items(t)
    ensures Items(Unlink(t, x)) == Items(t) - {x} && Distinct(Inorder(Unlink(t, x)))
    ensures SortedBy(Inorder(t), cmp) ==> SortedBy(Inorder(Unlink(t, x)), cmp)
  {
    var i := UnlinkInorder(t, x);
    RemoveAtFacts(Inorder(t), i);
    var s, u := Inorder(t), Inorder(Unlink(t, x));
    assert forall j :: 0 <= j < |u| ==> u[j] == s[if j < i then j else j + 1];
  }

  /** RB_REMOVE. */
  method Erase<T(==)>(t: Tree<T>, x: T, fix: seq<Rotation>) returns (u: Tree<T>)
    ensures u == Rebalance(Unlink(t, x), fix)
    ensures Inorder(u) == Inorder(Unlink(t, x))
  {
    u := Rebalance(Unlink(t, x), fix);
  }

  /** RB_REPLACE: the node keeps its position and takes the new item. */
  function Replace<T(==)>(t: Tree<T>, x: T, y: T): Tree<T> {
    match t
    case Leaf => Leaf
    case Node(l, z, r) =>
      if z == x then t.(item := y)
      else if x in Inorder(l) then t.(left := Replace(l, x, y))
      else t.(right := Replace(r, x, y))
  }

  lemma {:induction false} ReplaceInorder<T>(t: Tree<T>, x: T, y: T) returns (i: nat)
    requires x in Inorder(t)
    ensures i < |Inorder(t)| && Inorder(t)[i] == x
    ensures Inorder(Replace(t, x, y)) == Inorder(t)[i := y]
  {
    var s, l, r := Inorder(t), Inorder(t.left), Inorder(t.right);
    if t.item == x {
      i := |l|;
    } else if x in l {
      i := ReplaceInorder(t.left, x, y);
    } else {
      var k := ReplaceInorder(t.right, x, y);
      i := |l| + 1 + k;
    }
  }

  /** Replacing an item by one that compares the same keeps the order. */
  lemma ReplaceFacts<T>(t: Tree<T>, x: T, y: T, cmp: (T, T) -> int)
    requires Distinct(Inorder(t)) && x in Items(t) && y !in Items(t)
    ensures Items(Replace(t, x, y)) == Items(t) - {x} + {y} && Distinct(Inorder(Replace(t, x, y)))
    ensures SortedBy(Inorder(t), cmp) &&
            (forall z :: z in Items(t) ==> cmp(y, z) == cmp(x, z) && cmp(z, y) == cmp(z, x)) ==>
              SortedBy(Inorder(Replace(t, x, y)), cmp)
  {
    var i := ReplaceInorder(t, x, y);
    UpdateFacts(Inorder(t), i, y);
    var s := Inorder(t);
    assert forall j :: 0 <= j < |s| ==> s[j] in Items(t);
  }

  lemma NodeDistinct<T>(t: Tree<T>)
    requires Distinct(Inorder(t)) && t.Node?
    ensures Distinct(Inorder(t.left)) && Distinct(Inorder(t.right))
    ensures t.item !in Inorder(t.left) && t.item !in Inorder(t.right)
    ensures forall x :: x in Inorder(t.left) ==> x !in Inorder(t.right)
  {
    DistinctParts(Inorder(t.left), t.item, Inorder(t.right));
  }

  /**
   RB_REPLACE keeps the shape, so in any tree, sorted or not, every search that cannot tell the two
   items apart goes the same way as before.
   */
  lemma {:induction false} ReplaceKeepsSearches<T>(t: Tree<T>, x: T, y: T, dir: T -> int)
    requires Distinct(Inorder(t)) && x in Items(t) && dir(y) == dir(x)
    ensures Find(Replace(t, x, y), dir) == if Find(t, dir) == Some(x) then Some(y) else Find(t, dir)
  {
    NodeDistinct(t);
    FindSound(t.left, dir);
    FindSound(t.right, dir);
    if t.item != x {
      ReplaceKeepsSearches(if x in Inorder(t.left) then t.left else t.right, x, y, dir);
    }
  }

  /** Linking adds exactly the new item. */
  lemma LinkFacts<T>(t: Tree<T>, x: T, dir: T -> int)
    ensures Items(Link(t, x, dir)) == Items(t) + {x}
    ensures Distinct(Inorder(t)) && x !in Items(t) ==> Distinct(Inorder(Link(t, x, dir)))
  {
    LinkInorder(t, x, dir);
    InsertAtFacts(Inorder(t), Place(t, dir), x);
  }

  /** RB_FIRST: follow left children from the root. */
  method First<T>(t: Tree<T>) returns (found: Option<T>)
    ensures found == if t.Leaf? then None else Some(Inorder(t)[0])
  {
    if t.Leaf? {
      return None;
    }
    var n := t;
    while n.left.Node?
      invariant n.Node? && Inorder(n)[0] == Inorder(t)[0]
      decreases n
    {
      assert Inorder(n)[0] == Inorder(n.left)[0];
      n := n.left;
    }
    found := Some(n.item);
  }
}
