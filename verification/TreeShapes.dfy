/**
 Rotations reach every shape: leaving the rebalancing of a red-black tree open as "any list of
 rotations" is the same as allowing any tree with the same in-order sequence.
 */
module TreeShapes {
  import opened SearchTree

  lemma {:induction false} RebalanceAppend<T>(t: Tree<T>, f: seq<Rotation>, g: seq<Rotation>)
    ensures Rebalance(Rebalance(t, f), g) == Rebalance(t, f + g)
    decreases |f|
  {
    if f == [] {
      assert f + g == g;
    } else {
      assert (f + g)[1..] == f[1..] + g;
      RebalanceAppend(RotateAt(t, f[0].slot, f[0].turn), f[1..], g);
    }
  }

  /** The same rotations one level further down. */
  function Below(turn: Turn, fix: seq<Rotation>): (r: seq<Rotation>)
    ensures |r| == |fix|
  {
    seq(|fix|, i requires 0 <= i < |fix| => Rotation([turn] + fix[i].slot, fix[i].turn))
  }

  lemma {:induction false} RebalanceBelow<T>(t: Tree<T>, turn: Turn, fix: seq<Rotation>)
    requires t.Node?
    ensures Rebalance(t, Below(turn, fix)) ==
            if turn == Left then t.(left := Rebalance(t.left, fix)) else t.(right := Rebalance(t.right, fix))
    decreases |fix|
  {
    if fix != [] {
      var slot := fix[0].slot;
      assert ([turn] + slot)[1..] == slot;
      assert Below(turn, fix)[1..] == Below(turn, fix[1..]);
      RebalanceBelow(RotateAt(t, [turn] + slot, fix[0].turn), turn, fix[1..]);
    }
  }

  /** A rotation can be taken back. */
  lemma {:induction false} Undo<T>(t: Tree<T>, slot: seq<Turn>, turn: Turn) returns (fix: seq<Rotation>)
    ensures Rebalance(RotateAt(t, slot, turn), fix) == t
    decreases |slot|
  {
    var u := RotateAt(t, slot, turn);
    if u == t {
      fix := [];
    } else if slot == [] {
      fix := [Rotation([], if turn == Left then Right else Left)];
      assert Rebalance(u, fix) == Rebalance(RotateAt(u, [], fix[0].turn), []);
    } else {
      var f := Undo(if slot[0] == Left then t.left else t.right, slot[1..], turn);
      RebalanceBelow(u, slot[0], f);
      fix := Below(slot[0], f);
    }
  }

  lemma {:induction false} UndoAll<T>(t: Tree<T>, fix: seq<Rotation>) returns (back: seq<Rotation>)
    ensures Rebalance(Rebalance(t, fix), back) == t
    decreases |fix|
  {
    if fix == [] {
      back := [];
    } else {
      var u := RotateAt(t, fix[0].slot, fix[0].turn);
      var f := UndoAll(u, fix[1..]);
      var g := Undo(t, fix[0].slot, fix[0].turn);
      RebalanceAppend(Rebalance(t, fix), f, g);
      back := f + g;
    }
  }

  /** The tree without left children. */
  function Vine<T>(s: seq<T>): Tree<T> {
    if s == [] then Leaf else Node(Leaf, s[0], Vine(s[1..]))
  }

  lemma {:induction false} VineInorder<T>(s: seq<T>)
    ensures Inorder(Vine(s)) == s
  {
    if s != [] {
      VineInorder(s[1..]);
    }
  }

  lemma {:induction false} ToVine<T>(t: Tree<T>) returns (fix: seq<Rotation>)
    ensures Rebalance(t, fix) == Vine(Inorder(t))
    decreases |Inorder(t)|, if t.Node? then |Inorder(t.left)| else 0
  {
    if t.Leaf? {
      fix := [];
    } else if t.left.Leaf? {
      var f := ToVine(t.right);
      RebalanceBelow(t, Right, f);
      fix := Below(Right, f);
      assert Inorder(t) == [t.item] + Inorder(t.right);
    } else {
      var u := Rotate(t, Right);
      assert |Inorder(u.left)| < |Inorder(t.left)|;
      var f := ToVine(u);
      fix := [Rotation([], Right)] + f;
      assert fix[1..] == f;
    }
  }

  /** Any two trees over one sequence are some rotations apart. */
  lemma EveryShape<T>(t: Tree<T>, u: Tree<T>) returns (fix: seq<Rotation>)
    requires Inorder(t) == Inorder(u)
    ensures Rebalance(t, fix) == u
  {
    var f := ToVine(t);
    var g := ToVine(u);
    var back := UndoAll(u, g);
    RebalanceAppend(t, f, back);
    fix := f + back;
  }

  /** Any item can be brought to the root. */
  lemma AnyRoot<T>(t: Tree<T>, k: nat) returns (fix: seq<Rotation>, l: Tree<T>, r: Tree<T>)
    requires k < |Inorder(t)|
    ensures Rebalance(t, fix) == Node(l, Inorder(t)[k], r)
    ensures Inorder(l) == Inorder(t)[..k] && Inorder(r) == Inorder(t)[k + 1..]
  {
    var s := Inorder(t);
    l, r := Vine(s[..k]), Vine(s[k + 1..]);
    VineInorder(s[..k]);
    VineInorder(s[k + 1..]);
    assert Inorder(Node(l, s[k], r)) == s;
    fix := EveryShape(t, Node(l, s[k], r));
  }
}
