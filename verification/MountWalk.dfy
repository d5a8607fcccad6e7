/**
 The walk over all mounts of mount_iter.c (the struct vfsmount branch): no stack, only the
 parent, first-child and sibling links, with one reference held on the current mount.
 */
module MountWalk {
  import opened Seqs

  /** A pointer to a struct list_head: the head of a mount's child list, or a mount's own link. */
  datatype ListPtr = MountsOf(m: Mount?) | ChildOf(m: Mount?)

  class Mount {
    const fs: string
    var parent: Mount?
    /** mnt_mounts.next */
    var mounts: ListPtr
    /** mnt_child.next */
    var sibling: ListPtr
    var refs: int
  }

  /** A list of sibling mounts, each with the list of its children. */
  datatype Forest = Nil | Cons(root: Mount, kids: Forest, rest: Forest)

  ghost function Preorder(f: Forest): seq<Mount> {
    match f
    case Nil => []
    case Cons(m, kids, rest) => [m] + Preorder(kids) + Preorder(rest)
  }

  /** Where the link in front of f, in the child list of p, points. */
  ghost function LinkTo(f: Forest, p: Mount): ListPtr {
    if f.Nil? then MountsOf(p) else ChildOf(f.root)
  }

  /** f is the rest of the child list of p, and all links below are in place; ms are the mounts. */
  ghost predicate Linked(f: Forest, p: Mount, ms: set<Mount>)
    reads ms`parent, ms`mounts, ms`sibling
  {
    match f
    case Nil => true
    case Cons(m, kids, rest) =>
      && m in ms && m != p
      && m.parent == p
      && m.mounts == LinkTo(kids, m)
      && m.sibling == LinkTo(rest, p)
      && Linked(kids, m, ms)
      && Linked(rest, p, ms)
  }

  /** A finite mount tree: a root that is its own parent, and its children. */
  ghost predicate IsTree(root: Mount, kids: Forest, ms: set<Mount>)
    reads ms`parent, ms`mounts, ms`sibling
  {
    root in ms && root.parent == root && root.mounts == LinkTo(kids, root) && Linked(kids, root, ms)
  }

  // ----- positions in the tree

  /** A mount in its place: what hangs below it, what follows it, and its parent in its place. */
  datatype Place =
    | Top(m: Mount, kids: Forest)
    | Under(up: Place, m: Mount, kids: Forest, rest: Forest)

  ghost predicate Placed(p: Place, ms: set<Mount>)
    reads ms`parent, ms`mounts, ms`sibling
  {
    && p.m in ms
    && p.m.mounts == LinkTo(p.kids, p.m)
    && Linked(p.kids, p.m, ms)
    && match p
       case Top(m, _) => m.parent == m
       case Under(up, m, _, rest) =>
         && m != up.m && m.parent == up.m
         && m.sibling == LinkTo(rest, up.m)
         && Linked(rest, up.m, ms)
         && Placed(up, ms)
  }

  ghost function Root(p: Place): Place {
    if p.Top? then p else Root(p.up)
  }

  /** What is left to visit once the mount at p and everything below it are done. */
  ghost function Todo(p: Place): seq<Mount> {
    if p.Top? then [] else Preorder(p.rest) + Todo(p.up)
  }

  /** What is left to visit once the mount at p is done. */
  ghost function Ahead(p: Place): seq<Mount> {
    Preorder(p.kids) + Todo(p)
  }

  lemma AheadChild(p: Place)
    requires p.kids.Cons?
    ensures Ahead(p) == [p.kids.root] + Ahead(Under(p, p.kids.root, p.kids.kids, p.kids.rest))
  {
  }

  lemma TodoSibling(p: Place)
    requires p.Under? && p.rest.Cons?
    ensures Todo(p) == [p.rest.root] + Ahead(Under(p.up, p.rest.root, p.rest.kids, p.rest.rest))
  {
  }

  /** The links decide the forest. */
  lemma {:induction false} ForestUnique(f: Forest, g: Forest, p: Mount, ms: set<Mount>)
    requires Linked(f, p, ms) && Linked(g, p, ms) && LinkTo(f, p) == LinkTo(g, p)
    ensures f == g
  {
    if f.Cons? {
      ForestUnique(f.kids, g.kids, f.root, ms);
      ForestUnique(f.rest, g.rest, p, ms);
    }
  }

  /** A mount has one place. */
  lemma {:induction false} PlaceUnique(p: Place, q: Place, ms: set<Mount>)
    requires Placed(p, ms) && Placed(q, ms) && p.m == q.m
    ensures p == q
  {
    ForestUnique(p.kids, q.kids, p.m, ms);
    if p.Under? {
      PlaceUnique(p.up, q.up, ms);
      ForestUnique(p.rest, q.rest, p.up.m, ms);
    }
  }

  /** The place of entry k of a child list of `up`, with all that is left to visit after it. */
  lemma {:induction false} PlaceIn(f: Forest, up: Place, ms: set<Mount>, k: nat) returns (p: Place)
    requires Placed(up, ms) && Linked(f, up.m, ms) && k < |Preorder(f)|
    ensures Placed(p, ms) && p.m == Preorder(f)[k] && Root(p) == Root(up)
    ensures 1 + |Ahead(p)| + k == |Preorder(f)| + |Todo(up)|
    decreases f
  {
    var here := Under(up, f.root, f.kids, f.rest);
    var below := |Preorder(f.kids)|;
    if k == 0 {
      p := here;
    } else if k <= below {
      p := PlaceIn(f.kids, here, ms, k - 1);
      assert Preorder(f)[k] == Preorder(f.kids)[k - 1];
    } else {
      p := PlaceIn(f.rest, up, ms, k - 1 - below);
      assert Preorder(f)[k] == Preorder(f.rest)[k - 1 - below];
    }
  }

  lemma PlaceOf(root: Mount, kids: Forest, ms: set<Mount>, k: nat) returns (p: Place)
    requires IsTree(root, kids, ms) && k <= |Preorder(kids)|
    ensures Placed(p, ms) && p.m == ([root] + Preorder(kids))[k] && Root(p) == Top(root, kids)
    ensures |Ahead(p)| + k == |Preorder(kids)|
  {
    p := Top(root, kids);
    if k > 0 {
      p := PlaceIn(kids, p, ms, k - 1);
    }
  }

  /** In a finite mount tree the links alone force every mount to occur once. */
  lemma EachMountOnce(root: Mount, kids: Forest, ms: set<Mount>)
    requires IsTree(root, kids, ms)
    ensures Distinct([root] + Preorder(kids))
  {
    var all := [root] + Preorder(kids);
    forall i, j | 0 <= i < j < |all| ensures all[i] != all[j] {
      var p := PlaceOf(root, kids, ms, i);
      var q := PlaceOf(root, kids, ms, j);
      if all[i] == all[j] {
        PlaceUnique(p, q, ms);
      }
    }
  }

  // ----- the record list

  function Names(ms: seq<Mount>): (s: seq<string>)
    ensures |s| == |ms|
  {
    seq(|ms|, i requires 0 <= i < |ms| => ms[i].fs)
  }

  /** Each name where it occurs first. */
  function FirstSeen(s: seq<string>): seq<string> {
    if s == [] then []
    else
      var init, x := s[..|s| - 1], s[|s| - 1];
      if x in init then FirstSeen(init) else FirstSeen(init) + [x]
  }

  /** The position where a name of s occurs first. */
  ghost predicate IsFirst(s: seq<string>, i: nat) {
    i < |s| && s[i] !in s[..i]
  }

  lemma {:induction false} FirstSeenFacts(s: seq<string>)
    ensures Elements(FirstSeen(s)) == Elements(s)
    ensures Distinct(FirstSeen(s))
  {
    if s != [] {
      var init, x := s[..|s| - 1], s[|s| - 1];
      FirstSeenFacts(init);
      assert s == init + [x];
      assert x in init <==> x in Elements(init);
      assert forall y :: y in FirstSeen(init) <==> y in Elements(FirstSeen(init));
      var f := FirstSeen(init);
      if x !in init {
        InsertAtFacts(f, |f|, x);
        assert InsertAt(f, |f|, x) == f + [x];
      }
    }
  }

  /** First occurrences keep their order: i before j in s, both first, is i before j in the list. */
  lemma {:induction false} FirstSeenOrder(s: seq<string>, i: nat, j: nat) returns (a: nat, b: nat)
    requires i < j && IsFirst(s, i) && IsFirst(s, j)
    ensures a < b < |FirstSeen(s)| && FirstSeen(s)[a] == s[i] && FirstSeen(s)[b] == s[j]
  {
    var init := s[..|s| - 1];
    assert init[..i] == s[..i];
    if j < |s| - 1 {
      assert init[..j] == s[..j];
      a, b := FirstSeenOrder(init, i, j);
    } else {
      FirstSeenFacts(init);
      assert s[i] in Elements(init);
      assert s[i] in FirstSeen(init);
      a :| 0 <= a < |FirstSeen(init)| && FirstSeen(init)[a] == s[i];
      b := |FirstSeen(init)|;
    }
  }

  /** The names of the mounts whose record could be allocated; alloc(k) is the k-th kmalloc. */
  function Allocated(ms: seq<Mount>, alloc: nat -> bool): seq<string> {
    if ms == [] then []
    else
      var k := |ms| - 1;
      Allocated(ms[..k], alloc) + if alloc(k) then [ms[k].fs] else []
  }

  /** How many of the first n kmallocs are granted. */
  function Grants(alloc: nat -> bool, n: nat): nat {
    if n == 0 then 0 else Grants(alloc, n - 1) + if alloc(n - 1) then 1 else 0
  }

  /** The name of mount k, if its record was granted, stands behind as many names as were granted before. */
  lemma {:induction false} AllocatedAt(ms: seq<Mount>, alloc: nat -> bool, k: nat)
    requires k < |ms|
    ensures |Allocated(ms, alloc)| == Grants(alloc, |ms|)
    ensures alloc(k) ==> Grants(alloc, k) < Grants(alloc, |ms|) && Allocated(ms, alloc)[Grants(alloc, k)] == ms[k].fs
  {
    var n := |ms| - 1;
    if k < n {
      AllocatedAt(ms[..n], alloc, k);
    } else if n > 0 {
      AllocatedAt(ms[..n], alloc, 0);
    }
  }

  lemma {:induction false} AllAllocated(ms: seq<Mount>, alloc: nat -> bool)
    requires forall k: nat :: alloc(k)
    ensures Allocated(ms, alloc) == Names(ms)
  {
    if ms != [] {
      AllAllocated(ms[..|ms| - 1], alloc);
      assert Names(ms) == Names(ms[..|ms| - 1]) + [ms[|ms| - 1].fs];
    }
  }

  /** vfs_mount_point_compare: is there a record with the file system name of m? */
  method HasName(m: Mount, list: seq<Mount>) returns (found: bool)
    ensures found <==> m.fs in Names(list)
  {
    found := false;
    for i := 0 to |list|
      invariant !found && forall j :: 0 <= j < i ==> Names(list)[j] != m.fs
    {
      if list[i].fs == m.fs {
        assert Names(list)[i] == m.fs;
        found := true;
        break;
      }
    }
  }

  /** add_to_filesystem_record: a record whose name is there already is neither listed nor freed. */
  method AddRecord(m: Mount, list: seq<Mount>, ok: bool) returns (after: seq<Mount>, leak: nat)
    ensures after == if ok && m.fs !in Names(list) then list + [m] else list
    ensures leak == if ok && m.fs in Names(list) then 1 else 0
  {
    after, leak := list, 0;
    if ok {
      if list != [] {
        var there := HasName(m, list);
        if !there {
          after := list + [m];
        } else {
          leak := 1;
        }
      } else {
        after := list + [m];
      }
    }
  }

  // ----- the walk

  /** get_root_mount_point: from any mount of the tree up to its root. */
  method GetRoot(start: Mount, ghost root: Mount, ghost kids: Forest, ghost ms: set<Mount>)
      returns (m: Mount)
    requires IsTree(root, kids, ms) && start in [root] + Preorder(kids)
    ensures m == root
  {
    ghost var k :| 0 <= k <= |Preorder(kids)| && ([root] + Preorder(kids))[k] == start;
    ghost var p := PlaceOf(root, kids, ms, k);
    m := start;
    while m != m.parent
      invariant Placed(p, ms) && p.m == m && Root(p) == Top(root, kids)
      decreases p
    {
      m := m.parent;
      p := p.up;
    }
  }

  /** The first place on the way up that has a next sibling, or the root. */
  ghost function Landing(p: Place): Place {
    if p.Top? || p.rest.Cons? then p else Landing(p.up)
  }

  /** Nothing is skipped on the way up. */
  lemma {:induction false} LandingFacts(p: Place, ms: set<Mount>)
    requires Placed(p, ms)
    ensures Placed(Landing(p), ms) && Todo(Landing(p)) == Todo(p)
    ensures Landing(p).Top? || Landing(p).rest.Cons?
  {
    if p.Under? && p.rest.Nil? {
      LandingFacts(p.up, ms);
    }
  }

  /** The climb from a mount without children. */
  method Climb(from: Mount, ghost at: Place, ghost ms: set<Mount>) returns (m: Mount)
    requires Placed(at, ms) && at.m == from
    ensures m == Landing(at).m
  {
    m := from;
    ghost var p := at;
    while m != m.parent
      invariant Placed(p, ms) && p.m == m && Landing(p) == Landing(at)
      decreases p
    {
      var next := m.sibling;
      if next != MountsOf(m.parent) {
        break;
      }
      m := m.parent;
      p := p.up;
    }
  }

  /** The mount after `mnt`: its first child, or the next sibling met on the climb; null after the last. */
  method Advance(mnt: Mount, ghost p: Place, ghost ms: set<Mount>) returns (next: Mount?, ghost q: Place)
    requires Placed(p, ms) && p.m == mnt
    ensures next == null ==> Ahead(p) == []
    ensures next != null ==>
              && next in ms && Placed(q, ms) && q.m == next
              && Ahead(p) == [next] + Ahead(q)
  {
    q := p;
    if mnt.mounts != MountsOf(mnt) {
      next := mnt.mounts.m;
      q := Under(p, p.kids.root, p.kids.kids, p.kids.rest);
      AheadChild(p);
    } else {
      var top := Climb(mnt, p, ms);
      LandingFacts(p, ms);
      ghost var up := Landing(p);
      if top == top.parent {
        next := null;
      } else {
        next := top.sibling.m;
        q := Under(up.up, up.rest.root, up.rest.kids, up.rest.rest);
        TodoSibling(up);
      }
    }
  }

  /** The reference counts of the mounts. */
  ghost function Refs(ms: set<Mount>): map<Mount, int>
    reads ms`refs
  {
    map m | m in ms :: m.refs
  }

  /** These counts with d more on m. */
  ghost function Plus(counts: map<Mount, int>, m: Mount, d: int): map<Mount, int> {
    map k | k in counts :: counts[k] + if k == m then d else 0
  }

  /** mntget for d == 1, mntput for d == -1. */
  method AddRef(m: Mount, d: int, ghost ms: set<Mount>)
    requires m in ms
    modifies m`refs
    ensures Refs(ms) == Plus(old(Refs(ms)), m, d)
  {
    m.refs := m.refs + d;
  }

  lemma GivenBack(counts: map<Mount, int>, m: Mount)
    ensures Plus(Plus(counts, m, 1), m, -1) == counts
  {
  }

  lemma HandedOn(counts: map<Mount, int>, m: Mount, next: Mount)
    ensures Plus(Plus(Plus(counts, m, 1), next, 1), m, -1) == Plus(counts, next, 1)
  {
  }

  /**
   iterate_mount_point.  Every mount is visited once, in preorder; the record list holds each
   file system name where it was first allocated.  While a mount is visited there is one more
   reference on it and none on any other; all references are given back.
   */
  method Iterate(start: Mount, alloc: nat -> bool, ghost root: Mount, ghost kids: Forest, ghost ms: set<Mount>)
      returns (visited: seq<Mount>, list: seq<Mount>, leaked: nat, ghost counts: seq<map<Mount, int>>)
    requires IsTree(root, kids, ms) && start in [root] + Preorder(kids)
    modifies ms`refs
    ensures visited == [root] + Preorder(kids) && Distinct(visited)
    ensures Names(list) == FirstSeen(Allocated(visited, alloc))
    ensures leaked + |list| == |Allocated(visited, alloc)|
    ensures |counts| == |visited|
    ensures forall k :: 0 <= k < |visited| ==> counts[k] == Plus(old(Refs(ms)), visited[k], 1)
    ensures Refs(ms) == old(Refs(ms))
  {
    hide Linked, Placed, FirstSeen, Allocated, Names, Distinct, Preorder, Ahead, Todo, Refs, Plus;
    EachMountOnce(root, kids, ms);
    visited, list, leaked, counts := [], [], 0, [];
    var mnt := GetRoot(start, root, kids, ms);
    AddRef(mnt, 1, ms);
    ghost var all := [root] + Preorder(kids);
    ghost var p := Top(root, kids);
    AtStart(root, kids, ms, alloc);
    while true
      invariant mnt in ms && Placed(p, ms) && p.m == mnt
      invariant all == visited + ([mnt] + Ahead(p))
      invariant Names(list) == FirstSeen(Allocated(visited, alloc))
      invariant leaked + |list| == |Allocated(visited, alloc)|
      invariant Refs(ms) == Plus(old(Refs(ms)), mnt, 1)
      invariant |counts| == |visited|
      invariant forall k :: 0 <= k < |visited| ==> counts[k] == Plus(old(Refs(ms)), visited[k], 1)
      decreases |all| - |visited|
    {
      var leak;
      Recorded(visited, list, mnt, alloc);
      list, leak := AddRecord(mnt, list, alloc(|visited|));
      assert all == (visited + [mnt]) + Ahead(p);
      visited, leaked := visited + [mnt], leaked + leak;
      counts := counts + [Refs(ms)];
      var mntNext, q := Advance(mnt, p, ms);
      if mntNext == null {
        AddRef(mnt, -1, ms);
        GivenBack(old(Refs(ms)), mnt);
        break;
      }
      AddRef(mntNext, 1, ms);
      AddRef(mnt, -1, ms);
      HandedOn(old(Refs(ms)), mnt, mntNext);
      mnt, p := mntNext, q;
    }
  }

  lemma AtStart(root: Mount, kids: Forest, ms: set<Mount>, alloc: nat -> bool)
    requires IsTree(root, kids, ms)
    ensures Placed(Top(root, kids), ms) && Ahead(Top(root, kids)) == Preorder(kids)
    ensures Allocated([], alloc) == [] && Names([]) == FirstSeen([])
  {
  }

  /** One more mount on the record list. */
  lemma Recorded(visited: seq<Mount>, list: seq<Mount>, m: Mount, alloc: nat -> bool)
    requires Names(list) == FirstSeen(Allocated(visited, alloc))
    ensures var ok := alloc(|visited|);
            var after := if ok && m.fs !in Names(list) then list + [m] else list;
            && Names(after) == FirstSeen(Allocated(visited + [m], alloc))
            && |Allocated(visited + [m], alloc)| == |Allocated(visited, alloc)| + if ok then 1 else 0
  {
    var s := Allocated(visited, alloc);
    FirstSeenFacts(s);
    assert m.fs in Names(list) <==> m.fs in Elements(FirstSeen(s));
    assert m.fs in s <==> m.fs in Elements(s);
    assert (visited + [m])[..|visited|] == visited;
    if alloc(|visited|) {
      assert Allocated(visited + [m], alloc) == s + [m.fs];
      assert (s + [m.fs])[..|s|] == s;
      assert Names(list + [m]) == Names(list) + [m.fs];
    } else {
      assert s + [] == s;
    }
  }
}
