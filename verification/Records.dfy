/**
 The records of the scan cache and the comparators of cache.c.

 Field widths are the kernel's on a 64-bit machine: dev_t and the inode generation
 are 32-bit unsigned, inode numbers 64-bit unsigned.  A comparator subtracts in the
 width of the field and only then widens to int64_t.
 */
module Records {
  import opened Wrappers
  import opened Seqs
  import opened SearchTree
  import opened TreeShapes

  type Word32 = x: int | 0 <= x < 0x1_0000_0000
  type Word64 = x: int | 0 <= x < 0x1_0000_0000_0000_0000
  /** A clock reading is a normalised time after the epoch. */
  type Seconds = x: int | 0 <= x < 0x8000_0000_0000_0000
  type Nanos = x: int | 0 <= x < 1_000_000_000

  datatype Key = Key(dev: Word32, ino: Word64)
  datatype Stamp = Stamp(sec: Seconds, nsec: Nanos)
  datatype Entry = Entry(key: Key, gen: Word32, stamp: Stamp)
  /** A slab object: a scan_cache_record or an lru_cache_record, by the address it lives at. */
  datatype Record = Record(addr: nat, entry: Entry)
  /** struct fileInfo, and the search key scan_cache_record_compare. */
  datatype FileInfo = FileInfo(key: Key, gen: Word32)

  // ----- C arithmetic

  /** Unsigned 32-bit subtraction, widened afterwards: never negative. */
  function Sub32(a: Word32, b: Word32): int {
    if a >= b then a - b else a - b + 0x1_0000_0000
  }

  /** Unsigned 64-bit subtraction. */
  function Sub64(a: Word64, b: Word64): Word64 {
    if a >= b then a - b else a - b + 0x1_0000_0000_0000_0000
  }

  /** Reading a 64-bit word as int64_t. */
  function AsInt64(w: Word64): int {
    if w < 0x8000_0000_0000_0000 then w else w - 0x1_0000_0000_0000_0000
  }

  /** One `difference > 0`, `difference < 0`, fall-through level of a comparator. */
  function Level(difference: int, next: int): int {
    if difference > 0 then 1 else if difference < 0 then -1 else next
  }

  // ----- the comparators

  function KeyCompare(a: Key, b: Key): int {
    Level(Sub32(a.dev, b.dev), Level(AsInt64(Sub64(a.ino, b.ino)), 0))
  }

  /** scan_cache_insert_compare_table. */
  function ScanInsertCompare(a: Record, b: Record): int {
    KeyCompare(a.entry.key, b.entry.key)
  }

  /** scan_cache_find_compare_table. */
  function ScanFindCompare(f: FileInfo, b: Record): int {
    Level(Sub32(f.key.dev, b.entry.key.dev),
          Level(AsInt64(Sub64(f.key.ino, b.entry.key.ino)),
                Level(Sub32(f.gen, b.entry.gen), 0)))
  }

  function StampCompare(a: Stamp, b: Stamp): int {
    Level(a.sec - b.sec, Level(a.nsec - b.nsec, 0))
  }

  /** lru_cache_insert_compare_table. */
  function LruInsertCompare(a: Record, b: Record): int {
    StampCompare(a.entry.stamp, b.entry.stamp)
  }

  /** The time a stamp stands for, in nanoseconds after the epoch. */
  function Nanoseconds(s: Stamp): nat {
    s.sec * 1_000_000_000 + s.nsec
  }

  predicate Older(a: Stamp, b: Stamp) {
    Nanoseconds(a) < Nanoseconds(b)
  }

  // The comparators with their first argument fixed, as the tree macros use them.

  function ToKey(k: Key): Record -> int {
    (r: Record) => KeyCompare(k, r.entry.key)
  }

  function ToFile(f: FileInfo): Record -> int {
    (r: Record) => ScanFindCompare(f, r)
  }

  function ToStamp(s: Stamp): Record -> int {
    (r: Record) => StampCompare(s, r.entry.stamp)
  }

  // ----- when the fixed-width key comparator is an order

  /** The order the comparator is meant to be: by device, then by inode number. */
  function Lexicographic(a: Key, b: Key): int {
    Level(a.dev - b.dev, Level(a.ino - b.ino, 0))
  }

  ghost predicate Antisymmetric(a: Key, b: Key) {
    (KeyCompare(a, b) < 0 <==> KeyCompare(b, a) > 0) &&
    (KeyCompare(a, b) > 0 <==> KeyCompare(b, a) < 0)
  }

  /** The comparator is a strict total order on the keys of ks. */
  ghost predicate OrderOn(ks: set<Key>) {
    && (forall a, b :: a in ks && b in ks ==> Antisymmetric(a, b))
    && (forall a, b, c | a in ks && b in ks && c in ks ::
          KeyCompare(a, b) < 0 && KeyCompare(b, c) < 0 ==> KeyCompare(a, c) < 0)
  }

  /** Going up from `base`, modulo 2^64, every key is met before half a turn is done. */
  ghost predicate HalfTurnFrom(ks: set<Key>, base: Key) {
    forall k :: k in ks ==> k.dev == base.dev && Sub64(k.ino, base.ino) < 0x8000_0000_0000_0000
  }

  lemma CompareZero(a: Key, b: Key)
    ensures KeyCompare(a, b) == 0 <==> a == b
  {
  }

  /**
   What the fixed widths make of a comparison: another device is always greater, and on one device
   the sign is that of the inode difference modulo 2^64, where from half a turn on it is negative.
   */
  lemma KeyCompareMeaning(a: Key, b: Key)
    ensures var d := (a.ino - b.ino) % 0x1_0000_0000_0000_0000;
            KeyCompare(a, b) ==
            if a.dev != b.dev then 1
            else if d == 0 then 0
            else if d < 0x8000_0000_0000_0000 then 1
            else -1
  {
  }

  /** The three-field comparison: the generation only decides between equal keys, and then says greater. */
  lemma FindCompareMeaning(f: FileInfo, r: Record)
    ensures ScanFindCompare(f, r) ==
            if f.key != r.entry.key then KeyCompare(f.key, r.entry.key)
            else if f.gen == r.entry.gen then 0
            else 1
  {
  }

  /** Two keys are told apart consistently exactly on one device, and not half a turn apart. */
  lemma AntisymmetricIff(a: Key, b: Key)
    ensures Antisymmetric(a, b) <==>
            a.dev == b.dev && Sub64(a.ino, b.ino) != 0x8000_0000_0000_0000
  {
  }

  /** The smallest key of a non-empty ordered set. */
  lemma {:induction false} LeastKey(ks: set<Key>) returns (base: Key)
    requires ks != {} && OrderOn(ks)
    ensures base in ks && forall k :: k in ks && k != base ==> KeyCompare(base, k) < 0
  {
    var x :| x in ks;
    var rest := ks - {x};
    if rest == {} {
      base := x;
      assert forall k :: k in ks ==> k == x || k in rest;
    } else {
      assert forall k :: k in rest ==> k in ks;
      var b := LeastKey(rest);
      CompareZero(x, b);
      assert Antisymmetric(x, b);
      base := if KeyCompare(x, b) < 0 then x else b;
      forall k | k in ks && k != base ensures KeyCompare(base, k) < 0 {
        assert k == x || k == b || KeyCompare(b, k) < 0;
      }
    }
  }

  lemma HalfTurnOrders(ks: set<Key>, base: Key)
    requires HalfTurnFrom(ks, base)
    ensures OrderOn(ks)
    ensures forall a, b :: a in ks && b in ks ==>
      KeyCompare(a, b) == Level(Sub64(a.ino, base.ino) - Sub64(b.ino, base.ino), 0)
  {
  }

  /** The exact domain of the comparator: one device, inode numbers within half a turn. */
  lemma OrderOnIff(ks: set<Key>)
    ensures OrderOn(ks) <==> ks == {} || exists base :: base in ks && HalfTurnFrom(ks, base)
  {
    if ks != {} && OrderOn(ks) {
      var base := LeastKey(ks);
      forall k | k in ks ensures k.dev == base.dev && Sub64(k.ino, base.ino) < 0x8000_0000_0000_0000 {
        AntisymmetricIff(k, base);
      }
      assert HalfTurnFrom(ks, base);
    }
    if base :| base in ks && HalfTurnFrom(ks, base) {
      HalfTurnOrders(ks, base);
    }
  }

  /** The comparator is the meant order exactly on one device with inode numbers less than 2^63 apart. */
  lemma LexicographicIff(ks: set<Key>)
    ensures (forall a, b :: a in ks && b in ks ==> KeyCompare(a, b) == Lexicographic(a, b)) <==>
            (forall a, b :: a in ks && b in ks ==>
               a.dev == b.dev && -0x8000_0000_0000_0000 < a.ino - b.ino < 0x8000_0000_0000_0000)
  {
  }

  /** Time stamps are compared as times, with no exception: no clock difference overflows. */
  lemma StampOrder(a: Stamp, b: Stamp, c: Stamp)
    ensures StampCompare(a, b) < 0 <==> Nanoseconds(a) < Nanoseconds(b)
    ensures StampCompare(a, b) > 0 <==> Nanoseconds(a) > Nanoseconds(b)
    ensures StampCompare(a, b) == 0 <==> a == b
    ensures StampCompare(a, b) == -StampCompare(b, a)
    ensures Older(a, b) <==> a.sec < b.sec || (a.sec == b.sec && a.nsec < b.nsec)
    ensures Older(a, b) && Older(b, c) ==> Older(a, c)
    ensures -0x8000_0000_0000_0000 < a.sec - b.sec < 0x8000_0000_0000_0000
  {
  }

  // ----- searching and inserting in the two trees

  ghost predicate ScanSorted(t: Tree<Record>) { SortedBy(Inorder(t), ScanInsertCompare) }

  ghost predicate LruSorted(t: Tree<Record>) { SortedBy(Inorder(t), LruInsertCompare) }

  /** Keys of a sorted tree are told apart by the comparator, so they are unique. */
  lemma SortedKeysUnique(t: Tree<Record>, a: Record, b: Record)
    requires ScanSorted(t)
    requires a in Items(t) && b in Items(t) && a.entry.key == b.entry.key
    ensures a == b
  {
  }

  /** Two-field search of the scan tree: exact for every shape. */
  lemma KeySearch(t: Tree<Record>, k: Key)
    ensures Find(t, ToKey(k)).Some? ==>
              Find(t, ToKey(k)).value in Items(t) && Find(t, ToKey(k)).value.entry.key == k
    ensures ScanSorted(t) ==>
              forall r :: r in Items(t) && r.entry.key == k ==> Find(t, ToKey(k)) == Some(r)
  {
    FindSound(t, ToKey(k));
    if ScanSorted(t) {
      forall r | r in Items(t) && r.entry.key == k ensures Find(t, ToKey(k)) == Some(r) {
        SortedSearch(t, r, ToKey(k), ScanInsertCompare);
      }
    }
  }

  /**
   Three-field search of a tree sorted on two fields: it returns the record exactly when the
   whole triple is present, since another generation of the key is nowhere below the record met.
   */
  lemma FileSearch(t: Tree<Record>, f: FileInfo)
    ensures Find(t, ToFile(f)).Some? ==>
              var r := Find(t, ToFile(f)).value;
              r in Items(t) && r.entry.key == f.key && r.entry.gen == f.gen
    ensures ScanSorted(t) ==>
              forall r :: r in Items(t) && r.entry.key == f.key && r.entry.gen == f.gen ==>
                Find(t, ToFile(f)) == Some(r)
  {
    FindSound(t, ToFile(f));
    if ScanSorted(t) {
      forall r | r in Items(t) && r.entry.key == f.key && r.entry.gen == f.gen
        ensures Find(t, ToFile(f)) == Some(r)
      {
        forall y | y in Inorder(t) && y != r ensures ToFile(f)(y) == ScanInsertCompare(r, y) {
          if y.entry.key == r.entry.key {
            SortedKeysUnique(t, y, r);
          }
        }
        SortedSearch(t, r, ToFile(f), ScanInsertCompare);
      }
    }
  }

  /**
   Three-field search of any tree, sorted or not: where it meets its key with another generation it
   goes on in the right subtree only, so a record of the file on the left is missed.
   */
  lemma OtherGenerationTurnsRight(t: Tree<Record>, f: FileInfo)
    requires t.Node? && t.item.entry.key == f.key && t.item.entry.gen != f.gen
    ensures Find(t, ToFile(f)) == Find(t.right, ToFile(f))
    ensures (forall r :: r in Items(t.right) && r.entry.key == f.key ==> r.entry.gen != f.gen) ==>
              Find(t, ToFile(f)).None?
  {
    FindCompareMeaning(f, t.item);
    FindSound(t.right, ToFile(f));
  }

  /** Some LRU record has this time stamp. */
  ghost predicate Clash(lru: set<Record>, s: Stamp) {
    exists l :: l in lru && l.entry.stamp == s
  }

  /** Search of the LRU tree by time stamp. */
  lemma StampSearch(t: Tree<Record>, s: Stamp)
    requires LruSorted(t)
    ensures Find(t, ToStamp(s)).Some? <==> Clash(Items(t), s)
    ensures Find(t, ToStamp(s)).Some? ==>
              Find(t, ToStamp(s)).value in Items(t) && Find(t, ToStamp(s)).value.entry.stamp == s
    ensures forall r :: r in Items(t) && r.entry.stamp == s ==> Find(t, ToStamp(s)) == Some(r)
  {
    FindSound(t, ToStamp(s));
    forall r | r in Items(t) && r.entry.stamp == s ensures Find(t, ToStamp(s)) == Some(r) {
      SortedSearch(t, r, ToStamp(s), LruInsertCompare);
    }
  }

  ghost function Keys(rs: set<Record>): set<Key> {
    set r | r in rs :: r.entry.key
  }

  /** Inserting a new key keeps the scan tree sorted when the comparator orders all keys in use. */
  lemma ScanLinkSorted(t: Tree<Record>, x: Record)
    requires ScanSorted(t)
    requires Find(t, ToKey(x.entry.key)).None?
    requires OrderOn(Keys(Items(t)) + {x.entry.key})
    ensures SortedBy(Inorder(Link(t, x, ToKey(x.entry.key))), ScanInsertCompare)
  {
    var s := Inorder(t);
    var ks := Keys(Items(t)) + {x.entry.key};
    KeySearch(t, x.entry.key);
    forall i | 0 <= i < |s|
      ensures s[i].entry.key in ks && s[i].entry.key != x.entry.key && Antisymmetric(x.entry.key, s[i].entry.key)
    {
      assert s[i] in Items(t);
      CompareZero(x.entry.key, s[i].entry.key);
    }
    forall i | 0 <= i < |s|
      ensures ScanInsertCompare(x, s[i]) < 0 < ScanInsertCompare(s[i], x) ||
              ScanInsertCompare(s[i], x) < 0 < ScanInsertCompare(x, s[i])
    {
      CompareZero(x.entry.key, s[i].entry.key);
    }
    forall i, j | 0 <= i < j < |s| && ScanInsertCompare(x, s[i]) < 0
      ensures ScanInsertCompare(x, s[j]) < 0
    {
      assert KeyCompare(s[i].entry.key, s[j].entry.key) == ScanInsertCompare(s[i], s[j]) < 0;
    }
    LinkSorted(t, x, ToKey(x.entry.key), ScanInsertCompare);
  }

  /** A new time stamp keeps the LRU tree sorted. */
  lemma LruLinkSorted(t: Tree<Record>, x: Record)
    requires LruSorted(t)
    requires Find(t, ToStamp(x.entry.stamp)).None?
    ensures SortedBy(Inorder(Link(t, x, ToStamp(x.entry.stamp))), LruInsertCompare)
  {
    var s := Inorder(t);
    StampSearch(t, x.entry.stamp);
    forall i | 0 <= i < |s| ensures s[i].entry.stamp != x.entry.stamp {
      assert s[i] in Items(t);
    }
    forall i, j | 0 <= i < j < |s| && LruInsertCompare(x, s[i]) < 0
      ensures LruInsertCompare(x, s[j]) < 0
    {
      StampOrder(x.entry.stamp, s[i].entry.stamp, s[j].entry.stamp);
      assert LruInsertCompare(s[i], s[j]) < 0;
    }
    LinkSorted(t, x, ToStamp(x.entry.stamp), LruInsertCompare);
  }

  // ----- findable under every rebalancing

  /** A sorted tree shows that the comparator orders its keys. */
  lemma SortedIsOrder(t: Tree<Record>)
    requires ScanSorted(t)
    ensures OrderOn(Keys(Items(t)))
  {
    var s := Inorder(t);
    forall a, b | a in Keys(Items(t)) && b in Keys(Items(t)) ensures Antisymmetric(a, b) {
      var i := PositionOf(t, a);
      var j := PositionOf(t, b);
      assert i < j ==> ScanInsertCompare(s[i], s[j]) < 0 < ScanInsertCompare(s[j], s[i]);
      assert j < i ==> ScanInsertCompare(s[j], s[i]) < 0 < ScanInsertCompare(s[i], s[j]);
    }
    forall a, b, c | a in Keys(Items(t)) && b in Keys(Items(t)) && c in Keys(Items(t)) &&
                     KeyCompare(a, b) < 0 && KeyCompare(b, c) < 0
      ensures KeyCompare(a, c) < 0
    {
      var i := PositionOf(t, a);
      var j := PositionOf(t, b);
      var k := PositionOf(t, c);
      assert ScanInsertCompare(s[i], s[j]) < 0 && ScanInsertCompare(s[j], s[k]) < 0;
      assert i < j < k;
    }
  }

  lemma PositionOf(t: Tree<Record>, k: Key) returns (i: nat)
    requires k in Keys(Items(t))
    ensures i < |Inorder(t)| && Inorder(t)[i].entry.key == k
  {
    var r :| r in Items(t) && r.entry.key == k;
    i :| 0 <= i < |Inorder(t)| && Inorder(t)[i] == r;
  }

  /** Every record of the tree is found by its key, however the tree is rebalanced. */
  ghost predicate AlwaysFindable(t: Tree<Record>) {
    forall fix, r :: r in Items(t) ==> Find(Rebalance(t, fix), ToKey(r.entry.key)) == Some(r)
  }

  /** With item k at the root, being found means being on the right side of it. */
  lemma FoundAroundRoot(t: Tree<Record>, k: nat, i: nat)
    requires Distinct(Inorder(t)) && AlwaysFindable(t)
    requires i < |Inorder(t)| && k < |Inorder(t)| && i != k
    ensures var d := ScanInsertCompare(Inorder(t)[i], Inorder(t)[k]);
            if i < k then d < 0 else d > 0
  {
    var s := Inorder(t);
    var fix, l, r := AnyRoot(t, k);
    var dir := ToKey(s[i].entry.key);
    assert s[i] in Items(t);
    assert Find(Node(l, s[k], r), dir) == Some(s[i]);
    FindSound(l, dir);
    FindSound(r, dir);
    assert i < k ==> s[i] !in s[k + 1..];
    assert i > k ==> s[i] !in s[..k];
  }

  /**
   The exact condition for a search tree that no rebalancing can break: all records stay findable
   if and only if the comparator sorts the tree, which then orders all its keys.
   */
  lemma FindableIff(t: Tree<Record>)
    requires Distinct(Inorder(t))
    ensures AlwaysFindable(t) <==> ScanSorted(t)
  {
    var s := Inorder(t);
    if AlwaysFindable(t) {
      forall i, j | 0 <= i < j < |s| ensures ScanInsertCompare(s[i], s[j]) < 0 < ScanInsertCompare(s[j], s[i]) {
        FoundAroundRoot(t, j, i);
        FoundAroundRoot(t, i, j);
      }
    }
    if ScanSorted(t) {
      forall fix, r | r in Items(t) ensures Find(Rebalance(t, fix), ToKey(r.entry.key)) == Some(r) {
        KeySearch(Rebalance(t, fix), r.entry.key);
      }
    }
  }

  /** A record linked where its key was not found is what a search for its file returns. */
  lemma {:induction false} LinkedIsFound(t: Tree<Record>, x: Record)
    requires Find(t, ToKey(x.entry.key)).None?
    ensures Find(Link(t, x, ToKey(x.entry.key)), ToFile(FileInfo(x.entry.key, x.entry.gen))) == Some(x)
  {
    if t.Node? {
      LinkedIsFound(if KeyCompare(x.entry.key, t.item.entry.key) < 0 then t.left else t.right, x);
    }
  }
}
