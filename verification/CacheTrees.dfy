/**
 The operations of cache.c as functions on the two trees.  Allocation outcomes, clock readings and
 the rotations of every rebalancing are inputs, so each run of the cache is one of these.
 */
module CacheTrees {
  import opened Wrappers
  import opened Seqs
  import opened SearchTree
  import opened Records
  import opened CacheModel

  ghost function Addrs(rs: set<Record>): set<nat> {
    set r | r in rs :: r.addr
  }

  ghost predicate AddrDistinct(rs: set<Record>) {
    forall a, b :: a in rs && b in rs && a.addr == b.addr ==> a == b
  }

  /** The records of one tree after an insert: one gone, and the new one in if it went well. */
  ghost function After(rs: set<Record>, gone: Option<Record>, x: Record, ok: bool): set<Record> {
    if ok then Without(rs, gone) + {x} else Without(rs, gone)
  }

  /** The record made from an allocation; its address only matters if there was one. */
  ghost function Made(mem: Option<nat>, e: Entry): Record {
    Record(if mem.Some? then mem.value else 0, e)
  }

  lemma SortedScanDistinct(t: Tree<Record>)
    requires ScanSorted(t)
    ensures KeyDistinct(Items(t))
  {
  }

  /** The first record of a sorted LRU tree is its oldest. */
  lemma FirstIsOldest(t: Tree<Record>)
    requires LruSorted(t) && t.Node?
    ensures forall r :: r in Items(t) ==> !Older(r.entry.stamp, Inorder(t)[0].entry.stamp)
  {
    forall r | r in Items(t) ensures !Older(r.entry.stamp, Inorder(t)[0].entry.stamp) {
      StampOrder(r.entry.stamp, Inorder(t)[0].entry.stamp, r.entry.stamp);
    }
  }

  lemma NoItems(t: Tree<Record>)
    requires t.Leaf?
    ensures Items(t) == {}
  {
  }

  lemma FirstInItems(t: Tree<Record>)
    requires t.Node?
    ensures |Inorder(t)| > 0 && Inorder(t)[0] in Items(t)
  {
  }

  lemma NothingLeft(t: Tree<Record>)
    requires Paired(Items(t), {}) && KeyDistinct(Items(t))
    ensures ModelOf(Items(t)) == map[]
  {
    assert forall r :: r in Items(t) ==> r.entry in Entries(Items(t));
    assert Entries({}) == {};
  }

  lemma {:induction false} SameSize(rs: set<Record>)
    requires AddrDistinct(rs)
    ensures |Addrs(rs)| == |rs|
  {
    if r :| r in rs {
      SameSize(rs - {r});
      assert Addrs(rs) == Addrs(rs - {r}) + {r.addr};
    } else {
      assert Addrs(rs) == {};
    }
  }

  // ----- one tree and the slab its records come from

  /** The allocated addresses are the nodes of the tree plus `spare` records in no tree. */
  ghost predicate Slab(t: Tree<Record>, live: set<nat>, spare: set<nat>) {
    && Distinct(Inorder(t)) && AddrDistinct(Items(t))
    && live == Addrs(Items(t)) + spare && Addrs(Items(t)) !! spare
  }

  lemma SlabAlloc(t: Tree<Record>, live: set<nat>, spare: set<nat>, a: nat)
    requires Slab(t, live, spare) && a !in live
    ensures Slab(t, live + {a}, spare + {a}) && a !in spare
  {
  }

  /** Freeing a spare record: it is still allocated. */
  lemma SlabFree(t: Tree<Record>, live: set<nat>, a: nat)
    requires Slab(t, live, {a})
    ensures a in live && Slab(t, live - {a}, {})
  {
  }

  lemma SlabLink(t: Tree<Record>, live: set<nat>, spare: set<nat>, x: Record, dir: Record -> int, u: Tree<Record>)
    requires Slab(t, live, spare) && x.addr !in live
    requires Inorder(u) == Inorder(Link(t, x, dir))
    ensures x !in Items(t) && Items(u) == Items(t) + {x}
    ensures Slab(u, live + {x.addr}, spare)
  {
    LinkFacts(t, x, dir);
    assert Addrs(Items(u)) == Addrs(Items(t)) + {x.addr};
  }

  /** RB_INSERT into the LRU tree. */
  lemma SlabLinkLru(t: Tree<Record>, live: set<nat>, spare: set<nat>, x: Record, u: Tree<Record>)
    requires Slab(t, live, spare) && x.addr !in live && LruSorted(t)
    requires Find(t, ToStamp(x.entry.stamp)).None?
    requires Inorder(u) == Inorder(Link(t, x, ToStamp(x.entry.stamp)))
    ensures Items(u) == Items(t) + {x} && Slab(u, live + {x.addr}, spare) && LruSorted(u)
  {
    SlabLink(t, live, spare, x, ToStamp(x.entry.stamp), u);
    LruLinkSorted(t, x);
  }

  /** insert_lru_cache_record after its allocation, both outcomes of RB_INSERT. */
  lemma LruInserted(t: Tree<Record>, live: set<nat>, spare: set<nat>, x: Record, u: Tree<Record>, ret: int)
    requires Slab(t, live, spare) && x.addr !in live && LruSorted(t)
    requires ret == if Find(t, ToStamp(x.entry.stamp)).Some? then -1 else 0
    requires ret == -1 ==> u == t
    requires ret == 0 ==> Inorder(u) == Inorder(Link(t, x, ToStamp(x.entry.stamp)))
    ensures ret == -1 <==> Clash(Items(t), x.entry.stamp)
    ensures LruSorted(u)
    ensures ret == 0 ==> Items(u) == Items(t) + {x} && Slab(u, live + {x.addr}, spare)
    ensures ret == -1 ==> Slab(u, live + {x.addr}, spare + {x.addr}) && |spare + {x.addr}| == |spare| + 1
  {
    hide Slab, LruSorted, Items, Inorder, Link, Find, Clash;
    StampSearch(t, x.entry.stamp);
    if ret == 0 {
      SlabLinkLru(t, live, spare, x, u);
    } else {
      SlabAlloc(t, live, spare, x.addr);
    }
  }

  /** RB_INSERT into the scan tree. */
  lemma SlabLinkScan(t: Tree<Record>, live: set<nat>, x: Record, u: Tree<Record>)
    requires Slab(t, live, {}) && x.addr !in live
    requires Find(t, ToKey(x.entry.key)).None?
    requires Inorder(u) == Inorder(Link(t, x, ToKey(x.entry.key)))
    ensures x !in Items(t) && Items(u) == Items(t) + {x} && Slab(u, live + {x.addr}, {})
    ensures ScanSorted(t) && OrderOn(Keys(Items(t)) + {x.entry.key}) ==> ScanSorted(u)
  {
    SlabLink(t, live, {}, x, ToKey(x.entry.key), u);
    if ScanSorted(t) && OrderOn(Keys(Items(t)) + {x.entry.key}) {
      ScanLinkSorted(t, x);
    }
  }

  lemma SlabErase(t: Tree<Record>, live: set<nat>, spare: set<nat>, r: Record, u: Tree<Record>)
    requires Slab(t, live, spare) && r in Items(t)
    requires Inorder(u) == Inorder(Unlink(t, r))
    ensures r.addr in live && Slab(u, live - {r.addr}, spare)
    ensures Items(u) == Items(t) - {r}
    ensures ScanSorted(t) ==> ScanSorted(u)
    ensures LruSorted(t) ==> LruSorted(u)
  {
    UnlinkFacts(t, r, ScanInsertCompare);
    UnlinkFacts(t, r, LruInsertCompare);
    assert Addrs(Items(u)) == Addrs(Items(t)) - {r.addr};
  }

  /** RB_REPLACE by a record of the same key: the old record becomes the spare one. */
  lemma SlabReplace(t: Tree<Record>, live: set<nat>, o: Record, x: Record)
    requires Slab(t, live, {x.addr}) && o in Items(t) && x.entry.key == o.entry.key
    ensures Slab(Replace(t, o, x), live, {o.addr})
    ensures Items(Replace(t, o, x)) == Items(t) - {o} + {x} && x !in Items(t)
    ensures ScanSorted(t) ==> ScanSorted(Replace(t, o, x))
  {
    assert x !in Items(t) && o.addr != x.addr by {
      assert forall r :: r in Items(t) ==> r.addr in Addrs(Items(t));
    }
    ReplaceFacts(t, o, x, ScanInsertCompare);
    ReplaceAddrs(Items(t), o, x);
  }

  lemma ReplaceAddrs(rs: set<Record>, o: Record, x: Record)
    requires AddrDistinct(rs) && o in rs && x.addr !in Addrs(rs)
    ensures AddrDistinct(rs - {o} + {x}) && Addrs(rs - {o} + {x}) == Addrs(rs) - {o.addr} + {x.addr}
  {
  }

  // ----- what an insert that got its scan record has done

  /** Everything `InsertScan` promises about the two sets of records it leaves behind. */
  lemma InsertDone(t: Tree<Record>, lru: set<Record>, hit: Option<Record>, partner: Option<Record>,
                   x: Record, l: Record, lruOk: bool, ok: bool)
    requires x.entry == l.entry
    requires hit == Find(t, ToKey(x.entry.key)) && Replaces(Items(t), lru, x.entry.key, hit, partner)
    requires ok == ((hit.Some? ==> partner.Some?) && lruOk && !Clash(Without(lru, partner), x.entry.stamp))
    ensures var scan' := After(Items(t), hit, x, ok);
            var lru' := After(lru, partner, l, ok);
            && (Covered(Items(t), lru) ==> Covered(scan', lru') && (hit.Some? <==> partner.Some?))
            && (Paired(Items(t), lru) ==> Paired(scan', lru'))
            && (ok ==> x.entry in Entries(scan') && x.entry in Entries(lru'))
            && Keys(scan') <= Keys(Items(t)) + {x.entry.key}
            && (ScanSorted(t) && Paired(Items(t), lru) ==>
                  KeyDistinct(Items(t)) && KeyDistinct(scan') &&
                  Bind(ModelOf(Items(t)), x.entry, true, lruOk) == (ModelOf(scan'), if ok then 0 else -1))
  {
    var scan := Items(t);
    var scan', lru' := After(scan, hit, x, ok), After(lru, partner, l, ok);
    assert ok ==> x in scan' && l in lru';
    if Covered(scan, lru) {
      PartnerFound(scan, lru, x.entry.key, hit, partner);
      InsertKeeps(scan, lru, hit, partner, x, l);
    }
    if ScanSorted(t) && Paired(scan, lru) {
      SortedScanDistinct(t);
      KeySearch(t, x.entry.key);
      InsertRefines(scan, lru, hit, partner, x, lruOk);
    }
  }

  /** A search for the whole triple that comes back with `found`, and the removals that follow. */
  lemma TakeDone(t: Tree<Record>, lru: set<Record>, f: FileInfo, found: Option<Record>, gone: Option<Record>)
    requires found == Find(t, ToFile(f))
    requires found.None? ==> gone.None?
    requires found.Some? ==> gone.Some? == Clash(lru, found.value.entry.stamp)
    requires gone.Some? ==> gone.value in lru && gone.value.entry.stamp == found.value.entry.stamp
    ensures found.Some? ==> found.value in Items(t)
    ensures var scan' := Without(Items(t), found);
            var lru' := Without(lru, gone);
            && (Covered(Items(t), lru) ==> Covered(scan', lru'))
            && (Paired(Items(t), lru) ==> Paired(scan', lru'))
            && (ScanSorted(t) ==>
                  KeyDistinct(Items(t)) && KeyDistinct(scan') &&
                  ModelOf(scan') == Take(ModelOf(Items(t)), f) &&
                  (found.Some? <==> Holds(ModelOf(Items(t)), f)))
  {
    hide ModelOf, KeyDistinct, Items, ScanSorted, Holds, Take;
    TakeRefines(t, f);
    var scan := Items(t);
    if found.Some? && Covered(scan, lru) {
      assert found.value.entry in Entries(scan);
      DropBoth(scan, lru, found.value, gone.value);
    }
  }

  lemma TakeRefines(t: Tree<Record>, f: FileInfo)
    ensures var found := Find(t, ToFile(f));
            && (found.Some? ==> found.value in Items(t))
            && (ScanSorted(t) ==>
                  KeyDistinct(Items(t)) && KeyDistinct(Without(Items(t), found)) &&
                  ModelOf(Without(Items(t), found)) == Take(ModelOf(Items(t)), f) &&
                  (found.Some? <==> Holds(ModelOf(Items(t)), f)))
  {
    FileSearch(t, f);
    if ScanSorted(t) {
      SortedScanDistinct(t);
      if Find(t, ToFile(f)).Some? {
        ModelDrop(Items(t), Find(t, ToFile(f)).value);
      }
    }
  }

  /** One round of eviction: l is the first LRU record, r the scan record its triple leads to. */
  lemma EvictDone(t: Tree<Record>, lru: Tree<Record>, l: Record, found: Option<Record>)
    requires ScanSorted(t) && LruSorted(lru)
    requires lru.Node? && l == Inorder(lru)[0]
    requires found == Find(t, ToFile(FileInfo(l.entry.key, l.entry.gen)))
    ensures KeyDistinct(Items(t))
    ensures found.Some? ==>
              var scan', lru' := Items(t) - {found.value}, Items(lru) - {l};
              && KeyDistinct(scan')
              && (Covered(Items(t), Items(lru)) ==> Covered(scan', lru'))
              && (Paired(Items(t), Items(lru)) ==>
                    Paired(scan', lru') && ModelOf(Items(t)) != map[] &&
                    ModelOf(scan') == ModelOf(Items(t)) - {Oldest(ModelOf(Items(t)))})
    ensures Paired(Items(t), Items(lru)) ==> found.Some?
  {
    SortedScanDistinct(t);
    var f := FileInfo(l.entry.key, l.entry.gen);
    FileSearch(t, f);
    assert l in Items(lru);
    if found.Some? && Covered(Items(t), Items(lru)) {
      DropStale(Items(t), Items(lru), found.value, l);
    }
    if Paired(Items(t), Items(lru)) {
      OldestFound(t, lru, l, found);
      DropBoth(Items(t), Items(lru), found.value, l);
      ModelDrop(Items(t), found.value);
    }
  }

  /** The oldest LRU record leads to its own scan record, the oldest entry of the map. */
  lemma OldestFound(t: Tree<Record>, lru: Tree<Record>, l: Record, found: Option<Record>)
    requires ScanSorted(t) && LruSorted(lru) && Paired(Items(t), Items(lru)) && KeyDistinct(Items(t))
    requires lru.Node? && l == Inorder(lru)[0]
    requires found == Find(t, ToFile(FileInfo(l.entry.key, l.entry.gen)))
    ensures found.Some? && found.value in Items(t) && found.value.entry == l.entry
    ensures l.entry.key in ModelOf(Items(t)) && Oldest(ModelOf(Items(t))) == l.entry.key
  {
    assert l in Items(lru);
    assert l.entry in Entries(Items(lru));
    var r :| r in Items(t) && r.entry == l.entry;
    FileSearch(t, FileInfo(l.entry.key, l.entry.gen));
    FirstIsOldest(lru);
    var m := ModelOf(Items(t));
    assert l.entry.key in m && m[l.entry.key].stamp == l.entry.stamp;
    var k := Oldest(m);
    var q :| q in Items(t) && q.entry.key == k;
    assert q.entry in Entries(Items(t));
    StampOrder(q.entry.stamp, l.entry.stamp, l.entry.stamp);
    ModelStampsUnique(Items(t));
  }

  // ----- the operations

  /** The scan tree keyed by (device, inode) and the LRU tree keyed by time stamp. */
  datatype Cache = Cache(scan: Tree<Record>, lru: Tree<Record>)

  const EMPTY := Cache(Leaf, Leaf)

  /** The rotations after each kind of tree update within one call. */
  datatype Fix = Fix(scanIn: seq<Rotation>, scanOut: seq<Rotation>, lruIn: seq<Rotation>, lruOut: seq<Rotation>)

  const STILL := Fix([], [], [], [])

  /** insert_lru_cache_record. */
  function LruPut(lru: Tree<Record>, e: Entry, mem: Option<nat>, fix: seq<Rotation>): (Tree<Record>, int) {
    if mem.None? || Find(lru, ToStamp(e.stamp)).Some? then (lru, -1)
    else (Rebalance(Link(lru, Record(mem.value, e), ToStamp(e.stamp)), fix), 0)
  }

  /** find_and_update_lru_cache_record. */
  function LruSwap(lru: Tree<Record>, o: Record, e: Entry, mem: Option<nat>, fix: Fix): (Tree<Record>, int) {
    var partner := Find(lru, ToStamp(o.entry.stamp));
    if partner.None? then (lru, -1)
    else LruPut(Rebalance(Unlink(lru, partner.value), fix.lruOut), e, mem, fix.lruIn)
  }

  /** The scan tree after the LRU side is done: a failure there takes the new record out again. */
  function Settle(scan: Tree<Record>, x: Record, lru: (Tree<Record>, int), fix: Fix): (Cache, int) {
    (Cache(if lru.1 == 0 then scan else Rebalance(Unlink(scan, x), fix.scanOut), lru.0), lru.1)
  }

  /** find_and_update_scan_cache_record. */
  function ScanSwap(c: Cache, x: Record, lruMem: Option<nat>, fix: Fix): (Cache, int) {
    var hit := Find(c.scan, ToKey(x.entry.key));
    if hit.None? then (c, -1)
    else Settle(Replace(c.scan, hit.value, x), x, LruSwap(c.lru, hit.value, x.entry, lruMem, fix), fix)
  }

  /** insert_scan_cache_record. */
  function InsertOn(c: Cache, e: Entry, scanMem: Option<nat>, lruMem: Option<nat>, fix: Fix): (Cache, int) {
    if scanMem.None? then (c, -ENOMEM)
    else
      var x := Record(scanMem.value, e);
      if Find(c.scan, ToKey(e.key)).Some? then ScanSwap(c, x, lruMem, fix)
      else Settle(Rebalance(Link(c.scan, x, ToKey(e.key)), fix.scanIn), x, LruPut(c.lru, e, lruMem, fix.lruIn), fix)
  }

  /** find_remove_scan_cache_record. */
  function TakeOn(c: Cache, f: FileInfo, fix: Fix): (Cache, bool) {
    var found := Find(c.scan, ToFile(f));
    if found.None? then (c, false)
    else
      var partner := Find(c.lru, ToStamp(found.value.entry.stamp));
      (Cache(Rebalance(Unlink(c.scan, found.value), fix.scanOut),
             if partner.None? then c.lru else Rebalance(Unlink(c.lru, partner.value), fix.lruOut)), true)
  }

  function FixOf(fixes: seq<Fix>): Fix { if fixes == [] then STILL else fixes[0] }

  function LaterFixes(fixes: seq<Fix>): seq<Fix> { if fixes == [] then [] else fixes[1..] }

  /** remove_cache_entry: at most n rounds, each ended early if the oldest record leads nowhere. */
  function EvictOn(c: Cache, n: int, fixes: seq<Fix>): Cache
    decreases n
  {
    if n <= 0 || c.lru.Leaf? then c
    else
      var l := Inorder(c.lru)[0];
      var found := Find(c.scan, ToFile(FileInfo(l.entry.key, l.entry.gen)));
      if found.None? then c
      else EvictOn(Cache(Rebalance(Unlink(c.scan, found.value), FixOf(fixes).scanOut),
                         Rebalance(Unlink(c.lru, l), FixOf(fixes).lruOut)), n - 1, LaterFixes(fixes))
  }

  // ----- what they do to the records

  ghost predicate Sound(c: Cache) {
    && Slab(c.scan, Addrs(Items(c.scan)), {})
    && Slab(c.lru, Addrs(Items(c.lru)), {})
    && LruSorted(c.lru)
  }

  ghost predicate InStep(c: Cache) { Paired(Items(c.scan), Items(c.lru)) }

  /** An allocation gives an address that no record of the tree has. */
  ghost predicate Unused(mem: Option<nat>, t: Tree<Record>) {
    mem.Some? ==> mem.value !in Addrs(Items(t))
  }

  lemma SlabAlone(t: Tree<Record>, live: set<nat>, spare: set<nat>)
    requires Slab(t, live, spare)
    ensures Slab(t, Addrs(Items(t)), {}) && Addrs(Items(t)) <= live
  {
  }

  /** Erasing from a tree whose records are all there is. */
  lemma EraseFacts(t: Tree<Record>, r: Record, fix: seq<Rotation>)
    requires Slab(t, Addrs(Items(t)), {}) && r in Items(t)
    ensures var u := Rebalance(Unlink(t, r), fix);
            && Slab(u, Addrs(Items(u)), {}) && Items(u) == Items(t) - {r}
            && (ScanSorted(t) ==> ScanSorted(u)) && (LruSorted(t) ==> LruSorted(u))
  {
    hide Slab, ScanSorted, LruSorted, Items, Unlink, Inorder;
    var u := Rebalance(Unlink(t, r), fix);
    SlabErase(t, Addrs(Items(t)), {}, r, u);
    SlabAlone(u, Addrs(Items(t)) - {r.addr}, {});
  }

  lemma LruPutFacts(lru: Tree<Record>, e: Entry, mem: Option<nat>, fix: seq<Rotation>)
    requires Slab(lru, Addrs(Items(lru)), {}) && LruSorted(lru) && Unused(mem, lru)
    ensures var (u, ret) := LruPut(lru, e, mem, fix);
            && Slab(u, Addrs(Items(u)), {}) && LruSorted(u)
            && ret == (if mem.Some? && !Clash(Items(lru), e.stamp) then 0 else -1)
            && Items(u) == After(Items(lru), None, Made(mem, e), ret == 0)
  {
    hide Slab, LruSorted, Items, Link, Inorder, Find, Clash, ToStamp;
    StampSearch(lru, e.stamp);
    var (u, ret) := LruPut(lru, e, mem, fix);
    if ret == 0 {
      var live := Addrs(Items(lru));
      SlabLinkLru(lru, live, {}, Record(mem.value, e), u);
      SlabAlone(u, live + {mem.value}, {});
    }
  }

  lemma LruSwapFacts(lru: Tree<Record>, o: Record, e: Entry, mem: Option<nat>, fix: Fix)
    requires Slab(lru, Addrs(Items(lru)), {}) && LruSorted(lru) && Unused(mem, lru)
    ensures var (u, ret) := LruSwap(lru, o, e, mem, fix);
            var partner := Find(lru, ToStamp(o.entry.stamp));
            && Slab(u, Addrs(Items(u)), {}) && LruSorted(u)
            && (partner.Some? ==> partner.value in Items(lru) && partner.value.entry.stamp == o.entry.stamp)
            && (partner.None? ==> !Clash(Items(lru), o.entry.stamp))
            && ret == (if partner.Some? && mem.Some? && !Clash(Without(Items(lru), partner), e.stamp) then 0 else -1)
            && Items(u) == After(Items(lru), partner, Made(mem, e), ret == 0)
  {
    hide Slab, LruSorted, ScanSorted, Items, Unlink, Link, Inorder, Find, Clash, ToStamp, LruPut;
    StampSearch(lru, o.entry.stamp);
    var partner := Find(lru, ToStamp(o.entry.stamp));
    if partner.Some? {
      EraseFacts(lru, partner.value, fix.lruOut);
      var rest := Rebalance(Unlink(lru, partner.value), fix.lruOut);
      StillUnused(mem, lru, rest);
      LruPutFacts(rest, e, mem, fix.lruIn);
    }
  }

  lemma StillUnused(mem: Option<nat>, t: Tree<Record>, u: Tree<Record>)
    requires Unused(mem, t) && Items(u) <= Items(t)
    ensures Unused(mem, u)
  {
  }

  /** The LRU record an insert takes out. */
  ghost function PartnerOf(c: Cache, hit: Option<Record>): Option<Record> {
    if hit.Some? then Find(c.lru, ToStamp(hit.value.entry.stamp)) else None
  }

  /** RB_REPLACE of a record by a freshly allocated one of the same key. */
  lemma SwapFacts(t: Tree<Record>, o: Record, x: Record)
    requires Slab(t, Addrs(Items(t)), {}) && o in Items(t) && x.addr !in Addrs(Items(t))
    requires x.entry.key == o.entry.key
    ensures var u := Replace(t, o, x);
            && Slab(u, Addrs(Items(u)), {}) && Items(u) == Items(t) - {o} + {x} && x !in Items(t)
            && (ScanSorted(t) ==> ScanSorted(u))
  {
    hide Slab, ScanSorted, Items, Replace;
    var live := Addrs(Items(t));
    SlabAlloc(t, live, {}, x.addr);
    assert {} + {x.addr} == {x.addr};
    SlabReplace(t, live + {x.addr}, o, x);
    SlabAlone(Replace(t, o, x), live + {x.addr}, {o.addr});
  }

  /** After `Settle`, the scan records are those of the new tree, or those without x. */
  lemma SettleFacts(before: set<Record>, scan: Tree<Record>, x: Record, lru: (Tree<Record>, int), fix: Fix)
    requires Slab(scan, Addrs(Items(scan)), {}) && Items(scan) == before + {x} && x !in before
    ensures var d := Settle(scan, x, lru, fix).0.scan;
            && Slab(d, Addrs(Items(d)), {})
            && Items(d) == (if lru.1 == 0 then before + {x} else before)
            && (ScanSorted(scan) ==> ScanSorted(d))
  {
    hide Slab, ScanSorted, Items, Unlink;
    EraseFacts(scan, x, fix.scanOut);
    assert before + {x} - {x} == before;
  }

  /** The records an insert leaves behind, for any keys, ordered or not. */
  lemma InsertFacts(c: Cache, e: Entry, scanMem: Option<nat>, lruMem: Option<nat>, fix: Fix)
    requires Sound(c) && Unused(scanMem, c.scan) && Unused(lruMem, c.lru)
    ensures var (d, ret) := InsertOn(c, e, scanMem, lruMem, fix);
            && Sound(d)
            && (scanMem.None? ==> d == c && ret == -ENOMEM)
            && (scanMem.Some? ==>
                  var hit := Find(c.scan, ToKey(e.key));
                  var partner := PartnerOf(c, hit);
                  && Replaces(Items(c.scan), Items(c.lru), e.key, hit, partner)
                  && ret == (if (hit.Some? ==> partner.Some?) && lruMem.Some? &&
                                !Clash(Without(Items(c.lru), partner), e.stamp) then 0 else -1)
                  && Items(d.scan) == After(Items(c.scan), hit, Record(scanMem.value, e), ret == 0)
                  && Items(d.lru) == After(Items(c.lru), partner, Made(lruMem, e), ret == 0))
            && (ScanSorted(c.scan) && OrderOn(Keys(Items(c.scan)) + {e.key}) ==> ScanSorted(d.scan))
  {
    hide Slab, LruSorted, ScanSorted, Items, Unlink, Link, Replace, Inorder, Find, Clash, OrderOn, Keys,
         ToKey, ToStamp, LruPut, LruSwap, Settle;
    if scanMem.Some? {
      var x, live := Record(scanMem.value, e), Addrs(Items(c.scan));
      var hit := Find(c.scan, ToKey(e.key));
      KeySearch(c.scan, e.key);
      if hit.Some? {
        SwapFacts(c.scan, hit.value, x);
        LruSwapFacts(c.lru, hit.value, e, lruMem, fix);
        SettleShape(Replace(c.scan, hit.value, x), x, LruSwap(c.lru, hit.value, e, lruMem, fix), fix);
        SettleFacts(Items(c.scan) - {hit.value}, Replace(c.scan, hit.value, x), x,
                    LruSwap(c.lru, hit.value, e, lruMem, fix), fix);
      } else {
        var scan := Rebalance(Link(c.scan, x, ToKey(e.key)), fix.scanIn);
        SlabLinkScan(c.scan, live, x, scan);
        SlabAlone(scan, live + {x.addr}, {});
        LruPutFacts(c.lru, e, lruMem, fix.lruIn);
        SettleShape(scan, x, LruPut(c.lru, e, lruMem, fix.lruIn), fix);
        SettleFacts(Items(c.scan), scan, x, LruPut(c.lru, e, lruMem, fix.lruIn), fix);
      }
    }
  }

  lemma SettleShape(scan: Tree<Record>, x: Record, lru: (Tree<Record>, int), fix: Fix)
    ensures Settle(scan, x, lru, fix).0.lru == lru.0 && Settle(scan, x, lru, fix).1 == lru.1
    ensures lru.1 == 0 ==> Settle(scan, x, lru, fix).0.scan == scan
  {
  }

  /**
   An insert that finds its key replaces the record where it is: in any scan tree, sorted or not, each
   key leads where it led before, with the new record in place of the old one.
   */
  lemma UpdatedInPlace(c: Cache, e: Entry, scanMem: Option<nat>, lruMem: Option<nat>, fix: Fix, k: Key)
    requires Sound(c) && scanMem.Some? && Find(c.scan, ToKey(e.key)).Some?
    requires InsertOn(c, e, scanMem, lruMem, fix).1 == 0
    ensures var hit, led := Find(c.scan, ToKey(e.key)), Find(c.scan, ToKey(k));
            Find(InsertOn(c, e, scanMem, lruMem, fix).0.scan, ToKey(k)) ==
            if led == hit then Some(Record(scanMem.value, e)) else led
  {
    hide Find, Items, Inorder, LruSwap, LruPut, LruSorted;
    var o := Find(c.scan, ToKey(e.key)).value;
    KeySearch(c.scan, e.key);
    ReplaceKeepsSearches(c.scan, o, Record(scanMem.value, e), ToKey(k));
  }

  /** The records a find-and-remove leaves behind. */
  lemma TakeFacts(c: Cache, f: FileInfo, fix: Fix)
    requires Sound(c)
    ensures var (d, ret) := TakeOn(c, f, fix);
            var found := Find(c.scan, ToFile(f));
            var gone := PartnerOf(c, found);
            && Sound(d)
            && Items(d.scan) == Without(Items(c.scan), found) && Items(d.lru) == Without(Items(c.lru), gone)
            && ret == found.Some?
            && (found.Some? ==> gone.Some? == Clash(Items(c.lru), found.value.entry.stamp))
            && (gone.Some? ==> gone.value in Items(c.lru) && gone.value.entry.stamp == found.value.entry.stamp)
            && (ScanSorted(c.scan) ==> ScanSorted(d.scan))
  {
    hide Slab, LruSorted, ScanSorted, Items, Unlink, Inorder, Find, Clash, ToFile, ToStamp;
    FileSearch(c.scan, f);
    var found := Find(c.scan, ToFile(f));
    if found.Some? {
      StampSearch(c.lru, found.value.entry.stamp);
      EraseFacts(c.scan, found.value, fix.scanOut);
      var gone := PartnerOf(c, found);
      if gone.Some? {
        EraseFacts(c.lru, gone.value, fix.lruOut);
      }
    }
  }

  /** `after` is `before` without its n oldest records. */
  ghost predicate DroppedOldest(before: set<Record>, after: set<Record>, n: int) {
    && after <= before
    && |after| == (if n <= 0 then |before| else if n < |before| then |before| - n else 0)
    && (forall r, q :: r in before && r !in after && q in after ==>
          Nanoseconds(r.entry.stamp) < Nanoseconds(q.entry.stamp))
  }

  lemma DroppedExactly(before: set<Record>, after: set<Record>, n: int)
    requires DroppedOldest(before, after, n) && n > 0
    ensures |after| == if n < |before| then |before| - n else 0
    ensures forall r, q :: r in before && r !in after && q in after ==>
              Nanoseconds(r.entry.stamp) < Nanoseconds(q.entry.stamp)
  {
  }

  lemma DropOneMore(before: set<Record>, x: Record, after: set<Record>, n: int)
    requires x in before && StampDistinct(before) && n > 0
    requires forall r :: r in before ==> !Older(r.entry.stamp, x.entry.stamp)
    requires DroppedOldest(before - {x}, after, n - 1)
    ensures DroppedOldest(before, after, n)
  {
    hide Nanoseconds;
    forall r, q | r in before && r !in after && q in after
      ensures Nanoseconds(r.entry.stamp) < Nanoseconds(q.entry.stamp)
    {
      if r == x {
        assert q in before - {x};
        OlderTotal(q.entry.stamp, x.entry.stamp);
      }
    }
  }

  /** The early exit: if the oldest record leads nowhere, eviction does nothing, whatever the count. */
  lemma EvictStuck(c: Cache, n: int, fixes: seq<Fix>)
    requires c.lru.Node?
    requires Find(c.scan, ToFile(FileInfo(Inorder(c.lru)[0].entry.key, Inorder(c.lru)[0].entry.gen))).None?
    ensures EvictOn(c, n, fixes) == c
  {
  }

  /** After purge_scan_cache alone eviction is stuck: the LRU tree keeps every record. */
  lemma NothingToEvict(c: Cache, n: int, fixes: seq<Fix>)
    requires c.scan.Leaf?
    ensures EvictOn(c, n, fixes) == c
  {
  }

  /** One round of eviction on the trees. */
  lemma EvictRound(c: Cache, n: int, fixes: seq<Fix>) returns (d: Cache, l: Record, r: Record)
    requires Sound(c) && n > 0 && c.lru.Node?
    requires Find(c.scan, ToFile(FileInfo(Inorder(c.lru)[0].entry.key, Inorder(c.lru)[0].entry.gen))).Some?
    ensures l == Inorder(c.lru)[0] && l in Items(c.lru)
    ensures Some(r) == Find(c.scan, ToFile(FileInfo(l.entry.key, l.entry.gen))) && r in Items(c.scan)
    ensures EvictOn(c, n, fixes) == EvictOn(d, n - 1, LaterFixes(fixes))
    ensures Sound(d) && Items(d.scan) == Items(c.scan) - {r} && Items(d.lru) == Items(c.lru) - {l}
    ensures ScanSorted(c.scan) ==> ScanSorted(d.scan)
  {
    hide Slab, LruSorted, ScanSorted, Items, Unlink, Find, ToFile;
    FirstInItems(c.lru);
    l := Inorder(c.lru)[0];
    var f := FileInfo(l.entry.key, l.entry.gen);
    FileSearch(c.scan, f);
    r := Find(c.scan, ToFile(f)).value;
    d := Cache(Rebalance(Unlink(c.scan, r), FixOf(fixes).scanOut), Rebalance(Unlink(c.lru, l), FixOf(fixes).lruOut));
    EraseFacts(c.scan, r, FixOf(fixes).scanOut);
    EraseFacts(c.lru, l, FixOf(fixes).lruOut);
  }

  /** Any eviction only takes records away; on a sorted scan tree covered records stay covered. */
  lemma {:induction false} EvictFacts(c: Cache, n: int, fixes: seq<Fix>)
    requires Sound(c)
    ensures var d := EvictOn(c, n, fixes);
            && Sound(d) && Items(d.scan) <= Items(c.scan) && Items(d.lru) <= Items(c.lru)
            && (ScanSorted(c.scan) ==> ScanSorted(d.scan))
            && (ScanSorted(c.scan) && Covered(Items(c.scan), Items(c.lru)) ==> Covered(Items(d.scan), Items(d.lru)))
    decreases n
  {
    hide Sound, ScanSorted, Items, Covered, Find, ToFile, Inorder;
    if n > 0 && c.lru.Node? {
      FirstInItems(c.lru);
      var l := Inorder(c.lru)[0];
      var found := Find(c.scan, ToFile(FileInfo(l.entry.key, l.entry.gen)));
      if found.Some? {
        var d, l', r := EvictRound(c, n, fixes);
        if ScanSorted(c.scan) {
          SoundSorted(c);
          EvictDone(c.scan, c.lru, l, found);
        }
        EvictFacts(d, n - 1, LaterFixes(fixes));
      }
    }
  }

  /** The first LRU record, if there is one, leads to no scan record. */
  ghost predicate Stuck(c: Cache) {
    c.lru.Node? ==>
      Find(c.scan, ToFile(FileInfo(Inorder(c.lru)[0].entry.key, Inorder(c.lru)[0].entry.gen))).None?
  }

  /**
   For any keys, ordered or not: eviction takes as many records from one tree as from the other, as many
   as it is asked for unless it gets stuck or the LRU tree runs empty.
   */
  lemma {:induction false} EvictStops(c: Cache, n: int, fixes: seq<Fix>) returns (k: nat)
    requires Sound(c)
    ensures var d := EvictOn(c, n, fixes);
            && |Items(c.scan)| == |Items(d.scan)| + k && |Items(c.lru)| == |Items(d.lru)| + k
            && (n <= 0 ==> k == 0)
            && (n > 0 ==> k == n || (k < n && Stuck(d)))
    decreases n
  {
    hide Sound, Items, Find, ToFile, Inorder;
    k := 0;
    if n > 0 && !Stuck(c) {
      var d, l, r := EvictRound(c, n, fixes);
      k := EvictStops(d, n - 1, LaterFixes(fixes));
      k := k + 1;
    }
  }

  lemma SoundSorted(c: Cache)
    requires Sound(c)
    ensures LruSorted(c.lru)
  {
  }

  /**
   Eviction from a sorted cache in step: the early exit is not taken, exactly the n oldest records
   leave both trees, the trees stay in step, and the map loses its n oldest entries.
   */
  lemma {:induction false} EvictExact(c: Cache, n: int, fixes: seq<Fix>)
    requires Sound(c) && ScanSorted(c.scan) && InStep(c)
    ensures var d := EvictOn(c, n, fixes);
            && Sound(d) && ScanSorted(d.scan) && InStep(d)
            && DroppedOldest(Items(c.scan), Items(d.scan), n)
            && DroppedOldest(Items(c.lru), Items(d.lru), n)
            && KeyDistinct(Items(c.scan)) && KeyDistinct(Items(d.scan))
            && ModelOf(Items(d.scan)) == DropOldest(ModelOf(Items(c.scan)), n)
    decreases n
  {
    hide Sound, ScanSorted, Items, Paired, Find, ToFile, Inorder, DroppedOldest, KeyDistinct, ModelOf, LruSorted;
    SortedScanDistinct(c.scan);
    SoundSorted(c);
    if c.lru.Leaf? {
      NoItems(c.lru);
      NothingLeft(c.scan);
      PairedEmpty(Items(c.scan));
      DroppedNothing({}, n);
    } else if n <= 0 {
      DroppedNothing(Items(c.scan), n);
      DroppedNothing(Items(c.lru), n);
    } else {
      FirstInItems(c.lru);
      var l := Inorder(c.lru)[0];
      var found := Find(c.scan, ToFile(FileInfo(l.entry.key, l.entry.gen)));
      EvictDone(c.scan, c.lru, l, found);
      OldestFound(c.scan, c.lru, l, found);
      var d, l', r := EvictRound(c, n, fixes);
      EvictExact(d, n - 1, LaterFixes(fixes));
      BothOldest(c, l, r);
      DropOneMore(Items(c.scan), r, Items(EvictOn(c, n, fixes).scan), n);
      DropOneMore(Items(c.lru), l, Items(EvictOn(c, n, fixes).lru), n);
    }
  }

  lemma DroppedNothing(rs: set<Record>, n: int)
    requires rs == {} || n <= 0
    ensures DroppedOldest(rs, rs, n)
  {
  }

  lemma PairedEmpty(scan: set<Record>)
    requires Paired(scan, {})
    ensures scan == {}
  {
    assert forall r :: r in scan ==> r.entry in Entries(scan);
    assert Entries({}) == {};
  }

  lemma BothOldest(c: Cache, l: Record, r: Record)
    requires LruSorted(c.lru) && InStep(c) && c.lru.Node? && l == Inorder(c.lru)[0]
    requires r in Items(c.scan) && r.entry == l.entry
    ensures StampDistinct(Items(c.scan)) && StampDistinct(Items(c.lru))
    ensures forall q :: q in Items(c.scan) ==> !Older(q.entry.stamp, r.entry.stamp)
    ensures forall q :: q in Items(c.lru) ==> !Older(q.entry.stamp, l.entry.stamp)
  {
    FirstIsOldest(c.lru);
    forall q | q in Items(c.scan) ensures !Older(q.entry.stamp, r.entry.stamp) {
      assert q.entry in Entries(Items(c.scan));
    }
  }
}
