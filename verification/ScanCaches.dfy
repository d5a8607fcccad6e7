/**
 The scan cache of cache.c as an object: the two trees, updated in place, and the two slabs their
 records come from.  Every call does to the trees what the function of `CacheTrees` says.
 */
module ScanCaches {
  import opened Wrappers
  import opened Seqs
  import opened SearchTree
  import opened Records
  import opened CacheModel
  import opened CacheTrees

  class ScanCache {
    var scan: Tree<Record>
    var lru: Tree<Record>
    /** Addresses handed out by the two slabs and not yet freed. */
    var scanLive: set<nat>
    var lruLive: set<nat>
    /** LRU records that were refused by their tree and never freed. */
    ghost var leaked: set<nat>
    ghost var refused: nat

    ghost function S(): set<Record> reads this { Items(scan) }

    ghost function L(): set<Record> reads this { Items(lru) }

    /**
     What every operation keeps, even half-way: `held` are scan records in no tree.
     */
    ghost predicate Consistent(held: set<nat>)
      reads this
    {
      && Slab(scan, scanLive, held)
      && Slab(lru, lruLive, leaked)
      && LruSorted(lru)
      && |leaked| == refused
    }

    ghost predicate Valid() reads this { Consistent({}) }

    /** The scan tree is sorted by its own comparator. */
    ghost predicate Ordered() reads this { ScanSorted(scan) }

    /** The comparator orders the keys in use together with k. */
    ghost predicate Admits(k: Key) reads this { OrderOn(Keys(S()) + {k}) }

    ghost function Trees(): Cache reads this { Cache(scan, lru) }

    ghost predicate InStep() reads this { Paired(S(), L()) }

    ghost predicate Tracked() reads this { Covered(S(), L()) }

    /** The map the cache represents. */
    ghost function Contents(): Model
      requires Ordered()
      reads this
    {
      SortedScanDistinct(scan);
      ModelOf(S())
    }

    constructor ()
      ensures Valid() && Ordered() && InStep() && Contents() == map[]
      ensures Trees() == EMPTY && refused == 0
    {
      scan, lru, scanLive, lruLive, leaked, refused := Leaf, Leaf, {}, {}, {}, 0;
      new;
      assert Addrs({}) == {} && Entries({}) == {};
    }

    /** remove_lru_cache_record: unlink, then free an address that is still allocated. */
    method RemoveLru(l: Record, fix: seq<Rotation>, ghost held: set<nat>)
      requires Consistent(held) && l in L()
      modifies `lru, `lruLive
      ensures lru == Rebalance(Unlink(old(lru), l), fix)
      ensures Consistent(held) && L() == old(L()) - {l} && lruLive == old(lruLive) - {l.addr}
    {
      hide Slab, LruSorted, ScanSorted, Items, Inorder, Unlink;
      ghost var before := lru;
      lru := Erase(lru, l, fix);
      SlabErase(before, lruLive, leaked, l, lru);
      assert l.addr in lruLive;
      lruLive := lruLive - {l.addr};
    }

    /** remove_scan_cache_record. */
    method RemoveScan(r: Record, fix: seq<Rotation>, ghost held: set<nat>)
      requires Consistent(held) && r in S()
      modifies `scan, `scanLive
      ensures scan == Rebalance(Unlink(old(scan), r), fix)
      ensures Consistent(held) && S() == old(S()) - {r} && scanLive == old(scanLive) - {r.addr}
      ensures old(Ordered()) ==> Ordered()
    {
      hide Slab, LruSorted, ScanSorted, Items, Inorder, Unlink;
      ghost var before := scan;
      scan := Erase(scan, r, fix);
      SlabErase(before, scanLive, held, r, scan);
      assert r.addr in scanLive;
      scanLive := scanLive - {r.addr};
    }

    /** insert_lru_cache_record: a refused record stays allocated. */
    method InsertLru(e: Entry, mem: Option<nat>, fix: seq<Rotation>, ghost held: set<nat>) returns (ret: int)
      requires Consistent(held)
      requires mem.Some? ==> mem.value !in lruLive
      modifies `lru, `lruLive, `leaked, `refused
      ensures Consistent(held)
      ensures (lru, ret) == LruPut(old(lru), e, mem, fix)
      ensures ret == if mem.Some? && !Clash(old(L()), e.stamp) then 0 else -1
      ensures L() == After(old(L()), None, Made(mem, e), ret == 0)
      ensures lruLive == if mem.Some? then old(lruLive) + {mem.value} else old(lruLive)
      ensures refused == old(refused) + if mem.Some? && ret == -1 then 1 else 0
    {
      hide Slab, LruSorted, ScanSorted, Items, Inorder, Link, Find, Clash, ToStamp;
      ret := -1;
      if mem.Some? {
        var x := Record(mem.value, e);
        ghost var before, live := lru, lruLive;
        lruLive := lruLive + {x.addr};
        lru, ret := Insert(lru, x, ToStamp(e.stamp), fix);
        LruInserted(before, live, leaked, x, lru, ret);
        if ret == -1 {
          leaked, refused := leaked + {x.addr}, refused + 1;
        }
      }
    }

    /** find_and_update_lru_cache_record. */
    method UpdateLru(o: Record, x: Record, mem: Option<nat>, fix: Fix, ghost held: set<nat>) returns (ret: int)
      requires Consistent(held)
      requires mem.Some? ==> mem.value !in lruLive
      modifies `lru, `lruLive, `leaked, `refused
      ensures Consistent(held)
      ensures (lru, ret) == LruSwap(old(lru), o, x.entry, mem, fix)
      ensures var partner := old(Find(lru, ToStamp(o.entry.stamp)));
              && (partner.Some? ==> partner.value in old(L()) && partner.value.entry.stamp == o.entry.stamp)
              && (partner.None? ==> !Clash(old(L()), o.entry.stamp))
              && ret == (if partner.Some? && mem.Some? && !Clash(Without(old(L()), partner), x.entry.stamp) then 0 else -1)
              && L() == After(old(L()), partner, Made(mem, x.entry), ret == 0)
              && refused == old(refused) + if partner.Some? && mem.Some? && ret == -1 then 1 else 0
    {
      hide Slab, LruSorted, ScanSorted, Items, Inorder, Find, Clash, ToStamp, LruPut, Unlink;
      ret := -1;
      StampSearch(lru, o.entry.stamp);
      var found := Search(lru, ToStamp(o.entry.stamp));
      if found.Some? {
        RemoveLru(found.value, fix.lruOut, held);
        ret := InsertLru(x.entry, mem, fix.lruIn, held);
      }
    }

    /** find_and_update_scan_cache_record: x is allocated and in no tree yet. */
    method UpdateScan(x: Record, mem: Option<nat>, fix: Fix) returns (ret: int)
      requires Consistent({x.addr})
      requires mem.Some? ==> mem.value !in lruLive
      modifies this
      ensures Valid()
      ensures (Trees(), ret) == ScanSwap(old(Trees()), x, mem, fix)
      ensures old(Ordered()) ==> Ordered()
      ensures var hit := old(Find(scan, ToKey(x.entry.key)));
              var partner := old(PartnerOf(Trees(), hit));
              && Replaces(old(S()), old(L()), x.entry.key, hit, partner)
              && ret == (if partner.Some? && mem.Some? && !Clash(Without(old(L()), partner), x.entry.stamp) then 0 else -1)
              && L() == After(old(L()), partner, Made(mem, x.entry), ret == 0)
              && S() == After(old(S()), hit, x, ret == 0)
              && refused == old(refused) + if partner.Some? && mem.Some? && ret == -1 then 1 else 0
    {
      hide Slab, LruSorted, ScanSorted, Items, Inorder, Find, Replace, Clash, ToKey, ToStamp, LruSwap, Unlink;
      ret := -1;
      KeySearch(scan, x.entry.key);
      var found := Search(scan, ToKey(x.entry.key));
      if found.Some? {
        var o := found.value;
        SlabReplace(scan, scanLive, o, x);
        scan := Replace(scan, o, x);
        ret := UpdateLru(o, x, mem, fix, {o.addr});
        if ret != 0 {
          RemoveScan(x, fix.scanOut, {o.addr});
        }
        SlabFree(scan, scanLive, o.addr);
        assert o.addr in scanLive;
        scanLive := scanLive - {o.addr};
      } else {
        SlabFree(scan, scanLive, x.addr);
        assert x.addr in scanLive;
        scanLive := scanLive - {x.addr};
      }
    }

    /**
     insert_scan_cache_record.  For any keys, ordered or not, the trees stay in step.  Where the
     comparator orders all keys in use, the call is `Bind` on the map.
     */
    method InsertScan(f: FileInfo, now: Stamp, scanMem: Option<nat>, lruMem: Option<nat>, fix: Fix)
        returns (ret: int)
      requires Valid()
      requires scanMem.Some? ==> scanMem.value !in scanLive
      requires lruMem.Some? ==> lruMem.value !in lruLive
      modifies this
      ensures Valid()
      ensures (Trees(), ret) == InsertOn(old(Trees()), Entry(f.key, f.gen, now), scanMem, lruMem, fix)
      ensures old(InStep()) ==> InStep()
      ensures old(Tracked()) ==> Tracked()
      ensures ret == -ENOMEM <==> scanMem.None?
      ensures scanMem.None? ==> unchanged(this)
      ensures scanMem.Some? ==>
                var e := Entry(f.key, f.gen, now);
                var hit := old(Find(scan, ToKey(f.key)));
                var partner := old(PartnerOf(Trees(), hit));
                && (ret == 0 || ret == -1)
                && (ret == 0 ==> lruMem.Some?)
                && Replaces(old(S()), old(L()), f.key, hit, partner)
                && S() == After(old(S()), hit, Record(scanMem.value, e), ret == 0)
                && L() == After(old(L()), partner, Made(lruMem, e), ret == 0)
      ensures ret == 0 ==> Entry(f.key, f.gen, now) in Entries(S()) && Entry(f.key, f.gen, now) in Entries(L())
      ensures old(Tracked()) ==>
                refused == old(refused) + if scanMem.Some? && lruMem.Some? && ret == -1 then 1 else 0
      ensures Keys(S()) <= old(Keys(S())) + {f.key}
      ensures old(Ordered() && Admits(f.key)) ==> Ordered()
      ensures old(Ordered() && InStep() && Admits(f.key)) ==>
                (Contents(), ret) ==
                Bind(old(Contents()), Entry(f.key, f.gen, now), scanMem.Some?, lruMem.Some?)
    {
      hide Slab, LruSorted, ScanSorted, Items, Inorder, Find, Link, Clash, OrderOn, Keys, Entries,
           Paired, Covered, KeyDistinct, ModelOf, ToKey, ToStamp, LruPut, ScanSwap, Unlink;
      if scanMem.None? {
        return -ENOMEM;
      }
      var x := Record(scanMem.value, Entry(f.key, f.gen, now));
      ghost var t0, live, s0, l0 := scan, scanLive, S(), L();
      ghost var hit := Find(t0, ToKey(f.key));
      ghost var partner := PartnerOf(Trees(), hit);
      scanLive := scanLive + {x.addr};
      KeySearch(t0, f.key);
      SlabAlone(t0, live, {});
      scan, ret := Insert(scan, x, ToKey(f.key), fix.scanIn);
      if ret != 0 {
        SlabAlloc(t0, live, {}, x.addr);
        assert {} + {x.addr} == {x.addr};
        ret := UpdateScan(x, lruMem, fix);
      } else {
        SlabLinkScan(t0, live, x, scan);
        ret := InsertLru(x.entry, lruMem, fix.lruIn, {});
        if ret != 0 {
          RemoveScan(x, fix.scanOut, {});
          assert s0 + {x} - {x} == s0;
        }
      }
      InsertDone(t0, l0, hit, partner, x, Made(lruMem, x.entry), lruMem.Some?, ret == 0);
    }

    /** find_remove_lru_cache_record. */
    method FindRemoveLru(s: Stamp, fix: seq<Rotation>) returns (ret: bool)
      requires Valid()
      modifies `lru, `lruLive
      ensures Valid()
      ensures var gone := old(Find(lru, ToStamp(s)));
              && ret == gone.Some? == Clash(old(L()), s)
              && (gone.Some? ==> gone.value in old(L()) && gone.value.entry.stamp == s)
              && lru == (if gone.Some? then Rebalance(Unlink(old(lru), gone.value), fix) else old(lru))
              && L() == Without(old(L()), gone)
    {
      hide Slab, LruSorted, ScanSorted, Items, Inorder, Find, Clash, ToStamp, Unlink;
      StampSearch(lru, s);
      var found := Search(lru, ToStamp(s));
      ret := false;
      if found.Some? {
        RemoveLru(found.value, fix, {});
        ret := true;
      }
    }

    /** find_remove_scan_cache_record: only the whole triple is removed, from both trees. */
    method FindRemove(f: FileInfo, fix: Fix) returns (ret: bool)
      requires Valid()
      modifies this
      ensures Valid() && refused == old(refused)
      ensures (Trees(), ret) == TakeOn(old(Trees()), f, fix)
      ensures old(InStep()) ==> InStep()
      ensures old(Tracked()) ==> Tracked()
      ensures var found := old(Find(scan, ToFile(f)));
              && ret == found.Some?
              && S() == Without(old(S()), found)
              && L() == Without(old(L()), old(PartnerOf(Trees(), found)))
      ensures old(Ordered()) ==> Ordered() && Contents() == Take(old(Contents()), f)
                                 && ret == Holds(old(Contents()), f)
    {
      hide Slab, LruSorted, ScanSorted, Items, Inorder, Find, Clash, Entries, Paired, Covered,
           KeyDistinct, ModelOf, Take, Holds, ToFile, ToStamp, Unlink;
      ghost var t0, l0 := scan, L();
      var found := Search(scan, ToFile(f));
      ghost var gone := PartnerOf(Trees(), found);
      FileSearch(scan, f);
      ret := false;
      if found.Some? {
        var r := found.value;
        var hadPartner := FindRemoveLru(r.entry.stamp, fix.lruOut);
        RemoveScan(r, fix.scanOut, {});
        ret := true;
      }
      TakeDone(t0, l0, f, found, gone);
    }

    /** purge_scan_cache: empties the scan tree only. */
    method PurgeScan()
      requires Valid()
      modifies `scan, `scanLive
      ensures Valid() && scan == Leaf && S() == {} && scanLive == {} && Ordered()
      ensures old(Tracked()) ==> Tracked()
    {
      while scan.Node?
        invariant Valid()
        decreases S()
      {
        var first := First(scan);
        FirstInItems(scan);
        var fix: seq<Rotation> := *;
        RemoveScan(first.value, fix, {});
      }
      assert Addrs({}) == {} && Entries({}) == {};
    }

    /** purge_lru_cache. */
    method PurgeLru()
      requires Valid()
      modifies `lru, `lruLive
      ensures Valid() && lru == Leaf && L() == {} && lruLive == leaked
    {
      while lru.Node?
        invariant Valid()
        decreases L()
      {
        var first := First(lru);
        FirstInItems(lru);
        var fix: seq<Rotation> := *;
        RemoveLru(first.value, fix, {});
      }
      assert Addrs({}) == {};
    }

    /** purge_cache. */
    method Purge()
      requires Valid()
      modifies this
      ensures Valid() && Trees() == EMPTY && S() == {} && L() == {}
      ensures scanLive == {} && lruLive == leaked == old(leaked)
      ensures refused == old(refused)
      ensures InStep() && Tracked() && Ordered() && Contents() == map[]
    {
      hide Slab, LruSorted, ScanSorted, Items, KeyDistinct;
      PurgeScan();
      PurgeLru();
      SortedScanDistinct(scan);
      assert Entries({}) == {};
    }

    /**
     remove_cache_entry.  On an ordered cache that is in step the early exit is never taken, and
     exactly the oldest entries go, from both trees.
     */
    method Evict(count: int, fixes: seq<Fix>)
      requires Valid()
      modifies this
      ensures Valid() && refused == old(refused)
      ensures Trees() == EvictOn(old(Trees()), count, fixes)
      ensures count <= 0 ==> Trees() == old(Trees())
      ensures S() <= old(S()) && L() <= old(L())
      ensures old(Ordered()) ==> Ordered()
      ensures old(Ordered() && Tracked()) ==> Tracked()
      ensures old(Ordered() && InStep()) ==>
                && InStep() && Contents() == DropOldest(old(Contents()), count)
                && DroppedOldest(old(S()), S(), count)
                && DroppedOldest(old(L()), L(), count)
      ensures old(Ordered() && InStep()) && count > 0 ==>
                && |S()| == (if count < |old(S())| then |old(S())| - count else 0)
                && |L()| == (if count < |old(L())| then |old(L())| - count else 0)
                && forall r, q :: r in old(S()) && r !in S() && q in S() ==>
                     Nanoseconds(r.entry.stamp) < Nanoseconds(q.entry.stamp)
    {
      hide Slab, LruSorted, ScanSorted, Items, Inorder, Find, Entries, Paired, Covered, KeyDistinct, ModelOf,
           ToFile, Unlink, DroppedOldest, Nanoseconds, EvictOn;
      ghost var start, after := Trees(), EvictOn(Trees(), count, fixes);
      SlabAlone(scan, scanLive, {});
      SlabAlone(lru, lruLive, leaked);
      EvictFacts(start, count, fixes);
      if Ordered() && InStep() {
        EvictExact(start, count, fixes);
        if count > 0 {
          DroppedExactly(Items(start.scan), Items(after.scan), count);
          DroppedExactly(Items(start.lru), Items(after.lru), count);
        }
      }
      EvictRounds(count, fixes);
    }

    /** The body of remove_cache_entry. */
    method EvictRounds(count: int, fixes: seq<Fix>)
      requires Valid()
      modifies this
      ensures Valid() && refused == old(refused)
      ensures Trees() == EvictOn(old(Trees()), count, fixes)
      ensures count <= 0 ==> Trees() == old(Trees())
    {
      hide Slab, LruSorted, ScanSorted, Items, Inorder, Find, ToFile, Unlink;
      if count <= 0 {
        return;
      }
      ghost var start := Trees();
      var removed, later := 0, fixes;
      while lru.Node?
        invariant Valid() && refused == old(refused)
        invariant 0 <= removed < count
        invariant EvictOn(start, count, fixes) == EvictOn(Trees(), count - removed, later)
        decreases L()
      {
        var first := First(lru);
        if first.None? {
          break;
        }
        var l := first.value;
        FirstInItems(lru);
        var f := FileInfo(l.entry.key, l.entry.gen);
        FileSearch(scan, f);
        var found := Search(scan, ToFile(f));
        if found.None? {
          break;
        }
        RemoveLru(l, FixOf(later).lruOut, {});
        RemoveScan(found.value, FixOf(later).scanOut, {});
        removed, later := removed + 1, LaterFixes(later);
        if removed >= count {
          break;
        }
      }
    }

    /** In step, no two entries share a time stamp, so "the oldest" is unique. */
    lemma ContentsStampsUnique()
      requires Ordered() && InStep()
      ensures StampsUnique(Contents())
    {
      SortedScanDistinct(scan);
      ModelStampsUnique(S());
    }

    /** Every allocated record is a tree node, but for one leaked LRU record per refused insert. */
    lemma AllocationConserved()
      requires Valid()
      ensures |scanLive| == |Inorder(scan)|
      ensures |lruLive| == |Inorder(lru)| + refused
    {
      SameSize(S());
      SameSize(L());
      DistinctSize(Inorder(scan));
      DistinctSize(Inorder(lru));
    }
  }
}
