/** Whole runs of the scan cache, with any allocation failures, clock readings and rebalancing. */
module CacheRuns {
  import opened Wrappers
  import opened Seqs
  import opened SearchTree
  import opened Records
  import opened CacheModel
  import opened CacheTrees
  import opened ScanCaches

  // ----- runs on the trees

  /** A call with everything its environment decides: addresses, time and rotations. */
  datatype Event =
    | InsertEv(file: FileInfo, now: Stamp, scanMem: Option<nat>, lruMem: Option<nat>, fix: Fix)
    | FindRemoveEv(file: FileInfo, fix: Fix)
    | EvictEv(count: int, fixes: seq<Fix>)
    | PurgeEv
    | PurgeScanEv

  function OpOf(ev: Event): Op {
    match ev
    case InsertEv(f, now, scanMem, lruMem, _) => InsertOp(f, now, scanMem.Some?, lruMem.Some?)
    case FindRemoveEv(f, _) => FindRemoveOp(f)
    case EvictEv(count, _) => EvictOp(count)
    case PurgeEv => PurgeOp
    case PurgeScanEv => PurgeScanOp
  }

  function OpsOf(evs: seq<Event>): (ops: seq<Op>)
    ensures |ops| == |evs|
  {
    seq(|evs|, i requires 0 <= i < |evs| => OpOf(evs[i]))
  }

  /** One call, or None if an address it was given is in use. */
  ghost function Perform(c: Cache, ev: Event): Option<(Cache, Outcome)> {
    match ev
    case InsertEv(f, now, scanMem, lruMem, fix) =>
      if Unused(scanMem, c.scan) && Unused(lruMem, c.lru) then
        var (d, ret) := InsertOn(c, Entry(f.key, f.gen, now), scanMem, lruMem, fix);
        Some((d, Code(ret)))
      else None
    case FindRemoveEv(f, fix) =>
      var (d, ret) := TakeOn(c, f, fix);
      Some((d, Found(ret)))
    case EvictEv(count, fixes) => Some((EvictOn(c, count, fixes), Quiet))
    case PurgeEv => Some((EMPTY, Quiet))
    case PurgeScanEv => Some((c.(scan := Leaf), Quiet))
  }

  ghost function Exec(c: Cache, evs: seq<Event>): Option<(Cache, seq<Outcome>)> {
    if evs == [] then Some((c, []))
    else
      var k := |evs| - 1;
      match Exec(c, evs[..k])
      case None => None
      case Some((d, outs)) =>
        match Perform(d, evs[k])
        case None => None
        case Some((e, out)) => Some((e, outs + [out]))
  }

  lemma ExecNothing(c: Cache)
    ensures Exec(c, []) == Some((c, []))
  {
  }

  lemma ExecSnoc(c: Cache, evs: seq<Event>, ev: Event)
    ensures var before := Exec(c, evs);
            Exec(c, evs + [ev]) ==
            if before.None? || Perform(before.value.0, ev).None? then None
            else Some((Perform(before.value.0, ev).value.0, before.value.1 + [Perform(before.value.0, ev).value.1]))
  {
    assert (evs + [ev])[..|evs|] == evs;
  }

  /** The calls insert only keys of ks and never purge the scan tree alone. */
  ghost predicate Over(evs: seq<Event>, ks: set<Key>) {
    forall ev :: ev in evs ==> (ev.InsertEv? ==> ev.file.key in ks) && !ev.PurgeScanEv?
  }

  /** A sorted cache in step whose keys are in ks. */
  ghost predicate Good(c: Cache, ks: set<Key>) {
    Sound(c) && ScanSorted(c.scan) && InStep(c) && Keys(Items(c.scan)) <= ks
  }

  ghost function ContentsOf(c: Cache): Model
    requires ScanSorted(c.scan)
  {
    SortedScanDistinct(c.scan);
    ModelOf(Items(c.scan))
  }

  lemma OrderOnSubset(small: set<Key>, large: set<Key>)
    requires OrderOn(large) && small <= large
    ensures OrderOn(small)
  {
  }

  lemma KeysSubset(small: set<Record>, large: set<Record>)
    requires small <= large
    ensures Keys(small) <= Keys(large)
  {
  }

  lemma WithoutSubset(rs: set<Record>, gone: Option<Record>)
    ensures Without(rs, gone) <= rs
  {
  }

  lemma EmptyIsGood(ks: set<Key>)
    ensures Good(EMPTY, ks) && ContentsOf(EMPTY) == map[]
  {
    assert Addrs({}) == {} && Entries({}) == {};
  }

  /** On ordered keys one call keeps the cache good and does to the map what the map operation says. */
  lemma PerformKeeps(c: Cache, ev: Event, ks: set<Key>)
    requires Good(c, ks) && OrderOn(ks) && Over([ev], ks) && Perform(c, ev).Some?
    ensures var (d, out) := Perform(c, ev).value;
            Good(d, ks) && ContentsOf(d) == Apply(ContentsOf(c), OpOf(ev)) && out == Answer(ContentsOf(c), OpOf(ev))
  {
    hide Sound, ScanSorted, Paired, Covered, Items, OrderOn, Keys, KeyDistinct, ModelOf, InsertOn, TakeOn,
         EvictOn, Find, Bind, Take, Holds, DropOldest, Clash, ToKey, ToFile;
    assert ev in [ev];
    SortedScanDistinct(c.scan);
    match ev
    case InsertEv(f, now, scanMem, lruMem, fix) =>
      InsertIsBind(c, Entry(f.key, f.gen, now), scanMem, lruMem, fix, ks);
    case FindRemoveEv(f, fix) =>
      TakeFacts(c, f, fix);
      var found := Find(c.scan, ToFile(f));
      TakeDone(c.scan, Items(c.lru), f, found, PartnerOf(c, found));
      WithoutSubset(Items(c.scan), found);
      KeysSubset(Items(TakeOn(c, f, fix).0.scan), Items(c.scan));
    case EvictEv(count, fixes) =>
      EvictExact(c, count, fixes);
      EvictFacts(c, count, fixes);
      KeysSubset(Items(EvictOn(c, count, fixes).scan), Items(c.scan));
    case PurgeEv =>
      EmptyIsGood(ks);
  }

  lemma InsertIsBind(c: Cache, e: Entry, scanMem: Option<nat>, lruMem: Option<nat>, fix: Fix, ks: set<Key>)
    requires Good(c, ks) && OrderOn(ks) && e.key in ks && Unused(scanMem, c.scan) && Unused(lruMem, c.lru)
    ensures var (d, ret) := InsertOn(c, e, scanMem, lruMem, fix);
            Good(d, ks) && (ContentsOf(d), ret) == Bind(ContentsOf(c), e, scanMem.Some?, lruMem.Some?)
  {
    hide Sound, ScanSorted, Paired, Covered, Items, OrderOn, Keys, KeyDistinct, ModelOf, InsertOn, Find, Clash,
         ToKey, Entries;
    SortedScanDistinct(c.scan);
    OrderOnSubset(Keys(Items(c.scan)) + {e.key}, ks);
    InsertFacts(c, e, scanMem, lruMem, fix);
    var (d, ret) := InsertOn(c, e, scanMem, lruMem, fix);
    if scanMem.Some? {
      var hit := Find(c.scan, ToKey(e.key));
      InsertDone(c.scan, Items(c.lru), hit, PartnerOf(c, hit), Record(scanMem.value, e), Made(lruMem, e),
                 lruMem.Some?, ret == 0);
    }
  }

  /**
   Every run over ordered keys: the trees stay in step, and contents and outcomes are those of the
   map.
   */
  lemma {:induction false} ExecKeeps(c: Cache, evs: seq<Event>, ks: set<Key>)
    requires Good(c, ks) && OrderOn(ks) && Over(evs, ks) && Exec(c, evs).Some?
    ensures var (d, outs) := Exec(c, evs).value;
            && Good(d, ks)
            && ContentsOf(d) == ApplyAll(ContentsOf(c), OpsOf(evs))
            && outs == Answers(ContentsOf(c), OpsOf(evs))
  {
    hide Good, OrderOn, ContentsOf, Perform, Apply, Answer;
    if evs != [] {
      var k := |evs| - 1;
      assert evs[..k] + [evs[k]] == evs;
      assert OpsOf(evs)[..k] == OpsOf(evs[..k]);
      ExecKeeps(c, evs[..k], ks);
      var (d, outs) := Exec(c, evs[..k]).value;
      assert Over([evs[k]], ks);
      PerformKeeps(d, evs[k], ks);
    }
  }

  // ----- runs of the object

  /** kmem_cache_alloc: any address that is not in use, or null. */
  method Allocate(live: set<nat>, ok: bool) returns (mem: Option<nat>)
    ensures mem.Some? <==> ok
    ensures mem.Some? ==> mem.value !in live
  {
    if ok {
      ghost var w := FreshAddress(live);
      assert w !in live;
      var a: nat :| a !in live;
      mem := Some(a);
    } else {
      mem := None;
    }
  }

  /** Every key a run may have to compare is ordered by the fixed-width comparator. */
  ghost predicate Sortable(c: ScanCache, ops: seq<Op>)
    reads c
  {
    OrderOn(Keys(c.S()) + InsertedKeys(ops))
  }

  /** One operation on the object is one event on its trees. */
  method Step(c: ScanCache, op: Op) returns (out: Outcome, ghost ev: Event)
    requires c.Valid()
    modifies c
    ensures c.Valid()
    ensures OpOf(ev) == op && Perform(old(c.Trees()), ev) == Some((c.Trees(), out))
    ensures Keys(c.S()) <= old(Keys(c.S())) + InsertedKeys([op])
    ensures old(c.Tracked()) ==> c.refused == old(c.refused) + if Refused(op, out) then 1 else 0
    ensures !op.EvictOp? && !op.PurgeScanOp? && old(c.InStep()) ==> c.InStep()
    ensures !op.EvictOp? && old(c.Tracked()) ==> c.Tracked()
    ensures old(c.Ordered() && Sortable(c, [op])) ==> c.Ordered()
    ensures old(c.Ordered() && c.Tracked() && Sortable(c, [op])) ==> c.Tracked()
    ensures old(c.Ordered() && c.InStep() && Sortable(c, [op])) && !op.PurgeScanOp? ==>
              && c.InStep() && c.Contents() == Apply(old(c.Contents()), op)
              && out == Answer(old(c.Contents()), op)
  {
    hide Paired, Covered, LruSorted, ScanSorted, Items, OrderOn, KeyDistinct, ModelOf, DropOldest, Take, Keys,
         InsertOn, TakeOn, EvictOn, Find, Slab;
    SlabAlone(c.scan, c.scanLive, {});
    SlabAlone(c.lru, c.lruLive, c.leaked);
    match op
    case InsertOp(f, now, scanOk, lruOk) =>
      assert op in [op];
      assert InsertedKeys([op]) == {f.key};
      var scanMem := Allocate(c.scanLive, scanOk);
      var lruMem := Allocate(c.lruLive, lruOk);
      var fix: Fix := *;
      var ret := c.InsertScan(f, now, scanMem, lruMem, fix);
      out, ev := Code(ret), InsertEv(f, now, scanMem, lruMem, fix);
    case FindRemoveOp(f) =>
      var fix: Fix := *;
      ghost var before := c.S();
      var ret := c.FindRemove(f, fix);
      WithoutSubset(before, Find(old(c.scan), ToFile(f)));
      KeysSubset(c.S(), before);
      out, ev := Found(ret), FindRemoveEv(f, fix);
    case EvictOp(count) =>
      var fixes: seq<Fix> := *;
      c.Evict(count, fixes);
      KeysSubset(c.S(), old(c.S()));
      out, ev := Quiet, EvictEv(count, fixes);
    case PurgeOp =>
      c.Purge();
      KeysSubset(c.S(), old(c.S()));
      out, ev := Quiet, PurgeEv;
    case PurgeScanOp =>
      c.PurgeScan();
      KeysSubset(c.S(), old(c.S()));
      out, ev := Quiet, PurgeScanEv;
  }

  /**
   Any run of the object is a run of events on its trees.
   Without eviction the trees stay in step, and every scan record keeps its LRU record, for any keys,
   ordered or not.  On ordered keys eviction is safe too, and contents and outcomes are those of the
   map; if the scan tree may also be purged on its own, every scan record still has its LRU record.
   Each refused insert, and nothing else, leaks one LRU record.
   */
  method Run(c: ScanCache, ops: seq<Op>) returns (outs: seq<Outcome>, ghost trace: seq<Event>)
    requires c.Valid()
    modifies c
    ensures c.Valid()
    ensures |outs| == |ops| && OpsOf(trace) == ops
    ensures Exec(old(c.Trees()), trace) == Some((c.Trees(), outs))
    ensures old(c.InStep()) && (forall op :: op in ops ==> !op.EvictOp? && !op.PurgeScanOp?) ==> c.InStep()
    ensures old(c.Ordered() && c.Tracked() && Sortable(c, ops)) ==> c.Ordered() && c.Tracked()
    ensures old(c.Tracked()) && ((forall op :: op in ops ==> !op.EvictOp?) || old(c.Ordered() && Sortable(c, ops))) ==>
              c.Tracked() && c.refused == old(c.refused) + Refusals(ops, outs)
    ensures old(c.Ordered() && c.InStep() && Sortable(c, ops)) && (forall op :: op in ops ==> !op.PurgeScanOp?) ==>
              && c.Ordered() && c.InStep()
              && c.Contents() == ApplyAll(old(c.Contents()), ops)
              && outs == Answers(old(c.Contents()), ops)
  {
    hide Paired, Covered, Slab, LruSorted, ScanSorted, Items, OrderOn, KeyDistinct, ModelOf, Apply, Answer,
         Perform, Keys, Refused, OpOf, Exec;
    outs, trace := [], [];
    ExecNothing(c.Trees());
    ghost var sortable := Sortable(c, ops);
    ghost var calm := forall op :: op in ops ==> !op.EvictOp?;
    ghost var whole := forall op :: op in ops ==> !op.PurgeScanOp?;
    assert ops[..0] == [];
    for i := 0 to |ops|
      invariant c.Valid()
      invariant |outs| == i && OpsOf(trace) == ops[..i]
      invariant Exec(old(c.Trees()), trace) == Some((c.Trees(), outs))
      invariant Keys(c.S()) <= old(Keys(c.S())) + InsertedKeys(ops)
      invariant old(c.InStep()) && calm && whole ==> c.InStep()
      invariant old(c.Ordered()) && sortable ==> c.Ordered()
      invariant old(c.Tracked()) && (calm || (old(c.Ordered()) && sortable)) ==>
                  c.Tracked() && c.refused == old(c.refused) + Refusals(ops[..i], outs)
      invariant old(c.Ordered() && c.InStep()) && sortable && whole ==>
                  && c.InStep() && c.Contents() == ApplyAll(old(c.Contents()), ops[..i])
                  && outs == Answers(old(c.Contents()), ops[..i])
    {
      ghost var before := outs;
      assert ops[i] in ops && ops[..i + 1][..i] == ops[..i];
      assert InsertedKeys([ops[i]]) <= InsertedKeys(ops);
      if sortable {
        OrderOnSubset(Keys(c.S()) + InsertedKeys([ops[i]]), old(Keys(c.S())) + InsertedKeys(ops));
      }
      var out;
      ghost var ev;
      out, ev := Step(c, ops[i]);
      ExecSnoc(old(c.Trees()), trace, ev);
      outs, trace := outs + [out], trace + [ev];
      assert outs[..i] == before;
    }
    assert ops[..|ops|] == ops;
  }
}
