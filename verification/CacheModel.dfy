/**
 What the scan cache is for: one finite map from (device, inode) to the generation and time
 stamp of the last insert.  Also the two relations between the records of the scan tree and the
 records of the LRU tree that the cache keeps.
 */
module CacheModel {
  import opened Wrappers
  import opened Records

  const ENOMEM := 12

  datatype Age = Age(gen: Word32, stamp: Stamp)
  type Model = map<Key, Age>

  // ----- the operations on the map

  ghost predicate Clashes(m: Model, e: Entry) {
    exists k :: k in m && k != e.key && m[k].stamp == e.stamp
  }

  /**
   Insert.  Out of memory for the scan record: nothing happens.  Out of memory for the LRU
   record, or a time stamp another key already has: the key is gone, old binding included.
   */
  ghost function Bind(m: Model, e: Entry, scanOk: bool, lruOk: bool): (r: (Model, int)) {
    if !scanOk then (m, -ENOMEM)
    else if !lruOk || Clashes(m, e) then (m - {e.key}, -1)
    else (m[e.key := Age(e.gen, e.stamp)], 0)
  }

  predicate Holds(m: Model, f: FileInfo) {
    f.key in m && m[f.key].gen == f.gen
  }

  /** Find and remove: only an entry of the same generation. */
  function Take(m: Model, f: FileInfo): Model {
    if Holds(m, f) then m - {f.key} else m
  }

  ghost predicate StampsUnique(m: Model) {
    forall j, k :: j in m && k in m && m[j].stamp == m[k].stamp ==> j == k
  }

  ghost predicate IsOldest(m: Model, k: Key) {
    k in m && forall j :: j in m ==> !Older(m[j].stamp, m[k].stamp)
  }

  lemma {:induction false} OldestExists(m: Model) returns (k: Key)
    requires m != map[]
    ensures IsOldest(m, k)
    decreases m.Keys
  {
    var x :| x in m;
    var rest := m - {x};
    if rest == map[] {
      k := x;
      assert forall j :: j in m ==> j == x || j in rest;
    } else {
      assert rest.Keys == m.Keys - {x};
      var y := OldestExists(rest);
      k := if Older(m[x].stamp, m[y].stamp) then x else y;
      forall j | j in m ensures !Older(m[j].stamp, m[k].stamp) {
        assert j == x || j in rest;
        StampOrder(m[j].stamp, m[x].stamp, m[y].stamp);
      }
    }
  }

  ghost function Oldest(m: Model): (k: Key)
    requires m != map[]
    ensures IsOldest(m, k)
  {
    assert exists k :: IsOldest(m, k) by { var k := OldestExists(m); }
    var k :| IsOldest(m, k);
    k
  }

  /** Eviction: n times, forget the oldest entry. */
  ghost function DropOldest(m: Model, n: int): Model
    decreases n
  {
    if n <= 0 || m == map[] then m else DropOldest(m - {Oldest(m)}, n - 1)
  }

  lemma OlderTotal(a: Stamp, b: Stamp)
    ensures a != b ==> Older(a, b) || Older(b, a)
  {
    StampOrder(a, b, a);
  }

  /** `d` is `m` without its min(n, size) oldest entries, and otherwise unchanged. */
  ghost predicate OldestGone(m: Model, d: Model, n: int) {
    && d.Keys <= m.Keys
    && (forall k :: k in d ==> d[k] == m[k])
    && |d| == (if n <= 0 then |m| else if n < |m| then |m| - n else 0)
    && (forall j, k :: j in m && j !in d && k in d ==> Nanoseconds(m[j].stamp) < Nanoseconds(m[k].stamp))
  }

  lemma OldestBefore(m: Model, k: Key, j: Key)
    requires StampsUnique(m) && IsOldest(m, k) && j in m && j != k
    ensures Nanoseconds(m[k].stamp) < Nanoseconds(m[j].stamp)
  {
    OlderTotal(m[j].stamp, m[k].stamp);
  }

  lemma OneMoreGone(m: Model, k: Key, d: Model, n: int)
    requires StampsUnique(m) && k in m && IsOldest(m, k) && n > 0
    requires OldestGone(m - {k}, d, n - 1)
    ensures OldestGone(m, d, n)
  {
    hide Nanoseconds, StampsUnique, IsOldest;
    var rest := m - {k};
    assert rest.Keys == m.Keys - {k};
    forall i, j | i in m && i !in d && j in d ensures Nanoseconds(m[i].stamp) < Nanoseconds(m[j].stamp) {
      assert j in rest;
      if i != k {
        assert i in rest;
      } else {
        OldestBefore(m, k, j);
      }
    }
  }

  /** Eviction removes exactly the oldest entries, as many as it is asked for or as there are. */
  lemma {:induction false} DropOldestFacts(m: Model, n: int)
    requires StampsUnique(m)
    ensures OldestGone(m, DropOldest(m, n), n)
    decreases n
  {
    hide OldestGone;
    if n > 0 && m != map[] {
      var k := Oldest(m);
      DropOldestFacts(m - {k}, n - 1);
      OneMoreGone(m, k, DropOldest(m, n), n);
    } else {
      NoneGone(m, n);
    }
  }

  lemma NoneGone(m: Model, n: int)
    requires n <= 0 || m == map[]
    ensures OldestGone(m, m, n)
  {
  }

  // ----- runs

  datatype Op =
    | InsertOp(file: FileInfo, now: Stamp, scanOk: bool, lruOk: bool)
    | FindRemoveOp(file: FileInfo)
    | EvictOp(count: int)
    | PurgeOp
    | PurgeScanOp

  ghost function Apply(m: Model, op: Op): Model {
    match op
    case InsertOp(f, now, scanOk, lruOk) => Bind(m, Entry(f.key, f.gen, now), scanOk, lruOk).0
    case FindRemoveOp(f) => Take(m, f)
    case EvictOp(count) => DropOldest(m, count)
    case PurgeOp => map[]
    case PurgeScanOp => map[]
  }

  ghost function ApplyAll(m: Model, ops: seq<Op>): Model {
    if ops == [] then m else Apply(ApplyAll(m, ops[..|ops| - 1]), ops[|ops| - 1])
  }

  /** Eviction on the map, in the count it is asked for. */
  lemma EvictOnMap(m: Model, count: int)
    requires StampsUnique(m)
    ensures var d := Apply(m, EvictOp(count));
            && (count <= 0 ==> d == m)
            && (count > 0 ==> |d| == if count < |m| then |m| - count else 0)
            && d.Keys <= m.Keys && (forall k :: k in d ==> d[k] == m[k])
            && (forall j, k :: j in m && j !in d && k in d ==> Nanoseconds(m[j].stamp) < Nanoseconds(m[k].stamp))
  {
    DropOldestFacts(m, count);
  }

  /** What a call reports: an insert its code, a find-and-remove whether it found. */
  datatype Outcome = Code(ret: int) | Found(yes: bool) | Quiet

  ghost function Answer(m: Model, op: Op): Outcome {
    match op
    case InsertOp(f, now, scanOk, lruOk) => Code(Bind(m, Entry(f.key, f.gen, now), scanOk, lruOk).1)
    case FindRemoveOp(f) => Found(Holds(m, f))
    case _ => Quiet
  }

  ghost function Answers(m: Model, ops: seq<Op>): seq<Outcome> {
    if ops == [] then []
    else
      var k := |ops| - 1;
      Answers(m, ops[..k]) + [Answer(ApplyAll(m, ops[..k]), ops[k])]
  }

  /** An insert that got both its records and still failed: its LRU record was refused. */
  predicate Refused(op: Op, out: Outcome) {
    op.InsertOp? && op.scanOk && op.lruOk && out == Code(-1)
  }

  function Refusals(ops: seq<Op>, outs: seq<Outcome>): nat
    requires |ops| == |outs|
  {
    if ops == [] then 0
    else
      var k := |ops| - 1;
      Refusals(ops[..k], outs[..k]) + if Refused(ops[k], outs[k]) then 1 else 0
  }

  /** The keys a run may bring into the cache. */
  ghost function InsertedKeys(ops: seq<Op>): set<Key> {
    set op | op in ops && op.InsertOp? :: op.file.key
  }

  lemma ApplyKeepsStampsUnique(m: Model, op: Op)
    requires StampsUnique(m)
    ensures StampsUnique(Apply(m, op))
  {
    hide DropOldest;
    if op.EvictOp? {
      DropOldestFacts(m, op.count);
    }
  }

  /** No run of the map ever gives two keys one time stamp. */
  lemma {:induction false} RunKeepsStampsUnique(m: Model, ops: seq<Op>)
    requires StampsUnique(m)
    ensures StampsUnique(ApplyAll(m, ops))
  {
    hide StampsUnique, Apply;
    if ops != [] {
      RunKeepsStampsUnique(m, ops[..|ops| - 1]);
      ApplyKeepsStampsUnique(ApplyAll(m, ops[..|ops| - 1]), ops[|ops| - 1]);
    }
  }

  // ----- the two sets of records

  ghost predicate StampDistinct(rs: set<Record>) {
    forall a, b :: a in rs && b in rs && a.entry.stamp == b.entry.stamp ==> a == b
  }

  ghost predicate KeyDistinct(rs: set<Record>) {
    forall a, b :: a in rs && b in rs && a.entry.key == b.entry.key ==> a == b
  }

  ghost function Entries(rs: set<Record>): set<Entry> {
    set r | r in rs :: r.entry
  }

  /** Every scan record has its LRU record. */
  ghost predicate Covered(scan: set<Record>, lru: set<Record>) {
    StampDistinct(scan) && StampDistinct(lru) && Entries(scan) <= Entries(lru)
  }

  /** One to one: every scan record has its LRU record and no LRU record is left over. */
  ghost predicate Paired(scan: set<Record>, lru: set<Record>) {
    StampDistinct(scan) && StampDistinct(lru) && Entries(scan) == Entries(lru)
  }

  ghost function ModelOf(scan: set<Record>): Model
    requires KeyDistinct(scan)
  {
    map r | r in scan :: r.entry.key := Age(r.entry.gen, r.entry.stamp)
  }

  /** A scan record and an LRU record with its time stamp are partners. */
  lemma Partners(scan: set<Record>, lru: set<Record>, r: Record, l: Record)
    requires Covered(scan, lru)
    requires r in scan && l in lru && r.entry.stamp == l.entry.stamp
    ensures r.entry == l.entry
  {
    assert r.entry in Entries(scan);
    var p :| p in lru && p.entry == r.entry;
  }

  lemma AddBoth(scan: set<Record>, lru: set<Record>, x: Record, l: Record)
    requires Covered(scan, lru) && x.entry == l.entry
    requires forall p :: p in lru ==> p.entry.stamp != x.entry.stamp
    ensures Covered(scan + {x}, lru + {l})
    ensures Paired(scan, lru) ==> Paired(scan + {x}, lru + {l})
  {
    assert Entries(scan + {x}) == Entries(scan) + {x.entry};
    assert Entries(lru + {l}) == Entries(lru) + {l.entry};
    forall r | r in scan ensures r.entry.stamp != x.entry.stamp {
      assert r.entry in Entries(scan);
    }
  }

  lemma DropBoth(scan: set<Record>, lru: set<Record>, r: Record, l: Record)
    requires Covered(scan, lru)
    requires r in scan && l in lru && r.entry.stamp == l.entry.stamp
    ensures Covered(scan - {r}, lru - {l})
    ensures Paired(scan, lru) ==> Paired(scan - {r}, lru - {l})
  {
    Partners(scan, lru, r, l);
    assert Entries(scan - {r}) == Entries(scan) - {r.entry};
    assert Entries(lru - {l}) == Entries(lru) - {l.entry};
  }

  /** Eviction may drop a stale LRU record with a later scan record of the same key. */
  lemma DropStale(scan: set<Record>, lru: set<Record>, r: Record, l: Record)
    requires Covered(scan, lru) && KeyDistinct(scan)
    requires r in scan && l in lru && r.entry.key == l.entry.key
    ensures Covered(scan - {r}, lru - {l})
  {
    assert Entries(lru - {l}) == Entries(lru) - {l.entry};
    forall e | e in Entries(scan - {r}) ensures e in Entries(lru - {l}) {
      var q :| q in scan - {r} && q.entry == e;
      assert e in Entries(scan);
    }
  }

  lemma ModelAdd(scan: set<Record>, x: Record)
    requires KeyDistinct(scan)
    requires forall r :: r in scan ==> r.entry.key != x.entry.key
    ensures KeyDistinct(scan + {x})
    ensures ModelOf(scan + {x}) == ModelOf(scan)[x.entry.key := Age(x.entry.gen, x.entry.stamp)]
  {
  }

  lemma ModelDrop(scan: set<Record>, r: Record)
    requires KeyDistinct(scan) && r in scan
    ensures KeyDistinct(scan - {r})
    ensures ModelOf(scan - {r}) == ModelOf(scan) - {r.entry.key}
  {
  }

  lemma ModelStampsUnique(scan: set<Record>)
    requires KeyDistinct(scan) && StampDistinct(scan)
    ensures StampsUnique(ModelOf(scan))
  {
  }

  /** In a one-to-one cache, an LRU record has the stamp of a new entry exactly when the map clashes. */
  lemma ClashIff(scan: set<Record>, lru: set<Record>, e: Entry)
    requires Paired(scan, lru) && KeyDistinct(scan)
    requires forall r :: r in scan ==> r.entry.key != e.key
    ensures Clashes(ModelOf(scan), e) <==> exists l :: l in lru && l.entry.stamp == e.stamp
  {
    var m := ModelOf(scan);
    if k :| k in m && k != e.key && m[k].stamp == e.stamp {
      var r :| r in scan && r.entry.key == k;
      assert r.entry in Entries(scan);
    }
    if l :| l in lru && l.entry.stamp == e.stamp {
      assert l.entry in Entries(lru);
      var r :| r in scan && r.entry == l.entry;
      assert r.entry.key in m && m[r.entry.key].stamp == e.stamp;
    }
  }

  // ----- one insert on the two sets

  ghost function Without(rs: set<Record>, r: Option<Record>): set<Record> {
    if r.Some? then rs - {r.value} else rs
  }

  /** `hit` is a scan record with the new key, `partner` the LRU record found for it. */
  ghost predicate Replaces(scan: set<Record>, lru: set<Record>, k: Key, hit: Option<Record>, partner: Option<Record>) {
    && (hit.Some? ==> hit.value in scan && hit.value.entry.key == k)
    && (partner.Some? ==>
          hit.Some? && partner.value in lru && partner.value.entry.stamp == hit.value.entry.stamp)
    && (hit.Some? && partner.None? ==> !Clash(lru, hit.value.entry.stamp))
  }

  /** In a covered cache the record to be replaced has its partner. */
  lemma PartnerFound(scan: set<Record>, lru: set<Record>, k: Key, hit: Option<Record>, partner: Option<Record>)
    requires Covered(scan, lru) && Replaces(scan, lru, k, hit, partner)
    ensures partner.Some? <==> hit.Some?
  {
    if hit.Some? {
      assert hit.value.entry in Entries(scan);
    }
  }

  /** Replacing or adding in both sets, or undoing it in both, keeps them related. */
  lemma InsertKeeps(scan: set<Record>, lru: set<Record>, hit: Option<Record>, partner: Option<Record>,
                    x: Record, l: Record)
    requires Covered(scan, lru) && Replaces(scan, lru, x.entry.key, hit, partner)
    requires x.entry == l.entry
    ensures Covered(Without(scan, hit), Without(lru, partner))
    ensures Paired(scan, lru) ==> Paired(Without(scan, hit), Without(lru, partner))
    ensures !Clash(Without(lru, partner), x.entry.stamp) ==>
              && Covered(Without(scan, hit) + {x}, Without(lru, partner) + {l})
              && (Paired(scan, lru) ==> Paired(Without(scan, hit) + {x}, Without(lru, partner) + {l}))
  {
    PartnerFound(scan, lru, x.entry.key, hit, partner);
    if hit.Some? {
      DropBoth(scan, lru, hit.value, partner.value);
    }
    if !Clash(Without(lru, partner), x.entry.stamp) {
      AddBoth(Without(scan, hit), Without(lru, partner), x, l);
    }
  }

  lemma HitGone(scan: set<Record>, k: Key, hit: Option<Record>)
    requires KeyDistinct(scan)
    requires hit.Some? ==> hit.value in scan && hit.value.entry.key == k
    requires hit.None? ==> forall r :: r in scan ==> r.entry.key != k
    ensures KeyDistinct(Without(scan, hit))
    ensures forall r :: r in Without(scan, hit) ==> r.entry.key != k
    ensures ModelOf(Without(scan, hit)) == ModelOf(scan) - {k}
  {
  }

  lemma ClashesIgnoresKey(m: Model, e: Entry)
    ensures Clashes(m, e) <==> Clashes(m - {e.key}, e)
  {
    if k :| k in m && k != e.key && m[k].stamp == e.stamp {
      assert k in m - {e.key};
    }
  }

  /** The two sets after an insert represent the map after `Bind`. */
  lemma InsertRefines(scan: set<Record>, lru: set<Record>, hit: Option<Record>, partner: Option<Record>,
                      x: Record, lruOk: bool)
    requires Paired(scan, lru) && KeyDistinct(scan)
    requires Replaces(scan, lru, x.entry.key, hit, partner)
    requires hit.None? ==> forall r :: r in scan ==> r.entry.key != x.entry.key
    ensures KeyDistinct(Without(scan, hit)) && KeyDistinct(Without(scan, hit) + {x})
    ensures Bind(ModelOf(scan), x.entry, true, lruOk) ==
            if lruOk && !Clash(Without(lru, partner), x.entry.stamp)
            then (ModelOf(Without(scan, hit) + {x}), 0)
            else (ModelOf(Without(scan, hit)), -1)
  {
    var m, key, age := ModelOf(scan), x.entry.key, Age(x.entry.gen, x.entry.stamp);
    HitGone(scan, key, hit);
    assert Clashes(m, x.entry) <==> Clash(Without(lru, partner), x.entry.stamp) by {
      InsertKeeps(scan, lru, hit, partner, x, x);
      ClashesIgnoresKey(m, x.entry);
      ClashIff(Without(scan, hit), Without(lru, partner), x.entry);
    }
    ModelAdd(Without(scan, hit), x);
    assert (m - {key})[key := age] == m[key := age];
  }
}
