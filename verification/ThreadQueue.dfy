/**
 The two threads of thread.c and the module exit, as a step system.

 A run is any list of actions, one per step, so every interleaving is covered.  The queue is the
 sequence the TAILQ macros are proved to implement; what stands between taking and releasing the
 spinlock is split into the single reads, unlinks and frees.
 */
module ThreadQueue {
  import opened Wrappers
  import opened Seqs
  import TailQueue

  /** A struct scanRecord: its address and its datum. */
  datatype Rec = Rec(addr: nat, datum: int)

  datatype Owner = Nobody | Producer | Consumer

  /** Where test_thread1 is. */
  datatype ProducerPc =
    | PWait | PAlloc | PLock(rec: Rec) | PInsert(rec: Rec) | PUnlock | PCount | PCheck | PDone

  /** Where test_thread2 is; cur and next are the two variables of TAILQ_FOREACH_SAFE. */
  datatype ConsumerPc =
    | CWait | CLock
    | CTest(cur: Option<Rec>, next: Option<Rec>)
    | CRemove(rec: Rec, next: Option<Rec>)
    | CFree(rec: Rec, next: Option<Rec>)
    | CNext(next: Option<Rec>)
    | CUnlock | CCheck | CDone

  /** Where test_exit is: before, waiting for thread 1, waiting for thread 2, returned. */
  datatype ExitPc = XIdle | XStop1 | XStop2 | XDone

  datatype State = State(
    queue: seq<Rec>, lock: Owner, live: set<nat>,
    p: ProducerPc, rounds: nat, c: ConsumerPc, x: ExitPc, stop1: bool, stop2: bool,
    // history: what was enqueued and in which round, what was removed, what was
    // enqueued since the last drain, and how often memory was taken and given back
    enqueued: seq<int>, at: seq<nat>, removed: seq<int>, recent: seq<Rec>, allocs: nat, frees: nat)

  const START := State([], Nobody, {}, PWait, 0, CWait, XIdle, false, false, [], [], [], [], 0, 0)

  /** One step of one of the three; the environment decides on signals and on kmalloc. */
  datatype Action = P(signal: bool, mem: Option<nat>) | C(signal: bool) | X

  /** The C int that holds a round number. */
  function Int32(k: nat): int {
    (k + 0x8000_0000) % 0x1_0000_0000 - 0x8000_0000
  }

  /** The counter is the round number modulo 2^32 as an int: exactly the number until it overflows. */
  lemma Int32Exact(k: nat)
    ensures -0x8000_0000 <= Int32(k) < 0x8000_0000 && (k - Int32(k)) % 0x1_0000_0000 == 0
    ensures Int32(k) == k <==> k < 0x8000_0000
  {
  }

  function Get(q: seq<Rec>, i: nat): Option<Rec> {
    if i < |q| then Some(q[i]) else None
  }

  function Data(q: seq<Rec>): (d: seq<int>)
    ensures |d| == |q|
  {
    seq(|q|, i requires 0 <= i < |q| => q[i].datum)
  }

  function StepP(s: State, signal: bool, mem: Option<nat>): Option<State> {
    match s.p
    case PWait => Some(s.(p := if signal then PDone else PAlloc))
    case PAlloc =>
      if mem.None? then Some(s.(p := PCount))
      else if mem.value in s.live then None
      else Some(s.(p := PLock(Rec(mem.value, Int32(s.rounds))), live := s.live + {mem.value},
                   allocs := s.allocs + 1))
    case PLock(r) => if s.lock == Nobody then Some(s.(lock := Producer, p := PInsert(r))) else None
    case PInsert(r) =>
      Some(s.(p := PUnlock, queue := s.queue + [r], enqueued := s.enqueued + [r.datum],
              at := s.at + [s.rounds], recent := s.recent + [r]))
    case PUnlock => Some(s.(lock := Nobody, p := PCount))
    case PCount => Some(s.(rounds := s.rounds + 1, p := PCheck))
    case PCheck => Some(s.(p := if s.stop1 then PDone else PWait))
    case PDone => None
  }

  /** The entry behind r, as its next field has it. */
  function Behind(q: seq<Rec>, r: Rec): Option<Rec> {
    if q != [] && q[0] == r then Get(q, 1)
    else if q != [] then Behind(q[1..], r)
    else None
  }

  /** TAILQ_REMOVE. */
  function Unlink(q: seq<Rec>, r: Rec): seq<Rec> {
    if q == [] then []
    else if q[0] == r then q[1..]
    else [q[0]] + Unlink(q[1..], r)
  }

  /** The records of linked entries, each at its address. */
  ghost function Recs(es: seq<TailQueue.Entry>, addr: TailQueue.Entry -> nat): (q: seq<Rec>)
    reads es
    ensures |q| == |es|
  {
    seq(|es|, i requires 0 <= i < |es| reads es => Rec(addr(es[i]), es[i].datum))
  }

  ghost function RecOf(e: TailQueue.Entry?, addr: TailQueue.Entry -> nat): Option<Rec>
    reads e
  {
    if e == null then None else Some(Rec(addr(e), e.datum))
  }

  /**
   The queue of this model is a well-formed TAILQ seen through its records: the head and the next
   fields are what the steps read, and appending and removing are what `TailQueue.Queue.InsertTail`
   and `TailQueue.Queue.Remove` do to the entries.
   */
  lemma LikeTheMacros(t: TailQueue.Queue, addr: TailQueue.Entry -> nat, i: nat, e: TailQueue.Entry)
    requires t.Valid() && i < |t.elems|
    requires forall j, k :: 0 <= j < k < |t.elems| ==> addr(t.elems[j]) != addr(t.elems[k])
    ensures var q := Recs(t.elems, addr);
            && Get(q, 0) == RecOf(t.first, addr)
            && Behind(q, q[i]) == RecOf(t.elems[i].next, addr)
            && Unlink(q, q[i]) == Recs(RemoveAt(t.elems, i), addr)
            && q + [Rec(addr(e), e.datum)] == Recs(t.elems + [e], addr)
  {
    var q := Recs(t.elems, addr);
    assert Distinct(q);
    OnDistinct(q, i);
    assert t.NextAt(-1) == t.first && t.NextAt(i) == t.elems[i].next;
    assert RemoveAt(q, i) == Recs(RemoveAt(t.elems, i), addr);
  }

  lemma {:induction false} OnDistinct(q: seq<Rec>, i: nat)
    requires Distinct(q) && i < |q|
    ensures Unlink(q, q[i]) == RemoveAt(q, i) && Behind(q, q[i]) == Get(q, i + 1)
  {
    if i > 0 {
      OnDistinct(q[1..], i - 1);
      assert q[0] != q[i];
    }
  }

  function StepC(s: State, signal: bool): Option<State> {
    match s.c
    case CWait => Some(s.(c := if signal then CDone else CLock))
    case CLock =>
      if s.lock == Nobody then
        var cur := Get(s.queue, 0);
        Some(s.(lock := Consumer,
                c := CTest(cur, if cur.Some? then Behind(s.queue, cur.value) else None)))
      else None
    case CTest(cur, next) => Some(s.(c := if cur.Some? then CRemove(cur.value, next) else CUnlock))
    case CRemove(r, next) =>
      Some(s.(c := CFree(r, next), queue := Unlink(s.queue, r), removed := s.removed + [r.datum]))
    case CFree(r, next) =>
      Some(s.(c := CNext(next), live := s.live - {r.addr}, frees := s.frees + 1))
    case CNext(next) =>
      Some(s.(c := CTest(next, if next.Some? then Behind(s.queue, next.value) else None)))
    case CUnlock => Some(s.(lock := Nobody, c := CCheck, recent := []))
    case CCheck => Some(s.(c := if s.stop2 then CDone else CWait))
    case CDone => None
  }

  function StepX(s: State): Option<State> {
    match s.x
    case XIdle => Some(s.(x := XStop1, stop1 := true))
    case XStop1 => if s.p.PDone? then Some(s.(x := XStop2, stop2 := true)) else None
    case XStop2 => if s.c.CDone? then Some(s.(x := XDone)) else None
    case XDone => None
  }

  function Step(s: State, a: Action): Option<State> {
    match a
    case P(signal, mem) => StepP(s, signal, mem)
    case C(signal) => StepC(s, signal)
    case X => StepX(s)
  }

  /** The state after a run, or None if some action was not possible. */
  function Exec(s: State, run: seq<Action>): Option<State>
    decreases |run|
  {
    if run == [] then Some(s)
    else
      var t := Step(s, run[0]);
      if t.None? then None else Exec(t.value, run[1..])
  }

  // ----- the invariant

  function Addrs(q: seq<Rec>): seq<nat> {
    seq(|q|, i requires 0 <= i < |q| => q[i].addr)
  }

  /** The record the producer is about to insert. */
  ghost function HandP(p: ProducerPc): set<nat> {
    if p.PLock? || p.PInsert? then {p.rec.addr} else {}
  }

  /** The record the consumer is about to free. */
  ghost function HandC(c: ConsumerPc): set<nat> {
    if c.CFree? then {c.rec.addr} else {}
  }

  ghost predicate LockOk(lock: Owner, p: ProducerPc, c: ConsumerPc) {
    && (lock == Producer <==> p.PInsert? || p.PUnlock?)
    && (lock == Consumer <==> c.CTest? || c.CRemove? || c.CFree? || c.CNext? || c.CUnlock?)
  }

  /** Allocated is what is queued or in hand, each record in one place only. */
  ghost predicate MemoryOk(q: seq<Rec>, hp: set<nat>, hc: set<nat>, live: set<nat>, allocs: nat, frees: nat) {
    && Distinct(Addrs(q))
    && Elements(Addrs(q)) !! hp && Elements(Addrs(q)) !! hc && hp !! hc
    && live == Elements(Addrs(q)) + hp + hc
    && allocs == frees + |live|
  }

  /** The two loop variables of the drain. */
  ghost predicate LoopOk(q: seq<Rec>, c: ConsumerPc) {
    match c
    case CTest(cur, next) => cur == Get(q, 0) && next == Get(q, 1)
    case CRemove(r, next) => Get(q, 0) == Some(r) && next == Get(q, 1)
    case CFree(r, next) => next == Get(q, 0)
    case CNext(next) => next == Get(q, 0)
    case CUnlock => q == []
    case _ => true
  }

  /** First in, first out, and nothing lost. */
  ghost predicate FifoOk(enqueued: seq<int>, removed: seq<int>, q: seq<Rec>) {
    enqueued == removed + Data(q)
  }

  /** Each datum is the number of the round that enqueued it; rounds from `bound` on are to come. */
  ghost predicate RoundsOk(enqueued: seq<int>, at: seq<nat>, bound: nat) {
    && |at| == |enqueued|
    && (forall i :: 0 <= i < |at| ==> enqueued[i] == Int32(at[i]) && at[i] < bound)
    && (forall i, j :: 0 <= i < j < |at| ==> at[i] < at[j])
  }

  ghost function Bound(p: ProducerPc, rounds: nat): nat {
    if p.PUnlock? || p.PCount? then rounds + 1 else rounds
  }

  /** The threads are told to stop and waited for one after the other, the producer first. */
  ghost predicate ExitOk(x: ExitPc, stop1: bool, stop2: bool, p: ProducerPc, c: ConsumerPc) {
    && (stop1 <==> !x.XIdle?)
    && (stop2 <==> x.XStop2? || x.XDone?)
    && (x.XStop2? || x.XDone? ==> p.PDone?)
    && (x.XDone? ==> c.CDone?)
  }

  ghost predicate Inv(s: State) {
    && LockOk(s.lock, s.p, s.c)
    && MemoryOk(s.queue, HandP(s.p), HandC(s.c), s.live, s.allocs, s.frees)
    && LoopOk(s.queue, s.c)
    && FifoOk(s.enqueued, s.removed, s.queue)
    && (s.lock != Consumer ==> s.queue == s.recent)
    && RoundsOk(s.enqueued, s.at, Bound(s.p, s.rounds))
    && (s.p.PLock? || s.p.PInsert? ==> s.p.rec.datum == Int32(s.rounds))
    && ExitOk(s.x, s.stop1, s.stop2, s.p, s.c)
  }

  lemma QueueGrows(q: seq<Rec>, r: Rec)
    ensures Addrs(q + [r]) == Addrs(q) + [r.addr] && Data(q + [r]) == Data(q) + [r.datum]
    ensures Elements(Addrs(q + [r])) == Elements(Addrs(q)) + {r.addr}
    ensures Distinct(Addrs(q)) && r.addr !in Elements(Addrs(q)) ==> Distinct(Addrs(q + [r]))
  {
    InsertAtFacts(Addrs(q), |q|, r.addr);
    assert InsertAt(Addrs(q), |q|, r.addr) == Addrs(q) + [r.addr];
  }

  lemma QueueShrinks(q: seq<Rec>)
    requires q != [] && Distinct(Addrs(q))
    ensures Addrs(q[1..]) == Addrs(q)[1..] && Data(q) == [q[0].datum] + Data(q[1..])
    ensures Elements(Addrs(q[1..])) == Elements(Addrs(q)) - {q[0].addr}
    ensures Distinct(Addrs(q[1..]))
  {
    RemoveAtFacts(Addrs(q), 0);
    assert RemoveAt(Addrs(q), 0) == Addrs(q)[1..];
    assert Addrs(q[1..]) == Addrs(q)[1..];
  }

  lemma MemoryAlloc(q: seq<Rec>, hc: set<nat>, live: set<nat>, allocs: nat, frees: nat, a: nat)
    requires MemoryOk(q, {}, hc, live, allocs, frees) && a !in live
    ensures MemoryOk(q, {a}, hc, live + {a}, allocs + 1, frees)
  {
  }

  lemma MemoryInsert(q: seq<Rec>, hc: set<nat>, live: set<nat>, allocs: nat, frees: nat, r: Rec)
    requires MemoryOk(q, {r.addr}, hc, live, allocs, frees)
    ensures MemoryOk(q + [r], {}, hc, live, allocs, frees)
  {
    QueueGrows(q, r);
  }

  lemma MemoryUnlink(q: seq<Rec>, hp: set<nat>, live: set<nat>, allocs: nat, frees: nat)
    requires MemoryOk(q, hp, {}, live, allocs, frees) && q != []
    ensures MemoryOk(q[1..], hp, {q[0].addr}, live, allocs, frees)
  {
    QueueShrinks(q);
    assert q[0].addr == Addrs(q)[0];
  }

  lemma MemoryFree(q: seq<Rec>, hp: set<nat>, live: set<nat>, allocs: nat, frees: nat, a: nat)
    requires MemoryOk(q, hp, {a}, live, allocs, frees)
    ensures a in live && MemoryOk(q, hp, {}, live - {a}, allocs, frees + 1)
  {
    assert |live - {a}| == |live| - 1;
  }

  lemma RoundsGrow(enqueued: seq<int>, at: seq<nat>, k: nat)
    requires RoundsOk(enqueued, at, k)
    ensures RoundsOk(enqueued, at, k + 1)
    ensures RoundsOk(enqueued + [Int32(k)], at + [k], k + 1)
  {
  }

  lemma FifoInsert(enqueued: seq<int>, removed: seq<int>, q: seq<Rec>, r: Rec)
    requires FifoOk(enqueued, removed, q)
    ensures FifoOk(enqueued + [r.datum], removed, q + [r])
  {
    QueueGrows(q, r);
  }

  lemma FifoRemove(enqueued: seq<int>, removed: seq<int>, q: seq<Rec>)
    requires FifoOk(enqueued, removed, q) && q != []
    ensures FifoOk(enqueued, removed + [q[0].datum], q[1..])
  {
    assert Data(q) == [q[0].datum] + Data(q[1..]);
  }

  lemma AllocKeeps(s: State, mem: Option<nat>)
    requires Inv(s) && s.p.PAlloc? && StepP(s, false, mem).Some?
    ensures Inv(StepP(s, false, mem).value)
  {
    hide MemoryOk, RoundsOk, FifoOk, LoopOk, Int32;
    if mem.Some? {
      MemoryAlloc(s.queue, HandC(s.c), s.live, s.allocs, s.frees, mem.value);
    } else {
      RoundsGrow(s.enqueued, s.at, s.rounds);
    }
  }

  lemma InsertKeeps(s: State)
    requires Inv(s) && s.p.PInsert?
    ensures Inv(StepP(s, false, None).value)
  {
    hide MemoryOk, RoundsOk, FifoOk, LoopOk, Int32;
    var r := s.p.rec;
    MemoryInsert(s.queue, HandC(s.c), s.live, s.allocs, s.frees, r);
    RoundsGrow(s.enqueued, s.at, s.rounds);
    FifoInsert(s.enqueued, s.removed, s.queue, r);
    OutsideLoop(s.queue + [r], s.c);
  }

  lemma ProducerKeeps(s: State, signal: bool, mem: Option<nat>)
    requires Inv(s) && StepP(s, signal, mem).Some?
    ensures Inv(StepP(s, signal, mem).value)
  {
    hide Inv;
    if s.p.PAlloc? {
      AllocKeeps(s, mem);
    } else if s.p.PInsert? {
      InsertKeeps(s);
    } else {
      ProducerMoves(s, signal, mem);
    }
  }

  lemma ProducerMoves(s: State, signal: bool, mem: Option<nat>)
    requires Inv(s) && StepP(s, signal, mem).Some? && !s.p.PAlloc? && !s.p.PInsert?
    ensures Inv(StepP(s, signal, mem).value)
  {
    hide MemoryOk, RoundsOk, FifoOk, LoopOk, Int32;
  }

  lemma OutsideLoop(q: seq<Rec>, c: ConsumerPc)
    requires !(c.CTest? || c.CRemove? || c.CFree? || c.CNext? || c.CUnlock?)
    ensures LoopOk(q, c)
  {
  }

  lemma RemoveKeeps(s: State)
    requires Inv(s) && s.c.CRemove?
    ensures Inv(StepC(s, false).value)
  {
    hide MemoryOk, RoundsOk, FifoOk, Int32;
    MemoryUnlink(s.queue, HandP(s.p), s.live, s.allocs, s.frees);
    FifoRemove(s.enqueued, s.removed, s.queue);
  }

  lemma FreeKeeps(s: State)
    requires Inv(s) && s.c.CFree?
    ensures s.c.rec.addr in s.live
    ensures Inv(StepC(s, false).value)
  {
    hide MemoryOk, RoundsOk, FifoOk, Int32;
    MemoryFree(s.queue, HandP(s.p), s.live, s.allocs, s.frees, s.c.rec.addr);
  }

  lemma ConsumerMoves(s: State, signal: bool)
    requires Inv(s) && StepC(s, signal).Some? && !s.c.CRemove? && !s.c.CFree?
    ensures Inv(StepC(s, signal).value)
  {
    hide MemoryOk, RoundsOk, FifoOk, Int32;
  }

  lemma ConsumerKeeps(s: State, signal: bool)
    requires Inv(s) && StepC(s, signal).Some?
    ensures Inv(StepC(s, signal).value)
  {
    hide Inv;
    if s.c.CRemove? {
      RemoveKeeps(s);
    } else if s.c.CFree? {
      FreeKeeps(s);
    } else {
      ConsumerMoves(s, signal);
    }
  }

  lemma StepKeeps(s: State, a: Action)
    requires Inv(s) && Step(s, a).Some?
    ensures Inv(Step(s, a).value)
  {
    hide Inv;
    match a
    case P(signal, mem) => ProducerKeeps(s, signal, mem);
    case C(signal) => ConsumerKeeps(s, signal);
    case X => ExitKeeps(s);
  }

  /** Every run keeps the invariant. */
  lemma {:induction false} RunKeeps(s: State, run: seq<Action>)
    requires Inv(s) && Exec(s, run).Some?
    ensures Inv(Exec(s, run).value)
    decreases |run|
  {
    hide Inv;
    if run != [] {
      StepKeeps(s, run[0]);
      RunKeeps(Step(s, run[0]).value, run[1..]);
    }
  }

  lemma ExitKeeps(s: State)
    requires Inv(s) && StepX(s).Some?
    ensures Inv(StepX(s).value)
  {
    hide MemoryOk, RoundsOk, FifoOk, LoopOk, LockOk;
  }

  lemma StartOk()
    ensures Inv(START)
  {
    assert Addrs([]) == [] && Data([]) == [];
    assert Elements(Addrs([])) == {};
  }

  // ----- what every interleaving guarantees

  /** Addresses the next step of the producer reads or writes: its record and the last one. */
  ghost function TouchedP(s: State): set<nat> {
    match s.p
    case PLock(r) => {r.addr}
    case PInsert(r) => {r.addr} + (if s.queue == [] then {} else {s.queue[|s.queue| - 1].addr})
    case _ => {}
  }

  /** Addresses the next step of the consumer reads, writes or frees. */
  ghost function TouchedC(s: State): set<nat> {
    match s.c
    case CLock => if s.lock == Nobody && s.queue != [] then {s.queue[0].addr} else {}
    case CTest(cur, _) => if cur.Some? then {cur.value.addr} else {}
    case CRemove(r, _) => {r.addr} + (match Behind(s.queue, r) case Some(n) => {n.addr} case None => {})
    case CFree(r, _) => {r.addr}
    case CNext(next) => if next.Some? then {next.value.addr} else {}
    case _ => {}
  }

  /** Data come out in the order they went in, none is lost, none is invented. */
  lemma FirstInFirstOut(run: seq<Action>)
    requires Exec(START, run).Some?
    ensures var s := Exec(START, run).value;
            s.enqueued == s.removed + Data(s.queue)
  {
    StartOk();
    RunKeeps(START, run);
  }

  ghost predicate Ascending(d: seq<int>) {
    forall i, j :: 0 <= i < j < |d| ==> d[i] < d[j]
  }

  /** The enqueued data strictly increase as long as the counter has not overflowed. */
  lemma Increasing(run: seq<Action>)
    requires Exec(START, run).Some?
    ensures var s := Exec(START, run).value;
            Bound(s.p, s.rounds) <= 0x8000_0000 ==> Ascending(s.enqueued)
  {
    StartOk();
    RunKeeps(START, run);
    var s := Exec(START, run).value;
    if Bound(s.p, s.rounds) <= 0x8000_0000 {
      forall i, j | 0 <= i < j < |s.enqueued| ensures s.enqueued[i] < s.enqueued[j] {
        Int32Exact(s.at[i]);
        Int32Exact(s.at[j]);
      }
    }
  }

  /** As many strictly increasing numbers below n as there are: all of them. */
  lemma {:induction false} NoGaps(at: seq<nat>, n: nat)
    requires |at| == n
    requires forall i :: 0 <= i < |at| ==> at[i] < n
    requires forall i, j :: 0 <= i < j < |at| ==> at[i] < at[j]
    ensures forall i :: 0 <= i < |at| ==> at[i] == i
  {
    if n > 0 {
      assert at[n - 1] >= n - 1 by { Spread(at, n - 1); }
      NoGaps(at[..n - 1], n - 1);
    }
  }

  lemma {:induction false} Spread(at: seq<nat>, i: nat)
    requires i < |at| && forall i, j :: 0 <= i < j < |at| ==> at[i] < at[j]
    ensures at[i] >= i
  {
    if i > 0 {
      Spread(at, i - 1);
    }
  }

  /**
   The exact condition when no allocation failed, that is when every round enqueued its record:
   the data strictly increase if and only if there are at most 2^31 of them.
   */
  lemma IncreasingIff(run: seq<Action>)
    requires Exec(START, run).Some?
    requires var s := Exec(START, run).value; |s.enqueued| == Bound(s.p, s.rounds)
    ensures var s := Exec(START, run).value;
            Ascending(s.enqueued) <==> |s.enqueued| <= 0x8000_0000
  {
    StartOk();
    RunKeeps(START, run);
    Increasing(run);
    var s := Exec(START, run).value;
    NoGaps(s.at, |s.at|);
    if |s.enqueued| > 0x8000_0000 {
      assert s.enqueued[0x8000_0000] == Int32(0x8000_0000) < Int32(0) == s.enqueued[0];
    }
  }

  /** Nothing is used after it was freed, nothing is freed twice, and memory is accounted for. */
  lemma NoUseAfterFree(run: seq<Action>)
    requires Exec(START, run).Some?
    ensures var s := Exec(START, run).value;
            TouchedP(s) + TouchedC(s) <= s.live && s.allocs == s.frees + |s.live|
  {
    hide Inv;
    StartOk();
    RunKeeps(START, run);
    TouchedAreLive(Exec(START, run).value);
  }

  lemma QueuedAreLive(s: State)
    requires Inv(s)
    ensures forall i :: 0 <= i < |s.queue| ==> s.queue[i].addr in s.live
    ensures HandP(s.p) + HandC(s.c) <= s.live && s.allocs == s.frees + |s.live|
  {
    forall i | 0 <= i < |s.queue| ensures s.queue[i].addr in s.live {
      assert s.queue[i].addr == Addrs(s.queue)[i];
    }
  }

  lemma TouchedAreLive(s: State)
    requires Inv(s)
    ensures TouchedP(s) <= s.live && TouchedC(s) <= s.live && s.allocs == s.frees + |s.live|
  {
    hide MemoryOk, RoundsOk, FifoOk, ExitOk;
    QueuedAreLive(s);
  }

  /** What a finished module leaves behind: exactly what was enqueued since the last drain. */
  lemma LeftAtExit(run: seq<Action>)
    requires Exec(START, run).Some? && Exec(START, run).value.x.XDone?
    ensures var s := Exec(START, run).value;
            s.queue == s.recent && s.live == Elements(Addrs(s.recent))
  {
    StartOk();
    RunKeeps(START, run);
  }

  /** The producer has ended and the queue is empty or being drained. */
  ghost predicate Draining(s: State) {
    s.p.PDone? && (s.lock == Consumer || s.queue == [])
  }

  lemma DrainStep(s: State, a: Action)
    requires Inv(s) && Draining(s) && Step(s, a).Some?
    ensures Draining(Step(s, a).value)
  {
    hide MemoryOk, RoundsOk, FifoOk, ExitOk;
  }

  lemma {:induction false} DrainingStays(s: State, run: seq<Action>)
    requires Inv(s) && Draining(s) && Exec(s, run).Some?
    ensures Draining(Exec(s, run).value)
    decreases |run|
  {
    if run != [] {
      StepKeeps(s, run[0]);
      DrainStep(s, run[0]);
      DrainingStays(Step(s, run[0]).value, run[1..]);
    }
  }

  /** A drain that takes the lock after the producer ended leaves nothing behind at the exit. */
  lemma LateDrainLeavesNothing(before: seq<Action>, after: seq<Action>)
    requires Exec(START, before).Some?
    requires var s := Exec(START, before).value; s.p.PDone? && s.c.CLock? && s.lock == Nobody
    requires Exec(Exec(START, before).value, [C(false)] + after).Some?
    requires Exec(Exec(START, before).value, [C(false)] + after).value.x.XDone?
    ensures var s := Exec(Exec(START, before).value, [C(false)] + after).value;
            s.queue == [] && s.live == {}
  {
    StartOk();
    RunKeeps(START, before);
    var s := Exec(START, before).value;
    ConsumerKeeps(s, false);
    var t := Step(s, C(false)).value;
    assert ([C(false)] + after)[1..] == after;
    RunKeeps(t, after);
    DrainingStays(t, after);
    assert Addrs([]) == [];
  }

  // ----- a run that leaves a record behind

  lemma {:induction false} ExecAppend(s: State, a: seq<Action>, b: seq<Action>)
    requires Exec(s, a).Some?
    ensures Exec(s, a + b) == Exec(Exec(s, a).value, b)
    decreases |a|
  {
    if a == [] {
      assert a + b == b;
    } else {
      assert (a + b)[1..] == a[1..] + b;
      ExecAppend(Step(s, a[0]).value, a[1..], b);
    }
  }

  lemma ExecFour(s: State, a: Action, b: Action, c: Action, d: Action)
    requires Step(s, a).Some?
    requires Step(Step(s, a).value, b).Some?
    requires Step(Step(Step(s, a).value, b).value, c).Some?
    ensures Exec(s, [a, b, c, d]) == Step(Step(Step(Step(s, a).value, b).value, c).value, d)
  {
    assert [a, b, c, d][1..] == [b, c, d] && [b, c, d][1..] == [c, d] && [c, d][1..] == [d] && [d][1..] == [];
    var s1 := Step(s, a).value;
    var s2 := Step(s1, b).value;
    var s3 := Step(s2, c).value;
    assert Exec(s3, [d]) == Step(s3, d);
    assert Exec(s2, [c, d]) == Exec(s3, [d]);
    assert Exec(s1, [b, c, d]) == Exec(s2, [c, d]);
  }

  /** A drain of the empty queue, up to the look at the stop flag. */
  lemma IdleDrain(s: State)
    requires s.c == CWait && s.queue == [] && s.recent == [] && s.lock == Nobody
    ensures Exec(s, [C(false), C(false), C(false), C(false)]) == Some(s.(c := CCheck))
  {
    ExecFour(s, C(false), C(false), C(false), C(false));
  }

  /** A round of the producer, up to the release of the lock. */
  lemma OneRound(s: State)
    requires s.p == PWait && s.rounds == 0 && s.live == {} && s.queue == [] && s.lock == Nobody
    ensures var p := P(false, Some(1));
            var t := Exec(s, [p, p, p, p]);
            && t.Some? && t.value.p == PUnlock && t.value.queue == [Rec(1, 0)]
            && t.value.c == s.c && t.value.x == s.x
  {
    var p := P(false, Some(1));
    ExecFour(s, p, p, p, p);
  }

  /** The producer is told to stop and ends. */
  lemma LastRound(s: State)
    requires s.p == PUnlock && s.x == XIdle
    ensures var p := P(false, Some(1));
            var t := Exec(s, [p, p, X, p]);
            && t.Some? && t.value.p == PDone && t.value.x == XStop1
            && t.value.queue == s.queue && t.value.c == s.c
  {
    var p := P(false, Some(1));
    ExecFour(s, p, p, X, p);
  }

  /** The consumer sees its stop flag and ends without another drain. */
  lemma Quit(s: State)
    requires s.p == PDone && s.x == XStop1 && s.c == CCheck
    ensures var t := Exec(s, [X, C(false), X]);
            t.Some? && t.value.x == XDone && t.value.queue == s.queue
  {
    assert [X, C(false), X][1..] == [C(false), X] && [C(false), X][1..] == [X] && [X][1..] == [];
    var s1 := Step(s, X).value;
    var s2 := Step(s1, C(false)).value;
    assert Exec(s2, [X]) == Step(s2, X);
    assert Exec(s1, [C(false), X]) == Exec(s2, [X]);
  }

  /**
   No signal is needed to leak: the consumer has drained but not yet looked at its stop flag when
   the producer enqueues its last record.
   */
  lemma ExitCanLeaveARecord() returns (run: seq<Action>)
    ensures Exec(START, run).Some?
    ensures Exec(START, run).value.x.XDone? && Exec(START, run).value.queue == [Rec(1, 0)]
    ensures forall a :: a in run && !a.X? ==> !a.signal
  {
    hide Step, Exec;
    var p, c := P(false, Some(1)), C(false);
    var drain, produce, finish, quit := [c, c, c, c], [p, p, p, p], [p, p, X, p], [X, c, X];
    IdleDrain(START);
    var s1 := Exec(START, drain).value;
    OneRound(s1);
    var s2 := Exec(s1, produce).value;
    LastRound(s2);
    var s3 := Exec(s2, finish).value;
    Quit(s3);
    run := drain + (produce + (finish + quit));
    ExecAppend(START, drain, produce + (finish + quit));
    ExecAppend(s1, produce, finish + quit);
    ExecAppend(s2, finish, quit);
  }
}
