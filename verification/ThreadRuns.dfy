/**
 What the runs of thread.c can do: the consumer goes on draining, the rounds are the attempts to
 allocate, either thread ends only when it is told to, and the module exit always comes through.
 */
module ThreadRuns {
  import opened Wrappers
  import opened Seqs
  import opened ThreadQueue

  // ----- putting runs together

  /** A run from s that ends in t. */
  ghost predicate Leads(s: State, run: seq<Action>, t: State) {
    Exec(s, run) == Some(t)
  }

  lemma LeadsNowhere(s: State)
    ensures Leads(s, [], s)
  {
  }

  lemma LeadsOn(s: State, a: seq<Action>, t: State, b: seq<Action>, u: State)
    requires Leads(s, a, t) && Leads(t, b, u)
    ensures Leads(s, a + b, u)
  {
    ExecAppend(s, a, b);
  }

  lemma LeadsByStep(s: State, a: Action, t: State, rest: seq<Action>, u: State)
    requires Step(s, a) == Some(t) && Leads(t, rest, u)
    ensures Leads(s, [a] + rest, u)
  {
    assert ([a] + rest)[1..] == rest;
  }

  lemma LeadsKeeps(s: State, run: seq<Action>, t: State)
    requires Inv(s) && Leads(s, run, t)
    ensures Inv(t)
  {
    hide Inv;
    RunKeeps(s, run);
  }

  // ----- the consumer goes on draining

  /** Nothing but the consumer moved. */
  ghost predicate ConsumerMoved(s: State, t: State) {
    t == s.(c := t.c, lock := t.lock, queue := t.queue, removed := t.removed, live := t.live, frees := t.frees,
            recent := t.recent)
  }

  predicate OnlyConsumer(run: seq<Action>) {
    forall a :: a in run ==> a == C(false)
  }

  function DrainRank(c: ConsumerPc): nat {
    match c
    case CCheck => 7
    case CWait => 6
    case CLock => 5
    case CFree(_, _) => 4
    case CNext(_) => 3
    case CTest(_, _) => 2
    case CRemove(_, _) => 1
    case _ => 0
  }

  /** One step of the consumer, short of the end of a drain. */
  lemma DrainStepOn(s: State) returns (t: State)
    requires Inv(s) && s.lock != Producer && !s.c.CUnlock? && !s.c.CDone? && (s.c.CCheck? ==> !s.stop2)
    ensures Step(s, C(false)) == Some(t) && Inv(t) && ConsumerMoved(s, t)
    ensures t.lock != Producer && !t.c.CDone? && !t.c.CCheck?
    ensures |t.queue| < |s.queue| || (t.queue == s.queue && DrainRank(t.c) < DrainRank(s.c))
  {
    hide Inv;
    DrainStepShape(s);
    ConsumerKeeps(s, false);
    t := StepC(s, false).value;
  }

  lemma DrainStepShape(s: State)
    requires Inv(s) && s.lock != Producer && !s.c.CUnlock? && !s.c.CDone? && (s.c.CCheck? ==> !s.stop2)
    ensures var o := StepC(s, false);
            && o.Some? && ConsumerMoved(s, o.value)
            && o.value.lock != Producer && !o.value.c.CDone? && !o.value.c.CCheck?
            && (|o.value.queue| < |s.queue| || (o.value.queue == s.queue && DrainRank(o.value.c) < DrainRank(s.c)))
  {
    hide MemoryOk, RoundsOk, FifoOk, ExitOk, Behind;
  }

  /**
   From every reachable state in which the consumer has not been told to stop and could have the
   lock, its own steps lead to the end of a drain: the queue is empty and the lock is free again.
   */
  lemma {:induction false} ConsumerDrains(s: State) returns (run: seq<Action>, t: State)
    requires Inv(s) && s.lock != Producer && !s.c.CDone? && (s.c.CCheck? ==> !s.stop2)
    ensures Leads(s, run, t) && OnlyConsumer(run) && ConsumerMoved(s, t)
    ensures t.queue == [] && t.removed == s.enqueued && t.lock == Nobody && t.c.CCheck?
    decreases |s.queue|, DrainRank(s.c)
  {
    hide Inv, Step, Leads;
    if s.c.CUnlock? {
      t := Unlocked(s);
      LeadsNowhere(t);
      run := [C(false)];
      LeadsByStep(s, C(false), t, [], t);
      assert [C(false)] + [] == run;
    } else {
      var u := DrainStepOn(s);
      var rest;
      rest, t := ConsumerDrains(u);
      run := [C(false)] + rest;
      LeadsByStep(s, C(false), u, rest, t);
    }
  }

  lemma Unlocked(s: State) returns (t: State)
    requires Inv(s) && s.c.CUnlock?
    ensures Step(s, C(false)) == Some(t) && ConsumerMoved(s, t)
    ensures t.queue == [] && t.removed == s.enqueued && t.lock == Nobody && t.c.CCheck?
  {
    t := StepC(s, false).value;
    assert Data([]) == [];
  }

  /** The same for whole runs: what was enqueued by any run can all be removed by the consumer alone. */
  lemma EveryRunCanBeDrained(run: seq<Action>) returns (more: seq<Action>)
    requires Exec(START, run).Some?
    requires var s := Exec(START, run).value; s.lock != Producer && !s.c.CDone? && !s.stop2
    ensures OnlyConsumer(more) && Exec(START, run + more).Some?
    ensures var s, t := Exec(START, run).value, Exec(START, run + more).value;
            t.queue == [] && t.removed == t.enqueued == s.enqueued
  {
    hide Inv, Step, Exec;
    StartOk();
    RunKeeps(START, run);
    var t;
    more, t := ConsumerDrains(Exec(START, run).value);
    ExecAppend(START, run, more);
  }

  // ----- a thread ends only when it is told to

  ghost predicate Signalled(run: seq<Action>) {
    exists a :: a in run && a.P? && a.signal
  }

  /** Without the stop flag and without a signal neither thread ends. */
  lemma {:induction false} EndsOnlyWhenTold(s: State, run: seq<Action>)
    requires Exec(s, run).Some?
    ensures var t := Exec(s, run).value;
            && (t.c.CDone? ==> s.c.CDone? || t.stop2 || C(true) in run)
            && (t.p.PDone? ==> s.p.PDone? || t.stop1 || Signalled(run))
            && (s.stop1 ==> t.stop1) && (s.stop2 ==> t.stop2)
    decreases |run|
  {
    if run != [] {
      var u := Step(s, run[0]).value;
      EndsOnlyWhenTold(u, run[1..]);
      assert run == [run[0]] + run[1..];
      EndingStep(s, run[0]);
      assert forall a :: a in run[1..] ==> a in run;
      assert run[0] in run;
    }
  }

  lemma EndingStep(s: State, a: Action)
    requires Step(s, a).Some?
    ensures var t := Step(s, a).value;
            && (t.c.CDone? ==> s.c.CDone? || t.stop2 || a == C(true))
            && (t.p.PDone? ==> s.p.PDone? || t.stop1 || (a.P? && a.signal))
            && (s.stop1 ==> t.stop1) && (s.stop2 ==> t.stop2)
  {
  }

  /** In a run without signals the threads end in order: the consumer after the producer, both told to. */
  lemma OrderlyEnd(run: seq<Action>)
    requires Exec(START, run).Some? && C(true) !in run && !Signalled(run)
    ensures var s := Exec(START, run).value;
            && (s.p.PDone? ==> s.stop1 && !s.x.XIdle?)
            && (s.c.CDone? ==> s.stop2 && s.p.PDone?)
  {
    StartOk();
    RunKeeps(START, run);
    EndsOnlyWhenTold(START, run);
  }

  /** A thread that has ended, or that meets a signal while it waits, takes no further step in any run. */
  lemma {:induction false} EndedStays(s: State, run: seq<Action>)
    requires Exec(s, run).Some?
    ensures s.p.PDone? ==> forall a :: a in run ==> !a.P?
    ensures s.c.CDone? ==> forall a :: a in run ==> !a.C?
    decreases |run|
  {
    if run != [] {
      EndedStays(Step(s, run[0]).value, run[1..]);
      assert run == [run[0]] + run[1..];
    }
  }

  lemma SignalEnds(s: State, mem: Option<nat>, run: seq<Action>)
    ensures s.p.PWait? && Exec(s, [P(true, mem)] + run).Some? ==> forall a :: a in run ==> !a.P?
    ensures s.c.CWait? && Exec(s, [C(true)] + run).Some? ==> forall a :: a in run ==> !a.C?
  {
    assert ([P(true, mem)] + run)[1..] == run && ([C(true)] + run)[1..] == run;
    if s.p.PWait? && Exec(s, [P(true, mem)] + run).Some? {
      EndedStays(Step(s, P(true, mem)).value, run);
    }
    if s.c.CWait? && Exec(s, [C(true)] + run).Some? {
      EndedStays(Step(s, C(true)).value, run);
    }
  }

  /** The consumer waits before every drain, so a signal alone can always end it, after at most one more. */
  lemma SignalIsEnough(s: State) returns (run: seq<Action>, t: State)
    requires Inv(s) && s.lock != Producer && !s.c.CDone? && !s.stop2
    ensures Leads(s, run + [C(true)], t) && OnlyConsumer(run) && t.c.CDone? && !t.stop2 && ConsumerMoved(s, t)
  {
    hide Inv, Exec;
    var drain, u := ConsumerDrains(s);
    var v := Step(u, C(false)).value;
    t := Step(v, C(true)).value;
    LeadsNowhere(t);
    LeadsByStep(v, C(true), t, [], t);
    LeadsByStep(u, C(false), v, [C(true)] + [], t);
    LeadsOn(s, drain, u, [C(false)] + ([C(true)] + []), t);
    run := drain + [C(false)];
    assert drain + ([C(false)] + ([C(true)] + [])) == run + [C(true)];
  }

  // ----- what the exit leaves behind

  /** No drain comes to its end along this run. */
  ghost predicate NoDrainEnds(s: State, run: seq<Action>)
    requires Exec(s, run).Some?
    decreases |run|
  {
    run != [] ==> !(run[0].C? && s.c.CUnlock?) && NoDrainEnds(Step(s, run[0]).value, run[1..])
  }

  /** What is noted as recent is what was enqueued from n on. */
  ghost predicate RecentFrom(s: State, n: nat) {
    n <= |s.enqueued| && Data(s.recent) == s.enqueued[n..]
  }

  lemma StepKeepsRecent(s: State, a: Action, n: nat)
    requires RecentFrom(s, n) && Step(s, a).Some? && !(a.C? && s.c.CUnlock?)
    ensures RecentFrom(Step(s, a).value, n)
  {
    if a.P? && s.p.PInsert? {
      QueueGrows(s.recent, s.p.rec);
    }
  }

  lemma {:induction false} RunKeepsRecent(s: State, run: seq<Action>, n: nat)
    requires RecentFrom(s, n) && Exec(s, run).Some? && NoDrainEnds(s, run)
    ensures RecentFrom(Exec(s, run).value, n)
    decreases |run|
  {
    hide RecentFrom, Step;
    if run != [] {
      StepKeepsRecent(s, run[0], n);
      RunKeepsRecent(Step(s, run[0]).value, run[1..], n);
    }
  }

  /** The exit leaves exactly the data that were enqueued after the last drain came to its end. */
  lemma LeftSinceLastDrain(before: seq<Action>, signal: bool, after: seq<Action>)
    requires Exec(START, before).Some? && Exec(START, before).value.c.CUnlock?
    requires var u := StepC(Exec(START, before).value, signal).value;
             Exec(u, after).Some? && NoDrainEnds(u, after) && Exec(u, after).value.x.XDone?
    ensures var s, u := Exec(START, before).value, StepC(Exec(START, before).value, signal).value;
            var t := Exec(u, after).value;
            |s.enqueued| <= |t.enqueued| && Data(t.queue) == t.enqueued[|s.enqueued|..]
  {
    hide Inv, Exec, NoDrainEnds;
    StartOk();
    RunKeeps(START, before);
    var s := Exec(START, before).value;
    ConsumerKeeps(s, signal);
    var u := StepC(s, signal).value;
    assert Data([]) == [];
    RunKeepsRecent(u, after, |s.enqueued|);
    RunKeeps(u, after);
    QueueIsRecent(Exec(u, after).value);
  }

  lemma QueueIsRecent(s: State)
    requires Inv(s) && s.x.XDone?
    ensures s.queue == s.recent
  {
  }

  // ----- rounds are attempts to allocate

  /** What this action is told by kmalloc, if it asks. */
  function Asked(s: State, a: Action): seq<bool> {
    if a.P? && s.p.PAlloc? then [a.mem.Some?] else []
  }

  /** The outcomes of all kmallocs along a run. */
  function Outcomes(s: State, run: seq<Action>): seq<bool>
    requires Exec(s, run).Some?
    decreases |run|
  {
    if run == [] then [] else Asked(s, run[0]) + Outcomes(Step(s, run[0]).value, run[1..])
  }

  /** The numbers of the granted ones among these outcomes, in order. */
  function Granted(ok: seq<bool>): seq<nat> {
    if ok == [] then []
    else
      var k := |ok| - 1;
      Granted(ok[..k]) + if ok[k] then [k] else []
  }

  lemma {:induction false} GrantedFacts(ok: seq<bool>)
    ensures forall i :: i in Granted(ok) <==> 0 <= i < |ok| && ok[i]
    ensures forall i, j :: 0 <= i < j < |Granted(ok)| ==> Granted(ok)[i] < Granted(ok)[j]
  {
    if ok != [] {
      var k := |ok| - 1;
      GrantedFacts(ok[..k]);
      assert forall j :: 0 <= j < |Granted(ok[..k])| ==> Granted(ok[..k])[j] in Granted(ok[..k]);
    }
  }

  lemma GrantedMore(ok: seq<bool>, yes: bool)
    ensures Granted(ok + [yes]) == Granted(ok) + if yes then [|ok|] else []
  {
    assert (ok + [yes])[..|ok|] == ok;
  }

  function Ints(ks: seq<nat>): (d: seq<int>)
    ensures |d| == |ks|
  {
    seq(|ks|, i requires 0 <= i < |ks| => Int32(ks[i]))
  }

  /** The record of this round is made and not yet in the queue. */
  predicate InHand(p: ProducerPc) { p.PLock? || p.PInsert? }

  /** Every attempt is a round, failed or not, and every granted one is or will be in the queue. */
  ghost predicate Counted(s: State, ok: seq<bool>) {
    && |ok| == s.rounds + (if InHand(s.p) || s.p.PUnlock? || s.p.PCount? then 1 else 0)
    && Granted(ok) == s.at + if InHand(s.p) then [s.rounds] else []
  }

  lemma StepCounts(s: State, a: Action, ok: seq<bool>)
    requires Counted(s, ok) && Step(s, a).Some?
    ensures Counted(Step(s, a).value, ok + Asked(s, a))
  {
    hide Granted, Int32, Unlink, Behind;
    if a.P? && s.p.PAlloc? {
      GrantedMore(ok, a.mem.Some?);
    } else {
      assert ok + Asked(s, a) == ok;
    }
  }

  lemma {:induction false} RunCounts(s: State, run: seq<Action>, ok: seq<bool>)
    requires Counted(s, ok) && Exec(s, run).Some?
    ensures Counted(Exec(s, run).value, ok + Outcomes(s, run))
    decreases |run|
  {
    hide Counted, Step;
    if run == [] {
      assert ok + [] == ok;
    } else {
      StepCounts(s, run[0], ok);
      var u := Step(s, run[0]).value;
      RunCounts(u, run[1..], ok + Asked(s, run[0]));
      assert ok + Asked(s, run[0]) + Outcomes(u, run[1..]) == ok + Outcomes(s, run);
    }
  }

  /**
   In every run the data are the numbers, as C ints, of exactly the rounds whose kmalloc was granted,
   in order; a failed one uses up its number.
   */
  lemma DataAreGrantedRounds(run: seq<Action>)
    requires Exec(START, run).Some?
    ensures var s, ok := Exec(START, run).value, Outcomes(START, run);
            && Ints(Granted(ok)) == s.enqueued + (if InHand(s.p) then [s.p.rec.datum] else [])
            && |ok| == s.rounds + (if InHand(s.p) || s.p.PUnlock? || s.p.PCount? then 1 else 0)
  {
    hide Inv, Exec, Outcomes, Granted, Int32;
    StartOk();
    RunKeeps(START, run);
    CountedAtStart();
    RunCounts(START, run, []);
    assert [] + Outcomes(START, run) == Outcomes(START, run);
    CountedData(Exec(START, run).value, Outcomes(START, run));
  }

  lemma CountedAtStart()
    ensures Counted(START, [])
  {
  }

  lemma CountedData(s: State, ok: seq<bool>)
    requires Inv(s) && Counted(s, ok)
    ensures Ints(Granted(ok)) == s.enqueued + (if InHand(s.p) then [s.p.rec.datum] else [])
  {
    hide MemoryOk, FifoOk, LoopOk, LockOk, ExitOk, Granted, Int32;
  }

  lemma {:induction false} OutcomesAppend(s: State, a: seq<Action>, b: seq<Action>)
    requires Exec(s, a).Some? && Exec(Exec(s, a).value, b).Some?
    ensures Exec(s, a + b) == Exec(Exec(s, a).value, b)
    ensures Outcomes(s, a + b) == Outcomes(s, a) + Outcomes(Exec(s, a).value, b)
    decreases |a|
  {
    hide Step, Asked;
    if a == [] {
      assert a + b == b;
    } else {
      assert (a + b)[1..] == a[1..] + b;
      OutcomesAppend(Step(s, a[0]).value, a[1..], b);
    }
  }

  // ----- runs with any outcomes

  /** A producer between two rounds with nothing in its way. */
  ghost predicate Idle(s: State) {
    s.p == PWait && s.lock == Nobody && !s.stop1
  }

  /** The state after a round that got memory at a. */
  function Enqueued(s: State, a: nat): State {
    var r := Rec(a, Int32(s.rounds));
    s.(queue := s.queue + [r], live := s.live + {a}, allocs := s.allocs + 1, rounds := s.rounds + 1,
       enqueued := s.enqueued + [r.datum], at := s.at + [s.rounds], recent := s.recent + [r])
  }

  /** A run from s to t with these outcomes. */
  ghost predicate Does(s: State, run: seq<Action>, t: State, ok: seq<bool>) {
    Exec(s, run) == Some(t) && Outcomes(s, run) == ok
  }

  lemma DoesNothing(s: State)
    ensures Does(s, [], s, [])
  {
  }

  lemma DoesByStep(s: State, a: Action, t: State, rest: seq<Action>, u: State, ok: seq<bool>, all: seq<bool>)
    requires Step(s, a) == Some(t) && Does(t, rest, u, ok) && all == Asked(s, a) + ok
    ensures Does(s, [a] + rest, u, all)
  {
    hide Asked;
    assert ([a] + rest)[1..] == rest;
  }

  lemma DoesOn(s: State, a: seq<Action>, t: State, ok: seq<bool>, b: seq<Action>, u: State, more: seq<bool>)
    requires Does(s, a, t, ok) && Does(t, b, u, more)
    ensures Does(s, a + b, u, ok + more)
  {
    OutcomesAppend(s, a, b);
  }

  predicate OnlyProducer(run: seq<Action>) {
    forall a :: a in run ==> a.P? && !a.signal
  }

  /** A step at which the producer asks for no memory. */
  lemma ProducerGoesOn(s: State, t: State, rest: seq<Action>, u: State) returns (run: seq<Action>)
    requires Step(s, P(false, None)) == Some(t) && !s.p.PAlloc? && Does(t, rest, u, []) && OnlyProducer(rest)
    ensures Does(s, run, u, []) && OnlyProducer(run)
  {
    hide Step, Does;
    run := [P(false, None)] + rest;
    DoesByStep(s, P(false, None), t, rest, u, [], []);
  }

  /** The end of every round: count and look at the stop flag. */
  lemma RoundEnds(s: State) returns (run: seq<Action>)
    requires s.p == PCount && !s.stop1
    ensures Does(s, run, s.(p := PWait, rounds := s.rounds + 1), []) && OnlyProducer(run)
  {
    hide Does;
    var t, u := s.(p := PCheck, rounds := s.rounds + 1), s.(p := PWait, rounds := s.rounds + 1);
    DoesNothing(u);
    run := ProducerGoesOn(t, u, [], u);
    run := ProducerGoesOn(s, t, run, u);
  }

  /** Between the allocation and the count: lock, insert, unlock. */
  lemma RecordGoesIn(s: State) returns (run: seq<Action>)
    requires s.p.PLock? && s.lock == Nobody && !s.stop1 && s.p.rec.datum == Int32(s.rounds)
    ensures var r := s.p.rec;
            Does(s, run, s.(p := PWait, queue := s.queue + [r], rounds := s.rounds + 1,
                            enqueued := s.enqueued + [r.datum], at := s.at + [s.rounds], recent := s.recent + [r]), [])
    ensures OnlyProducer(run)
  {
    hide Does, Int32;
    var r := s.p.rec;
    var t := s.(p := PInsert(r), lock := Producer);
    var v := s.(p := PCount, queue := s.queue + [r], enqueued := s.enqueued + [r.datum],
                at := s.at + [s.rounds], recent := s.recent + [r]);
    var u := v.(p := PUnlock, lock := Producer);
    var w := v.(p := PWait, rounds := s.rounds + 1);
    run := RoundEnds(v);
    run := ProducerGoesOn(u, v, run, w);
    run := ProducerGoesOn(t, u, run, w);
    run := ProducerGoesOn(s, t, run, w);
  }

  /** A round that gets its memory puts its number into the queue. */
  lemma GrantedRound(s: State, a: nat) returns (run: seq<Action>)
    requires Idle(s) && a !in s.live
    ensures Does(s, run, Enqueued(s, a), [true]) && OnlyProducer(run)
  {
    hide Does, Int32;
    var t := s.(p := PAlloc);
    var u := t.(p := PLock(Rec(a, Int32(s.rounds))), live := s.live + {a}, allocs := s.allocs + 1);
    run := RecordGoesIn(u);
    DoesByStep(t, P(false, Some(a)), u, run, Enqueued(s, a), [], [true]);
    run := [P(false, Some(a))] + run;
    DoesByStep(s, P(false, None), t, run, Enqueued(s, a), [true], [true]);
    run := [P(false, None)] + run;
  }

  /** A round that gets none uses up its number and changes nothing else. */
  lemma FailedRound(s: State) returns (run: seq<Action>)
    requires Idle(s)
    ensures Does(s, run, s.(rounds := s.rounds + 1), [false]) && OnlyProducer(run)
  {
    hide Does;
    var t, u, v := s.(p := PAlloc), s.(p := PCount), s.(rounds := s.rounds + 1);
    run := RoundEnds(u);
    DoesByStep(t, P(false, None), u, run, v, [], [false]);
    run := [P(false, None)] + run;
    DoesByStep(s, P(false, None), t, run, v, [false], [false]);
    run := [P(false, None)] + run;
  }

  /** From every state between two rounds the producer can meet any outcomes, all by itself. */
  lemma {:induction false} RoundsWith(s: State, ok: seq<bool>) returns (run: seq<Action>, t: State)
    requires Idle(s)
    ensures Does(s, run, t, ok) && OnlyProducer(run)
    ensures Idle(t) && t.rounds == s.rounds + |ok|
    ensures t.c == s.c && t.x == s.x && t.stop2 == s.stop2 && t.removed == s.removed
    decreases |ok|
  {
    hide Does, Int32;
    if ok == [] {
      run, t := [], s;
      DoesNothing(s);
    } else {
      var first, u;
      if ok[0] {
        var a := FreshAddress(s.live);
        first := GrantedRound(s, a);
        u := Enqueued(s, a);
      } else {
        first := FailedRound(s);
        u := s.(rounds := s.rounds + 1);
      }
      run, t := RoundsWith(u, ok[1..]);
      assert [ok[0]] + ok[1..] == ok;
      DoesOn(s, first, u, [ok[0]], run, t, ok[1..]);
      run := first + run;
    }
  }

  /**
   For every list of kmalloc outcomes there is a run that meets them, and its data are the numbers of
   the granted rounds, in order.
   */
  lemma RunWith(ok: seq<bool>) returns (run: seq<Action>)
    ensures Exec(START, run).Some? && Outcomes(START, run) == ok && OnlyProducer(run)
    ensures var s := Exec(START, run).value;
            s.p == PWait && s.rounds == |ok| && s.enqueued == Ints(Granted(ok))
  {
    hide Exec, Outcomes;
    var t;
    run, t := RoundsWith(START, ok);
    DataAreGrantedRounds(run);
  }

  lemma {:induction false} AllGranted(n: nat)
    ensures Granted(seq(n, _ => true)) == seq(n, i => i)
  {
    if n > 0 {
      AllGranted(n - 1);
      assert seq(n, _ => true)[..n - 1] == seq(n - 1, _ => true);
    }
  }

  /** For every n there is a run in which n rounds enqueue n records. */
  lemma RunOfLength(n: nat) returns (run: seq<Action>)
    ensures Exec(START, run).Some?
    ensures var s := Exec(START, run).value;
            s.p == PWait && s.rounds == n && s.enqueued == Ints(seq(n, i => i))
  {
    hide Exec, Outcomes, Granted;
    run := RunWith(seq(n, _ => true));
    AllGranted(n);
  }

  /** The counter does overflow: a run whose data are not ascending. */
  lemma OverflowHappens() returns (run: seq<Action>)
    ensures Exec(START, run).Some? && !Ascending(Exec(START, run).value.enqueued)
  {
    hide Exec, Ascending;
    run := RunOfLength(0x8000_0001);
    IncreasingIff(run);
  }

  // ----- enqueue and drain in turn

  /** Both threads are alive, and the data of n rounds have come and gone. */
  ghost predicate Served(s: State, n: nat) {
    && Inv(s) && Idle(s) && !s.stop2 && !s.c.CDone?
    && s.rounds == n && s.queue == [] && s.removed == s.enqueued == Ints(seq(n, i => i))
  }

  lemma ServeOne(s: State, n: nat) returns (run: seq<Action>, t: State)
    requires Served(s, n)
    ensures Leads(s, run, t) && Served(t, n + 1) && run != []
  {
    hide Inv, Int32, Does, Exec;
    var a := FreshAddress(s.live);
    var produce := GrantedRound(s, a);
    var u := Enqueued(s, a);
    assert Leads(s, produce, u) by { DoesLeads(s, produce, u, [true]); }
    LeadsKeeps(s, produce, u);
    var drain;
    drain, t := ConsumerDrains(u);
    LeadsKeeps(u, drain, t);
    LeadsOn(s, produce, u, drain, t);
    run := produce + drain;
    assert Ints(seq(n + 1, i => i)) == Ints(seq(n, i => i)) + [Int32(n)];
    assert run != [] by { DoesSomething(s, produce, u); }
  }

  lemma DoesLeads(s: State, run: seq<Action>, t: State, ok: seq<bool>)
    requires Does(s, run, t, ok)
    ensures Leads(s, run, t)
  {
  }

  lemma DoesSomething(s: State, run: seq<Action>, t: State)
    requires Leads(s, run, t) && s.rounds != t.rounds
    ensures run != []
  {
  }

  /** The first k records of the run have come and gone after its first `at` steps. */
  ghost predicate ServedAt(run: seq<Action>, at: nat, k: nat) {
    at <= |run| && Exec(START, run[..at]).Some? && Served(Exec(START, run[..at]).value, k)
  }

  lemma ServedEarlier(run: seq<Action>, more: seq<Action>, at: nat, k: nat)
    requires ServedAt(run, at, k)
    ensures ServedAt(run + more, at, k)
  {
    assert (run + more)[..at] == run[..at];
  }

  /**
   For every n there is a run in which n records are enqueued and removed one by one: at[k] steps
   into it k records have come and gone, and both threads are ready for the next.
   */
  lemma {:induction false} ServedInTurn(n: nat) returns (run: seq<Action>, at: seq<nat>)
    ensures |at| == n + 1 && at[n] == |run|
    ensures forall k :: 0 <= k <= n ==> ServedAt(run, at[k], k)
    ensures forall k :: 0 <= k < n ==> at[k] < at[k + 1]
  {
    hide Served, Exec;
    if n == 0 {
      run, at := [], [0];
      ServedAtStart();
    } else {
      var before, marks := ServedInTurn(n - 1);
      assert before[..|before|] == before;
      var s := Exec(START, before).value;
      assert ServedAt(before, marks[n - 1], n - 1);
      var more, t := ServeOne(s, n - 1);
      LeadsOn(START, before, s, more, t);
      run, at := before + more, marks + [|before + more|];
      assert run[..|run|] == run;
      forall k | 0 <= k < n ensures ServedAt(run, marks[k], k) {
        ServedEarlier(before, more, marks[k], k);
      }
      assert ServedAt(run, at[n], n);
    }
  }

  lemma ServedAtStart()
    ensures ServedAt([], 0, 0)
  {
    StartOk();
    var none: seq<Action> := [];
    assert none[..0] == none;
    assert Ints(seq(0, i => i)) == [];
  }

  // ----- the exit always comes through

  /** Neither the exit nor the stop flags moved. */
  ghost predicate ThreadsMoved(s: State, t: State) {
    t.x == s.x && t.stop1 == s.stop1 && t.stop2 == s.stop2
  }

  ghost predicate NoSignals(run: seq<Action>) {
    forall a :: a in run && !a.X? ==> !a.signal
  }

  function EndRank(p: ProducerPc): nat {
    match p
    case PWait => 7
    case PAlloc => 6
    case PLock(_) => 5
    case PInsert(_) => 4
    case PUnlock => 3
    case PCount => 2
    case PCheck => 1
    case PDone => 0
  }

  /** The producer on its own, told to stop, ends. */
  lemma {:induction false} ProducerEnds(s: State) returns (run: seq<Action>, t: State)
    requires Inv(s) && s.lock != Consumer && s.stop1
    ensures Leads(s, run, t) && NoSignals(run) && ThreadsMoved(s, t) && t.p.PDone? && t.c == s.c && t.lock == Nobody
    decreases EndRank(s.p)
  {
    hide Inv, Leads;
    if s.p.PDone? {
      run, t := [], s;
      LeadsNowhere(s);
      LockFree(s);
    } else {
      ProducerCanMove(s);
      var u := Step(s, P(false, None)).value;
      StepKeeps(s, P(false, None));
      run, t := ProducerEnds(u);
      LeadsByStep(s, P(false, None), u, run, t);
      run := [P(false, None)] + run;
    }
  }

  lemma LockFree(s: State)
    requires Inv(s) && s.lock != Consumer && s.p.PDone?
    ensures s.lock == Nobody
  {
  }

  lemma ProducerCanMove(s: State)
    requires Inv(s) && s.lock != Consumer && !s.p.PDone?
    ensures Step(s, P(false, None)).Some?
    ensures var t := Step(s, P(false, None)).value;
            && ThreadsMoved(s, t) && t.c == s.c && t.lock != Consumer
            && (s.stop1 ==> EndRank(t.p) < EndRank(s.p))
  {
    hide MemoryOk, RoundsOk, FifoOk, ExitOk, LoopOk;
  }

  /** A consumer in the middle of a drain comes to its end. */
  lemma ConsumerLetsGo(s: State) returns (run: seq<Action>, t: State)
    requires Inv(s)
    ensures Leads(s, run, t) && NoSignals(run) && ThreadsMoved(s, t) && t.lock != Consumer && Inv(t)
  {
    hide Inv, Exec;
    if s.lock == Consumer {
      HoldingIsAlive(s);
      run, t := ConsumerDrains(s);
      LeadsKeeps(s, run, t);
    } else {
      run, t := [], s;
      LeadsNowhere(s);
    }
  }

  lemma HoldingIsAlive(s: State)
    requires Inv(s) && s.lock == Consumer
    ensures !s.c.CDone? && !s.c.CCheck?
  {
  }

  /** The consumer, told to stop, finishes the drain it is in or before, and ends. */
  lemma ConsumerEnds(s: State) returns (run: seq<Action>, t: State)
    requires Inv(s) && s.lock != Producer && s.stop2
    ensures Leads(s, run, t) && NoSignals(run) && ThreadsMoved(s, t) && t.c.CDone?
  {
    hide Inv, Exec;
    run, t := [], s;
    LeadsNowhere(s);
    if !s.c.CDone? && !s.c.CCheck? {
      run, t := ConsumerDrains(s);
    }
    if !s.c.CDone? {
      var u := Step(t, C(false)).value;
      LeadsNowhere(u);
      LeadsByStep(t, C(false), u, [], u);
      LeadsOn(s, run, t, [C(false)] + [], u);
      run, t := run + ([C(false)] + []), u;
    }
  }

  function ExitRank(x: ExitPc): nat {
    match x
    case XIdle => 3
    case XStop1 => 2
    case XStop2 => 1
    case XDone => 0
  }

  /** The threads get to where the exit can take its next step. */
  lemma ExitCanMove(s: State) returns (run: seq<Action>, t: State)
    requires Inv(s) && !s.x.XDone?
    ensures Leads(s, run, t) && NoSignals(run) && Inv(t) && t.x == s.x && StepX(t).Some?
  {
    hide Inv, Exec;
    StopFlags(s);
    run, t := [], s;
    LeadsNowhere(s);
    if s.x.XStop1? {
      var free, u := ConsumerLetsGo(s);
      run, t := ProducerEnds(u);
      LeadsOn(s, free, u, run, t);
      run := free + run;
    } else if s.x.XStop2? {
      run, t := ConsumerEnds(s);
    }
    LeadsKeeps(s, run, t);
  }

  lemma StopFlags(s: State)
    requires Inv(s)
    ensures s.x.XStop1? ==> s.stop1
    ensures s.x.XStop2? ==> s.stop2 && s.lock != Producer
  {
  }

  /** No deadlock: from every reachable state, without a signal, the module exit can still finish. */
  lemma {:induction false} ExitAlwaysPossible(s: State) returns (run: seq<Action>, t: State)
    requires Inv(s)
    ensures Leads(s, run, t) && NoSignals(run) && t.x.XDone? && t.p.PDone? && t.c.CDone?
    decreases ExitRank(s.x)
  {
    hide Inv, Leads;
    if s.x.XDone? {
      run, t := [], s;
      LeadsNowhere(s);
      DoneMeansDone(s);
    } else {
      var first, u := ExitCanMove(s);
      StepKeeps(u, X);
      var v := Step(u, X).value;
      run, t := ExitAlwaysPossible(v);
      LeadsByStep(u, X, v, run, t);
      LeadsOn(s, first, u, [X] + run, t);
      run := first + ([X] + run);
    }
  }

  lemma DoneMeansDone(s: State)
    requires Inv(s) && s.x.XDone?
    ensures s.p.PDone? && s.c.CDone?
  {
  }
}
