/** What the semaphores of module Semaphore guarantee over whole runs, for which runs,
    and what happens in the others. */
module SemaphoreRuns {
  import opened Wrappers
  import opened Semaphore

  // ----- when a re-read is early

  /** Every listed task is in the second half of its wait. */
  ghost predicate Orderly(s: State) {
    forall m: nat, t: nat {:trigger Held(s, m, t)} :: m < |s.sems| && t < |s.threads| && Held(s, m, t) ==>
      Waits(s.threads[t].pc, m)
  }

  /** A re-read lets a task go on that is still marked blocked exactly in the window: a
      signaller holds the lock, has raised the counter to 0 and has not yet unblocked the
      only waiter, which is the re-reading task. A re-read with the lock free never does. */
  lemma EarlyExactly(s: State, t: nat, k: nat)
    requires Inv(s) && Orderly(s) && Enabled(s, Go(t, k)) && s.threads[t].pc.WaitReread?
    ensures var m := s.threads[t].pc.m;
            && (s.threads[t].block && s.sems[m].resource >= 0 <==> Early(s, Go(t, k)))
            && (Early(s, Go(t, k)) <==>
                  && s.sems[m].resource == 0 && s.sems[m].list == [t] && s.sems[m].holder != Some(t)
                  && (HolderPc(s, m).SigTest? || HolderPc(s, m).SigWake?))
  {
    var m := s.threads[t].pc.m;
    Facts(s, m, t);
    if s.threads[t].block && s.sems[m].resource >= 0 {
      var n: nat :| n < |s.sems| && Held(s, n, t) && s.threads[t].pc != WaitBlock(n);
      PassingIsWindow(s, m, t);
    }
    if Window(s, m, t) { assert Held(s, m, t); }
  }

  // ----- counting

  predicate PastDec(pc: Pc, m: nat) {
    pc == WaitTest(m) || pc == WaitEnqueue(m) || pc == WaitBlock(m) || pc == WaitUnlock(m) || pc == WaitReread(m) || pc == WaitYield(m)
  }

  /** The tasks that have taken a unit of semaphore m and not returned yet. */
  function InFlight(s: State, m: nat): set<nat> {
    set t | 0 <= t < |s.threads| && PastDec(s.threads[t].pc, m)
  }

  /** Conservation: units put in are units left, returned waits, and waits in flight. */
  ghost predicate Ledger(s: State, m: nat)
    requires m < |s.sems|
  {
    s.sems[m].init + s.sems[m].signals - s.sems[m].resource == s.sems[m].completed + |InFlight(s, m)|
  }

  lemma InFlightChange(s: State, s': State, t: nat, m: nat)
    requires t < |s.threads| == |s'.threads|
    requires forall u: nat {:trigger s'.threads[u]} :: u < |s.threads| && u != t ==> s'.threads[u].pc == s.threads[u].pc
    ensures |InFlight(s', m)| == |InFlight(s, m)| + (if PastDec(s'.threads[t].pc, m) then 1 else 0)
                                                  - (if PastDec(s.threads[t].pc, m) then 1 else 0)
  {
    hide PastDec;
    var (before, after) := (PastDec(s.threads[t].pc, m), PastDec(s'.threads[t].pc, m));
    if before == after {
      assert InFlight(s', m) == InFlight(s, m);
    } else if after {
      assert InFlight(s', m) == InFlight(s, m) + {t};
    } else {
      assert InFlight(s, m) == InFlight(s', m) + {t};
    }
  }

  lemma NextFrame(s: State, e: Event)
    requires Enabled(s, e)
    ensures var s' := Next(s, e);
            && |s'.threads| == |s.threads| && |s'.sems| == |s.sems|
            && forall u: nat {:trigger s'.threads[u]} :: u < |s.threads| && u != e.t ==> s'.threads[u].pc == s.threads[u].pc
  {
  }

  /** How much of the semaphore's account is not in flight. */
  function Balance(sem: Sem): int {
    sem.init + sem.signals - sem.resource - sem.completed
  }

  function Flying(pc: Pc, m: nat): int {
    if PastDec(pc, m) then 1 else 0
  }

  lemma WaitAccount(s: State, t: nat, k: nat, m: nat)
    requires Enabled(s, Go(t, k)) && m < |s.sems| && IsWait(s.threads[t].pc)
    ensures Balance(Wait(s, t).sems[m]) == Balance(s.sems[m]) + Flying(Wait(s, t).threads[t].pc, m) - Flying(s.threads[t].pc, m)
  {
  }

  lemma SignalAccount(s: State, t: nat, k: nat, m: nat)
    requires Enabled(s, Go(t, k)) && m < |s.sems| && !IsWait(s.threads[t].pc)
    ensures Balance(Signal(s, t, k).sems[m]) == Balance(s.sems[m])
    ensures Flying(Signal(s, t, k).threads[t].pc, m) == Flying(s.threads[t].pc, m) == 0
  {
  }

  /** It holds across every event, early or not. */
  lemma LedgerNext(s: State, e: Event, m: nat)
    requires Enabled(s, e) && m < |s.sems| && Ledger(s, m)
    ensures |Next(s, e).sems| == |s.sems| && Ledger(Next(s, e), m)
  {
    NextFrame(s, e);
    InFlightChange(s, Next(s, e), e.t, m);
    if e.Go? {
      hide InFlight, PastDec, Wait, Signal;
      if IsWait(s.threads[e.t].pc) { WaitAccount(s, e.t, e.k, m); } else { SignalAccount(s, e.t, e.k, m); }
    }
  }

  lemma {:induction false} DistinctCount(list: seq<nat>, all: set<nat>)
    requires forall i, j :: 0 <= i < j < |list| ==> list[i] != list[j]
    requires forall i :: 0 <= i < |list| ==> list[i] in all
    ensures |list| <= |all|
    decreases |list|
  {
    if list != [] {
      var m := |list| - 1;
      DistinctCount(list[..m], all - {list[m]});
    }
  }

  lemma AllSems(s: State, m: nat)
    requires Inv(s) && m < |s.sems|
    ensures SemOk(s, m)
  {
    hide SemOk, ThreadOk;
    assert s.sems[m] == s.sems[m];
  }

  lemma ListedFlies(s: State, m: nat, u: nat)
    requires Inv(s) && m < |s.sems| && u < |s.threads| && Held(s, m, u) && !Window(s, m, u)
    ensures Waits(s.threads[u].pc, m) && u in InFlight(s, m)
  {
    hide Held, Window, SemOk;
    Facts(s, m, u);
  }

  /** Every listed task but the one being removed is in flight, and so is a task
      between taking its unit and entering the list. */
  lemma EnoughInFlight(s: State, m: nat)
    requires Inv(s) && m < |s.sems|
    ensures |InFlight(s, m)| >= -s.sems[m].resource
  {
    var (sem, pc) := (s.sems[m], HolderPc(s, m));
    var flight := InFlight(s, m);
    hide Inv, ThreadOk;
    assert SemOk(s, m) by { AllSems(s, m); }
    if exists u: nat :: u < |s.threads| && Window(s, m, u) { return; }
    forall i | 0 <= i < |sem.list| && !BeingRemoved(s, m, sem.list[i]) ensures sem.list[i] in flight {
      ListedFlies(s, m, sem.list[i]);
    }
    if pc.SigRemove? {
      RemoveAtMembers(sem.list, pc.k);
      var rest := RemoveAt(sem.list, pc.k);
      forall i | 0 <= i < |rest| ensures rest[i] in flight {
        assert rest[i] in sem.list;
        var j :| 0 <= j < |sem.list| && sem.list[j] == rest[i];
      }
      DistinctCount(rest, flight);
    } else if pc.WaitTest? || pc.WaitEnqueue? {
      var h := sem.holder.value;
      assert InSection(s.threads[h].pc, m);
      assert !Listed(s, m, h) by { if Listed(s, m, h) { ListedFlies(s, m, h); } }
      DistinctCount(sem.list + [h], flight);
    } else {
      DistinctCount(sem.list, flight);
    }
  }

  // ----- every run

  /** Which events a run may contain: any; none that enters a list while another holds
      the task; or no early re-read. */
  datatype Kind = Any | Apart | Quiet

  ghost predicate Allowed(s: State, e: Event, kind: Kind)
    requires Enabled(s, e)
  {
    match kind
    case Any => true
    case Apart => !Double(s, e)
    case Quiet => !Early(s, e)
  }

  /** r is reached from s by events that are enabled, and allowed, when they happen. */
  ghost predicate Run(s: State, events: seq<Event>, r: State, kind: Kind)
    decreases |events|
  {
    if events == [] then r == s
    else Enabled(s, events[0]) && Allowed(s, events[0], kind) && Run(Next(s, events[0]), events[1..], r, kind)
  }

  /** Without early re-reads every list stays orderly, and no task enters a second one. */
  lemma QuietStep(s: State, e: Event)
    requires Inv(s) && Orderly(s) && Enabled(s, e) && !Early(s, e)
    ensures !Double(s, e) && Orderly(Next(s, e))
  {
    hide Inv, Early, Window, Held;
    assert !Double(s, e);
    var s' := Next(s, e);
    NextFrame(s, e);
    forall m: nat, t: nat | m < |s'.sems| && t < |s'.threads| && Held(s', m, t) ensures Waits(s'.threads[t].pc, m) {
      QuietHolds(s, e, m, t);
    }
  }

  lemma QuietHolds(s: State, e: Event, m: nat, t: nat)
    requires Inv(s) && Orderly(s) && Enabled(s, e) && !Early(s, e) && m < |s.sems| && t < |s.threads|
    requires |Next(s, e).threads| == |s.threads| && |Next(s, e).sems| == |s.sems| && Held(Next(s, e), m, t)
    ensures Waits(Next(s, e).threads[t].pc, m)
  {
    var s' := Next(s, e);
    Facts(s, m, e.t);
    OwnRow(s, m, e.t);
    if e.Go? && s.threads[e.t].pc == WaitEnqueue(m) && t == e.t {
    } else {
      ListShrinks(s, e, m, t);
      assert Waits(s.threads[t].pc, m);
      if t == e.t && e.Go? && s.threads[t].pc == WaitReread(m) && s.sems[m].resource >= 0 { PassingIsWindow(s, m, t); }
      if t == e.t && e.Go? && s.threads[t].pc == WaitYield(m) { YieldedIsFree(s, m, t); }
    }
  }

  /** Other than by its own entry, no task comes to be held. */
  lemma ListShrinks(s: State, e: Event, m: nat, t: nat)
    requires Inv(s) && Enabled(s, e) && m < |s.sems| && t < |s.threads|
    requires |Next(s, e).threads| == |s.threads| && |Next(s, e).sems| == |s.sems| && Held(Next(s, e), m, t)
    requires !(e.Go? && s.threads[e.t].pc == WaitEnqueue(m) && t == e.t)
    ensures Held(s, m, t)
  {
    hide Inv, ThreadOk, Accounts;
    var s' := Next(s, e);
    Facts(s, m, e.t);
    assert InSection(s.threads[e.t].pc, m) <==> s.sems[m].holder == Some(e.t);
    if e.Go? && s.threads[e.t].pc.SigRemove? && s.threads[e.t].pc.m == m {
      RemoveAtMembers(s.sems[m].list, s.threads[e.t].pc.k);
    }
  }

  lemma {:induction false} QuietIsApart(s: State, events: seq<Event>, r: State)
    requires Inv(s) && Orderly(s) && Run(s, events, r, Quiet)
    ensures Run(s, events, r, Apart) && Orderly(r)
    decreases |events|
  {
    hide Inv, Orderly, Next, Early, Double;
    if events != [] {
      QuietStep(s, events[0]);
      NextInv(s, events[0]);
      QuietIsApart(Next(s, events[0]), events[1..], r);
    }
  }

  lemma {:induction false} RunInv(s: State, events: seq<Event>, r: State)
    requires Inv(s) && Run(s, events, r, Apart)
    ensures Inv(r)
    decreases |events|
  {
    hide Inv, Next, Double;
    if events != [] {
      NextInv(s, events[0]);
      RunInv(Next(s, events[0]), events[1..], r);
    }
  }

  lemma {:induction false} RunLedger(s: State, events: seq<Event>, r: State, m: nat, kind: Kind)
    requires m < |s.sems| && Ledger(s, m) && Run(s, events, r, kind)
    ensures m < |r.sems| && Ledger(r, m)
    decreases |events|
  {
    hide Ledger, Next, Double, Early;
    if events != [] {
      LedgerNext(s, events[0], m);
      RunLedger(Next(s, events[0]), events[1..], r, m, kind);
    }
  }

  lemma InitialFacts(s: State, m: nat)
    requires Initial(s) && m < |s.sems|
    ensures Inv(s) && Orderly(s) && Ledger(s, m)
  {
    InitialInv(s);
    assert InFlight(s, m) == {};
    forall n: nat | n < |s.sems|
      ensures s.sems[n].list == [] && (n == m ==> s.sems[m].completed == s.sems[m].signals == 0 && s.sems[m].resource == s.sems[m].init) {
      assert s.sems[n] == Sem(s.sems[n].init, [], None, s.sems[n].init, 0, 0);
    }
  }

  /** In every run in which no task enters a waiting list while another list holds it,
      early re-reads or not, returned waits never exceed the initial value plus the
      signals, and whenever the lock is free the list holds max(0, -resource) tasks. */
  lemma CompletedBounded(s: State, events: seq<Event>, r: State, m: nat)
    requires Initial(s) && m < |s.sems| && Run(s, events, r, Apart)
    ensures m < |r.sems| && r.sems[m].completed <= r.sems[m].init + r.sems[m].signals
    ensures r.sems[m].holder == None ==>
              |r.sems[m].list| == if r.sems[m].resource < 0 then -r.sems[m].resource else 0
  {
    hide Initial, Run, Inv;
    InitialFacts(s, m);
    RunLedger(s, events, r, m, Apart);
    RunInv(s, events, r);
    EnoughInFlight(r, m);
    AllSems(r, m);
  }

  /** A task that is to enter the list of its only semaphore is not in it. */
  lemma AloneIsApart(s: State, e: Event)
    requires Inv(s) && |s.sems| == 1 && Enabled(s, e)
    ensures !Double(s, e)
  {
    if e.Go? && s.threads[e.t].pc.WaitEnqueue? {
      Facts(s, 0, e.t);
      assert InSection(s.threads[e.t].pc, 0);
    }
  }

  lemma {:induction false} AloneRun(s: State, events: seq<Event>, r: State)
    requires Inv(s) && |s.sems| == 1 && Run(s, events, r, Any)
    ensures Run(s, events, r, Apart)
    decreases |events|
  {
    hide Inv, Next, Double;
    if events != [] {
      AloneIsApart(s, events[0]);
      NextInv(s, events[0]);
      NextFrame(s, events[0]);
      AloneRun(Next(s, events[0]), events[1..], r);
    }
  }

  /** With a single semaphore the bound holds in every run whatsoever. */
  lemma AloneBounded(s: State, events: seq<Event>, r: State)
    requires Initial(s) && |s.sems| == 1 && Run(s, events, r, Any)
    ensures |r.sems| > 0 && r.sems[0].completed <= r.sems[0].init + r.sems[0].signals
  {
    hide Initial, Run, Inv;
    InitialFacts(s, 0);
    AloneRun(s, events, r);
    CompletedBounded(s, events, r, 0);
  }

  /** The event lets the task return from kmt_sem_wait. */
  predicate Returns(s: State, e: Event)
    requires Enabled(s, e)
  {
    && e.Go?
    && (s.threads[e.t].pc.WaitYield?
        || (s.threads[e.t].pc.WaitReread? && s.sems[s.threads[e.t].pc.m].resource >= 0))
  }

  /** In runs without early re-reads a task that returns is not blocked, and no list still
      holds it, except one whose signaller has unblocked it and removes it next. */
  lemma ReturnsReleased(s: State, events: seq<Event>, r: State, e: Event, n: nat)
    requires Initial(s) && 0 < |s.sems| && Run(s, events, r, Quiet) && n < |r.sems|
    requires Enabled(r, e) && !Early(r, e) && Returns(r, e)
    ensures var r' := Next(r, e);
            && |r'.threads| == |r.threads| && !r'.threads[e.t].block
            && n < |r'.sems| && (Listed(r', n, e.t) ==> BeingRemoved(r', n, e.t))
  {
    InitialFacts(s, 0);
    QuietIsApart(s, events, r);
    RunInv(s, events, r);
    hide Run, Initial;
    QuietStep(r, e);
    NextInv(r, e);
    NextFrame(r, e);
    var r' := Next(r, e);
    assert r'.threads[e.t].pc == Out;
    OutIsFree(r', e.t, n);
  }

  /** A task outside the semaphores is neither blocked nor held by a list. */
  lemma OutIsFree(s: State, t: nat, n: nat)
    requires Inv(s) && Orderly(s) && t < |s.threads| && n < |s.sems| && s.threads[t].pc == Out
    ensures !s.threads[t].block && !Held(s, n, t)
  {
    Facts(s, n, t);
    hide Inv, SemOk;
    assert !HeldSomewhere(s, t);
  }

  /** In such runs a returning task is still marked blocked if and only if it re-reads
      while a signaller with the lock has raised the counter to 0 and not yet unblocked
      it, the only waiter. */
  lemma BlockedReturnIffEarly(s: State, events: seq<Event>, r: State, e: Event)
    requires Initial(s) && 0 < |s.sems| && Run(s, events, r, Quiet) && Enabled(r, e) && Returns(r, e)
    ensures var (pc, m) := (r.threads[e.t].pc, r.threads[e.t].pc.m);
            && |Next(r, e).threads| == |r.threads|
            && (Next(r, e).threads[e.t].block <==>
                  && pc.WaitReread? && r.sems[m].resource == 0 && r.sems[m].list == [e.t] && r.sems[m].holder != Some(e.t)
                  && (HolderPc(r, m).SigTest? || HolderPc(r, m).SigWake?))
  {
    InitialFacts(s, 0);
    QuietIsApart(s, events, r);
    RunInv(s, events, r);
    hide Run, Initial;
    Facts(r, r.threads[e.t].pc.m, e.t);
    if r.threads[e.t].pc.WaitReread? { EarlyExactly(r, e.t, e.k); }
  }

  // ----- reaching states

  ghost predicate Reaches(s: State, r: State, kind: Kind) {
    exists events :: Run(s, events, r, kind)
  }

  lemma {:induction false} RunSnoc(s: State, xs: seq<Event>, m: State, e: Event, kind: Kind)
    requires Run(s, xs, m, kind) && Enabled(m, e) && Allowed(m, e, kind)
    ensures Run(s, xs + [e], Next(m, e), kind)
    decreases |xs|
  {
    hide Next, Allowed, Enabled;
    if xs == [] {
      assert [] + [e] == [e] && [e][1..] == [];
    } else {
      assert (xs + [e])[1..] == xs[1..] + [e];
      RunSnoc(Next(s, xs[0]), xs[1..], m, e, kind);
    }
  }

  /** One more event of a run from s. */
  lemma Do(s: State, m: State, e: Event, r: State, kind: Kind)
    requires Reaches(s, m, kind) && Enabled(m, e) && Allowed(m, e, kind) && Next(m, e) == r
    ensures Reaches(s, r, kind)
  {
    hide Next, Allowed, Enabled, Run;
    var events :| Run(s, events, m, kind);
    RunSnoc(s, events, m, e, kind);
  }

  lemma Nothing(s: State, kind: Kind)
    ensures Reaches(s, s, kind)
  {
    assert Run(s, [], s, kind);
  }

  // ----- what entering a second list leads to

  function SetThread(s: State, t: nat, th: Thread): State
    requires t < |s.threads|
  {
    s.(threads := s.threads[t := th])
  }

  /** A signaller of n is about to unblock u. */
  predicate Wakeable(s: State, n: nat, u: nat) {
    && n < |s.sems| && s.sems[n].resource == 0 && s.sems[n].list == [u] && s.sems[n].holder.Some?
    && var h := s.sems[n].holder.value;
       h < |s.threads| && h != u && s.threads[h].onCpu && (s.threads[h].pc == SigTest(n) || s.threads[h].pc == SigWake(n, 0))
  }

  lemma WindowIsWakeable(s: State, n: nat, u: nat)
    requires Inv(s) && n < |s.sems| && u < |s.threads| && Window(s, n, u)
    ensures Wakeable(s, n, u)
  {
    var h := s.sems[n].holder.value;
    hide Inv, ThreadOk;
    AllSems(s, n);
    OwnRow(s, n, h);
  }

  /** The waiter goes from its list entry to its re-read. */
  function Entered(s: State, t: nat, m: nat): State
    requires t < |s.threads| && m < |s.sems|
  {
    SetSem(SetThread(s, t, Thread(WaitReread(m), true, true)), m, s.sems[m].(list := s.sems[m].list + [t], holder := None))
  }

  lemma EnterThrough(z: State, s: State, t: nat, m: nat)
    requires Reaches(z, s, Any) && t < |s.threads| && m < |s.sems| && s.threads[t].pc == WaitEnqueue(m) && s.threads[t].onCpu
    ensures Reaches(z, Entered(s, t, m), Any)
  {
    hide Reaches;
    var list := s.sems[m].list + [t];
    var a := SetSem(SetThread(s, t, s.threads[t].(pc := WaitBlock(m))), m, s.sems[m].(list := list));
    assert Next(s, Go(t, 0)) == a;
    Do(z, s, Go(t, 0), a, Any);
    var b := SetThread(a, t, Thread(WaitUnlock(m), true, true));
    assert Next(a, Go(t, 0)) == b;
    Do(z, a, Go(t, 0), b, Any);
    assert Next(b, Go(t, 0)) == Entered(s, t, m);
    Do(z, b, Go(t, 0), Entered(s, t, m), Any);
  }

  /** The signaller unblocks its choice. */
  function Woken(s: State, n: nat, u: nat): State
    requires Wakeable(s, n, u) && u < |s.threads|
  {
    var h := s.sems[n].holder.value;
    SetThread(SetThread(s, u, s.threads[u].(block := false)), h, s.threads[h].(pc := SigRemove(n, 0)))
  }

  lemma WakeThrough(z: State, s: State, n: nat, u: nat)
    requires Reaches(z, s, Any) && Wakeable(s, n, u) && u < |s.threads|
    ensures Reaches(z, Woken(s, n, u), Any)
  {
    hide Reaches;
    var h := s.sems[n].holder.value;
    var a := SetThread(s, h, s.threads[h].(pc := SigWake(n, 0)));
    if s.threads[h].pc == SigTest(n) {
      assert Next(s, Go(h, 0)) == a;
      Do(z, s, Go(h, 0), a, Any);
    } else {
      assert s == a;
    }
    assert Next(a, Go(h, 0)) == Woken(s, n, u);
    Do(z, a, Go(h, 0), Woken(s, n, u), Any);
  }

  /** A waiter that is not blocked returns. */
  function Left(s: State, u: nat, m: nat): State
    requires u < |s.threads| && m < |s.sems|
  {
    SetSem(SetThread(s, u, Thread(Out, true, false)), m, s.sems[m].(completed := s.sems[m].completed + 1))
  }

  lemma LeaveThrough(z: State, s: State, u: nat, m: nat)
    requires Reaches(z, s, Any) && u < |s.threads| && m < |s.sems| && s.sems[m].resource < 0 && !s.threads[u].block
    requires s.threads[u].pc == WaitReread(m) || s.threads[u].pc == WaitYield(m)
    ensures Reaches(z, Left(s, u, m), Any)
  {
    hide Reaches;
    var on := SetThread(s, u, s.threads[u].(onCpu := true));
    if s.threads[u].onCpu {
      assert on == s;
    } else {
      assert Next(s, Dispatch(u)) == on;
      Do(z, s, Dispatch(u), on, Any);
    }
    if s.threads[u].pc == WaitReread(m) {
      var off := SetThread(s, u, Thread(WaitYield(m), false, false));
      assert Next(on, Go(u, 0)) == off;
      Do(z, on, Go(u, 0), off, Any);
      var again := SetThread(s, u, Thread(WaitYield(m), true, false));
      assert Next(off, Dispatch(u)) == again;
      Do(z, off, Dispatch(u), again, Any);
      assert Next(again, Go(u, 0)) == Left(s, u, m);
      Do(z, again, Go(u, 0), Left(s, u, m), Any);
    } else {
      assert Next(on, Go(u, 0)) == Left(s, u, m);
      Do(z, on, Go(u, 0), Left(s, u, m), Any);
    }
  }

  /** Tasks in flight on m that its list does not hold. */
  function Unlisted(s: State, m: nat): set<nat>
    requires m < |s.sems|
  {
    set u | u in InFlight(s, m) && u !in s.sems[m].list
  }

  /** They can all return, if only their signallers, where they are blocked, go on. */
  ghost predicate CanDrain(s: State, m: nat) {
    && m < |s.sems| && s.sems[m].resource < 0
    && forall u: nat {:trigger s.threads[u]} :: u < |s.threads| && PastDec(s.threads[u].pc, m) && u !in s.sems[m].list ==>
      && (s.threads[u].pc == WaitReread(m) || s.threads[u].pc == WaitYield(m))
      && (s.threads[u].block ==> exists n: nat :: Wakeable(s, n, u))
  }

  predicate LateWaiter(s: State, u: nat, m: nat) {
    u < |s.threads| && m < |s.sems| && (s.threads[u].pc == WaitReread(m) || s.threads[u].pc == WaitYield(m))
  }

  /** Unblocking one task takes nothing away from the others. */
  lemma WokenDrains(s: State, n: nat, u: nat, m: nat)
    requires CanDrain(s, m) && Wakeable(s, n, u) && LateWaiter(s, u, m)
    ensures CanDrain(Woken(s, n, u), m) && LateWaiter(Woken(s, n, u), u, m) && !Woken(s, n, u).threads[u].block
    ensures Unlisted(Woken(s, n, u), m) == Unlisted(s, m) && Woken(s, n, u).sems == s.sems
    ensures InFlight(Woken(s, n, u), m) == InFlight(s, m)
  {
    var s' := Woken(s, n, u);
    forall v: nat | v < |s'.threads| && PastDec(s'.threads[v].pc, m) && v !in s'.sems[m].list
      ensures LateWaiter(s', v, m) && (s'.threads[v].block ==> exists p: nat :: Wakeable(s', p, v))
    {
      if s'.threads[v].block {
        var p: nat :| Wakeable(s, p, v);
        assert Wakeable(s', p, v);
      }
    }
    forall v: nat | v < |s.threads| ensures PastDec(s'.threads[v].pc, m) == PastDec(s.threads[v].pc, m) {}
  }

  /** Nor does the return of one. */
  lemma LeftDrains(s: State, u: nat, m: nat)
    requires CanDrain(s, m) && LateWaiter(s, u, m)
    ensures CanDrain(Left(s, u, m), m) && InFlight(Left(s, u, m), m) == InFlight(s, m) - {u}
    ensures Unlisted(Left(s, u, m), m) == Unlisted(s, m) - {u}
  {
    var s' := Left(s, u, m);
    forall v: nat | v < |s'.threads| && PastDec(s'.threads[v].pc, m) && v !in s'.sems[m].list
      ensures LateWaiter(s', v, m) && (s'.threads[v].block ==> exists p: nat :: Wakeable(s', p, v))
    {
      if s'.threads[v].block {
        var p: nat :| Wakeable(s, p, v);
        assert Wakeable(s', p, v);
      }
    }
    forall v: nat | v < |s.threads| && v != u ensures PastDec(s'.threads[v].pc, m) == PastDec(s.threads[v].pc, m) {}
  }

  /** What stays the same about m while tasks leave. */
  predicate SameAccount(s: State, r: State, m: nat) {
    && m < |s.sems| == |r.sems| && r.sems[m].list == s.sems[m].list && r.sems[m].resource == s.sems[m].resource
    && r.sems[m].init == s.sems[m].init && r.sems[m].signals == s.sems[m].signals
  }

  /** All tasks outside the list can be brought to return. */
  lemma {:induction false} Drain(z: State, s: State, m: nat) returns (r: State)
    requires Reaches(z, s, Any) && CanDrain(s, m)
    ensures Reaches(z, r, Any) && SameAccount(s, r, m) && Unlisted(r, m) == {} && InFlight(r, m) <= InFlight(s, m)
    decreases |Unlisted(s, m)|
  {
    hide Reaches;
    if Unlisted(s, m) == {} { return s; }
    var u :| u in Unlisted(s, m);
    assert LateWaiter(s, u, m);
    var b := s;
    if s.threads[u].block {
      var n: nat :| Wakeable(s, n, u);
      WokenDrains(s, n, u, m);
      WakeThrough(z, s, n, u);
      b := Woken(s, n, u);
    }
    LeftDrains(b, u, m);
    LeaveThrough(z, b, u, m);
    r := Drain(z, Left(b, u, m), m);
  }

  /** Before a task enters a second list, all that stands in its way can go on. */
  lemma EnteredDrains(s: State, t: nat, k: nat, n: nat)
    requires Inv(s) && Enabled(s, Go(t, k)) && s.threads[t].pc.WaitEnqueue? && n < |s.sems| && Held(s, n, t)
    ensures var m := s.threads[t].pc.m;
            var a := Entered(s, t, m);
            && CanDrain(a, m) && LateWaiter(a, t, m) && Wakeable(a, n, t) && n != m
            && |a.sems[m].list| == -a.sems[m].resource && t in a.sems[m].list
            && (forall i, j :: 0 <= i < j < |a.sems[m].list| ==> a.sems[m].list[i] != a.sems[m].list[j])
  {
    var m := s.threads[t].pc.m;
    var a := Entered(s, t, m);
    hide Inv;
    OwnRow(s, m, t);
    SecondList(s, t, m, n);
    assert a.sems[m].list[|s.sems[m].list|] == t;
    forall u: nat | u < |a.threads| && PastDec(a.threads[u].pc, m) && u !in a.sems[m].list
      ensures LateWaiter(a, u, m) && (a.threads[u].block ==> exists p: nat :: Wakeable(a, p, u))
    {
      assert u != t && a.threads[u] == s.threads[u] && u !in s.sems[m].list;
      OwnRow(s, m, u);
      if s.threads[u].block {
        var p := BlockedElsewhere(s, u, m);
        assert s.sems[p].list == [u] && p != m;
        assert Wakeable(a, p, u);
      }
    }
  }

  lemma SecondList(s: State, t: nat, m: nat, n: nat)
    requires Inv(s) && t < |s.threads| && m < |s.sems| && s.threads[t].pc == WaitEnqueue(m) && n < |s.sems| && Held(s, n, t)
    ensures n != m && Wakeable(s, n, t) && !Listed(s, m, t) && s.sems[m].holder == Some(t)
    ensures forall i, j :: 0 <= i < j < |s.sems[m].list| ==> s.sems[m].list[i] != s.sems[m].list[j]
  {
    hide Inv, Accounts;
    Facts(s, n, t);
    Facts(s, m, t);
    assert InSection(s.threads[t].pc, m);
    WindowIsWakeable(s, n, t);
    assert !Held(s, m, t);
  }

  /** A late waiter whom its own list does not hold is blocked only through another's window. */
  lemma BlockedElsewhere(s: State, u: nat, m: nat) returns (p: nat)
    requires Inv(s) && u < |s.threads| && m < |s.sems| && s.threads[u].block && u !in s.sems[m].list
    requires !s.threads[u].pc.Out? && s.threads[u].pc.m == m
    ensures Wakeable(s, p, u) && p < |s.sems|
  {
    hide Inv, SemOk;
    Facts(s, m, u);
    p :| p < |s.sems| && Held(s, p, u) && s.threads[u].pc != WaitBlock(p);
    assert p != m;
    WindowIsWakeable(s, p, u);
  }

  /** The condition of CompletedBounded is exact: wherever a task is about to enter a list
      while another holds it, the run can be continued, with no further signal to that
      semaphore, until more waits have returned than there were units. */
  lemma SecondEntryBreaksBound(s: State, events: seq<Event>, x: State, t: nat, k: nat)
    requires Initial(s) && Run(s, events, x, Apart) && Enabled(x, Go(t, k)) && Double(x, Go(t, k))
    ensures var m := x.threads[t].pc.m;
            exists r :: Reaches(x, r, Any) && SignalsSame(x, r, m)
              && r.sems[m].completed > r.sems[m].init + r.sems[m].signals
  {
    var m := x.threads[t].pc.m;
    hide Initial, Run, Inv, Reaches;
    RunFrame(s, events, x, Apart);
    InitialFacts(s, m);
    RunInv(s, events, x);
    RunLedger(s, events, x, m, Apart);
    var n: nat :| n < |x.sems| && Held(x, n, t);
    OwnRow(x, m, t);
    var a := Entered(x, t, m);
    EnteredDrains(x, t, k, n);
    Nothing(x, Any);
    EnterThrough(x, x, t, m);
    WokenDrains(a, n, t, m);
    WakeThrough(x, a, n, t);
    var b := Woken(a, n, t);
    LeaveThrough(x, b, t, m);
    LeftDrains(b, t, m);
    var r := Drain(x, Left(b, t, m), m);
    assert t !in InFlight(r, m);
    ReachesLedger(x, r, m);
    TooFew(r, m, t);
    assert SignalsSame(x, r, m);
  }

  predicate SignalsSame(s: State, r: State, m: nat) {
    m < |s.sems| && m < |r.sems| && r.sems[m].init == s.sems[m].init && r.sems[m].signals == s.sems[m].signals
  }

  lemma {:induction false} RunFrame(s: State, events: seq<Event>, r: State, kind: Kind)
    requires Run(s, events, r, kind)
    ensures |r.sems| == |s.sems| && |r.threads| == |s.threads|
    decreases |events|
  {
    hide Next, Double, Early;
    if events != [] {
      NextFrame(s, events[0]);
      RunFrame(Next(s, events[0]), events[1..], r, kind);
    }
  }

  lemma ReachesLedger(s: State, r: State, m: nat)
    requires Reaches(s, r, Any) && m < |s.sems| && Ledger(s, m)
    ensures m < |r.sems| && Ledger(r, m)
  {
    hide Run, Ledger;
    var events :| Run(s, events, r, Any);
    RunLedger(s, events, r, m, Any);
  }

  /** With a listed task gone and all unlisted ones returned, the flights no longer cover
      the debt. */
  lemma TooFew(s: State, m: nat, t: nat)
    requires m < |s.sems| && Ledger(s, m) && Unlisted(s, m) == {} && t in s.sems[m].list && t !in InFlight(s, m)
    requires |s.sems[m].list| == -s.sems[m].resource
    ensures s.sems[m].completed > s.sems[m].init + s.sems[m].signals
  {
    var list := s.sems[m].list;
    var members := Members(list);
    forall u | u in InFlight(s, m) ensures u in members - {t} { assert u !in Unlisted(s, m); }
    SetCount(list);
    assert |members - {t}| == |members| - 1;
    SubsetCount(InFlight(s, m), members - {t});
  }

  function Members(list: seq<nat>): set<nat> {
    set u | u in list
  }

  lemma {:induction false} SetCount(list: seq<nat>)
    ensures |Members(list)| <= |list|
    decreases |list|
  {
    if list != [] {
      var (init, last) := (list[..|list| - 1], list[|list| - 1]);
      SetCount(init);
      assert list == init + [last];
      assert Members(list) == Members(init) + {last};
    }
  }

  lemma {:induction false} SubsetCount(a: set<nat>, b: set<nat>)
    requires a <= b
    ensures |a| <= |b|
    decreases b
  {
    if b != {} {
      var x :| x in b;
      SubsetCount(a - {x}, b - {x});
    }
  }

  // ----- a concrete run that does

  function Pair(pc0: Pc, on0: bool, block0: bool, pc1: Pc, on1: bool, sem0: Sem, sem1: Sem): State {
    State([Thread(pc0, on0, block0), Thread(pc1, on1, false)], [sem0, sem1])
  }

  /** Two tasks and two semaphores, both with value 0. */
  function Start(): State {
    Pair(Out, false, false, Out, false,
      Sem(0, [], None, 0, 0, 0), Sem(0, [], None, 0, 0, 0))
  }

  /** Task 0 has taken its unit of semaphore 0, is listed and blocked, and has given the lock back. */
  function Reread(): State {
    Pair(WaitReread(0), true, true, Out, true,
      Sem(-1, [0], None, 0, 0, 0), Sem(0, [], None, 0, 0, 0))
  }

  /** Task 1 signals semaphore 0: it has raised the counter but not yet unblocked task 0. */
  function AtWindow(): State {
    Pair(WaitReread(0), true, true, SigTest(0), true,
      Sem(0, [0], Some(1), 0, 1, 0), Sem(0, [], None, 0, 0, 0))
  }

  /** The re-read let task 0 go on, still listed and still marked blocked. */
  function Gone(): State {
    Pair(Out, true, true, SigTest(0), true,
      Sem(0, [0], Some(1), 0, 1, 1), Sem(0, [], None, 0, 0, 0))
  }

  /** Task 0 is in the middle of a wait on semaphore 1. */
  function Middle(): State {
    Pair(WaitEnqueue(1), true, true, SigTest(0), true,
      Sem(0, [0], Some(1), 0, 1, 1), Sem(-1, [], Some(0), 0, 0, 0))
  }

  /** Task 0 has taken its unit of semaphore 0. */
  function Taken(): State {
    Pair(WaitTest(0), true, false, Out, true, Sem(-1, [], Some(0), 0, 0, 0), Sem(0, [], None, 0, 0, 0))
  }

  lemma StartToTaken()
    requires Reaches(Start(), Start(), Quiet)
    ensures Reaches(Start(), Taken(), Quiet)
  {
    hide Reaches;
    var s := Start();
    var r: State;
    r := Pair(Out, true, false, Out, false, Sem(0, [], None, 0, 0, 0), Sem(0, [], None, 0, 0, 0));
    Do(Start(), s, Dispatch(0), r, Quiet);
    s := r;
    r := Pair(Out, true, false, Out, true, Sem(0, [], None, 0, 0, 0), Sem(0, [], None, 0, 0, 0));
    Do(Start(), s, Dispatch(1), r, Quiet);
    s := r;
    r := Pair(WaitLock(0), true, false, Out, true, Sem(0, [], None, 0, 0, 0), Sem(0, [], None, 0, 0, 0));
    Do(Start(), s, StartWait(0, 0), r, Quiet);
    s := r;
    r := Pair(WaitDec(0), true, false, Out, true, Sem(0, [], Some(0), 0, 0, 0), Sem(0, [], None, 0, 0, 0));
    Do(Start(), s, Go(0, 0), r, Quiet);
    s := r;
    Do(Start(), s, Go(0, 0), Taken(), Quiet);
  }

  lemma TakenToReread()
    requires Reaches(Start(), Taken(), Quiet)
    ensures Reaches(Start(), Reread(), Quiet)
  {
    hide Reaches, Start;
    var s := Taken();
    var r: State;
    r := Pair(WaitEnqueue(0), true, false, Out, true, Sem(-1, [], Some(0), 0, 0, 0), Sem(0, [], None, 0, 0, 0));
    Do(Start(), s, Go(0, 0), r, Quiet);
    s := r;
    FirstEntry(s.sems[0].list);
    r := Pair(WaitBlock(0), true, false, Out, true, Sem(-1, [0], Some(0), 0, 0, 0), Sem(0, [], None, 0, 0, 0));
    Do(Start(), s, Go(0, 0), r, Quiet);
    s := r;
    r := Pair(WaitUnlock(0), true, true, Out, true, Sem(-1, [0], Some(0), 0, 0, 0), Sem(0, [], None, 0, 0, 0));
    Do(Start(), s, Go(0, 0), r, Quiet);
    s := r;
    Do(Start(), s, Go(0, 0), Reread(), Quiet);
  }

  lemma RereadToWindow()
    requires Reaches(Start(), Reread(), Quiet)
    ensures Reaches(Start(), AtWindow(), Quiet)
  {
    hide Reaches, Start;
    var s := Reread();
    var r: State;
    r := Pair(WaitReread(0), true, true, SigLock(0), true, Sem(-1, [0], None, 0, 0, 0), Sem(0, [], None, 0, 0, 0));
    Do(Start(), s, StartSignal(1, 0), r, Quiet);
    s := r;
    r := Pair(WaitReread(0), true, true, SigInc(0), true, Sem(-1, [0], Some(1), 0, 0, 0), Sem(0, [], None, 0, 0, 0));
    Do(Start(), s, Go(1, 0), r, Quiet);
    s := r;
    Do(Start(), s, Go(1, 0), AtWindow(), Quiet);
  }

  lemma GoneToMiddle()
    requires Reaches(Start(), Gone(), Apart)
    ensures Reaches(Start(), Middle(), Apart)
  {
    hide Reaches, Start;
    var s := Gone();
    var r: State;
    r := Pair(WaitLock(1), true, true, SigTest(0), true, Sem(0, [0], Some(1), 0, 1, 1), Sem(0, [], None, 0, 0, 0));
    Do(Start(), s, StartWait(0, 1), r, Apart);
    s := r;
    r := Pair(WaitDec(1), true, true, SigTest(0), true, Sem(0, [0], Some(1), 0, 1, 1), Sem(0, [], Some(0), 0, 0, 0));
    Do(Start(), s, Go(0, 0), r, Apart);
    s := r;
    r := Pair(WaitTest(1), true, true, SigTest(0), true, Sem(0, [0], Some(1), 0, 1, 1), Sem(-1, [], Some(0), 0, 0, 0));
    Do(Start(), s, Go(0, 0), r, Apart);
    s := r;
    Do(Start(), s, Go(0, 0), Middle(), Apart);
  }

  /** The unlocked re-read is not harmless: in a run from the start state whose only early
      step is the one from AtWindow to Gone, task 0 gets to enter the list of semaphore 1
      while that of semaphore 0 still holds it; from there the run goes on to a returned
      wait on semaphore 1, whose value was 0 and which nobody ever signalled. */
  lemma LostBlock()
    ensures Initial(Start()) && Reaches(Start(), AtWindow(), Quiet)
    ensures Enabled(AtWindow(), Go(0, 0)) && Early(AtWindow(), Go(0, 0)) && Next(AtWindow(), Go(0, 0)) == Gone()
    ensures Gone().threads[0].pc == Out && Gone().threads[0].block && Listed(Gone(), 0, 0)
    ensures Reaches(Start(), Middle(), Apart) && Enabled(Middle(), Go(0, 0)) && Double(Middle(), Go(0, 0))
    ensures exists r :: Reaches(Middle(), r, Any) && SignalsSame(Middle(), r, 1)
              && r.sems[1].completed > r.sems[1].init + r.sems[1].signals == 0
  {
    WindowFacts();
    hide Start, AtWindow, Gone, Middle, Next, Enabled, Early, Double;
    Nothing(Start(), Quiet);
    StartToTaken();
    TakenToReread();
    RereadToWindow();
    var events :| Run(Start(), events, AtWindow(), Quiet);
    InitialFacts(Start(), 0);
    QuietIsApart(Start(), events, AtWindow());
    Do(Start(), AtWindow(), Go(0, 0), Gone(), Apart);
    GoneToMiddle();
    var more :| Run(Start(), more, Middle(), Apart);
    SecondEntryBreaksBound(Start(), more, Middle(), 0, 0);
  }

  lemma WindowFacts()
    ensures Initial(Start()) && |Start().sems| == 2
    ensures Enabled(AtWindow(), Go(0, 0)) && Early(AtWindow(), Go(0, 0)) && Next(AtWindow(), Go(0, 0)) == Gone()
    ensures !Double(AtWindow(), Go(0, 0))
    ensures Gone().threads[0].pc == Out && Gone().threads[0].block && Listed(Gone(), 0, 0)
    ensures Enabled(Middle(), Go(0, 0)) && Double(Middle(), Go(0, 0)) && Middle().threads[0].pc.WaitEnqueue?
    ensures Middle().threads[0].pc.m == 1 && Middle().sems[1].init == Middle().sems[1].signals == 0
  {
    assert Held(Middle(), 0, 0);
  }

  lemma FirstEntry(list: seq<nat>)
    requires list == []
    ensures list + [0] == [0]
  {
  }
}
