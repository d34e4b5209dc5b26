/** kmt_sem_wait and kmt_sem_signal of kernel/src/kmt.c, one shared access at a time,
    for any number of tasks and semaphores. The scheduler is represented by what
    module Scheduler proves of it: a task moves only while it is dispatched, and
    a blocked task is never dispatched. */
module Semaphore {
  import opened Wrappers

  datatype Pc =
    | Out
    | WaitLock(m: nat) | WaitDec(m: nat) | WaitTest(m: nat) | WaitEnqueue(m: nat) | WaitBlock(m: nat)
    | WaitUnlock(m: nat) | WaitReread(m: nat) | WaitYield(m: nat)
    | SigLock(m: nat) | SigInc(m: nat) | SigTest(m: nat) | SigWake(m: nat, k: nat) | SigRemove(m: nat, k: nat)
    | SigUnlock(m: nat)

  datatype Thread = Thread(pc: Pc, onCpu: bool, block: bool)

  /** list is task_list[0 .. task_cnt]; init, signals and completed are history. */
  datatype Sem = Sem(resource: int, list: seq<nat>, holder: Option<nat>, init: nat, signals: nat, completed: nat)

  datatype State = State(threads: seq<Thread>, sems: seq<Sem>)

  /** Go(t, k) is the next access of task t; k is what rand() would answer. */
  datatype Event =
    | Dispatch(t: nat)
    | Preempt(t: nat)
    | StartWait(t: nat, m: nat)
    | StartSignal(t: nat, m: nat)
    | Go(t: nat, k: nat)

  ghost predicate Initial(s: State) {
    && (forall t {:trigger s.threads[t]} :: 0 <= t < |s.threads| ==> s.threads[t] == Thread(Out, false, false))
    && (forall m {:trigger s.sems[m]} :: 0 <= m < |s.sems| ==>
          s.sems[m] == Sem(s.sems[m].init, [], None, s.sems[m].init, 0, 0))
  }

  predicate OnSem(pc: Pc, count: nat) {
    pc.Out? || pc.m < count
  }

  /** Between taking the semaphore's lock and giving it back. */
  predicate InSection(pc: Pc, m: nat) {
    || pc == WaitDec(m) || pc == WaitTest(m) || pc == WaitEnqueue(m) || pc == WaitBlock(m) || pc == WaitUnlock(m)
    || pc == SigInc(m) || pc == SigTest(m) || (pc.SigWake? && pc.m == m) || (pc.SigRemove? && pc.m == m)
    || pc == SigUnlock(m)
  }

  predicate HoldsLock(pc: Pc) {
    !pc.Out? && InSection(pc, pc.m)
  }

  predicate Enabled(s: State, e: Event) {
    && e.t < |s.threads|
    && var th := s.threads[e.t];
       match e
       case Dispatch(_) => !th.onCpu && !th.block
       case Preempt(_) => th.onCpu && !HoldsLock(th.pc)
       case StartWait(_, m) => th.onCpu && th.pc == Out && m < |s.sems|
       case StartSignal(_, m) => th.onCpu && th.pc == Out && m < |s.sems|
       case Go(_, k) =>
         && th.onCpu && !th.pc.Out? && th.pc.m < |s.sems|
         && (th.pc.WaitLock? || th.pc.SigLock? ==> s.sems[th.pc.m].holder == None)
         && (th.pc.SigTest? && MustWake(s.sems[th.pc.m]) ==> k < |s.sems[th.pc.m].list|)
         && (th.pc.SigWake? ==> th.pc.k < |s.sems[th.pc.m].list| && s.sems[th.pc.m].list[th.pc.k] < |s.threads|)
         && (th.pc.SigRemove? ==> th.pc.k < |s.sems[th.pc.m].list|)
  }

  predicate MustWake(sem: Sem) {
    sem.resource <= 0 && |sem.list| > 0
  }

  function Goto(s: State, t: nat, pc: Pc): State
    requires t < |s.threads|
  {
    s.(threads := s.threads[t := s.threads[t].(pc := pc)])
  }

  function SetSem(s: State, m: nat, sem: Sem): State
    requires m < |s.sems|
  {
    s.(sems := s.sems[m := sem])
  }

  /** list[k] = list[--cnt] */
  function RemoveAt(list: seq<nat>, k: nat): seq<nat>
    requires k < |list|
  {
    list[k := list[|list| - 1]][..|list| - 1]
  }

  function Wait(s: State, t: nat): State
    requires t < |s.threads| && !s.threads[t].pc.Out? && s.threads[t].pc.m < |s.sems|
  {
    var (pc, m) := (s.threads[t].pc, s.threads[t].pc.m);
    var sem := s.sems[m];
    match pc
    case WaitLock(_) => SetSem(Goto(s, t, WaitDec(m)), m, sem.(holder := Some(t)))
    case WaitDec(_) => SetSem(Goto(s, t, WaitTest(m)), m, sem.(resource := sem.resource - 1))
    case WaitTest(_) => Goto(s, t, if sem.resource < 0 then WaitEnqueue(m) else WaitUnlock(m))
    case WaitEnqueue(_) => SetSem(Goto(s, t, WaitBlock(m)), m, sem.(list := sem.list + [t]))
    case WaitBlock(_) => s.(threads := s.threads[t := s.threads[t].(pc := WaitUnlock(m), block := true)])
    case WaitUnlock(_) => SetSem(Goto(s, t, WaitReread(m)), m, sem.(holder := None))
    case WaitReread(_) =>
      if sem.resource < 0 then s.(threads := s.threads[t := s.threads[t].(pc := WaitYield(m), onCpu := false)])
      else SetSem(Goto(s, t, Out), m, sem.(completed := sem.completed + 1))
    case WaitYield(_) => SetSem(Goto(s, t, Out), m, sem.(completed := sem.completed + 1))
    case _ => s
  }

  function Signal(s: State, t: nat, k: nat): State
    requires Enabled(s, Go(t, k))
  {
    var (pc, m) := (s.threads[t].pc, s.threads[t].pc.m);
    var sem := s.sems[m];
    match pc
    case SigLock(_) => SetSem(Goto(s, t, SigInc(m)), m, sem.(holder := Some(t)))
    case SigInc(_) => SetSem(Goto(s, t, SigTest(m)), m, sem.(resource := sem.resource + 1, signals := sem.signals + 1))
    case SigTest(_) => Goto(s, t, if MustWake(sem) then SigWake(m, k) else SigUnlock(m))
    case SigWake(_, j) =>
      var w := sem.list[j];
      Goto(s.(threads := s.threads[w := s.threads[w].(block := false)]), t, SigRemove(m, j))
    case SigRemove(_, j) => SetSem(Goto(s, t, SigUnlock(m)), m, sem.(list := RemoveAt(sem.list, j)))
    case SigUnlock(_) => SetSem(Goto(s, t, Out), m, sem.(holder := None))
    case _ => s
  }

  predicate IsWait(pc: Pc) {
    pc.WaitLock? || pc.WaitDec? || pc.WaitTest? || pc.WaitEnqueue? || pc.WaitBlock? || pc.WaitUnlock? ||
    pc.WaitReread? || pc.WaitYield?
  }

  function Next(s: State, e: Event): State
    requires Enabled(s, e)
  {
    match e
    case Dispatch(t) => s.(threads := s.threads[t := s.threads[t].(onCpu := true)])
    case Preempt(t) => s.(threads := s.threads[t := s.threads[t].(onCpu := false)])
    case StartWait(t, m) => Goto(s, t, WaitLock(m))
    case StartSignal(t, m) => Goto(s, t, SigLock(m))
    case Go(t, k) => if IsWait(s.threads[t].pc) then Wait(s, t) else Signal(s, t, k)
  }

  // ----- the invariant

  /** The waiting list is one entry behind or ahead of the counter while a task is
      between changing one and the other. */
  predicate Accounts(sem: Sem, holder: Pc) {
    var n := |sem.list|;
    match holder
    case WaitTest(_) => n == if sem.resource + 1 < 0 then -(sem.resource + 1) else 0
    case WaitEnqueue(_) => sem.resource < 0 && n == -(sem.resource + 1)
    case SigTest(_) => n == if sem.resource - 1 < 0 then -(sem.resource - 1) else 0
    case SigWake(_, k) => sem.resource <= 0 && n == 1 - sem.resource && k < n
    case SigRemove(_, k) => sem.resource <= 0 && n == 1 - sem.resource && k < n
    case _ => n == if sem.resource < 0 then -sem.resource else 0
  }

  /** The pc of whoever holds the lock, Out if nobody does. */
  function HolderPc(s: State, m: nat): Pc
    requires m < |s.sems|
  {
    var h := s.sems[m].holder;
    if h.Some? && h.value < |s.threads| then s.threads[h.value].pc else Out
  }

  predicate Listed(s: State, m: nat, t: nat)
    requires m < |s.sems|
  {
    t in s.sems[m].list
  }

  /** The task that a signaller has just unblocked and is about to remove. */
  predicate BeingRemoved(s: State, m: nat, t: nat)
    requires m < |s.sems|
  {
    var pc := HolderPc(s, m);
    pc.SigRemove? && pc.k < |s.sems[m].list| && s.sems[m].list[pc.k] == t
  }

  ghost predicate SemOk(s: State, m: nat)
    requires m < |s.sems|
  {
    var sem := s.sems[m];
    && (forall t: nat {:trigger s.threads[t]} :: t < |s.threads| ==> (InSection(s.threads[t].pc, m) <==> sem.holder == Some(t)))
    && (sem.holder.Some? ==> sem.holder.value < |s.threads|)
    && Accounts(sem, HolderPc(s, m))
    && (forall i, j :: 0 <= i < j < |sem.list| ==> sem.list[i] != sem.list[j])
    && (var pc := HolderPc(s, m); pc.SigRemove? && pc.k < |sem.list| ==> sem.holder != Some(sem.list[pc.k]))
    && (forall i :: 0 <= i < |sem.list| ==> sem.list[i] < |s.threads|)
  }

  /** A list holds the task, and no signaller is about to take it out. */
  predicate Held(s: State, m: nat, t: nat)
    requires m < |s.sems|
  {
    Listed(s, m, t) && !BeingRemoved(s, m, t)
  }

  /** The second half of a wait on m, from entering the list on. */
  predicate Waits(pc: Pc, m: nat) {
    pc == WaitBlock(m) || pc == WaitUnlock(m) || pc == WaitReread(m) || pc == WaitYield(m)
  }

  /** A signaller with the lock has raised the counter to 0 and not yet unblocked the
      only waiter. */
  predicate Window(s: State, m: nat, t: nat)
    requires m < |s.sems|
  {
    var (sem, pc) := (s.sems[m], HolderPc(s, m));
    sem.resource == 0 && sem.list == [t] && sem.holder != Some(t) && (pc.SigTest? || pc.SigWake?)
  }

  ghost predicate HeldSomewhere(s: State, t: nat)
    requires t < |s.threads|
  {
    exists m: nat {:trigger Held(s, m, t)} :: m < |s.sems| && Held(s, m, t) && s.threads[t].pc != WaitBlock(m)
  }

  /** A listed task is inside the second half of its wait, or has left it through the
      window; a task is marked blocked exactly while one list holds it, and at most one
      does. */
  ghost predicate ThreadOk(s: State, t: nat)
    requires t < |s.threads|
  {
    var th := s.threads[t];
    && OnSem(th.pc, |s.sems|)
    && (forall m: nat {:trigger Held(s, m, t)} :: m < |s.sems| && Held(s, m, t) ==> Waits(th.pc, m) || Window(s, m, t))
    && (forall m: nat, n: nat {:trigger Held(s, m, t), Held(s, n, t)} ::
          m < |s.sems| && n < |s.sems| && Held(s, m, t) && Held(s, n, t) ==> m == n)
    && (th.pc.WaitBlock? ==> Listed(s, th.pc.m, t))
    && (forall m: nat {:trigger Held(s, m, t)} :: m < |s.sems| && Held(s, m, t) && th.pc != WaitBlock(m) ==> th.block)
    && (th.block ==> HeldSomewhere(s, t))
    && (HoldsLock(th.pc) ==> th.onCpu)
    && (th.pc.WaitYield? && th.onCpu ==> !th.block)
  }

  ghost predicate Inv(s: State) {
    && (forall m: nat {:trigger s.sems[m]} :: m < |s.sems| ==> SemOk(s, m))
    && (forall t: nat {:trigger s.threads[t]} :: t < |s.threads| ==> ThreadOk(s, t))
  }

  /** The re-read of resource after unlocking comes in the window: the task goes on
      although it is still listed. */
  predicate Early(s: State, e: Event)
    requires Enabled(s, e)
  {
    e.Go? && s.threads[e.t].pc.WaitReread? && Window(s, s.threads[e.t].pc.m, e.t)
  }

  /** The task enters a waiting list while another still holds it. */
  ghost predicate Double(s: State, e: Event)
    requires Enabled(s, e)
  {
    e.Go? && s.threads[e.t].pc.WaitEnqueue? && exists n: nat {:trigger Held(s, n, e.t)} :: n < |s.sems| && Held(s, n, e.t)
  }

  lemma InitialInv(s: State)
    requires Initial(s)
    ensures Inv(s)
  {
    forall m: nat | m < |s.sems| ensures SemOk(s, m) {
      assert s.sems[m] == Sem(s.sems[m].init, [], None, s.sems[m].init, 0, 0);
      forall t: nat | t < |s.threads| ensures s.threads[t].pc == Out { }
    }
    forall t: nat | t < |s.threads| ensures ThreadOk(s, t) {
      assert s.threads[t] == Thread(Out, false, false);
      forall m: nat | m < |s.sems| ensures !Listed(s, m, t) { assert s.sems[m].list == []; }
    }
  }

  lemma Facts(s: State, m: nat, t: nat)
    requires Inv(s) && m < |s.sems| && t < |s.threads|
    ensures SemOk(s, m) && ThreadOk(s, t)
  {
    hide SemOk, ThreadOk;
    assert s.sems[m] == s.sems[m] && s.threads[t] == s.threads[t];
  }

  /** What one thread sees of one semaphore; a window once open stays open. */
  predicate SameView(s: State, s': State, m: nat, u: nat)
    requires m < |s.sems| && m < |s'.sems|
  {
    && Listed(s', m, u) == Listed(s, m, u) && BeingRemoved(s', m, u) == BeingRemoved(s, m, u)
    && (Window(s, m, u) ==> Window(s', m, u))
  }

  /** What is left to show for a step of task t on semaphore m that may also touch
      the task w. */
  lemma Local(s: State, s': State, t: nat, m: nat, w: nat)
    requires Inv(s) && t < |s.threads| && m < |s.sems| && w < |s.threads|
    requires |s'.threads| == |s.threads| && |s'.sems| == |s.sems| && s'.sems == s.sems[m := s'.sems[m]]
    requires forall u: nat {:trigger s'.threads[u]} :: u < |s.threads| && u != t && u != w ==> s'.threads[u] == s.threads[u]
    requires w != t ==> s'.threads[w].pc == s.threads[w].pc
    requires s.threads[t].pc.Out? || s.threads[t].pc.m == m
    requires s'.threads[t].pc.Out? || s'.threads[t].pc.m == m
    requires SemOk(s', m) && ThreadOk(s', t) && ThreadOk(s', w)
    requires forall u: nat {:trigger SameView(s, s', m, u)} :: u < |s.threads| && u != t && u != w ==> SameView(s, s', m, u)
    ensures Inv(s')
  {
    hide SemOk, ThreadOk, SameView;
    forall n: nat | n < |s'.sems| ensures SemOk(s', n) && (n != m ==> HolderPc(s', n) == HolderPc(s, n)) {
      if n != m {
        assert s'.sems[n] == s.sems[n] && SemOk(s, n);
        OtherSem(s, s', t, m, w, n);
      }
    }
    forall u: nat | u < |s'.threads| ensures ThreadOk(s', u) {
      if u != t && u != w {
        Facts(s, m, u);
        assert s'.threads[u] == s.threads[u];
        assert SameView(s, s', m, u);
        forall n: nat | n < |s.sems| ensures SameView(s, s', n, u) {
          if n != m { OtherView(s, s', n, u); }
        }
        SameViewThread(s, s', u);
      }
    }
  }

  lemma OtherView(s: State, s': State, n: nat, u: nat)
    requires n < |s.sems| == |s'.sems| && s'.sems[n] == s.sems[n] && HolderPc(s', n) == HolderPc(s, n)
    ensures SameView(s, s', n, u)
  {
  }

  lemma OtherSem(s: State, s': State, t: nat, m: nat, w: nat, n: nat)
    requires |s'.threads| == |s.threads| && |s'.sems| == |s.sems| && t < |s.threads| && n < |s.sems| && n != m
    requires SemOk(s, n) && s'.sems[n] == s.sems[n] && w < |s.threads|
    requires forall u: nat {:trigger s'.threads[u]} :: u < |s.threads| && u != t && u != w ==> s'.threads[u] == s.threads[u]
    requires w != t ==> s'.threads[w].pc == s.threads[w].pc
    requires s.threads[t].pc.Out? || s.threads[t].pc.m == m
    requires s'.threads[t].pc.Out? || s'.threads[t].pc.m == m
    ensures SemOk(s', n) && HolderPc(s', n) == HolderPc(s, n)
  {
    hide Accounts;
    forall u: nat | u < |s.threads|
      ensures InSection(s'.threads[u].pc, n) == InSection(s.threads[u].pc, n)
      ensures InSection(s.threads[u].pc, n) ==> s'.threads[u].pc == s.threads[u].pc
    {
      assert s'.threads[u] == s'.threads[u];
    }
    var h := s.sems[n].holder;
    if h.Some? {
      assert InSection(s.threads[h.value].pc, n);
    }
  }

  /** Views of all semaphores, and nothing else, determine what holds a thread. */
  lemma SameHolds(s: State, s': State, u: nat)
    requires u < |s.threads| == |s'.threads| && |s'.sems| == |s.sems|
    requires forall n: nat {:trigger SameView(s, s', n, u)} :: n < |s.sems| ==> SameView(s, s', n, u)
    ensures forall n: nat {:trigger Held(s', n, u)} {:trigger Held(s, n, u)} {:trigger Listed(s', n, u)} :: n < |s.sems| ==>
      && Listed(s', n, u) == Listed(s, n, u) && Held(s', n, u) == Held(s, n, u)
      && (Window(s, n, u) ==> Window(s', n, u))
    ensures s'.threads[u].pc == s.threads[u].pc ==> HeldSomewhere(s', u) == HeldSomewhere(s, u)
  {
    hide Window, Listed, BeingRemoved;
    forall n: nat | n < |s.sems|
      ensures Listed(s', n, u) == Listed(s, n, u) && Held(s', n, u) == Held(s, n, u)
      ensures Window(s, n, u) ==> Window(s', n, u)
    {
      assert SameView(s, s', n, u);
    }
  }

  lemma SameViewThread(s: State, s': State, u: nat)
    requires u < |s.threads| == |s'.threads| && |s'.sems| == |s.sems| && ThreadOk(s, u)
    requires s'.threads[u].pc == s.threads[u].pc && s'.threads[u].block == s.threads[u].block
    requires HoldsLock(s.threads[u].pc) && s.threads[u].onCpu ==> s'.threads[u].onCpu
    requires s'.threads[u].onCpu && !s.threads[u].onCpu ==> !s.threads[u].block
    requires forall n: nat {:trigger SameView(s, s', n, u)} :: n < |s.sems| ==> SameView(s, s', n, u)
    ensures ThreadOk(s', u)
  {
    hide Window, Listed, BeingRemoved, Held, HeldSomewhere, SameView;
    SameHolds(s, s', u);
  }

  /** Dispatching and preemption. */
  lemma DispatchInv(s: State, e: Event)
    requires Inv(s) && Enabled(s, e) && (e.Dispatch? || e.Preempt?)
    ensures Inv(Next(s, e))
  {
    var s' := Next(s, e);
    hide Accounts, ThreadOk, SameView, Inv;
    forall m: nat | m < |s'.sems| ensures SemOk(s', m) && HolderPc(s', m) == HolderPc(s, m) {
      Facts(s, m, e.t);
    }
    forall t: nat | t < |s'.threads| ensures ThreadOk(s', t) {
      forall n: nat | n < |s.sems| ensures SameView(s, s', n, t) { OtherView(s, s', n, t); }
      DispatchThread(s, e, t);
    }
    assert Inv(s') by { InvFrom(s'); }
  }

  lemma InvFrom(s: State)
    requires forall m: nat :: m < |s.sems| ==> SemOk(s, m)
    requires forall t: nat :: t < |s.threads| ==> ThreadOk(s, t)
    ensures Inv(s)
  {
    hide SemOk, ThreadOk;
  }

  lemma DispatchThread(s: State, e: Event, t: nat)
    requires Inv(s) && Enabled(s, e) && (e.Dispatch? || e.Preempt?) && t < |s.threads|
    requires forall n: nat {:trigger SameView(s, Next(s, e), n, t)} :: n < |s.sems| ==> SameView(s, Next(s, e), n, t)
    ensures ThreadOk(Next(s, e), t)
  {
    assert ThreadOk(s, t);
    assert HoldsLock(s.threads[t].pc) ==> s.threads[t].onCpu;
    hide Inv, ThreadOk, SameView;
    SameViewThread(s, Next(s, e), t);
  }

  /** A step of task t on semaphore m that leaves every list alone and neither starts
      nor ends a removal; it may take or give back the lock. */
  predicate Plain(s: State, s': State, t: nat, m: nat) {
    && t < |s.threads| == |s'.threads| && m < |s.sems| == |s'.sems|
    && s'.threads == s.threads[t := s'.threads[t]] && s'.sems == s.sems[m := s'.sems[m]]
    && (s.threads[t].pc.Out? || s.threads[t].pc.m == m)
    && (s'.threads[t].pc.Out? || s'.threads[t].pc.m == m)
    && !s.threads[t].pc.SigRemove? && !s'.threads[t].pc.SigRemove? && !s.threads[t].pc.SigWake?
    && s'.sems[m].list == s.sems[m].list
    && (s'.sems[m].holder == s.sems[m].holder
        || (s.sems[m].holder == None && s'.sems[m].holder == Some(t))
        || (s.sems[m].holder == Some(t) && s'.sems[m].holder == None))
    && (InSection(s'.threads[t].pc, m) <==> s'.sems[m].holder == Some(t))
    && (s.sems[m].holder != Some(t) ==> s'.sems[m].resource == s.sems[m].resource)
    && (s.threads[t].pc.SigTest? && MustWake(s.sems[m]) ==>
          s'.threads[t].pc.SigWake? && s'.sems[m] == s.sems[m])
  }

  lemma PlainViews(s: State, s': State, t: nat, m: nat)
    requires Inv(s) && Plain(s, s', t, m)
    ensures forall n: nat, u: nat {:trigger SameView(s, s', n, u)} :: n < |s.sems| ==> SameView(s, s', n, u)
  {
    hide Accounts, ThreadOk, Inv;
    forall n: nat, u: nat | n < |s.sems| ensures SameView(s, s', n, u) {
      Facts(s, n, t);
      assert InSection(s.threads[t].pc, n) <==> s.sems[n].holder == Some(t);
    }
  }

  /** The task's own part, if it stays in its half of the wait or leaves it through
      the window. */
  lemma PlainOwn(s: State, s': State, t: nat, m: nat)
    requires Inv(s) && Plain(s, s', t, m) && s'.threads[t].block == s.threads[t].block
    requires !s'.threads[t].pc.WaitBlock? && !s.threads[t].pc.WaitBlock?
    requires Held(s, m, t) && Waits(s.threads[t].pc, m) ==> Waits(s'.threads[t].pc, m) || Window(s, m, t)
    requires HoldsLock(s'.threads[t].pc) ==> s'.threads[t].onCpu
    requires s'.threads[t].pc.WaitYield? ==> !s'.threads[t].onCpu
    ensures ThreadOk(s', t)
  {
    hide Window, Listed, BeingRemoved, Held, SameView, Inv, SemOk;
    Facts(s, m, t);
    PlainViews(s, s', t, m);
    SameHolds(s, s', t);
  }

  lemma PlainInv(s: State, s': State, t: nat, m: nat)
    requires Inv(s) && Plain(s, s', t, m) && ThreadOk(s', t)
    requires s'.sems[m].holder == Some(t) ==> Accounts(s'.sems[m], s'.threads[t].pc)
    requires s'.sems[m].holder == None ==> Accounts(s'.sems[m], Out)
    ensures Inv(s')
  {
    hide ThreadOk, Inv, SameView;
    Facts(s, m, t);
    PlainViews(s, s', t, m);
    PlainSem(s, s', t, m);
    hide SemOk;
    Local(s, s', t, m, t);
  }

  lemma PlainSem(s: State, s': State, t: nat, m: nat)
    requires Plain(s, s', t, m) && SemOk(s, m)
    requires s'.sems[m].holder == Some(t) ==> Accounts(s'.sems[m], s'.threads[t].pc)
    requires s'.sems[m].holder == None ==> Accounts(s'.sems[m], Out)
    ensures SemOk(s', m)
  {
    forall u: nat | u < |s.threads| ensures InSection(s'.threads[u].pc, m) <==> s'.sems[m].holder == Some(u) {
      assert u != t ==> s'.threads[u] == s.threads[u];
      assert InSection(s.threads[u].pc, m) <==> s.sems[m].holder == Some(u);
    }
  }

  /** Starting a wait or a signal touches nothing shared. */
  lemma StartInv(s: State, e: Event)
    requires Inv(s) && Enabled(s, e) && (e.StartWait? || e.StartSignal?)
    ensures Inv(Next(s, e))
  {
    hide Accounts, ThreadOk, Inv;
    Facts(s, e.m, e.t);
    assert InSection(s.threads[e.t].pc, e.m) <==> s.sems[e.m].holder == Some(e.t);
    PlainOwn(s, Next(s, e), e.t, e.m);
    PlainInv(s, Next(s, e), e.t, e.m);
  }

  /** All steps that leave lists and block flags alone. */
  predicate PlainStep(pc: Pc) {
    !pc.Out? && !pc.WaitEnqueue? && !pc.WaitBlock? && !pc.SigWake? && !pc.SigRemove?
  }

  /** A listed task that re-reads a counter which is not negative is in the window. */
  lemma PassingIsWindow(s: State, m: nat, t: nat)
    requires Inv(s) && m < |s.sems| && t < |s.threads| && Held(s, m, t) && s.sems[m].resource >= 0
    requires s.threads[t].pc == WaitReread(m)
    ensures Window(s, m, t)
  {
    Facts(s, m, t);
    assert |s.sems[m].list| >= 1;
  }

  /** A task that runs after its yield is in no list. */
  lemma YieldedIsFree(s: State, m: nat, t: nat)
    requires Inv(s) && m < |s.sems| && t < |s.threads| && s.threads[t].pc == WaitYield(m) && s.threads[t].onCpu
    ensures !Held(s, m, t)
  {
    Facts(s, m, t);
  }

  lemma PlainWaitInv(s: State, t: nat, k: nat)
    requires Inv(s) && Enabled(s, Go(t, k)) && PlainStep(s.threads[t].pc) && IsWait(s.threads[t].pc)
    ensures Inv(Next(s, Go(t, k)))
  {
    hide Inv, ThreadOk, Window, Held;
    var m := s.threads[t].pc.m;
    Facts(s, m, t);
    OwnRow(s, m, t);
    var s' := Next(s, Go(t, k));
    assert Plain(s, s', t, m);
    if s.threads[t].pc.WaitReread? && s.sems[m].resource >= 0 && Held(s, m, t) { PassingIsWindow(s, m, t); }
    if s.threads[t].pc.WaitYield? { YieldedIsFree(s, m, t); }
    hide SemOk, Plain;
    PlainOwn(s, s', t, m);
    PlainInv(s, s', t, m);
  }

  lemma OwnRow(s: State, m: nat, t: nat)
    requires Inv(s) && m < |s.sems| && t < |s.threads|
    ensures InSection(s.threads[t].pc, m) <==> s.sems[m].holder == Some(t)
    ensures HoldsLock(s.threads[t].pc) ==> s.threads[t].onCpu
    ensures s.sems[m].holder == Some(t) ==> HolderPc(s, m) == s.threads[t].pc
    ensures Accounts(s.sems[m], HolderPc(s, m))
  {
    hide Accounts;
    Facts(s, m, t);
  }

  lemma PlainSignalInv(s: State, t: nat, k: nat)
    requires Inv(s) && Enabled(s, Go(t, k)) && PlainStep(s.threads[t].pc) && !IsWait(s.threads[t].pc)
    ensures Inv(Next(s, Go(t, k)))
  {
    hide Inv, ThreadOk, Window, Held;
    var m := s.threads[t].pc.m;
    OwnRow(s, m, t);
    var s' := Next(s, Go(t, k));
    assert Plain(s, s', t, m);
    hide SemOk, Plain;
    PlainOwn(s, s', t, m);
    PlainInv(s, s', t, m);
  }

  /** sem->task_list[sem->task_cnt++] = current_task */
  lemma EnqueueInv(s: State, t: nat, k: nat)
    requires Inv(s) && Enabled(s, Go(t, k)) && s.threads[t].pc.WaitEnqueue? && !Double(s, Go(t, k))
    ensures Inv(Next(s, Go(t, k)))
  {
    hide Inv;
    var m := s.threads[t].pc.m;
    Facts(s, m, t);
    var s' := Next(s, Go(t, k));
    assert s.sems[m].holder == Some(t) && !BeingRemoved(s, m, t);
    assert !Held(s, m, t);
    FreeIsUnlisted(s, m, t);
    forall u: nat | u < |s.threads| ensures InSection(s'.threads[u].pc, m) <==> s'.sems[m].holder == Some(u) {
      assert u != t ==> s'.threads[u] == s.threads[u];
    }
    assert SemOk(s', m);
    EnqueuedThread(s, s', t, m);
    forall u: nat | u < |s.threads| && u != t ensures SameView(s, s', m, u) { }
    hide SemOk, ThreadOk, SameView;
    Local(s, s', t, m, t);
  }

  lemma FreeIsUnlisted(s: State, m: nat, t: nat)
    requires m < |s.sems| && !Held(s, m, t) && !BeingRemoved(s, m, t)
    ensures !Listed(s, m, t)
  {
  }

  lemma EnqueuedThread(s: State, s': State, t: nat, m: nat)
    requires Inv(s) && t < |s.threads| && m < |s.sems| && s.threads[t].pc == WaitEnqueue(m)
    requires s' == SetSem(Goto(s, t, WaitBlock(m)), m, s.sems[m].(list := s.sems[m].list + [t]))
    requires forall n: nat {:trigger Held(s, n, t)} :: n < |s.sems| ==> !Held(s, n, t)
    ensures ThreadOk(s', t)
  {
    hide Inv, Accounts, Window;
    Facts(s, m, t);
    forall n: nat | n < |s.sems| && n != m ensures !Held(s', n, t) {
      Facts(s, n, t);
      assert InSection(s.threads[t].pc, n) <==> s.sems[n].holder == Some(t);
      assert s'.sems[n] == s.sems[n] && HolderPc(s', n) == HolderPc(s, n);
      assert Held(s', n, t) == Held(s, n, t);
    }
    assert !s.threads[t].block;
    assert t in s'.sems[m].list by { assert s'.sems[m].list[|s.sems[m].list|] == t; }
  }

  /** current_task->block = true */
  lemma BlockInv(s: State, t: nat, k: nat)
    requires Inv(s) && Enabled(s, Go(t, k)) && s.threads[t].pc.WaitBlock?
    ensures Inv(Next(s, Go(t, k)))
  {
    hide Inv, Window;
    var m := s.threads[t].pc.m;
    Facts(s, m, t);
    var s' := Next(s, Go(t, k));
    assert InSection(s.threads[t].pc, m);
    assert Plain(s, s', t, m);
    hide Accounts, SameView;
    PlainViews(s, s', t, m);
    SameHolds(s, s', t);
    assert Listed(s, m, t) && !BeingRemoved(s, m, t) && Held(s', m, t);
    assert HeldSomewhere(s', t);
    assert ThreadOk(s', t);
    assert Accounts(s'.sems[m], s'.threads[t].pc) by { BlockAccounts(s.sems[m], m); }
    hide ThreadOk, SemOk, Plain;
    PlainInv(s, s', t, m);
  }

  lemma BlockAccounts(sem: Sem, m: nat)
    requires Accounts(sem, WaitBlock(m))
    ensures Accounts(sem, WaitUnlock(m))
  {
  }

  /** The removal's two steps change the view of semaphore m for the chosen task only. */
  lemma RemovalViews(s: State, s': State, t: nat, m: nat, w: nat)
    requires Inv(s) && t < |s.threads| == |s'.threads| && m < |s.sems| && w < |s.threads| && |s.sems| == |s'.sems|
    requires s.sems[m].holder == Some(t)
    requires forall u: nat {:trigger s'.threads[u]} :: u < |s.threads| && u != t ==> s'.threads[u].pc == s.threads[u].pc
    requires forall n: nat {:trigger s'.sems[n]} :: n < |s.sems| && n != m ==> s'.sems[n] == s.sems[n]
    requires forall u: nat {:trigger SameView(s, s', m, u)} :: u != w ==> SameView(s, s', m, u)
    ensures forall n: nat, u: nat {:trigger SameView(s, s', n, u)} :: n < |s.sems| && (n != m || u != w) ==> SameView(s, s', n, u)
  {
    hide Inv, Accounts, ThreadOk, SameView;
    forall n: nat, u: nat | n < |s.sems| && n != m ensures SameView(s, s', n, u) {
      Facts(s, n, t);
      Facts(s, m, t);
      assert s'.sems[n] == s.sems[n];
      assert InSection(s.threads[t].pc, m) && !InSection(s.threads[t].pc, n);
      OtherView(s, s', n, u);
    }
  }

  /** The chosen task: nothing holds it any more. */
  lemma RemovalThread(s: State, s': State, m: nat, w: nat)
    requires Inv(s) && w < |s.threads| == |s'.threads| && m < |s.sems| == |s'.sems|
    requires forall n: nat {:trigger SameView(s, s', n, w)} :: n < |s.sems| && n != m ==> SameView(s, s', n, w)
    requires s'.threads[w].pc == s.threads[w].pc && s'.threads[w].onCpu == s.threads[w].onCpu
    requires !Held(s', m, w) && s.threads[w].pc != WaitBlock(m)
    requires s'.threads[w].block == if Held(s, m, w) then false else s.threads[w].block
    ensures ThreadOk(s', w)
  {
    hide Inv, SemOk, Window;
    Facts(s, m, w);
    forall n: nat | n < |s.sems| && n != m
      ensures Listed(s', n, w) == Listed(s, n, w) && Held(s', n, w) == Held(s, n, w) && (Window(s, n, w) ==> Window(s', n, w))
    {
      assert SameView(s, s', n, w);
    }
    hide Held, Listed;
    if s'.threads[w].block {
      var n: nat :| n < |s.sems| && Held(s, n, w) && s.threads[w].pc != WaitBlock(n);
      assert Held(s', n, w);
    }
  }

  /** The signaller's own part of a removal step. */
  lemma SignallerThread(s: State, s': State, t: nat, m: nat)
    requires Inv(s) && t < |s.threads| == |s'.threads| && m < |s.sems| == |s'.sems|
    requires forall n: nat {:trigger SameView(s, s', n, t)} :: n < |s.sems| ==> SameView(s, s', n, t)
    requires InSection(s.threads[t].pc, m) && !IsWait(s.threads[t].pc)
    requires (s'.threads[t].pc.SigRemove? || s'.threads[t].pc.SigUnlock?) && s'.threads[t].pc.m == m
    requires s'.threads[t].onCpu == s.threads[t].onCpu && s'.threads[t].block == s.threads[t].block
    ensures ThreadOk(s', t)
  {
    hide Inv, SemOk, Window, Held, Listed, BeingRemoved, SameView;
    Facts(s, m, t);
    SameHolds(s, s', t);
  }

  /** Who is about to be unblocked is not the signaller. */
  lemma ChosenApart(s: State, t: nat, m: nat, w: nat)
    requires Inv(s) && t < |s.threads| && m < |s.sems| && w < |s.threads| && s.sems[m].holder == Some(t)
    requires !IsWait(s.threads[t].pc) && Listed(s, m, w)
    ensures w != t && !InSection(s.threads[w].pc, m) && s.threads[w].pc != WaitBlock(m)
  {
    Facts(s, m, t);
    Facts(s, m, w);
    assert Held(s, m, w) || BeingRemoved(s, m, w);
  }

  /** sem->task_list[task_id]->block = false */
  lemma WakeInv(s: State, t: nat, k: nat)
    requires Inv(s) && Enabled(s, Go(t, k)) && s.threads[t].pc.SigWake?
    ensures Inv(Next(s, Go(t, k)))
  {
    hide Inv, ThreadOk;
    var (m, j) := (s.threads[t].pc.m, s.threads[t].pc.k);
    var w := s.sems[m].list[j];
    Facts(s, m, t);
    var s' := Next(s, Go(t, k));
    assert InSection(s.threads[t].pc, m) && s.sems[m].holder == Some(t);
    assert Listed(s, m, w) && Held(s, m, w);
    ChosenApart(s, t, m, w);
    assert BeingRemoved(s', m, w);
    assert SemOk(s', m) by {
      forall u: nat | u < |s.threads| ensures InSection(s'.threads[u].pc, m) <==> s'.sems[m].holder == Some(u) {
        assert u != t ==> s'.threads[u].pc == s.threads[u].pc;
      }
    }
    forall u: nat | u != w ensures SameView(s, s', m, u) { }
    hide SemOk, SameView;
    RemovalViews(s, s', t, m, w);
    RemovalThread(s, s', m, w);
    SignallerThread(s, s', t, m);
    assert s'.sems == s.sems[m := s'.sems[m]];
    Local(s, s', t, m, w);
  }

  lemma RemoveAtMembers(list: seq<nat>, k: nat)
    requires k < |list| && forall i, j :: 0 <= i < j < |list| ==> list[i] != list[j]
    ensures |RemoveAt(list, k)| == |list| - 1
    ensures forall u :: u in RemoveAt(list, k) <==> u in list && u != list[k]
    ensures var r := RemoveAt(list, k); forall i, j :: 0 <= i < j < |r| ==> r[i] != r[j]
  {
    var r := RemoveAt(list, k);
    forall u | u in list && u != list[k] ensures u in r {
      var i :| 0 <= i < |list| && list[i] == u;
      if i == |list| - 1 { assert r[k] == u; } else { assert r[i] == u; }
    }
  }

  /** sem->task_list[task_id] = sem->task_list[--sem->task_cnt] */
  lemma RemoveInv(s: State, t: nat, k: nat)
    requires Inv(s) && Enabled(s, Go(t, k)) && s.threads[t].pc.SigRemove?
    ensures Inv(Next(s, Go(t, k)))
  {
    hide Inv, ThreadOk;
    var (m, j) := (s.threads[t].pc.m, s.threads[t].pc.k);
    var w := s.sems[m].list[j];
    Facts(s, m, t);
    assert w < |s.threads|;
    RemoveAtMembers(s.sems[m].list, j);
    var s' := Next(s, Go(t, k));
    assert InSection(s.threads[t].pc, m) && s.sems[m].holder == Some(t);
    assert Listed(s, m, w) && BeingRemoved(s, m, w) && !Listed(s', m, w);
    assert w != t && !InSection(s.threads[w].pc, m);
    assert SemOk(s', m) by {
      forall u: nat | u < |s.threads| ensures InSection(s'.threads[u].pc, m) <==> s'.sems[m].holder == Some(u) {
        assert u != t ==> s'.threads[u].pc == s.threads[u].pc;
      }
      forall i | 0 <= i < |s'.sems[m].list| ensures s'.sems[m].list[i] < |s.threads| {
        assert s'.sems[m].list[i] in s.sems[m].list;
      }
    }
    forall u: nat | u != w ensures SameView(s, s', m, u) {
      assert Listed(s', m, u) == Listed(s, m, u);
    }
    hide SemOk, SameView;
    RemovalViews(s, s', t, m, w);
    RemovalThread(s, s', m, w);
    SignallerThread(s, s', t, m);
    assert s'.sems == s.sems[m := s'.sems[m]];
    Local(s, s', t, m, w);
  }

  /** Every event keeps the invariant, early re-reads included, unless a task enters a
      list while another holds it. */
  lemma NextInv(s: State, e: Event)
    requires Inv(s) && Enabled(s, e) && !Double(s, e)
    ensures Inv(Next(s, e))
  {
    hide Inv, Next, Double;
    match e {
      case Dispatch(_) => DispatchInv(s, e);
      case Preempt(_) => DispatchInv(s, e);
      case StartWait(_, _) => StartInv(s, e);
      case StartSignal(_, _) => StartInv(s, e);
      case Go(t, k) =>
        var pc := s.threads[t].pc;
        if pc.WaitEnqueue? { EnqueueInv(s, t, k); }
        else if pc.WaitBlock? { BlockInv(s, t, k); }
        else if pc.SigWake? { WakeInv(s, t, k); }
        else if pc.SigRemove? { RemoveInv(s, t, k); }
        else if IsWait(pc) { PlainWaitInv(s, t, k); }
        else { PlainSignalInv(s, t, k); }
    }
  }

}
