/** What the scheduler achieves: which task a choice dispatches, what a whole trap does on
    a CPU, and that a blocked task stays away until it is woken. */
module SchedulerRuns {
  import opened Wrappers
  import opened Scheduler

  /** The state is reached by a run from boot. */
  ghost predicate Reached(r: State) {
    exists s: State, events: seq<Event> :: Initial(s) && Run(s, events, r)
  }

  /** The invariant, and owners are CPUs. */
  ghost predicate Good(r: State) {
    Inv(r) && forall t: nat {:trigger r.tasks[t]} :: t < |r.tasks| && r.tasks[t].owner.Some? ==> r.tasks[t].owner.value < |r.cpus|
  }

  lemma GoodNext(r: State, e: Event)
    requires Good(r) && Enabled(r, e)
    ensures Good(Next(r, e))
  {
    hide Inv, Next, Enabled;
    NextInv(r, e);
    assert Run(r, [e], Next(r, e)) by { OneEvent(r, e); }
    forall t: nat | t < |Next(r, e).tasks| && Next(r, e).tasks[t].owner.Some?
      ensures Next(r, e).tasks[t].owner.value < |Next(r, e).cpus| { OwnerExists(r, [e], Next(r, e), t); }
  }

  lemma OneEvent(r: State, e: Event)
    requires Enabled(r, e)
    ensures Run(r, [e], Next(r, e))
  {
    assert [e][1..] == [];
  }

  lemma ReachedGood(r: State)
    requires Reached(r)
    ensures Good(r)
  {
    hide Inv, Run;
    var s: State, events: seq<Event> :| Initial(s) && Run(s, events, r);
    InitialInv(s);
    RunInv(s, events, r);
    forall t: nat | t < |r.tasks| && r.tasks[t].owner.Some? ensures r.tasks[t].owner.value < |r.cpus| {
      OwnerExists(s, events, r, t);
    }
  }

  /** The task can be given to CPU c. */
  predicate Eligible(r: State, c: nat, t: nat) {
    && t < |r.tasks| && !r.tasks[t].block
    && forall d: nat :: d < |r.cpus| && d != c ==> !Holds(r.cpus[d], t)
  }

  /** The state after a choice, with the second look where the task had to be claimed. */
  function Pick(r: State, c: nat, t: nat): State
    requires Enabled(r, Try(c, t))
  {
    var x := Next(r, Try(c, t));
    if Enabled(x, Confirm(c)) then Next(x, Confirm(c)) else x
  }

  /** A choice dispatches the task if and only if it is not blocked and no other CPU has
      it; otherwise nothing changes and the CPU chooses again. */
  lemma PickExact(r: State, c: nat, t: nat)
    requires Good(r) && Enabled(r, Try(c, t))
    ensures Eligible(r, c, t) <==> Pick(r, c, t).cpus[c].pc == Resuming && Pick(r, c, t).cpus[c].current == Task(t)
    ensures !Eligible(r, c, t) ==> Pick(r, c, t) == r
    ensures Eligible(r, c, t) ==> Pick(r, c, t).cpus == r.cpus[c := r.cpus[c].(pc := Resuming, current := Task(t))]
    ensures Eligible(r, c, t) ==> forall u: nat :: u < |r.tasks| && u != t ==> |Pick(r, c, t).tasks| == |r.tasks| && Pick(r, c, t).tasks[u] == r.tasks[u]
  {
    Facts(r, c, t);
    hide Inv;
    var k := r.tasks[t];
    if k.owner.Some? { assert PairOk(k.owner.value, r.cpus[k.owner.value], t, k); }
  }

  /** From the trap to the choice: three steps that are always possible, after which the
      trap's context is saved, the CPU still has its task, and the task it ran before that
      one is free for every CPU. */
  lemma TrapToChoice(r: State, c: nat, ctx: nat)
    requires Inv(r) && Enabled(r, TrapSave(c, ctx))
    ensures Enabled(Next(r, TrapSave(c, ctx)), Release(c))
    ensures Enabled(Next(Next(r, TrapSave(c, ctx)), Release(c)), SetSave(c))
    ensures var x := AtChoice(r, c, ctx);
            var w := r.cpus[c].current;
            && Inv(x) && |x.cpus| == |r.cpus| && |x.tasks| == |r.tasks|
            && x.cpus[c].pc == Picking && x.cpus[c].current == w && x.cpus[c].save == Some(w) && x.cpus[c].stack == w
            && x.cpus[c].idleContext == (if w == Idle then ctx else r.cpus[c].idleContext)
            && (forall d: nat :: d < |r.cpus| && d != c ==> x.cpus[d] == r.cpus[d])
            && (forall u: nat :: u < |r.tasks| ==> x.tasks[u].block == r.tasks[u].block && x.tasks[u].depth == r.tasks[u].depth)
            && (forall u: nat :: u < |r.tasks| && w != Task(u) ==> x.tasks[u].latest == r.tasks[u].latest && x.tasks[u].context == r.tasks[u].context)
            && (forall u: nat :: u < |r.tasks| && w != Task(u) && r.cpus[c].save != Some(Task(u)) ==> x.tasks[u] == r.tasks[u])
            && (forall u: nat :: u < |r.tasks| && w != Task(u) && r.cpus[c].save == Some(Task(u)) ==> !x.tasks[u].running)
            && (w.Task? ==> w.t < |r.tasks| && x.tasks[w.t].latest == ctx)
  {
    var x1 := Next(r, TrapSave(c, ctx));
    AfterSave(r, c, ctx);
    var x2 := Next(x1, Release(c));
    AfterRelease(x1, c);
    AfterSetSave(x2, c);
    hide Inv, Next;
  }

  lemma AfterSave(r: State, c: nat, ctx: nat)
    requires Inv(r) && Enabled(r, TrapSave(c, ctx))
    ensures var (x, w) := (Next(r, TrapSave(c, ctx)), r.cpus[c].current);
            && Inv(x) && Enabled(x, Release(c)) && |x.tasks| == |r.tasks| && (w.Task? ==> w.t < |r.tasks|)
            && x.cpus == r.cpus[c := r.cpus[c].(pc := Saved, idleContext := if w == Idle then ctx else r.cpus[c].idleContext)]
            && forall u: nat :: u < |r.tasks| ==>
                 && x.tasks[u].block == r.tasks[u].block && x.tasks[u].depth == r.tasks[u].depth
                 && if w == Task(u) then x.tasks[u].latest == ctx else x.tasks[u] == r.tasks[u]
  {
    NextInv(r, TrapSave(c, ctx));
    CpuFacts(r, c);
    if r.cpus[c].current.Task? { assert Holds(r.cpus[c], r.cpus[c].current.t); }
    hide Inv;
  }

  lemma AfterRelease(r: State, c: nat)
    requires Inv(r) && Enabled(r, Release(c))
    ensures var (x, w) := (Next(r, Release(c)), r.cpus[c].current);
            && Inv(x) && Enabled(x, SetSave(c)) && |x.tasks| == |r.tasks|
            && x.cpus == r.cpus[c := r.cpus[c].(pc := Released)]
            && forall u: nat :: u < |r.tasks| ==>
                 && x.tasks[u].block == r.tasks[u].block && x.tasks[u].depth == r.tasks[u].depth
                 && x.tasks[u].latest == r.tasks[u].latest && x.tasks[u].context == r.tasks[u].context
                 && if w != Task(u) && r.cpus[c].save == Some(Task(u)) then !x.tasks[u].running else x.tasks[u] == r.tasks[u]
  {
    NextInv(r, Release(c));
    CpuFacts(r, c);
    if r.cpus[c].save.Some? && r.cpus[c].save.value.Task? { assert Holds(r.cpus[c], r.cpus[c].save.value.t); }
    hide Inv;
  }

  lemma AfterSetSave(r: State, c: nat)
    requires Inv(r) && Enabled(r, SetSave(c))
    ensures var x := Next(r, SetSave(c));
            Inv(x) && x.tasks == r.tasks && r.cpus[c].stack == r.cpus[c].current
            && x.cpus == r.cpus[c := r.cpus[c].(pc := Picking, save := Some(r.cpus[c].current))]
  {
    NextInv(r, SetSave(c));
    CpuFacts(r, c);
    hide Inv;
  }

  function AtChoice(r: State, c: nat, ctx: nat): State
    requires Enabled(r, TrapSave(c, ctx))
    requires Enabled(Next(r, TrapSave(c, ctx)), Release(c))
    requires Enabled(Next(Next(r, TrapSave(c, ctx)), Release(c)), SetSave(c))
  {
    Next(Next(Next(r, TrapSave(c, ctx)), Release(c)), SetSave(c))
  }

  /** The steps of a whole trap of CPU c that ends with task t. */
  function TrapTo(r: State, c: nat, ctx: nat, t: nat): seq<Event>
    requires c < |r.cpus|
  {
    [TrapSave(c, ctx), Release(c), SetSave(c), Try(c, t)] + (if r.cpus[c].current == Task(t) then [] else [Confirm(c)]) + [Resume(c)]
  }

  lemma {:induction false} RunConcat(s: State, xs: seq<Event>, m: State, ys: seq<Event>, r: State)
    requires Run(s, xs, m) && Run(m, ys, r)
    ensures Run(s, xs + ys, r)
    decreases |xs|
  {
    hide Next, Enabled;
    if xs == [] {
      assert xs + ys == ys;
    } else {
      RunConcat(Next(s, xs[0]), xs[1..], m, ys, r);
      assert (xs + ys)[0] == xs[0] && (xs + ys)[1..] == xs[1..] + ys;
    }
  }

  lemma RunToChoice(r: State, c: nat, ctx: nat)
    requires Good(r) && Enabled(r, TrapSave(c, ctx))
    ensures Enabled(Next(r, TrapSave(c, ctx)), Release(c))
    ensures Enabled(Next(Next(r, TrapSave(c, ctx)), Release(c)), SetSave(c))
    ensures Good(AtChoice(r, c, ctx)) && Run(r, [TrapSave(c, ctx), Release(c), SetSave(c)], AtChoice(r, c, ctx))
  {
    TrapToChoice(r, c, ctx);
    var (e1, e2, e3) := (TrapSave(c, ctx), Release(c), SetSave(c));
    hide Inv, Next, Enabled;
    var x1 := Next(r, e1);
    var x2 := Next(x1, e2);
    GoodNext(r, e1);
    GoodNext(x1, e2);
    GoodNext(x2, e3);
    OneEvent(r, e1);
    OneEvent(x1, e2);
    OneEvent(x2, e3);
    RunConcat(r, [e1], x1, [e2], x2);
    RunConcat(r, [e1] + [e2], x2, [e3], Next(x2, e3));
    assert [e1] + [e2] + [e3] == [e1, e2, e3];
  }

  /** The choice and the return, from the choice on. */
  lemma ChoiceToTask(x: State, c: nat, t: nat)
    requires Good(x) && c < |x.cpus| && x.cpus[c].pc == Picking && Eligible(x, c, t)
    ensures exists z: State :: (Run(x, LastSteps(x, c, t), z) && Dispatched(x, c, t, z))
  {
    var rest := if x.cpus[c].current == Task(t) then [] else [Confirm(c)];
    ChoiceRuns(x, c, t);
    var y := Pick(x, c, t);
    ResumeRuns(x, c, t, y);
    var z := Next(y, Resume(c));
    hide Inv, Next, Enabled, Run, Pick, Holds;
    RunConcat(x, [Try(c, t)] + rest, y, [Resume(c)], z);
  }

  function LastSteps(x: State, c: nat, t: nat): seq<Event>
    requires c < |x.cpus|
  {
    [Try(c, t)] + (if x.cpus[c].current == Task(t) then [] else [Confirm(c)]) + [Resume(c)]
  }

  lemma ChoiceRuns(x: State, c: nat, t: nat)
    requires Good(x) && Enabled(x, Try(c, t)) && Eligible(x, c, t)
    ensures var rest := if x.cpus[c].current == Task(t) then [] else [Confirm(c)];
            Good(Pick(x, c, t)) && Run(x, [Try(c, t)] + rest, Pick(x, c, t))
  {
    var e := Try(c, t);
    var x1 := Next(x, e);
    OneEvent(x, e);
    GoodNext(x, e);
    PickExact(x, c, t);
    if Enabled(x1, Confirm(c)) {
      GoodNext(x1, Confirm(c));
      OneEvent(x1, Confirm(c));
      ConfirmNeeded(x, c, t);
      hide Good, Run;
      RunConcat(x, [e], x1, [Confirm(c)], Next(x1, Confirm(c)));
    } else {
      ConfirmNeeded(x, c, t);
      assert [e] + [] == [e];
    }
  }

  lemma ConfirmNeeded(x: State, c: nat, t: nat)
    requires Good(x) && Enabled(x, Try(c, t)) && Eligible(x, c, t)
    ensures Enabled(Next(x, Try(c, t)), Confirm(c)) <==> x.cpus[c].current != Task(t)
  {
    PickExact(x, c, t);
    Facts(x, c, t);
    hide Inv;
    var k := x.tasks[t];
    if k.owner.Some? { assert PairOk(k.owner.value, x.cpus[k.owner.value], t, k); }
  }

  lemma ResumeRuns(x: State, c: nat, t: nat, y: State)
    requires Good(x) && Enabled(x, Try(c, t)) && Eligible(x, c, t) && y == Pick(x, c, t) && Good(y)
    ensures Enabled(y, Resume(c)) && Run(y, [Resume(c)], Next(y, Resume(c))) && Dispatched(x, c, t, Next(y, Resume(c)))
  {
    PickExact(x, c, t);
    LatestKept(x, c, t);
    CpuFacts(y, c);
    assert Holds(y.cpus[c], t);
    OneEvent(y, Resume(c));
    hide Inv, Run, Pick;
  }

  lemma LatestKept(x: State, c: nat, t: nat)
    requires Enabled(x, Try(c, t))
    ensures |Pick(x, c, t).tasks| == |x.tasks| && Pick(x, c, t).tasks[t].latest == x.tasks[t].latest
  {
  }

  /** CPU c runs t again where it was saved last; no other CPU and no other task noticed. */
  ghost predicate Dispatched(x: State, c: nat, t: nat, z: State)
    requires c < |x.cpus| && t < |x.tasks|
  {
    && |z.cpus| == |x.cpus| && |z.tasks| == |x.tasks|
    && z.cpus[c] == x.cpus[c].(pc := Running, current := Task(t), stack := Task(t), resumed := x.tasks[t].latest)
    && (forall d: nat :: d < |x.cpus| && d != c ==> z.cpus[d] == x.cpus[d])
    && (forall u: nat :: u < |x.tasks| && u != t ==> z.tasks[u] == x.tasks[u])
    && z.tasks[t].running && z.tasks[t].latest == x.tasks[t].latest
  }

  /** A whole trap, whatever task the CPU runs: with any task as its choice that is not
      blocked and that no other CPU has, it runs to its end, and then the CPU runs that
      task from where it was last saved, which is the interrupted context if it is the
      same task; the task it had before the interrupted one is free. */
  lemma WholeTrap(r: State, c: nat, ctx: nat, t: nat)
    requires Reached(r) && Enabled(r, TrapSave(c, ctx)) && Eligible(r, c, t)
    ensures exists z: State :: (Run(r, TrapTo(r, c, ctx, t), z) && Switched(r, c, ctx, t, z))
  {
    hide Reached, Inv, Next, Good, Run, Switched, Dispatched, AtChoice, Holds;
    ReachedGood(r);
    GoodInv(r);
    TrapToChoice(r, c, ctx);
    RunToChoice(r, c, ctx);
    var x := AtChoice(r, c, ctx);
    StillEligible(r, x, c, t);
    ChoiceToTask(x, c, t);
    var last := LastSteps(x, c, t);
    var z: State :| Run(x, last, z) && Dispatched(x, c, t, z);
    RunConcat(r, [TrapSave(c, ctx), Release(c), SetSave(c)], x, last, z);
    assert [TrapSave(c, ctx), Release(c), SetSave(c)] + last == TrapTo(r, c, ctx, t);
    Composed(r, c, ctx, t, x, z);
  }

  lemma GoodInv(r: State)
    requires Good(r)
    ensures Inv(r)
  {
  }

  lemma StillEligible(r: State, x: State, c: nat, t: nat)
    requires Eligible(r, c, t) && c < |r.cpus| == |x.cpus| && |x.tasks| == |r.tasks| && x.tasks[t].block == r.tasks[t].block
    requires forall d: nat :: d < |r.cpus| && d != c ==> x.cpus[d] == r.cpus[d]
    ensures Eligible(x, c, t)
  {
  }

  lemma Composed(r: State, c: nat, ctx: nat, t: nat, x: State, z: State)
    requires Inv(r) && Enabled(r, TrapSave(c, ctx)) && t < |r.tasks|
    requires Enabled(Next(r, TrapSave(c, ctx)), Release(c))
    requires Enabled(Next(Next(r, TrapSave(c, ctx)), Release(c)), SetSave(c))
    requires x == AtChoice(r, c, ctx) && |x.cpus| == |r.cpus| && |x.tasks| == |r.tasks| && Dispatched(x, c, t, z)
    ensures Switched(r, c, ctx, t, z)
  {
    hide Inv, Next, Enabled, AtChoice;
    TrapToChoice(r, c, ctx);
  }

  ghost predicate Switched(r: State, c: nat, ctx: nat, t: nat, z: State)
    requires c < |r.cpus| && t < |r.tasks|
  {
    var (w, before) := (r.cpus[c].current, r.cpus[c].save);
    && |z.cpus| == |r.cpus| && |z.tasks| == |r.tasks|
    && z.cpus[c].pc == Running && z.cpus[c].current == Task(t) && z.cpus[c].stack == Task(t) && z.cpus[c].save == Some(w)
    && z.cpus[c].resumed == (if w == Task(t) then ctx else r.tasks[t].latest)
    && (forall d: nat :: d < |r.cpus| && d != c ==> z.cpus[d] == r.cpus[d])
    && (forall u: nat :: u < |r.tasks| ==> z.tasks[u].latest == if w == Task(u) then ctx else r.tasks[u].latest)
    && (forall u: nat :: u < |r.tasks| && u != t && w != Task(u) ==>
         if before == Some(Task(u)) then !z.tasks[u].running else z.tasks[u] == r.tasks[u])
  }

  ghost predicate Idles(r: State, c: nat, ctx: nat, z: State)
    requires c < |r.cpus|
  {
    && |z.cpus| == |r.cpus| && z.cpus[c].pc == Running && z.cpus[c].current == Idle && z.cpus[c].stack == Idle
    && z.cpus[c].resumed == (if r.cpus[c].current == Idle then ctx else r.cpus[c].idleContext)
    && forall d: nat :: d < |r.cpus| && d != c ==> z.cpus[d] == r.cpus[d]
  }

  /** With no task to choose the CPU idles, from where its idle task was last saved. */
  lemma IdleTrap(r: State, c: nat, ctx: nat)
    requires Reached(r) && Enabled(r, TrapSave(c, ctx))
    ensures exists z: State ::
      (Run(r, [TrapSave(c, ctx), Release(c), SetSave(c)] + [GiveUp(c)] + [Resume(c)], z) && Idles(r, c, ctx, z))
  {
    hide Reached;
    ReachedGood(r);
    TrapToChoice(r, c, ctx);
    RunToChoice(r, c, ctx);
    var x := AtChoice(r, c, ctx);
    hide Inv, AtChoice;
    OneEvent(x, GiveUp(c));
    var y := Next(x, GiveUp(c));
    OneEvent(y, Resume(c));
    var z := Next(y, Resume(c));
    RunConcat(r, [TrapSave(c, ctx), Release(c), SetSave(c)], x, [GiveUp(c)], y);
    RunConcat(r, [TrapSave(c, ctx), Release(c), SetSave(c)] + [GiveUp(c)], y, [Resume(c)], z);
  }

  // ----- blocked tasks

  lemma BlockChanges(s: State, e: Event, t: nat)
    requires Inv(s) && Enabled(s, e) && t < |s.tasks|
    ensures |Next(s, e).tasks| == |s.tasks| && |Next(s, e).cpus| == |s.cpus|
    ensures Next(s, e).tasks[t].block ==
      if e == Wake(t) then false else s.tasks[t].block || (e.BlockSelf? && s.cpus[e.c].current == Task(t))
  {
    hide Inv;
  }

  lemma {:induction false} StaysBlocked(s: State, events: seq<Event>, r: State, t: nat)
    requires Inv(s) && Run(s, events, r) && t < |s.tasks| && s.tasks[t].block && Wake(t) !in events
    ensures Inv(r) && |r.tasks| == |s.tasks| && r.tasks[t].block
    decreases |events|
  {
    hide Inv, Next, Enabled;
    if events != [] {
      NextInv(s, events[0]);
      BlockChanges(s, events[0], t);
      StaysBlocked(Next(s, events[0]), events[1..], r, t);
    }
  }

  /** A task that blocks itself is marked, and until somebody wakes it no CPU resumes it,
      whatever else happens; waking takes the mark away. */
  lemma BlockedUntilWoken(r: State, c: nat, events: seq<Event>, q: State, d: nat)
    requires Reached(r) && Enabled(r, BlockSelf(c)) && Run(Next(r, BlockSelf(c)), events, q)
    requires r.cpus[c].current.Task? && Wake(r.cpus[c].current.t) !in events
    ensures var t := r.cpus[c].current.t;
            && t < |q.tasks| && q.tasks[t].block
            && (Enabled(q, Resume(d)) ==> q.cpus[d].current != Task(t))
            && !Next(q, Wake(t)).tasks[t].block
  {
    var t := r.cpus[c].current.t;
    hide Reached, Run, Inv, Next, Enabled;
    ReachedGood(r);
    RunnerFacts(r, c);
    NextInv(r, BlockSelf(c));
    BlockChanges(r, BlockSelf(c), t);
    StaysBlocked(Next(r, BlockSelf(c)), events, q, t);
    WakeFrees(q, t);
    if Enabled(q, Resume(d)) && q.cpus[d].current == Task(t) { ResumedIsFree(q, d, t); }
  }

  lemma RunnerFacts(r: State, c: nat)
    requires Enabled(r, BlockSelf(c))
    ensures c < |r.cpus| && r.cpus[c].current.Task? && r.cpus[c].current.t < |r.tasks|
  {
  }

  lemma WakeFrees(q: State, t: nat)
    requires t < |q.tasks|
    ensures Enabled(q, Wake(t)) && |Next(q, Wake(t)).tasks| == |q.tasks| && !Next(q, Wake(t)).tasks[t].block
  {
  }

  lemma ResumedIsFree(q: State, d: nat, t: nat)
    requires Inv(q) && Enabled(q, Resume(d)) && t < |q.tasks| && q.cpus[d].current == Task(t)
    ensures !q.tasks[t].block
  {
    CpuFacts(q, d);
    assert Holds(q.cpus[d], t);
  }

  // ----- system calls

  /** A trap inside a system call saves to the second slot and leaves the first alone,
      and leaving the call undoes entering it. */
  lemma NestedTrap(r: State, c: nat, ctx: nat)
    requires Reached(r) && Enabled(r, SyscallEnter(c))
    ensures var (t, x) := (r.cpus[c].current.t, Next(r, SyscallEnter(c)));
            && t < |r.tasks| && |r.tasks[t].context| == 2
            && Enabled(x, SyscallExit(c)) && Next(x, SyscallExit(c)) == r && Enabled(x, TrapSave(c, ctx))
            && Next(x, TrapSave(c, ctx)).tasks[t].context == [r.tasks[t].context[0], ctx]
            && Next(r, TrapSave(c, ctx)).tasks[t].context == [ctx, r.tasks[t].context[1]]
  {
    hide Reached;
    ReachedGood(r);
    CpuFacts(r, c);
    assert Holds(r.cpus[c], r.cpus[c].current.t);
    hide Inv;
    var (t, x) := (r.cpus[c].current.t, Next(r, SyscallEnter(c)));
    assert Next(x, SyscallExit(c)).tasks == r.tasks;
  }

  // ----- locality

  /** A step of a CPU touches no other CPU, and no task but one it holds or chooses. */
  lemma StepIsLocal(s: State, e: Event, d: nat, u: nat)
    requires Inv(s) && Enabled(s, e) && !e.Wake? && d < |s.cpus| && u < |s.tasks|
    ensures |Next(s, e).cpus| == |s.cpus| && |Next(s, e).tasks| == |s.tasks|
    ensures d != e.c ==> Next(s, e).cpus[d] == s.cpus[d]
    ensures Next(s, e).tasks[u] != s.tasks[u] ==> Holds(s.cpus[e.c], u) || e == Try(e.c, u)
  {
    CpuFacts(s, e.c);
    hide Inv;
  }
}
