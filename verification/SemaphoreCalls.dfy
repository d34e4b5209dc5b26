/** kmt_sem_wait and kmt_sem_signal run from beginning to end by one task, with the lock
    free when they ask for it: what the two calls are for. */
module SemaphoreCalls {
  import opened Wrappers
  import opened Semaphore
  import opened SemaphoreRuns

  /** The task alone takes the system from s to r. */
  ghost predicate Alone(s: State, t: nat, r: State) {
    exists events: seq<Event> :: OnlyOf(events, t) && Run(s, events, r, Any)
  }

  predicate OnlyOf(events: seq<Event>, t: nat) {
    forall i :: 0 <= i < |events| ==> events[i].t == t
  }

  lemma Begin(s: State, t: nat)
    ensures Alone(s, t, s)
  {
    assert OnlyOf([], t) && Run(s, [], s, Any);
  }

  lemma Step(s: State, t: nat, x: State, e: Event, r: State)
    requires Alone(s, t, x) && e.t == t && Enabled(x, e) && Next(x, e) == r
    ensures Alone(s, t, r)
  {
    hide Next, Enabled, Run;
    var events: seq<Event> :| OnlyOf(events, t) && Run(s, events, x, Any);
    AnyAllowed(x, e);
    RunSnoc(s, events, x, e, Any);
    assert OnlyOf(events + [e], t);
  }

  lemma AnyAllowed(x: State, e: Event)
    requires Enabled(x, e)
    ensures Allowed(x, e, Any)
  {
  }

  /** The task can call: it runs, outside any call. */
  predicate CanCall(s: State, t: nat, m: nat) {
    t < |s.threads| && m < |s.sems| && s.threads[t].onCpu && s.threads[t].pc == Out && s.sems[m].holder == None
  }

  /** The state with the task at a place in the call and the semaphore as given. */
  function At(s: State, t: nat, m: nat, pc: Pc, sem: Sem): State
    requires t < |s.threads| && m < |s.sems|
  {
    s.(threads := s.threads[t := s.threads[t].(pc := pc)], sems := s.sems[m := sem])
  }

  /** One access that leaves the other tasks alone. */
  lemma Access(z: State, s: State, t: nat, m: nat, x: State, e: Event, pc: Pc, sem: Sem, pc': Pc, sem': Sem)
    requires t < |s.threads| && m < |s.sems| && x == At(s, t, m, pc, sem) && e.t == t
    requires Alone(z, t, x) && Enabled(x, e) && Next(x, e).threads[t] == s.threads[t].(pc := pc') && Next(x, e).sems == x.sems[m := sem']
    requires Next(x, e).threads == x.threads[t := Next(x, e).threads[t]]
    ensures Alone(z, t, At(s, t, m, pc', sem'))
  {
    var r := At(s, t, m, pc', sem');
    assert Next(x, e).threads == r.threads && Next(x, e).sems == r.sems;
    hide Next, Enabled, Alone;
    Step(z, t, x, e, r);
  }

  /** From the call to the test: the lock is taken and the counter lowered. */
  lemma WaitToTest(s: State, t: nat, m: nat)
    requires CanCall(s, t, m)
    ensures var sem := s.sems[m];
            Alone(s, t, At(s, t, m, WaitTest(m), sem.(resource := sem.resource - 1, holder := Some(t))))
  {
    hide Alone;
    var sem := s.sems[m];
    Begin(s, t);
    assert At(s, t, m, Out, sem) == s;
    Access(s, s, t, m, s, StartWait(t, m), Out, sem, WaitLock(m), sem);
    var locked := sem.(holder := Some(t));
    Access(s, s, t, m, At(s, t, m, WaitLock(m), sem), Go(t, 0), WaitLock(m), sem, WaitDec(m), locked);
    Access(s, s, t, m, At(s, t, m, WaitDec(m), locked), Go(t, 0), WaitDec(m), locked, WaitTest(m), locked.(resource := sem.resource - 1));
  }

  /** A wait on a semaphore with a unit left takes it and returns. */
  lemma WaitTakes(s: State, t: nat, m: nat)
    requires CanCall(s, t, m) && s.sems[m].resource > 0
    ensures var sem := s.sems[m];
            Alone(s, t, s.(sems := s.sems[m := sem.(resource := sem.resource - 1, completed := sem.completed + 1)]))
  {
    hide Alone;
    var sem := s.sems[m];
    WaitToTest(s, t, m);
    var less := sem.(resource := sem.resource - 1, holder := Some(t));
    Access(s, s, t, m, At(s, t, m, WaitTest(m), less), Go(t, 0), WaitTest(m), less, WaitUnlock(m), less);
    var free := less.(holder := None);
    Access(s, s, t, m, At(s, t, m, WaitUnlock(m), less), Go(t, 0), WaitUnlock(m), less, WaitReread(m), free);
    var taken := free.(completed := sem.completed + 1);
    Access(s, s, t, m, At(s, t, m, WaitReread(m), free), Go(t, 0), WaitReread(m), free, Out, taken);
    assert At(s, t, m, Out, taken).threads == s.threads;
  }

  /** A wait on a semaphore without one lists the task last, blocks it and takes it off
      its CPU. */
  lemma WaitBlocks(s: State, t: nat, m: nat)
    requires CanCall(s, t, m) && s.sems[m].resource <= 0
    ensures var sem := s.sems[m];
            Alone(s, t, s.(threads := s.threads[t := Thread(WaitYield(m), false, true)],
                           sems := s.sems[m := sem.(resource := sem.resource - 1, list := sem.list + [t])]))
  {
    hide Alone;
    var sem := s.sems[m];
    WaitToTest(s, t, m);
    var less := sem.(resource := sem.resource - 1, holder := Some(t));
    Access(s, s, t, m, At(s, t, m, WaitTest(m), less), Go(t, 0), WaitTest(m), less, WaitEnqueue(m), less);
    var longer := less.(list := sem.list + [t]);
    Access(s, s, t, m, At(s, t, m, WaitEnqueue(m), less), Go(t, 0), WaitEnqueue(m), less, WaitBlock(m), longer);
    FallAsleep(s, s, t, m, longer);
  }

  lemma FallAsleep(z: State, s: State, t: nat, m: nat, sem: Sem)
    requires t < |s.threads| && m < |s.sems| && s.threads[t].onCpu && sem.resource < 0
    requires Alone(z, t, At(s, t, m, WaitBlock(m), sem))
    ensures Alone(z, t, Sleeping(s, t, m, WaitYield(m), false, sem.(holder := None)))
  {
    hide Alone;
    var (a, b, free) := (At(s, t, m, WaitBlock(m), sem), Sleeping(s, t, m, WaitUnlock(m), true, sem), sem.(holder := None));
    var (c, d) := (Sleeping(s, t, m, WaitReread(m), true, free), Sleeping(s, t, m, WaitYield(m), false, free));
    assert Next(a, Go(t, 0)).threads == b.threads;
    Step(z, t, a, Go(t, 0), b);
    assert Next(b, Go(t, 0)).threads == c.threads && Next(b, Go(t, 0)).sems == c.sems;
    Step(z, t, b, Go(t, 0), c);
    assert Next(c, Go(t, 0)).threads == d.threads;
    Step(z, t, c, Go(t, 0), d);
  }

  function Sleeping(s: State, t: nat, m: nat, pc: Pc, on: bool, sem: Sem): State
    requires t < |s.threads| && m < |s.sems|
  {
    s.(threads := s.threads[t := Thread(pc, on, true)], sems := s.sems[m := sem])
  }

  lemma SignalToTest(s: State, t: nat, m: nat)
    requires CanCall(s, t, m)
    ensures var sem := s.sems[m];
            Alone(s, t, At(s, t, m, SigTest(m), sem.(resource := sem.resource + 1, signals := sem.signals + 1, holder := Some(t))))
  {
    hide Alone;
    var sem := s.sems[m];
    Begin(s, t);
    assert At(s, t, m, Out, sem) == s;
    Access(s, s, t, m, s, StartSignal(t, m), Out, sem, SigLock(m), sem);
    var locked := sem.(holder := Some(t));
    Access(s, s, t, m, At(s, t, m, SigLock(m), sem), Go(t, 0), SigLock(m), sem, SigInc(m), locked);
    var more := locked.(resource := sem.resource + 1, signals := sem.signals + 1);
    Access(s, s, t, m, At(s, t, m, SigInc(m), locked), Go(t, 0), SigInc(m), locked, SigTest(m), more);
  }

  /** A signal with nobody to wake adds a unit. */
  lemma SignalAdds(s: State, t: nat, m: nat)
    requires CanCall(s, t, m) && (s.sems[m].resource >= 0 || s.sems[m].list == [])
    ensures var sem := s.sems[m];
            Alone(s, t, s.(sems := s.sems[m := sem.(resource := sem.resource + 1, signals := sem.signals + 1)]))
  {
    hide Alone;
    var sem := s.sems[m];
    SignalToTest(s, t, m);
    var more := sem.(resource := sem.resource + 1, signals := sem.signals + 1, holder := Some(t));
    Access(s, s, t, m, At(s, t, m, SigTest(m), more), Go(t, 0), SigTest(m), more, SigUnlock(m), more);
    var free := more.(holder := None);
    Access(s, s, t, m, At(s, t, m, SigUnlock(m), more), Go(t, 0), SigUnlock(m), more, Out, free);
    assert At(s, t, m, Out, free).threads == s.threads;
  }

  /** A signal with tasks waiting unblocks the one it picks, takes it out of the list, and
      leaves the others listed and blocked. */
  lemma SignalWakes(s: State, t: nat, m: nat, k: nat)
    requires CanCall(s, t, m) && s.sems[m].resource < 0 && k < |s.sems[m].list| && s.sems[m].list[k] < |s.threads|
    ensures var (sem, w) := (s.sems[m], s.sems[m].list[k]);
            Alone(s, t, s.(threads := s.threads[w := s.threads[w].(block := false)],
                           sems := s.sems[m := sem.(resource := sem.resource + 1, signals := sem.signals + 1, list := RemoveAt(sem.list, k))]))
    ensures multiset(RemoveAt(s.sems[m].list, k)) == multiset(s.sems[m].list) - multiset{s.sems[m].list[k]}
  {
    hide Alone, RemoveAt;
    var (sem, w) := (s.sems[m], s.sems[m].list[k]);
    RemovesOne(sem.list, k);
    SignalToTest(s, t, m);
    var more := sem.(resource := sem.resource + 1, signals := sem.signals + 1, holder := Some(t));
    Access(s, s, t, m, At(s, t, m, SigTest(m), more), Go(t, k), SigTest(m), more, SigWake(m, k), more);
    var s2 := s.(threads := s.threads[w := s.threads[w].(block := false)]);
    var (x, y) := (At(s, t, m, SigWake(m, k), more), At(s2, t, m, SigRemove(m, k), more));
    assert Next(x, Go(t, 0)).threads == y.threads && Next(x, Go(t, 0)).sems == y.sems;
    Step(s, t, x, Go(t, 0), y);
    RemoveAndUnlock(s, s2, t, m, k, more);
  }

  lemma RemoveAndUnlock(z: State, s: State, t: nat, m: nat, k: nat, sem: Sem)
    requires t < |s.threads| && m < |s.sems| && s.threads[t].onCpu && s.threads[t].pc == Out && k < |sem.list|
    requires Alone(z, t, At(s, t, m, SigRemove(m, k), sem))
    ensures Alone(z, t, s.(sems := s.sems[m := sem.(list := RemoveAt(sem.list, k), holder := None)]))
  {
    hide Alone, RemoveAt;
    var fewer := sem.(list := RemoveAt(sem.list, k));
    Access(z, s, t, m, At(s, t, m, SigRemove(m, k), sem), Go(t, 0), SigRemove(m, k), sem, SigUnlock(m), fewer);
    var free := fewer.(holder := None);
    Access(z, s, t, m, At(s, t, m, SigUnlock(m), fewer), Go(t, 0), SigUnlock(m), fewer, Out, free);
    assert At(s, t, m, Out, free).threads == s.threads;
  }

  lemma RemovesOne(list: seq<nat>, k: nat)
    requires k < |list|
    ensures |RemoveAt(list, k)| == |list| - 1 && multiset(RemoveAt(list, k)) == multiset(list) - multiset{list[k]}
  {
    if k < |list| - 1 { TakeInside(list, k); } else { TakeLast(list); }
  }

  lemma TakeLast(list: seq<nat>)
    requires list != []
    ensures RemoveAt(list, |list| - 1) == list[..|list| - 1]
    ensures multiset(list[..|list| - 1]) == multiset(list) - multiset{list[|list| - 1]}
  {
    assert list == list[..|list| - 1] + [list[|list| - 1]];
  }

  lemma TakeInside(list: seq<nat>, k: nat)
    requires k < |list| - 1
    ensures multiset(RemoveAt(list, k)) == multiset(list) - multiset{list[k]}
  {
    var n := |list| - 1;
    var (a, b) := (list[..k], list[k + 1..n]);
    assert RemoveAt(list, k) == a + [list[n]] + b;
    hide RemoveAt;
    assert list == a + [list[k]] + b + [list[n]];
    Parts(a, b, list[k], list[n]);
  }

  lemma Parts(a: seq<nat>, b: seq<nat>, x: nat, y: nat)
    ensures multiset(a + [y] + b) == multiset(a + [x] + b + [y]) - multiset{x}
  {
  }

  /** A waiting task that was unblocked returns as soon as it is dispatched. */
  lemma WokenReturns(s: State, t: nat, m: nat)
    requires t < |s.threads| && m < |s.sems| && s.threads[t] == Thread(WaitYield(m), false, false)
    ensures var sem := s.sems[m];
            Alone(s, t, s.(threads := s.threads[t := Thread(Out, true, false)], sems := s.sems[m := sem.(completed := sem.completed + 1)]))
  {
    hide Alone;
    Begin(s, t);
    var x := s.(threads := s.threads[t := Thread(WaitYield(m), true, false)]);
    Step(s, t, s, Dispatch(t), x);
    var sem := s.sems[m];
    var r := s.(threads := s.threads[t := Thread(Out, true, false)], sems := s.sems[m := sem.(completed := sem.completed + 1)]);
    assert Next(x, Go(t, 0)).threads == r.threads;
    Step(s, t, x, Go(t, 0), r);
  }
}
