/** push_off, pop_off and the spin locks of kernel/src/kmt.c and kernel/src/lock.c on any
    number of CPUs, one shared access at a time: mutual exclusion, interrupts off
    for as long as a lock is wanted or held, and their state restored afterwards. */
module SpinLock {
  import opened Wrappers

  /** Where a CPU is inside the lock functions; l is the lock. */
  datatype Pc =
    | Outside
    | Spinning(l: nat)
    | Trying(l: nat)
    | Recording(l: nat)
    | Clearing(l: nat)
    | Popping

  /** before and held are history: the interrupt flag before the outermost push_off,
      and the locks this CPU has been given. */
  datatype Cpu = Cpu(enabled: bool, noff: int, intena: bool, pc: Pc, before: bool, held: set<nat>)

  /** locked is the word atomic_xchg works on, cpuNum the recorded CPU (-1 for none);
      owner is history: the CPU whose exchange found the word free. */
  datatype Lock = Lock(locked: bool, cpuNum: int, owner: Option<nat>)

  /** bad is set where the code panics or an assertion fails. */
  datatype State = State(cpus: seq<Cpu>, locks: seq<Lock>, bad: bool)

  datatype Event =
    | Acquire(c: nat, l: nat)
    | TryAcquire(c: nat, l: nat)
    | Exchange(c: nat)
    | Record(c: nat)
    | Unlock(c: nat, l: nat)
    | Clear(c: nat)
    | Pop(c: nat)
    | Iset(c: nat, on: bool)

  ghost predicate Initial(s: State) {
    && !s.bad
    && (forall c {:trigger s.cpus[c]} :: 0 <= c < |s.cpus| ==>
      s.cpus[c].noff == 0 && s.cpus[c].pc == Outside && s.cpus[c].held == {})
    && forall l {:trigger s.locks[l]} :: 0 <= l < |s.locks| ==> s.locks[l] == Lock(false, -1, None)
  }

  /** The interrupt flag changes by other means only outside the bracket. */
  predicate Enabled(s: State, e: Event) {
    && e.c < |s.cpus|
    && var cpu := s.cpus[e.c];
       match e
       case Acquire(_, l) => cpu.pc == Outside && l < |s.locks|
       case TryAcquire(_, l) => cpu.pc == Outside && l < |s.locks|
       case Exchange(_) => (cpu.pc.Spinning? || cpu.pc.Trying?) && cpu.pc.l < |s.locks|
       case Record(_) => cpu.pc.Recording? && cpu.pc.l < |s.locks|
       case Unlock(_, l) => cpu.pc == Outside && l < |s.locks|
       case Clear(_) => cpu.pc.Clearing? && cpu.pc.l < |s.locks|
       case Pop(_) => cpu.pc == Popping
       case Iset(_, _) => cpu.pc == Outside && cpu.noff == 0
  }

  function PushOff(cpu: Cpu): Cpu {
    var outermost := cpu.noff == 0;
    cpu.(enabled := false, noff := cpu.noff + 1, intena := if outermost then cpu.enabled else cpu.intena,
         before := if outermost then cpu.enabled else cpu.before)
  }

  /** None where it panics. */
  function PopOff(cpu: Cpu): Option<Cpu> {
    if cpu.enabled || cpu.noff < 1 then None
    else Some(cpu.(noff := cpu.noff - 1, enabled := cpu.noff == 1 && cpu.intena))
  }

  /** holding, as the release check reads it. */
  predicate Holding(lock: Lock, c: nat) {
    lock.locked && lock.cpuNum == c
  }

  function Next(s: State, e: Event): State
    requires Enabled(s, e)
  {
    var (c, cpu) := (e.c, s.cpus[e.c]);
    match e
    case Acquire(_, l) => s.(cpus := s.cpus[c := PushOff(cpu).(pc := Spinning(l))])
    case TryAcquire(_, l) => s.(cpus := s.cpus[c := PushOff(cpu).(pc := Trying(l))])
    case Exchange(_) =>
      var (l, lock) := (cpu.pc.l, s.locks[cpu.pc.l]);
      if lock.locked then if cpu.pc.Trying? then s.(cpus := s.cpus[c := cpu.(pc := Popping)]) else s
      else s.(cpus := s.cpus[c := cpu.(pc := Recording(l))], locks := s.locks[l := lock.(locked := true, owner := Some(c))])
    case Record(_) =>
      var (l, lock) := (cpu.pc.l, s.locks[cpu.pc.l]);
      s.(cpus := s.cpus[c := cpu.(pc := Outside, held := cpu.held + {l})], locks := s.locks[l := lock.(cpuNum := c)])
    case Unlock(_, l) =>
      var lock := s.locks[l];
      if Holding(lock, c) then
        s.(cpus := s.cpus[c := cpu.(pc := Clearing(l), held := cpu.held - {l})], locks := s.locks[l := lock.(cpuNum := -1)])
      else s.(bad := true)
    case Clear(_) =>
      var (l, lock) := (cpu.pc.l, s.locks[cpu.pc.l]);
      s.(cpus := s.cpus[c := cpu.(pc := Popping)], locks := s.locks[l := lock.(locked := false, owner := None)])
    case Pop(_) =>
      var r := PopOff(cpu);
      if r.Some? then s.(cpus := s.cpus[c := r.value.(pc := Outside)]) else s.(bad := true)
    case Iset(_, on) => s.(cpus := s.cpus[c := cpu.(enabled := on)])
  }

  // ----- the invariant

  /** The CPU is the one whose exchange took the lock and has not given it back. */
  predicate Owns(cpu: Cpu, l: nat) {
    l in cpu.held || cpu.pc == Recording(l) || cpu.pc == Clearing(l)
  }

  predicate CpuOk(cpu: Cpu) {
    && cpu.noff == |cpu.held| + (if cpu.pc == Outside then 0 else 1)
    && (cpu.noff > 0 ==> !cpu.enabled && cpu.intena == cpu.before)
    && (cpu.pc.Recording? || cpu.pc.Clearing? ==> cpu.pc.l !in cpu.held)
  }

  predicate LockOk(s: State, l: nat)
    requires l < |s.locks|
  {
    var lock := s.locks[l];
    && (lock.locked <==> lock.owner.Some?)
    && (lock.owner.Some? ==> lock.owner.value < |s.cpus|)
    && (forall c {:trigger s.cpus[c]} :: 0 <= c < |s.cpus| ==> (Owns(s.cpus[c], l) <==> lock.owner == Some(c)))
    && (forall c {:trigger s.cpus[c]} :: 0 <= c < |s.cpus| ==> (l in s.cpus[c].held <==> lock.cpuNum == c))
    && (lock.cpuNum == -1 || lock.owner == Some(lock.cpuNum))
  }

  ghost predicate Inv(s: State) {
    && (forall c {:trigger s.cpus[c]} :: 0 <= c < |s.cpus| ==> CpuOk(s.cpus[c]))
    && (forall l {:trigger s.locks[l]} :: 0 <= l < |s.locks| ==> LockOk(s, l))
    && (forall c, l {:trigger l in s.cpus[c].held} :: 0 <= c < |s.cpus| && l in s.cpus[c].held ==> l < |s.locks|)
  }

  lemma InitialInv(s: State)
    requires Initial(s)
    ensures Inv(s)
  {
    forall c | 0 <= c < |s.cpus| ensures CpuOk(s.cpus[c]) {}
    forall l | 0 <= l < |s.locks| ensures LockOk(s, l) {
      forall c | 0 <= c < |s.cpus|
        ensures !Owns(s.cpus[c], l) && l !in s.cpus[c].held && s.locks[l].cpuNum != c {}
    }
  }

  lemma CpuKept(s: State, e: Event)
    requires Inv(s) && Enabled(s, e)
    ensures CpuOk(Next(s, e).cpus[e.c])
    ensures forall l :: l in Next(s, e).cpus[e.c].held ==> l < |s.locks|
    ensures forall c :: 0 <= c < |s.cpus| && c != e.c ==> Next(s, e).cpus[c] == s.cpus[c]
    ensures |Next(s, e).cpus| == |s.cpus| && |Next(s, e).locks| == |s.locks|
  {
    hide Next, Enabled, CpuOk, LockOk, HeldLocks;
    EventCpu(s, e);
    HeldFacts(s, e.c);
    assert CpuOk(s.cpus[e.c]);
    OthersRest(s, e);
    CpuStep(s, e);
    HeldStep(s, e);
  }

  lemma OthersRest(s: State, e: Event)
    requires Enabled(s, e)
    ensures |Next(s, e).cpus| == |s.cpus| && |Next(s, e).locks| == |s.locks|
    ensures forall c :: 0 <= c < |s.cpus| && c != e.c ==> Next(s, e).cpus[c] == s.cpus[c]
  {
  }

  lemma CpuStep(s: State, e: Event)
    requires Enabled(s, e) && CpuOk(s.cpus[e.c]) && |Next(s, e).cpus| == |s.cpus| && HeldLocks(s, e.c)
    ensures CpuOk(Next(s, e).cpus[e.c])
  {
  }

  /** The locks a CPU was given are those that record it, and all are taken. */
  ghost predicate HeldLocks(s: State, c: nat)
    requires c < |s.cpus|
  {
    forall l {:trigger s.locks[l]} :: 0 <= l < |s.locks| ==>
      (l in s.cpus[c].held <==> s.locks[l].cpuNum == c) && (l in s.cpus[c].held ==> s.locks[l].locked)
  }

  lemma HeldFacts(s: State, c: nat)
    requires Inv(s) && c < |s.cpus|
    ensures HeldLocks(s, c)
  {
    hide LockOk, CpuOk;
    forall l | 0 <= l < |s.locks|
      ensures l in s.cpus[c].held <==> s.locks[l].cpuNum == c
      ensures l in s.cpus[c].held ==> s.locks[l].locked { LockFacts(s, c, l); }
  }

  lemma HeldStep(s: State, e: Event)
    requires Enabled(s, e) && |Next(s, e).cpus| == |s.cpus|
    requires forall l :: l in s.cpus[e.c].held ==> l < |s.locks|
    ensures forall l :: l in Next(s, e).cpus[e.c].held ==> l < |s.locks|
  {
  }

  /** Only CPU c moves. */
  predicate OnlyCpu(s: State, s': State, c: nat) {
    && c < |s.cpus| == |s'.cpus| && |s'.locks| == |s.locks|
    && forall d {:trigger s'.cpus[d]} :: 0 <= d < |s.cpus| && d != c ==> s'.cpus[d] == s.cpus[d]
  }

  /** A lock the step does not concern. */
  lemma SameLock(s: State, s': State, c: nat, l: nat)
    requires OnlyCpu(s, s', c) && l < |s.locks| && LockOk(s, l) && s'.locks[l] == s.locks[l]
    requires Owns(s'.cpus[c], l) <==> Owns(s.cpus[c], l)
    requires l in s'.cpus[c].held <==> l in s.cpus[c].held
    ensures LockOk(s', l)
  {
    hide Owns;
    forall d | 0 <= d < |s'.cpus|
      ensures Owns(s'.cpus[d], l) <==> s.locks[l].owner == Some(d)
      ensures l in s'.cpus[d].held <==> s.locks[l].cpuNum == d
    {
      assert Owns(s.cpus[d], l) <==> s.locks[l].owner == Some(d);
    }
  }

  /** The lock the step is about, which no other CPU owns. */
  lemma OwnLock(s: State, s': State, c: nat, l: nat)
    requires OnlyCpu(s, s', c) && l < |s.locks| && LockOk(s, l)
    requires s.locks[l].owner == None || s.locks[l].owner == Some(c)
    requires s'.locks[l].locked <==> s'.locks[l].owner.Some?
    requires s'.locks[l].owner == if Owns(s'.cpus[c], l) then Some(c) else None
    requires s'.locks[l].cpuNum == if l in s'.cpus[c].held then c else -1
    ensures LockOk(s', l)
  {
    forall d | 0 <= d < |s'.cpus|
      ensures Owns(s'.cpus[d], l) <==> s'.locks[l].owner == Some(d)
      ensures l in s'.cpus[d].held <==> s'.locks[l].cpuNum == d
    {
      if d != c { assert Owns(s.cpus[d], l) <==> s.locks[l].owner == Some(d); }
    }
  }

  lemma LockKept(s: State, e: Event, l: nat)
    requires Inv(s) && Enabled(s, e) && l < |s.locks|
    ensures |Next(s, e).locks| == |s.locks| && LockOk(Next(s, e), l)
  {
    hide LockOk, CpuOk, Inv, Enabled, Next, Owns;
    var (c, s') := (e.c, Next(s, e));
    EventCpu(s, e);
    CpuKept(s, e);
    assert OnlyCpu(s, s', c);
    LockFacts(s, c, l);
    LockStep(s, e, l);
    if s'.locks[l] == s.locks[l] { SameLock(s, s', c, l); } else { OwnLock(s, s', c, l); }
  }

  lemma EventCpu(s: State, e: Event)
    requires Enabled(s, e)
    ensures e.c < |s.cpus|
  {
  }

  /** What a step does to a lock: nothing, or the owner it gets is the one that moved. */
  lemma LockStep(s: State, e: Event, l: nat)
    requires Enabled(s, e) && l < |s.locks| && |Next(s, e).locks| == |s.locks| && |Next(s, e).cpus| == |s.cpus|
    requires s.locks[l].locked <==> s.locks[l].owner.Some?
    requires Owns(s.cpus[e.c], l) <==> s.locks[l].owner == Some(e.c)
    requires l in s.cpus[e.c].held <==> s.locks[l].cpuNum == e.c
    requires s.locks[l].owner == None || s.locks[l].owner == Some(e.c) ==> s.locks[l].cpuNum == e.c || s.locks[l].cpuNum == -1
    requires s.cpus[e.c].pc.Recording? || s.cpus[e.c].pc.Clearing? ==> s.cpus[e.c].pc.l !in s.cpus[e.c].held
    ensures var (cpu, cpu') := (s.cpus[e.c], Next(s, e).cpus[e.c]);
            var (lock, lock') := (s.locks[l], Next(s, e).locks[l]);
            if lock' == lock then (Owns(cpu', l) <==> Owns(cpu, l)) && (l in cpu'.held <==> l in cpu.held)
            else
              && (lock.owner == None || lock.owner == Some(e.c)) && (lock'.locked <==> lock'.owner.Some?)
              && lock'.owner == (if Owns(cpu', l) then Some(e.c) else None)
              && lock'.cpuNum == if l in cpu'.held then e.c else -1
  {
  }

  lemma LockFacts(s: State, c: nat, l: nat)
    requires Inv(s) && c < |s.cpus| && l < |s.locks|
    ensures LockOk(s, l)
    ensures s.locks[l].locked <==> s.locks[l].owner.Some?
    ensures Owns(s.cpus[c], l) <==> s.locks[l].owner == Some(c)
    ensures l in s.cpus[c].held <==> s.locks[l].cpuNum == c
    ensures s.locks[l].owner == None || s.locks[l].owner == Some(c) ==> s.locks[l].cpuNum == c || s.locks[l].cpuNum == -1
    ensures s.cpus[c].pc.Recording? || s.cpus[c].pc.Clearing? ==> s.cpus[c].pc.l !in s.cpus[c].held
  {
    assert LockOk(s, l) && CpuOk(s.cpus[c]);
  }

  /** Kept by every step. */
  lemma NextInv(s: State, e: Event)
    requires Inv(s) && Enabled(s, e)
    ensures Inv(Next(s, e))
  {
    hide CpuOk, LockOk;
    CpuKept(s, e);
    var s' := Next(s, e);
    forall l | 0 <= l < |s'.locks| ensures LockOk(s', l) { LockKept(s, e, l); }
  }

  ghost predicate Run(s: State, events: seq<Event>, r: State)
    decreases |events|
  {
    if events == [] then r == s else Enabled(s, events[0]) && Run(Next(s, events[0]), events[1..], r)
  }

  lemma {:induction false} RunInv(s: State, events: seq<Event>, r: State)
    requires Inv(s) && Run(s, events, r)
    ensures Inv(r)
    decreases |events|
  {
    if events != [] {
      NextInv(s, events[0]);
      RunInv(Next(s, events[0]), events[1..], r);
    }
  }

  // ----- what it gives

  /** In every run no lock is held by two CPUs, and a CPU that wants or holds a lock
      cannot be interrupted. */
  lemma MutualExclusion(s: State, events: seq<Event>, r: State, l: nat, c: nat, d: nat)
    requires Initial(s) && Run(s, events, r) && l < |r.locks| && c < |r.cpus| && d < |r.cpus|
    ensures Owns(r.cpus[c], l) && Owns(r.cpus[d], l) ==> c == d
    ensures Owns(r.cpus[c], l) || r.cpus[c].pc != Outside ==> !r.cpus[c].enabled
  {
    InitialInv(s);
    RunInv(s, events, r);
    assert LockOk(r, l) && CpuOk(r.cpus[c]);
    assert Owns(r.cpus[d], l) <==> r.locks[l].owner == Some(d);
    if l in r.cpus[c].held { assert r.cpus[c].held != {}; }
  }

  /** The release check, read without the lock, is exact: it fails, and the kernel
      panics, precisely when the CPU does not hold the lock. */
  lemma HoldingIsExact(s: State, events: seq<Event>, r: State, c: nat, l: nat)
    requires Initial(s) && Run(s, events, r) && c < |r.cpus| && l < |r.locks|
    ensures Holding(r.locks[l], c) <==> l in r.cpus[c].held
    ensures Enabled(r, Unlock(c, l)) && !r.bad ==> (Next(r, Unlock(c, l)).bad <==> l !in r.cpus[c].held)
  {
    InitialInv(s);
    RunInv(s, events, r);
    assert LockOk(r, l);
    assert l in r.cpus[c].held <==> r.locks[l].cpuNum == c;
    assert Owns(r.cpus[c], l) <==> r.locks[l].owner == Some(c);
  }

  /** pop_off never panics, and the one that closes the bracket restores the flag the
      CPU had before the first push_off. */
  lemma FlagRestored(s: State, events: seq<Event>, r: State, c: nat)
    requires Initial(s) && Run(s, events, r) && Enabled(r, Pop(c)) && !r.bad
    ensures var after := Next(r, Pop(c));
            !after.bad && after.cpus[c].enabled == if after.cpus[c].held == {} then r.cpus[c].before else false
  {
    InitialInv(s);
    RunInv(s, events, r);
    assert CpuOk(r.cpus[c]);
  }

  /** A CPU that asks for a lock it holds never gets on: kmt_spin_lock has no check for
      this, the word stays set, and only the CPU itself could clear it. */
  lemma {:induction false} SecondAcquireSpins(s: State, events: seq<Event>, r: State, c: nat, l: nat)
    requires Inv(s) && Run(s, events, r) && c < |s.cpus| && l in s.cpus[c].held && s.cpus[c].pc == Spinning(l)
    ensures c < |r.cpus| && r.cpus[c] == s.cpus[c] && r.cpus[c].pc == Spinning(l) && l in r.cpus[c].held
    decreases |events|
  {
    if events != [] {
      var e := events[0];
      NextInv(s, e);
      StuckStays(s, e, c, l);
      SecondAcquireSpins(Next(s, e), events[1..], r, c, l);
    }
  }

  lemma StuckStays(s: State, e: Event, c: nat, l: nat)
    requires Inv(s) && Enabled(s, e) && c < |s.cpus| && l in s.cpus[c].held && s.cpus[c].pc == Spinning(l)
    ensures |Next(s, e).cpus| == |s.cpus| && Next(s, e).cpus[c] == s.cpus[c]
  {
    hide CpuOk;
    OthersRest(s, e);
    assert l < |s.locks|;
    LockFacts(s, c, l);
  }

  /** So an acquire by the holder is the last thing a CPU does, in every run. */
  lemma SelfDeadlock(s: State, events: seq<Event>, t: State, c: nat, l: nat, more: seq<Event>, r: State)
    requires Initial(s) && Run(s, events, t) && c < |t.cpus| && l in t.cpus[c].held && Enabled(t, Acquire(c, l))
    requires Run(Next(t, Acquire(c, l)), more, r)
    ensures c < |r.cpus| && r.cpus[c].pc == Spinning(l) && !r.cpus[c].enabled
  {
    hide Run, Initial;
    InitialInv(s);
    RunInv(s, events, t);
    NextInv(t, Acquire(c, l));
    var x := Next(t, Acquire(c, l));
    SecondAcquireSpins(x, more, r, c, l);
  }

  // ----- the calls from beginning to end

  lemma RunOne(s: State, e: Event, events: seq<Event>, r: State)
    requires Enabled(s, e) && Run(Next(s, e), events, r)
    ensures Run(s, [e] + events, r)
  {
    assert ([e] + events)[1..] == events;
  }

  /** Three steps of CPU c, none of which is a panic. */
  lemma RunThree(s: State, a: Event, b: Event, c: Event)
    requires Enabled(s, a) && Enabled(Next(s, a), b) && Enabled(Next(Next(s, a), b), c)
    ensures Run(s, [a, b, c], Next(Next(Next(s, a), b), c))
  {
    hide Next, Enabled;
    var (x, y) := (Next(s, a), Next(Next(s, a), b));
    RunOne(y, c, [], Next(y, c));
    RunOne(x, b, [c], Next(y, c));
    RunOne(s, a, [b, c], Next(y, c));
    assert [b] + [c] == [b, c] && [a] + [b, c] == [a, b, c] && [c] + [] == [c];
  }

  /** CPU c has the lock, with interrupts off, and remembers whether they were on. */
  predicate Taken(s: State, c: nat, l: nat, r: State)
    requires c < |s.cpus| && l < |s.locks|
  {
    var (cpu, outermost) := (s.cpus[c], s.cpus[c].noff == 0);
    && r.bad == s.bad && r.locks == s.locks[l := Lock(true, c, Some(c))]
    && r.cpus == s.cpus[c := Cpu(false, cpu.noff + 1, if outermost then cpu.enabled else cpu.intena, Outside,
                                 if outermost then cpu.enabled else cpu.before, cpu.held + {l})]
  }

  /** Asking for a free lock takes it, with kmt_spin_lock and with kmt_try_spin_lock. */
  lemma FreeLockTaken(s: State, c: nat, l: nat)
    requires c < |s.cpus| && l < |s.locks| && s.cpus[c].pc == Outside && !s.locks[l].locked
    ensures exists r: State :: (Run(s, [Acquire(c, l), Exchange(c), Record(c)], r) && Taken(s, c, l, r))
    ensures exists r: State :: (Run(s, [TryAcquire(c, l), Exchange(c), Record(c)], r) && Taken(s, c, l, r))
  {
    hide Run, Enabled, Next, Taken;
    TakeSteps(s, c, l, Acquire(c, l));
    TakeSteps(s, c, l, TryAcquire(c, l));
    RunThree(s, Acquire(c, l), Exchange(c), Record(c));
    RunThree(s, TryAcquire(c, l), Exchange(c), Record(c));
  }

  lemma TakeSteps(s: State, c: nat, l: nat, e: Event)
    requires c < |s.cpus| && l < |s.locks| && s.cpus[c].pc == Outside && !s.locks[l].locked
    requires e == Acquire(c, l) || e == TryAcquire(c, l)
    ensures Enabled(s, e) && Enabled(Next(s, e), Exchange(c)) && Enabled(Next(Next(s, e), Exchange(c)), Record(c))
    ensures Taken(s, c, l, Next(Next(Next(s, e), Exchange(c)), Record(c)))
  {
    var x := Next(s, e);
    var y := Next(x, Exchange(c));
    assert x.locks == s.locks && y.locks == s.locks[l := Lock(true, s.locks[l].cpuNum, Some(c))];
    assert y.cpus[c].pc == Recording(l);
    assert Next(y, Record(c)).locks == s.locks[l := Lock(true, c, Some(c))];
  }

  /** Asking for a lock that is taken: the exchange changes nothing and is tried again, or
      the trial is given up and the state is the one before it. */
  lemma TakenLockRefused(s: State, c: nat, l: nat)
    requires Inv(s) && c < |s.cpus| && l < |s.locks| && s.cpus[c].pc == Outside && s.locks[l].locked
    ensures Enabled(Next(s, Acquire(c, l)), Exchange(c)) && Next(Next(s, Acquire(c, l)), Exchange(c)) == Next(s, Acquire(c, l))
    ensures exists r: State :: (Run(s, [TryAcquire(c, l), Exchange(c), Pop(c)], r) && Undone(s, c, r))
  {
    CpuAt(s, c);
    hide Run, Inv, Undone;
    RefusedSteps(s, c, l);
    RunThree(s, TryAcquire(c, l), Exchange(c), Pop(c));
    StillSpinning(s, c, l);
  }

  lemma StillSpinning(s: State, c: nat, l: nat)
    requires c < |s.cpus| && l < |s.locks| && s.cpus[c].pc == Outside && s.locks[l].locked
    ensures Enabled(Next(s, Acquire(c, l)), Exchange(c)) && Next(Next(s, Acquire(c, l)), Exchange(c)) == Next(s, Acquire(c, l))
  {
  }

  lemma RefusedSteps(s: State, c: nat, l: nat)
    requires c < |s.cpus| && l < |s.locks| && s.cpus[c].pc == Outside && s.locks[l].locked && CpuOk(s.cpus[c])
    ensures var e := TryAcquire(c, l);
            && Enabled(s, e) && Enabled(Next(s, e), Exchange(c)) && Enabled(Next(Next(s, e), Exchange(c)), Pop(c))
            && Undone(s, c, Next(Next(Next(s, e), Exchange(c)), Pop(c)))
  {
    var cpu := PushOff(s.cpus[c]);
    var x := Next(s, TryAcquire(c, l));
    var y := Next(x, Exchange(c));
    assert x.cpus[c] == cpu.(pc := Trying(l)) && y.cpus[c] == cpu.(pc := Popping);
    assert y.cpus == s.cpus[c := cpu.(pc := Popping)];
    assert PopOff(y.cpus[c]).Some?;
  }

  /** As before, but for what push_off noted down at the outermost level. */
  predicate Undone(s: State, c: nat, r: State)
    requires c < |s.cpus|
  {
    && r.bad == s.bad && r.locks == s.locks && |r.cpus| == |s.cpus|
    && r.cpus == s.cpus[c := s.cpus[c].(intena := r.cpus[c].intena, before := r.cpus[c].before)]
  }

  lemma CpuAt(s: State, c: nat)
    requires Inv(s) && c < |s.cpus|
    ensures CpuOk(s.cpus[c])
  {
  }

  /** Giving a lock back frees it, and taking and giving back undo each other: locks,
      nesting and interrupts are as before. */
  lemma LockUnlock(s: State, c: nat, l: nat, x: State)
    requires Inv(s) && c < |s.cpus| && l < |s.locks| && s.cpus[c].pc == Outside && !s.locks[l].locked && Taken(s, c, l, x)
    ensures exists r: State :: (Run(x, [Unlock(c, l), Clear(c), Pop(c)], r) && Undone(s, c, r))
  {
    LockFacts(s, c, l);
    CpuAt(s, c);
    FreeLock(s, l);
    hide Run, Inv;
    RunThree(x, Unlock(c, l), Clear(c), Pop(c));
    var r := Next(Next(Next(x, Unlock(c, l)), Clear(c)), Pop(c));
    assert s.cpus[c].held + {l} - {l} == s.cpus[c].held;
    assert r.locks == s.locks;
    assert Undone(s, c, r);
  }

  lemma FreeLock(s: State, l: nat)
    requires Inv(s) && l < |s.locks| && !s.locks[l].locked
    ensures s.locks[l] == Lock(false, -1, None)
  {
    assert LockOk(s, l);
  }

  /** And in general: whoever holds a lock can give it back; it is free then, and the
      interrupts are on again if they were before and this was the last lock. */
  lemma UnlockFrees(s: State, c: nat, l: nat)
    requires Inv(s) && c < |s.cpus| && l < |s.locks| && s.cpus[c].pc == Outside && l in s.cpus[c].held
    ensures exists r: State :: (Run(s, [Unlock(c, l), Clear(c), Pop(c)], r) && Freed(s, c, l, r))
  {
    LockFacts(s, c, l);
    CpuAt(s, c);
    HeldFacts(s, c);
    hide Run, Inv;
    RunThree(s, Unlock(c, l), Clear(c), Pop(c));
    OneLess(s.cpus[c].held, l);
    assert Freed(s, c, l, Next(Next(Next(s, Unlock(c, l)), Clear(c)), Pop(c)));
  }

  lemma OneLess(held: set<nat>, l: nat)
    requires l in held
    ensures |held - {l}| == |held| - 1 && (held - {l} == {} <==> |held| == 1)
  {
    assert held == (held - {l}) + {l};
  }

  predicate Freed(s: State, c: nat, l: nat, r: State)
    requires c < |s.cpus| && l < |s.locks|
  {
    var (cpu, left) := (s.cpus[c], s.cpus[c].held - {l});
    && r.bad == s.bad && r.locks == s.locks[l := Lock(false, -1, None)]
    && r.cpus == s.cpus[c := cpu.(held := left, noff := cpu.noff - 1, enabled := left == {} && cpu.before)]
  }
}
