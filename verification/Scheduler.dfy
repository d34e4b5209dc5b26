/** The scheduler of kernel/src/kmt.c as a transition system over all CPUs: context
    saving with deferred release of the previous task, random choice of the next
    one, and the nested context slots that system calls rely on. An event is one
    access to shared state; a run is any sequence of enabled events. */
module Scheduler {
  import opened Wrappers

  /** The idle task of the CPU itself (pid 0), or task number t of the task list. */
  datatype Who = Idle | Task(t: nat)

  /** Where a CPU is: running a task, or between two steps of the trap handler. */
  datatype Pc = Running | Saved | Released | Picking | Claimed(t: nat) | Resuming

  /** stack records whose kernel stack the CPU executes on; resumed is the context
      the last schedule returned. */
  datatype Cpu = Cpu(current: Who, save: Option<Who>, pc: Pc, idleContext: nat, stack: Who, resumed: nat)

  /** owner, depth and latest are history: the CPU holding the task, whether the
      task is inside a system call, and the context most recently saved for it. */
  datatype TaskState = TaskState(context: seq<nat>, nested: int, block: bool, running: bool,
                                 owner: Option<nat>, depth: nat, latest: nat)

  /** bad is set by an access outside context[2] or a failed assertion or panic check. */
  datatype State = State(cpus: seq<Cpu>, tasks: seq<TaskState>, bad: bool)

  datatype Event =
    | TrapSave(c: nat, ctx: nat)
    | Release(c: nat)
    | SetSave(c: nat)
    | Try(c: nat, t: nat)
    | Confirm(c: nat)
    | GiveUp(c: nat)
    | Resume(c: nat)
    | SyscallEnter(c: nat)
    | SyscallExit(c: nat)
    | BlockSelf(c: nat)
    | Wake(t: nat)

  /** After boot: every CPU on its idle task, every task created and never run. */
  ghost predicate Initial(s: State) {
    && (forall c {:trigger s.cpus[c]} :: 0 <= c < |s.cpus| ==>
          s.cpus[c].current == Idle && s.cpus[c].save == None && s.cpus[c].pc == Running && s.cpus[c].stack == Idle)
    && (forall t {:trigger s.tasks[t]} :: 0 <= t < |s.tasks| ==>
          var k := s.tasks[t];
          && |k.context| == 2 && k.nested == 0 && !k.block && !k.running
          && k.owner == None && k.depth == 0 && k.latest == k.context[0])
    && !s.bad
  }

  predicate Enabled(s: State, e: Event) {
    if e.Wake? then e.t < |s.tasks|
    else
      && e.c < |s.cpus|
      && var cpu := s.cpus[e.c];
         match e
         case TrapSave(_, _) => cpu.pc == Running
         case Release(_) => cpu.pc == Saved
         case SetSave(_) => cpu.pc == Released
         case Try(_, t) => cpu.pc == Picking && t < |s.tasks|
         case Confirm(_) => cpu.pc.Claimed? && cpu.pc.t < |s.tasks|
         case GiveUp(_) => cpu.pc == Picking
         case Resume(_) => cpu.pc == Resuming
         case SyscallEnter(_) => Runs(s, e.c) && s.tasks[cpu.current.t].depth == 0
         case SyscallExit(_) => Runs(s, e.c) && s.tasks[cpu.current.t].depth == 1
         case BlockSelf(_) => Runs(s, e.c)
  }

  /** The CPU executes a task of the list. */
  predicate Runs(s: State, c: nat) {
    && c < |s.cpus| && s.cpus[c].pc == Running
    && s.cpus[c].current.Task? && s.cpus[c].current.t < |s.tasks|
  }

  function SetCpu(s: State, c: nat, cpu: Cpu): State
    requires c < |s.cpus|
  {
    s.(cpus := s.cpus[c := cpu])
  }

  function SetTask(s: State, t: nat, k: TaskState): State
    requires t < |s.tasks|
  {
    s.(tasks := s.tasks[t := k])
  }

  function Fail(s: State): State {
    s.(bad := true)
  }

  /** kmt_context_save, first part: the context goes to the slot of the nesting level. */
  function DoTrapSave(s: State, c: nat, ctx: nat): State
    requires c < |s.cpus|
  {
    var cpu := s.cpus[c];
    var s' := SetCpu(s, c, cpu.(pc := Saved));
    match cpu.current
    case Idle => SetCpu(s, c, cpu.(pc := Saved, idleContext := ctx))
    case Task(t) =>
      if t >= |s.tasks| then Fail(s')
      else
        var k := s.tasks[t];
        if 0 <= k.nested < |k.context| then
          SetTask(s', t, k.(context := k.context[k.nested := ctx], nested := k.nested + 1, latest := ctx))
        else Fail(s')
  }

  /** Second part: the task this CPU ran before is let go only now, when its stack
      is certainly no longer in use. */
  function DoRelease(s: State, c: nat): State
    requires c < |s.cpus|
  {
    var cpu := s.cpus[c];
    var s' := SetCpu(s, c, cpu.(pc := Released));
    if cpu.save.Some? && cpu.save.value != cpu.current && cpu.save.value.Task? then
      var t := cpu.save.value.t;
      if t >= |s.tasks| then Fail(s')
      else
        var k := s.tasks[t];
        var s'' := SetTask(s', t, k.(running := false, nested := k.nested - 1, owner := None));
        if 0 <= k.nested - 1 < 3 then s'' else Fail(s'')
    else s'
  }

  /** One round of the loop in kmt_schedule with the random choice t. */
  function DoTry(s: State, c: nat, t: nat): State
    requires c < |s.cpus| && t < |s.tasks|
  {
    var cpu := s.cpus[c];
    var k := s.tasks[t];
    if cpu.current == Task(t) then
      if k.block then s
      else SetTask(SetCpu(s, c, cpu.(pc := Resuming)), t, k.(nested := k.nested - 1))
    else if k.running || k.block then s
    else SetTask(SetCpu(s, c, cpu.(pc := Claimed(t))), t, k.(running := true, owner := Some(c)))
  }

  /** The second look at block after the claim. */
  function DoConfirm(s: State, c: nat): State
    requires c < |s.cpus| && s.cpus[c].pc.Claimed? && s.cpus[c].pc.t < |s.tasks|
  {
    var cpu := s.cpus[c];
    if s.tasks[cpu.pc.t].block then SetCpu(s, c, cpu.(pc := Picking))
    else SetCpu(s, c, cpu.(pc := Resuming, current := Task(cpu.pc.t)))
  }

  /** The end of kmt_schedule: the checks, and the context that is returned. */
  function DoResume(s: State, c: nat): State
    requires c < |s.cpus|
  {
    var cpu := s.cpus[c];
    var back := cpu.(pc := Running, stack := cpu.current);
    match cpu.current
    case Idle => SetCpu(s, c, back.(resumed := cpu.idleContext))
    case Task(t) =>
      if t >= |s.tasks| then Fail(s)
      else
        var k := s.tasks[t];
        if k.block || !(0 <= k.nested < |k.context|) then Fail(s)
        else SetCpu(s, c, back.(resumed := k.context[k.nested]))
  }

  function Next(s: State, e: Event): State
    requires Enabled(s, e)
  {
    match e
    case TrapSave(c, ctx) => DoTrapSave(s, c, ctx)
    case Release(c) => DoRelease(s, c)
    case SetSave(c) => SetCpu(s, c, s.cpus[c].(pc := Picking, save := Some(s.cpus[c].current)))
    case Try(c, t) => DoTry(s, c, t)
    case Confirm(c) => DoConfirm(s, c)
    case GiveUp(c) => SetCpu(s, c, s.cpus[c].(pc := Resuming, current := Idle))
    case Resume(c) => DoResume(s, c)
    case SyscallEnter(c) =>
      var t := s.cpus[c].current.t;
      SetTask(s, t, s.tasks[t].(nested := s.tasks[t].nested + 1, depth := 1))
    case SyscallExit(c) =>
      var t := s.cpus[c].current.t;
      SetTask(s, t, s.tasks[t].(nested := s.tasks[t].nested - 1, depth := 0))
    case BlockSelf(c) =>
      var t := s.cpus[c].current.t;
      SetTask(s, t, s.tasks[t].(block := true))
    case Wake(t) => SetTask(s, t, s.tasks[t].(block := false))
  }

  // ----- the invariant

  /** The CPU has claims on task t: it runs it, is switching to or from it, or has
      not let it go yet. Between Release and SetSave the old task is free already. */
  predicate Holds(cpu: Cpu, t: nat) {
    || cpu.current == Task(t)
    || (cpu.save == Some(Task(t)) && (cpu.pc == Running || cpu.pc == Saved || cpu.pc == Resuming))
    || cpu.pc == Claimed(t)
  }

  /** How far the nesting counter of a held task stands above the task's own depth. */
  function Extra(cpu: Cpu, t: nat): nat {
    if cpu.current == Task(t) then
      if cpu.pc == Running || cpu.pc == Resuming then 0 else 1
    else if cpu.pc == Claimed(t) then 0
    else 1
  }

  predicate CpuOk(cpu: Cpu) {
    && (cpu.pc == Picking || cpu.pc.Claimed? ==> cpu.save == Some(cpu.current))
    && (if cpu.pc == Resuming then cpu.save == Some(cpu.stack) else cpu.stack == cpu.current)
    && (cpu.pc.Claimed? ==> cpu.current != Task(cpu.pc.t))
  }

  predicate TaskOk(k: TaskState) {
    && |k.context| == 2 && k.depth <= 1
    && (k.running <==> k.owner.Some?)
    && (k.owner.None? ==> k.nested == k.depth && k.context[k.depth] == k.latest)
  }

  /** What a CPU and a task know of each other. */
  predicate PairOk(c: nat, cpu: Cpu, t: nat, k: TaskState)
    requires |k.context| == 2 && k.depth <= 1
  {
    && (Holds(cpu, t) <==> k.owner == Some(c))
    && (Holds(cpu, t) ==> k.nested == k.depth + Extra(cpu, t))
    && (Holds(cpu, t) && !(cpu.pc == Running && cpu.current == Task(t)) ==> k.context[k.depth] == k.latest)
    && (cpu.pc == Claimed(t) || (cpu.pc == Resuming && cpu.current == Task(t)) ==> !k.block)
  }

  ghost predicate Inv(s: State) {
    && !s.bad
    && (forall c: nat {:trigger s.cpus[c]} :: c < |s.cpus| ==> CpuOk(s.cpus[c]))
    && (forall c: nat, t: nat {:trigger Holds(s.cpus[c], t)} :: c < |s.cpus| && Holds(s.cpus[c], t) ==> t < |s.tasks|)
    && (forall t: nat {:trigger s.tasks[t]} :: t < |s.tasks| ==> TaskOk(s.tasks[t]))
    && (forall c: nat, t: nat {:trigger s.cpus[c], s.tasks[t]} :: c < |s.cpus| && t < |s.tasks| ==>
          PairOk(c, s.cpus[c], t, s.tasks[t]))
  }

  lemma InitialInv(s: State)
    requires Initial(s)
    ensures Inv(s)
  {
  }

  /** What is left to show for an event that touches one CPU and at most one task. */
  lemma Local(s: State, s': State, c: nat, t: nat)
    requires Inv(s) && c < |s.cpus| && |s'.cpus| == |s.cpus| && |s'.tasks| == |s.tasks| && !s'.bad
    requires s'.cpus == s.cpus[c := s'.cpus[c]] && CpuOk(s'.cpus[c])
    requires if t < |s.tasks| then s'.tasks == s.tasks[t := s'.tasks[t]] && TaskOk(s'.tasks[t]) else s'.tasks == s.tasks
    requires t < |s.tasks| ==> forall d: nat :: d < |s.cpus| ==> PairOk(d, s'.cpus[d], t, s'.tasks[t])
    requires forall u: nat :: Holds(s'.cpus[c], u) && !Holds(s.cpus[c], u) ==> u < |s.tasks|
    requires forall u: nat :: u < |s.tasks| && u != t ==> PairOk(c, s'.cpus[c], u, s.tasks[u])
    ensures Inv(s')
  {
    forall d: nat, u: nat | d < |s'.cpus| && u < |s'.tasks| ensures PairOk(d, s'.cpus[d], u, s'.tasks[u]) {
      assert s.cpus[d] == s.cpus[d] && s.tasks[u] == s.tasks[u];
    }
    forall d: nat, u: nat | d < |s'.cpus| && Holds(s'.cpus[d], u) ensures u < |s'.tasks| {
      if Holds(s.cpus[d], u) { }
    }
  }

  /** The pairs of one CPU, and those of one task, unpacked. */
  lemma Facts(s: State, c: nat, t: nat)
    requires Inv(s) && c < |s.cpus| && t < |s.tasks|
    ensures !s.bad && CpuOk(s.cpus[c]) && TaskOk(s.tasks[t])
    ensures forall u: nat :: u < |s.tasks| ==> TaskOk(s.tasks[u]) && PairOk(c, s.cpus[c], u, s.tasks[u])
    ensures forall d: nat :: d < |s.cpus| ==> PairOk(d, s.cpus[d], t, s.tasks[t])
  {
    forall u: nat | u < |s.tasks| ensures TaskOk(s.tasks[u]) && PairOk(c, s.cpus[c], u, s.tasks[u]) {
      assert s.tasks[u] == s.tasks[u] && s.cpus[c] == s.cpus[c];
    }
    forall d: nat | d < |s.cpus| ensures PairOk(d, s.cpus[d], t, s.tasks[t]) {
      assert s.tasks[t] == s.tasks[t] && s.cpus[d] == s.cpus[d];
    }
  }

  lemma CpuFacts(s: State, c: nat)
    requires Inv(s) && c < |s.cpus|
    ensures !s.bad && CpuOk(s.cpus[c])
    ensures forall u: nat :: u < |s.tasks| ==> TaskOk(s.tasks[u]) && PairOk(c, s.cpus[c], u, s.tasks[u])
    ensures forall u: nat :: Holds(s.cpus[c], u) ==> u < |s.tasks|
  {
    forall u: nat | u < |s.tasks| ensures TaskOk(s.tasks[u]) && PairOk(c, s.cpus[c], u, s.tasks[u]) {
      assert s.tasks[u] == s.tasks[u] && s.cpus[c] == s.cpus[c];
    }
  }

  lemma TrapSaveInv(s: State, c: nat, ctx: nat)
    requires Inv(s) && Enabled(s, TrapSave(c, ctx))
    ensures Inv(Next(s, TrapSave(c, ctx)))
  {
    hide Inv;
    CpuFacts(s, c);
    var s' := Next(s, TrapSave(c, ctx));
    if s.cpus[c].current.Task? {
      var t := s.cpus[c].current.t;
      assert Holds(s.cpus[c], t);
      Facts(s, c, t);
      Local(s, s', c, t);
    } else {
      Local(s, s', c, |s.tasks|);
    }
  }

  lemma ReleaseInv(s: State, c: nat)
    requires Inv(s) && Enabled(s, Release(c))
    ensures Inv(Next(s, Release(c)))
  {
    hide Inv;
    CpuFacts(s, c);
    var s' := Next(s, Release(c));
    var cpu := s.cpus[c];
    if cpu.save.Some? && cpu.save.value != cpu.current && cpu.save.value.Task? {
      var t := cpu.save.value.t;
      assert Holds(cpu, t);
      Facts(s, c, t);
      Local(s, s', c, t);
    } else {
      Local(s, s', c, |s.tasks|);
    }
  }

  lemma TryInv(s: State, c: nat, t: nat)
    requires Inv(s) && Enabled(s, Try(c, t))
    ensures Inv(Next(s, Try(c, t)))
  {
    hide Inv;
    Facts(s, c, t);
    CpuFacts(s, c);
    if Next(s, Try(c, t)) != s {
      Local(s, Next(s, Try(c, t)), c, t);
    }
  }

  /** Steps that change only the CPU: SetSave, Confirm, GiveUp, Resume. */
  lemma CpuOnlyInv(s: State, c: nat, e: Event)
    requires Inv(s) && Enabled(s, e) && (e == SetSave(c) || e == Confirm(c) || e == GiveUp(c) || e == Resume(c))
    ensures Inv(Next(s, e))
  {
    hide Inv;
    CpuFacts(s, c);
    var s' := Next(s, e);
    if s.cpus[c].current.Task? { assert Holds(s.cpus[c], s.cpus[c].current.t); }
    if s.cpus[c].pc.Claimed? { assert Holds(s.cpus[c], s.cpus[c].pc.t); }
    Local(s, s', c, |s.tasks|);
  }

  /** Steps of the running task itself. */
  lemma RunningInv(s: State, c: nat, e: Event)
    requires Inv(s) && Enabled(s, e) && (e == SyscallEnter(c) || e == SyscallExit(c) || e == BlockSelf(c))
    ensures Inv(Next(s, e))
  {
    hide Inv;
    CpuFacts(s, c);
    var t := s.cpus[c].current.t;
    assert Holds(s.cpus[c], t);
    Facts(s, c, t);
    Local(s, Next(s, e), c, t);
  }

  lemma WakeInv(s: State, t: nat)
    requires Inv(s) && t < |s.tasks|
    ensures Inv(Next(s, Wake(t)))
  {
    var s' := Next(s, Wake(t));
    forall c: nat, u: nat | c < |s'.cpus| && u < |s'.tasks| ensures PairOk(c, s'.cpus[c], u, s'.tasks[u]) {
      assert s.cpus[c] == s.cpus[c] && s.tasks[u] == s.tasks[u];
    }
  }

  /** Every event of every CPU keeps the invariant; in particular no slot access is
      out of bounds and no assertion or panic check fires. */
  lemma NextInv(s: State, e: Event)
    requires Inv(s) && Enabled(s, e)
    ensures Inv(Next(s, e)) && !Next(s, e).bad
  {
    hide Enabled, Next;
    match e {
      case TrapSave(c, ctx) => TrapSaveInv(s, c, ctx);
      case Release(c) => ReleaseInv(s, c);
      case SetSave(c) => CpuOnlyInv(s, c, e);
      case Try(c, t) => TryInv(s, c, t);
      case Confirm(c) => CpuOnlyInv(s, c, e);
      case GiveUp(c) => CpuOnlyInv(s, c, e);
      case Resume(c) => CpuOnlyInv(s, c, e);
      case SyscallEnter(c) => RunningInv(s, c, e);
      case SyscallExit(c) => RunningInv(s, c, e);
      case BlockSelf(c) => RunningInv(s, c, e);
      case Wake(t) => WakeTask(s, t);
    }
  }

  lemma WakeTask(s: State, t: nat)
    requires Inv(s) && Enabled(s, Wake(t))
    ensures Inv(Next(s, Wake(t)))
  {
    WakeInv(s, t);
  }

  // ----- every run

  /** r is reached from s by the events, each enabled when it happens. */
  ghost predicate Run(s: State, events: seq<Event>, r: State)
    decreases |events|
  {
    if events == [] then r == s
    else Enabled(s, events[0]) && Run(Next(s, events[0]), events[1..], r)
  }

  lemma {:induction false} RunInv(s: State, events: seq<Event>, r: State)
    requires Inv(s) && Run(s, events, r)
    ensures Inv(r)
    decreases |events|
  {
    if events != [] {
      NextInv(s, events[0]);
      RunInv(Next(s, events[0]), events[1..], r);
    }
  }

  /** In every interleaving: a task is held by at most one CPU, exactly one when its
      is_running is set, and no kernel stack is used by two CPUs. */
  lemma Exclusive(s: State, events: seq<Event>, r: State, c: nat, d: nat, t: nat)
    requires Initial(s) && Run(s, events, r) && c < |r.cpus| && d < |r.cpus| && t < |r.tasks|
    ensures Holds(r.cpus[c], t) && Holds(r.cpus[d], t) ==> c == d
    ensures r.tasks[t].running <==> exists b: nat :: b < |r.cpus| && Holds(r.cpus[b], t)
    ensures r.cpus[c].stack == r.cpus[d].stack == Task(t) ==> c == d
  {
    InitialInv(s);
    RunInv(s, events, r);
    OwnerExists(s, events, r, t);
    Facts(r, c, t);
    Facts(r, d, t);
    if r.tasks[t].running {
      assert Holds(r.cpus[r.tasks[t].owner.value], t);
    }
  }

  /** Owners are CPUs. */
  lemma {:induction false} OwnerExists(s: State, events: seq<Event>, r: State, t: nat)
    requires Run(s, events, r) && t < |r.tasks|
    requires forall k: nat {:trigger s.tasks[k]} :: k < |s.tasks| && s.tasks[k].owner.Some? ==> s.tasks[k].owner.value < |s.cpus|
    ensures r.tasks[t].owner.Some? ==> r.tasks[t].owner.value < |r.cpus|
    decreases |events|
  {
    hide Next, Enabled;
    if events != [] {
      OwnerStep(s, events[0]);
      OwnerExists(Next(s, events[0]), events[1..], r, t);
    }
  }

  lemma OwnerStep(s: State, e: Event)
    requires Enabled(s, e)
    requires forall k: nat {:trigger s.tasks[k]} :: k < |s.tasks| && s.tasks[k].owner.Some? ==> s.tasks[k].owner.value < |s.cpus|
    ensures var s' := Next(s, e);
            forall k: nat {:trigger s'.tasks[k]} :: k < |s'.tasks| && s'.tasks[k].owner.Some? ==> s'.tasks[k].owner.value < |s'.cpus|
  {
  }

  /** The trap saves a context of who: of a task wherever it runs, of the idle task of CPU
      c on that CPU. */
  predicate Saves(s: State, e: Event, who: Who, c: nat) {
    e.TrapSave? && e.c < |s.cpus| && s.cpus[e.c].current == who && (who.Task? || e.c == c)
  }

  /** The context of the last trap in the run that saved one of who, or else the first. */
  ghost function LastSaved(s: State, events: seq<Event>, who: Who, c: nat, first: nat): nat
    decreases |events|
  {
    if events == [] || !Enabled(s, events[0]) then first
    else LastSaved(Next(s, events[0]), events[1..], who, c, if Saves(s, events[0], who, c) then events[0].ctx else first)
  }

  /** What boot prepares: a CPU's idle context, or where a task starts. */
  function BootContext(s: State, who: Who, c: nat): nat {
    match who
    case Idle => if c < |s.cpus| then s.cpus[c].idleContext else 0
    case Task(t) => if t < |s.tasks| && |s.tasks[t].context| > 0 then s.tasks[t].context[0] else 0
  }

  lemma SaveStep(s: State, e: Event, c: nat, t: nat)
    requires Inv(s) && Enabled(s, e)
    ensures |Next(s, e).cpus| == |s.cpus| && |Next(s, e).tasks| == |s.tasks|
    ensures c < |s.cpus| ==> Next(s, e).cpus[c].idleContext == if Saves(s, e, Idle, c) then e.ctx else s.cpus[c].idleContext
    ensures t < |s.tasks| ==> Next(s, e).tasks[t].latest == if Saves(s, e, Task(t), c) then e.ctx else s.tasks[t].latest
  {
    if e.TrapSave? {
      CpuFacts(s, e.c);
      if s.cpus[e.c].current.Task? { assert Holds(s.cpus[e.c], s.cpus[e.c].current.t); }
    }
    hide Inv;
  }

  lemma {:induction false} RunSaves(s: State, events: seq<Event>, r: State, c: nat, t: nat)
    requires Inv(s) && Run(s, events, r)
    ensures |r.cpus| == |s.cpus| && |r.tasks| == |s.tasks|
    ensures c < |s.cpus| ==> r.cpus[c].idleContext == LastSaved(s, events, Idle, c, s.cpus[c].idleContext)
    ensures t < |s.tasks| ==> r.tasks[t].latest == LastSaved(s, events, Task(t), c, s.tasks[t].latest)
    decreases |events|
  {
    hide Inv, Next, Enabled, Saves;
    if events != [] {
      NextInv(s, events[0]);
      SaveStep(s, events[0], c, t);
      RunSaves(Next(s, events[0]), events[1..], r, c, t);
    }
  }

  /** Whatever the scheduler resumes, a task or the CPU's idle task, it is not blocked, it
      runs on its own stack, and it gets the context that the last trap saved for it in
      the run, or the one boot prepared. */
  lemma ResumesLatest(s: State, events: seq<Event>, r: State, c: nat)
    requires Initial(s) && Run(s, events, r) && Enabled(r, Resume(c))
    ensures var (who, back) := (r.cpus[c].current, Next(r, Resume(c)).cpus[c]);
            && back.resumed == LastSaved(s, events, who, c, BootContext(s, who, c))
            && back.stack == back.current == who && back.pc == Running
            && (who.Task? ==> who.t < |r.tasks| && !r.tasks[who.t].block)
  {
    InitialInv(s);
    RunInv(s, events, r);
    CpuFacts(r, c);
    hide Inv, Run, LastSaved;
    match r.cpus[c].current {
      case Idle => RunSaves(s, events, r, c, 0);
      case Task(t) =>
        assert Holds(r.cpus[c], t);
        RunSaves(s, events, r, c, t);
    }
  }

  /** The second look at block never turns a claimed task away, so no is_running flag
      is left set on a task that nobody runs. */
  lemma ClaimKept(s: State, events: seq<Event>, r: State, c: nat)
    requires Initial(s) && Run(s, events, r) && Enabled(r, Confirm(c))
    ensures Next(r, Confirm(c)).cpus[c].current == Task(r.cpus[c].pc.t) && Next(r, Confirm(c)).cpus[c].pc == Resuming
  {
    InitialInv(s);
    RunInv(s, events, r);
    CpuFacts(r, c);
    assert Holds(r.cpus[c], r.cpus[c].pc.t);
  }

  /** The nesting counter stays between 0 and 2, it is at most 1 wherever a trap can
      save a context, and nothing is ever accessed out of bounds. */
  lemma NestingBounded(s: State, events: seq<Event>, r: State, t: nat)
    requires Initial(s) && Run(s, events, r) && t < |r.tasks|
    ensures !r.bad && 0 <= r.tasks[t].nested <= 2
    ensures forall c: nat :: c < |r.cpus| && RunsTask(r.cpus[c], t) ==> r.tasks[t].nested <= 1
  {
    InitialInv(s);
    RunInv(s, events, r);
    OwnerExists(s, events, r, t);
    if r.tasks[t].owner.Some? { Facts(r, r.tasks[t].owner.value, t); }
    forall c: nat | c < |r.cpus| && RunsTask(r.cpus[c], t) ensures r.tasks[t].nested <= 1 {
      Facts(r, c, t);
    }
  }

  predicate RunsTask(cpu: Cpu, t: nat) {
    cpu.pc == Running && cpu.current == Task(t)
  }
}
