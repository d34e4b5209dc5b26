/** Tworker_para_round_by_round of plcs/plcs.c: t workers, interleaved one shared
    access at a time, filling the anti-diagonals of the table behind a barrier
    built from one counter and one flag per worker. A schedule is any sequence
    of worker numbers. Atomics and table accesses are sequentially consistent. */
module LcsWorkers {
  import opened LcsSpec
  import opened LcsPartition
  import opened Powers

  datatype Job = Job(a: string, b: string, t: nat)

  /** Where a worker stands. Fill holds what it has read for its current cell;
      Lower and Count are the two stores every worker makes after its block;
      Await, Reset and Raise are worker 1's part of the barrier. */
  datatype Pc =
    | Load
    | Fill(pos: nat, read: seq<int>)
    | Lower
    | Count
    | Await
    | Reset
    | Raise(i: nat)
    | Spin

  datatype Worker = Worker(round: nat, pc: Pc)

  /** cache is dp_cache (absent means still 0), finished is finished_thread_num,
      canRun is thread_can_run; worker w of the sequence has id w + 1. */
  datatype State = State(cache: map<(int, int), int>, finished: int, canRun: seq<int>, workers: seq<Worker>)

  predicate ValidJob(j: Job) {
    |j.a| >= 1 && |j.b| >= 1 && j.t >= 2
  }

  function Rounds(j: Job): nat
    requires ValidJob(j)
  {
    |j.a| + |j.b| - 1
  }

  function Initial(j: Job): State {
    State(map[], 0, seq(j.t, _ => 0), seq(j.t, _ => Worker(0, Load)))
  }

  /** DP_CACHE */
  function Cached(s: State, x: int, y: int): int {
    if x >= 0 && y >= 0 && (x, y) in s.cache then s.cache[(x, y)] else 0
  }

  predicate WellSized(j: Job, s: State) {
    |s.workers| == j.t && |s.canRun| == j.t
  }

  function Goto(s: State, w: nat, pc: Pc): State
    requires w < |s.workers|
  {
    s.(workers := s.workers[w := s.workers[w].(pc := pc)])
  }

  /** The entry worker w reads at the start of a round. */
  function EntryOf(j: Job, round: nat, w: nat): Entry
    requires ValidJob(j) && round < Rounds(j)
  {
    Todo(|j.a|, |j.b|, j.t, round, w + 1)
  }

  predicate Skips(e: Entry, w: nat) {
    e.startCol == e.startRow && e.startCol == e.endRow && e.startCol == 0 && w != 0
  }

  /** One step of the fill loop: the guard and three reads, then the write. */
  function FillStep(j: Job, s: State, w: nat): State
    requires ValidJob(j) && WellSized(j, s) && w < j.t
    requires s.workers[w].pc.Fill? && s.workers[w].round < Rounds(j)
  {
    var e := EntryOf(j, s.workers[w].round, w);
    var (pos, read) := (s.workers[w].pc.pos, s.workers[w].pc.read);
    var x, y := s.workers[w].round, e.startRow + pos;
    if |read| == 0 then
      if y > e.endRow then Goto(s, w, Lower) else Goto(s, w, Fill(pos, [Cached(s, x - 1, y)]))
    else if |read| == 1 then Goto(s, w, Fill(pos, read + [Cached(s, x - 1, y - 1)]))
    else if |read| == 2 then
      var (row, col) := (e.startRow + pos, e.startCol - pos);
      var same := if 0 <= row < |j.a| && 0 <= col < |j.b| && j.a[row] == j.b[col] then 1 else 0;
      Goto(s, w, Fill(pos, read + [Cached(s, x - 2, y - 1) + same]))
    else
      Goto(s.(cache := s.cache[(x, y) := Max3(read[0], read[1], read[2])]), w, Fill(pos + 1, []))
  }

  /** One atomic step of worker w. A worker that spins, or is done, stays put. */
  function Step(j: Job, s: State, w: nat): State
    requires ValidJob(j) && WellSized(j, s) && w < j.t
  {
    var me := s.workers[w];
    if me.round >= Rounds(j) then s
    else
      match me.pc
      case Load => Goto(s, w, if Skips(EntryOf(j, me.round, w), w) then Lower else Fill(0, []))
      case Fill(_, _) => FillStep(j, s, w)
      case Lower => Goto(s.(canRun := s.canRun[w := 0]), w, Count)
      case Count => Goto(s.(finished := s.finished + 1), w, if w == 0 then Await else Spin)
      case Await => if s.finished < j.t then s else Goto(s, w, Reset)
      case Reset => Goto(s.(finished := 0), w, Raise(0))
      case Raise(i) =>
        if i < j.t then Goto(s.(canRun := s.canRun[i := 1]), w, Raise(i + 1)) else Goto(s, w, Spin)
      case Spin =>
        if s.canRun[w] == 0 then s else s.(workers := s.workers[w := Worker(me.round + 1, Load)])
  }

  predicate Done(j: Job, s: State, w: nat)
    requires ValidJob(j) && WellSized(j, s) && w < j.t
  {
    s.workers[w].round >= Rounds(j)
  }

  /** The state after a schedule, a sequence of worker numbers. */
  function Run(j: Job, schedule: seq<nat>): (s: State)
    requires ValidJob(j) && forall k :: 0 <= k < |schedule| ==> schedule[k] < j.t
    ensures WellSized(j, s)
    decreases |schedule|
  {
    if schedule == [] then Initial(j)
    else Step(j, Run(j, schedule[..|schedule| - 1]), schedule[|schedule| - 1])
  }

  // ----- the barrier

  predicate Waiting(pc: Pc) {
    pc.Await? || pc.Reset? || pc.Raise? || pc.Spin?
  }

  /** How often a worker has incremented the counter. */
  function Arrived(me: Worker): nat {
    me.round + if Waiting(me.pc) then 1 else 0
  }

  /** How often worker 1 has reset the counter. */
  function Resets(s: State): nat
    requires |s.workers| >= 1
  {
    s.workers[0].round + if s.workers[0].pc.Raise? || s.workers[0].pc.Spin? then 1 else 0
  }

  /** How often worker 1 has raised the flag of worker w. */
  function Released(s: State, w: nat): nat
    requires |s.workers| >= 1
  {
    var pc := s.workers[0].pc;
    s.workers[0].round + if pc.Spin? || (pc.Raise? && pc.i > w) then 1 else 0
  }

  /** How many of the first n workers have arrived since reset number z. */
  function Arrivals(ws: seq<Worker>, z: nat, n: nat): nat
    requires n <= |ws|
  {
    if n == 0 then 0 else Arrivals(ws, z, n - 1) + if Arrived(ws[n - 1]) == z + 1 then 1 else 0
  }

  ghost predicate WorkerOk(j: Job, s: State, w: nat)
    requires ValidJob(j) && WellSized(j, s) && w < j.t
  {
    var me := s.workers[w];
    && me.round <= Rounds(j) && (me.round == Rounds(j) ==> me.pc == Load)
    && (w > 0 && Waiting(me.pc) ==> me.pc == Spin)
    && Resets(s) <= Arrived(me) <= Resets(s) + 1
    && if Waiting(me.pc) then
         && me.round <= Released(s, w) <= me.round + 1
         && s.canRun[w] == (if Released(s, w) == me.round + 1 then 1 else 0)
       else
         Released(s, w) == me.round && (me.pc == Count ==> s.canRun[w] == 0)
  }

  ghost predicate Control(j: Job, s: State)
    requires ValidJob(j)
  {
    && WellSized(j, s)
    && (forall w: nat {:trigger s.workers[w]} :: w < j.t ==> WorkerOk(j, s, w))
    && s.finished == Arrivals(s.workers, Resets(s), j.t)
    && (s.workers[0].pc == Reset ==> s.finished == j.t)
    && (s.workers[0].pc.Raise? ==> s.workers[0].pc.i <= j.t)
  }

  lemma {:induction false} ArrivalsBound(ws: seq<Worker>, z: nat, n: nat)
    requires n <= |ws|
    ensures Arrivals(ws, z, n) <= n
    ensures Arrivals(ws, z, n) == n <==> forall w :: 0 <= w < n ==> Arrived(ws[w]) == z + 1
    ensures Arrivals(ws, z, n) == 0 <==> forall w :: 0 <= w < n ==> Arrived(ws[w]) != z + 1
  {
    if n > 0 { ArrivalsBound(ws, z, n - 1); }
  }

  lemma {:induction false} ArrivalsUpdate(ws: seq<Worker>, z: nat, n: nat, w: nat, me: Worker)
    requires n <= |ws| && w < |ws|
    ensures Arrivals(ws[w := me], z, n) == Arrivals(ws, z, n) +
              if w >= n then 0
              else (if Arrived(me) == z + 1 then 1 else 0) - (if Arrived(ws[w]) == z + 1 then 1 else 0)
  {
    if n > 0 { ArrivalsUpdate(ws, z, n - 1, w, me); }
  }

  lemma InitialControl(j: Job)
    requires ValidJob(j)
    ensures Control(j, Initial(j))
  {
    var s := Initial(j);
    ArrivalsBound(s.workers, 0, j.t);
    forall w: nat | w < j.t ensures WorkerOk(j, s, w) {
      assert s.workers[w] == Worker(0, Load);
    }
  }

  /** Moves of one worker that no other worker can tell apart. */
  lemma QuietControl(j: Job, s: State, w: nat, pc: Pc, flag: int, s': State)
    requires ValidJob(j) && Control(j, s) && w < j.t && s.workers[w].round < Rounds(j)
    requires !Waiting(s.workers[w].pc) && !Waiting(pc)
    requires flag == s.canRun[w] || flag == 0
    requires pc == Count ==> flag == 0
    requires WellSized(j, s') && s'.finished == s.finished
    requires s'.workers == s.workers[w := s.workers[w].(pc := pc)] && s'.canRun == s.canRun[w := flag]
    ensures Control(j, s')
  {
    ArrivalsUpdate(s.workers, Resets(s), j.t, w, s'.workers[w]);
    forall k: nat | k < j.t ensures WorkerOk(j, s', k) {
      assert WorkerOk(j, s, k);
      if k != w { assert s'.workers[k] == s.workers[k] && s'.canRun[k] == s.canRun[k]; }
    }
  }

  lemma CountControl(j: Job, s: State, w: nat)
    requires ValidJob(j) && Control(j, s) && w < j.t && s.workers[w].round < Rounds(j)
    requires s.workers[w].pc == Count
    ensures Control(j, Step(j, s, w))
  {
    var s' := Step(j, s, w);
    assert WorkerOk(j, s, w) && WorkerOk(j, s, 0);
    ArrivalsBound(s.workers, Resets(s), j.t);
    ArrivalsUpdate(s.workers, Resets(s), j.t, w, s'.workers[w]);
    forall k: nat | k < j.t ensures WorkerOk(j, s', k) {
      assert WorkerOk(j, s, k);
    }
  }

  lemma AwaitControl(j: Job, s: State)
    requires ValidJob(j) && Control(j, s) && s.workers[0].round < Rounds(j) && s.workers[0].pc == Await
    ensures Control(j, Step(j, s, 0))
  {
    var s' := Step(j, s, 0);
    assert WorkerOk(j, s, 0);
    ArrivalsBound(s.workers, Resets(s), j.t);
    ArrivalsUpdate(s.workers, Resets(s), j.t, 0, s'.workers[0]);
    forall k: nat | k < j.t ensures WorkerOk(j, s', k) {
      assert WorkerOk(j, s, k);
    }
  }

  lemma ResetControl(j: Job, s: State)
    requires ValidJob(j) && Control(j, s) && s.workers[0].round < Rounds(j) && s.workers[0].pc == Reset
    ensures Control(j, Step(j, s, 0))
  {
    var s' := Step(j, s, 0);
    assert WorkerOk(j, s, 0);
    ArrivalsBound(s.workers, Resets(s), j.t);
    ArrivalsBound(s'.workers, Resets(s'), j.t);
    forall k: nat | k < j.t ensures WorkerOk(j, s', k) && Arrived(s'.workers[k]) == Resets(s') {
      assert WorkerOk(j, s, k);
      assert Arrived(s.workers[k]) == Resets(s) + 1;
    }
  }

  /** Before its flag is raised, a worker waits for exactly this round. */
  lemma RaiseTarget(j: Job, s: State, k: nat)
    requires ValidJob(j) && Control(j, s) && s.workers[0].round < Rounds(j)
    requires s.workers[0].pc.Raise? && s.workers[0].pc.i <= k < j.t
    ensures Waiting(s.workers[k].pc) && s.workers[k].round == s.workers[0].round && s.canRun[k] == 0
  {
    assert WorkerOk(j, s, k);
  }

  lemma RaiseControl(j: Job, s: State)
    requires ValidJob(j) && Control(j, s) && s.workers[0].round < Rounds(j) && s.workers[0].pc.Raise?
    ensures Control(j, Step(j, s, 0))
  {
    var s' := Step(j, s, 0);
    assert WorkerOk(j, s, 0);
    ArrivalsUpdate(s.workers, Resets(s), j.t, 0, s'.workers[0]);
    forall k: nat | k < j.t ensures WorkerOk(j, s', k) {
      assert WorkerOk(j, s, k);
    }
  }

  lemma SpinControl(j: Job, s: State, w: nat)
    requires ValidJob(j) && Control(j, s) && w < j.t && s.workers[w].round < Rounds(j)
    requires s.workers[w].pc == Spin
    ensures Control(j, Step(j, s, w))
  {
    var s' := Step(j, s, w);
    assert WorkerOk(j, s, w) && WorkerOk(j, s, 0);
    ArrivalsUpdate(s.workers, Resets(s), j.t, w, Worker(s.workers[w].round + 1, Load));
    forall k: nat | k < j.t ensures WorkerOk(j, s', k) {
      assert WorkerOk(j, s, k);
    }
  }

  /** Every step of every worker keeps the barrier's invariant. */
  lemma StepControl(j: Job, s: State, w: nat)
    requires ValidJob(j) && Control(j, s) && w < j.t
    ensures Control(j, Step(j, s, w))
  {
    hide WorkerOk, FillStep;
    if s.workers[w].round < Rounds(j) {
      WaitingIsLeader(j, s, w);
      match s.workers[w].pc
      case Load => QuietStep(j, s, w);
      case Fill(_, _) => QuietStep(j, s, w);
      case Lower => QuietStep(j, s, w);
      case Count => CountControl(j, s, w);
      case Spin => SpinControl(j, s, w);
      case Await => AwaitControl(j, s);
      case Reset => ResetControl(j, s);
      case Raise(_) => RaiseControl(j, s);
    }
  }

  lemma WaitingIsLeader(j: Job, s: State, w: nat)
    requires ValidJob(j) && Control(j, s) && w < j.t
    ensures Waiting(s.workers[w].pc) && w > 0 ==> s.workers[w].pc == Spin
  {
    assert WorkerOk(j, s, w);
  }

  lemma QuietStep(j: Job, s: State, w: nat)
    requires ValidJob(j) && Control(j, s) && w < j.t && s.workers[w].round < Rounds(j)
    requires s.workers[w].pc.Load? || s.workers[w].pc.Fill? || s.workers[w].pc.Lower?
    ensures Control(j, Step(j, s, w))
  {
    hide WorkerOk;
    var s' := Step(j, s, w);
    assert s'.canRun == s.canRun[w := s'.canRun[w]];
    QuietControl(j, s, w, s'.workers[w].pc, s'.canRun[w], s');
  }

  // ----- the table

  predicate TableCell(j: Job, x: int, y: int)
    requires ValidJob(j)
  {
    IsCell(|j.a|, |j.b|, x, y)
  }

  /** Index of the worker that fills cell (x, y). */
  function Filler(j: Job, x: nat, y: int): (w: nat)
    requires ValidJob(j) && TableCell(j, x, y)
    ensures w < j.t
  {
    Owner(|j.a|, |j.b|, j.t, x, y) - 1
  }

  /** The right value of a table position; 0 off the table. */
  function Right(j: Job, x: int, y: int): int
    requires ValidJob(j)
  {
    if TableCell(j, x, y) then Cell(j.a, j.b, y, x - y) else 0
  }

  /** The worker has left the cell (x, y) of its own block behind. */
  predicate Past(j: Job, me: Worker, w: nat, x: nat, y: int)
    requires ValidJob(j) && x < Rounds(j)
  {
    || me.round > x
    || (me.round == x && (Waiting(me.pc) || me.pc.Lower? || me.pc.Count?))
    || (me.round == x && me.pc.Fill? && y < EntryOf(j, x, w).startRow + me.pc.pos)
  }

  predicate Filled(j: Job, s: State, x: int, y: int)
    requires ValidJob(j) && WellSized(j, s)
  {
    x >= 0 && TableCell(j, x, y) && Past(j, s.workers[Filler(j, x, y)], Filler(j, x, y), x, y)
  }

  function Same(j: Job, x: int, y: int): int
    requires ValidJob(j)
  {
    if TableCell(j, x, y) && j.a[y] == j.b[x - y] then 1 else 0
  }

  predicate ReadSoFar(read: seq<int>, r0: int, r1: int, r2: int) {
    read == [] || read == [r0] || read == [r0, r1] || read == [r0, r1, r2]
  }

  /** A worker in its fill loop is inside its block, and what it has read so far
      for its current cell (x, y) is right. */
  ghost predicate FillOk(j: Job, x: nat, w: nat, pos: nat, read: seq<int>)
    requires ValidJob(j) && x < Rounds(j)
  {
    var e := EntryOf(j, x, w);
    var y := e.startRow + pos;
    && w + 1 <= Needed(Size(|j.a|, |j.b|, x), j.t)
    && y <= e.endRow + 1 && (read != [] ==> y <= e.endRow)
    && ReadSoFar(read, Right(j, x - 1, y), Right(j, x - 1, y - 1), Right(j, x - 2, y - 1) + Same(j, x, y))
  }

  ghost predicate ReadOk(j: Job, me: Worker, w: nat)
    requires ValidJob(j)
  {
    me.pc.Fill? && me.round < Rounds(j) ==> FillOk(j, me.round, w, me.pc.pos, me.pc.read)
  }

  /** The table holds exactly the cells left behind, each with its right value;
      everything else, in particular every row beyond the round, is still 0. */
  ghost predicate TableOk(j: Job, s: State)
    requires ValidJob(j) && WellSized(j, s)
  {
    && (forall x, y {:trigger (x, y) in s.cache} :: (x, y) in s.cache <==> Filled(j, s, x, y))
    && forall x, y {:trigger s.cache[(x, y)]} :: (x, y) in s.cache ==> s.cache[(x, y)] == Right(j, x, y)
  }

  ghost predicate Data(j: Job, s: State)
    requires ValidJob(j) && WellSized(j, s)
  {
    TableOk(j, s) && forall w: nat {:trigger s.workers[w]} :: w < j.t ==> ReadOk(j, s.workers[w], w)
  }

  /** A worker that computes in a round may rely on all earlier diagonals. */
  lemma EarlierFilled(j: Job, s: State, w: nat, x: int, y: int)
    requires ValidJob(j) && Control(j, s) && w < j.t && !Waiting(s.workers[w].pc)
    requires 0 <= x < s.workers[w].round && x < Rounds(j) && TableCell(j, x, y)
    ensures Filled(j, s, x, y)
  {
    var o := Filler(j, x, y);
    assert WorkerOk(j, s, w) && WorkerOk(j, s, o) && WorkerOk(j, s, 0);
  }

  /** So whatever it reads from them, on or off the table, is right. */
  lemma ReadIsRight(j: Job, s: State, w: nat, x: int, y: int)
    requires ValidJob(j) && Control(j, s) && TableOk(j, s) && w < j.t && !Waiting(s.workers[w].pc)
    requires x < s.workers[w].round <= Rounds(j)
    ensures Cached(s, x, y) == Right(j, x, y)
  {
    if x >= 0 && TableCell(j, x, y) {
      EarlierFilled(j, s, w, x, y);
    } else {
      assert !Filled(j, s, x, y);
    }
  }

  /** A worker's own cell: owned by it, and given by the recurrence. */
  lemma OwnCell(j: Job, x: nat, w: nat, y: int)
    requires ValidJob(j) && x < Rounds(j) && w < j.t
    requires w + 1 <= Needed(Size(|j.a|, |j.b|, x), j.t)
    requires EntryOf(j, x, w).startRow <= y <= EntryOf(j, x, w).endRow
    ensures TableCell(j, x, y) && Filler(j, x, y) == w && EntryOf(j, x, w).startCol == x - EntryOf(j, x, w).startRow
    ensures Right(j, x, y) == Max3(Right(j, x - 1, y), Right(j, x - 1, y - 1), Right(j, x - 2, y - 1) + Same(j, x, y))
  {
    PartitionExact(|j.a|, |j.b|, j.t, x, w + 1);
    assert Owns(|j.a|, |j.b|, j.t, x, y, w + 1);
    CellStep(j.a, j.b, y, x - y);
  }

  /** The cells of worker w on diagonal x are those of its block. */
  lemma FillerRows(j: Job, x: nat, y: int)
    requires ValidJob(j) && x < Rounds(j) && TableCell(j, x, y)
    ensures var w := Filler(j, x, y);
            && w + 1 <= Needed(Size(|j.a|, |j.b|, x), j.t)
            && EntryOf(j, x, w).startRow <= y <= EntryOf(j, x, w).endRow
  {
  }

  /** A step that leaves no cell behind and reads nothing keeps the table. */
  lemma SameTable(j: Job, s: State, s': State, w: nat)
    requires ValidJob(j) && WellSized(j, s) && WellSized(j, s') && w < j.t && TableOk(j, s)
    requires s'.cache == s.cache && s'.workers == s.workers[w := s'.workers[w]]
    requires forall x: nat, y :: x < Rounds(j) && TableCell(j, x, y) && Filler(j, x, y) == w ==>
               (Past(j, s.workers[w], w, x, y) <==> Past(j, s'.workers[w], w, x, y))
    ensures TableOk(j, s')
  {
    forall x, y ensures Filled(j, s', x, y) <==> Filled(j, s, x, y) {
      if x >= 0 && TableCell(j, x, y) && Filler(j, x, y) != w {
        assert s'.workers[Filler(j, x, y)] == s.workers[Filler(j, x, y)];
      }
    }
  }

  lemma OneWorkerData(j: Job, s: State, s': State, w: nat)
    requires ValidJob(j) && WellSized(j, s) && WellSized(j, s') && w < j.t && Data(j, s)
    requires s'.workers == s.workers[w := s'.workers[w]]
    requires TableOk(j, s') && ReadOk(j, s'.workers[w], w)
    ensures Data(j, s')
  {
    hide TableOk, ReadOk;
    forall k: nat | k < j.t ensures ReadOk(j, s'.workers[k], k) {
      if k != w { assert s'.workers[k] == s.workers[k]; }
    }
  }

  /** Entering a round: either the block is real work, or there is none to do. */
  lemma LoadData(j: Job, s: State, w: nat)
    requires ValidJob(j) && Control(j, s) && Data(j, s) && w < j.t
    requires s.workers[w].round < Rounds(j) && s.workers[w].pc == Load
    ensures Data(j, Step(j, s, w))
  {
    hide Right, Same, WorkerOk, TableOk, Filler, Todo;
    var s' := Step(j, s, w);
    var x := s.workers[w].round;
    var e := EntryOf(j, x, w);
    PartitionExact(|j.a|, |j.b|, j.t, x, w + 1);
    SkipsMeansNoWork(j, x, w);
    forall y | TableCell(j, x, y) && Filler(j, x, y) == w
      ensures !Past(j, s'.workers[w], w, x, y)
    {
      FillerRows(j, x, y);
    }
    SameTable(j, s, s', w);
    OneWorkerData(j, s, s', w);
  }

  /** The test for "nothing to do" is exact. */
  lemma SkipsMeansNoWork(j: Job, x: nat, w: nat)
    requires ValidJob(j) && x < Rounds(j) && w < j.t
    ensures Skips(EntryOf(j, x, w), w) <==> w + 1 > Needed(Size(|j.a|, |j.b|, x), j.t)
  {
    PartitionExact(|j.a|, |j.b|, j.t, x, w + 1);
    TodoValue(|j.a|, |j.b|, j.t, x, w + 1);
    hide Todo;
    var e := EntryOf(j, x, w);
    if Skips(e, w) { assert e == NO_WORK; }
  }

  /** The loop guard and the three reads of one cell. */
  lemma ReadData(j: Job, s: State, w: nat)
    requires ValidJob(j) && Control(j, s) && Data(j, s) && w < j.t
    requires s.workers[w].round < Rounds(j) && s.workers[w].pc.Fill? && |s.workers[w].pc.read| < 3
    ensures Data(j, Step(j, s, w))
  {
    hide Right, WorkerOk, TableOk, Filler, Todo, Cached;
    var s' := Step(j, s, w);
    var x := s.workers[w].round;
    var e := EntryOf(j, x, w);
    var y := e.startRow + s.workers[w].pc.pos;
    assert ReadOk(j, s.workers[w], w);
    ReadIsRight(j, s, w, x as int - 1, y);
    ReadIsRight(j, s, w, x as int - 1, y - 1);
    ReadIsRight(j, s, w, x as int - 2, y - 1);
    if y <= e.endRow { OwnCell(j, x, w, y); }
    forall y' | TableCell(j, x, y') && Filler(j, x, y') == w
      ensures Past(j, s.workers[w], w, x, y') <==> Past(j, s'.workers[w], w, x, y')
    {
      FillerRows(j, x, y');
    }
    SameTable(j, s, s', w);
    OneWorkerData(j, s, s', w);
  }

  /** The write: exactly one new cell, with its right value. */
  lemma WriteData(j: Job, s: State, w: nat)
    requires ValidJob(j) && Control(j, s) && Data(j, s) && w < j.t
    requires s.workers[w].round < Rounds(j) && s.workers[w].pc.Fill? && |s.workers[w].pc.read| >= 3
    ensures Data(j, Step(j, s, w))
  {
    hide Right, WorkerOk, Filler, Todo, Same;
    var s' := Step(j, s, w);
    var x := s.workers[w].round;
    var y := EntryOf(j, x, w).startRow + s.workers[w].pc.pos;
    assert ReadOk(j, s.workers[w], w);
    OwnCell(j, x, w, y);
    assert s'.cache == s.cache[(x, y) := Right(j, x, y)];
    forall x', y' ensures Filled(j, s', x', y') <==> Filled(j, s, x', y') || (x' == x && y' == y) {
      if x' >= 0 && TableCell(j, x', y') && Filler(j, x', y') != w {
        assert s'.workers[Filler(j, x', y')] == s.workers[Filler(j, x', y')];
      }
    }
    OneWorkerData(j, s, s', w);
  }

  lemma BarrierData(j: Job, s: State, w: nat)
    requires ValidJob(j) && Control(j, s) && Data(j, s) && w < j.t
    requires s.workers[w].round < Rounds(j) && !s.workers[w].pc.Load? && !s.workers[w].pc.Fill?
    ensures Data(j, Step(j, s, w))
  {
    hide Right, WorkerOk, TableOk, Filler, EntryOf;
    var s' := Step(j, s, w);
    SameTable(j, s, s', w);
    OneWorkerData(j, s, s', w);
  }

  lemma StepData(j: Job, s: State, w: nat)
    requires ValidJob(j) && Control(j, s) && Data(j, s) && w < j.t
    ensures Control(j, Step(j, s, w)) && Data(j, Step(j, s, w))
  {
    hide Data, TableOk, ReadOk, WorkerOk, FillStep;
    StepControl(j, s, w);
    if s.workers[w].round < Rounds(j) {
      if s.workers[w].pc.Load? {
        LoadData(j, s, w);
      } else if s.workers[w].pc.Fill? {
        ReadLength(j, s, w);
        if |s.workers[w].pc.read| < 3 { ReadData(j, s, w); } else { WriteData(j, s, w); }
      } else {
        BarrierData(j, s, w);
      }
    }
  }

  lemma ReadLength(j: Job, s: State, w: nat)
    requires ValidJob(j) && WellSized(j, s) && Data(j, s) && w < j.t
    requires s.workers[w].pc.Fill? && s.workers[w].round < Rounds(j)
    ensures |s.workers[w].pc.read| <= 3
  {
    assert ReadOk(j, s.workers[w], w);
  }

  // ----- the theorems

  ghost predicate ValidSchedule(j: Job, schedule: seq<nat>) {
    ValidJob(j) && forall k :: 0 <= k < |schedule| ==> schedule[k] < j.t
  }

  /** Every state of every schedule satisfies both invariants. */
  lemma {:induction false} Reachable(j: Job, schedule: seq<nat>)
    requires ValidSchedule(j, schedule)
    ensures Control(j, Run(j, schedule)) && Data(j, Run(j, schedule))
    decreases |schedule|
  {
    if schedule == [] {
      InitialControl(j);
      InitialData(j);
    } else {
      var m := |schedule| - 1;
      Reachable(j, schedule[..m]);
      StepData(j, Run(j, schedule[..m]), schedule[m]);
    }
  }

  lemma InitialData(j: Job)
    requires ValidJob(j)
    ensures Data(j, Initial(j))
  {
    var s := Initial(j);
    forall w: nat | w < j.t ensures s.workers[w] == Worker(0, Load) {}
  }

  /** When every worker has returned, every cell holds its right value. */
  lemma AllFilled(j: Job, s: State, x: int, y: int)
    requires ValidJob(j) && WellSized(j, s) && TableOk(j, s) && TableCell(j, x, y)
    requires forall w: nat :: w < j.t ==> Done(j, s, w)
    ensures Cached(s, x, y) == Cell(j.a, j.b, y, x - y)
  {
    hide Cell, Owner;
    assert Done(j, s, Filler(j, x, y));
    assert Filled(j, s, x, y);
  }

  /** The answer main prints is right under every interleaving: once every worker
      has returned, the last table cell is the length of a longest common
      subsequence of the two strings. */
  lemma ParallelLcs(j: Job, schedule: seq<nat>)
    requires ValidSchedule(j, schedule)
    requires forall w: nat :: w < j.t ==> Done(j, Run(j, schedule), w)
    ensures IsLcsLength(j.a, j.b, Cached(Run(j, schedule), |j.a| + |j.b| - 2, |j.a| - 1))
  {
    hide Run, Cell, IsLcsLength, TableOk, Control, Done, Cached;
    Reachable(j, schedule);
    var (n, m) := (|j.a|, |j.b|);
    AllFilled(j, Run(j, schedule), n + m - 2, n - 1);
    CellIsLcs(j.a, j.b, n - 1, m - 1);
    assert j.a[..n] == j.a && j.b[..m] == j.b;
  }

  /** No worker computes in one round while another still computes in another. */
  lemma BarrierSeparatesRounds(j: Job, schedule: seq<nat>, v: nat, w: nat)
    requires ValidSchedule(j, schedule) && v < j.t && w < j.t
    requires var s := Run(j, schedule); !Waiting(s.workers[v].pc) && !Waiting(s.workers[w].pc)
    ensures Run(j, schedule).workers[v].round == Run(j, schedule).workers[w].round
  {
    Reachable(j, schedule);
    var s := Run(j, schedule);
    assert WorkerOk(j, s, v) && WorkerOk(j, s, w);
  }

  /** The reset loses no increment: at that moment every worker has counted itself
      in this round and none is on its way to count. */
  lemma ResetLosesNothing(j: Job, schedule: seq<nat>, w: nat)
    requires ValidSchedule(j, schedule) && w < j.t && Run(j, schedule).workers[0].pc == Reset
    requires !Done(j, Run(j, schedule), 0)
    ensures var s := Run(j, schedule);
            s.finished == j.t && Waiting(s.workers[w].pc) && s.workers[w].round == s.workers[0].round
  {
    Reachable(j, schedule);
    var s := Run(j, schedule);
    ArrivalsBound(s.workers, Resets(s), j.t);
    assert WorkerOk(j, s, w) && WorkerOk(j, s, 0);
    assert Arrived(s.workers[w]) == Resets(s) + 1;
  }

  /** A flag is only ever raised while it is down and its worker waits for it, in
      worker 1's own round: once per round and worker. */
  lemma RaisedOncePerRound(j: Job, schedule: seq<nat>)
    requires ValidSchedule(j, schedule) && !Done(j, Run(j, schedule), 0)
    requires var pc := Run(j, schedule).workers[0].pc; pc.Raise? && pc.i < j.t
    ensures var s := Run(j, schedule);
            var k := s.workers[0].pc.i;
            s.canRun[k] == 0 && Waiting(s.workers[k].pc) && s.workers[k].round == s.workers[0].round
  {
    Reachable(j, schedule);
    RaiseTarget(j, Run(j, schedule), Run(j, schedule).workers[0].pc.i);
  }

  /** The step of worker w would change the state. */
  predicate CanMove(j: Job, s: State, w: nat)
    requires ValidJob(j) && WellSized(j, s) && w < j.t
  {
    && s.workers[w].round < Rounds(j)
    && !(s.workers[w].pc == Await && s.finished < j.t)
    && !(s.workers[w].pc == Spin && s.canRun[w] == 0)
  }

  /** No deadlock: while some worker has not returned, some worker can move. */
  lemma NoDeadlock(j: Job, schedule: seq<nat>, v: nat)
    requires ValidSchedule(j, schedule) && v < j.t && !Done(j, Run(j, schedule), v)
    ensures exists w: nat :: w < j.t && CanMove(j, Run(j, schedule), w)
  {
    Reachable(j, schedule);
    var s := Run(j, schedule);
    assert WorkerOk(j, s, 0) && WorkerOk(j, s, v);
    ArrivalsBound(s.workers, Resets(s), j.t);
    if CanMove(j, s, 0) {
    } else if s.workers[0].pc == Await {
      var w: nat :| w < j.t && Arrived(s.workers[w]) != Resets(s) + 1;
      assert WorkerOk(j, s, w);
      assert CanMove(j, s, w);
    } else {
      assert CanMove(j, s, v);
    }
  }

  // ----- termination

  /** More than the number of moves any worker makes in one round. */
  function RoundCost(j: Job): nat {
    4 * |j.a| + j.t + 11
  }

  function Stage(j: Job, pc: Pc): nat {
    match pc
    case Load => 0
    case Fill(pos, read) => 1 + 4 * pos + |read|
    case Lower => 4 * |j.a| + 5
    case Count => 4 * |j.a| + 6
    case Await => 4 * |j.a| + 7
    case Reset => 4 * |j.a| + 8
    case Raise(i) => 4 * |j.a| + 9 + i
    case Spin => 4 * |j.a| + j.t + 10
  }

  function Progress(j: Job, me: Worker): nat {
    me.round * RoundCost(j) + Stage(j, me.pc)
  }

  function TotalProgress(j: Job, ws: seq<Worker>): nat {
    if ws == [] then 0 else TotalProgress(j, ws[..|ws| - 1]) + Progress(j, ws[|ws| - 1])
  }

  /** How many entries of the schedule really moved their worker. */
  function Moves(j: Job, schedule: seq<nat>): nat
    requires ValidJob(j) && forall k :: 0 <= k < |schedule| ==> schedule[k] < j.t
  {
    if schedule == [] then 0
    else
      var m := |schedule| - 1;
      Moves(j, schedule[..m]) + if CanMove(j, Run(j, schedule[..m]), schedule[m]) then 1 else 0
  }

  /** Inside its block, the loop position stays below the row count. */
  lemma FillBound(j: Job, x: nat, w: nat, pos: nat, read: seq<int>)
    requires ValidJob(j) && x < Rounds(j) && w < j.t && FillOk(j, x, w, pos, read)
    ensures pos <= |j.a| && |read| <= 3 && (read != [] ==> pos < |j.a|)
  {
    hide Right, Same, Todo;
    var e := EntryOf(j, x, w);
    PartitionExact(|j.a|, |j.b|, j.t, x, w + 1);
    assert Owns(|j.a|, |j.b|, j.t, x, e.startRow, w + 1);
    assert Owns(|j.a|, |j.b|, j.t, x, e.endRow, w + 1);
  }

  lemma StageBound(j: Job, s: State, w: nat)
    requires ValidJob(j) && Control(j, s) && Data(j, s) && w < j.t
    ensures s.workers[w].round <= Rounds(j)
    ensures !Done(j, s, w) ==> Stage(j, s.workers[w].pc) < RoundCost(j)
    ensures !Done(j, s, w) && s.workers[w].pc.Fill? ==>
              Stage(j, s.workers[w].pc) <= 4 * |j.a| + 1 && |s.workers[w].pc.read| <= 3
    ensures Done(j, s, w) ==> s.workers[w].pc == Load
  {
    hide TableOk, FillOk;
    assert WorkerOk(j, s, w);
    var me := s.workers[w];
    if !Done(j, s, w) && me.pc.Fill? {
      assert ReadOk(j, me, w);
      FillBound(j, me.round, w, me.pc.pos, me.pc.read);
    }
  }

  /** A move carries its worker forward and leaves the others where they are. */
  lemma MoveAdvances(j: Job, s: State, w: nat)
    requires ValidJob(j) && Control(j, s) && Data(j, s) && w < j.t && CanMove(j, s, w)
    ensures Progress(j, Step(j, s, w).workers[w]) > Progress(j, s.workers[w])
    ensures Step(j, s, w).workers == s.workers[w := Step(j, s, w).workers[w]]
  {
    hide WorkerOk, Data, EntryOf, Cached;
    StageBound(j, s, w);
    WaitingIsLeader(j, s, w);
    assert (s.workers[w].round + 1) * RoundCost(j) == s.workers[w].round * RoundCost(j) + RoundCost(j);
  }

  lemma {:induction false} TotalUpdate(j: Job, ws: seq<Worker>, w: nat, me: Worker)
    requires w < |ws|
    ensures TotalProgress(j, ws[w := me]) == TotalProgress(j, ws) + Progress(j, me) - Progress(j, ws[w])
  {
    var m := |ws| - 1;
    if w == m {
      assert ws[w := me][..m] == ws[..m];
    } else {
      TotalUpdate(j, ws[..m], w, me);
      assert ws[w := me][..m] == ws[..m][w := me];
    }
  }

  lemma {:induction false} TotalBound(j: Job, ws: seq<Worker>)
    requires ValidJob(j) && forall w :: 0 <= w < |ws| ==> Progress(j, ws[w]) <= Rounds(j) * RoundCost(j)
    ensures TotalProgress(j, ws) <= |ws| * (Rounds(j) * RoundCost(j))
  {
    if ws != [] {
      TotalBound(j, ws[..|ws| - 1]);
      assert |ws| * (Rounds(j) * RoundCost(j)) == (|ws| - 1) * (Rounds(j) * RoundCost(j)) + Rounds(j) * RoundCost(j);
    }
  }

  /** The last entry of a schedule. */
  lemma LastMove(j: Job, schedule: seq<nat>)
    requires ValidSchedule(j, schedule) && schedule != []
    ensures var m := |schedule| - 1;
            var s := Run(j, schedule[..m]);
            && ValidSchedule(j, schedule[..m]) && schedule[m] < j.t && WellSized(j, s)
            && Moves(j, schedule) == Moves(j, schedule[..m]) + (if CanMove(j, s, schedule[m]) then 1 else 0)
            && Run(j, schedule) == Step(j, s, schedule[m])
  {
    hide Step, CanMove, Control, Data;
  }

  lemma StuckStays(j: Job, s: State, w: nat)
    requires ValidJob(j) && WellSized(j, s) && w < j.t && !CanMove(j, s, w)
    ensures Step(j, s, w) == s
  {
  }

  /** Progress never falls, and pays for every move. */
  lemma {:induction false} MovesPaid(j: Job, schedule: seq<nat>)
    requires ValidSchedule(j, schedule)
    ensures Moves(j, schedule) <= TotalProgress(j, Run(j, schedule).workers)
    decreases |schedule|
  {
    hide Run, Step, CanMove, TotalProgress, Progress, Control, Data;
    if schedule != [] {
      var m := |schedule| - 1;
      LastMove(j, schedule);
      MovesPaid(j, schedule[..m]);
      var (s, w) := (Run(j, schedule[..m]), schedule[m]);
      if CanMove(j, s, w) { MoveIsPaid(j, schedule[..m], w); } else { StuckStays(j, s, w); }
    }
  }

  lemma MoveIsPaid(j: Job, schedule: seq<nat>, w: nat)
    requires ValidSchedule(j, schedule) && w < j.t && CanMove(j, Run(j, schedule), w)
    ensures TotalProgress(j, Step(j, Run(j, schedule), w).workers) > TotalProgress(j, Run(j, schedule).workers)
  {
    hide Step, CanMove, TotalProgress, Progress, Control, Data, Run;
    Reachable(j, schedule);
    var s := Run(j, schedule);
    MoveAdvances(j, s, w);
    TotalUpdate(j, s.workers, w, Step(j, s, w).workers[w]);
  }

  /** No schedule contains more than this many moves; with NoDeadlock, workers
      that keep being scheduled all return. */
  lemma BoundedMoves(j: Job, schedule: seq<nat>)
    requires ValidSchedule(j, schedule)
    ensures Moves(j, schedule) <= j.t * (Rounds(j) * RoundCost(j))
  {
    MovesPaid(j, schedule);
    Reachable(j, schedule);
    var s := Run(j, schedule);
    forall w: nat | w < j.t ensures Progress(j, s.workers[w]) <= Rounds(j) * RoundCost(j) {
      StageBound(j, s, w);
      ProgressBound(j, s.workers[w]);
    }
    TotalBound(j, s.workers);
  }

  lemma ProgressBound(j: Job, me: Worker)
    requires ValidJob(j) && me.round <= Rounds(j)
    requires if me.round == Rounds(j) then me.pc == Load else Stage(j, me.pc) < RoundCost(j)
    ensures Progress(j, me) <= Rounds(j) * RoundCost(j)
  {
    MulMonotone(if me.round < Rounds(j) then me.round + 1 else me.round, Rounds(j), RoundCost(j));
    assert (me.round + 1) * RoundCost(j) == me.round * RoundCost(j) + RoundCost(j);
  }
}
