/** The interrupt handler list of kernel/src/os.c: sorted insertion, dispatch, and the
    order that the scheduler's context slots rely on. */
module Irq {
  import opened Wrappers

  /** EVENT_NULL, which matches every event, and system calls; other numbers are the
      machine's remaining events. */
  const EVENT_NULL: nat := 0
  const EVENT_SYSCALL: nat := 2

  const MIN_SEQ: int := 0
  const MAX_SEQ: int := 10000

  datatype Handler = Handler(seqno: int, event: nat, id: nat)

  /** os_on_irq on values: before the first entry whose number is not smaller. */
  function Insert(hs: seq<Handler>, h: Handler): seq<Handler> {
    if hs == [] || hs[0].seqno >= h.seqno then [h] + hs else [hs[0]] + Insert(hs[1..], h)
  }

  predicate Matches(h: Handler, ev: nat) {
    h.event == EVENT_NULL || h.event == ev
  }

  /** The handlers an event reaches, in list order. */
  function Matching(hs: seq<Handler>, ev: nat): seq<Handler> {
    if hs == [] then []
    else (if Matches(hs[0], ev) then [hs[0]] else []) + Matching(hs[1..], ev)
  }

  /** What the handlers answer: None is NULL. */
  type Answers = Handler -> Option<nat>

  /** NeverReturns: the trap is still in the exit of a killed task. */
  datatype Outcome = Context(ctx: nat) | NoHandler | TwoContexts | NoContext | NeverReturns

  /** os_trap: the handlers in the list that run, and what comes back. A system call
      ends after its first handler; otherwise exactly one handler must answer. */
  function Dispatch(hs: seq<Handler>, ev: nat, ctx: nat, answers: Answers, next: Option<nat>): (seq<Handler>, Outcome) {
    if hs == [] then ([], if next.Some? then Context(next.value) else NoContext)
    else if !Matches(hs[0], ev) then Dispatch(hs[1..], ev, ctx, answers, next)
    else
      var r := answers(hs[0]);
      if ev == EVENT_SYSCALL then ([hs[0]], Context(ctx))
      else if r.Some? && next.Some? then ([hs[0]], TwoContexts)
      else
        var (ran, out) := Dispatch(hs[1..], ev, ctx, answers, if r.Some? then r else next);
        ([hs[0]] + ran, out)
  }

  // ----- what they mean

  predicate Ordered(hs: seq<Handler>) {
    forall i, j :: 0 <= i < j < |hs| ==> hs[i].seqno <= hs[j].seqno
  }

  lemma {:induction false} InsertAdds(hs: seq<Handler>, h: Handler)
    ensures multiset(Insert(hs, h)) == multiset(hs) + multiset{h}
    decreases |hs|
  {
    if hs != [] && hs[0].seqno < h.seqno {
      InsertAdds(hs[1..], h);
      assert hs == [hs[0]] + hs[1..];
    }
  }

  lemma {:induction false} InsertFrom(hs: seq<Handler>, h: Handler)
    ensures forall x :: x in Insert(hs, h) ==> x == h || x in hs
    decreases |hs|
  {
    if hs != [] && hs[0].seqno < h.seqno { InsertFrom(hs[1..], h); }
  }

  lemma OrderedTail(hs: seq<Handler>)
    requires Ordered(hs) && hs != []
    ensures Ordered(hs[1..]) && forall x :: x in hs[1..] ==> hs[0].seqno <= x.seqno
  {
  }

  lemma OrderedCons(h: Handler, hs: seq<Handler>)
    requires Ordered(hs) && forall x :: x in hs ==> h.seqno <= x.seqno
    ensures Ordered([h] + hs)
  {
  }

  /** The list stays sorted, and holds one handler more. */
  lemma {:induction false} InsertOrdered(hs: seq<Handler>, h: Handler)
    requires Ordered(hs)
    ensures Ordered(Insert(hs, h)) && multiset(Insert(hs, h)) == multiset(hs) + multiset{h}
    decreases |hs|
  {
    hide Ordered;
    InsertAdds(hs, h);
    if hs == [] {
      OrderedCons(h, []) by { NothingOrdered(); }
    } else {
      OrderedTail(hs);
      if hs[0].seqno < h.seqno {
        InsertFrom(hs[1..], h);
        InsertOrdered(hs[1..], h);
        OrderedCons(hs[0], Insert(hs[1..], h));
      } else {
        assert hs == [hs[0]] + hs[1..];
        OrderedCons(h, hs);
      }
    }
  }

  lemma NothingOrdered()
    ensures Ordered([])
  {
  }

  /** A handler for other events does not change what an event reaches. */
  lemma {:induction false} InsertOther(hs: seq<Handler>, h: Handler, ev: nat)
    requires !Matches(h, ev)
    ensures Matching(Insert(hs, h), ev) == Matching(hs, ev)
    decreases |hs|
  {
    if hs == [] || hs[0].seqno >= h.seqno {
      assert ([h] + hs)[1..] == hs;
    } else {
      InsertOther(hs[1..], h, ev);
      var rest := Insert(hs[1..], h);
      assert ([hs[0]] + rest)[1..] == rest;
    }
  }

  /** Every handler numbered up to the last one's number goes before it. */
  lemma {:induction false} InsertKeepsLast(hs: seq<Handler>, h: Handler)
    requires hs != [] && h.seqno <= hs[|hs| - 1].seqno
    ensures Insert(hs, h) != [] && Insert(hs, h)[|Insert(hs, h)| - 1] == hs[|hs| - 1]
    decreases |hs|
  {
    if hs[0].seqno < h.seqno {
      InsertKeepsLast(hs[1..], h);
    }
  }

  function Register(hs: seq<Handler>, more: seq<Handler>): seq<Handler>
    decreases |more|
  {
    if more == [] then hs else Insert(Register(hs, more[..|more| - 1]), more[|more| - 1])
  }

  /** The four handlers of kmt_init and uproc_init, in the order of their registration. */
  const SAVE: Handler := Handler(MIN_SEQ, EVENT_NULL, 0)
  const SCHEDULE: Handler := Handler(MAX_SEQ, EVENT_NULL, 1)
  const SYSCALL: Handler := Handler(0, EVENT_SYSCALL, 2)
  const PAGEFAULT: Handler := Handler(0, 3, 3)

  function Boot(): seq<Handler> {
    Register([], [SAVE, SCHEDULE, SYSCALL, PAGEFAULT])
  }

  lemma BootList()
    ensures Boot() == [PAGEFAULT, SYSCALL, SAVE, SCHEDULE]
  {
    assert [SAVE] + [SCHEDULE] == [SAVE, SCHEDULE] && [SAVE, SCHEDULE] + [SYSCALL] == [SAVE, SCHEDULE, SYSCALL];
    assert [SAVE, SCHEDULE, SYSCALL] + [PAGEFAULT] == [SAVE, SCHEDULE, SYSCALL, PAGEFAULT] && [] + [SAVE] == [SAVE];
    RegisterOne([], SAVE);
    RegisterOne([SAVE], SCHEDULE);
    RegisterOne([SAVE, SCHEDULE], SYSCALL);
    RegisterOne([SAVE, SCHEDULE, SYSCALL], PAGEFAULT);
    assert Register([], [SAVE, SCHEDULE]) == [SAVE, SCHEDULE] by {
      assert [SAVE][1..] == [];
      assert Insert([], SCHEDULE) == [SCHEDULE];
      assert Insert([SAVE], SCHEDULE) == [SAVE] + [SCHEDULE];
    }
    assert Register([], [SAVE, SCHEDULE, SYSCALL]) == [SYSCALL] + [SAVE, SCHEDULE];
  }

  lemma RegisterOne(hs: seq<Handler>, h: Handler)
    ensures Register([], hs + [h]) == Insert(Register([], hs), h)
  {
    assert (hs + [h])[..|hs|] == hs;
  }

  lemma MatchingCons(h: Handler, hs: seq<Handler>, ev: nat)
    ensures Matching([h] + hs, ev) == (if Matches(h, ev) then [h] else []) + Matching(hs, ev)
  {
    assert ([h] + hs)[1..] == hs;
  }

  /** Handlers a driver may add: for one event that is not a system call. */
  predicate Driver(h: Handler) {
    h.event != EVENT_NULL && h.event != EVENT_SYSCALL && h.seqno <= MAX_SEQ
  }

  /** Whatever drivers add later, a system call reaches its handler before the context
      save, the events that reach everyone save first and schedule afterwards, and the
      scheduler stays last in the list. */
  lemma {:induction false} BootOrder(more: seq<Handler>)
    requires forall k :: 0 <= k < |more| ==> Driver(more[k])
    ensures var hs := Register(Boot(), more);
            && Matching(hs, EVENT_SYSCALL) == [SYSCALL, SAVE, SCHEDULE]
            && Matching(hs, EVENT_NULL) == [SAVE, SCHEDULE]
            && hs != [] && hs[|hs| - 1] == SCHEDULE && Ordered(hs)
    decreases |more|
  {
    if more == [] {
      BootBase();
    } else {
      var (init, h) := (more[..|more| - 1], more[|more| - 1]);
      BootOrder(init);
      var hs := Register(Boot(), init);
      hide Insert, Matching, Ordered;
      InsertOther(hs, h, EVENT_SYSCALL);
      InsertOther(hs, h, EVENT_NULL);
      InsertKeepsLast(hs, h);
      InsertOrdered(hs, h);
    }
  }

  lemma BootBase()
    ensures var hs := Boot();
            && Matching(hs, EVENT_SYSCALL) == [SYSCALL, SAVE, SCHEDULE]
            && Matching(hs, EVENT_NULL) == [SAVE, SCHEDULE]
            && hs != [] && hs[|hs| - 1] == SCHEDULE && Ordered(hs)
  {
    hide Matching, Boot;
    BootList();
    NoneMatch(EVENT_NULL);
    NoneMatch(EVENT_SYSCALL);
    forall ev | ev == EVENT_NULL || ev == EVENT_SYSCALL
      ensures Matching(Boot(), ev) == (if ev == EVENT_SYSCALL then [SYSCALL] else []) + [SAVE, SCHEDULE]
    {
      MatchingCons(PAGEFAULT, [SYSCALL, SAVE, SCHEDULE], ev);
      MatchingCons(SYSCALL, [SAVE, SCHEDULE], ev);
      MatchingCons(SAVE, [SCHEDULE], ev);
      MatchingCons(SCHEDULE, [], ev);
      assert [PAGEFAULT] + [SYSCALL, SAVE, SCHEDULE] == Boot() && [SYSCALL] + [SAVE, SCHEDULE] == [SYSCALL, SAVE, SCHEDULE];
      assert [SAVE] + [SCHEDULE] == [SAVE, SCHEDULE] && [SCHEDULE] + [] == [SCHEDULE];
    }
  }

  lemma NoneMatch(ev: nat)
    ensures Matching([], ev) == []
  {
  }

  /** A trap runs matching handlers only, in list order; all of them unless it is a
      system call or two of them answer. */
  lemma {:induction false} DispatchRuns(hs: seq<Handler>, ev: nat, ctx: nat, answers: Answers, next: Option<nat>)
    ensures var (ran, out) := Dispatch(hs, ev, ctx, answers, next);
            && ran <= Matching(hs, ev)
            && (ev == EVENT_SYSCALL && Matching(hs, ev) != [] ==> ran == [Matching(hs, ev)[0]] && out == Context(ctx))
            && (ev == EVENT_SYSCALL && Matching(hs, ev) == [] ==> ran == [] && out == if next.Some? then Context(next.value) else NoContext)
            && (ev != EVENT_SYSCALL && out != TwoContexts ==> ran == Matching(hs, ev))
    decreases |hs|
  {
    if hs != [] {
      var r := answers(hs[0]);
      DispatchRuns(hs[1..], ev, ctx, answers, next);
      DispatchRuns(hs[1..], ev, ctx, answers, if r.Some? then r else next);
    }
  }

  /** The answers of handlers, in order. */
  function Replies(ms: seq<Handler>, answers: Answers): (rs: seq<Option<nat>>)
    ensures |rs| == |ms| && forall i :: 0 <= i < |ms| ==> rs[i] == answers(ms[i])
  {
    seq(|ms|, i requires 0 <= i < |ms| => answers(ms[i]))
  }

  /** None is a context. */
  predicate NoneAnswers(rs: seq<Option<nat>>) {
    forall i :: 0 <= i < |rs| ==> rs[i] == None
  }

  /** Only the i-th is, namely x. */
  predicate OnlyAt(rs: seq<Option<nat>>, i: nat, x: nat) {
    i < |rs| && rs[i] == Some(x) && forall j :: 0 <= j < |rs| && j != i ==> rs[j] == None
  }

  /** Exactly one is, namely x. */
  ghost predicate OneAnswers(rs: seq<Option<nat>>, x: nat) {
    exists i: nat :: OnlyAt(rs, i, x)
  }

  predicate TwoAnswer(rs: seq<Option<nat>>) {
    exists i, j :: 0 <= i < j < |rs| && rs[i].Some? && rs[j].Some?
  }

  lemma NoneCons(rs: seq<Option<nat>>)
    requires rs != []
    ensures NoneAnswers(rs) <==> rs[0] == None && NoneAnswers(rs[1..])
  {
    if NoneAnswers(rs[1..]) && rs[0] == None {
      forall i | 0 <= i < |rs| ensures rs[i] == None { assert i > 0 ==> rs[1..][i - 1] == rs[i]; }
    }
  }

  lemma OnlyCons(rs: seq<Option<nat>>, i: nat, x: nat)
    requires rs != []
    ensures OnlyAt(rs, i, x) <==> if i == 0 then rs[0] == Some(x) && NoneAnswers(rs[1..]) else rs[0] == None && OnlyAt(rs[1..], i - 1, x)
  {
    var rest := rs[1..];
    assert forall k :: 0 <= k < |rest| ==> rest[k] == rs[k + 1];
    if i > 0 && OnlyAt(rest, i - 1, x) && rs[0] == None {
      forall j | 0 <= j < |rs| && j != i ensures rs[j] == None { assert j > 0 ==> rest[j - 1] == rs[j]; }
    }
    if i == 0 && rs[0].Some? && NoneAnswers(rest) {
      forall j | 0 <= j < |rs| && j != i ensures rs[j] == None { assert rest[j - 1] == rs[j]; }
    }
  }

  lemma OneCons(rs: seq<Option<nat>>, x: nat)
    requires rs != []
    ensures OneAnswers(rs, x) <==> (rs[0] == Some(x) && NoneAnswers(rs[1..])) || (rs[0] == None && OneAnswers(rs[1..], x))
  {
    hide OnlyAt, NoneAnswers;
    if OneAnswers(rs, x) {
      var i: nat :| OnlyAt(rs, i, x);
      OnlyCons(rs, i, x);
    }
    if rs[0] == Some(x) && NoneAnswers(rs[1..]) { OnlyCons(rs, 0, x); }
    if rs[0] == None && OneAnswers(rs[1..], x) {
      var i: nat :| OnlyAt(rs[1..], i, x);
      OnlyCons(rs, i + 1, x);
    }
  }

  lemma TwoCons(rs: seq<Option<nat>>)
    requires rs != []
    ensures TwoAnswer(rs) <==> (rs[0].Some? && !NoneAnswers(rs[1..])) || TwoAnswer(rs[1..])
  {
    var rest := rs[1..];
    if TwoAnswer(rs) {
      var i, j :| 0 <= i < j < |rs| && rs[i].Some? && rs[j].Some?;
      assert rest[j - 1] == rs[j] && (i > 0 ==> rest[i - 1] == rs[i]);
    }
    if rs[0].Some? && !NoneAnswers(rest) {
      var j :| 0 <= j < |rest| && rest[j] != None;
      assert rs[j + 1] == rest[j];
    }
    if TwoAnswer(rest) {
      var i, j :| 0 <= i < j < |rest| && rest[i].Some? && rest[j].Some?;
      assert rs[i + 1] == rest[i] && rs[j + 1] == rest[j];
    }
  }

  /** What the rest of the walk returns, given what came before it. */
  lemma {:induction false} WalkExact(hs: seq<Handler>, ev: nat, ctx: nat, answers: Answers, next: Option<nat>)
    requires ev != EVENT_SYSCALL
    ensures var (rs, out) := (Replies(Matching(hs, ev), answers), Dispatch(hs, ev, ctx, answers, next).1);
            && (out == NoContext <==> next == None && NoneAnswers(rs))
            && (forall x: nat :: out == Context(x) <==>
                 (next == Some(x) && NoneAnswers(rs)) || (next == None && OneAnswers(rs, x)))
            && (out == TwoContexts <==> (next.Some? && !NoneAnswers(rs)) || TwoAnswer(rs))
    decreases |hs|
  {
    hide NoneAnswers, OneAnswers, TwoAnswer;
    if hs == [] {
      NobodyAnswers();
    } else {
      var (r, rest) := (answers(hs[0]), Replies(Matching(hs[1..], ev), answers));
      WalkExact(hs[1..], ev, ctx, answers, next);
      WalkExact(hs[1..], ev, ctx, answers, if r.Some? then r else next);
      var rs := Replies(Matching(hs, ev), answers);
      if Matches(hs[0], ev) {
        assert rs == [r] + rest && rs[1..] == rest;
        NoneCons(rs);
        TwoCons(rs);
        forall x: nat ensures OneAnswers(rs, x) <==> (r == Some(x) && NoneAnswers(rest)) || (r == None && OneAnswers(rest, x)) {
          OneCons(rs, x);
        }
        if TwoAnswer(rest) { TwoIsSome(rest); }
        forall x: nat | OneAnswers(rest, x) ensures !NoneAnswers(rest) { OneIsSome(rest, x); }
      } else {
        assert [] + Matching(hs[1..], ev) == Matching(hs[1..], ev);
      }
    }
  }

  lemma NobodyAnswers()
    ensures NoneAnswers([]) && !TwoAnswer([]) && forall x: nat :: !OneAnswers([], x)
  {
  }

  lemma TwoIsSome(rs: seq<Option<nat>>)
    requires TwoAnswer(rs)
    ensures !NoneAnswers(rs) && forall x: nat :: !OneAnswers(rs, x)
  {
    var i, j :| 0 <= i < j < |rs| && rs[i].Some? && rs[j].Some?;
  }

  lemma OneIsSome(rs: seq<Option<nat>>, x: nat)
    requires OneAnswers(rs, x)
    ensures !NoneAnswers(rs)
  {
  }

  /** What comes back from an event other than a system call: a context exactly when one
      handler that the event reaches answers, and then that handler's answer. */
  lemma DispatchAnswers(hs: seq<Handler>, ev: nat, ctx: nat, answers: Answers)
    requires ev != EVENT_SYSCALL
    ensures var (rs, out) := (Replies(Matching(hs, ev), answers), Dispatch(hs, ev, ctx, answers, None).1);
            && (forall x: nat :: out == Context(x) <==> OneAnswers(rs, x))
            && (out == NoContext <==> NoneAnswers(rs)) && (out == TwoContexts <==> TwoAnswer(rs))
  {
    hide Matching, Dispatch, NoneAnswers, OneAnswers, TwoAnswer;
    WalkExact(hs, ev, ctx, answers, None);
  }

  /** A trap's outcome in terms of the handlers ms that the event reaches: a system call
      runs the first and returns the interrupted context; any other event runs them all,
      until a second one answers, and returns what the only answering one answers. */
  ghost predicate Answered(ms: seq<Handler>, ev: nat, ctx: nat, answers: Answers, out: Outcome, ran: seq<Handler>) {
    if ev == EVENT_SYSCALL then
      if ms == [] then ran == [] && out == NoContext else ran == [ms[0]] && out == Context(ctx)
    else
      && (forall x: nat :: out == Context(x) <==> OneAnswers(Replies(ms, answers), x))
      && (out == NoContext <==> NoneAnswers(Replies(ms, answers)))
      && (out == TwoContexts <==> TwoAnswer(Replies(ms, answers)))
      && ran <= ms && (out != TwoContexts ==> ran == ms)
  }

  lemma DispatchAnswered(hs: seq<Handler>, ev: nat, ctx: nat, answers: Answers)
    ensures var (ran, out) := Dispatch(hs, ev, ctx, answers, None);
            Answered(Matching(hs, ev), ev, ctx, answers, out, ran)
  {
    hide Matching, Dispatch, NoneAnswers, OneAnswers, TwoAnswer;
    DispatchRuns(hs, ev, ctx, answers, None);
    if ev != EVENT_SYSCALL { DispatchAnswers(hs, ev, ctx, answers); }
  }

  /** Which handlers an event reaches: those that listen to it or to everything. */
  lemma {:induction false} MatchingIs(hs: seq<Handler>, ev: nat)
    ensures forall h: Handler :: h in Matching(hs, ev) <==> h in hs && (h.event == EVENT_NULL || h.event == ev)
    decreases |hs|
  {
    if hs != [] { MatchingIs(hs[1..], ev); }
  }

  /** And it reaches them in the order of the list. */
  lemma {:induction false} MatchingInOrder(xs: seq<Handler>, ys: seq<Handler>, ev: nat)
    ensures Matching(xs + ys, ev) == Matching(xs, ev) + Matching(ys, ev)
    decreases |xs|
  {
    hide Matching, Matches;
    if xs == [] {
      NoneMatch(ev);
      assert xs + ys == ys && [] + Matching(ys, ev) == Matching(ys, ev);
    } else {
      MatchingInOrder(xs[1..], ys, ev);
      MatchingCons(xs[0], xs[1..], ev);
      MatchingCons(xs[0], xs[1..] + ys, ev);
      assert [xs[0]] + xs[1..] == xs && [xs[0]] + (xs[1..] + ys) == xs + ys;
    }
  }

  /** So a system call saves no context and never reschedules by itself. */
  lemma SyscallSavesNothing(more: seq<Handler>, ctx: nat, answers: Answers)
    requires forall k :: 0 <= k < |more| ==> Driver(more[k])
    ensures Dispatch(Register(Boot(), more), EVENT_SYSCALL, ctx, answers, None) == ([SYSCALL], Context(ctx))
  {
    BootOrder(more);
    DispatchRuns(Register(Boot(), more), EVENT_SYSCALL, ctx, answers, None);
  }

  // ----- the list in memory

  class IrqNode {
    const handler: Handler
    var next: IrqNode?

    constructor (handler: Handler)
      ensures this.handler == handler && next == null
    {
      this.handler, this.next := handler, null;
    }
  }

  ghost function HandlersOf(nodes: seq<IrqNode>): (hs: seq<Handler>)
    ensures |hs| == |nodes| && forall i :: 0 <= i < |hs| ==> hs[i] == nodes[i].handler
  {
    seq(|nodes|, i requires 0 <= i < |nodes| => nodes[i].handler)
  }

  lemma HandlersSpliced(before: seq<IrqNode>, after: seq<IrqNode>, node: IrqNode, k: nat)
    requires k <= |before| && after == before[..k] + [node] + before[k..]
    ensures HandlersOf(after) == HandlersOf(before)[..k] + [node.handler] + HandlersOf(before)[k..]
  {
  }

  class Os {
    var irqHead: IrqNode?
    ghost var nodes: seq<IrqNode>

    ghost function Node(i: int): IrqNode?
      reads this
    {
      if 0 <= i < |nodes| then nodes[i] else null
    }

    ghost predicate Valid()
      reads this, nodes
    {
      && irqHead == Node(0)
      && (forall i {:trigger nodes[i].next} :: 0 <= i < |nodes| ==> nodes[i].next == Node(i + 1))
      && NoRepeats(nodes)
    }

    ghost function Handlers(): seq<Handler>
      reads this
    {
      HandlersOf(nodes)
    }

    constructor ()
      ensures Valid() && nodes == []
    {
      irqHead, nodes := null, [];
    }

    lemma Empty()
      requires Valid() && irqHead == null
      ensures nodes == []
    {
    }

    lemma NotEmpty()
      requires Valid() && irqHead != null
      ensures nodes != [] && irqHead == nodes[0]
    {
    }

    lemma At(k: nat)
      requires Valid() && k < |nodes|
      ensures nodes[k].next == Node(k + 1) && irqHead == nodes[0]
    {
    }

    /** The walk of os_on_irq past the head: the last node with a smaller number. */
    method FindPrev(h: Handler) returns (cur: IrqNode, ghost k: nat)
      requires Valid() && nodes != [] && nodes[0].handler.seqno < h.seqno
      ensures cur in nodes && cur.handler.seqno < h.seqno
      ensures k < |nodes| && cur == nodes[k] && (k + 1 < |nodes| ==> nodes[k + 1].handler.seqno >= h.seqno)
      ensures forall i :: 0 <= i <= k ==> nodes[i].handler.seqno < h.seqno
    {
      hide Valid;
      At(0);
      cur, k := irqHead, 0;
      while cur.next != null
        invariant 0 <= k < |nodes| && cur == nodes[k] && cur.next == Node(k + 1)
        invariant forall i :: 0 <= i <= k ==> nodes[i].handler.seqno < h.seqno
        decreases |nodes| - k
      {
        if cur.next.handler.seqno >= h.seqno { return; }
        At(k + 1);
        cur := cur.next;
        k := k + 1;
      }
    }

    /** os_on_irq */
    method OnIrq(h: Handler)
      requires Valid()
      modifies this, nodes
      ensures Valid() && Handlers() == Insert(old(Handlers()), h)
      ensures forall n :: n in nodes ==> n in old(nodes) || fresh(n)
    {
      hide Insert, Valid, HandlersOf;
      var newHandler := new IrqNode(h);
      ghost var (ns, hs) := (nodes, Handlers());
      if irqHead == null {
        Empty();
        InsertAt(hs, h, 0);
        LinkFirst(newHandler);
        assert nodes == ns[..0] + [newHandler] + ns[0..];
        HandlersSpliced(ns, nodes, newHandler, 0);
        return;
      }
      NotEmpty();
      if irqHead.handler.seqno >= h.seqno {
        InsertAt(hs, h, 0);
        LinkFirst(newHandler);
        assert nodes == ns[..0] + [newHandler] + ns[0..];
        HandlersSpliced(ns, nodes, newHandler, 0);
        return;
      }
      ghost var k;
      var cur;
      cur, k := FindPrev(h);
      InsertAt(hs, h, k + 1);
      LinkAfter(cur, newHandler, k);
      HandlersSpliced(ns, nodes, newHandler, k + 1);
    }

    method LinkFirst(newHandler: IrqNode)
      requires Valid() && newHandler !in nodes && newHandler.next == null
      modifies this`irqHead, this`nodes, newHandler
      ensures Valid() && nodes == [newHandler] + old(nodes)
    {
      newHandler.next := irqHead;
      irqHead := newHandler;
      nodes := [newHandler] + nodes;
    }

    method LinkAfter(cur: IrqNode, newHandler: IrqNode, ghost k: nat)
      requires Valid() && k < |nodes| && cur == nodes[k] && newHandler !in nodes && newHandler.next == null
      modifies this`nodes, nodes, newHandler
      ensures Valid() && nodes == old(nodes)[..k + 1] + [newHandler] + old(nodes)[k + 1..]
    {
      newHandler.next := cur.next;
      cur.next := newHandler;
      nodes := nodes[..k + 1] + [newHandler] + nodes[k + 1..];
    }

    /** os_trap. For a killed task it calls uproc->exit first, and goes on as for any
        other only if that returns (exitReturns). */
    method Trap(ev: nat, ctx: nat, killed: bool, exitReturns: bool, answers: Answers)
      returns (out: Outcome, ghost ran: seq<Handler>)
      requires Valid()
      ensures killed && !exitReturns ==> out == NeverReturns && ran == []
      ensures (!killed || exitReturns) && nodes == [] ==> out == NoHandler
      ensures (!killed || exitReturns) && nodes != [] ==> ran == Dispatch(Handlers(), ev, ctx, answers, None).0
      ensures (!killed || exitReturns) && nodes != [] ==> out == Dispatch(Handlers(), ev, ctx, answers, None).1
      ensures (!killed || exitReturns) && nodes != [] ==> Answered(Matching(Handlers(), ev), ev, ctx, answers, out, ran)
    {
      DispatchAnswered(Handlers(), ev, ctx, answers);
      hide Matching, Answered, NoRepeats;
      ran := [];
      if killed {
        if !exitReturns { return NeverReturns, []; }
      }
      if irqHead == null { return NoHandler, []; }
      var next := None;
      var irq := irqHead;
      ghost var (k, hs) := (0, Handlers());
      assert hs[0..] == hs;
      while irq != null
        invariant 0 <= k <= |nodes| && irq == Node(k)
        invariant Dispatch(hs, ev, ctx, answers, None).0 == ran + Dispatch(hs[k..], ev, ctx, answers, next).0
        invariant Dispatch(hs, ev, ctx, answers, None).1 == Dispatch(hs[k..], ev, ctx, answers, next).1
        decreases |nodes| - k
      {
        assert hs[k..][0] == irq.handler && hs[k..][1..] == hs[k + 1..];
        if irq.handler.event == EVENT_NULL || irq.handler.event == ev {
          var r := answers(irq.handler);
          ran := ran + [irq.handler];
          if ev == EVENT_SYSCALL { return Context(ctx), ran; }
          if r.Some? && next.Some? { return TwoContexts, ran; }
          if r.Some? { next := r; }
        }
        irq := irq.next;
        k := k + 1;
      }
      out := if next.Some? then Context(next.value) else NoContext;
    }
  }

  /** Where the walk stops is where Insert puts the handler. */
  lemma {:induction false} InsertAt(hs: seq<Handler>, h: Handler, k: nat)
    requires k <= |hs| && (forall i :: 0 <= i < k ==> hs[i].seqno < h.seqno)
    requires k < |hs| ==> hs[k].seqno >= h.seqno
    ensures Insert(hs, h) == hs[..k] + [h] + hs[k..]
    decreases k
  {
    if k > 0 {
      InsertAt(hs[1..], h, k - 1);
      assert hs[..k] == [hs[0]] + hs[1..][..k - 1] && hs[1..][k - 1..] == hs[k..];
    }
  }
}
