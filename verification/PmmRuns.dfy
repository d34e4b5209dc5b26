/** The whole allocator over whole schedules: pmm_init, then any allocations, releases and
    writes by the owners of what was allocated, on any CPUs. */
module PmmRuns {
  import opened Wrappers
  import opened Powers
  import opened BuddyTree
  import opened BuddyHeap
  import opened Slabs
  import opened Pmm

  /** What the allocator's clients do: a request, with the tree locks other CPUs hold;
      the release of the i-th outstanding allocation; a write to its byte off. */
  datatype Act = Take(cpu: nat, size: nat, busy: set<nat>) | Release(i: nat) | Store(i: nat, off: nat, v: nat)

  /** An outstanding allocation: what was asked for and answered, and what its owner has
      written to it, by offset. */
  datatype Held = Held(ptr: nat, size: nat, data: map<nat, nat>)

  /** The clients' book, which knows nothing of the allocator but its answer. */
  function After(book: seq<Held>, act: Act, answer: nat): seq<Held> {
    match act
    case Take(_, size, _) => if answer == NULL then book else book + [Held(answer, size, map[])]
    case Release(i) => if i < |book| then book[..i] + book[i + 1..] else book
    case Store(i, off, v) =>
      if i < |book| && off < book[i].size then book[i := book[i].(data := book[i].data[off := v])] else book
  }

  function Book(acts: seq<Act>, answers: seq<nat>): seq<Held>
    requires |acts| == |answers|
    decreases |acts|
  {
    if acts == [] then []
    else
      var n := |acts| - 1;
      After(Book(acts[..n], answers[..n]), acts[n], answers[n])
  }

  /** The block behind an allocation follows from the answer and the request. */
  function BlockOf(h: Held, top: nat): Block {
    Block(h.ptr, BlockExp(h.size, top))
  }

  /** Each allocation has a live block of its own that holds it, and nothing is live but
      these and the blocks dropped at start-up. */
  ghost predicate Owned(book: seq<Held>, top: nat, s: Snap, dropped: set<Block>) {
    && (forall i {:trigger book[i]} :: 0 <= i < |book| ==>
      0 < book[i].size <= Pow2(BlockOf(book[i], top).exp) && LiveIn(s, BlockOf(book[i], top)) && BlockOf(book[i], top) !in dropped)
    && (forall i, j :: 0 <= i < j < |book| ==> BlockOf(book[i], top) != BlockOf(book[j], top))
    && (forall b {:trigger b in dropped} :: b in dropped ==> LiveIn(s, b))
    && forall b {:trigger LiveIn(s, b)} :: LiveIn(s, b) ==> b in dropped || exists i :: 0 <= i < |book| && b == BlockOf(book[i], top)
  }

  /** What the owners wrote is what memory holds. */
  ghost predicate Intact(book: seq<Held>, word: map<nat, nat>) {
    forall i, off: nat {:trigger off in book[i].data} :: 0 <= i < |book| && off in book[i].data ==>
      off < book[i].size && book[i].ptr + off in word && word[book[i].ptr + off] == book[i].data[off]
  }

  /** No two allocations share a byte, and all lie in the heap. */
  ghost predicate Separate(book: seq<Held>, lo: nat, hi: nat) {
    && (forall i {:trigger book[i]} :: 0 <= i < |book| ==> lo <= book[i].ptr && book[i].ptr + book[i].size <= hi)
    && forall i, j :: 0 <= i < j < |book| ==>
      book[i].ptr + book[i].size <= book[j].ptr || book[j].ptr + book[j].size <= book[i].ptr
  }

  lemma OwnedApart(book: seq<Held>, top: nat, s: Snap, dropped: set<Block>)
    requires SnapOk(s) && Owned(book, top, s, dropped)
    ensures Separate(book, s.heap.begin, HeapEnd(s.heap))
  {
    hide LiveIn, SnapOk, Pow2, HeapEnd, BlockExp;
    Slabs.LiveSound(s);
    forall i | 0 <= i < |book| ensures s.heap.begin <= book[i].ptr && book[i].ptr + book[i].size <= HeapEnd(s.heap) {
      assert Within(BlockOf(book[i], top), s.heap.begin, HeapEnd(s.heap));
    }
    forall i, j | 0 <= i < j < |book|
      ensures book[i].ptr + book[i].size <= book[j].ptr || book[j].ptr + book[j].size <= book[i].ptr
    {
      assert Disjoint(BlockOf(book[i], top), BlockOf(book[j], top));
    }
  }

  lemma TakeKeepsOwned(book: seq<Held>, top: nat, s: Snap, s': Snap, dropped: set<Block>, h: Held)
    requires Owned(book, top, s, dropped) && Gained(s, s', BlockOf(h, top)) && 0 < h.size <= Pow2(BlockOf(h, top).exp)
    ensures Owned(book + [h], top, s', dropped)
  {
    hide LiveIn, Pow2, BlockExp;
    var book' := book + [h];
    var b := BlockOf(h, top);
    assert LiveIn(s', b);
    forall x | LiveIn(s', x) ensures x in dropped || exists i :: 0 <= i < |book'| && x == BlockOf(book'[i], top) {
      if x == b {
        assert book'[|book|] == h;
      } else if x !in dropped {
        assert LiveIn(s, x);
        var i :| 0 <= i < |book| && x == BlockOf(book[i], top);
        assert book'[i] == book[i];
      }
    }
  }

  lemma RefusalKeepsOwned(book: seq<Held>, top: nat, s: Snap, s': Snap, dropped: set<Block>)
    requires Owned(book, top, s, dropped) && SameLive(s, s')
    ensures Owned(book, top, s', dropped)
  {
    hide LiveIn, Pow2, BlockExp;
  }

  lemma ReleaseKeepsOwned(book: seq<Held>, top: nat, s: Snap, s': Snap, dropped: set<Block>, k: nat)
    requires Owned(book, top, s, dropped) && k < |book| && Gained(s', s, BlockOf(book[k], top))
    ensures Owned(book[..k] + book[k + 1..], top, s', dropped)
  {
    hide LiveIn, Pow2, BlockExp, BlockOf;
    var book' := book[..k] + book[k + 1..];
    Without(book, k);
    var gone := BlockOf(book[k], top);
    forall i | 0 <= i < |book'|
      ensures 0 < book'[i].size <= Pow2(BlockOf(book'[i], top).exp) && BlockOf(book'[i], top) !in dropped
      ensures LiveIn(s', BlockOf(book'[i], top))
    {
      var j := if i < k then i else i + 1;
      assert book'[i] == book[j] && BlockOf(book[j], top) != gone;
      assert LiveIn(s, BlockOf(book[j], top));
    }
    forall i, j | 0 <= i < j < |book'| ensures BlockOf(book'[i], top) != BlockOf(book'[j], top) {
      assert book'[i] == book[if i < k then i else i + 1] && book'[j] == book[if j < k then j else j + 1];
    }
    forall x | LiveIn(s', x) ensures x in dropped || exists i :: 0 <= i < |book'| && x == BlockOf(book'[i], top) {
      assert LiveIn(s, x);
      if x !in dropped {
        var i :| 0 <= i < |book| && x == BlockOf(book[i], top);
        assert i != k;
        assert book'[if i < k then i else i - 1] == book[i];
      }
    }
    assert gone !in dropped;
    forall b | b in dropped ensures LiveIn(s', b) { assert LiveIn(s, b); }
  }

  lemma Without(book: seq<Held>, k: nat)
    requires k < |book|
    ensures var book' := book[..k] + book[k + 1..];
            |book'| == |book| - 1 && forall i {:trigger book'[i]} :: 0 <= i < |book'| ==> book'[i] == book[if i < k then i else i + 1]
  {
  }

  lemma StoreKeepsOwned(book: seq<Held>, top: nat, s: Snap, dropped: set<Block>, k: nat, data: map<nat, nat>)
    requires Owned(book, top, s, dropped) && k < |book|
    ensures Owned(book[k := book[k].(data := data)], top, s, dropped)
  {
    hide LiveIn, Pow2, BlockExp;
    var book' := book[k := book[k].(data := data)];
    assert forall i :: 0 <= i < |book| ==> BlockOf(book'[i], top) == BlockOf(book[i], top);
    forall x | LiveIn(s, x) ensures x in dropped || exists i :: 0 <= i < |book'| && x == BlockOf(book'[i], top) {
      if x !in dropped {
        var i :| 0 <= i < |book| && x == BlockOf(book[i], top);
        assert x == BlockOf(book'[i], top);
      }
    }
  }

  /** What the allocator writes is none of the clients' data. */
  lemma StaysIntact(book: seq<Held>, top: nat, s: Snap, dropped: set<Block>, word: map<nat, nat>, word': map<nat, nat>)
    requires Owned(book, top, s, dropped) && Intact(book, word) && ContentsKept(s, word, word')
    ensures Intact(book, word')
  {
    hide LiveIn, Pow2, BlockExp;
    forall i, off: nat | 0 <= i < |book| && off in book[i].data
      ensures book[i].ptr + off in word' && word'[book[i].ptr + off] == book[i].data[off]
    {
      assert LiveIn(s, BlockOf(book[i], top));
      assert SameWord(word, word', book[i].ptr + off);
    }
  }

  lemma StoreIntact(book: seq<Held>, lo: nat, hi: nat, word: map<nat, nat>, k: nat, off: nat, v: nat)
    requires Separate(book, lo, hi) && Intact(book, word) && k < |book| && off < book[k].size
    ensures Intact(book[k := book[k].(data := book[k].data[off := v])], word[book[k].ptr + off := v])
  {
  }

  lemma LastAct(acts: seq<Act>, answers: seq<nat>, act: Act, answer: nat)
    requires |acts| == |answers|
    ensures Book(acts + [act], answers + [answer]) == After(Book(acts, answers), act, answer)
  {
    assert (acts + [act])[..|acts|] == acts && (answers + [answer])[..|acts|] == answers;
  }

  // ----- what the allocator must do for its clients

  /** What decides its answers: what is free, and which CPU's chain holds which page. */
  datatype View = View(snap: Snap, chain: map<(nat, nat), seq<nat>>)

  ghost function ViewOf(a: Allocator): View
    reads a, a.buddy
  {
    View(a.Now(), a.chain)
  }

  /** No page of the CPU's chain for the class has a free block. */
  ghost predicate NoneFree(v: View, cpu: nat, c: nat)
    requires IsClass(c)
  {
    forall p :: (cpu, c - SMALLEST) in v.chain && p in v.chain[(cpu, c - SMALLEST)] ==> p in v.snap.free && v.snap.free[p] == []
  }

  /** There is nothing to give. */
  ghost predicate Spent(v: View, cpu: nat, size: nat, busy: set<nat>) {
    || size == 0
    || match ClassFor(size)
       case None => Refused(v.snap.heap, size, busy)
       case Some(c) => NoneFree(v, cpu, c) && Refused(v.snap.heap, 4096, busy)
  }

  /** One act: a request is refused, and then nothing changes, exactly when there is
      nothing to give, and otherwise answered by one new block; a free block of the CPU's
      own is used before a new page; a release gives exactly its block back. */
  ghost predicate Legal(v: View, book: seq<Held>, act: Act, answer: nat, v': View, top: nat) {
    match act
    case Take(cpu, size, busy) =>
      && (answer == NULL <==> Spent(v, cpu, size, busy)) && (answer == NULL ==> v' == v)
      && (answer != NULL ==> Gained(v.snap, v'.snap, BlockOf(Held(answer, size, map[]), top)))
      && (size > 0 && ClassFor(size).Some? && !NoneFree(v, cpu, ClassFor(size).value) ==>
           v'.chain == v.chain && v'.snap.cls == v.snap.cls && v'.snap.heap == v.snap.heap)
    case Release(i) =>
      && answer == NULL
      && if i < |book| then v'.chain == v.chain && Gained(v'.snap, v.snap, BlockOf(book[i], top)) else v' == v
    case Store(_, _, _) => answer == NULL && v' == v
  }

  lemma SpentIsDenied(a: Allocator, cpu: nat, size: nat, busy: set<nat>)
    requires a.Valid() && cpu < a.ncpu
    ensures Spent(ViewOf(a), cpu, size, busy) <==> a.Denied(cpu, size, busy)
    ensures ClassFor(size).Some? ==> (NoneFree(ViewOf(a), cpu, ClassFor(size).value) <==> a.Exhausted(cpu, ClassFor(size).value))
  {
    hide Refused, SnapOk, Pow2, NoneFree, Allocator.Exhausted, Allocator.Valid;
    if ClassFor(size).Some? { FreeIsCounted(a, cpu, ClassFor(size).value); }
  }

  lemma FreeIsCounted(a: Allocator, cpu: nat, c: nat)
    requires a.Valid() && cpu < a.ncpu && IsClass(c)
    ensures NoneFree(ViewOf(a), cpu, c) <==> a.Exhausted(cpu, c)
  {
    hide SnapOk, PageOk, PagesOk;
    a.ChainAt(cpu, c - SMALLEST);
    forall p | p in a.chain[(cpu, c - SMALLEST)]
      ensures p in a.stick && p in a.free && (a.stick[p].count == 0 <==> a.free[p] == [])
    {
      var j :| 0 <= j < |a.chain[(cpu, c - SMALLEST)]| && a.chain[(cpu, c - SMALLEST)][j] == p;
      PageAt(a.Now(), a.stick, a.word, p);
      CountIsLength(p, a.cls[p], a.stick[p], a.free[p], a.word);
    }
  }

  lemma CountIsLength(p: nat, c: nat, stick: Stick, free: seq<nat>, word: map<nat, nat>)
    requires PageOk(p, c, stick, free, word)
    ensures stick.count == |free|
  {
  }

  /** One act of a client. */
  method Perform(a: Allocator, act: Act, book: seq<Held>, ghost dropped: set<Block>) returns (answer: nat)
    requires a.Valid() && (act.Take? ==> act.cpu < a.ncpu)
    requires Owned(book, a.buddy.top, a.Now(), dropped) && Intact(book, a.word)
    modifies a, a.own, a.buddy`heap, a.buddy.trees
    ensures a.Valid()
    ensures Legal(old(ViewOf(a)), book, act, answer, ViewOf(a), a.buddy.top)
    ensures Owned(After(book, act, answer), a.buddy.top, a.Now(), dropped) && Intact(After(book, act, answer), a.word)
  {
    hide Allocator.Valid, LiveIn, SnapOk, Owned, Intact, ContentsKept, Gained, SameLive, Spent, NoneFree, BlockExp, Pow2, Allocator.Denied, Allocator.Exhausted;
    ghost var (top, s, words) := (a.buddy.top, a.Now(), a.word);
    answer := NULL;
    match act
    case Take(cpu, size, busy) =>
      ghost var b;
      SpentIsDenied(a, cpu, size, busy);
      answer, b := a.Kalloc(cpu, size, busy);
      StaysIntact(book, top, s, dropped, words, a.word);
      if answer == NULL {
        RefusalKeepsOwned(book, top, s, a.Now(), dropped);
      } else {
        TakeKeepsOwned(book, top, s, a.Now(), dropped, Held(answer, size, map[]));
        NewIntact(book, Held(answer, size, map[]), a.word);
      }
    case Release(i) =>
      if i < |book| {
        OwnedAt(book, top, s, dropped, i);
        ValidSnap(a);
        NotNull(s, BlockOf(book[i], top));
        a.Kfree(book[i].ptr, BlockOf(book[i], top));
        ReleaseKeepsOwned(book, top, s, a.Now(), dropped, i);
        LessIntact(book, words, i);
        StaysIntact(book[..i] + book[i + 1..], top, a.Now(), dropped, words, a.word);
      }
    case Store(i, off, v) =>
      if i < |book| && off < book[i].size {
        OwnedAt(book, top, s, dropped, i);
        ValidSnap(a);
        OwnedApart(book, top, s, dropped);
        a.OwnerWrites(BlockOf(book[i], top), book[i].ptr + off, v);
        StoreKeepsOwned(book, top, s, dropped, i, book[i].data[off := v]);
        StoreIntact(book, s.heap.begin, HeapEnd(s.heap), words, i, off, v);
      }
  }

  lemma OwnedAt(book: seq<Held>, top: nat, s: Snap, dropped: set<Block>, i: nat)
    requires Owned(book, top, s, dropped) && i < |book|
    ensures LiveIn(s, BlockOf(book[i], top)) && 0 < book[i].size <= Pow2(BlockOf(book[i], top).exp)
  {
  }

  lemma NotNull(s: Snap, b: Block)
    requires SnapOk(s) && LiveIn(s, b)
    ensures b.addr != NULL
  {
    HomeFacts(s, b);
  }

  lemma ValidSnap(a: Allocator)
    requires a.Valid()
    ensures SnapOk(a.Now())
  {
  }

  lemma NewIntact(book: seq<Held>, h: Held, word: map<nat, nat>)
    requires Intact(book, word) && h.data == map[]
    ensures Intact(book + [h], word)
  {
  }

  lemma LessIntact(book: seq<Held>, word: map<nat, nat>, k: nat)
    requires Intact(book, word) && k < |book|
    ensures Intact(book[..k] + book[k + 1..], word)
  {
    Without(book, k);
  }

  /** From start-up on, through every schedule of requests, releases and writes: every act
      is answered as Legal demands, and after the last one, as after any other, each
      outstanding allocation lies in the heap, is as large as its request, shares no byte
      with another and holds what its owner last wrote to it; and nothing is handed out
      but these and the blocks that start-up dropped. */
  method Session(top: nat, heapStart: nat, heapEnd: nat, maxTree: nat, ncpu: nat, acts: seq<Act>)
    returns (a: Allocator, answers: seq<nat>, ok: bool, ghost dropped: set<Block>, ghost views: seq<View>)
    requires PAGE <= top && ncpu > 0 && maxTree <= Pow2(PAGE - 1)
    requires forall k :: 0 <= k < |acts| && acts[k].Take? ==> acts[k].cpu < ncpu
    ensures ok <==> heapEnd < AlignTo(heapStart, top) + Pow2(top) + (maxTree + 1) * Pow2(top)
    ensures ok ==> a.Valid() && |answers| == |acts|
    ensures ok ==> |views| == |acts| + 1 && Leaked(views[0].snap, dropped) && views[|acts|] == ViewOf(a)
    ensures ok ==> forall k :: 0 <= k < |acts| ==>
      Legal(views[k], Book(acts[..k], answers[..k]), acts[k], answers[k], views[k + 1], top)
    ensures ok ==> Separate(Book(acts, answers), a.buddy.heap.begin, HeapEnd(a.buddy.heap)) && Intact(Book(acts, answers), a.word)
    ensures ok ==> Owned(Book(acts, answers), top, a.Now(), dropped) && |dropped| <= SLAB_NUM * ncpu
  {
    hide Allocator.Valid, LiveIn, Owned, Intact, AlignTo, Pow2, Book, After, Leaked, HeapEnd, Separate, Legal;
    a, ok, dropped := PmmInit(top, heapStart, heapEnd, maxTree, ncpu);
    answers, views := [], [ViewOf(a)];
    if !ok { return; }
    NothingTaken(top, a.Now(), dropped, a.word);
    for k := 0 to |acts|
      invariant a.Valid() && a.buddy.top == top && a.ncpu == ncpu && |answers| == k
      invariant fresh(a) && fresh(a.own) && fresh(a.buddy) && fresh(a.buddy.trees)
      invariant |views| == k + 1 && Leaked(views[0].snap, dropped) && views[k] == ViewOf(a)
      invariant forall j :: 0 <= j < k ==> Legal(views[j], Book(acts[..j], answers[..j]), acts[j], answers[j], views[j + 1], top)
      invariant Owned(Book(acts[..k], answers), top, a.Now(), dropped) && Intact(Book(acts[..k], answers), a.word)
    {
      var answer := Perform(a, acts[k], Book(acts[..k], answers), dropped);
      LastAct(acts[..k], answers, acts[k], answer);
      assert acts[..k + 1] == acts[..k] + [acts[k]];
      ghost var (was, seen) := (answers, views);
      answers := answers + [answer];
      views := views + [ViewOf(a)];
      forall j | 0 <= j < k + 1
        ensures Legal(views[j], Book(acts[..j], answers[..j]), acts[j], answers[j], views[j + 1], top)
      {
        assert answers[..j] == was[..j] && views[j] == seen[j];
      }
    }
    assert acts[..|acts|] == acts;
    ValidSnap(a);
    OwnedApart(Book(acts, answers), top, a.Now(), dropped);
  }

  lemma NothingTaken(top: nat, s: Snap, dropped: set<Block>, word: map<nat, nat>)
    requires Leaked(s, dropped)
    ensures Owned(Book([], []), top, s, dropped) && Intact(Book([], []), word)
  {
    hide LiveIn;
  }
}
