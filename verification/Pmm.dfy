/** kernel/src/slab.c and kernel/src/pmm.c: the allocator object. Page headers, the
    intrusive free lists and the per-CPU page chains live in memory (stick, word, own);
    large blocks and the pages themselves come from the buddy system. */
module Pmm {
  import opened Wrappers
  import opened Powers
  import opened BuddyTree
  import opened BuddyHeap
  import opened Slabs
  import Buddy
  import Bits

  const SLAB_NUM: nat := 7

  /** align_to */
  function AlignTo(n: nat, e: nat): nat {
    if n % Pow2(e) == 0 then n else n - n % Pow2(e) + Pow2(e)
  }

  /** The header takes one block of its class, and the rest of the page is blocks. */
  lemma HeaderTakesOne(c: nat)
    requires IsClass(c)
    ensures AlignTo(STICK_SIZE, c) == Pow2(c) && Pow2(c) <= 2048
    ensures (Pow2(c) + Pow2(c) * Quotient(4096 - Pow2(c), Pow2(c))) == 4096 && Quotient(4096 - Pow2(c), Pow2(c)) >= 1
  {
    PowerTable();
    hide Pow2;
    if c == 5 { ModOfMultiple(1, 32); } else { DivModUnique(32, Pow2(c), 0, 32); }
    if c == 5 { DivModUnique(4096 - 32, 32, 127, 0); }
    else if c == 6 { DivModUnique(4096 - 64, 64, 63, 0); }
    else if c == 7 { DivModUnique(4096 - 128, 128, 31, 0); }
    else if c == 8 { DivModUnique(4096 - 256, 256, 15, 0); }
    else if c == 9 { DivModUnique(4096 - 512, 512, 7, 0); }
    else if c == 10 { DivModUnique(4096 - 1024, 1024, 3, 0); }
    else { DivModUnique(4096 - 2048, 2048, 1, 0); }
  }

  /** The words of the page's blocks may change, and no others. */
  ghost predicate OnlyInPage(word: map<nat, nat>, word': map<nat, nat>, p: nat) {
    forall a {:trigger word'[a]} {:trigger a in word'} :: !(p <= a < p + 4096) ==>
      (a in word <==> a in word') && (a in word ==> word'[a] == word[a])
  }

  /** initialize_a_slab_new_page: chains every block of the page, the last one first. */
  method InitializeASlabNewPage(c: nat, page: nat, next: nat, word: map<nat, nat>)
    returns (stick: Stick, word': map<nat, nat>, ghost list: seq<nat>)
    requires IsClass(c) && Aligned(page, PAGE)
    ensures PageOk(page, c, stick, list, word') && stick.next == next && stick.count > 0
    ensures HoldsBlocks(list, page, c, page + 4096) && OnlyInPage(word, word', page)
  {
    hide Pow2, Aligned, Chained, AlignTo, IsBlock, HoldsBlocks, NoRepeats, OnlyInPage, PageOk;
    HeaderTakesOne(c);
    var size := Pow2(c);
    var stickSize := AlignTo(STICK_SIZE, c);
    stick := Stick(NULL, next, Quotient(4096 - stickSize, size));
    word' := word;
    list := [];
    var left: nat := stick.count;
    var addr := page + stickSize;
    NoBlocks(page, c, word);
    while left > 0
      invariant addr + size * left == page + 4096 && Aligned(addr, c) && addr >= page + size
      invariant stick.next == next && stick.count == left + |list| && stick.count > 0
      invariant Chained(stick.list, list, word') && NoRepeats(list)
      invariant HoldsBlocks(list, page, c, addr) && OnlyInPage(word, word', page)
    {
      MulStep(size, left);
      BlockStep(addr, page, c, list);
      PushChain(stick.list, list, word', addr);
      StaysInPage(word, word', page, addr, stick.list);
      word' := word'[addr := stick.list];
      list := [addr] + list;
      stick := stick.(list := addr);
      left := left - 1;
      addr := addr + size;
    }
    FullPage(page, c, stick, list, word');
  }

  lemma FullPage(p: nat, c: nat, stick: Stick, list: seq<nat>, word: map<nat, nat>)
    requires IsClass(c) && Aligned(p, PAGE) && stick.count == |list| && NoRepeats(list)
    requires HoldsBlocks(list, p, c, p + 4096) && Chained(stick.list, list, word)
    ensures PageOk(p, c, stick, list, word)
  {
    hide Pow2, Aligned, Chained, IsBlock, NoRepeats;
  }

  lemma StaysInPage(word: map<nat, nat>, word': map<nat, nat>, p: nat, a: nat, v: nat)
    requires OnlyInPage(word, word', p) && p <= a < p + 4096
    ensures OnlyInPage(word, word'[a := v], p)
  {
  }

  lemma MulStep(size: nat, left: nat)
    requires left > 0
    ensures size * left == size + size * (left - 1) && size * (left - 1) >= 0
  {
    MulMonotone(0, left - 1, size);
  }

  /** Before the first block. */
  lemma NoBlocks(p: nat, c: nat, word: map<nat, nat>)
    requires IsClass(c) && Aligned(p, PAGE)
    ensures Aligned(p + Pow2(c), c) && HoldsBlocks([], p, c, p + Pow2(c))
    ensures Chained(NULL, [], word) && NoRepeats<nat>([]) && OnlyInPage(word, word, p)
  {
    AlignedWeaken(p, PAGE, c);
    AlignedPow2(c, c);
    AlignedSum(p, Pow2(c), c);
  }

  /** One more grid point, one more block. */
  lemma BlockStep(addr: nat, p: nat, c: nat, list: seq<nat>)
    requires Aligned(addr, c) && p + Pow2(c) <= addr && addr + Pow2(c) <= p + 4096
    requires HoldsBlocks(list, p, c, addr) && NoRepeats(list)
    ensures Aligned(addr + Pow2(c), c) && addr !in list && p <= addr < p + 4096
    ensures HoldsBlocks([addr] + list, p, c, addr + Pow2(c)) && NoRepeats([addr] + list)
  {
    AlignedPow2(c, c);
    AlignedSum(addr, Pow2(c), c);
    hide Pow2, Aligned;
    forall b: nat ensures b in [addr] + list <==> IsBlock(b, p, c) && b < addr + Pow2(c) {
      assert b in [addr] + list <==> b == addr || b in list;
      if IsBlock(b, p, c) && addr < b < addr + Pow2(c) { GridStep(addr, b, c); }
    }
  }

  // ----- what the owners of live blocks keep

  ghost predicate SameWord(word: map<nat, nat>, word': map<nat, nat>, a: nat) {
    (a in word <==> a in word') && (a in word ==> word'[a] == word[a])
  }

  /** No word inside a block that is live in s changes. */
  ghost predicate ContentsKept(s: Snap, word: map<nat, nat>, word': map<nat, nat>) {
    forall b, a: nat {:trigger LiveIn(s, b), SameWord(word, word', a)} ::
      LiveIn(s, b) && b.addr <= a < b.addr + Pow2(b.exp) ==> SameWord(word, word', a)
  }

  lemma NothingWritten(s: Snap, word: map<nat, nat>)
    ensures ContentsKept(s, word, word)
  {
    hide LiveIn, Pow2;
  }

  /** Chaining the blocks of a page that was handed out for them writes to no block
      that was live before. */
  lemma ChainingKeepsContents(s: Snap, s': Snap, p: nat, word: map<nat, nat>, word': map<nat, nat>)
    requires SnapOk(s') && Gained(s, s', Block(p, PAGE)) && OnlyInPage(word, word', p)
    ensures ContentsKept(s, word, word')
  {
    hide LiveIn, SnapOk, Pow2;
    forall b, a: nat | LiveIn(s, b) && b.addr <= a < b.addr + Pow2(b.exp) ensures SameWord(word, word', a) {
      assert LiveIn(s', b) && LiveIn(s', Block(p, PAGE));
      LiveApart(s', b, Block(p, PAGE));
      PowerTable();
    }
  }

  /** The link that a released block gets lies in no block that stays live. */
  lemma LinkKeepsContents(s: Snap, s': Snap, b: Block, word: map<nat, nat>, v: nat)
    requires SnapOk(s) && LiveIn(s, b) && Gained(s', s, b)
    ensures ContentsKept(s', word, word[b.addr := v])
  {
    hide LiveIn, SnapOk, Pow2;
    var word' := word[b.addr := v];
    forall x, a: nat | LiveIn(s', x) && x.addr <= a < x.addr + Pow2(x.exp) ensures SameWord(word, word', a) {
      assert LiveIn(s, x);
      LiveApart(s, x, b);
    }
  }

  // ----- the object's invariant, part by part

  ghost predicate PagesOk(s: Snap, stick: map<nat, Stick>, word: map<nat, nat>) {
    forall p {:trigger s.cls[p]} {:trigger stick[p]} :: p in s.cls ==>
      p in stick && p in s.free && PageOk(p, s.cls[p], stick[p], s.free[p], word)
  }

  /** The pages a CPU owns for one class, chained through their headers. */
  ghost predicate ChainOk(s: Snap, stick: map<nat, Stick>, head: nat, pages: seq<nat>, c: nat) {
    && head == ElementOr0(pages, 0)
    && forall j {:trigger pages[j]} :: 0 <= j < |pages| ==>
      && pages[j] in s.cls && pages[j] in stick && s.cls[pages[j]] == c && pages[j] > NULL
      && stick[pages[j]].next == ElementOr0(pages, j + 1)
  }

  lemma PageAt(s: Snap, stick: map<nat, Stick>, word: map<nat, nat>, p: nat)
    requires PagesOk(s, stick, word) && p in s.cls
    ensures p in stick && p in s.free && PageOk(p, s.cls[p], stick[p], s.free[p], word)
  {
    hide PageOk;
    assert s.cls[p] == s.cls[p];
  }

  /** Changing one page's list and count, not its link. */
  lemma OnePageChanged(s: Snap, stick: map<nat, Stick>, word: map<nat, nat>, p: nat, st: Stick, free: seq<nat>, word': map<nat, nat>)
    requires PagesOk(s, stick, word) && p in s.cls && PageOk(p, s.cls[p], st, free, word')
    requires forall q {:trigger s.cls[q]} :: q in s.cls && q != p ==> PageOk(q, s.cls[q], stick[q], s.free[q], word')
    ensures PagesOk(s.(free := s.free[p := free]), stick[p := st], word')
  {
    hide PageOk;
    forall q | q in s.cls ensures q in stick && q in s.free { PageAt(s, stick, word, q); }
  }

  lemma ChainUnchanged(s: Snap, stick: map<nat, Stick>, head: nat, pages: seq<nat>, c: nat, p: nat, st: Stick, s': Snap)
    requires ChainOk(s, stick, head, pages, c) && s'.cls == s.cls
    requires p in stick && st.next == stick[p].next
    ensures ChainOk(s', stick[p := st], head, pages, c)
  {
  }

  /** A new page in front of a chain. */
  lemma ChainGrows(s: Snap, stick: map<nat, Stick>, head: nat, pages: seq<nat>, c: nat, p: nat, st: Stick, s': Snap)
    requires ChainOk(s, stick, head, pages, c) && p !in s.cls && s'.cls == s.cls[p := c] && p > NULL && st.next == head
    ensures ChainOk(s', stick[p := st], p, [p] + pages, c)
  {
    var (pages', stick') := ([p] + pages, stick[p := st]);
    forall j | 0 <= j < |pages'|
      ensures pages'[j] in s'.cls && pages'[j] in stick' && s'.cls[pages'[j]] == c && pages'[j] > NULL
      ensures stick'[pages'[j]].next == ElementOr0(pages', j + 1)
    {
      if j > 0 { assert pages'[j] == pages[j - 1]; }
    }
  }

  /** The other chains do not notice it. */
  lemma ChainKept(s: Snap, stick: map<nat, Stick>, head: nat, pages: seq<nat>, c: nat, p: nat, st: Stick, s': Snap, cp: nat)
    requires ChainOk(s, stick, head, pages, c) && p !in s.cls && s'.cls == s.cls[p := cp]
    ensures ChainOk(s', stick[p := st], head, pages, c)
  {
    forall j | 0 <= j < |pages| ensures pages[j] != p {}
  }

  lemma NewPageAdded(s: Snap, stick: map<nat, Stick>, word: map<nat, nat>, p: nat, c: nat, st: Stick, free: seq<nat>, word': map<nat, nat>)
    requires PagesOk(s, stick, word) && p !in s.cls && Aligned(p, PAGE) && OnlyInPage(word, word', p)
    requires PageOk(p, c, st, free, word')
    ensures PagesOk(s.(cls := s.cls[p := c], free := s.free[p := free]), stick[p := st], word')
  {
    hide PageOk, OnlyInPage, Aligned;
    forall q | q in s.cls ensures q in stick && q in s.free && PageOk(q, s.cls[q], stick[q], s.free[q], word') {
      PageAt(s, stick, word, q);
      ForeignWords(q, s.cls[q], stick[q], s.free[q], word, p, word');
    }
  }

  /** The exponent of the block a request gets: its class, or the least large level. */
  function BlockExp(size: nat, top: nat): nat {
    match ClassFor(size)
    case Some(c) => c
    case None => match LevelFor(size, PAGE, top) { case Some(lv) => lv case None => 0 }
  }

  /** Only the heap differs. */
  lemma HeapOnly(s: Snap, s': Snap, stick: map<nat, Stick>, word: map<nat, nat>)
    requires PagesOk(s, stick, word) && s'.cls == s.cls && s'.free == s.free
    ensures PagesOk(s', stick, word)
  {
    hide PageOk;
  }

  /** A page does not notice words that change inside another page. */
  lemma ForeignWords(q: nat, c: nat, st: Stick, free: seq<nat>, word: map<nat, nat>, p: nat, word': map<nat, nat>)
    requires PageOk(q, c, st, free, word) && Aligned(p, PAGE) && q != p && OnlyInPage(word, word', p)
    ensures PageOk(q, c, st, free, word')
  {
    hide Aligned, Pow2;
    assert Aligned(q, PAGE);
    PowerTable();
    if p < q { GridStep(p, q, PAGE); } else { GridStep(q, p, PAGE); }
    forall b | b in free ensures IsBlock(b, q, c) && !(p <= b < p + 4096) {}
    forall i | 0 <= i < |free| ensures free[i] in word' && word'[free[i]] == word[free[i]] { assert free[i] in free; }
  }

  /** The first page of the chain with a free block. */
  ghost predicate FirstOpen(pages: seq<nat>, stick: map<nat, Stick>, p: nat) {
    && p in stick && stick[p].count > 0
    && exists j :: 0 <= j < |pages| && pages[j] == p && forall i :: 0 <= i < j ==> pages[i] in stick && stick[pages[i]].count == 0
  }

  // ----- the object

  class Allocator {
    const buddy: Buddy.BuddySystem
    const ncpu: nat
    /** cpu_own_area */
    const own: array2<nat>
    /** The page headers. */
    var stick: map<nat, Stick>
    /** The first word of every block: its link while the block is free, its
        owner's data while it is live. */
    var word: map<nat, nat>
    ghost var cls: map<nat, nat>
    ghost var free: map<nat, seq<nat>>
    ghost var chain: map<(nat, nat), seq<nat>>

    ghost function Now(): Snap
      reads this, buddy
    {
      Snap(cls, free, buddy.heap)
    }

    ghost predicate Chains()
      reads this, buddy, own
    {
      && own.Length0 == ncpu && own.Length1 == SLAB_NUM
      && forall i, k {:trigger own[i, k]} :: 0 <= i < ncpu && 0 <= k < SLAB_NUM ==>
        (i, k) in chain && ChainOk(Now(), stick, own[i, k], chain[(i, k)], k + SMALLEST)
    }

    ghost predicate Core()
      reads this, buddy, buddy.trees, own
    {
      buddy.Valid() && SnapOk(Now()) && PagesOk(Now(), stick, word) && Chains()
    }

    /** The first address of the heap belongs to a page, which is never given back. */
    ghost predicate Valid()
      reads this, buddy, buddy.trees, own
    {
      Core() && FirstTaken()
    }

    ghost predicate FirstTaken()
      reads this, buddy
    {
      buddy.heap.trees != [] ==> buddy.heap.begin in cls
    }

    /** The zeroed globals, before slab_init. */
    constructor (buddy: Buddy.BuddySystem, ncpu: nat)
      ensures this.buddy == buddy && this.ncpu == ncpu && fresh(own) && Blank()
      ensures forall x {:trigger chain[x]} :: x in chain ==> chain[x] == []
    {
      this.buddy, this.ncpu := buddy, ncpu;
      this.own := new nat[ncpu, SLAB_NUM]((i, k) => NULL);
      this.stick, this.word, this.cls, this.free := map[], map[], map[], map[];
      this.chain := map i, k | 0 <= i < ncpu && 0 <= k < SLAB_NUM :: (i, k) := [];
    }

    ghost predicate Blank()
      reads this, own
    {
      && cls == map[] && free == map[] && own.Length0 == ncpu && own.Length1 == SLAB_NUM
      && forall i, k {:trigger own[i, k]} :: 0 <= i < ncpu && 0 <= k < SLAB_NUM ==>
        own[i, k] == NULL && (i, k) in chain && chain[(i, k)] == []
    }

    lemma BlankCore()
      requires Blank() && buddy.Valid() && buddy.bot == PAGE
      ensures Core()
    {
      hide HeapInv, HeapLive, SnapOk, PagesOk, ChainOk, Pow2, Buddy.BuddySystem.Valid;
      BuddyFacts(buddy);
      EmptySnap(Now(), stick, word);
      forall i, k | 0 <= i < ncpu && 0 <= k < SLAB_NUM
        ensures (i, k) in chain && ChainOk(Now(), stick, own[i, k], chain[(i, k)], k + SMALLEST)
      {
        assert own[i, k] == NULL;
        assert ChainOk(Now(), stick, NULL, [], k + SMALLEST);
      }
    }

    lemma ChainAt(cpu: nat, k: nat)
      requires Core() && cpu < ncpu && k < SLAB_NUM
      ensures own.Length0 == ncpu && own.Length1 == SLAB_NUM
      ensures (cpu, k) in chain && ChainOk(Now(), stick, own[cpu, k], chain[(cpu, k)], k + SMALLEST)
    {
      hide ChainOk, PagesOk, SnapOk;
      assert own[cpu, k] >= 0;
    }

    /** The pages of one chain have no free block. */
    ghost predicate Exhausted(cpu: nat, c: nat)
      reads this
    {
      forall p :: (cpu, c - SMALLEST) in chain && p in chain[(cpu, c - SMALLEST)] ==> p in stick && stick[p].count == 0
    }

    /** find_the_avaliable_page_in_slab_and_lock */
    method FindTheAvailablePage(cpu: nat, c: nat) returns (page: nat)
      requires Core() && cpu < ncpu && IsClass(c)
      ensures page == NULL <==> Exhausted(cpu, c)
      ensures page != NULL ==> page in cls && page in stick && cls[page] == c && stick[page].count > 0
      ensures page != NULL ==> (cpu, c - SMALLEST) in chain && FirstOpen(chain[(cpu, c - SMALLEST)], stick, page)
    {
      hide PagesOk, SnapOk, Core;
      ChainAt(cpu, c - SMALLEST);
      ghost var pages := chain[(cpu, c - SMALLEST)];
      page := own[cpu, c - SMALLEST];
      ghost var j := 0;
      while page != NULL
        invariant 0 <= j <= |pages| && page == ElementOr0(pages, j)
        invariant forall i :: 0 <= i < j ==> pages[i] in stick && stick[pages[i]].count == 0
        decreases |pages| - j
      {
        if stick[page].count != 0 {
          assert pages[j] == page;
          return;
        }
        page := stick[page].next;
        j := j + 1;
      }
      ChainEnd(Now(), stick, own[cpu, c - SMALLEST], pages, c, j);
    }

    /** find_the_free_space_in_slab */
    method FindTheFreeSpace(cpu: nat, c: nat) returns (b: nat)
      requires Core() && cpu < ncpu && IsClass(c)
      modifies this`stick, this`free
      ensures Core()
      ensures b == NULL <==> old(Exhausted(cpu, c))
      ensures b == NULL ==> Now() == old(Now()) && stick == old(stick)
      ensures b != NULL ==> Gained(old(Now()), Now(), Block(b, c))
      ensures b != NULL ==> exists p :: FirstOpen(old(chain)[(cpu, c - SMALLEST)], old(stick), p) && b == old(stick)[p].list
    {
      hide PagesOk, SnapOk, ChainOk, PageOk, Gained, IsBlock, Aligned, Exhausted, FirstOpen;
      var page := FindTheAvailablePage(cpu, c);
      if page == NULL { return NULL; }
      PageAt(Now(), stick, word, page);
      PopKeepsPage(page, c, stick[page], free[page], word);
      PopOthers(Now(), stick, word, page);
      b := stick[page].list;
      BlockNotNull(b, page, c);
      ghost var st := Stick(word[b], stick[page].next, stick[page].count - 1);
      OnePageChanged(Now(), stick, word, page, st, free[page][1..], word);
      TakeBlock(Now(), page);
      forall i, k | 0 <= i < ncpu && 0 <= k < SLAB_NUM
        ensures ChainOk(Now().(free := free[page := free[page][1..]]), stick[page := st], own[i, k], chain[(i, k)], k + SMALLEST)
      {
        ChainUnchanged(Now(), stick, own[i, k], chain[(i, k)], k + SMALLEST, page, st, Now().(free := free[page := free[page][1..]]));
      }
      stick := stick[page := stick[page].(list := word[b])];
      stick := stick[page := stick[page].(count := stick[page].count - 1)];
      free := free[page := free[page][1..]];
      assert stick == old(stick)[page := st];
    }

    /** bbma_alloc, with what it means for everything that is handed out. */
    method LargeAlloc(size: nat, busy: set<nat>) returns (ptr: nat, ghost lv: nat)
      requires Core()
      modifies buddy`heap, buddy.trees
      ensures Core() && SameLayout(old(buddy.heap), buddy.heap)
      ensures ptr == NULL ==> Now() == old(Now()) && Refused(buddy.heap, size, busy)
      ensures ptr != NULL ==> LevelFor(size, PAGE, buddy.top) == Some(lv) && lv >= PAGE
      ensures ptr != NULL ==> Gained(old(Now()), Now(), Block(ptr, lv)) && Aligned(ptr, lv)
      ensures AllocBlock(old(buddy.heap), size, busy).0 == (if ptr == NULL then None else Some(ptr)) && buddy.top >= PAGE
    {
      hide PagesOk, ChainOk, HeapInv, HeapLive, AllocBlock, Refused, Aligned, Pow2, Gained, LiveIn;
      ghost var s := Now();
      lv := 0;
      AllocBlockCorrect(s.heap, size, busy);
      SnapHeap(s);
      NullAnswer(s.heap, size, busy);
      ptr := buddy.BbmaAlloc(size, busy);
      HeapOnly(s, Now(), stick, word);
      if ptr != NULL {
        lv := LevelFor(size, s.heap.bot, s.heap.top).value;
        TakeLarge(s, Block(ptr, lv), buddy.heap);
      }
      forall i, k | 0 <= i < ncpu && 0 <= k < SLAB_NUM
        ensures ChainOk(Now(), stick, own[i, k], chain[(i, k)], k + SMALLEST)
      {
        ChainHeapOnly(s, Now(), stick, own[i, k], chain[(i, k)], k + SMALLEST);
      }
    }

    /** The new page joins the CPU's chain with all its blocks free. */
    method AddPage(cpu: nat, c: nat, page: nat)
      requires Core() && cpu < ncpu && IsClass(c) && page > NULL && LiveIn(Now(), Block(page, PAGE)) && Aligned(page, PAGE)
      modifies this, own
      ensures Core() && page !in old(cls) && cls == old(cls)[page := c]
      ensures Gained(Now(), old(Now()), Block(page, PAGE)) && !Exhausted(cpu, c) && OnlyInPage(old(word), word, page)
      ensures (cpu, c - SMALLEST) in old(chain) && chain == old(chain)[(cpu, c - SMALLEST) := [page] + old(chain)[(cpu, c - SMALLEST)]]
    {
      hide PagesOk, SnapOk, ChainOk, PageOk, Gained, IsBlock, Aligned, LiveIn, HoldsBlocks, OnlyInPage, Buddy.BuddySystem.Valid;
      ghost var s := Now();
      ghost var list;
      var st, words;
      st, words, list := InitializeASlabNewPage(c, page, own[cpu, c - SMALLEST], word);
      UseAsPage(s, page, c, list);
      NewPageAdded(s, stick, word, page, c, st, list, words);
      ghost var s' := s.(cls := s.cls[page := c], free := s.free[page := list]);
      forall i, k | 0 <= i < ncpu && 0 <= k < SLAB_NUM
        ensures (i, k) in chain && ChainOk(s', stick[page := st], own[i, k], chain[(i, k)], k + SMALLEST)
      {
        ChainAt(i, k);
        ChainKept(s, stick, own[i, k], chain[(i, k)], k + SMALLEST, page, st, s', c);
      }
      ChainAt(cpu, c - SMALLEST);
      ChainGrows(s, stick, own[cpu, c - SMALLEST], chain[(cpu, c - SMALLEST)], c, page, st, s');
      stick := stick[page := st];
      word := words;
      own[cpu, c - SMALLEST] := page;
      cls, free := cls[page := c], free[page := list];
      chain := chain[(cpu, c - SMALLEST) := [page] + chain[(cpu, c - SMALLEST)]];
      assert Now() == s';
      assert page in chain[(cpu, c - SMALLEST)];
    }

    lemma RefusedIffNull(size: nat, busy: set<nat>)
      requires Core()
      ensures AllocBlock(buddy.heap, size, busy).0.None? <==> Refused(buddy.heap, size, busy)
    {
      hide AllocBlock, Refused, PagesOk, ChainOk, LiveIn;
      AllocBlockCorrect(buddy.heap, size, busy);
    }

    lemma CoreSnap()
      requires Core()
      ensures SnapOk(Now())
    {
    }

    /** request_a_slab_from_bbma */
    method RequestASlab(cpu: nat, c: nat, busy: set<nat>) returns (b: nat, ghost page: nat)
      requires Core() && cpu < ncpu && IsClass(c)
      modifies this, own, buddy`heap, buddy.trees
      ensures Core() && SameLayout(old(buddy.heap), buddy.heap)
      ensures b == NULL <==> Refused(old(buddy.heap), 4096, busy)
      ensures b == NULL ==> Now() == old(Now()) && chain == old(chain)
      ensures b != NULL ==> Gained(old(Now()), Now(), Block(b, c)) && (cpu, c - SMALLEST) in old(chain)
      ensures b != NULL ==> chain == old(chain)[(cpu, c - SMALLEST) := [page] + old(chain)[(cpu, c - SMALLEST)]]
      ensures b != NULL ==> page !in old(cls) && cls == old(cls)[page := c]
      ensures AllocBlock(old(buddy.heap), 4096, busy).0 == (if b == NULL then None else Some(page))
      ensures ContentsKept(old(Now()), old(word), word)
    {
      hide Core, Gained, Aligned, LiveIn, AllocBlock, Exhausted, Pow2, Refused, ContentsKept, OnlyInPage;
      ghost var (s0, words) := (Now(), word);
      NothingWritten(s0, word);
      RefusedIffNull(4096, busy);
      ghost var lv;
      var slabAddr;
      page := NULL;
      slabAddr, lv := LargeAlloc(4096, busy);
      PageLevel(buddy.top);
      if slabAddr == NULL { return NULL, NULL; }
      page := slabAddr;
      ghost var s1 := Now();
      GainedLive(s0, s1, Block(page, PAGE));
      CoreSnap();
      AddPage(cpu, c, slabAddr);
      ChainingKeepsContents(s0, s1, page, words, word);
      ghost var s2 := Now();
      b := FindTheFreeSpace(cpu, c);
      GainedTrans(s0, s1, s2, Now(), Block(page, PAGE), Block(b, c));
    }

    /** slab_alloc, which kalloc calls: a block at least as large as the request joins
        the live ones and nothing else changes, or the answer is NULL and nothing changes.
        Either way no word of a block that was live is written. */
    method Kalloc(cpu: nat, size: nat, busy: set<nat>) returns (ptr: nat, ghost b: Block)
      requires Valid() && cpu < ncpu
      modifies this, own, buddy`heap, buddy.trees
      ensures Valid() && SameLayout(old(buddy.heap), buddy.heap)
      ensures ptr == NULL <==> old(Denied(cpu, size, busy))
      ensures ptr == NULL ==> SameLive(old(Now()), Now()) && Now() == old(Now()) && chain == old(chain)
      ensures ptr != NULL ==> b.addr == ptr && Gained(old(Now()), Now(), b) && 0 < size <= Pow2(b.exp)
      ensures ptr != NULL ==> b.exp == BlockExp(size, buddy.top)
      ensures ContentsKept(old(Now()), old(word), word)
      ensures ClassFor(size).None? ==> cls == old(cls) && free == old(free)
      ensures size > 0 && ClassFor(size).Some? && !old(Exhausted(cpu, ClassFor(size).value)) ==>
        ptr != NULL && cls == old(cls) && buddy.heap == old(buddy.heap) && chain == old(chain)
    {
      hide Core, Gained, Aligned, LiveIn, AllocBlock, Exhausted, Pow2, SameLive, Refused, ContentsKept, FirstOpen;
      b := Block(NULL, 0);
      NothingWritten(Now(), word);
      SameLiveRefl(Now());
      if size == 0 { return NULL, b; }
      var slabSize := ClassFor(size);
      ghost var lv;
      if slabSize.None? {
        RefusedIffNull(size, busy);
        ptr, lv := LargeAlloc(size, busy);
        SameLiveRefl(Now());
        b := Block(ptr, lv);
        return;
      }
      var c := slabSize.value;
      ptr := FindTheFreeSpace(cpu, c);
      b := Block(ptr, c);
      if ptr == NULL {
        ghost var page;
        ptr, page := RequestASlab(cpu, c, busy);
        SameLiveRefl(Now());
        b := Block(ptr, c);
      }
    }

    /** When the answer is NULL: a request for nothing; a large one that the buddy system
        refuses; or a small one for which the CPU has no free block left and the buddy
        system refuses a page. */
    ghost predicate Denied(cpu: nat, size: nat, busy: set<nat>)
      reads this, buddy
    {
      || size == 0
      || match ClassFor(size)
         case None => Refused(buddy.heap, size, busy)
         case Some(c) => Exhausted(cpu, c) && Refused(buddy.heap, 4096, busy)
    }

    /** slab_free */
    method SlabFree(ptr: nat, ghost b: Block)
      requires Core() && LiveIn(Now(), b) && b.addr == ptr && b.exp < PAGE
      modifies this`stick, this`word, this`free
      ensures Core() && Gained(Now(), old(Now()), b) && ContentsKept(Now(), old(word), word)
      ensures PageOf(ptr) in stick && stick[PageOf(ptr)].count > 0 && stick[PageOf(ptr)].list == ptr
    {
      hide PagesOk, SnapOk, ChainOk, PageOk, Gained, IsBlock, Aligned, LiveIn, PageOf, ContentsKept;
      ghost var s := Now();
      var page := PageOf(ptr);
      GiveBlock(s, b);
      PageAt(s, stick, word, page);
      PushKeepsPage(page, cls[page], stick[page], free[page], word, ptr);
      PushOthers(s, stick, word, page, ptr, stick[page].list);
      ghost var st := Stick(ptr, stick[page].next, stick[page].count + 1);
      ghost var s' := s.(free := s.free[page := [ptr] + s.free[page]]);
      OnePageChanged(s, stick, word, page, st, [ptr] + free[page], word[ptr := stick[page].list]);
      LinkKeepsContents(s, s', b, word, stick[page].list);
      forall i, k | 0 <= i < ncpu && 0 <= k < SLAB_NUM
        ensures ChainOk(s', stick[page := st], own[i, k], chain[(i, k)], k + SMALLEST)
      {
        ChainAt(i, k);
        ChainUnchanged(s, stick, own[i, k], chain[(i, k)], k + SMALLEST, page, st, s');
      }
      word := word[ptr := stick[page].list];
      stick := stick[page := stick[page].(list := ptr)];
      stick := stick[page := stick[page].(count := stick[page].count + 1)];
      free := free[page := [ptr] + free[page]];
      assert Now() == s' && stick == old(stick)[page := st];
    }

    /** kfree: the alignment of the address alone decides which allocator issued it. */
    method Kfree(ptr: nat, ghost b: Block)
      requires Valid()
      requires ptr != NULL ==> LiveIn(Now(), b) && b.addr == ptr
      modifies this`stick, this`word, this`free, buddy`heap, buddy.trees
      ensures Valid()
      ensures ptr == NULL ==> Now() == old(Now())
      ensures ptr != NULL ==> Gained(Now(), old(Now()), b)
      ensures ContentsKept(Now(), old(word), word) && cls == old(cls)
      ensures ptr != NULL && b.exp >= PAGE ==> free == old(free) && FreeBlock(old(buddy.heap), ptr) == Some(buddy.heap)
      ensures ptr != NULL && b.exp < PAGE ==> buddy.heap == old(buddy.heap)
      ensures ptr != NULL && b.exp < PAGE ==> PageOf(ptr) in stick && stick[PageOf(ptr)].count > 0 && stick[PageOf(ptr)].list == ptr
    {
      hide PagesOk, ChainOk, PageOk, Gained, Aligned, LiveIn, HeapLive, HeapInv, FreeBlock, SnapOk, ContentsKept, PageOf;
      ghost var s := Now();
      if ptr != NULL { LargeOrSmall(s, b); SnapHeap(s); }
      if ptr % 4096 == 0 {
        buddy.BbmaFree(ptr, b);
        if ptr != NULL {
          FreeBlockCorrect(s.heap, b);
          GiveLarge(s, b, buddy.heap);
        }
        HeapOnly(s, Now(), stick, word);
        NothingWritten(Now(), word);
        forall i, k | 0 <= i < ncpu && 0 <= k < SLAB_NUM
          ensures ChainOk(Now(), stick, own[i, k], chain[(i, k)], k + SMALLEST)
        {
          ChainHeapOnly(s, Now(), stick, own[i, k], chain[(i, k)], k + SMALLEST);
        }
      } else {
        SlabFree(ptr, b);
      }
    }

    /** What a block's owner writes into it changes nothing for the allocator. */
    method OwnerWrites(ghost b: Block, a: nat, v: nat)
      requires Valid() && LiveIn(Now(), b) && b.addr <= a < b.addr + Pow2(b.exp)
      modifies this`word
      ensures Valid() && Now() == old(Now()) && word == old(word)[a := v]
    {
      hide ChainOk, PageOk, LiveIn, SnapOk, Pow2, PagesOk;
      WriteKeepsPages(Now(), stick, word, b, a, v);
      forall i, k | 0 <= i < ncpu && 0 <= k < SLAB_NUM
        ensures (i, k) in chain && ChainOk(Now(), stick, own[i, k], chain[(i, k)], k + SMALLEST) { ChainAt(i, k); }
      word := word[a := v];
    }

    /** initialize_a_cpu_slab_area: one page per class. The block each request returns
        is dropped, so one block of every page is never used again. */
    method InitializeACpuSlabArea(cpu: nat, ghost leaked: set<Block>) returns (ghost leaked': set<Block>)
      requires Core() && cpu < ncpu && Leaked(Now(), leaked)
      requires FirstTaken() || Untouched(buddy.heap)
      modifies this, own, buddy`heap, buddy.trees
      ensures Valid() && Leaked(Now(), leaked') && |leaked'| <= |leaked| + SLAB_NUM
      ensures chain.Keys == old(chain).Keys && forall k {:trigger chain[k]} :: k in chain && k.0 != cpu ==> chain[k] == old(chain)[k]
      ensures forall k: nat {:trigger chain[(cpu, k)]} :: k < SLAB_NUM && (cpu, k) in chain ==>
        |chain[(cpu, k)]| == |old(chain)[(cpu, k)]| + 1 || Refused(buddy.heap, 4096, {})
      ensures old(Refused(buddy.heap, 4096, {})) ==> Refused(buddy.heap, 4096, {})
    {
      hide Core, Gained, LiveIn, AllocBlock, Pow2, Refused, SameLayout, Leaked, Untouched;
      leaked' := leaked;
      for i := 0 to SLAB_NUM
        invariant Core() && Leaked(Now(), leaked') && |leaked'| <= |leaked| + i
        invariant FirstTaken() || (i == 0 && Untouched(buddy.heap))
        invariant chain.Keys == old(chain).Keys && forall k {:trigger chain[k]} :: k in chain && k.0 != cpu ==> chain[k] == old(chain)[k]
        invariant forall k: nat {:trigger chain[(cpu, k)]} :: (cpu, k) in chain ==>
          if k >= i then chain[(cpu, k)] == old(chain)[(cpu, k)]
          else |chain[(cpu, k)]| == |old(chain)[(cpu, k)]| + 1 || Refused(buddy.heap, 4096, {})
        invariant old(Refused(buddy.heap, 4096, {})) ==> Refused(buddy.heap, 4096, {})
      {
        ghost var (s, taken) := (Now(), FirstTaken());
        ghost var page;
        var b;
        b, page := RequestASlab(cpu, i + SMALLEST, {});
        if b != NULL {
          LeakedStep(s, Now(), leaked', Block(b, i + SMALLEST), page, i + SMALLEST);
          OneMoreAtMost(leaked', Block(b, i + SMALLEST));
          leaked' := leaked' + {Block(b, i + SMALLEST)};
        }
        if !taken { UntouchedFirst(s.heap); }
        LayoutKept(s.heap, buddy.heap);
      }
    }
  }

  /** Exactly these blocks are live, one of each page. */
  ghost predicate Leaked(s: Snap, leaked: set<Block>) {
    |leaked| == |s.cls| && forall x {:trigger LiveIn(s, x)} :: LiveIn(s, x) <==> x in leaked
  }

  lemma LeakedStep(s: Snap, s': Snap, leaked: set<Block>, b: Block, p: nat, c: nat)
    requires Leaked(s, leaked) && Gained(s, s', b) && p !in s.cls && s'.cls == s.cls[p := c]
    ensures Leaked(s', leaked + {b})
  {
    hide LiveIn;
    assert b !in leaked;
    OneMoreKey(s.cls, p, c);
    OneMoreElement(leaked, b);
  }

  lemma OneMoreKey(m: map<nat, nat>, p: nat, c: nat)
    requires p !in m
    ensures |m[p := c]| == |m| + 1
  {
    assert m[p := c].Keys == m.Keys + {p};
  }

  lemma OneMoreElement(s: set<Block>, b: Block)
    requires b !in s
    ensures |s + {b}| == |s| + 1
  {
  }

  lemma OneMoreAtMost(s: set<Block>, b: Block)
    ensures |s + {b}| <= |s| + 1
  {
    if b in s { assert s + {b} == s; }
  }

  /** The state right after bbma_init. */
  ghost predicate Untouched(h: Heap) {
    PAGE <= h.top && h == FreshHeap(PAGE, h.top, h.begin, |h.trees|)
  }

  lemma LayoutKept(h: Heap, h': Heap)
    requires SameLayout(h, h')
    ensures h'.begin == h.begin && |h'.trees| == |h.trees|
  {
  }

  /** The first page requested is the one at the first address. */
  lemma UntouchedFirst(h: Heap)
    requires Untouched(h) && h.trees != []
    ensures AllocBlock(h, 4096, {}).0 == Some(h.begin)
  {
    PageLevel(h.top);
    FullInv(h.top, PAGE);
    hide Pow2, Alloc;
    AllocFromFull(h.top, PAGE, PAGE);
    assert Full(h.top, PAGE).v == h.top;
    assert FindTree(h, PAGE, {}, 1) == Some(1);
    assert MemStart(h, 1) == h.begin;
  }

  /** pmm_init: the heap start is rounded up, the trees are set up, and every CPU gets a
      page of each class. What is live afterwards is only the dropped blocks. Where the
      heap holds more trees than the static array (ok is false), nothing is promised. */
  method PmmInit(top: nat, heapStart: nat, heapEnd: nat, maxTree: nat, ncpu: nat)
    returns (a: Allocator, ok: bool, ghost leaked: set<Block>)
    requires PAGE <= top && ncpu > 0 && maxTree <= Pow2(PAGE - 1)
    ensures ok <==> heapEnd < AlignTo(heapStart, top) + Pow2(top) + (maxTree + 1) * Pow2(top)
    ensures ok ==> a.Valid() && Leaked(a.Now(), leaked) && |leaked| <= SLAB_NUM * ncpu && a.ncpu == ncpu
    ensures ok ==> forall i: nat, k: nat {:trigger a.chain[(i, k)]} :: i < ncpu && k < SLAB_NUM && (i, k) in a.chain ==>
      |a.chain[(i, k)]| == 1 || Refused(a.buddy.heap, 4096, {})
    ensures a.buddy.start == AlignTo(heapStart, top) >= heapStart && a.buddy.top == top
    ensures fresh(a) && fresh(a.own) && fresh(a.buddy) && fresh(a.buddy.trees)
  {
    hide AlignTo, Pow2, Aligned, Untouched, Leaked, LiveIn, SnapOk, PagesOk, Refused, Buddy.BuddySystem.Valid;
    AlignToFacts(heapStart, top);
    var alignBegin := AlignTo(heapStart, top);
    var buddy := new Buddy.BuddySystem(PAGE, top, alignBegin, heapEnd, maxTree);
    a := new Allocator(buddy, ncpu);
    ok, leaked := !buddy.overrun, {};
    if !ok { return; }
    FreshUntouched(buddy.heap, top, buddy.heap.begin, |buddy.trees|);
    a.BlankCore();
    NothingLeaked(a.Now(), PAGE, top, buddy.heap.begin, |buddy.trees|);
    for i := 0 to ncpu
      invariant a.Core() && Leaked(a.Now(), leaked) && |leaked| <= SLAB_NUM * i && a.buddy == buddy && a.ncpu == ncpu
      invariant a.FirstTaken() || (i == 0 && Untouched(buddy.heap))
      invariant fresh(a) && fresh(a.own) && fresh(buddy) && fresh(buddy.trees)
      invariant forall j: nat, k: nat {:trigger a.chain[(j, k)]} :: j < ncpu && k < SLAB_NUM && (j, k) in a.chain ==>
        if j >= i then a.chain[(j, k)] == [] else |a.chain[(j, k)]| == 1 || Refused(buddy.heap, 4096, {})
    {
      leaked := a.InitializeACpuSlabArea(i, leaked);
    }
  }

  lemma AlignToFacts(n: nat, e: nat)
    ensures Aligned(AlignTo(n, e), e) && AlignTo(n, e) >= n
  {
    Bits.DivMod(n, Pow2(e));
    var m := Pow2(e);
    hide Pow2;
    ModOfMultiple(n / m, m);
    ModOfMultiple(n / m + 1, m);
    assert (n / m + 1) * m == n / m * m + m;
  }

  lemma FreshUntouched(h: Heap, top: nat, begin: nat, n: nat)
    requires PAGE <= top && h == FreshHeap(PAGE, top, begin, n)
    ensures Untouched(h)
  {
  }

  lemma NothingLeaked(s: Snap, bot: nat, top: nat, begin: nat, n: nat)
    requires bot == PAGE <= top && s.heap == FreshHeap(bot, top, begin, n) && s.cls == map[]
    ensures Leaked(s, {})
  {
    hide Pow2, Live, Inv;
    FullInv(top, bot);
    forall b ensures b !in HeapLive(s.heap) {
      if b in HeapLive(s.heap) {
        var k :| 1 <= k <= |s.heap.trees| && b in TreeLive(s.heap, k);
        NothingLiveIsFull(Full(top, bot), top, bot, MemStart(s.heap, k));
      }
    }
  }

  lemma WriteKeepsPages(s: Snap, stick: map<nat, Stick>, word: map<nat, nat>, b: Block, a: nat, v: nat)
    requires SnapOk(s) && PagesOk(s, stick, word) && LiveIn(s, b) && b.addr <= a < b.addr + Pow2(b.exp)
    ensures PagesOk(s, stick, word[a := v])
  {
    hide PageOk, LiveIn, SnapOk, Pow2;
    forall p | p in s.cls ensures p in stick && p in s.free && PageOk(p, s.cls[p], stick[p], s.free[p], word[a := v]) {
      PageAt(s, stick, word, p);
      LiveNotFree(s, b, a, p);
      PageFrame(p, s.cls[p], stick[p], s.free[p], word, a, v);
    }
  }

  lemma BuddyFacts(buddy: Buddy.BuddySystem)
    requires buddy.Valid()
    ensures HeapInv(buddy.heap) && buddy.heap.bot == buddy.bot && buddy.heap.top == buddy.top >= buddy.bot && buddy.heap.begin == buddy.Begin() > NULL
  {
  }

  lemma EmptySnap(s: Snap, stick: map<nat, Stick>, word: map<nat, nat>)
    requires HeapInv(s.heap) && s.heap.bot == PAGE && s.heap.begin > NULL && s.cls == map[] && s.free == map[]
    ensures SnapOk(s) && PagesOk(s, stick, word) && forall c :: ChainOk(s, stick, NULL, [], c)
  {
  }

  lemma ChainEnd(s: Snap, stick: map<nat, Stick>, head: nat, pages: seq<nat>, c: nat, j: nat)
    requires ChainOk(s, stick, head, pages, c) && j <= |pages| && ElementOr0(pages, j) == NULL
    ensures j == |pages|
  {
  }

  lemma PageLevel(top: nat)
    requires top >= PAGE
    ensures LevelFor(4096, PAGE, top) == Some(PAGE)
  {
    PowerTable();
  }

  lemma NullAnswer(h: Heap, size: nat, busy: set<nat>)
    requires HeapInv(h) && h.begin > NULL
    ensures AllocBlock(h, size, busy).0 != Some(NULL)
  {
    AllocBlockCorrect(h, size, busy);
  }

  lemma GainedLive(s: Snap, s': Snap, b: Block)
    requires Gained(s, s', b)
    ensures LiveIn(s', b)
  {
  }

  lemma SameLiveRefl(s: Snap)
    ensures SameLive(s, s)
  {
  }

  lemma PushOthers(s: Snap, stick: map<nat, Stick>, word: map<nat, nat>, p: nat, b: nat, v: nat)
    requires PagesOk(s, stick, word) && SnapOk(s) && p in s.cls && IsBlock(b, p, s.cls[p])
    ensures forall q {:trigger s.cls[q]} :: q in s.cls && q != p ==>
      q in stick && q in s.free && PageOk(q, s.cls[q], stick[q], s.free[q], word[b := v])
  {
    hide PageOk, SnapOk, IsBlock, Aligned, PageOf;
    forall q | q in s.cls && q != p
      ensures q in stick && q in s.free && PageOk(q, s.cls[q], stick[q], s.free[q], word[b := v])
    {
      PageAt(s, stick, word, q);
      InHeap(s, p);
      InHeap(s, q);
      BlockFacts(b, p, s.cls[p]);
      if b in s.free[q] { BlockFacts(b, q, s.cls[q]); }
      PageFrame(q, s.cls[q], stick[q], s.free[q], word, b, v);
    }
  }

  lemma LiveDisjoint(h: Heap, a: Block, b: Block)
    requires HeapInv(h) && a in HeapLive(h) && b in HeapLive(h) && a != b
    ensures Disjoint(a, b)
  {
    hide HeapInv, HeapLive;
    HeapLiveSound(h);
  }

  lemma LargeOrSmall(s: Snap, b: Block)
    requires SnapOk(s) && LiveIn(s, b)
    ensures b.addr % 4096 == 0 <==> b.exp >= PAGE
    ensures b.exp >= PAGE ==> b in HeapLive(s.heap) && s.heap.trees != []
    ensures b.exp >= PAGE && s.heap.begin in s.cls ==> b.addr > s.heap.begin
  {
    hide Pow2, HeapInv, Aligned, IsBlock, SnapOk;
    HomeFacts(s, b);
    if b.exp >= PAGE {
      assert s.heap.trees != [];
      hide HeapLive;
      SnapHeap(s);
      HeapLiveSound(s.heap);
      assert Within(b, s.heap.begin, HeapEnd(s.heap));
      if s.heap.begin in s.cls {
        InHeap(s, s.heap.begin);
        LiveDisjoint(s.heap, b, Block(s.heap.begin, PAGE));
      }
    }
  }

  /** No byte of a live block is the word of a free block. */
  lemma LiveNotFree(s: Snap, b: Block, a: nat, p: nat)
    requires SnapOk(s) && LiveIn(s, b) && b.addr <= a < b.addr + Pow2(b.exp) && p in s.cls
    ensures p in s.free && a !in s.free[p]
  {
    hide Pow2, HeapInv, HeapLive, Aligned, PageOf;
    HomeFacts(s, b);
    InHeap(s, p);
    SnapHeap(s);
    PowerTable();
    if Home(b) != Block(p, PAGE) {
      LiveDisjoint(s.heap, Home(b), Block(p, PAGE));
    } else if a in s.free[p] && b.addr < a {
      GridStep(b.addr, a, b.exp);
    }
  }

  lemma ChainHeapOnly(s: Snap, s': Snap, stick: map<nat, Stick>, head: nat, pages: seq<nat>, c: nat)
    requires ChainOk(s, stick, head, pages, c) && s'.cls == s.cls
    ensures ChainOk(s', stick, head, pages, c)
  {
  }

  lemma BlockNotNull(b: nat, p: nat, c: nat)
    requires IsBlock(b, p, c)
    ensures b != NULL
  {
  }

  lemma PopOthers(s: Snap, stick: map<nat, Stick>, word: map<nat, nat>, p: nat)
    requires PagesOk(s, stick, word) && p in s.cls
    ensures forall q {:trigger s.cls[q]} :: q in s.cls && q != p ==> q in stick && q in s.free && PageOk(q, s.cls[q], stick[q], s.free[q], word)
  {
  }
}
