/** Small blocks carved out of 4 KiB pages (kernel/src/slab.c): what a page's header and
    free list mean, and what is handed out when pages and large blocks are combined. */
module Slabs {
  import opened Wrappers
  import opened Powers
  import opened BuddyTree
  import opened BuddyHeap
  import Bits

  /** Pages are 2^12 bytes; size classes 2^5 .. 2^11. */
  const PAGE: nat := 12
  const SMALLEST: nat := 5
  const LARGEST: nat := 11

  /** sizeof(SLAB_STICK) on the 64-bit machine. */
  const STICK_SIZE: nat := 32

  /** The header at the start of a page. */
  datatype Stick = Stick(list: nat, next: nat, count: nat)

  predicate IsClass(c: nat) {
    SMALLEST <= c <= LARGEST
  }

  /** determine_slab_size; None is SLAB_REFUSE. */
  function ClassFor(size: nat): (r: Option<nat>)
    ensures r.Some? ==> IsClass(r.value) && size <= Pow2(r.value) && (r.value > SMALLEST ==> size > Pow2(r.value - 1))
    ensures r.None? <==> size > 2048
  {
    PowerTable();
    if size <= 32 then Some(5) else if size <= 64 then Some(6) else if size <= 128 then Some(7)
    else if size <= 256 then Some(8) else if size <= 512 then Some(9) else if size <= 1024 then Some(10)
    else if size <= 2048 then Some(11) else None
  }

  // ----- addresses inside a page

  /** slab_align_to_4kb. */
  function PageOf(a: nat): nat {
    a - a % 4096
  }

  /** b is one of the blocks of the page at p: behind the header, on the class's grid. */
  predicate IsBlock(b: nat, p: nat, c: nat) {
    p + Pow2(c) <= b < p + 4096 && Aligned(b, c)
  }

  /** The list holds exactly the page's blocks below limit. */
  ghost predicate HoldsBlocks(list: seq<nat>, p: nat, c: nat, limit: nat) {
    forall b: nat {:trigger b in list} {:trigger IsBlock(b, p, c)} :: b in list <==> IsBlock(b, p, c) && b < limit
  }

  /** A page's blocks are never page aligned, so kfree takes the slab path for them, and
      masking leads back to the page; each is aligned, inside the page, past the header. */
  lemma BlockFacts(b: nat, p: nat, c: nat)
    requires IsClass(c) && Aligned(p, PAGE) && IsBlock(b, p, c)
    ensures b % 4096 != 0 && PageOf(b) == p && b > NULL
    ensures p + STICK_SIZE <= b && b + Pow2(c) <= p + 4096
  {
    PowerTable();
    Pow2Monotone(SMALLEST, c);
    AlignedWeaken(p, PAGE, c);
    AlignedPow2(PAGE, c);
    AlignedSum(p, Pow2(PAGE), c);
    GridStep(b, p + 4096, c);
    MultipleOfAligned(p, PAGE);
    hide Pow2;
    DivModUnique(b, 4096, p / 4096, b - p);
  }

  lemma PageAligned(a: nat)
    ensures Aligned(a, PAGE) <==> a % 4096 == 0
    ensures Aligned(PageOf(a), PAGE) && PageOf(a) <= a < PageOf(a) + 4096
  {
    PowerTable();
    Bits.DivMod(a, 4096);
    ModOfMultiple(a / 4096, 4096);
  }

  // ----- one page's header and free list

  ghost function ElementOr0(s: seq<nat>, i: nat): nat {
    if i < |s| then s[i] else NULL
  }

  /** From head on, the words chain the blocks of the list, ending in NULL. */
  ghost predicate Chained(head: nat, list: seq<nat>, word: map<nat, nat>) {
    && head == ElementOr0(list, 0)
    && forall i {:trigger list[i]} :: 0 <= i < |list| ==> list[i] in word && word[list[i]] == ElementOr0(list, i + 1)
  }

  /** The header counts and chains exactly the free blocks: an acyclic list inside the page. */
  ghost predicate PageOk(p: nat, c: nat, stick: Stick, free: seq<nat>, word: map<nat, nat>) {
    && IsClass(c) && Aligned(p, PAGE) && stick.count == |free| && NoRepeats(free)
    && (forall b :: b in free ==> IsBlock(b, p, c))
    && Chained(stick.list, free, word)
  }

  lemma PushChain(head: nat, list: seq<nat>, word: map<nat, nat>, b: nat)
    requires Chained(head, list, word) && b !in list
    ensures Chained(b, [b] + list, word[b := head])
  {
    forall i | 0 <= i < |list| ensures list[i] != b && ([b] + list)[i + 1] == list[i] {}
  }

  lemma PopChain(head: nat, list: seq<nat>, word: map<nat, nat>)
    requires Chained(head, list, word) && list != []
    ensures list[0] == head && head in word && Chained(word[head], list[1..], word)
  {
    assert list[0] in word;
    forall i | 0 <= i < |list[1..]| ensures list[1..][i] == list[i + 1] {}
  }

  lemma ChainFrame(head: nat, list: seq<nat>, word: map<nat, nat>, a: nat, v: nat)
    requires Chained(head, list, word) && a !in list
    ensures Chained(head, list, word[a := v])
  {
    forall i | 0 <= i < |list| ensures list[i] != a {}
  }

  /** slab_free on the page's header. */
  lemma PushKeepsPage(p: nat, c: nat, stick: Stick, free: seq<nat>, word: map<nat, nat>, b: nat)
    requires PageOk(p, c, stick, free, word) && IsBlock(b, p, c) && b !in free
    ensures PageOk(p, c, Stick(b, stick.next, stick.count + 1), [b] + free, word[b := stick.list])
  {
    hide Chained, IsBlock, Aligned;
    PushChain(stick.list, free, word, b);
  }

  /** find_the_free_space_in_slab on the page's header. */
  lemma PopKeepsPage(p: nat, c: nat, stick: Stick, free: seq<nat>, word: map<nat, nat>)
    requires PageOk(p, c, stick, free, word) && stick.count > 0
    ensures free != [] && stick.list == free[0] && stick.list in word && stick.list !in free[1..]
    ensures IsBlock(stick.list, p, c)
    ensures PageOk(p, c, Stick(word[stick.list], stick.next, stick.count - 1), free[1..], word)
  {
    hide Chained, IsBlock, Aligned;
    PopChain(stick.list, free, word);
    assert free[0] in free;
  }

  /** Words outside the list, such as those of handed-out blocks, do not matter. */
  lemma PageFrame(p: nat, c: nat, stick: Stick, free: seq<nat>, word: map<nat, nat>, a: nat, v: nat)
    requires PageOk(p, c, stick, free, word) && a !in free
    ensures PageOk(p, c, stick, free, word[a := v])
  {
    hide Chained, IsBlock, Aligned;
    ChainFrame(stick.list, free, word, a, v);
  }

  // ----- everything that is handed out

  /** The pages given to size classes, their free blocks, and the large-block heap. */
  datatype Snap = Snap(cls: map<nat, nat>, free: map<nat, seq<nat>>, heap: Heap)

  ghost predicate SnapOk(s: Snap) {
    && HeapInv(s.heap) && s.heap.bot == PAGE && s.heap.begin > NULL
    && s.cls.Keys == s.free.Keys
    && forall p {:trigger s.cls[p]} :: p in s.cls ==>
      && IsClass(s.cls[p]) && Block(p, PAGE) in HeapLive(s.heap)
      && forall b :: b in s.free[p] ==> IsBlock(b, p, s.cls[p])
  }

  /** A block is live when it is a large block not used as a page, or a block of a page
      that is not on the page's free list. */
  ghost predicate LiveIn(s: Snap, b: Block) {
    if b.exp >= PAGE then b in HeapLive(s.heap) && !(b.addr in s.cls && b.exp == PAGE)
    else
      var p := PageOf(b.addr);
      p in s.cls && p in s.free && s.cls[p] == b.exp && IsBlock(b.addr, p, b.exp) && b.addr !in s.free[p]
  }

  /** One past the last byte of the trees' memory. */
  function HeapEnd(h: Heap): nat {
    h.begin + Shl(|h.trees|, h.top)
  }

  ghost predicate Overlap(lo: nat, size: nat, b: Block) {
    lo < b.addr + Pow2(b.exp) && b.addr < lo + size
  }

  /** The large block a live block lies in. */
  ghost function Home(b: Block): Block {
    if b.exp >= PAGE then b else Block(PageOf(b.addr), PAGE)
  }

  lemma HomeFacts(s: Snap, b: Block)
    requires SnapOk(s) && LiveIn(s, b)
    ensures Home(b) in HeapLive(s.heap) && Home(b).addr <= b.addr && b.addr + Pow2(b.exp) <= Home(b).addr + Pow2(Home(b).exp)
    ensures Aligned(b.addr, b.exp) && Home(b).exp >= PAGE && b.addr > NULL
    ensures b.exp < PAGE ==> Home(b).addr in s.cls && b.addr >= Home(b).addr + STICK_SIZE && b.addr % 4096 != 0
    ensures b.exp >= PAGE ==> b.addr % 4096 == 0 && !(b.addr in s.cls && b.exp == PAGE)
  {
    hide Pow2, HeapInv, HeapLive, Aligned, IsBlock;
    HeapLiveSound(s.heap);
    if b.exp < PAGE {
      PageAligned(b.addr);
      BlockFacts(b.addr, PageOf(b.addr), b.exp);
      SmallFacts(b.addr, b.exp);
      PowerTable();
    } else {
      assert b in HeapLive(s.heap);
      AlignedWeaken(b.addr, b.exp, PAGE);
      PageAligned(b.addr);
    }
  }

  lemma SmallFacts(a: nat, c: nat)
    requires IsBlock(a, PageOf(a), c)
    ensures Aligned(a, c)
  {
  }

  /** The allocator's promise: what is live is pairwise disjoint, aligned to its power
      of two, inside the heap, and clear of every page header; and kfree's alignment
      test tells the two kinds of block apart. */
  lemma LiveSound(s: Snap)
    requires SnapOk(s)
    ensures forall a, b :: LiveIn(s, a) && LiveIn(s, b) && a != b ==> Disjoint(a, b)
    ensures forall b :: LiveIn(s, b) ==>
      && Within(b, s.heap.begin, HeapEnd(s.heap)) && Aligned(b.addr, b.exp)
      && (b.addr % 4096 == 0 <==> b.exp >= PAGE)
    ensures forall b, p :: LiveIn(s, b) && p in s.cls ==> !Overlap(p, STICK_SIZE, b)
  {
    hide Pow2, HeapInv, HeapLive, Aligned, IsBlock, SnapOk, LiveIn;
    SnapHeap(s);
    forall b | LiveIn(s, b)
      ensures Within(b, s.heap.begin, HeapEnd(s.heap)) && Aligned(b.addr, b.exp)
      ensures b.addr % 4096 == 0 <==> b.exp >= PAGE
    {
      HomeFacts(s, b);
      HeapLiveSound(s.heap);
      assert Within(Home(b), s.heap.begin, HeapEnd(s.heap));
    }
    forall a, b | LiveIn(s, a) && LiveIn(s, b) && a != b ensures Disjoint(a, b) { LiveApart(s, a, b); }
    forall b, p | LiveIn(s, b) && p in s.cls ensures !Overlap(p, STICK_SIZE, b) { HeaderClear(s, b, p); }
  }

  lemma SnapHeap(s: Snap)
    requires SnapOk(s)
    ensures HeapInv(s.heap) && s.heap.begin > NULL && s.heap.bot == PAGE
  {
  }

  lemma LiveApart(s: Snap, a: Block, b: Block)
    requires SnapOk(s) && LiveIn(s, a) && LiveIn(s, b) && a != b
    ensures Disjoint(a, b)
  {
    hide Pow2, HeapInv, HeapLive, Aligned, IsBlock, SnapOk;
    HomeFacts(s, a);
    HomeFacts(s, b);
    if Home(a) != Home(b) {
      SnapHeap(s);
      HeapLiveSound(s.heap);
      assert Disjoint(Home(a), Home(b));
    } else if a.exp < PAGE && b.exp < PAGE {
      if a.addr < b.addr { GridStep(a.addr, b.addr, a.exp); } else { GridStep(b.addr, a.addr, a.exp); }
    }
  }

  lemma HeaderClear(s: Snap, b: Block, p: nat)
    requires SnapOk(s) && LiveIn(s, b) && p in s.cls
    ensures !Overlap(p, STICK_SIZE, b)
  {
    hide Pow2, HeapInv, HeapLive, Aligned, IsBlock;
    assert IsClass(s.cls[p]);
    HomeFacts(s, b);
    PowerTable();
    if Home(b) != Block(p, PAGE) {
      HeapLiveSound(s.heap);
      assert Disjoint(Home(b), Block(p, PAGE));
    }
  }

  // ----- steps

  ghost predicate Gained(s: Snap, s': Snap, b: Block) {
    !LiveIn(s, b) && forall x {:trigger LiveIn(s', x)} {:trigger LiveIn(s, x)} :: LiveIn(s', x) <==> LiveIn(s, x) || x == b
  }

  ghost predicate SameLive(s: Snap, s': Snap) {
    forall x {:trigger LiveIn(s', x)} {:trigger LiveIn(s, x)} :: LiveIn(s', x) <==> LiveIn(s, x)
  }

  /** Taking the first free block of a page. */
  lemma TakeBlock(s: Snap, p: nat)
    requires SnapOk(s) && p in s.cls && s.free[p] != [] && s.free[p][0] !in s.free[p][1..]
    ensures var s' := s.(free := s.free[p := s.free[p][1..]]);
            SnapOk(s') && Gained(s, s', Block(s.free[p][0], s.cls[p]))
  {
    hide Pow2, HeapInv, HeapLive, Aligned, IsBlock, PageOf;
    var (f, c) := (s.free[p], s.cls[p]);
    var s' := s.(free := s.free[p := f[1..]]);
    assert f[0] in f && s.cls[p] == c;
    InHeap(s, p);
    BlockFacts(f[0], p, c);
    forall a | a in f[1..] ensures a in f {}
    forall q | q in s'.cls ensures IsClass(s'.cls[q]) && Block(q, PAGE) in HeapLive(s'.heap)
      && forall b :: b in s'.free[q] ==> IsBlock(b, q, s'.cls[q]) { assert IsClass(s.cls[q]); }
    forall x ensures LiveIn(s', x) <==> LiveIn(s, x) || x == Block(f[0], c) {
      assert x.addr in f <==> x.addr == f[0] || x.addr in f[1..];
      if x.exp < PAGE && PageOf(x.addr) == p && x.addr == f[0] && x.exp != c { assert s.cls[p] == c; }
    }
  }

  lemma InHeap(s: Snap, p: nat)
    requires SnapOk(s) && p in s.cls
    ensures IsClass(s.cls[p]) && Block(p, PAGE) in HeapLive(s.heap) && Aligned(p, PAGE) && p >= s.heap.begin > NULL
    ensures forall b :: b in s.free[p] ==> IsBlock(b, p, s.cls[p])
  {
    hide Pow2, HeapInv, HeapLive, Aligned, IsBlock;
    assert IsClass(s.cls[p]);
    HeapLiveSound(s.heap);
    assert Within(Block(p, PAGE), s.heap.begin, HeapEnd(s.heap));
  }

  /** Giving a live block back to its page. */
  lemma GiveBlock(s: Snap, b: Block)
    requires SnapOk(s) && LiveIn(s, b) && b.exp < PAGE
    ensures var p := PageOf(b.addr);
            p in s.cls && p in s.free && b.addr !in s.free[p] && IsBlock(b.addr, p, s.cls[p])
    ensures var p := PageOf(b.addr);
            var s' := s.(free := s.free[p := [b.addr] + s.free[p]]);
            SnapOk(s') && Gained(s', s, b)
  {
    hide Pow2, HeapInv, HeapLive, Aligned, IsBlock, PageOf;
    var p := PageOf(b.addr);
    var s' := s.(free := s.free[p := [b.addr] + s.free[p]]);
    InHeap(s, p);
    forall q | q in s'.cls ensures IsClass(s'.cls[q]) && Block(q, PAGE) in HeapLive(s'.heap)
      && forall a :: a in s'.free[q] ==> IsBlock(a, q, s'.cls[q]) { assert IsClass(s.cls[q]); }
    forall x ensures LiveIn(s, x) <==> LiveIn(s', x) || x == b {
      assert x.addr in s'.free[p] <==> x.addr == b.addr || x.addr in s.free[p];
    }
  }

  /** Turning a live large block into a page whose blocks are all free. */
  lemma UseAsPage(s: Snap, p: nat, c: nat, free: seq<nat>)
    requires SnapOk(s) && IsClass(c) && LiveIn(s, Block(p, PAGE)) && HoldsBlocks(free, p, c, p + 4096)
    ensures p !in s.cls
    ensures var s' := s.(cls := s.cls[p := c], free := s.free[p := free]);
            SnapOk(s') && Gained(s', s, Block(p, PAGE))
  {
    hide Pow2, HeapInv, HeapLive, Aligned, IsBlock;
    var s' := s.(cls := s.cls[p := c], free := s.free[p := free]);
    forall q | q in s'.cls ensures IsClass(s'.cls[q]) && Block(q, PAGE) in HeapLive(s'.heap)
      && forall a :: a in s'.free[q] ==> IsBlock(a, q, s'.cls[q]) { assert q != p ==> IsClass(s.cls[q]); }
    forall x ensures LiveIn(s, x) <==> LiveIn(s', x) || x == Block(p, PAGE) {
      if x.exp < PAGE && PageOf(x.addr) == p && IsBlock(x.addr, p, c) { InPage(x.addr, p, c); }
    }
  }

  lemma InPage(a: nat, p: nat, c: nat)
    requires IsBlock(a, p, c)
    ensures a < p + 4096
  {
  }

  lemma GainedTrans(s0: Snap, s1: Snap, s2: Snap, s3: Snap, p: Block, b: Block)
    requires Gained(s0, s1, p) && Gained(s2, s1, p) && Gained(s2, s3, b)
    ensures Gained(s0, s3, b)
  {
    hide LiveIn;
    forall x ensures LiveIn(s3, x) <==> LiveIn(s0, x) || x == b {
      assert LiveIn(s1, x) <==> LiveIn(s0, x) || x == p;
      assert LiveIn(s1, x) <==> LiveIn(s2, x) || x == p;
      assert LiveIn(s3, x) <==> LiveIn(s2, x) || x == b;
    }
  }

  /** Handing out a large block. */
  lemma TakeLarge(s: Snap, b: Block, heap: Heap)
    requires SnapOk(s) && HeapInv(heap) && SameLayout(s.heap, heap) && b.exp >= PAGE
    requires b !in HeapLive(s.heap) && HeapLive(heap) == HeapLive(s.heap) + {b}
    ensures SnapOk(s.(heap := heap)) && Gained(s, s.(heap := heap), b)
  {
    hide Pow2, HeapInv, HeapLive, Aligned, IsBlock;
    assert b.addr in s.cls ==> IsClass(s.cls[b.addr]);
    var s' := s.(heap := heap);
    forall q | q in s'.cls ensures IsClass(s'.cls[q]) && Block(q, PAGE) in HeapLive(s'.heap)
      && forall a :: a in s'.free[q] ==> IsBlock(a, q, s'.cls[q]) { assert IsClass(s.cls[q]); }
  }

  /** Taking a live large block back. */
  lemma GiveLarge(s: Snap, b: Block, heap: Heap)
    requires SnapOk(s) && HeapInv(heap) && SameLayout(s.heap, heap) && LiveIn(s, b) && b.exp >= PAGE
    requires HeapLive(heap) == HeapLive(s.heap) - {b}
    ensures SnapOk(s.(heap := heap)) && Gained(s.(heap := heap), s, b)
  {
    hide Pow2, HeapInv, HeapLive, Aligned, IsBlock;
    var s' := s.(heap := heap);
    forall q | q in s'.cls ensures IsClass(s'.cls[q]) && Block(q, PAGE) in HeapLive(s'.heap)
      && forall a :: a in s'.free[q] ==> IsBlock(a, q, s'.cls[q]) { assert IsClass(s.cls[q]); }
  }
}
