/** All buddy trees together: the large-block allocator of kernel/src/tbma.c as a
    state machine over values. Tree depth, tree count and base address are
    parameters; the kernel uses bot = 12, top = 24. */
module BuddyHeap {
  import opened Wrappers
  import opened Powers
  import opened BuddyTree

  datatype Heap = Heap(bot: nat, top: nat, begin: nat, trees: seq<Tree>)

  /** An allocation of size bytes while the locks of the trees in busy are held
      by other CPUs (tree numbers count from 1), or the release of an address. */
  datatype Op = AllocOp(size: nat, busy: set<nat>) | FreeOp(addr: nat)

  /** The level served for a request, or None for BBMA_REFUSE. */
  function LevelFor(size: nat, s: nat, top: nat): (r: Option<nat>)
    ensures r.Some? ==> s <= r.value <= top && size <= Pow2(r.value)
    ensures r.Some? ==> forall m: nat :: s <= m < r.value ==> size > Pow2(m)
    ensures r.None? ==> forall m: nat :: s <= m <= top ==> size > Pow2(m)
    decreases top + 1 - s
  {
    if s > top then None else if size <= Pow2(s) then Some(s) else LevelFor(size, s + 1, top)
  }

  /** First byte managed by tree number k (from 1). */
  function MemStart(h: Heap, k: nat): nat
    requires k >= 1
  {
    h.begin + (k - 1) * Pow2(h.top)
  }

  predicate HeapInv(h: Heap) {
    && 2 <= h.bot <= h.top && Aligned(h.begin, h.top)
    && forall k {:trigger h.trees[k]} :: 0 <= k < |h.trees| ==> Inv(h.trees[k], h.top, h.bot)
  }

  function TreeLive(h: Heap, k: nat): set<Block>
    requires 1 <= k <= |h.trees|
  {
    Live(h.trees[k - 1], h.top, MemStart(h, k))
  }

  function HeapLive(h: Heap): set<Block> {
    set k, b | 1 <= k <= |h.trees| && b in TreeLive(h, k) :: b
  }

  function FreshHeap(bot: nat, top: nat, begin: nat, n: nat): Heap
    requires bot <= top
  {
    Heap(bot, top, begin, seq(n, i => Full(top, bot)))
  }

  /** find_available_tree: the first tree, from k on, whose lock can be taken and
      whose root summary reaches the request. */
  function FindTree(h: Heap, req: nat, busy: set<nat>, k: nat): (r: Option<nat>)
    requires k >= 1
    ensures r.Some? ==> k <= r.value <= |h.trees| && r.value !in busy && h.trees[r.value - 1].v >= req
    decreases |h.trees| + 1 - k
  {
    if k > |h.trees| then None
    else if k !in busy && h.trees[k - 1].v >= req then Some(k)
    else FindTree(h, req, busy, k + 1)
  }

  /** bbma_alloc */
  function AllocBlock(h: Heap, size: nat, busy: set<nat>): (Option<nat>, Heap) {
    var level := LevelFor(size, h.bot, h.top);
    if level.None? then (None, h)
    else
      var k := FindTree(h, level.value, busy, 1);
      if k.None? then (None, h)
      else
        var (found, x) := Alloc(h.trees[k.value - 1], h.top, level.value);
        if found.None? then (None, h)
        else (Some(MemStart(h, k.value) + found.value), h.(trees := h.trees[k.value - 1 := x]))
  }

  /** determine_which_tree: mask the address down to a tree boundary. */
  function WhichTree(h: Heap, addr: nat): int {
    (addr - addr % Pow2(h.top) - h.begin) / Pow2(h.top) + 1
  }

  /** bbma_free; None when the assertion on the address fails, which it does at the
      very first one, or when the address does not lead to a handed-out node. */
  function FreeBlock(h: Heap, addr: nat): Option<Heap> {
    var k := WhichTree(h, addr);
    if addr <= h.begin || !(1 <= k <= |h.trees|) || addr < MemStart(h, k) then None
    else
      var x := Free(h.trees[k - 1], h.top, addr - MemStart(h, k));
      if x.None? then None else Some(h.(trees := h.trees[k - 1 := x.value]))
  }

  // ----- the trees side by side

  lemma MemStartAligned(h: Heap, k: nat)
    requires k >= 1 && Aligned(h.begin, h.top)
    ensures Aligned(MemStart(h, k), h.top)
  {
    ModOfMultiple(k - 1, Pow2(h.top));
    AlignedSum(h.begin, (k - 1) * Pow2(h.top), h.top);
  }

  lemma MemStartApart(h: Heap, j: nat, k: nat)
    requires 1 <= j < k
    ensures MemStart(h, j) + Pow2(h.top) <= MemStart(h, k)
  {
    MulMonotone(j, k - 1, Pow2(h.top));
    assert (j - 1) * Pow2(h.top) + Pow2(h.top) == j * Pow2(h.top);
  }

  lemma TreeInside(h: Heap, k: nat)
    requires 1 <= k <= |h.trees|
    ensures h.begin <= MemStart(h, k)
    ensures MemStart(h, k) + Pow2(h.top) <= h.begin + |h.trees| * Pow2(h.top)
  {
    MulMonotone(0, k - 1, Pow2(h.top));
    MulMonotone(k, |h.trees|, Pow2(h.top));
    assert (k - 1) * Pow2(h.top) + Pow2(h.top) == k * Pow2(h.top);
  }

  /** Masking finds the tree of every address inside it. */
  lemma WhichTreeOfInside(h: Heap, k: nat, addr: nat)
    requires k >= 1 && Aligned(h.begin, h.top)
    requires MemStart(h, k) <= addr < MemStart(h, k) + Pow2(h.top)
    ensures WhichTree(h, addr) == k && addr - addr % Pow2(h.top) >= h.begin
  {
    var m := Pow2(h.top);
    MemStartAligned(h, k);
    MultipleOfAligned(MemStart(h, k), h.top);
    DivModUnique(addr, m, MemStart(h, k) / m, addr - MemStart(h, k));
    assert addr - addr % m - h.begin == (k - 1) * m;
    ModOfMultiple(k - 1, m);
  }

  /** Each live block lies in the memory of the tree it belongs to, and masking
      its address finds that tree. */
  lemma TreeLiveSound(h: Heap, k: nat)
    requires HeapInv(h) && 1 <= k <= |h.trees|
    ensures forall b :: b in TreeLive(h, k) ==>
              && Within(b, MemStart(h, k), MemStart(h, k) + Pow2(h.top))
              && h.bot <= b.exp <= h.top && Aligned(b.addr, b.exp) && WhichTree(h, b.addr) == k
    ensures forall a, b :: a in TreeLive(h, k) && b in TreeLive(h, k) && a != b ==> Disjoint(a, b)
  {
    MemStartAligned(h, k);
    LiveSound(h.trees[k - 1], h.top, h.bot, MemStart(h, k));
    forall b | b in TreeLive(h, k) ensures WhichTree(h, b.addr) == k {
      WhichTreeOfInside(h, k, b.addr);
    }
  }

  /** All live blocks of the heap lie inside it, are aligned to their power-of-two
      size, and are pairwise disjoint. */
  lemma HeapLiveSound(h: Heap)
    requires HeapInv(h)
    ensures forall b :: b in HeapLive(h) ==>
              && Within(b, h.begin, h.begin + |h.trees| * Pow2(h.top))
              && h.bot <= b.exp <= h.top && Aligned(b.addr, b.exp)
    ensures forall a, b :: a in HeapLive(h) && b in HeapLive(h) && a != b ==> Disjoint(a, b)
  {
    hide Aligned, Pow2, Inv, Live;
    forall b | b in HeapLive(h)
      ensures Within(b, h.begin, h.begin + |h.trees| * Pow2(h.top))
      ensures h.bot <= b.exp <= h.top && Aligned(b.addr, b.exp)
    {
      var k :| 1 <= k <= |h.trees| && b in TreeLive(h, k);
      TreeLiveSound(h, k);
      TreeInside(h, k);
    }
    forall a, b | a in HeapLive(h) && b in HeapLive(h) && a != b
      ensures Disjoint(a, b)
    {
      var j :| 1 <= j <= |h.trees| && a in TreeLive(h, j);
      var k :| 1 <= k <= |h.trees| && b in TreeLive(h, k);
      TreeLiveSound(h, j);
      TreeLiveSound(h, k);
      if j < k { MemStartApart(h, j, k); } else if k < j { MemStartApart(h, k, j); }
    }
  }

  lemma OwnTree(h: Heap, k: nat, b: Block)
    requires HeapInv(h) && 1 <= k <= |h.trees| && b in HeapLive(h) && WhichTree(h, b.addr) == k
    ensures b in TreeLive(h, k)
  {
    var j :| 1 <= j <= |h.trees| && b in TreeLive(h, j);
    TreeLiveSound(h, j);
  }

  /** Replacing one tree changes the live set exactly by that tree's part. */
  lemma HeapLiveUpdate(h: Heap, k: nat, x: Tree, h': Heap)
    requires HeapInv(h) && 1 <= k <= |h.trees| && Inv(x, h.top, h.bot)
    requires h' == h.(trees := h.trees[k - 1 := x])
    ensures HeapInv(h')
    ensures HeapLive(h') == (HeapLive(h) - TreeLive(h, k)) + TreeLive(h', k)
  {
    forall b ensures b in HeapLive(h') <==> b in (HeapLive(h) - TreeLive(h, k)) + TreeLive(h', k) {
      if b in HeapLive(h) && b !in TreeLive(h, k) {
        var j :| 1 <= j <= |h.trees| && b in TreeLive(h, j);
        assert b in TreeLive(h', j);
      }
      if b in HeapLive(h') {
        var j :| 1 <= j <= |h'.trees| && b in TreeLive(h', j);
        if j != k {
          assert b in TreeLive(h, j);
          TreeLiveSound(h, j);
          TreeLiveSound(h, k);
        }
      }
    }
  }

  // ----- single operations

  predicate SameLayout(h: Heap, h': Heap) {
    h'.bot == h.bot && h'.top == h.top && h'.begin == h.begin && |h'.trees| == |h.trees|
  }

  /** The smallest level whose blocks hold size bytes. */
  predicate LeastLevel(h: Heap, size: nat, lv: nat) {
    h.bot <= lv <= h.top && size <= Pow2(lv) && (lv > h.bot ==> size > Pow2(lv - 1))
  }

  /** The one block [p, p + 2^lv) was added to what is handed out. */
  ghost predicate HandedOut(h: Heap, size: nat, p: nat, lv: nat, h': Heap) {
    && LeastLevel(h, size, lv) && Aligned(p, lv) && p >= h.begin
    && Block(p, lv) !in HeapLive(h)
    && HeapLive(h') == HeapLive(h) + {Block(p, lv)}
  }

  /** Why NULL was answered: too large, or no tree that could be locked
      advertised a block of the level. */
  ghost predicate Refused(h: Heap, size: nat, busy: set<nat>) {
    || size > Pow2(h.top)
    || exists lv: nat :: LeastLevel(h, size, lv)
         && forall k {:trigger h.trees[k - 1]} :: 1 <= k <= |h.trees| ==> k in busy || h.trees[k - 1].v < lv
  }

  /** What bbma_alloc may answer, for every heap satisfying the invariant: a
      block at least as large as the request, aligned to its size, disjoint from
      everything handed out, and nothing else changes; or NULL with no change,
      exactly when the request is too large or no tree that could be locked
      advertises enough space. */
  lemma AllocBlockCorrect(h: Heap, size: nat, busy: set<nat>)
    requires HeapInv(h)
    ensures HeapInv(AllocBlock(h, size, busy).1) && SameLayout(h, AllocBlock(h, size, busy).1)
    ensures AllocBlock(h, size, busy).0.None? <==> Refused(h, size, busy)
    ensures AllocBlock(h, size, busy).0.None? ==> AllocBlock(h, size, busy).1 == h
    ensures AllocBlock(h, size, busy).0.Some? ==>
              && LevelFor(size, h.bot, h.top).Some?
              && HandedOut(h, size, AllocBlock(h, size, busy).0.value,
                           LevelFor(size, h.bot, h.top).value, AllocBlock(h, size, busy).1)
  {
    hide Aligned, Pow2, Inv, Live, Alloc, HeapLive;
    var level := LevelFor(size, h.bot, h.top);
    RefusedExactly(h, size, busy);
    if level.Some? && FindTree(h, level.value, busy, 1).Some? {
      var (lv, k) := (level.value, FindTree(h, level.value, busy, 1).value);
      LevelIsLeast(size, h.bot, h.top);
      MemStartAligned(h, k);
      AllocCorrect(h.trees[k - 1], h.top, h.bot, lv, MemStart(h, k));
      var (found, x) := Alloc(h.trees[k - 1], h.top, lv);
      AllocInTree(h, k, x, Block(MemStart(h, k) + found.value, lv));
    }
  }

  /** Adding one block to one tree adds it to the heap. */
  lemma AllocInTree(h: Heap, k: nat, x: Tree, b: Block)
    requires HeapInv(h) && 1 <= k <= |h.trees| && Inv(x, h.top, h.bot) && b !in TreeLive(h, k)
    requires Live(x, h.top, MemStart(h, k)) == TreeLive(h, k) + {b}
    ensures var h' := h.(trees := h.trees[k - 1 := x]);
            HeapInv(h') && b !in HeapLive(h) && HeapLive(h') == HeapLive(h) + {b}
    ensures b.addr >= h.begin && Aligned(b.addr, b.exp)
  {
    hide Aligned, Pow2, Inv, Live, HeapLive;
    var h' := h.(trees := h.trees[k - 1 := x]);
    HeapLiveUpdate(h, k, x, h');
    TreeLiveSound(h', k);
    TreeInside(h', k);
    if b in HeapLive(h) { OwnTree(h, k, b); }
    TreePart(h, k);
  }

  lemma TreePart(h: Heap, k: nat)
    requires 1 <= k <= |h.trees|
    ensures TreeLive(h, k) <= HeapLive(h)
  {
    hide Live;
  }

  lemma LevelIsLeast(size: nat, bot: nat, top: nat)
    requires bot <= top && LevelFor(size, bot, top).Some?
    ensures var lv := LevelFor(size, bot, top).value;
            bot <= lv <= top && size <= Pow2(lv) && (lv > bot ==> size > Pow2(lv - 1))
  {
    hide Pow2;
  }

  /** NULL is answered exactly in the two cases of Refused. */
  lemma RefusedExactly(h: Heap, size: nat, busy: set<nat>)
    requires HeapInv(h)
    ensures var level := LevelFor(size, h.bot, h.top);
            Refused(h, size, busy) <==> level.None? || FindTree(h, level.value, busy, 1).None?
  {
    hide Pow2, Inv, Aligned;
    var level := LevelFor(size, h.bot, h.top);
    if level.None? {
      assert size > Pow2(h.top);
    } else {
      LevelIsLeast(size, h.bot, h.top);
      Pow2Monotone(level.value, h.top);
      forall lv: nat | LeastLevel(h, size, lv) ensures lv == level.value { LeastUnique(h, size, lv, level.value); }
      var found := FindTree(h, level.value, busy, 1);
      if found.None? {
        FindTreeNone(h, level.value, busy, 1);
        assert LeastLevel(h, size, level.value);
        forall k | 1 <= k <= |h.trees| ensures k in busy || h.trees[k - 1].v < level.value {}
      } else {
        assert h.trees[found.value - 1].v >= level.value;
      }
    }
  }

  lemma LeastUnique(h: Heap, size: nat, a: nat, b: nat)
    requires LeastLevel(h, size, a) && LeastLevel(h, size, b)
    ensures a == b
  {
    if a < b { Pow2Monotone(a, b - 1); } else if b < a { Pow2Monotone(b, a - 1); }
  }

  lemma {:induction false} FindTreeNone(h: Heap, req: nat, busy: set<nat>, k: nat)
    requires k >= 1 && FindTree(h, req, busy, k).None?
    ensures forall j :: k <= j <= |h.trees| ==> j in busy || h.trees[j - 1].v < req
    decreases |h.trees| + 1 - k
  {
    if k <= |h.trees| {
      FindTreeNone(h, req, busy, k + 1);
    }
  }

  /** The trees before number k cannot be locked or advertise less. */
  predicate PassedOver(h: Heap, req: nat, busy: set<nat>, k: nat) {
    forall j {:trigger h.trees[j - 1]} :: 1 <= j < k && j <= |h.trees| ==> j in busy || h.trees[j - 1].v < req
  }

  /** The first tree that can be locked and advertises enough is the one that is used. */
  lemma {:induction false} FindTreeFirst(h: Heap, req: nat, busy: set<nat>, k: nat)
    requires k >= 1 && FindTree(h, req, busy, k).Some?
    ensures forall j {:trigger h.trees[j - 1]} :: k <= j < FindTree(h, req, busy, k).value ==> j in busy || h.trees[j - 1].v < req
    decreases |h.trees| + 1 - k
  {
    if !(k !in busy && h.trees[k - 1].v >= req) { FindTreeFirst(h, req, busy, k + 1); }
  }

  ghost predicate LowestOf(p: nat, s: set<nat>) {
    p in s && forall a :: a in s ==> p <= a
  }

  /** Tree k is the first that can be locked and advertises enough, and p is the lowest
      address that summaries lead to there. */
  ghost predicate ServedBy(h: Heap, lv: nat, busy: set<nat>, k: nat, p: nat) {
    && 1 <= k <= |h.trees| && k !in busy && PassedOver(h, lv, busy, k)
    && LowestOf(p, Offers(h.trees[k - 1], h.top, lv, MemStart(h, k)))
  }

  /** Which block is handed out. */
  lemma ServedFirst(h: Heap, size: nat, busy: set<nat>)
    requires HeapInv(h) && AllocBlock(h, size, busy).0.Some?
    ensures LevelFor(size, h.bot, h.top).Some?
    ensures exists k: nat :: ServedBy(h, LevelFor(size, h.bot, h.top).value, busy, k, AllocBlock(h, size, busy).0.value)
  {
    hide Pow2, Inv, Aligned, Alloc, Offers;
    var lv := LevelFor(size, h.bot, h.top).value;
    LevelIsLeast(size, h.bot, h.top);
    FindTreeFirst(h, lv, busy, 1);
    var k := FindTree(h, lv, busy, 1).value;
    assert Inv(h.trees[k - 1], h.top, h.bot);
    AllocLowest(h.trees[k - 1], h.top, h.bot, lv, MemStart(h, k));
    assert ServedBy(h, lv, busy, k, AllocBlock(h, size, busy).0.value);
  }

  /** Some tree could be locked and has a free block for the request below it. */
  ghost predicate Available(h: Heap, lv: nat, busy: set<nat>) {
    exists k {:trigger h.trees[k - 1]} :: 1 <= k <= |h.trees| && k !in busy && Largest(h.trees[k - 1], h.top) >= lv
  }

  /** When no root is understated, NULL means that nothing fits; so where NULL is
      answered although a block fits, the tree that has it is understated. */
  lemma CompleteUnlessUnderstated(h: Heap, size: nat, busy: set<nat>, lv: nat)
    requires HeapInv(h) && LeastLevel(h, size, lv)
    ensures AllocBlock(h, size, busy).0.Some? ==> Available(h, lv, busy)
    ensures AllocBlock(h, size, busy).0.None? ==>
      forall k {:trigger h.trees[k - 1]} :: 1 <= k <= |h.trees| && k !in busy && Largest(h.trees[k - 1], h.top) >= lv ==>
        !Reachable(h.trees[k - 1], h.top)
    ensures (forall k {:trigger h.trees[k - 1]} :: 1 <= k <= |h.trees| ==> Reachable(h.trees[k - 1], h.top)) ==>
      (AllocBlock(h, size, busy).0.None? <==> !Available(h, lv, busy))
  {
    hide Pow2, Inv, Aligned, Alloc, Largest, Reachable;
    AllocBlockCorrect(h, size, busy);
    var r := AllocBlock(h, size, busy).0;
    Pow2Monotone(lv, h.top);
    forall j | 0 <= j < |h.trees|
      ensures Promised(h.trees[j].v) <= Largest(h.trees[j], h.top)
      ensures Promised(h.trees[j].v) == Largest(h.trees[j], h.top) <==> Reachable(h.trees[j], h.top)
    {
      SummaryExact(h.trees[j], h.top, h.bot);
    }
    if r.None? {
      forall l: nat | LeastLevel(h, size, l) ensures l == lv { LeastUnique(h, size, l, lv); }
    } else {
      var k := FindTree(h, LevelFor(size, h.bot, h.top).value, busy, 1).value;
      LevelIsLeast(size, h.bot, h.top);
      LeastUnique(h, size, lv, LevelFor(size, h.bot, h.top).value);
      assert h.trees[k - 1].v >= lv;
    }
  }

  /** Every request, whatever locks others hold, gets a block exactly when one that fits
      is free in a tree that can be locked. */
  ghost predicate AnswersAll(h: Heap) {
    forall size: nat, busy: set<nat>, lv: nat {:trigger LeastLevel(h, size, lv), AllocBlock(h, size, busy)} ::
      LeastLevel(h, size, lv) ==> (AllocBlock(h, size, busy).0.None? <==> !Available(h, lv, busy))
  }

  /** That is the case if and only if no root is understated. */
  lemma CompleteIffExact(h: Heap)
    requires HeapInv(h)
    ensures AnswersAll(h) <==>
      forall k {:trigger h.trees[k - 1]} :: 1 <= k <= |h.trees| ==> Reachable(h.trees[k - 1], h.top)
  {
    hide Pow2, Inv, Aligned, AllocBlock, Largest, Reachable, LeastLevel, Available, HeapInv;
    if AnswersAll(h) {
      forall k {:trigger h.trees[k - 1]} | 1 <= k <= |h.trees| ensures Reachable(h.trees[k - 1], h.top) {
        if !Reachable(h.trees[k - 1], h.top) {
          var busy := UnderstatedRefuses(h, k);
          assert LeastLevel(h, Pow2(Largest(h.trees[k - 1], h.top)), Largest(h.trees[k - 1], h.top));
        }
      }
    } else {
      var size: nat, busy: set<nat>, lv: nat :|
        LeastLevel(h, size, lv) && !(AllocBlock(h, size, busy).0.None? <==> !Available(h, lv, busy));
      CompleteUnlessUnderstated(h, size, busy, lv);
    }
  }

  function Others(n: nat, k: nat): (s: set<nat>)
    ensures forall j: nat :: j in s <==> 1 <= j <= n && j != k
  {
    if n == 0 then {} else Others(n - 1, k) + if n == k then {} else {n}
  }

  /** An understated root hides a block: with all other trees locked, a request of the
      size of the tree's largest free block is refused. */
  lemma UnderstatedRefuses(h: Heap, k: nat) returns (busy: set<nat>)
    requires HeapInv(h) && 1 <= k <= |h.trees| && !Reachable(h.trees[k - 1], h.top)
    ensures var lv := Largest(h.trees[k - 1], h.top);
            LeastLevel(h, Pow2(lv), lv) && Available(h, lv, busy) && AllocBlock(h, Pow2(lv), busy).0.None?
  {
    hide Pow2, Inv, Aligned, Alloc, Largest, Reachable;
    var x := h.trees[k - 1];
    var lv := Largest(x, h.top);
    busy := Others(|h.trees|, k);
    SummaryExact(x, h.top, h.bot);
    LargestInRange(x, h.top, h.bot);
    if lv > h.bot { Pow2Step(lv); }
    AllocBlockCorrect(h, Pow2(lv), busy);
    assert LeastLevel(h, Pow2(lv), lv);
    assert x.v < lv;
  }

  lemma Pow2Step(n: nat)
    requires n > 0
    ensures Pow2(n - 1) < Pow2(n)
  {
  }

  lemma LargestInRange(x: Tree, s: nat, bot: nat)
    requires 2 <= bot && Inv(x, s, bot) && Largest(x, s) != 0
    ensures bot <= Largest(x, s) <= s
  {
    LargestMeaning(x, s, bot, 0);
    var b :| b in FreeBlocks(x, s, 0) && b.exp == Largest(x, s);
    LargestBelow(x, s);
  }

  lemma {:induction false} LargestBelow(x: Tree, s: nat)
    ensures Largest(x, s) <= s
    decreases x
  {
    if !(x.v == FULL_USED || x.v == s || x.Leaf? || s == 0) {
      LargestBelow(x.left, s - 1);
      LargestBelow(x.right, s - 1);
    }
  }

  /** Releasing a live block succeeds unless it is the one at the heap's first address,
      and removes exactly that block. */
  lemma FreeBlockCorrect(h: Heap, b: Block)
    requires HeapInv(h) && b in HeapLive(h)
    ensures FreeBlock(h, b.addr).Some? <==> b.addr != h.begin
    ensures b.addr != h.begin ==>
            var h' := FreeBlock(h, b.addr).value;
            && HeapInv(h') && SameLayout(h, h')
            && HeapLive(h') == HeapLive(h) - {b}
            && exists k {:trigger h.trees[k - 1]} :: 1 <= k <= |h.trees| && b in TreeLive(h, k) && h'.trees[k - 1].v >= b.exp
  {
    hide Aligned, Pow2, Inv, Live, Free;
    var k :| 1 <= k <= |h.trees| && b in TreeLive(h, k);
    TreeLiveSound(h, k);
    TreeInside(h, k);
    MemStartAligned(h, k);
    if b.addr != h.begin {
      FreeCorrect(h.trees[k - 1], h.top, h.bot, MemStart(h, k), b);
      var x := Free(h.trees[k - 1], h.top, b.addr - MemStart(h, k)).value;
      var h' := h.(trees := h.trees[k - 1 := x]);
      HeapLiveUpdate(h, k, x, h');
      TreeLiveSound(h', k);
      assert HeapLive(h') == HeapLive(h) - {b};
    }
  }

  /** What was released can be had again at once: a request that fits the block is served,
      whatever else is taken, as long as its tree can be locked. */
  lemma ReleasedIsServed(h: Heap, b: Block, size: nat, busy: set<nat>)
    requires HeapInv(h) && b in HeapLive(h) && b.addr != h.begin && size <= Pow2(b.exp)
    requires forall k :: 1 <= k <= |h.trees| && b in TreeLive(h, k) ==> k !in busy
    ensures FreeBlock(h, b.addr).Some? && AllocBlock(FreeBlock(h, b.addr).value, size, busy).0.Some?
  {
    hide Aligned, Pow2, Inv, Live, HeapLive, AllocBlock, FreeBlock;
    FreeBlockCorrect(h, b);
    var h' := FreeBlock(h, b.addr).value;
    var k :| 1 <= k <= |h.trees| && b in TreeLive(h, k) && h'.trees[k - 1].v >= b.exp;
    AllocBlockCorrect(h', size, busy);
    TreeLiveSound(h, k);
    if Refused(h', size, busy) {
      Pow2Monotone(b.exp, h.top);
      var lv: nat :| LeastLevel(h', size, lv) && forall j {:trigger h'.trees[j - 1]} :: 1 <= j <= |h'.trees| ==> j in busy || h'.trees[j - 1].v < lv;
      assert h'.trees[k - 1].v < lv;
      if lv > b.exp { Pow2Monotone(b.exp, lv - 1); }
    }
  }

  /** alloc and then free of its result restores every tree exactly, unless the block
      is the one at the heap's first address, whose release the code refuses. */
  lemma AllocFreeBlockIdentity(h: Heap, size: nat, busy: set<nat>)
    requires HeapInv(h) && AllocBlock(h, size, busy).0.Some?
    ensures var (p, h') := AllocBlock(h, size, busy);
            FreeBlock(h', p.value) == if p.value == h.begin then None else Some(h)
  {
    hide Inv, Aligned, HeapLive;
    var lv := LevelFor(size, h.bot, h.top).value;
    var k := FindTree(h, lv, busy, 1).value;
    var x := h.trees[k - 1];
    assert Inv(x, h.top, h.bot);
    hide Pow2, Alloc, Free;
    AllocFreeIdentity(x, h.top, h.bot, lv);
    AllocOffset(x, h.top, h.bot, lv);
    var (p, h') := AllocBlock(h, size, busy);
    WhichTreeOfInside(h', k, p.value);
    TreeInside(h', k);
    assert h'.trees[k - 1 := x] == h.trees;
  }

  // ----- every run

  /** Legal histories: only live blocks are released (the caller's duty in C).
      The result is the final heap, or None for an illegal history. */
  function Run(h: Heap, ops: seq<Op>): Option<Heap>
    decreases |ops|
  {
    if ops == [] then Some(h)
    else
      match ops[0]
      case AllocOp(size, busy) => Run(AllocBlock(h, size, busy).1, ops[1..])
      case FreeOp(addr) =>
        if exists b :: b in HeapLive(h) && b.addr == addr then
          var h' := FreeBlock(h, addr);
          if h'.None? then None else Run(h'.value, ops[1..])
        else None
  }

  /** The invariant, and with it HeapLiveSound, holds after every legal history. */
  lemma {:induction false} RunSafe(h: Heap, ops: seq<Op>)
    requires HeapInv(h) && Run(h, ops).Some?
    ensures var h' := Run(h, ops).value;
            HeapInv(h') && SameLayout(h, h')
    decreases |ops|
  {
    if ops != [] {
      match ops[0]
      case AllocOp(size, busy) =>
        AllocBlockCorrect(h, size, busy);
        RunSafe(AllocBlock(h, size, busy).1, ops[1..]);
      case FreeOp(addr) =>
        var b :| b in HeapLive(h) && b.addr == addr;
        FreeBlockCorrect(h, b);
        RunSafe(FreeBlock(h, addr).value, ops[1..]);
    }
  }

  /** A heap right after bbma_init hands out its first address first, and giving that
      block back fails: the two-step history ends at the assertion. */
  lemma FirstBlockIsKept(bot: nat, top: nat, begin: nat, n: nat, size: nat)
    requires 2 <= bot <= top && Aligned(begin, top) && n > 0 && size <= Pow2(top)
    ensures var h := FreshHeap(bot, top, begin, n);
            && AllocBlock(h, size, {}).0 == Some(begin)
            && FreeBlock(AllocBlock(h, size, {}).1, begin) == None
            && Run(h, [AllocOp(size, {}), FreeOp(begin)]) == None
  {
    var h := FreshHeap(bot, top, begin, n);
    FullInv(top, bot);
    var lv := LevelFor(size, bot, top).value;
    AllocFromFull(top, bot, lv);
    assert FindTree(h, lv, {}, 1) == Some(1);
    assert MemStart(h, 1) == begin;
    hide Pow2, Alloc, Full;
    var ops := [AllocOp(size, {}), FreeOp(begin)];
    assert ops[1..] == [FreeOp(begin)] && ops[1..][0] == FreeOp(begin);
    assert FreeBlock(AllocBlock(h, size, {}).1, begin) == None;
  }

  /** The first tree is untouched or still has its first block handed out, and none of
      its nodes is understated while at most that block is live below it. */
  ghost predicate FirstStays(h: Heap) {
    h.bot <= h.top && (h.trees != [] ==>
      && Tight(h.trees[0], h.top, h.begin, h.begin)
      && (h.trees[0] == Full(h.top, h.bot) || exists b :: b in TreeLive(h, 1) && b.addr == h.begin))
  }

  lemma AllocKeepsFirst(h: Heap, size: nat, busy: set<nat>)
    requires HeapInv(h) && FirstStays(h)
    ensures FirstStays(AllocBlock(h, size, busy).1)
  {
    hide Inv, Aligned, Tight, Alloc, Full, Live, LevelFor;
    var level := LevelFor(size, h.bot, h.top);
    if level.Some? && FindTree(h, level.value, busy, 1) == Some(1) {
      LevelIsLeast(size, h.bot, h.top);
      assert Inv(h.trees[0], h.top, h.bot);
      FirstTreeKeeps(h.trees[0], h.top, h.bot, level.value, h.begin);
    }
  }

  lemma FirstTreeKeeps(x: Tree, top: nat, bot: nat, lv: nat, begin: nat)
    requires 2 <= bot <= lv <= top && Inv(x, top, bot) && x.v >= lv && Tight(x, top, begin, begin) && Aligned(begin, top)
    requires x == Full(top, bot) || exists b :: b in Live(x, top, begin) && b.addr == begin
    ensures var y := Alloc(x, top, lv).1;
            Tight(y, top, begin, begin) && exists b :: b in Live(y, top, begin) && b.addr == begin
  {
    hide Inv, Aligned, Pow2, Tight, Alloc, Full, Live;
    AllocCorrect(x, top, bot, lv, begin);
    var (found, y) := Alloc(x, top, lv);
    var b := Block(begin + found.value, lv);
    if x == Full(top, bot) {
      AllocFromFull(top, bot, lv);
      FirstAllocTight(top, bot, lv, begin, begin);
      assert b in Live(y, top, begin);
    } else {
      var a :| a in Live(x, top, begin) && a.addr == begin;
      LiveSound(y, top, bot, begin);
      assert a in Live(y, top, begin) && b in Live(y, top, begin);
      StartsDiffer(a, b);
      AllocKeepsTight(x, top, bot, lv, begin, begin);
    }
  }

  lemma StartsDiffer(a: Block, b: Block)
    requires Disjoint(a, b)
    ensures a.addr != b.addr
  {
  }

  lemma FreeKeepsFirst(h: Heap, b: Block)
    requires HeapInv(h) && FirstStays(h) && b in HeapLive(h) && b.addr != h.begin && FreeBlock(h, b.addr).Some?
    ensures FirstStays(FreeBlock(h, b.addr).value)
  {
    hide Inv, Aligned, Pow2, Tight, Free, Full, Live;
    var k :| 1 <= k <= |h.trees| && b in TreeLive(h, k);
    TreeLiveSound(h, k);
    if k == 1 {
      var x := h.trees[0];
      assert Inv(x, h.top, h.bot) && MemStart(h, 1) == h.begin;
      FreeCorrect(x, h.top, h.bot, h.begin, b);
      FreeKeepsTight(x, h.top, h.bot, h.begin, b, h.begin);
      NothingLiveIsFull(x, h.top, h.bot, h.begin);
      var a :| a in TreeLive(h, 1) && a.addr == h.begin;
      assert a in TreeLive(FreeBlock(h, b.addr).value, 1);
    }
  }

  lemma {:induction false} RunKeepsFirst(h: Heap, ops: seq<Op>)
    requires HeapInv(h) && FirstStays(h) && Run(h, ops).Some?
    ensures FirstStays(Run(h, ops).value)
    decreases |ops|
  {
    hide HeapInv, FirstStays, HeapLive, AllocBlock, FreeBlock;
    if ops != [] {
      match ops[0]
      case AllocOp(size, busy) =>
        AllocBlockCorrect(h, size, busy);
        AllocKeepsFirst(h, size, busy);
        RunKeepsFirst(AllocBlock(h, size, busy).1, ops[1..]);
      case FreeOp(addr) =>
        var b :| b in HeapLive(h) && b.addr == addr;
        FreeBlockCorrect(h, b);
        FreeKeepsFirst(h, b);
        RunKeepsFirst(FreeBlock(h, addr).value, ops[1..]);
    }
  }

  lemma FreshFacts(bot: nat, top: nat, begin: nat, n: nat)
    requires 2 <= bot <= top && Aligned(begin, top)
    ensures HeapInv(FreshHeap(bot, top, begin, n)) && FirstStays(FreshHeap(bot, top, begin, n))
  {
    FullInv(top, bot);
    FullTight(top, bot, begin, begin);
  }

  /** After any history the code can run, in whatever order blocks were given back: a
      tree with nothing live is exactly as initialize_tree made it, and the first tree,
      whose first block can never come back, is exactly as after that allocation once
      nothing else is live in it. */
  lemma RunRestores(bot: nat, top: nat, begin: nat, n: nat, ops: seq<Op>, k: nat)
    requires 2 <= bot <= top && Aligned(begin, top) && 1 <= k <= n
    requires Run(FreshHeap(bot, top, begin, n), ops).Some?
    ensures var r := Run(FreshHeap(bot, top, begin, n), ops).value;
            && |r.trees| == n
            && (TreeLive(r, k) == {} ==> r.trees[k - 1] == Full(top, bot))
            && (forall e: nat :: TreeLive(r, k) == {Block(begin, e)} ==>
                  k == 1 && bot <= e <= top && r.trees[0] == Alloc(Full(top, bot), top, e).1)
  {
    hide Inv, Aligned, Pow2, Tight, Alloc, Live, Run;
    var h := FreshHeap(bot, top, begin, n);
    FreshFacts(bot, top, begin, n);
    RunSafe(h, ops);
    RunKeepsFirst(h, ops);
    var r := Run(h, ops).value;
    assert Inv(r.trees[k - 1], top, bot);
    NothingLiveIsFull(r.trees[k - 1], top, bot, MemStart(r, k));
    forall e: nat | TreeLive(r, k) == {Block(begin, e)}
      ensures k == 1 && bot <= e <= top && r.trees[0] == Alloc(Full(top, bot), top, e).1
    {
      assert Block(begin, e) in TreeLive(r, k);
      TreeLiveSound(r, k);
      if k > 1 { MemStartApart(r, 1, k); }
      assert MemStart(r, 1) == begin;
      OnlyFirstLeft(r.trees[0], top, bot, begin, e);
    }
  }

  /** On every heap of at least four leaves a tree: a smallest block and then half a
      tree are taken from the first tree, the others being locked. Both requests succeed,
      and afterwards no request is served although a quarter of the tree is free. */
  lemma RefusedThoughFree(bot: nat, top: nat, begin: nat, n: nat, busy: set<nat>)
    requires 2 <= bot && bot + 2 <= top && Aligned(begin, top) && n > 0
    requires 1 !in busy && forall k :: 2 <= k <= n ==> k in busy
    ensures var h := FreshHeap(bot, top, begin, n);
            var r := Run(h, [AllocOp(Pow2(bot), busy), AllocOp(Pow2(top - 1), busy)]);
            && AllocBlock(h, Pow2(bot), busy).0.Some?
            && AllocBlock(AllocBlock(h, Pow2(bot), busy).1, Pow2(top - 1), busy).0.Some?
            && r.Some? && SameLayout(h, r.value)
            && Available(r.value, top - 2, busy)
            && forall size: nat :: AllocBlock(r.value, size, busy).0 == None
  {
    hide Pow2, Inv, Aligned, Alloc, Largest, Full, AllocBlock, LevelFor, Run;
    var h := FreshHeap(bot, top, begin, n);
    FullInv(top, bot);
    LeafThenHalf(top, bot);
    var x := Alloc(Full(top, bot), top, bot).1;
    var y := Alloc(x, top, top - 1).1;
    FirstTreeServes(h, bot, busy);
    var h1 := h.(trees := h.trees[0 := x]);
    FirstTreeServes(h1, top - 1, busy);
    var h2 := h1.(trees := h1.trees[0 := y]);
    RunTwo(h, Pow2(bot), busy, Pow2(top - 1), busy);
    IsAvailable(h2, 1, top - 2, busy);
    NothingServed(h2, busy);
  }

  lemma IsAvailable(h: Heap, k: nat, lv: nat, busy: set<nat>)
    requires 1 <= k <= |h.trees| && k !in busy && Largest(h.trees[k - 1], h.top) >= lv
    ensures Available(h, lv, busy)
  {
  }

  lemma RunTwo(h: Heap, size: nat, busy: set<nat>, size': nat, busy': set<nat>)
    ensures Run(h, [AllocOp(size, busy), AllocOp(size', busy')]) == Some(AllocBlock(AllocBlock(h, size, busy).1, size', busy').1)
  {
    hide AllocBlock;
    var ops := [AllocOp(size, busy), AllocOp(size', busy')];
    var h1 := AllocBlock(h, size, busy).1;
    assert Run(h, ops) == Run(h1, ops[1..]);
    assert ops[1..] == [AllocOp(size', busy')] && ops[1..][1..] == [];
    assert Run(h1, ops[1..]) == Run(AllocBlock(h1, size', busy').1, []);
  }

  lemma FirstTreeServes(h: Heap, lv: nat, busy: set<nat>)
    requires 0 < h.bot <= lv <= h.top && h.trees != [] && 1 !in busy && h.trees[0].v >= lv
    requires Alloc(h.trees[0], h.top, lv).0.Some?
    ensures AllocBlock(h, Pow2(lv), busy).0.Some?
    ensures AllocBlock(h, Pow2(lv), busy).1 == h.(trees := h.trees[0 := Alloc(h.trees[0], h.top, lv).1])
  {
    hide Pow2, Alloc, LevelFor;
    LevelOf(h, lv);
    assert FindTree(h, lv, busy, 1) == Some(1);
  }

  lemma NothingServed(h: Heap, busy: set<nat>)
    requires h.trees != [] && GET_DEPARTED < h.bot <= h.top && h.trees[0].v == GET_DEPARTED && forall k :: 2 <= k <= |h.trees| ==> k in busy
    ensures forall size: nat :: AllocBlock(h, size, busy).0 == None
  {
    hide Pow2, Alloc, LevelFor;
    forall size: nat ensures AllocBlock(h, size, busy).0 == None {
      if LevelFor(size, h.bot, h.top).Some? { LevelIsLeast(size, h.bot, h.top); }
    }
  }

  lemma LevelOf(h: Heap, lv: nat)
    requires h.bot <= lv <= h.top && lv > 0
    ensures LevelFor(Pow2(lv), h.bot, h.top) == Some(lv)
  {
    hide Pow2, LevelFor;
    Pow2Step(lv);
    Pow2Monotone(lv, h.top);
    LevelIsLeast(Pow2(lv), h.bot, h.top);
    LeastUnique(h, Pow2(lv), lv, LevelFor(Pow2(lv), h.bot, h.top).value);
  }
}
