/** kernel/src/tbma.c in its own form: trees are byte arrays with the root at
    index 1 and the children of i at 2i and 2i + 1, updated in place. Each
    method is proved to compute the function of the same purpose in BuddyTree
    or BuddyHeap, where the properties are proved. */
module Buddy {
  import opened Wrappers
  import opened Powers
  import opened BuddyTree
  import opened BuddyHeap

  // ----- reading an implicit tree

  /** Node i of height d has its whole subtree inside n array cells. */
  predicate Fits(n: nat, i: nat, d: nat) {
    i >= 1 && (i + 1) * Pow2(d) <= n
  }

  lemma FitsChildren(n: nat, i: nat, d: nat)
    requires Fits(n, i, d)
    ensures i < n
    ensures d > 0 ==> Fits(n, 2 * i, d - 1) && Fits(n, 2 * i + 1, d - 1)
  {
    MulMonotone(1, Pow2(d), i + 1);
    if d > 0 {
      assert (i + 1) * Pow2(d) == (2 * i + 2) * Pow2(d - 1);
      MulMonotone(2 * i + 1, 2 * i + 2, Pow2(d - 1));
    }
  }

  /** The tree value stored at node i of level s. */
  function View(t: seq<int>, i: nat, s: nat, bot: nat): (x: Tree)
    requires s >= bot && Fits(|t|, i, s - bot)
    ensures Shape(x, s, bot)
    decreases s
  {
    FitsChildren(|t|, i, s - bot);
    if s == bot then Leaf(t[i])
    else Node(t[i], View(t, 2 * i, s - 1, bot), View(t, 2 * i + 1, s - 1, bot))
  }

  lemma ViewNode(t: seq<int>, i: nat, s: nat, bot: nat)
    requires s >= bot && Fits(|t|, i, s - bot)
    ensures i < |t| && View(t, i, s, bot).v == t[i]
    ensures s == bot ==> View(t, i, s, bot).Leaf?
    ensures s > bot ==>
              && Fits(|t|, 2 * i, s - 1 - bot) && Fits(|t|, 2 * i + 1, s - 1 - bot)
              && 2 * i + 1 < |t|
              && View(t, i, s, bot) == Node(t[i], View(t, 2 * i, s - 1, bot), View(t, 2 * i + 1, s - 1, bot))
              && View(t, 2 * i, s - 1, bot).v == t[2 * i]
              && View(t, 2 * i + 1, s - 1, bot).v == t[2 * i + 1]
  {
    FitsChildren(|t|, i, s - bot);
    if s > bot {
      FitsChildren(|t|, 2 * i, s - 1 - bot);
      FitsChildren(|t|, 2 * i + 1, s - 1 - bot);
    }
  }

  /** j lies in the subtree of i. */
  predicate Below(i: nat, j: nat)
    decreases j
  {
    i >= 1 && j >= i && (j == i || Below(i, j / 2))
  }

  lemma {:induction false} BelowChild(i: nat, j: nat)
    requires i >= 1 && (Below(2 * i, j) || Below(2 * i + 1, j))
    ensures Below(i, j) && j != i
    decreases j
  {
    if j != 2 * i && j != 2 * i + 1 {
      BelowChild(i, j / 2);
    }
  }

  lemma {:induction false} SiblingsApart(i: nat, j: nat)
    requires i >= 1
    ensures !(Below(2 * i, j) && Below(2 * i + 1, j))
    decreases j
  {
    if Below(2 * i, j) && Below(2 * i + 1, j) && j > 2 * i + 1 {
      SiblingsApart(i, j / 2);
    }
  }

  /** A subtree's value depends on its own cells only. */
  lemma {:induction false} ViewFrame(t: seq<int>, t': seq<int>, i: nat, s: nat, bot: nat)
    requires |t| == |t'| && s >= bot && Fits(|t|, i, s - bot)
    requires forall j :: 0 <= j < |t| && Below(i, j) ==> t[j] == t'[j]
    ensures View(t, i, s, bot) == View(t', i, s, bot)
    decreases s
  {
    FitsChildren(|t|, i, s - bot);
    assert Below(i, i);
    if s > bot {
      forall j | 0 <= j < |t| && (Below(2 * i, j) || Below(2 * i + 1, j)) ensures t[j] == t'[j] {
        BelowChild(i, j);
      }
      ViewFrame(t, t', 2 * i, s - 1, bot);
      ViewFrame(t, t', 2 * i + 1, s - 1, bot);
    }
  }

  /** Only cells below i differ. */
  ghost predicate OnlyBelow(t: seq<int>, t': seq<int>, i: nat) {
    |t| == |t'| && forall j :: 0 <= j < |t| && !Below(i, j) ==> t[j] == t'[j]
  }

  /** What a change below one child, followed by a new value at the node, means. */
  lemma ViewUpdate(t: seq<int>, t': seq<int>, i: nat, s: nat, bot: nat, v: int, goLeft: bool)
    requires s > bot && Fits(|t|, i, s - bot) && OnlyBelow(t, t', if goLeft then 2 * i else 2 * i + 1)
    ensures i < |t| && Fits(|t|, 2 * i, s - 1 - bot) && Fits(|t|, 2 * i + 1, s - 1 - bot)
    ensures t'[i] == t[i]
    ensures goLeft ==> View(t', 2 * i + 1, s - 1, bot) == View(t, 2 * i + 1, s - 1, bot)
    ensures !goLeft ==> View(t', 2 * i, s - 1, bot) == View(t, 2 * i, s - 1, bot)
    ensures View(t'[i := v], i, s, bot) == Node(v, View(t', 2 * i, s - 1, bot), View(t', 2 * i + 1, s - 1, bot))
    ensures OnlyBelow(t, t'[i := v], i)
  {
    FitsChildren(|t|, i, s - bot);
    forall j | 0 <= j < |t|
      ensures Below(2 * i, j) ==> !Below(2 * i + 1, j) && j != i && Below(i, j)
      ensures Below(2 * i + 1, j) ==> j != i && Below(i, j)
    {
      SiblingsApart(i, j);
      if Below(2 * i, j) || Below(2 * i + 1, j) { BelowChild(i, j); }
    }
    assert Below(i, i);
    if goLeft {
      ViewFrame(t, t', 2 * i + 1, s - 1, bot);
    } else {
      ViewFrame(t, t', 2 * i, s - 1, bot);
    }
    ViewFrame(t', t'[i := v], 2 * i, s - 1, bot);
    ViewFrame(t', t'[i := v], 2 * i + 1, s - 1, bot);
  }

  /** An allocation in the child that Alloc would choose, followed by the
      parent's new summary, is an allocation in the parent. */
  lemma AllocThroughChild(t: seq<int>, mid: seq<int>, i: nat, s: nat, bot: nat, req: nat, v: int)
    requires bot <= req < s && Fits(|t|, i, s - bot) && View(t, i, s, bot).v >= req
    requires Fits(|t|, 2 * i, s - 1 - bot) && Fits(|t|, 2 * i + 1, s - 1 - bot) && 2 * i + 1 < |t|
    requires var c := if t[2 * i] >= req then 2 * i else 2 * i + 1;
             && OnlyBelow(t, mid, c) && Alloc(View(t, c, s - 1, bot), s - 1, req).0.Some?
             && View(mid, c, s - 1, bot) == Alloc(View(t, c, s - 1, bot), s - 1, req).1
    requires v == if t[i] == req then GET_DEPARTED else Max(mid[2 * i], mid[2 * i + 1])
    ensures i < |t| && mid[i] == t[i]
    ensures var goLeft := t[2 * i] >= req;
            var c := if goLeft then 2 * i else 2 * i + 1;
            && Alloc(View(t, i, s, bot), s, req).0.Some?
            && Alloc(View(t, i, s, bot), s, req).0.value
               == (if goLeft then 0 else Pow2(s - 1)) + Alloc(View(t, c, s - 1, bot), s - 1, req).0.value
    ensures View(mid[i := v], i, s, bot) == Alloc(View(t, i, s, bot), s, req).1
    ensures OnlyBelow(t, mid[i := v], i)
  {
    hide View, Below, Pow2, Fits, Alloc;
    ViewNode(t, i, s, bot);
    ViewNode(mid, i, s, bot);
    ViewUpdate(t, mid, i, s, bot, v, t[2 * i] >= req);
    AllocNode(View(t, i, s, bot), s, req);
  }

  // ----- filling an array

  /** Every cell of height d to 0 counted from level s holds its level. */
  ghost predicate Levels(t: seq<int>, s: nat, bot: nat, top: nat) {
    bot <= s <= top &&
    forall e: nat, j: nat {:trigger Level(e, j, top)} :: s <= e <= top && Level(e, j, top) && j < |t| ==> t[j] == e
  }

  /** Node j is on the level of 2^e-byte blocks. */
  predicate Level(e: nat, j: nat, top: nat) {
    e <= top && Pow2(top - e) <= j < Pow2(top - e + 1)
  }

  lemma {:induction false} LevelsView(t: seq<int>, i: nat, s: nat, bot: nat, top: nat)
    requires Levels(t, bot, bot, top) && bot <= s <= top && Level(s, i, top) && Fits(|t|, i, s - bot)
    ensures View(t, i, s, bot) == Full(s, bot)
    decreases s
  {
    FitsChildren(|t|, i, s - bot);
    if s > bot {
      assert Level(s - 1, 2 * i, top) && Level(s - 1, 2 * i + 1, top);
      LevelsView(t, 2 * i, s - 1, bot, top);
      LevelsView(t, 2 * i + 1, s - 1, bot, top);
    }
  }

  /** initialize_tree */
  method InitializeTree(tree: array<int>, bot: nat, top: nat)
    requires bot <= top && tree.Length == Pow2(top - bot + 1)
    modifies tree
    ensures Fits(tree.Length, 1, top - bot) && View(tree[..], 1, top, bot) == Full(top, bot)
  {
    var curSize := top;
    for i := 0 to top - bot + 1
      invariant curSize == top - i
      invariant forall e: nat, j: nat {:trigger Level(e, j, top)} :: curSize < e <= top && Level(e, j, top) && j < tree.Length ==> tree[j] == e
    {
      var curStand := Pow2(i);
      var nextStand := if i == top - bot then tree.Length else Pow2(i + 1);
      Pow2Monotone(i + 1, top - bot + 1);
      for j := curStand to nextStand
        invariant forall e: nat, m: nat {:trigger Level(e, m, top)} :: curSize < e <= top && Level(e, m, top) && m < tree.Length ==> tree[m] == e
        invariant forall m :: curStand <= m < j ==> tree[m] == curSize
      {
        forall e: nat, m: nat | curSize < e <= top && Level(e, m, top) ensures m < j {
          Pow2Monotone(top - e + 1, i);
        }
        tree[j] := curSize;
      }
      curSize := curSize - 1;
    }
    assert Levels(tree[..], bot, bot, top);
    LevelsView(tree[..], 1, top, bot, top);
  }

  // ----- the allocator

  class BuddySystem {
    const bot: nat
    const top: nat
    /** real_start_addr: the tree arrays lie from here on, one after the other. */
    const start: nat
    /** all_trees[1 .. tree_num] */
    const trees: seq<array<int>>
    /** More trees were written than the static array has room for. */
    const overrun: bool
    /** What the arrays stand for. */
    ghost var heap: Heap

    function MaxNode(): (n: nat)
      ensures bot <= top ==> n >= 1
    {
      if bot <= top then Pow2(top - bot + 1) else 0
    }

    /** begin_alloc_addr */
    function Begin(): nat {
      start + Pow2(top)
    }

    /** Where the byte array of tree number k lies. */
    function TreeAddr(k: nat): (r: nat)
      requires k >= 1
      ensures r >= start
    {
      MulMonotone(0, k - 1, MaxNode());
      start + (k - 1) * MaxNode()
    }

    ghost predicate Layout() {
      && 2 <= bot <= top && Aligned(start, top) && |trees| <= Pow2(bot - 1)
      && (forall k {:trigger trees[k]} :: 0 <= k < |trees| ==> trees[k].Length == MaxNode())
      && forall j, k :: 0 <= j < k < |trees| ==> trees[j] != trees[k]
    }

    ghost predicate Valid()
      reads this, trees
    {
      && Layout()
      && heap.bot == bot && heap.top == top && heap.begin == Begin() && |heap.trees| == |trees|
      && HeapInv(heap)
      && forall k {:trigger trees[k]} {:trigger heap.trees[k]} :: 0 <= k < |trees| ==>
           Fits(trees[k].Length, 1, top - bot) && heap.trees[k] == View(trees[k][..], 1, top, bot)
    }

    /** How many trees lie before the array at address tree. */
    function Gap(tree: nat): nat
      requires bot <= top && tree >= start
    {
      Quotient(tree - start, MaxNode())
    }

    /** convert_index_to_addr: the tree number is recovered from the address of
        its array. */
    function ConvertIndexToAddr(tree: nat, index: nat, cur: nat): nat
      requires bot <= top && cur <= top && tree >= start && index >= Pow2(top - cur)
    {
      Begin() + Shl(Gap(tree), top) + Shl(index - Pow2(top - cur), cur)
    }

    /** The block of a node starts where its left child's does; the right child's
        starts half a block later; tree k's root block is tree k's memory. */
    lemma NodeAddr(k: nat, index: nat, cur: nat)
      requires Layout() && 1 <= k && bot <= cur <= top && index >= Pow2(top - cur)
      ensures index == 1 && cur == top ==>
                ConvertIndexToAddr(TreeAddr(k), index, cur) == Begin() + (k - 1) * Pow2(top)
      ensures cur > bot ==>
                && 2 * index >= Pow2(top - (cur - 1))
                && ConvertIndexToAddr(TreeAddr(k), 2 * index, cur - 1) == ConvertIndexToAddr(TreeAddr(k), index, cur)
                && ConvertIndexToAddr(TreeAddr(k), 2 * index + 1, cur - 1)
                     == ConvertIndexToAddr(TreeAddr(k), index, cur) + Pow2(cur - 1)
    {
      ModOfMultiple(k - 1, MaxNode());
      if cur > bot {
        var n := index - Pow2(top - cur);
        assert 2 * index - Pow2(top - (cur - 1)) == 2 * n;
        assert n * Pow2(cur) == (2 * n) * Pow2(cur - 1);
        assert (2 * n + 1) * Pow2(cur - 1) == (2 * n) * Pow2(cur - 1) + Pow2(cur - 1);
      }
    }

    /** A node a tree function may be called on. */
    ghost predicate IsNode(k: nat, index: nat, cur: nat) {
      && Layout() && 1 <= k <= |trees| && bot <= cur <= top
      && Pow2(top - cur) <= index && Fits(MaxNode(), index, cur - bot)
    }

    /** The subtree at a node, and the address its block starts at. */
    ghost function Sub(k: nat, index: nat, cur: nat): Tree
      requires IsNode(k, index, cur)
      reads trees[k - 1]
    {
      View(trees[k - 1][..], index, cur, bot)
    }

    function Addr(k: nat, index: nat, cur: nat): nat
      requires IsNode(k, index, cur)
    {
      ConvertIndexToAddr(TreeAddr(k), index, cur)
    }

    lemma ChildNodes(k: nat, index: nat, cur: nat)
      requires IsNode(k, index, cur) && cur > bot
      ensures IsNode(k, 2 * index, cur - 1) && Addr(k, 2 * index, cur - 1) == Addr(k, index, cur)
      ensures IsNode(k, 2 * index + 1, cur - 1)
      ensures Addr(k, 2 * index + 1, cur - 1) == Addr(k, index, cur) + Pow2(cur - 1)
      ensures 2 * index + 1 < MaxNode()
    {
      NodeAddr(k, index, cur);
      FitsChildren(MaxNode(), index, cur - bot);
      FitsChildren(MaxNode(), 2 * index + 1, cur - 1 - bot);
    }

    /** Writing a node's own cell leaves its children as they are. */
    lemma SetRoot(t: seq<int>, index: nat, cur: nat, v: int)
      requires cur >= bot && Fits(|t|, index, cur - bot)
      ensures index < |t| && View(t[index := v], index, cur, bot) == View(t, index, cur, bot).(v := v)
      ensures OnlyBelow(t, t[index := v], index)
    {
      FitsChildren(|t|, index, cur - bot);
      assert Below(index, index);
      if cur > bot {
        ViewUpdate(t, t, index, cur, bot, v, true);
      }
    }

    /** get_the_free_space_in_tree */
    method GetTheFreeSpaceInTree(k: nat, index: nat, cur: nat, req: nat) returns (ptr: nat)
      requires IsNode(k, index, cur) && bot <= req <= cur
      requires Inv(Sub(k, index, cur), cur, bot) && Sub(k, index, cur).v >= req
      modifies trees[k - 1]
      ensures Alloc(old(Sub(k, index, cur)), cur, req).0.Some?
      ensures Sub(k, index, cur) == Alloc(old(Sub(k, index, cur)), cur, req).1
      ensures ptr == Addr(k, index, cur) + Alloc(old(Sub(k, index, cur)), cur, req).0.value
      ensures OnlyBelow(old(trees[k - 1][..]), trees[k - 1][..], index)
      decreases cur
    {
      hide View, Inv, Live, Full, Below, OnlyBelow, Aligned, Pow2, Fits, Alloc, Addr, TreeAddr, MaxNode;
      var tree := trees[k - 1];
      ghost var t := tree[..];
      ghost var x := View(t, index, cur, bot);
      ViewNode(t, index, cur, bot);
      InvBounds(x, cur, bot);
      assert tree[index] <= cur;
      assert tree[index] >= req;
      if cur == req {
        AllocNode(x, cur, req);
        ptr := Addr(k, index, cur);
        tree[index] := FULL_USED;
        SetRoot(t, index, cur, FULL_USED);
        return;
      }
      ChildSummaries(x, cur, bot, req);
      ChildNodes(k, index, cur);
      var left, right := 2 * index, 2 * index + 1;
      var child := if tree[left] >= req then left else right;
      ptr := GetTheFreeSpaceInTree(k, child, cur - 1, req);
      ghost var mid := tree[..];
      ViewUpdate(t, mid, index, cur, bot, t[index], child == left);
      tree[index] := if tree[index] == req then GET_DEPARTED else Max(tree[left], tree[right]);
      AllocThroughChild(t, mid, index, cur, bot, req, tree[index]);
      assert tree[..] == mid[index := tree[index]];
    }

    /** free_tree_ptr, for the block b that was handed out at ptr. */
    method FreeTreePtr(k: nat, index: nat, ptr: nat, cur: nat, ghost b: Block)
      requires IsNode(k, index, cur) && Aligned(Addr(k, index, cur), cur)
      requires Inv(Sub(k, index, cur), cur, bot)
      requires b in Live(Sub(k, index, cur), cur, Addr(k, index, cur)) && ptr == b.addr
      modifies trees[k - 1]
      ensures ptr >= Addr(k, index, cur)
      ensures Free(old(Sub(k, index, cur)), cur, ptr - Addr(k, index, cur)) == Some(Sub(k, index, cur))
      ensures OnlyBelow(old(trees[k - 1][..]), trees[k - 1][..], index)
      decreases cur
    {
      hide View, Inv, Live, Full, Below, OnlyBelow, Aligned, Pow2, Fits, Free, Addr, TreeAddr;
      var tree := trees[k - 1];
      ghost var t := tree[..];
      ghost var x := View(t, index, cur, bot);
      ViewNode(t, index, cur, bot);
      InvBounds(x, cur, bot);
      assert index <= MaxNode() && tree[index] <= cur;
      var curAddr := Addr(k, index, cur);
      LiveSide(x, cur, bot, curAddr, b);
      FreeCorrect(x, cur, bot, curAddr, b);
      assert curAddr <= ptr;
      if curAddr == ptr && tree[index] == FULL_USED {
        tree[index] := cur;
        SetRoot(t, index, cur, cur);
        FreeHere(x, cur, bot, curAddr);
        FullRoot(x, cur, bot);
        return;
      }
      ChildNodes(k, index, cur);
      var left, right := 2 * index, 2 * index + 1;
      var child := if curAddr == ptr || curAddr + Pow2(cur - 1) > ptr then left else right;
      FreeTreePtr(k, child, ptr, cur - 1, b);
      ghost var goLeft := ptr < curAddr + Pow2(cur - 1);
      ghost var mid := tree[..];
      ViewUpdate(t, mid, index, cur, bot, t[index], goLeft);
      FreeNode(x, cur, ptr - curAddr);
      ViewNode(mid, index, cur, bot);
      tree[index] := if tree[left] == cur - 1 && tree[right] == cur - 1 then cur else Max(tree[left], tree[right]);
      ViewUpdate(t, mid, index, cur, bot, tree[index], goLeft);
      assert tree[..] == mid[index := tree[index]];
      assert tree[index] != GET_DEPARTED;
      assert tree[index] != FULL_USED;
    }

    /** The loop of bbma_init over [begin, end). It does not look at the size of the
        static array: past says that it writes behind the array's maxTree entries. */
    static method BuildTrees(bot: nat, top: nat, begin: nat, end: nat, maxTree: nat)
      returns (ts: seq<array<int>>, past: bool)
      requires bot <= top
      ensures past <==> begin + (maxTree + 1) * Pow2(top) <= end
      ensures |ts| <= maxTree && (|ts| > 0 ==> begin + |ts| * Pow2(top) <= end)
      ensures !past ==> end < begin + (|ts| + 1) * Pow2(top)
      ensures FreeTrees(ts, bot, top) && forall k :: 0 <= k < |ts| ==> fresh(ts[k])
    {
      hide Pow2, View, Full, Fits;
      var memGap := Pow2(top);
      var curMemAddr := begin;
      ts, past := [], false;
      while curMemAddr + memGap <= end && !past
        invariant curMemAddr == begin + |ts| * memGap && |ts| <= maxTree
        invariant |ts| > 0 ==> curMemAddr <= end
        invariant past ==> |ts| == maxTree && curMemAddr + memGap <= end
        invariant FreeTrees(ts, bot, top) && forall k :: 0 <= k < |ts| ==> fresh(ts[k])
        decreases !past, end - curMemAddr
      {
        if |ts| == maxTree {
          past := true;
        } else {
          var tree := new int[Pow2(top - bot + 1)];
          InitializeTree(tree, bot, top);
          ts := ts + [tree];
          OneMoreGap(|ts|, memGap);
          curMemAddr := curMemAddr + memGap;
        }
      }
      OneMoreGap(|ts| + 1, memGap);
      OneMoreGap(maxTree + 1, memGap);
      if !past { MulMonotone(|ts|, maxTree, memGap); }
    }

    static ghost predicate FreeTrees(ts: seq<array<int>>, bot: nat, top: nat)
      requires bot <= top
      reads ts
    {
      && (forall k {:trigger ts[k]} :: 0 <= k < |ts| ==>
        && ts[k].Length == Pow2(top - bot + 1) && Fits(ts[k].Length, 1, top - bot)
        && View(ts[k][..], 1, top, bot) == Full(top, bot))
      && forall j, k :: 0 <= j < k < |ts| ==> ts[j] != ts[k]
    }

    static lemma OneMoreGap(n: nat, gap: nat)
      requires n >= 1
      ensures n * gap == (n - 1) * gap + gap
    {
    }

    /** bbma_init, for a heap area [start, end) whose start was rounded up to a whole
        root block (pmm_init). It writes past the static array exactly when the area
        holds more than maxTree trees (overrun). */
    constructor (bot: nat, top: nat, start: nat, end: nat, maxTree: nat)
      requires 2 <= bot <= top && Aligned(start, top) && maxTree <= Pow2(bot - 1)
      ensures overrun <==> start + Pow2(top) + (maxTree + 1) * Pow2(top) <= end
      ensures fresh(trees) && this.bot == bot && this.top == top && this.start == start
      ensures !overrun ==> Valid() && heap == FreshHeap(bot, top, start + Pow2(top), |trees|)
      ensures !overrun && |trees| > 0 ==> start + Pow2(top) + |trees| * Pow2(top) <= end
      ensures !overrun ==> end < start + Pow2(top) + (|trees| + 1) * Pow2(top)
    {
      hide Pow2, View, Inv, Full, Aligned, Fits;
      var ts, past := BuildTrees(bot, top, start + Pow2(top), end, maxTree);
      this.bot, this.top, this.start, this.trees, this.overrun := bot, top, start, ts, past;
      this.heap := FreshHeap(bot, top, start + Pow2(top), |ts|);
      FullInv(top, bot);
      AlignedPow2(top, top);
      AlignedSum(start, Pow2(top), top);
    }

    /** An array lies below the first block, so that metadata is never handed out, for as
        many trees as the object admits and no more. */
    lemma MetadataBelowBlocks(k: nat)
      requires 2 <= bot <= top && 1 <= k
      ensures start <= TreeAddr(k)
      ensures TreeAddr(k) + MaxNode() <= Begin() <==> k <= Pow2(bot - 1)
      ensures Layout() && k <= |trees| ==> k <= Pow2(bot - 1)
    {
      Pow2Add(bot - 1, top - bot + 1);
      var (m, n) := (MaxNode(), Pow2(bot - 1));
      hide Pow2, MaxNode;
      assert (k - 1) * m + m == k * m;
      MulMonotone(0, k - 1, m);
      if k <= n { MulMonotone(k, n, m); } else { MulMonotone(n + 1, k, m); }
    }

    /** find_available_tree: -1 becomes None; the lock of tree k cannot be taken
        when k is in busy. */
    method FindAvailableTree(req: nat, busy: set<nat>) returns (r: Option<nat>)
      requires Valid()
      ensures r == FindTree(heap, req, busy, 1)
      ensures r.Some? ==> 1 <= r.value <= |trees| && r.value !in busy && trees[r.value - 1].Length > 1 && trees[r.value - 1][1] >= req
      ensures forall j {:trigger trees[j]} :: 0 <= j < (if r.Some? then r.value - 1 else |trees|) ==>
        trees[j].Length > 1 && (j + 1 in busy || trees[j][1] < req)
    {
      hide Valid, FindTree;
      var i := 1;
      while i <= |trees|
        invariant 1 <= i <= |trees| + 1
        invariant FindTree(heap, req, busy, 1) == FindTree(heap, req, busy, i)
        invariant forall j {:trigger trees[j]} :: 0 <= j < i - 1 ==> trees[j].Length > 1 && (j + 1 in busy || trees[j][1] < req)
      {
        RootCell(i, req, busy);
        if i !in busy {
          if trees[i - 1][1] >= req {
            return Some(i);
          }
        }
        i := i + 1;
      }
      NoTreeLeft(req, busy);
      return None;
    }

    lemma RootCell(i: nat, req: nat, busy: set<nat>)
      requires Valid() && 1 <= i <= |trees|
      ensures trees[i - 1].Length > 1
      ensures FindTree(heap, req, busy, i) ==
        if i !in busy && trees[i - 1][1] >= req then Some(i) else FindTree(heap, req, busy, i + 1)
    {
      ViewNode(trees[i - 1][..], 1, top, bot);
      assert heap.trees[i - 1].v == trees[i - 1][1];
      hide View, Inv;
    }

    lemma NoTreeLeft(req: nat, busy: set<nat>)
      requires Valid()
      ensures FindTree(heap, req, busy, |trees| + 1) == None
    {
      hide View, Inv;
    }

    /** The root of a tree, as the recursive calls want it. */
    lemma RootNode(k: nat)
      requires Valid() && 1 <= k <= |trees|
      ensures IsNode(k, 1, top) && Sub(k, 1, top) == heap.trees[k - 1] && Inv(Sub(k, 1, top), top, bot)
      ensures Addr(k, 1, top) == MemStart(heap, k)
      ensures heap.bot == bot && heap.top == top && heap.begin == Begin() && |heap.trees| == |trees|
      ensures forall j {:trigger trees[j]} :: 0 <= j < |trees| && j != k - 1 ==>
        trees[j] != trees[k - 1] && Fits(trees[j].Length, 1, top - bot) && heap.trees[j] == View(trees[j][..], 1, top, bot)
    {
      hide View, Inv, Aligned, Fits;
      assert heap.trees[k - 1] == View(trees[k - 1][..], 1, top, bot);
      Pow2Zero();
      NodeAddr(k, 1, top);
    }

    /** One array and its tree in the abstract heap have changed together. */
    lemma OneTreeChanged(h: Heap, k: nat)
      requires 1 <= k <= |trees| && IsNode(k, 1, top) && HeapInv(heap)
      requires h.bot == bot && h.top == top && h.begin == Begin() && |h.trees| == |trees|
      requires heap == h.(trees := h.trees[k - 1 := Sub(k, 1, top)])
      requires forall j {:trigger trees[j]} :: 0 <= j < |trees| && j != k - 1 ==>
        Fits(trees[j].Length, 1, top - bot) && h.trees[j] == View(trees[j][..], 1, top, bot)
      ensures Valid()
    {
      hide View, HeapInv, Aligned, Fits, Pow2;
    }

    /** bbma_alloc with find_the_free_space_in_bbma_system */
    method BbmaAlloc(size: nat, busy: set<nat>) returns (ptr: nat)
      requires Valid()
      modifies this`heap, trees
      ensures Valid()
      ensures heap == AllocBlock(old(heap), size, busy).1
      ensures ptr == match AllocBlock(old(heap), size, busy).0 case None => NULL case Some(p) => p
    {
      hide Valid, IsNode, Addr, Sub, Alloc, Inv, HeapInv, Live, HeapLive, View, Fits, HandedOut, Refused, SameLayout, FindTree, LevelFor, MemStart;
      HeapLayout();
      ghost var h := heap;
      AllocBlockCorrect(h, size, busy);
      var level := LevelFor(size, bot, top);
      if level.None? {
        return NULL;
      }
      var lv := level.value;
      var tree := FindAvailableTree(lv, busy);
      if tree.None? {
        return NULL;
      }
      var k := tree.value;
      LevelInside(size);
      RootNode(k);
      ptr := GetTheFreeSpaceInTree(k, 1, top, lv);
      heap := AllocBlock(h, size, busy).1;
      OneTreeChanged(h, k);
    }

    lemma HeapLayout()
      requires Valid()
      ensures HeapInv(heap) && heap.bot == bot && heap.top == top && |heap.trees| == |trees|
    {
    }

    lemma LevelInside(size: nat)
      requires Valid() && LevelFor(size, bot, top).Some?
      ensures bot <= LevelFor(size, bot, top).value <= top
    {
      LevelIsLeast(size, bot, top);
    }

    /** bbma_free. The caller passes NULL or the address of a block that is handed
        out; the very first block is refused by an assertion in determine_which_tree. */
    method BbmaFree(ptr: nat, ghost b: Block)
      requires Valid()
      requires ptr != NULL ==> b in HeapLive(heap) && b.addr == ptr && ptr > Begin()
      modifies this`heap, trees
      ensures Valid()
      ensures ptr == NULL ==> heap == old(heap)
      ensures ptr != NULL ==> FreeBlock(old(heap), ptr) == Some(heap)
    {
      hide Valid, IsNode, Addr, Sub, Free, Inv, HeapInv, Live, HeapLive, View, Fits, SameLayout, MemStart, WhichTree, Aligned, Begin;
      if ptr == NULL {
        return;
      }
      HeapLayout();
      ghost var h := heap;
      FreeBlockCorrect(h, b);
      var k := DetermineWhichTree(ptr, b);
      RootNode(k);
      LiveInTree(k, b);
      FreeTreePtr(k, 1, ptr, top, b);
      heap := FreeBlock(h, ptr).value;
      OneTreeChanged(h, k);
    }

    lemma LiveInTree(k: nat, b: Block)
      requires Valid() && 1 <= k <= |trees| && |heap.trees| == |trees| && IsNode(k, 1, top) && b in TreeLive(heap, k)
      ensures b in Live(heap.trees[k - 1], top, MemStart(heap, k)) && Aligned(MemStart(heap, k), top)
    {
      hide View, Inv, Live, Fits;
      MemStartAligned(heap, k);
    }

    /** determine_which_tree */
    method DetermineWhichTree(ptr: nat, ghost b: Block) returns (k: nat)
      requires Valid() && b in HeapLive(heap) && b.addr == ptr && ptr > Begin()
      ensures 1 <= k <= |trees| && k == WhichTree(heap, ptr) && b in TreeLive(heap, k)
    {
      ghost var j :| 1 <= j <= |heap.trees| && b in TreeLive(heap, j);
      TreeLiveSound(heap, j);
      WhichTreeOfInside(heap, j, ptr);
      var memBegin := ptr - ptr % Pow2(top);
      assert memBegin >= Begin();
      k := (memBegin - Begin()) / Pow2(top) + 1;
    }
  }
}
