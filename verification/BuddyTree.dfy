/** A buddy tree as a value: what one byte array of kernel/src/tbma.c means.
    Every claim about the in-place code of module Buddy is a claim about these
    values, because that code is proved to compute exactly Alloc and Free. */
module BuddyTree {
  import opened Wrappers
  import opened Powers

  /** Marks a node that is itself handed out. */
  const FULL_USED := 0
  /** Marks a node whose summary says "nothing left below". */
  const GET_DEPARTED := 1

  /** The address that stands for no block. */
  const NULL: nat := 0

  datatype Tree = Leaf(v: int) | Node(v: int, left: Tree, right: Tree)

  /** A block of 2^exp bytes at address addr. */
  datatype Block = Block(addr: nat, exp: nat)

  function Max(a: int, b: int): int {
    if a >= b then a else b
  }

  /** A complete tree whose root stands for 2^s bytes and whose leaves stand for 2^bot. */
  predicate Shape(x: Tree, s: nat, bot: nat) {
    match x
    case Leaf(_) => s == bot
    case Node(_, l, r) => s > bot && Shape(l, s - 1, bot) && Shape(r, s - 1, bot)
  }

  /** The tree initialize_tree builds: every node holds its own level. */
  function Full(s: nat, bot: nat): (x: Tree)
    requires bot <= s
    ensures Shape(x, s, bot) && x.v == s
  {
    if s == bot then Leaf(s) else Node(s, Full(s - 1, bot), Full(s - 1, bot))
  }

  /** The invariant. A node is handed out (0), entirely free (its own level), or
      partly used; a partly used node holds either the larger of its children's
      summaries or the understated summary 1. */
  predicate Inv(x: Tree, s: nat, bot: nat) {
    match x
    case Leaf(v) => s == bot && (v == FULL_USED || v == s)
    case Node(v, l, r) =>
      && s > bot
      && if v == FULL_USED || v == s then l == Full(s - 1, bot) && r == Full(s - 1, bot)
         else
           && Inv(l, s - 1, bot) && Inv(r, s - 1, bot)
           && !(l.v == s - 1 && r.v == s - 1)
           && (v == GET_DEPARTED || v == Max(l.v, r.v))
  }

  /** The blocks handed out of a tree that manages the 2^s bytes from base on. */
  function Live(x: Tree, s: nat, base: nat): set<Block> {
    if x.v == FULL_USED then {Block(base, s)}
    else if x.v == s || x.Leaf? || s == 0 then {}
    else Live(x.left, s - 1, base) + Live(x.right, s - 1, base + Pow2(s - 1))
  }

  /** The free blocks a request could be cut from: maximal free subtrees. */
  function FreeBlocks(x: Tree, s: nat, base: nat): set<Block> {
    if x.v == FULL_USED then {}
    else if x.v == s || x.Leaf? || s == 0 then {Block(base, s)}
    else FreeBlocks(x.left, s - 1, base) + FreeBlocks(x.right, s - 1, base + Pow2(s - 1))
  }

  predicate Disjoint(a: Block, b: Block) {
    a.addr + Pow2(a.exp) <= b.addr || b.addr + Pow2(b.exp) <= a.addr
  }

  predicate Within(b: Block, lo: nat, hi: nat) {
    lo <= b.addr && b.addr + Pow2(b.exp) <= hi
  }

  /** get_the_free_space_in_tree on values: the offset of the block found (None
      for NULL) and the tree afterwards. */
  function Alloc(x: Tree, s: nat, req: nat): (Option<nat>, Tree) {
    if x.v < req then (None, x)
    else if s == req then
      if x.v == req then (Some(0), x.(v := FULL_USED)) else (None, x)
    else if x.Leaf? || s == 0 then (None, x)
    else if x.left.v >= req then
      var (found, l) := Alloc(x.left, s - 1, req);
      if found.None? then (None, x)
      else (found, Node(if x.v == req then GET_DEPARTED else Max(l.v, x.right.v), l, x.right))
    else
      var (found, r) := Alloc(x.right, s - 1, req);
      if found.None? then (None, x)
      else (Some(Pow2(s - 1) + found.value),
            Node(if x.v == req then GET_DEPARTED else Max(x.left.v, r.v), x.left, r))
  }

  /** The parent's new value after one of its children was given back. */
  function Merge(l: Tree, r: Tree, s: nat): Tree {
    Node(if l.v == s - 1 && r.v == s - 1 then s else Max(l.v, r.v), l, r)
  }

  /** free_tree_ptr on values, guided by the offset alone; None when the descent
      leaves the tree. */
  function Free(x: Tree, s: nat, off: nat): Option<Tree> {
    if off == 0 && x.v == FULL_USED then Some(x.(v := s))
    else if x.Leaf? || s == 0 then None
    else if off < Pow2(s - 1) then
      var l := Free(x.left, s - 1, off);
      if l.None? then None else Some(Merge(l.value, x.right, s))
    else
      var r := Free(x.right, s - 1, off - Pow2(s - 1));
      if r.None? then None else Some(Merge(x.left, r.value, s))
  }

  // ----- facts about the invariant

  lemma {:induction false} FullInv(s: nat, bot: nat)
    requires 2 <= bot <= s
    ensures Inv(Full(s, bot), s, bot)
  {
  }

  /** Summaries lie in range, a summary equal to the node's level means the whole
      subtree is free, and the shape is complete. */
  lemma {:induction false} InvBounds(x: Tree, s: nat, bot: nat)
    requires 2 <= bot && Inv(x, s, bot)
    ensures bot <= s && Shape(x, s, bot) && 0 <= x.v <= s
    ensures x.v == s ==> x == Full(s, bot)
    ensures x.v == FULL_USED || x.v == GET_DEPARTED || x.v >= bot
    decreases x
  {
    if x.Node? && x.v != FULL_USED && x.v != s {
      InvBounds(x.left, s - 1, bot);
      InvBounds(x.right, s - 1, bot);
    }
  }

  /** Live blocks lie inside the managed bytes, are at least leaf sized, are
      aligned to their own size, and are pairwise disjoint. */
  lemma {:induction false} LiveSound(x: Tree, s: nat, bot: nat, base: nat)
    requires 2 <= bot && Inv(x, s, bot) && Aligned(base, s)
    ensures forall b :: b in Live(x, s, base) ==>
              Within(b, base, base + Pow2(s)) && bot <= b.exp <= s && Aligned(b.addr, b.exp)
    ensures forall a, b :: a in Live(x, s, base) && b in Live(x, s, base) && a != b ==> Disjoint(a, b)
    decreases x
  {
    if x.Node? && x.v != FULL_USED && x.v != s {
      AlignedHalves(base, s);
      LiveSound(x.left, s - 1, bot, base);
      LiveSound(x.right, s - 1, bot, base + Pow2(s - 1));
    }
  }

  /** A tree with nothing handed out is the freshly initialised one, node for node. */
  lemma {:induction false} NothingLiveIsFull(x: Tree, s: nat, bot: nat, base: nat)
    requires 2 <= bot && Inv(x, s, bot)
    ensures Live(x, s, base) == {} <==> x == Full(s, bot)
    decreases x
  {
    if x.Node? && x.v != FULL_USED && x.v != s {
      NothingLiveIsFull(x.left, s - 1, bot, base);
      NothingLiveIsFull(x.right, s - 1, bot, base + Pow2(s - 1));
    }
  }

  /** No summary exceeds the largest free block below it. */
  lemma {:induction false} SummarySound(x: Tree, s: nat, bot: nat, base: nat)
    requires 2 <= bot && Inv(x, s, bot) && x.v >= bot
    ensures exists b :: b in FreeBlocks(x, s, base) && b.exp >= x.v
    decreases x
  {
    if x.v == s {
      assert Block(base, s) in FreeBlocks(x, s, base);
    } else {
      if x.left.v >= x.right.v {
        SummarySound(x.left, s - 1, bot, base);
        var b :| b in FreeBlocks(x.left, s - 1, base) && b.exp >= x.v;
        assert b in FreeBlocks(x, s, base);
      } else {
        SummarySound(x.right, s - 1, bot, base + Pow2(s - 1));
        var b :| b in FreeBlocks(x.right, s - 1, base + Pow2(s - 1)) && b.exp >= x.v;
        assert b in FreeBlocks(x, s, base);
      }
    }
  }

  /** The exponent of the largest block that is free below a node; 0 when none is. */
  function Largest(x: Tree, s: nat): nat {
    if x.v == FULL_USED then 0
    else if x.v == s || x.Leaf? || s == 0 then s
    else
      var (l, r) := (Largest(x.left, s - 1), Largest(x.right, s - 1));
      if l >= r then l else r
  }

  /** What a summary promises: 0 and 1 both promise nothing. */
  function Promised(v: int): nat {
    if v <= GET_DEPARTED then 0 else v
  }

  /** From the root, nodes that are not understated lead to a largest free block. */
  predicate Reachable(x: Tree, s: nat) {
    if x.v == FULL_USED || x.v == s || x.Leaf? || s == 0 || Largest(x, s) == 0 then true
    else
      && x.v != GET_DEPARTED
      && ((Largest(x.left, s - 1) == Largest(x, s) && Reachable(x.left, s - 1)) ||
          (Largest(x.right, s - 1) == Largest(x, s) && Reachable(x.right, s - 1)))
  }

  /** Largest is what its name says. */
  lemma {:induction false} LargestMeaning(x: Tree, s: nat, bot: nat, base: nat)
    requires 2 <= bot && Inv(x, s, bot)
    ensures forall b :: b in FreeBlocks(x, s, base) ==> bot <= b.exp <= Largest(x, s)
    ensures Largest(x, s) != 0 ==> exists b :: b in FreeBlocks(x, s, base) && b.exp == Largest(x, s)
    ensures Largest(x, s) == 0 ==> FreeBlocks(x, s, base) == {}
    decreases x
  {
    InvBounds(x, s, bot);
    if x.v == s {
      assert Block(base, s) in FreeBlocks(x, s, base);
    } else if x.v != FULL_USED {
      LargestMeaning(x.left, s - 1, bot, base);
      LargestMeaning(x.right, s - 1, bot, base + Pow2(s - 1));
    }
  }

  /** A summary never promises more than there is, and it is exact if and only if a
      largest free block can be reached past nodes that are not understated. */
  lemma {:induction false} SummaryExact(x: Tree, s: nat, bot: nat)
    requires 2 <= bot && Inv(x, s, bot)
    ensures Promised(x.v) <= Largest(x, s)
    ensures Promised(x.v) == Largest(x, s) <==> Reachable(x, s)
    decreases x
  {
    InvBounds(x, s, bot);
    if x.Node? && x.v != FULL_USED && x.v != s {
      InvBounds(x.left, s - 1, bot);
      InvBounds(x.right, s - 1, bot);
      SummaryExact(x.left, s - 1, bot);
      SummaryExact(x.right, s - 1, bot);
    }
  }

  /** A node that is not handed out has sound children, and what is live below
      it is what is live below them, also when it is entirely free. */
  lemma Children(x: Tree, s: nat, bot: nat, base: nat)
    requires 2 <= bot < s && Inv(x, s, bot) && x.v != FULL_USED && Aligned(base, s)
    ensures x.Node? && Inv(x.left, s - 1, bot) && Inv(x.right, s - 1, bot)
    ensures Aligned(base, s - 1) && Aligned(base + Pow2(s - 1), s - 1)
    ensures Live(x, s, base) == Live(x.left, s - 1, base) + Live(x.right, s - 1, base + Pow2(s - 1))
    ensures x.v >= bot ==> x.left.v >= x.v || x.right.v >= x.v || (x.v == s && x.left.v == x.right.v == s - 1)
  {
    AlignedHalves(base, s);
    if x.v == s {
      FullInv(s - 1, bot);
      NothingLiveIsFull(x.left, s - 1, bot, base);
      NothingLiveIsFull(x.right, s - 1, bot, base + Pow2(s - 1));
    }
  }

  /** Where a summary reaches a request for less than the node, so does a child's. */
  lemma ChildSummaries(x: Tree, s: nat, bot: nat, req: nat)
    requires 2 <= bot <= req < s && Inv(x, s, bot) && x.v >= req
    ensures x.Node? && Inv(x.left, s - 1, bot) && Inv(x.right, s - 1, bot)
    ensures x.left.v >= req || x.right.v >= req
  {
    ZeroAligned(s);
    Children(x, s, bot, 0);
    InvBounds(x, s, bot);
  }

  /** Two neighbouring subtrees never share a block. */
  lemma Neighbours(l: Tree, r: Tree, s: nat, bot: nat, base: nat)
    requires 2 <= bot <= s && Inv(l, s, bot) && Inv(r, s, bot)
    requires Aligned(base, s) && Aligned(base + Pow2(s), s)
    ensures Live(l, s, base) !! Live(r, s, base + Pow2(s))
    ensures forall b :: b in Live(l, s, base) ==> b.addr < base + Pow2(s)
    ensures forall b :: b in Live(r, s, base + Pow2(s)) ==> b.addr >= base + Pow2(s)
  {
    LiveSound(l, s, bot, base);
    LiveSound(r, s, bot, base + Pow2(s));
  }

  // ----- allocation

  /** The node-level half of AllocCorrect: what the new summary does. */
  lemma AllocSummary(x: Tree, s: nat, bot: nat, req: nat, base: nat, l: Tree, r: Tree, b: Block)
    requires 2 <= bot <= req < s && Inv(x, s, bot) && x.v >= req && Aligned(base, s) && x.Node?
    requires Inv(l, s - 1, bot) && Inv(r, s - 1, bot)
    requires (l == x.left && r.v != s - 1) || (r == x.right && l.v != s - 1)
    requires s - 1 > req ==> l.v != FULL_USED || r.v != FULL_USED
    requires s - 1 == req < x.v ==> l.v != FULL_USED || r.v != FULL_USED
    requires Live(l, s - 1, base) + Live(r, s - 1, base + Pow2(s - 1))
          == Live(x.left, s - 1, base) + Live(x.right, s - 1, base + Pow2(s - 1)) + {b}
    ensures var x' := Node(if x.v == req then GET_DEPARTED else Max(l.v, r.v), l, r);
            && Inv(x', s, bot) && x'.v != s && x'.v != FULL_USED
            && Live(x', s, base) == Live(x, s, base) + {b}
  {
    Children(x, s, bot, base);
    InvBounds(l, s - 1, bot);
    InvBounds(r, s - 1, bot);
  }

  /** The other half: the node of the requested size is handed out itself. */
  lemma AllocHere(x: Tree, s: nat, bot: nat, base: nat)
    requires 2 <= bot <= s && Inv(x, s, bot) && x.v == s
    ensures var (found, x') := Alloc(x, s, s);
            && found == Some(0) && Inv(x', s, bot) && x'.v == FULL_USED
            && Live(x, s, base) == {} && Live(x', s, base) == {Block(base, s)}
  {
  }

  /** From any tree satisfying the invariant whose root summary reaches the
      request, allocation succeeds, keeps the invariant, and adds exactly one
      block that was not handed out before. */
  lemma {:induction false} AllocCorrect(x: Tree, s: nat, bot: nat, req: nat, base: nat)
    requires 2 <= bot <= req <= s && Inv(x, s, bot) && x.v >= req && Aligned(base, s)
    ensures var (found, x') := Alloc(x, s, req);
            && found.Some?
            && Inv(x', s, bot) && x'.v != s && (s > req ==> x'.v != FULL_USED)
            && var b := Block(base + found.value, req);
               b !in Live(x, s, base) && Live(x', s, base) == Live(x, s, base) + {b}
    decreases x
  {
    hide Aligned, Pow2, Live, Inv, Full;
    InvBounds(x, s, bot);
    if s == req {
      AllocHere(x, s, bot, base);
    } else {
      Children(x, s, bot, base);
      InvBounds(x.left, s - 1, bot);
      InvBounds(x.right, s - 1, bot);
      if x.left.v >= req {
        AllocCorrect(x.left, s - 1, bot, req, base);
        var (found, l) := Alloc(x.left, s - 1, req);
        var b := Block(base + found.value, req);
        AllocSummary(x, s, bot, req, base, l, x.right, b);
        Neighbours(l, x.right, s - 1, bot, base);
      } else {
        AllocCorrect(x.right, s - 1, bot, req, base + Pow2(s - 1));
        var (found, r) := Alloc(x.right, s - 1, req);
        var b := Block(base + Pow2(s - 1) + found.value, req);
        AllocSummary(x, s, bot, req, base, x.left, r, b);
        Neighbours(x.left, r, s - 1, bot, base);
      }
    }
  }

  /** The offset found points into the tree. */
  lemma AllocOffset(x: Tree, s: nat, bot: nat, req: nat)
    requires 2 <= bot <= req <= s && Inv(x, s, bot) && x.v >= req
    ensures Alloc(x, s, req).0.Some? && Alloc(x, s, req).0.value < Pow2(s)
  {
    ZeroAligned(s);
    AllocCorrect(x, s, bot, req, 0);
    LiveSound(Alloc(x, s, req).1, s, bot, 0);
  }

  /** One level of Alloc where it succeeds. */
  lemma AllocNode(x: Tree, s: nat, req: nat)
    requires x.v >= req && s >= req
    ensures s == req == x.v ==> Alloc(x, s, req) == (Some(0), x.(v := FULL_USED))
    ensures x.Node? && s > req && x.left.v >= req && Alloc(x.left, s - 1, req).0.Some? ==>
              var (found, l) := Alloc(x.left, s - 1, req);
              Alloc(x, s, req) == (found, Node(if x.v == req then GET_DEPARTED else Max(l.v, x.right.v), l, x.right))
    ensures x.Node? && s > req && x.left.v < req && Alloc(x.right, s - 1, req).0.Some? ==>
              var (found, r) := Alloc(x.right, s - 1, req);
              Alloc(x, s, req) == (Some(Pow2(s - 1) + found.value),
                                   Node(if x.v == req then GET_DEPARTED else Max(x.left.v, r.v), x.left, r))
  {
  }

  /** A fresh tree hands out its lowest address first. */
  lemma {:induction false} AllocFromFull(s: nat, bot: nat, req: nat)
    requires 2 <= bot <= req <= s
    ensures Alloc(Full(s, bot), s, req).0 == Some(0)
  {
    if s > req {
      AllocFromFull(s - 1, bot, req);
    }
  }

  // ----- release

  lemma NothingBelowLeaf(x: Tree, s: nat, bot: nat, base: nat)
    requires Inv(x, s, bot) && x.v != FULL_USED && Live(x, s, base) != {}
    ensures s > bot
  {
  }

  /** A handed-out node whose own cell is reset is free with all below it. */
  lemma FullRoot(x: Tree, s: nat, bot: nat)
    requires bot <= s && Inv(x, s, bot) && x.v == FULL_USED
    ensures x.(v := s) == Full(s, bot)
  {
  }

  lemma FreeHere(x: Tree, s: nat, bot: nat, base: nat)
    requires 2 <= bot <= s && Inv(x, s, bot) && x.v == FULL_USED
    ensures Live(x, s, base) == {Block(base, s)} && Free(x, s, 0) == Some(Full(s, bot))
    ensures Inv(Full(s, bot), s, bot) && Live(Full(s, bot), s, base) == {}
  {
  }

  /** Giving a live block back succeeds from every tree satisfying the invariant:
      the descent, guided by the address alone, ends exactly at the node that
      was handed out; the invariant is kept, exactly that block disappears, and
      no node on the path ends up marked "used" or "nothing left". */
  lemma {:induction false} FreeCorrect(x: Tree, s: nat, bot: nat, base: nat, b: Block)
    requires 2 <= bot && Inv(x, s, bot) && Aligned(base, s) && b in Live(x, s, base)
    ensures b.addr >= base
    ensures var r := Free(x, s, b.addr - base);
            && r.Some? && Inv(r.value, s, bot) && r.value.v >= b.exp
            && Live(r.value, s, base) == Live(x, s, base) - {b}
    decreases x
  {
    hide Aligned, Live, Inv, Full;
    InvBounds(x, s, bot);
    LiveSound(x, s, bot, base);
    if x.v == FULL_USED {
      FreeHere(x, s, bot, base);
    } else {
      NothingBelowLeaf(x, s, bot, base);
      Children(x, s, bot, base);
      Neighbours(x.left, x.right, s - 1, bot, base);
      InvBounds(x.left, s - 1, bot);
      InvBounds(x.right, s - 1, bot);
      if b in Live(x.left, s - 1, base) {
        FreeCorrect(x.left, s - 1, bot, base, b);
        var l := Free(x.left, s - 1, b.addr - base).value;
        MergeKeeps(l, x.right, s, bot, base);
      } else {
        FreeCorrect(x.right, s - 1, bot, base + Pow2(s - 1), b);
        var r := Free(x.right, s - 1, b.addr - base - Pow2(s - 1)).value;
        MergeKeeps(x.left, r, s, bot, base);
      }
    }
  }

  /** One level of Free where it succeeds below. */
  lemma FreeNode(x: Tree, s: nat, off: nat)
    requires x.Node? && s > 0 && !(off == 0 && x.v == FULL_USED)
    ensures off < Pow2(s - 1) && Free(x.left, s - 1, off).Some? ==>
              Free(x, s, off) == Some(Merge(Free(x.left, s - 1, off).value, x.right, s))
    ensures off >= Pow2(s - 1) && Free(x.right, s - 1, off - Pow2(s - 1)).Some? ==>
              Free(x, s, off) == Some(Merge(x.left, Free(x.right, s - 1, off - Pow2(s - 1)).value, s))
  {
  }

  /** Which child a live block lies in is decided by its address. */
  lemma LiveSide(x: Tree, s: nat, bot: nat, base: nat, b: Block)
    requires 2 <= bot && Inv(x, s, bot) && Aligned(base, s) && b in Live(x, s, base)
    ensures b.addr >= base && b.exp >= bot
    ensures x.v == FULL_USED ==> b == Block(base, s)
    ensures x.v != FULL_USED ==>
              && s > bot && x.Node?
              && Inv(x.left, s - 1, bot) && Inv(x.right, s - 1, bot)
              && Aligned(base, s - 1) && Aligned(base + Pow2(s - 1), s - 1)
              && (b.addr < base + Pow2(s - 1) ==> b in Live(x.left, s - 1, base))
              && (b.addr >= base + Pow2(s - 1) ==> b in Live(x.right, s - 1, base + Pow2(s - 1)))
  {
    hide Aligned, Full;
    LiveSound(x, s, bot, base);
    if x.v != FULL_USED {
      NothingBelowLeaf(x, s, bot, base);
      Children(x, s, bot, base);
      Neighbours(x.left, x.right, s - 1, bot, base);
    }
  }

  /** Re-summarising a parent keeps the invariant when a child has free space. */
  lemma MergeKeeps(l: Tree, r: Tree, s: nat, bot: nat, base: nat)
    requires 2 <= bot < s && Inv(l, s - 1, bot) && Inv(r, s - 1, bot)
    requires l.v >= bot || r.v >= bot
    ensures Inv(Merge(l, r, s), s, bot) && Merge(l, r, s).v >= Max(l.v, r.v)
    ensures Live(Merge(l, r, s), s, base) == Live(l, s - 1, base) + Live(r, s - 1, base + Pow2(s - 1))
  {
    InvBounds(l, s - 1, bot);
    InvBounds(r, s - 1, bot);
    if l.v == s - 1 && r.v == s - 1 {
      NothingLiveIsFull(l, s - 1, bot, base);
      NothingLiveIsFull(r, s - 1, bot, base + Pow2(s - 1));
    }
  }

  /** A summary that is not understated is what a merge would compute again. */
  lemma MergeExact(x: Tree, s: nat, bot: nat)
    requires 2 <= bot < s && Inv(x, s, bot) && x.v >= bot
    ensures x.Node? && Merge(x.left, x.right, s) == x
  {
  }

  /** A successful allocation followed at once by the release of its result is
      the identity on the whole tree, summaries included. */
  lemma {:induction false} AllocFreeIdentity(x: Tree, s: nat, bot: nat, req: nat)
    requires 2 <= bot <= req <= s && Inv(x, s, bot) && x.v >= req
    ensures var (found, x') := Alloc(x, s, req);
            found.Some? && Free(x', s, found.value) == Some(x)
    decreases x
  {
    hide Aligned, Live, Full, Inv, Pow2, Alloc, Free, Merge;
    InvBounds(x, s, bot);
    if s == req {
      IdentityHere(x, s);
    } else {
      ZeroAligned(s);
      AllocCorrect(x, s, bot, req, 0);
      MergeExact(x, s, bot);
      Children(x, s, bot, 0);
      if x.left.v >= req {
        AllocFreeIdentity(x.left, s - 1, bot, req);
        AllocOffset(x.left, s - 1, bot, req);
        IdentityLeft(x, s, req);
      } else {
        AllocFreeIdentity(x.right, s - 1, bot, req);
        IdentityRight(x, s, req);
      }
    }
  }

  lemma IdentityHere(x: Tree, s: nat)
    requires x.v == s
    ensures Alloc(x, s, s).0 == Some(0) && Free(Alloc(x, s, s).1, s, 0) == Some(x)
  {
  }

  /** What holds for a child carries over to the node, when merging gives it back. */
  lemma IdentityLeft(x: Tree, s: nat, req: nat)
    requires req < s && x.Node? && x.v >= req && x.left.v >= req && Merge(x.left, x.right, s) == x
    requires Alloc(x, s, req).1.v != FULL_USED
    requires var (found, l) := Alloc(x.left, s - 1, req);
             found.Some? && found.value < Pow2(s - 1) && Free(l, s - 1, found.value) == Some(x.left)
    ensures Alloc(x, s, req).0.Some? && Free(Alloc(x, s, req).1, s, Alloc(x, s, req).0.value) == Some(x)
  {
    hide Pow2, Merge;
  }

  lemma IdentityRight(x: Tree, s: nat, req: nat)
    requires req < s && x.Node? && x.v >= req && x.left.v < req && Merge(x.left, x.right, s) == x
    requires Alloc(x, s, req).1.v != FULL_USED
    requires var (found, r) := Alloc(x.right, s - 1, req);
             found.Some? && Free(r, s - 1, found.value) == Some(x.right)
    ensures Alloc(x, s, req).0.Some? && Free(Alloc(x, s, req).1, s, Alloc(x, s, req).0.value) == Some(x)
  {
    hide Pow2, Merge;
  }

  /** When the summary of a tree is lost: a request for exactly the level it advertises
      leaves it advertising nothing, whatever is still free; after a smaller one it
      advertises what its halves do. */
  lemma AllocDeparts(x: Tree, s: nat, bot: nat, req: nat)
    requires 2 <= bot <= req < s && Inv(x, s, bot) && x.v >= req
    ensures var y := Alloc(x, s, req).1;
            y.Node? && (x.v == req ==> y.v == GET_DEPARTED) && (x.v > req ==> y.v == Max(y.left.v, y.right.v))
  {
    hide Inv;
    ChildSummaries(x, s, bot, req);
    AllocOffset(if x.left.v >= req then x.left else x.right, s - 1, bot, req);
  }

  // ----- which block is found

  /** The addresses of the blocks of a level that summaries lead to. */
  function Offers(x: Tree, s: nat, req: nat, base: nat): set<nat> {
    if x.v < req || s < req then {}
    else if s == req then if x.v == req then {base} else {}
    else if x.Leaf? || s == 0 then {}
    else Offers(x.left, s - 1, req, base) + Offers(x.right, s - 1, req, base + Pow2(s - 1))
  }

  lemma {:induction false} OffersInside(x: Tree, s: nat, req: nat, base: nat)
    ensures forall a :: a in Offers(x, s, req, base) ==> base <= a < base + Pow2(s)
    decreases x
  {
    if !(x.v < req || s <= req || x.Leaf? || s == 0) {
      OffersInside(x.left, s - 1, req, base);
      OffersInside(x.right, s - 1, req, base + Pow2(s - 1));
    }
  }

  /** The search finds the lowest of them. */
  lemma {:induction false} AllocLowest(x: Tree, s: nat, bot: nat, req: nat, base: nat)
    requires 2 <= bot <= req <= s && Inv(x, s, bot) && x.v >= req
    ensures Alloc(x, s, req).0.Some?
    ensures var p := base + Alloc(x, s, req).0.value;
            p in Offers(x, s, req, base) && forall a :: a in Offers(x, s, req, base) ==> p <= a
    decreases x
  {
    hide Inv, Pow2, Live, Aligned;
    InvBounds(x, s, bot);
    if s > req {
      ChildSummaries(x, s, bot, req);
      OffersInside(x.right, s - 1, req, base + Pow2(s - 1));
      if x.left.v >= req {
        AllocLowest(x.left, s - 1, bot, req, base);
        OffersInside(x.left, s - 1, req, base);
      } else {
        AllocLowest(x.right, s - 1, bot, req, base + Pow2(s - 1));
      }
    }
  }

  /** No node below is understated. */
  predicate NoneUnderstated(x: Tree, s: nat) {
    x.v == FULL_USED || x.v == s || x.Leaf? || s == 0 ||
    (x.v == Max(x.left.v, x.right.v) && NoneUnderstated(x.left, s - 1) && NoneUnderstated(x.right, s - 1))
  }

  lemma {:induction false} FullOffers(s: nat, bot: nat, req: nat, base: nat, a: nat)
    requires 2 <= bot <= req <= s && Aligned(base, s) && Aligned(a, req) && base <= a && a + Pow2(req) <= base + Pow2(s)
    ensures a in Offers(Full(s, bot), s, req, base)
    decreases s
  {
    if s == req {
      if base < a { GridStep(base, a, s); }
    } else {
      AlignedHalves(base, s);
      AlignedWeaken(base + Pow2(s - 1), s - 1, req);
      if a < base + Pow2(s - 1) {
        GridStep(a, base + Pow2(s - 1), req);
        FullOffers(s - 1, bot, req, base, a);
      } else {
        FullOffers(s - 1, bot, req, base + Pow2(s - 1), a);
      }
    }
  }

  /** Where no node is understated, they are all the places of the level in free blocks:
      the search finds the lowest address that fits at all. */
  lemma {:induction false} OffersAreAll(x: Tree, s: nat, bot: nat, req: nat, base: nat, f: Block, a: nat)
    requires 2 <= bot <= req && Inv(x, s, bot) && Aligned(base, s) && NoneUnderstated(x, s)
    requires f in FreeBlocks(x, s, base) && f.addr <= a && a + Pow2(req) <= f.addr + Pow2(f.exp) && Aligned(a, req)
    ensures a in Offers(x, s, req, base) && req <= f.exp <= x.v
    decreases x
  {
    hide Aligned, Pow2;
    InvBounds(x, s, bot);
    if req > f.exp { Pow2Monotone(f.exp + 1, req); Pow2Doubles(f.exp); }
    if x.v == s {
      FullOffers(s, bot, req, base, a);
    } else if x.Node? && x.v != FULL_USED {
      AlignedHalves(base, s);
      if f in FreeBlocks(x.left, s - 1, base) {
        OffersAreAll(x.left, s - 1, bot, req, base, f, a);
      } else {
        OffersAreAll(x.right, s - 1, bot, req, base + Pow2(s - 1), f, a);
      }
    }
  }

  lemma Pow2Doubles(n: nat)
    ensures Pow2(n + 1) == 2 * Pow2(n) && Pow2(n) < Pow2(n + 1)
  {
  }

  // ----- trees whose first block is never given back

  /** A node is not understated while at most the block at address a is live below it. */
  ghost predicate Tight(x: Tree, s: nat, base: nat, a: nat) {
    x.v == FULL_USED || x.v == s || x.Leaf? || s == 0 ||
    (&& Tight(x.left, s - 1, base, a) && Tight(x.right, s - 1, base + Pow2(s - 1), a)
     && ((forall b :: b in Live(x, s, base) ==> b.addr == a) ==> x.v == Max(x.left.v, x.right.v)))
  }

  lemma FullTight(s: nat, bot: nat, base: nat, a: nat)
    requires bot <= s
    ensures Tight(Full(s, bot), s, base, a)
  {
  }

  /** A leaf-sized block taken from a fresh tree leaves its right half free, and the
      summaries say so. */
  lemma {:induction false} LeafTaken(s: nat, bot: nat)
    requires 2 <= bot < s
    ensures var x := Alloc(Full(s, bot), s, bot).1;
            x.Node? && x.v == s - 1 && x.right == Full(s - 1, bot) && x.left == Alloc(Full(s - 1, bot), s - 1, bot).1
            && Largest(x, s) == s - 1 && Alloc(Full(s, bot), s, bot).0.Some?
    decreases s
  {
    if s - 1 > bot { LeafTaken(s - 1, bot); }
  }

  /** A leaf and then a half taken from a fresh tree: the root promises nothing, with a
      quarter of the tree free. */
  lemma LeafThenHalf(s: nat, bot: nat)
    requires 2 <= bot && bot + 2 <= s
    ensures var x := Alloc(Full(s, bot), s, bot).1;
            var (found, y) := Alloc(x, s, s - 1);
            Alloc(Full(s, bot), s, bot).0.Some? && x.v == s - 1 && found.Some? && y.v == GET_DEPARTED && Largest(y, s) == s - 2 && !Reachable(y, s)
  {
    LeafTaken(s, bot);
    LeafTaken(s - 1, bot);
  }

  /** The first allocation from a fresh tree understates no node. */
  lemma {:induction false} FirstAllocTight(s: nat, bot: nat, req: nat, base: nat, a: nat)
    requires 2 <= bot <= req <= s
    ensures Tight(Alloc(Full(s, bot), s, req).1, s, base, a)
  {
    if s > req {
      AllocFromFull(s - 1, bot, req);
      FirstAllocTight(s - 1, bot, req, base, a);
      FullTight(s - 1, bot, base + Pow2(s - 1), a);
    }
  }

  /** Any other allocation leaves a live block elsewhere below every node it changes. */
  lemma {:induction false} AllocKeepsTight(x: Tree, s: nat, bot: nat, req: nat, base: nat, a: nat)
    requires 2 <= bot <= req <= s && Inv(x, s, bot) && x.v >= req && Aligned(base, s) && Tight(x, s, base, a)
    requires Alloc(x, s, req).0.Some? && base + Alloc(x, s, req).0.value != a
    ensures Tight(Alloc(x, s, req).1, s, base, a)
    decreases x
  {
    hide Aligned, Inv, Pow2;
    InvBounds(x, s, bot);
    if s > req {
      AllocCorrect(x, s, bot, req, base);
      Children(x, s, bot, base);
      InvBounds(x.left, s - 1, bot);
      ChildrenTight(x, s, bot, base, a);
      if x.left.v >= req {
        AllocCorrect(x.left, s - 1, bot, req, base);
        AllocKeepsTight(x.left, s - 1, bot, req, base, a);
      } else {
        AllocCorrect(x.right, s - 1, bot, req, base + Pow2(s - 1));
        AllocKeepsTight(x.right, s - 1, bot, req, base + Pow2(s - 1), a);
      }
      assert Block(base + Alloc(x, s, req).0.value, req) in Live(Alloc(x, s, req).1, s, base);
    }
  }

  lemma ChildrenTight(x: Tree, s: nat, bot: nat, base: nat, a: nat)
    requires 2 <= bot < s && Inv(x, s, bot) && x.v != FULL_USED && Tight(x, s, base, a) && x.Node?
    ensures Tight(x.left, s - 1, base, a) && Tight(x.right, s - 1, base + Pow2(s - 1), a)
  {
    if x.v == s {
      FullTight(s - 1, bot, base, a);
      FullTight(s - 1, bot, base + Pow2(s - 1), a);
    }
  }

  /** A release re-summarises every node on its way. */
  lemma {:induction false} FreeKeepsTight(x: Tree, s: nat, bot: nat, base: nat, b: Block, a: nat)
    requires 2 <= bot && Inv(x, s, bot) && Aligned(base, s) && b in Live(x, s, base) && Tight(x, s, base, a)
    requires b.addr >= base && Free(x, s, b.addr - base).Some?
    ensures Tight(Free(x, s, b.addr - base).value, s, base, a)
    decreases x
  {
    hide Aligned, Inv, Full;
    LiveSide(x, s, bot, base, b);
    if x.v == FULL_USED {
      FreeHere(x, s, bot, base);
    } else {
      ChildrenTight(x, s, bot, base, a);
      if b.addr < base + Pow2(s - 1) {
        FreeCorrect(x.left, s - 1, bot, base, b);
        FreeKeepsTight(x.left, s - 1, bot, base, b, a);
      } else {
        FreeCorrect(x.right, s - 1, bot, base + Pow2(s - 1), b);
        FreeKeepsTight(x.right, s - 1, bot, base + Pow2(s - 1), b, a);
      }
    }
  }

  /** With only its first block left, a tree is exactly as after its first allocation. */
  lemma {:induction false} OnlyFirstLeft(x: Tree, s: nat, bot: nat, base: nat, e: nat)
    requires 2 <= bot && Inv(x, s, bot) && Aligned(base, s) && Tight(x, s, base, base)
    requires Live(x, s, base) == {Block(base, e)}
    ensures bot <= e <= s && x == Alloc(Full(s, bot), s, e).1
    decreases x
  {
    hide Aligned, Pow2;
    LiveSound(x, s, bot, base);
    assert Block(base, e) in Live(x, s, base);
    InvBounds(x, s, bot);
    if x.v == FULL_USED {
    } else {
      LiveSide(x, s, bot, base, Block(base, e));
      Neighbours(x.left, x.right, s - 1, bot, base);
      Children(x, s, bot, base);
      NothingLiveIsFull(x.right, s - 1, bot, base + Pow2(s - 1));
      OnlyFirstLeft(x.left, s - 1, bot, base, e);
      AllocFromFull(s - 1, bot, e);
    }
  }
}
