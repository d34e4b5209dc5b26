/** The doubly linked list of a task's memory areas, as kernel/src/uproc.c keeps it. */
module VmAreaLists {
  import opened Wrappers
  import opened VmAreas

  class VmeNode {
    var start: int
    var end: int
    var prot: int
    var flags: int
    var next: VmeNode?
    var prev: VmeNode?

    constructor (start: int, end: int, prot: int, flags: int)
      ensures Value() == Area(start, end, prot, flags) && next == null && prev == null
    {
      this.start, this.end, this.prot, this.flags := start, end, prot, flags;
      this.next, this.prev := null, null;
    }

    function Value(): Area
      reads this
    {
      Area(start, end, prot, flags)
    }
  }

  class VmList {
    const pg: nat
    const areaEnd: int
    var head: VmeNode?
    var tail: VmeNode?
    ghost var nodes: seq<VmeNode>
    ghost var areas: seq<Area>

    static ghost function Item(ns: seq<VmeNode>, i: int): VmeNode? {
      if 0 <= i < |ns| then ns[i] else null
    }

    ghost function Node(i: int): VmeNode?
      reads this
    {
      Item(nodes, i)
    }

    /** head and both link directions spell out the same sequence of nodes, whose
        contents are the areas. */
    ghost predicate Chained()
      reads this, nodes
    {
      && pg > 0 && head == Node(0) && |areas| == |nodes| && NoRepeats(nodes)
      && (forall i {:trigger nodes[i].Value()} {:trigger areas[i]} :: 0 <= i < |nodes| ==> nodes[i].Value() == areas[i])
      && (forall i {:trigger nodes[i].next} :: 0 <= i < |nodes| ==> nodes[i].next == Node(i + 1))
      && (forall i {:trigger nodes[i].prev} :: 0 <= i < |nodes| ==> nodes[i].prev == Node(i - 1))
    }

    /** And tail is the last of them. */
    ghost predicate Linked()
      reads this, nodes
    {
      Chained() && tail == Node(|nodes| - 1)
    }

    ghost predicate Valid()
      reads this, nodes
    {
      Linked() && Sorted(areas, pg)
    }

    constructor (pg: nat, areaEnd: int)
      requires pg > 0
      ensures Valid() && nodes == [] && this.pg == pg && this.areaEnd == areaEnd
    {
      this.pg, this.areaEnd := pg, areaEnd;
      head, tail := null, null;
      nodes, areas := [], [];
    }

    lemma Ends()
      requires Linked()
      ensures pg > 0 && head == Node(0) && tail == Node(|nodes| - 1) && |areas| == |nodes| && NoRepeats(nodes)
    {
    }

    lemma At(k: nat)
      requires Linked() && k < |nodes|
      ensures nodes[k].next == Node(k + 1) && nodes[k].prev == Node(k - 1)
      ensures |areas| == |nodes| && areas[k] == nodes[k].Value()
    {
    }

    /** get_suitable_addr; ok is the assertion on the user area's end. */
    method GetSuitableAddr(startAddr: int, length: int) returns (addr: int, ok: bool)
      requires Linked()
      ensures addr == Suitable(areas, startAddr, length, pg)
      ensures ok <==> nodes == [] || RoundUp(addr + length, pg) <= areaEnd
    {
      hide RoundUp, Suitable, Linked;
      Ends();
      addr := startAddr;
      var endAddr := RoundUp(startAddr + length, pg);
      SuitableEnd([], addr, length, pg);
      if head == null {
        return addr, true;
      }
      var cur := head;
      ghost var k := 0;
      assert areas[0..] == areas;
      while cur != null
        invariant 0 <= k <= |nodes| && cur == Node(k) && endAddr == RoundUp(addr + length, pg)
        invariant Suitable(areas[k..], addr, length, pg) == Suitable(areas, startAddr, length, pg)
        decreases |nodes| - k
      {
        At(k);
        SuitableStep(areas, k, addr, length, pg);
        if cur.start >= endAddr {
          ok := endAddr <= areaEnd;
          return;
        } else if cur.end <= addr {
          cur := cur.next;
        } else {
          addr := cur.end;
          endAddr := RoundUp(addr + length, pg);
          cur := cur.next;
        }
        k := k + 1;
      }
      SuitableEnd(areas[k..], addr, length, pg);
      ok := endAddr <= areaEnd;
    }

    /** new_vme_node. */
    method NewVmeNode(addr: int, length: int, prot: int, flags: int) returns (node: VmeNode, ok: bool)
      requires Linked()
      ensures fresh(node) && node.next == null && node.prev == null
      ensures node.Value() == NewNode(areas, addr, length, prot, flags, pg)
      ensures ok <==> nodes == [] || node.end <= areaEnd
    {
      hide RoundUp, Suitable, Linked;
      Ends();
      var startAddr := RoundUp(addr, pg);
      var rightAddr;
      rightAddr, ok := GetSuitableAddr(startAddr, length);
      node := new VmeNode(rightAddr, RoundUp(rightAddr + length, pg), prot % 256, flags % 256);
    }

    /** The walk of insert_vme_node: the first area behind the node, unless one overlaps. */
    method FindPlace(node: VmeNode) returns (cur: VmeNode?, b: bool, ghost k: nat)
      requires Linked()
      ensures b <==> InsertAt(areas, node.Value()).Some?
      ensures b ==> InsertAt(areas, node.Value()) == Some(k) && k <= |nodes| && cur == Node(k)
    {
      hide InsertAt, Linked;
      Ends();
      ghost var a := node.Value();
      cur, k := head, 0;
      assert areas[0..] == areas;
      while cur != null
        invariant 0 <= k <= |nodes| && cur == Node(k)
        invariant InsertAt(areas, a) == Shifted(InsertAt(areas[k..], a), k)
        decreases |nodes| - k
      {
        At(k);
        InsertStep(areas, k, a);
        if cur.start >= node.end {
          return cur, true, k;
        } else if cur.end <= node.start {
          cur := cur.next;
        } else {
          return cur, false, k;
        }
        k := k + 1;
      }
      InsertEnd(areas[k..], a);
      b := true;
    }

    /** insert_vme_node: links the node in before the first area behind it. */
    method InsertVmeNode(node: VmeNode) returns (b: bool)
      requires Linked() && node !in nodes && node.next == null && node.prev == null
      modifies this, nodes, node
      ensures Linked() && node.Value() == old(node.Value())
      ensures b <==> InsertAt(old(areas), node.Value()).Some?
      ensures !b ==> nodes == old(nodes) && areas == old(areas)
      ensures b ==> var k := InsertAt(old(areas), node.Value()).value;
                    k <= |old(nodes)| && nodes == old(nodes)[..k] + [node] + old(nodes)[k..]
      ensures b ==> areas == Inserted(old(areas), node.Value(), InsertAt(old(areas), node.Value()).value)
    {
      hide Linked;
      var cur;
      ghost var k;
      cur, b, k := FindPlace(node);
      if b { LinkAt(node, cur, k); }
    }

    /** The relinking: before cur, or at the tail where cur is null. */
    method Relink(node: VmeNode, cur: VmeNode?, ghost k: nat)
      requires Linked() && k <= |nodes| && cur == Node(k)
      requires node !in nodes && node.next == null && node.prev == null
      modifies this`head, this`tail, nodes, node
      ensures head == (if k == 0 then node else old(head)) && tail == if k == |nodes| then node else old(tail)
      ensures node.next == Item(nodes, k) && node.prev == Item(nodes, k - 1) && node.Value() == old(node.Value())
      ensures forall i {:trigger nodes[i].next} :: 0 <= i < |nodes| ==> nodes[i].next == if i == k - 1 then node else Item(nodes, i + 1)
      ensures forall i {:trigger nodes[i].prev} :: 0 <= i < |nodes| ==> nodes[i].prev == if i == k then node else Item(nodes, i - 1)
      ensures forall i {:trigger nodes[i].Value()} :: 0 <= i < |nodes| ==> nodes[i].Value() == areas[i]
    {
      hide Linked, NoRepeats;
      Ends();
      Links();
      Apart(k);
      if k > 0 { At(k - 1); }
      if k < |nodes| { At(k); }
      if head == null {
        head := node;
        tail := node;
      } else if cur == null {
        tail.next := node;
        node.prev := tail;
        tail := node;
      } else {
        var prev := cur.prev;
        if prev == null {
          head := node;
        } else {
          prev.next := node;
        }
        node.prev := prev;
        node.next := cur;
        cur.prev := node;
      }
    }

    method LinkAt(node: VmeNode, cur: VmeNode?, ghost k: nat)
      requires Linked() && k <= |nodes| && cur == Node(k)
      requires node !in nodes && node.next == null && node.prev == null
      modifies this, nodes, node
      ensures Linked() && k <= |old(areas)| && nodes == old(nodes)[..k] + [node] + old(nodes)[k..]
      ensures node.Value() == old(node.Value()) && areas == Inserted(old(areas), node.Value(), k)
    {
      hide Linked, Chained, NoRepeats;
      Ends();
      Links();
      ghost var (ns, vs) := (nodes, areas);
      Relink(node, cur, k);
      nodes := nodes[..k] + [node] + nodes[k..];
      areas := areas[..k] + [node.Value()] + areas[k..];
      SplicedOnce(ns, nodes, node, k);
      NextsAfter(ns, node, k);
      PrevsAfter(ns, node, k);
      ValuesAfter(ns, vs, node, k);
      EndsAfter(ns, node, k);
      IsLinked();
    }

    /** The links after the relinking, read off the longer list of nodes. */
    lemma NextsAfter(ns: seq<VmeNode>, node: VmeNode, k: nat)
      requires k <= |ns| && nodes == ns[..k] + [node] + ns[k..] && node.next == Item(ns, k)
      requires forall i {:trigger ns[i].next} :: 0 <= i < |ns| ==> ns[i].next == if i == k - 1 then node else Item(ns, i + 1)
      ensures forall i {:trigger nodes[i].next} :: 0 <= i < |nodes| ==> nodes[i].next == Node(i + 1)
    {
      Spliced(ns, nodes, node, k);
    }

    lemma PrevsAfter(ns: seq<VmeNode>, node: VmeNode, k: nat)
      requires k <= |ns| && nodes == ns[..k] + [node] + ns[k..] && node.prev == Item(ns, k - 1)
      requires forall i {:trigger ns[i].prev} :: 0 <= i < |ns| ==> ns[i].prev == if i == k then node else Item(ns, i - 1)
      ensures forall i {:trigger nodes[i].prev} :: 0 <= i < |nodes| ==> nodes[i].prev == Node(i - 1)
    {
      Spliced(ns, nodes, node, k);
    }

    lemma ValuesAfter(ns: seq<VmeNode>, vs: seq<Area>, node: VmeNode, k: nat)
      requires k <= |ns| == |vs| && nodes == ns[..k] + [node] + ns[k..] && areas == vs[..k] + [node.Value()] + vs[k..]
      requires forall i {:trigger ns[i].Value()} :: 0 <= i < |ns| ==> ns[i].Value() == vs[i]
      ensures |areas| == |nodes| && forall i {:trigger nodes[i].Value()} :: 0 <= i < |nodes| ==> nodes[i].Value() == areas[i]
    {
      Spliced(ns, nodes, node, k);
      Spliced(vs, areas, node.Value(), k);
    }

    lemma EndsAfter(ns: seq<VmeNode>, node: VmeNode, k: nat)
      requires k <= |ns| && nodes == ns[..k] + [node] + ns[k..]
      ensures Node(0) == if k == 0 then node else Item(ns, 0)
      ensures Node(|nodes| - 1) == if k == |ns| then node else Item(ns, |ns| - 1)
    {
      Spliced(ns, nodes, node, k);
    }

    lemma Apart(k: nat)
      requires Linked() && k <= |nodes|
      ensures forall i :: 0 <= i < |nodes| ==> (nodes[i] == Node(k) <==> i == k) && (nodes[i] == Node(k - 1) <==> i == k - 1)
      ensures forall i :: 0 <= i < |nodes| ==> (nodes[i] == tail <==> i == |nodes| - 1)
    {
    }

    lemma Links()
      requires Linked()
      ensures forall i {:trigger nodes[i].Value()} {:trigger areas[i]} :: 0 <= i < |nodes| ==> nodes[i].Value() == areas[i]
      ensures forall i {:trigger nodes[i].next} :: 0 <= i < |nodes| ==> nodes[i].next == Node(i + 1)
      ensures forall i {:trigger nodes[i].prev} :: 0 <= i < |nodes| ==> nodes[i].prev == Node(i - 1)
    {
    }

    lemma IsLinked()
      requires pg > 0 && head == Node(0) && tail == Node(|nodes| - 1) && |areas| == |nodes| && NoRepeats(nodes)
      requires forall i :: 0 <= i < |nodes| ==> nodes[i].Value() == areas[i]
      requires forall i :: 0 <= i < |nodes| ==> nodes[i].next == Node(i + 1)
      requires forall i :: 0 <= i < |nodes| ==> nodes[i].prev == Node(i - 1)
      ensures Linked()
    {
    }

    /** find_vme_node: the area that covers the range, if there is one. */
    method FindVmeNode(addr: int, endAddr: int) returns (r: VmeNode?)
      requires Valid() && addr < endAddr
      ensures forall k :: 0 <= k < |nodes| ==> (Covers(areas[k], addr, endAddr) <==> r == nodes[k])
      ensures r != null ==> r in nodes
    {
      hide Linked, FindAt, Sorted, Covers;
      Ends();
      FindIsComplete(areas, addr, endAddr, pg);
      var cur := head;
      ghost var k := 0;
      assert areas[0..] == areas;
      while cur != null
        invariant 0 <= k <= |nodes| && cur == Node(k)
        invariant FindAt(areas, addr, endAddr) == Shifted(FindAt(areas[k..], addr, endAddr), k)
        decreases |nodes| - k
      {
        At(k);
        FindStep(areas, k, addr, endAddr);
        if cur.start <= addr && cur.end >= endAddr {
          return cur;
        } else if cur.end <= addr {
          cur := cur.next;
        } else {
          return null;
        }
        k := k + 1;
      }
      FindEnd(areas[k..], addr, endAddr);
      r := null;
    }

    /** kmmap's mapping branch: the least free range from the hint on joins the list. */
    method Mmap(addr: int, length: int, prot: int, flags: int) returns (start: int, ok: bool)
      requires Valid() && length > 0
      modifies this, nodes
      ensures Valid() && start == Suitable(old(areas), RoundUp(addr, pg), length, pg)
      ensures ok <==> old(nodes) == [] || RoundUp(start + length, pg) <= areaEnd
      ensures !ok ==> nodes == old(nodes) && areas == old(areas)
      ensures ok ==> var a := Area(start, RoundUp(start + length, pg), prot % 256, flags % 256);
                     InsertAt(old(areas), a).Some? && areas == Inserted(old(areas), a, InsertAt(old(areas), a).value)
    {
      hide Linked, Sorted, RoundUp, Suitable, InsertAt, Inserted;
      Ends();
      RoundUpMeaning(addr, pg);
      PlacementNeverFails(areas, RoundUp(addr, pg), length, prot % 256, flags % 256, pg);
      var node;
      node, ok := NewVmeNode(addr, length, prot, flags);
      start := node.start;
      if !ok { return; }
      var success := InsertVmeNode(node);
      assert success;
    }

    /** One round of the copy: a new node for the area is inserted where it fits. */
    method CopyNode(cur: VmeNode) returns (newCur: VmeNode, within: bool)
      requires Linked() && cur !in nodes
      modifies this, nodes
      ensures Linked() && fresh(newCur)
      ensures forall n :: n in nodes ==> n in old(nodes) || n == newCur
      ensures var a := cur.Value();
              newCur.Value() == NewNode(old(areas), a.start, ToInt(a.end - a.start), a.prot, a.flags, pg)
      ensures within <==> old(nodes) == [] || newCur.end <= areaEnd
      ensures !within ==> nodes == old(nodes) && areas == old(areas)
      ensures within ==> var r := InsertAt(old(areas), newCur.Value());
              if r.None? then nodes == old(nodes) && areas == old(areas)
              else r.value <= |old(nodes)| && areas == Inserted(old(areas), newCur.Value(), r.value)
                   && nodes == old(nodes)[..r.value] + [newCur] + old(nodes)[r.value..]
    {
      hide Linked, NewNode, InsertAt, ToInt, Inserted;
      newCur, within := NewVmeNode(cur.start, ToInt(cur.end - cur.start), cur.prot, cur.flags);
      if within {
        var inserted := InsertVmeNode(newCur);
      }
    }

    /** Storing the head again. */
    method SetHead(newHead: VmeNode?)
      requires Linked() && newHead == head
      modifies this`head
      ensures Linked() && head == newHead
    {
      head := newHead;
    }

    /** Storing a tail, which need not be the last node. */
    method SetTail(newTail: VmeNode?)
      requires Linked()
      modifies this`tail
      ensures Chained() && tail == newTail
    {
      tail := newTail;
    }

    /** One round of fork_copying_vme_pages: the copy of cur joins, and becomes head or
        tail of the copy where cur is this list's. */
    method ForkRound(copy: VmList, cur: VmeNode, isHead: bool, ghost k: nat) returns (ok: bool)
      requires Valid() && copy.Linked() && copy != this && copy.pg == pg && pg <= INT_SPAN
      requires k < |nodes| && cur == Node(k) && (isHead <==> k == 0) && ByteFields(areas[k])
      requires (forall n :: n in copy.nodes ==> n !in nodes) && CopySoFar(areas, k, copy.areas, copy.areaEnd)
      modifies copy, copy.nodes
      ensures copy.Chained() && fresh(set n | n in copy.nodes && n !in old(copy.nodes))
      ensures ok ==> CopySoFar(areas, k + 1, copy.areas, copy.areaEnd)
      ensures ok && (k + 1 < |nodes| || copy.areas == areas) ==> copy.Linked()
      ensures !ok ==> !AllCopyable(areas, |areas|, copy.areaEnd)
    {
      hide Linked, Sorted, ByteFields, Chained, CopySoFar, AllCopyable, Copyable, NewNode, InsertAt, ToInt, Inserted;
      Ends();
      At(k);
      TailIs(k);
      copy.Ends();
      ghost var before := copy.areas;
      var newCur;
      newCur, ok := copy.CopyNode(cur);
      copy.LinkedIsChained();
      CopySoFarStep(areas, k, before, newCur.Value(), pg, copy.areaEnd, ok);
      if !ok {
        NotAll(areas, k, copy.areaEnd);
        return;
      }
      copy.Ends();
      if isHead {
        CopyEmpty(areas, before, copy.areaEnd);
        InsertEnd(before, newCur.Value());
        copy.SetHead(newCur);
      }
      if cur == tail {
        if copy.areas == areas { CopyDone(areas, copy.areas, copy.areaEnd); }
        copy.SetTail(newCur);
        copy.LinkedIsChained();
      }
    }

    /** fork_copying_vme_pages into a new task's empty list. The copy has the same areas
        with the same protections and flags, linked both ways, if and only if every size
        is an int and every area but the first ends inside the user area; otherwise the
        call panics (ok is false) or leaves a list with other areas. */
    method ForkCopyingVmePages(copy: VmList) returns (ok: bool)
      requires Valid() && copy.Linked() && copy.nodes == [] && copy != this
      requires copy.pg == pg && pg <= INT_SPAN
      requires forall i :: 0 <= i < |areas| ==> ByteFields(areas[i])
      modifies copy
      ensures copy.Chained() && fresh(copy.nodes)
      ensures ok && copy.areas == areas <==> AllCopyable(areas, |areas|, copy.areaEnd)
      ensures ok && copy.areas == areas ==> copy.Valid()
    {
      hide Linked, Sorted, ByteFields, Chained, CopySoFar, AllCopyable, Copyable;
      Ends();
      copy.Ends();
      copy.LinkedIsChained();
      CopyStarts(areas, copy.areaEnd);
      var cur := head;
      ok := true;
      if cur == null {
        CopyDone(areas, copy.areas, copy.areaEnd);
        copy.SetHead(null);
        copy.SetTail(null);
        copy.LinkedIsChained();
        return;
      }
      var isHead := true;
      ghost var k := 0;
      while cur != null
        invariant 0 <= k <= |nodes| && cur == Node(k) && (isHead <==> k == 0) && ok
        invariant fresh(copy.nodes) && copy.Chained() && CopySoFar(areas, k, copy.areas, copy.areaEnd)
        invariant k < |nodes| || copy.areas == areas ==> copy.Linked()
        decreases |nodes| - k
      {
        At(k);
        ok := ForkRound(copy, cur, isHead, k);
        if !ok { return; }
        isHead := false;
        cur := cur.next;
        k := k + 1;
      }
      CopyDone(areas, copy.areas, copy.areaEnd);
    }

    lemma LinkedIsChained()
      requires pg > 0
      ensures Linked() <==> Chained() && tail == Node(|nodes| - 1)
    {
      hide Chained;
    }

    lemma TailIs(k: nat)
      requires Linked() && k < |nodes|
      ensures nodes[k] == tail <==> k == |nodes| - 1
    {
    }
  }

  /** fork copies the area i of the list. */
  predicate Copyable(areas: seq<Area>, i: nat, limit: int)
    requires i < |areas|
  {
    areas[i].end - areas[i].start < INT_HALF && (i > 0 ==> areas[i].end <= limit)
  }

  ghost predicate AllCopyable(areas: seq<Area>, k: nat, limit: int)
    requires k <= |areas|
  {
    forall i :: 0 <= i < k ==> Copyable(areas, i, limit)
  }

  /** After k rounds the copy is exact if every area so far could be copied, and spoiled if not. */
  ghost predicate CopySoFar(areas: seq<Area>, k: nat, copy: seq<Area>, limit: int)
    requires k <= |areas|
  {
    if AllCopyable(areas, k, limit) then copy == areas[..k] else Spoiled(copy, areas, k)
  }

  function Following(copy: seq<Area>, node: Area): seq<Area> {
    match InsertAt(copy, node) { case None => copy case Some(at) => Inserted(copy, node, at) }
  }

  lemma CopyStarts(areas: seq<Area>, limit: int)
    ensures CopySoFar(areas, 0, [], limit)
  {
  }

  lemma CopySoFarStep(areas: seq<Area>, k: nat, copy: seq<Area>, node: Area, pg: nat, limit: int, within: bool)
    requires 0 < pg <= INT_SPAN && Sorted(areas, pg) && k < |areas| && ByteFields(areas[k]) && CopySoFar(areas, k, copy, limit)
    requires var a := areas[k]; node == NewNode(copy, a.start, ToInt(a.end - a.start), a.prot, a.flags, pg)
    requires within <==> copy == [] || node.end <= limit
    ensures !within ==> !AllCopyable(areas, k, limit) || !Copyable(areas, k, limit)
    ensures within ==> CopySoFar(areas, k + 1, Following(copy, node), limit)
    ensures within && AllCopyable(areas, k + 1, limit) ==> InsertAt(copy, node) == Some(|copy|)
  {
    hide Sorted, NewNode, InsertAt, ToInt, ByteFields, Inserted, Spoiled;
    var a := areas[k];
    if !AllCopyable(areas, k, limit) {
      SpoiledStays(copy, areas, k, node);
    } else if a.end - a.start < INT_HALF {
      assert copy + [a] == areas[..k + 1];
      SortedPrefix(areas, k + 1, pg);
      CopyIsExact(copy, a, node, pg, limit, within);
    } else {
      assert !Copyable(areas, k, limit);
      LongRoundSpoils(areas, k, pg);
    }
  }

  lemma CopyEmpty(areas: seq<Area>, copy: seq<Area>, limit: int)
    requires CopySoFar(areas, 0, copy, limit)
    ensures copy == []
  {
  }

  lemma NotAll(areas: seq<Area>, k: nat, limit: int)
    requires k < |areas| && (!AllCopyable(areas, k, limit) || !Copyable(areas, k, limit))
    ensures !AllCopyable(areas, |areas|, limit)
  {
  }

  lemma CopyDone(areas: seq<Area>, copy: seq<Area>, limit: int)
    requires CopySoFar(areas, |areas|, copy, limit)
    ensures copy == areas <==> AllCopyable(areas, |areas|, limit)
  {
    hide Copyable;
    if !AllCopyable(areas, |areas|, limit) { SpoiledDiffers(copy, areas); }
  }

  lemma SortedPrefix(areas: seq<Area>, k: nat, pg: nat)
    requires pg > 0 && Sorted(areas, pg) && k <= |areas|
    ensures Sorted(areas[..k], pg)
  {
  }

  /** What CopyRound's equivalence gives the copying loop. */
  lemma CopyIsExact(copy: seq<Area>, a: Area, node: Area, pg: nat, limit: int, within: bool)
    requires 0 < pg <= INT_SPAN && Sorted(copy + [a], pg) && ByteFields(a) && a.end - a.start < INT_HALF
    requires node == NewNode(copy, a.start, ToInt(a.end - a.start), a.prot, a.flags, pg)
    requires within <==> copy == [] || node.end <= limit
    ensures node == a && InsertAt(copy, a) == Some(|copy|) && Inserted(copy, a, |copy|) == copy + [a]
    ensures Sorted(copy + [a], pg)
  {
    hide Sorted, NewNode, InsertAt, ToInt, ByteFields;
    CopyRound(copy, a, pg, a.end);
    assert copy[..|copy|] == copy && copy[|copy|..] == [];
  }

  lemma FindEnd(areas: seq<Area>, lo: int, hi: int)
    requires areas == []
    ensures FindAt(areas, lo, hi) == None
  {
  }

  lemma FindStep(areas: seq<Area>, k: nat, lo: int, hi: int)
    requires k < |areas|
    ensures FindAt(areas[k..], lo, hi) ==
      if areas[k].start <= lo && areas[k].end >= hi then Some(0)
      else if areas[k].end <= lo then Shifted(FindAt(areas[k + 1..], lo, hi), 1)
      else None
  {
    assert areas[k..][0] == areas[k] && areas[k..][1..] == areas[k + 1..];
  }

  /** Where the elements of a sequence go when one is put in. */
  lemma Spliced<T>(before: seq<T>, after: seq<T>, x: T, k: nat)
    requires k <= |before| && after == before[..k] + [x] + before[k..]
    ensures |after| == |before| + 1 && after[k] == x
    ensures forall i {:trigger after[i]} :: 0 <= i < |after| ==> after[i] == if i < k then before[i] else if i == k then x else before[i - 1]
  {
  }

  lemma SplicedOnce<T>(before: seq<T>, after: seq<T>, x: T, k: nat)
    requires k <= |before| && after == before[..k] + [x] + before[k..] && NoRepeats(before) && x !in before
    ensures NoRepeats(after)
  {
    forall i, j | 0 <= i < j < |after| ensures after[i] != after[j] {
      var (p, q) := (if i < k then i else i - 1, if j < k then j else j - 1);
      assert i != k ==> after[i] == before[p];
      assert j != k ==> after[j] == before[q];
    }
  }

  ghost function Shifted(r: Option<nat>, k: nat): Option<nat> {
    match r { case Some(v) => Some(v + k) case None => None }
  }

  lemma SuitableEnd(areas: seq<Area>, addr: int, length: int, pg: nat)
    requires pg > 0 && areas == []
    ensures Suitable(areas, addr, length, pg) == addr
  {
  }

  lemma SuitableStep(areas: seq<Area>, k: nat, addr: int, length: int, pg: nat)
    requires pg > 0 && k < |areas|
    ensures Suitable(areas[k..], addr, length, pg) ==
      if areas[k].start >= RoundUp(addr + length, pg) then addr
      else Suitable(areas[k + 1..], if areas[k].end <= addr then addr else areas[k].end, length, pg)
  {
    assert areas[k..][0] == areas[k] && areas[k..][1..] == areas[k + 1..];
  }

  lemma InsertEnd(areas: seq<Area>, node: Area)
    requires areas == []
    ensures InsertAt(areas, node) == Some(0)
  {
  }

  lemma InsertStep(areas: seq<Area>, k: nat, node: Area)
    requires k < |areas|
    ensures InsertAt(areas[k..], node) ==
      if areas[k].start >= node.end then Some(0)
      else if areas[k].end <= node.start then Shifted(InsertAt(areas[k + 1..], node), 1)
      else None
  {
    assert areas[k..][0] == areas[k] && areas[k..][1..] == areas[k + 1..];
  }
}
