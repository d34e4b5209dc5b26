/** The virtual-memory areas of a task (kernel/src/uproc.c) as a sorted list of
    disjoint page ranges: what the list walks compute, and what that means. */
module VmAreas {
  import opened Wrappers
  import Bits
  import Powers

  datatype Area = Area(start: int, end: int, prot: int, flags: int)

  /** ROUNDUP to a multiple of the page size. */
  function RoundUp(x: int, pg: nat): int
    requires pg > 0
  {
    (x + pg - 1) / pg * pg
  }

  lemma RoundUpMeaning(x: int, pg: nat)
    requires pg > 0
    ensures RoundUp(x, pg) % pg == 0 && x <= RoundUp(x, pg) < x + pg
    ensures x % pg == 0 ==> RoundUp(x, pg) == x
  {
    Powers.ModOfMultiple((x + pg - 1) / pg, pg);
    Bits.DivMod(x + pg - 1, pg);
    Bits.DivMod(x, pg);
    if x % pg == 0 { Powers.DivModUnique(x + pg - 1, pg, x / pg, pg - 1); }
  }

  lemma RoundUpMonotone(x: int, y: int, pg: nat)
    requires pg > 0 && x <= y
    ensures RoundUp(x, pg) <= RoundUp(y, pg)
  {
    var (a, b) := ((x + pg - 1) / pg, (y + pg - 1) / pg);
    Bits.DivMod(x + pg - 1, pg);
    Bits.DivMod(y + pg - 1, pg);
    if b < a { Powers.MulMonotone(b + 1, a, pg); }
    Powers.MulMonotone(a, b, pg);
  }

  predicate Overlaps(a: Area, lo: int, hi: int) {
    a.start < hi && lo < a.end
  }

  predicate Covers(a: Area, lo: int, hi: int) {
    a.start <= lo && hi <= a.end
  }

  /** Nonempty page ranges, in ascending order, no two overlapping. */
  predicate Sorted(areas: seq<Area>, pg: nat)
    requires pg > 0
  {
    && (forall i :: 0 <= i < |areas| ==> areas[i].start < areas[i].end && areas[i].start % pg == 0 && areas[i].end % pg == 0)
    && (forall i, j :: 0 <= i < j < |areas| ==> areas[i].end <= areas[j].start)
  }

  // ----- the three walks

  /** get_suitable_addr: where the walk from this area on leaves the candidate address. */
  function Suitable(areas: seq<Area>, addr: int, length: int, pg: nat): int
    requires pg > 0
  {
    if areas == [] || areas[0].start >= RoundUp(addr + length, pg) then addr
    else if areas[0].end <= addr then Suitable(areas[1..], addr, length, pg)
    else Suitable(areas[1..], areas[0].end, length, pg)
  }

  /** insert_vme_node: the position to insert at, or None where it meets an overlap. */
  function InsertAt(areas: seq<Area>, node: Area): (r: Option<nat>)
    ensures r.Some? ==> r.value <= |areas|
  {
    if areas == [] || areas[0].start >= node.end then Some(0)
    else if areas[0].end <= node.start then
      match InsertAt(areas[1..], node) { case Some(k) => Some(k + 1) case None => None }
    else None
  }

  function Inserted(areas: seq<Area>, node: Area, k: nat): seq<Area>
    requires k <= |areas|
  {
    areas[..k] + [node] + areas[k..]
  }

  /** find_vme_node: the area the walk stops at, if it covers the range. */
  function FindAt(areas: seq<Area>, lo: int, hi: int): (r: Option<nat>)
    ensures r.Some? ==> r.value < |areas| && Covers(areas[r.value], lo, hi)
  {
    if areas == [] then None
    else if Covers(areas[0], lo, hi) then Some(0)
    else if areas[0].end <= lo then
      match FindAt(areas[1..], lo, hi) { case Some(k) => Some(k + 1) case None => None }
    else None
  }

  // ----- what they mean on a sorted list

  ghost predicate Free(areas: seq<Area>, x: int, length: int, pg: nat)
    requires pg > 0
  {
    forall i :: 0 <= i < |areas| ==> !Overlaps(areas[i], x, RoundUp(x + length, pg))
  }

  lemma FreeStep(areas: seq<Area>, x: int, length: int, pg: nat)
    requires pg > 0 && areas != []
    ensures Free(areas, x, length, pg) <==>
      !Overlaps(areas[0], x, RoundUp(x + length, pg)) && Free(areas[1..], x, length, pg)
  {
    hide RoundUp, Overlaps;
    forall i | 0 <= i < |areas| ensures i == 0 || areas[i] == areas[1..][i - 1] {}
  }

  lemma SortedTail(areas: seq<Area>, pg: nat)
    requires pg > 0 && Sorted(areas, pg) && areas != []
    ensures Sorted(areas[1..], pg) && areas[0].start < areas[0].end && areas[0].end % pg == 0
    ensures forall j :: 0 <= j < |areas| - 1 ==> areas[0].end <= areas[1..][j].start
  {
  }

  lemma SortedCons(a: Area, rest: seq<Area>, pg: nat)
    requires pg > 0 && Sorted([a], pg) && Sorted(rest, pg)
    requires forall j :: 0 <= j < |rest| ==> a.end <= rest[j].start
    ensures Sorted([a] + rest, pg)
  {
    assert [a][0] == a;
  }

  /** get_suitable_addr returns the least address from the hint on whose pages are free,
      and it is page aligned when the hint is. */
  lemma {:induction false} SuitableIsLeast(areas: seq<Area>, addr: int, length: int, pg: nat)
    requires pg > 0 && length > 0 && Sorted(areas, pg)
    ensures var r := Suitable(areas, addr, length, pg);
            && addr <= r && Free(areas, r, length, pg)
            && (addr % pg == 0 ==> r % pg == 0)
            && forall x :: addr <= x < r ==> !Free(areas, x, length, pg)
    decreases |areas|
  {
    hide RoundUp, Free;
    if areas == [] || areas[0].start >= RoundUp(addr + length, pg) {
      AllBehind(areas, addr, length, pg);
    } else {
      SortedTail(areas, pg);
      hide Sorted;
      var next := if areas[0].end <= addr then addr else areas[0].end;
      SuitableIsLeast(areas[1..], next, length, pg);
      var r := Suitable(areas, addr, length, pg);
      FreeStep(areas, r, length, pg);
      forall x | addr <= x < r ensures !Free(areas, x, length, pg) {
        FreeStep(areas, x, length, pg);
        if x < next { RoundUpMonotone(addr + length, x + length, pg); }
      }
    }
  }

  lemma AllBehind(areas: seq<Area>, addr: int, length: int, pg: nat)
    requires pg > 0 && Sorted(areas, pg)
    requires areas == [] || areas[0].start >= RoundUp(addr + length, pg)
    ensures Free(areas, addr, length, pg)
  {
    hide RoundUp;
  }

  /** Insertion succeeds exactly when the range overlaps nothing, and keeps the order. */
  lemma {:induction false} InsertKeepsOrder(areas: seq<Area>, node: Area, pg: nat)
    requires pg > 0 && Sorted(areas, pg) && Sorted([node], pg)
    ensures InsertAt(areas, node).Some? <==> Apart(areas, node)
    ensures InsertAt(areas, node).Some? ==> Sorted(Inserted(areas, node, InsertAt(areas, node).value), pg)
    decreases |areas|
  {
    assert [node][0] == node;
    if areas != [] && areas[0].start < node.end {
      SortedTail(areas, pg);
      ApartStep(areas, node);
      var (head, tail) := (areas[0], areas[1..]);
      assert Sorted([head], pg);
      if head.end <= node.start {
        hide Sorted, Inserted;
        InsertKeepsOrder(tail, node, pg);
        if InsertAt(tail, node).Some? {
          var k := InsertAt(tail, node).value;
          InsertedStep(areas, node, k);
          SortedCons(head, Inserted(tail, node, k), pg);
        }
      }
    } else {
      assert Inserted(areas, node, 0) == [node] + areas;
      SortedCons(node, areas, pg);
    }
  }

  lemma InsertedStep(areas: seq<Area>, node: Area, k: nat)
    requires areas != [] && k < |areas| && areas[0].end <= node.start
    requires forall j :: 0 <= j < |areas| - 1 ==> areas[0].end <= areas[1..][j].start
    ensures Inserted(areas, node, k + 1) == [areas[0]] + Inserted(areas[1..], node, k)
    ensures forall j :: 0 <= j < |areas| ==> areas[0].end <= Inserted(areas[1..], node, k)[j].start
  {
  }

  ghost predicate Apart(areas: seq<Area>, node: Area) {
    forall i :: 0 <= i < |areas| ==> !Overlaps(areas[i], node.start, node.end)
  }

  lemma ApartStep(areas: seq<Area>, node: Area)
    requires areas != []
    ensures Apart(areas, node) <==> !Overlaps(areas[0], node.start, node.end) && Apart(areas[1..], node)
  {
    hide Overlaps;
    forall i | 0 <= i < |areas| ensures i == 0 || areas[i] == areas[1..][i - 1] {}
  }

  /** What get_suitable_addr returns, insert_vme_node accepts. */
  lemma PlacementNeverFails(areas: seq<Area>, addr: int, length: int, prot: int, flags: int, pg: nat)
    requires pg > 0 && length > 0 && Sorted(areas, pg) && addr % pg == 0
    ensures var r := Suitable(areas, addr, length, pg);
            var node := Area(r, RoundUp(r + length, pg), prot, flags);
            && Sorted([node], pg) && InsertAt(areas, node).Some?
            && Sorted(Inserted(areas, node, InsertAt(areas, node).value), pg)
  {
    var r := Suitable(areas, addr, length, pg);
    SuitableIsLeast(areas, addr, length, pg);
    RoundUpMeaning(r + length, pg);
    hide RoundUp;
    InsertKeepsOrder(areas, Area(r, RoundUp(r + length, pg), prot, flags), pg);
  }

  /** The walk finds the covering area if there is one, and there is at most one. */
  lemma {:induction false} FindIsComplete(areas: seq<Area>, lo: int, hi: int, pg: nat)
    requires pg > 0 && Sorted(areas, pg) && lo < hi
    ensures forall k :: 0 <= k < |areas| ==> (Covers(areas[k], lo, hi) <==> FindAt(areas, lo, hi) == Some(k))
    decreases |areas|
  {
    if areas != [] && !Covers(areas[0], lo, hi) && areas[0].end <= lo {
      FindIsComplete(areas[1..], lo, hi, pg);
      forall k | 0 < k < |areas| ensures areas[k] == areas[1..][k - 1] {}
    }
  }

  // ----- copying an area list

  const INT_SPAN: nat := 0x1_0000_0000
  const INT_HALF: nat := 0x8000_0000

  /** Conversion to a 32-bit int, as for the length parameter. */
  function ToInt(x: int): int {
    (x + INT_HALF) % INT_SPAN - INT_HALF
  }

  /** new_vme_node: protection and flags are kept in one byte each. */
  function NewNode(areas: seq<Area>, addr: int, length: int, prot: int, flags: int, pg: nat): Area
    requires pg > 0
  {
    var r := Suitable(areas, RoundUp(addr, pg), length, pg);
    Area(r, RoundUp(r + length, pg), prot % 256, flags % 256)
  }

  predicate ByteFields(a: Area) {
    0 <= a.prot < 256 && 0 <= a.flags < 256
  }

  /** What one round of fork_copying_vme_pages should do: the same area, at the end,
      past the assertion on the user area's end. */
  predicate CopiedExactly(copy: seq<Area>, a: Area, pg: nat, limit: int)
    requires pg > 0
  {
    var node := NewNode(copy, a.start, ToInt(a.end - a.start), a.prot, a.flags, pg);
    node == a && InsertAt(copy, node) == Some(|copy|) && (copy == [] || node.end <= limit)
  }

  lemma {:induction false} PastAll(areas: seq<Area>, addr: int, length: int, pg: nat)
    requires pg > 0 && length > 0 && Sorted(areas, pg)
    requires forall i :: 0 <= i < |areas| ==> areas[i].end <= addr
    ensures Suitable(areas, addr, length, pg) == addr
    ensures forall node: Area :: node.start == addr && node.end > addr ==> InsertAt(areas, node) == Some(|areas|)
    decreases |areas|
  {
    if areas != [] {
      RoundUpMeaning(addr + length, pg);
      hide RoundUp;
      SortedTail(areas, pg);
      PastAll(areas[1..], addr, length, pg);
      forall node: Area | node.start == addr && node.end > addr ensures InsertAt(areas, node) == Some(|areas|) {
        assert InsertAt(areas[1..], node) == Some(|areas[1..]|);
      }
    }
  }

  lemma SortedInit(copy: seq<Area>, a: Area, pg: nat)
    requires pg > 0 && Sorted(copy + [a], pg)
    ensures Sorted(copy, pg) && a.start % pg == 0 && a.end % pg == 0 && a.start < a.end
    ensures forall i :: 0 <= i < |copy| ==> copy[i].end <= a.start
  {
    var all := copy + [a];
    assert all[|copy|] == a && all[..|copy|] == copy;
    forall i | 0 <= i < |copy| ensures copy[i] == all[i] {}
  }

  /** A round copies exactly when the area's size is an int and, except for the first
      area, it ends inside the user area. */
  lemma CopyRound(copy: seq<Area>, a: Area, pg: nat, limit: int)
    requires 0 < pg <= INT_SPAN && Sorted(copy + [a], pg) && ByteFields(a)
    ensures CopiedExactly(copy, a, pg, limit) <==> a.end - a.start < INT_HALF && (copy == [] || a.end <= limit)
  {
    hide Sorted, RoundUp, Suitable, InsertAt, ToInt;
    var size := a.end - a.start;
    SortedInit(copy, a, pg);
    RoundUpFixed(a.start, pg);
    RoundUpFixed(a.end, pg);
    if size < INT_HALF {
      ShortSizes(size);
      PastAll(copy, a.start, size, pg);
    } else {
      LongSizes(size);
      RoundUpMeaning(Suitable(copy, a.start, ToInt(size), pg) + ToInt(size), pg);
    }
  }

  lemma RoundUpFixed(a: int, pg: nat)
    requires pg > 0 && a % pg == 0
    ensures RoundUp(a, pg) == a
  {
    RoundUpMeaning(a, pg);
  }

  /** Conversion keeps the number modulo 2^32 and puts it into the range of an int. */
  lemma ToIntMeaning(x: int)
    ensures 0 - INT_HALF <= ToInt(x) < INT_HALF && (x - ToInt(x)) % INT_SPAN == 0
  {
  }

  lemma ShortSizes(size: int)
    requires 0 < size < INT_HALF
    ensures ToInt(size) == size
  {
  }

  lemma LongSizes(size: int)
    requires size >= INT_HALF
    ensures ToInt(size) + INT_SPAN <= size
  {
  }

  /** Past all areas the candidate address is the hint itself, whatever the length. */
  lemma {:induction false} SuitableStays(areas: seq<Area>, addr: int, length: int, pg: nat)
    requires pg > 0 && forall i :: 0 <= i < |areas| ==> areas[i].end <= addr
    ensures Suitable(areas, addr, length, pg) == addr
    decreases |areas|
  {
    hide RoundUp;
    if areas != [] { SuitableStays(areas[1..], addr, length, pg); }
  }

  /** A copy that can no longer become the list of areas after k rounds: too short, or
      with an area the list does not have. */
  ghost predicate Spoiled(copy: seq<Area>, areas: seq<Area>, k: nat) {
    |copy| < k || exists x :: x in copy && x !in areas
  }

  lemma SpoiledDiffers(copy: seq<Area>, areas: seq<Area>)
    requires Spoiled(copy, areas, |areas|)
    ensures copy != areas
  {
  }

  /** A later round cannot repair it. */
  lemma SpoiledStays(copy: seq<Area>, areas: seq<Area>, k: nat, node: Area)
    requires Spoiled(copy, areas, k)
    ensures Spoiled(copy, areas, k + 1)
    ensures InsertAt(copy, node).Some? ==> Spoiled(Inserted(copy, node, InsertAt(copy, node).value), areas, k + 1)
  {
    hide InsertAt;
    if InsertAt(copy, node).Some? {
      var at := InsertAt(copy, node).value;
      forall x | x in copy ensures x in Inserted(copy, node, at) {
        var i :| 0 <= i < |copy| && copy[i] == x;
        if i < at { assert Inserted(copy, node, at)[i] == x; } else { assert Inserted(copy, node, at)[i + 1] == x; }
      }
    }
  }

  /** The round of an area whose size is not an int spoils the copy. */
  lemma LongRoundSpoils(areas: seq<Area>, k: nat, pg: nat)
    requires 0 < pg <= INT_SPAN && Sorted(areas, pg) && k < |areas| && areas[k].end - areas[k].start >= INT_HALF
    ensures var (copy, a) := (areas[..k], areas[k]);
            var node := NewNode(copy, a.start, ToInt(a.end - a.start), a.prot, a.flags, pg);
            && node !in areas && Spoiled(copy, areas, k + 1)
            && (InsertAt(copy, node).Some? ==> Spoiled(Inserted(copy, node, InsertAt(copy, node).value), areas, k + 1))
  {
    var (copy, a) := (areas[..k], areas[k]);
    var length := ToInt(a.end - a.start);
    var node := NewNode(copy, a.start, length, a.prot, a.flags, pg);
    LongSizes(a.end - a.start);
    RoundUpMeaning(a.start, pg);
    RoundUpMeaning(a.start + length, pg);
    hide RoundUp, InsertAt, ToInt;
    SuitableStays(copy, a.start, length, pg);
    assert node.start == a.start && node.end != a.end;
    forall i | 0 <= i < |areas| ensures areas[i] != node {
      if i < k { assert areas[i].end <= areas[k].start; } else if i > k { assert areas[k].end <= areas[i].start; }
    }
    if InsertAt(copy, node).Some? {
      var at := InsertAt(copy, node).value;
      assert Inserted(copy, node, at)[at] == node;
    }
  }

  /** The first length fork cannot pass on: 2^31 bytes, which mmap can create. */
  lemma LongestAreaIsNotCopied()
    ensures var a := Area(0, INT_HALF, 1, 1);
            && RoundUp(INT_HALF - 1, 4096) == INT_HALF && a == NewNode([], 0, INT_HALF - 1, 1, 1, 4096)
            && Sorted([a], 4096) && !CopiedExactly([], a, 4096, INT_SPAN)
  {
    var a := Area(0, INT_HALF, 1, 1);
    RoundUpMeaning(0, 4096);
    Powers.DivModUnique(INT_HALF - 1 + 4095, 4096, 524288, 4094);
    assert RoundUp(INT_HALF - 1, 4096) == INT_HALF;
    hide RoundUp, CopiedExactly, ToInt;
    assert [] + [a] == [a];
    assert Sorted([a], 4096) by { assert [a][0] == a; Powers.DivModUnique(INT_HALF, 4096, 524288, 0); }
    CopyRound([], a, 4096, INT_SPAN);
  }
}
