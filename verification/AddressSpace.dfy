/** The address-space object of abstract-machine/am/src/x86/qemu/vme.c: protect builds
    it, map writes it, unprotect tears it down. pgalloc's answers are a parameter. */
module AddressSpaces {
  import opened Wrappers
  import opened Powers
  import opened PageTable
  import Bits

  const PROT_NONE: nat := 0
  const PROT_WRITE: nat := 2

  /** How a call ends; all but Done are the source's panics. */
  datatype Outcome = Done | BadAddress | Misaligned | NoPage | NotMapped | AlreadyMapped

  /** A kernel area, as the root slots it covers: first .. past - 1. */
  datatype KernelArea = KernelArea(first: nat, past: nat)

  predicate AreaOk(g: Geo, a: KernelArea) {
    a.first <= a.past <= Pow2(g.bits) && a.past - a.first < Pow2(g.bits)
  }

  predicate Covers(a: KernelArea, i: nat) {
    a.first <= i < a.past
  }

  function Slots(areas: seq<KernelArea>): (s: set<nat>)
    ensures forall i :: i in s <==> exists k :: 0 <= k < |areas| && Covers(areas[k], i)
  {
    if areas == [] then {}
    else
      var last := areas[|areas| - 1];
      Slots(areas[..|areas| - 1]) + set i: nat | last.first <= i < last.past && Covers(last, i)
  }

  /** One past the largest address the tables translate. */
  function Limit(g: Geo): nat
    requires g.n >= 1
  {
    Pow2(Shift(g, 0) + g.bits)
  }

  ghost function Range(s: seq<nat>): set<nat> {
    set x | x in s
  }

  /** The entry the tables hold for an address. */
  function Translate(g: Geo, tb: Tables, addr: nat): nat
    requires g.n >= 1
  {
    Lookup(g, tb, Indices(g, addr))
  }

  /** Pages pgalloc may answer with: page aligned, unused and distinct, or NULL. */
  ghost predicate Supply(g: Geo, mem: map<nat, seq<nat>>, supply: seq<nat>) {
    && (forall i :: 0 <= i < |supply| && supply[i] != 0 ==> Aligned(supply[i], g.ps) && supply[i] !in mem)
    && (forall i, j :: 0 <= i < j < |supply| && supply[i] != 0 ==> supply[i] != supply[j])
  }

  /** How many of the tables that serve the first i steps of the way are missing. */
  function Missing(node: map<seq<nat>, nat>, t: seq<nat>, i: nat): (m: nat)
    requires i <= |t|
    ensures m <= i
  {
    if i == 0 then 0 else Missing(node, t, i - 1) + if t[..i] in node then 0 else 1
  }

  lemma {:induction false} MissingMonotone(node: map<seq<nat>, nat>, t: seq<nat>, i: nat, j: nat)
    requires i <= j <= |t|
    ensures Missing(node, t, i) <= Missing(node, t, j)
    decreases j
  {
    if i < j { MissingMonotone(node, t, i, j - 1); }
  }

  /** One of the first m answers is NULL. */
  ghost predicate Short(supply: seq<nat>, m: nat) {
    exists j :: 0 <= j < m && j < |supply| && supply[j] == 0
  }

  lemma MissingStep(node: map<seq<nat>, nat>, t: seq<nat>, i: nat, n: nat)
    requires 1 <= i <= n <= |t|
    ensures Missing(node, t, i) == Missing(node, t, i - 1) + if t[..i] in node then 0 else 1
    ensures Missing(node, t, i) <= Missing(node, t, n)
  {
    MissingMonotone(node, t, i, n);
  }

  lemma Taken(supply: seq<nat>, a: nat, b: nat)
    requires a <= b <= |supply|
    ensures supply[..b] == supply[..a] + supply[a..b]
  {
  }

  lemma NothingShort(supply: seq<nat>)
    ensures !Short(supply, 0)
  {
  }

  lemma NotShort(supply: seq<nat>, used: nat)
    requires !Short(supply, used) && used < |supply| && supply[used] != 0
    ensures !Short(supply, used + 1)
  {
  }

  lemma ShortAt(supply: seq<nat>, used: nat, m: nat)
    requires used < |supply| && used < m && supply[used] == 0
    ensures Short(supply, m)
  {
  }

  // ----- teardown's footprint

  ghost function Subtree(tb: Tables, p: seq<nat>): set<nat> {
    set q | q in tb.node && p <= q :: tb.node[q]
  }

  /** The part of the subtree below the first i entries of p's table. */
  ghost function Below(tb: Tables, p: seq<nat>, i: nat): set<nat> {
    set q | q in tb.node && p < q && q[|p|] < i :: tb.node[q]
  }

  /** Memory still holds the subtree's tables. */
  ghost predicate Intact(tb: Tables, mem: map<nat, seq<nat>>, p: seq<nat>) {
    forall q {:trigger tb.node[q]} :: q in tb.node && p <= q ==>
      tb.node[q] in mem && tb.node[q] in tb.mem && mem[tb.node[q]] == tb.mem[tb.node[q]]
  }

  lemma PrefixStep(p: seq<nat>, q: seq<nat>, i: nat)
    ensures p + [i] <= q <==> p < q && q[|p|] == i
  {
    if p < q && q[|p|] == i { assert q == p + [i] + q[|p| + 1..]; }
    if p + [i] <= q { assert (p + [i])[|p|] == i && p <= p + [i]; }
  }

  lemma BelowStep(tb: Tables, p: seq<nat>, i: nat)
    ensures Below(tb, p, i + 1) == Below(tb, p, i) + Subtree(tb, p + [i])
  {
    forall q ensures p + [i] <= q <==> p < q && q[|p|] == i { PrefixStep(p, q, i); }
  }

  lemma BelowAll(g: Geo, tb: Tables, p: seq<nat>)
    requires TablesOk(g, tb) && p in tb.node
    ensures Subtree(tb, p) == Below(tb, p, Pow2(g.bits)) + {tb.node[p]}
    ensures tb.node[p] !in Below(tb, p, Pow2(g.bits))
  {
    hide TablesOk, Pow2;
    forall q | q in tb.node && p <= q ensures q == p || (q[|p|] < Pow2(g.bits) && tb.node[q] != tb.node[p]) {
      NodeFacts(g, tb, q);
      if tb.node[q] == tb.node[p] { SamePage(g, tb, p, q); }
      if |q| == |p| { assert q == p; }
    }
    assert p <= p;
  }

  /** A table that does not exist has no subtree. */
  lemma NoSubtree(g: Geo, tb: Tables, c: seq<nat>)
    requires TablesOk(g, tb) && c !in tb.node
    ensures Subtree(tb, c) == {}
  {
    hide TablesOk, Pow2;
    forall q | q in tb.node && c <= q ensures false {
      NodeFacts(g, tb, q);
      assert q[..|c|] == c && q[..|q|] == q;
      MissingBelow(g, tb, q, |c|, |q|);
    }
  }

  /** Distinct children have disjoint subtrees. */
  lemma DisjointBelow(g: Geo, tb: Tables, p: seq<nat>, i: nat)
    requires TablesOk(g, tb)
    ensures Below(tb, p, i) !! Subtree(tb, p + [i])
  {
    hide TablesOk, Pow2;
    forall x | x in Below(tb, p, i) && x in Subtree(tb, p + [i]) ensures false {
      var q :| q in tb.node && p < q && q[|p|] < i && tb.node[q] == x;
      var r :| r in tb.node && p + [i] <= r && tb.node[r] == x;
      SamePage(g, tb, q, r);
      PrefixStep(p, r, i);
    }
  }

  lemma StillIntact(g: Geo, tb: Tables, mem: map<nat, seq<nat>>, p: seq<nat>, i: nat)
    requires TablesOk(g, tb) && Intact(tb, mem, p)
    ensures Intact(tb, mem - Below(tb, p, i), p + [i])
  {
    hide TablesOk, Pow2;
    DisjointBelow(g, tb, p, i);
    forall q | q in tb.node && p + [i] <= q
      ensures tb.node[q] in mem && tb.node[q] !in Below(tb, p, i)
    {
      PrefixStep(p, q, i);
      assert tb.node[q] in Subtree(tb, p + [i]);
    }
  }

  lemma PageStays(g: Geo, tb: Tables, p: seq<nat>, i: nat)
    requires TablesOk(g, tb) && p in tb.node
    ensures tb.node[p] !in Below(tb, p, i)
  {
    hide TablesOk, Pow2;
    forall q | q in tb.node && p < q ensures tb.node[q] != tb.node[p] {
      if tb.node[q] == tb.node[p] { SamePage(g, tb, p, q); }
    }
  }

  // ----- the root slots of the kernel areas

  /** First address of a root slot; one past the last slot wraps to 0. */
  function SlotAddr(g: Geo, c: nat): nat
    requires g.n >= 1 && c <= Pow2(g.bits)
  {
    if c == Pow2(g.bits) then 0 else Shl(c, Shift(g, 0))
  }

  lemma SlotFacts(g: Geo, c: nat)
    requires GeoOk(g) && c < Pow2(g.bits)
    ensures IndexOf(g, SlotAddr(g, c), 0) == c
    ensures (SlotAddr(g, c) + Pow2(Shift(g, 0))) % Limit(g) == SlotAddr(g, c + 1)
  {
    var (s, w) := (Shift(g, 0), Pow2(g.bits));
    IndexMeaning(g, SlotAddr(g, c), 0);
    Pow2Add(s, g.bits);
    hide Pow2, IndexOf, Shift;
    ModOfMultiple(c, Pow2(s));
    DivModUnique(c, w, 0, c);
    assert Shl(c, s) + Pow2(s) == (c + 1) * Pow2(s);
    assert Limit(g) == w * Pow2(s);
    if c + 1 == w {
      DivModUnique(Limit(g), Limit(g), 1, 0);
    } else {
      MulMonotone(c + 2, w, Pow2(s));
      assert (c + 2) * Pow2(s) == (c + 1) * Pow2(s) + Pow2(s);
      DivModUnique((c + 1) * Pow2(s), Limit(g), 0, (c + 1) * Pow2(s));
    }
  }

  /** The loop over an area stops at its end and not before. */
  lemma SlotsDiffer(g: Geo, c: nat, d: nat)
    requires GeoOk(g) && c < d <= Pow2(g.bits) && d - c < Pow2(g.bits)
    ensures SlotAddr(g, c) != SlotAddr(g, d)
  {
    var s := Shift(g, 0);
    hide Pow2, Shift;
    if d < Pow2(g.bits) {
      MulMonotone(c + 1, d, Pow2(s));
      assert (c + 1) * Pow2(s) == c * Pow2(s) + Pow2(s);
    } else {
      MulMonotone(1, c, Pow2(s));
    }
  }

  /** The inner loop of protect: one kernel area's root entries. */
  method CopyKernelArea(g: Geo, kpt: seq<nat>, a: KernelArea, upt: seq<nat>) returns (r: seq<nat>)
    requires GeoOk(g) && |kpt| == |upt| == Pow2(g.bits) && AreaOk(g, a)
    ensures |r| == |upt| && forall j :: 0 <= j < |r| ==> r[j] == if Covers(a, j) then kpt[j] else upt[j]
  {
    hide Pow2, IndexOf, Shift;
    r := upt;
    ghost var c := a.first;
    var cur := SlotAddr(g, a.first);
    while cur != SlotAddr(g, a.past)
      invariant a.first <= c <= a.past && cur == SlotAddr(g, c) && |r| == |upt|
      invariant forall j :: 0 <= j < |r| ==> r[j] == if a.first <= j < c then kpt[j] else upt[j]
      decreases a.past - c
    {
      SlotFacts(g, c);
      var index := IndexOf(g, cur, 0);
      r := r[index := kpt[index]];
      cur := (cur + Pow2(Shift(g, 0))) % Limit(g);
      c := c + 1;
    }
    if c < a.past { SlotsDiffer(g, c, a.past); }
  }

  /** The outer loop of protect: exactly the kernel's root entries are shared. */
  method CopyKernelAreas(g: Geo, kpt: seq<nat>, areas: seq<KernelArea>) returns (r: seq<nat>)
    requires GeoOk(g) && |kpt| == Pow2(g.bits) && (forall k :: 0 <= k < |areas| ==> AreaOk(g, areas[k]))
    ensures |r| == |kpt| && forall j :: 0 <= j < |r| ==> r[j] == if j in Slots(areas) then kpt[j] else 0
  {
    hide Pow2;
    r := Zeros(g);
    for k := 0 to |areas|
      invariant |r| == |kpt|
      invariant forall j :: 0 <= j < |r| ==> r[j] == if j in Slots(areas[..k]) then kpt[j] else 0
    {
      r := CopyKernelArea(g, kpt, areas[k], r);
      assert areas[..k + 1][..k] == areas[..k];
    }
    assert areas[..|areas|] == areas;
  }

  /** The entry map writes. */
  function NewEntry(pa: nat, prot: nat): nat {
    if prot == PROT_NONE then 0
    else Entry(pa, PTE_P + PTE_U + if (prot / PROT_WRITE) % 2 == 1 then PTE_W else 0)
  }

  lemma NewEntryUser(g: Geo, pa: nat, prot: nat)
    requires GeoOk(g) && Aligned(pa, g.ps)
    ensures var e := NewEntry(pa, prot);
            && (Present(e) <==> prot != PROT_NONE) && (Present(e) ==> UserBit(e) && Base(e, g.ps) == pa)
            && (Present(e) ==> (WriteBit(e) <==> (prot / PROT_WRITE) % 2 == 1))
            && e == if prot == PROT_NONE then 0 else pa + 5 + if (prot / PROT_WRITE) % 2 == 1 then 2 else 0
  {
    hide Pow2, Entry, Base, Aligned;
    EntryMeaning(pa, 5, g.ps);
    EntryMeaning(pa, 7, g.ps);
  }

  lemma BaseFixed(a: nat, ps: nat)
    ensures Base(a, ps) == a <==> Aligned(a, ps)
  {
    Bits.DivMod(a, Pow2(ps));
    hide Pow2;
  }

  predicate OnPage(g: Geo, a: nat, b: nat) {
    Quotient(a, Pow2(g.ps)) == Quotient(b, Pow2(g.ps))
  }

  /** Addresses of other pages have other index tuples. */
  lemma OtherPages(g: Geo, va: nat)
    requires GeoOk(g) && va < Limit(g)
    ensures forall b: nat :: b < Limit(g) && !OnPage(g, b, va) ==> Indices(g, b) != Indices(g, va)
  {
    hide Pow2, IndexOf;
    forall b: nat | b < Limit(g) && !OnPage(g, b, va) ensures Indices(g, b) != Indices(g, va) {
      if Indices(g, b) == Indices(g, va) { SameTupleSamePage(g, b, va); }
    }
  }

  /** A mapped page has its leaf table. */
  lemma MappedHasTable(g: Geo, tb: Tables, addr: nat)
    requires g.n >= 1 && Present(Translate(g, tb, addr))
    ensures Indices(g, addr)[..g.n - 1] in tb.node
  {
    hide Pow2, IndexOf;
    Blank();
  }

  /** The hardware, following memory from the root, sees exactly this map. */
  lemma HardwareSees(g: Geo, tb: Tables, ptr: nat, addr: nat)
    requires TablesOk(g, tb) && [] in tb.node && ptr == Entry(tb.node[[]], PTE_P + PTE_U)
    requires g.n >= 1 && IndexOf(g, addr, 0) !in tb.kernel
    ensures HardwareWalk(g, tb, Base(ptr, g.ps), Indices(g, addr), 0) == Translate(g, tb, addr)
    ensures var e := Translate(g, tb, addr);
            forall write :: HardwareAllows(g, tb, Base(ptr, g.ps), Indices(g, addr), 0, write) <==>
              e % 2 == 1 && (write ==> (e / 2) % 2 == 1)
  {
    hide TablesOk, Pow2, Entry, Base, IndexOf;
    TablesRoot(g, tb);
    UserIndices(g, tb, addr);
    RootBase(g, tb, ptr);
    assert Indices(g, addr)[..0] == [];
    WalkIsLookup(g, tb, Indices(g, addr), 0);
    LeafDecides(g, tb, Indices(g, addr), 0, true);
    LeafDecides(g, tb, Indices(g, addr), 0, false);
  }

  /** In every reachable state the root holds the kernel's own entries. */
  lemma KernelEntriesKept(g: Geo, tb: Tables, i: nat)
    requires TablesOk(g, tb) && i in tb.kernel
    ensures [] in tb.node && i < |Row(tb, [])| && i < |tb.kpt| && Row(tb, [])[i] == tb.kpt[i]
  {
    TablesRoot(g, tb);
    hide TablesOk, Pow2, Present, UserBit, Base;
    NodeFacts(g, tb, []);
    EntryFacts(g, tb, [], i);
  }

  const X86_64: Geo := Geo(12, 9, 4)
  const I386: Geo := Geo(12, 10, 2)

  lemma SlotOf(g: Geo, a: nat, lo: nat, hi: nat)
    requires GeoOk(g) && lo <= hi <= Pow2(g.bits)
    requires lo * Pow2(Shift(g, 0)) <= a < hi * Pow2(Shift(g, 0))
    ensures lo <= IndexOf(g, a, 0) < hi && a < Limit(g)
  {
    hide Pow2, IndexOf, Shift, Quotient;
    IndexMeaning(g, a, 0);
    var (m, w) := (Pow2(Shift(g, 0)), Pow2(g.bits));
    Pow2Add(Shift(g, 0), g.bits);
    QuotientBetween(a, m, lo, hi);
    BelowProduct(a, m, hi, w);
    DivModUnique(Quotient(a, m), w, 0, Quotient(a, m));
  }

  lemma QuotientBetween(a: nat, m: nat, lo: nat, hi: nat)
    requires m > 0 && lo * m <= a < hi * m
    ensures lo <= a / m < hi
  {
    var q := a / m;
    Bits.DivMod(a, m);
    if q < lo { MulMonotone(q + 1, lo, m); }
    if q >= hi { MulMonotone(hi, q, m); }
  }

  lemma BelowProduct(a: nat, m: nat, hi: nat, w: nat)
    requires a < hi * m && hi <= w
    ensures a < m * w
  {
    MulMonotone(hi, w, m);
  }

  /** The user areas of both configurations lie outside their kernel areas' root slots. */
  lemma ConfigurationsApart(a: nat)
    ensures GeoOk(X86_64) && GeoOk(I386)
    ensures 0x100000000000 <= a < 0x108000000000 ==>
              a < Limit(X86_64) && IndexOf(X86_64, a, 0) !in Slots([KernelArea(0, 1)])
    ensures 0x40000000 <= a < 0x80000000 ==>
              a < Limit(I386) && IndexOf(I386, a, 0) !in Slots([KernelArea(0, 256), KernelArea(1012, 1024)])
  {
    PowerTable();
    hide Pow2, IndexOf;
    if 0x100000000000 <= a < 0x108000000000 { SlotOf(X86_64, a, 32, 33); }
    if 0x40000000 <= a < 0x80000000 { SlotOf(I386, a, 256, 512); }
  }

  lemma LeafEntry(g: Geo, tb: Tables, t: seq<nat>)
    requires TablesOk(g, tb) && UserTuple(g, tb, t) && t[..g.n - 1] in tb.node
    ensures tb.node[t[..g.n - 1]] in tb.mem && t[g.n - 1] < |tb.mem[tb.node[t[..g.n - 1]]]|
    ensures Lookup(g, tb, t) == tb.mem[tb.node[t[..g.n - 1]]][t[g.n - 1]]
  {
    hide TablesOk, Pow2;
    NodeFacts(g, tb, t[..g.n - 1]);
  }

  // ----- the object

  class AddressSpace {
    const g: Geo
    const kpt: seq<nat>
    const areaStart: nat
    const areaEnd: nat
    ghost const kernel: set<nat>
    /** as->ptr: the root table's page with its flags. */
    var ptr: nat
    /** The contents of the table pages this address space owns. */
    var mem: map<nat, seq<nat>>
    /** Which page serves which index prefix. */
    ghost var node: map<seq<nat>, nat>
    /** The pages obtained from pgalloc, oldest first. */
    ghost var obtained: seq<nat>
    /** The pages given back to pgfree. */
    ghost var freed: seq<nat>

    ghost function Tb(): Tables
      reads this
    {
      Tables(mem, node, kpt, kernel)
    }

    /** How many tables the way to an address still needs. */
    ghost function Needed(node: map<seq<nat>, nat>, addr: nat): nat {
      if g.n == 0 then 0 else Missing(node, Indices(g, addr), g.n - 1)
    }

    predicate InArea(addr: nat) {
      areaStart <= addr < areaEnd
    }

    ghost predicate AreaApart() {
      && GeoOk(g) && areaEnd <= Limit(g)
      && forall a: nat :: InArea(a) ==> IndexOf(g, a, 0) !in kernel
    }

    ghost predicate Valid()
      reads this
    {
      && TablesOk(g, Tb()) && AreaApart()
      && ptr == Entry(node[[]], PTE_P + PTE_U)
      && NoRepeats(obtained) && Range(obtained) == mem.Keys && freed == []
    }

    /** protect: a zeroed root that shares the kernel's entries and nothing else. */
    constructor (g: Geo, kpt: seq<nat>, areas: seq<KernelArea>, start: nat, end: nat, upt: nat)
      requires GeoOk(g) && |kpt| == Pow2(g.bits) && (forall k :: 0 <= k < |areas| ==> AreaOk(g, areas[k]))
      requires forall i :: i in Slots(areas) && i < |kpt| ==> !Owned(kpt[i])
      requires end <= Limit(g) && forall a: nat :: start <= a < end ==> IndexOf(g, a, 0) !in Slots(areas)
      requires upt != 0 && Aligned(upt, g.ps)
      ensures Valid() && this.g == g && this.kpt == kpt && kernel == Slots(areas)
      ensures areaStart == start && areaEnd == end
      ensures obtained == [upt] && node == map[[] := upt] && mem.Keys == {upt}
      ensures forall i :: 0 <= i < Pow2(g.bits) ==> |mem[upt]| == Pow2(g.bits) && mem[upt][i] == if i in kernel then kpt[i] else 0
    {
      this.g := g;
      this.kpt := kpt;
      this.areaStart := start;
      this.areaEnd := end;
      this.kernel := Slots(areas);
      this.mem := map[upt := Zeros(g)];
      this.node := map[[] := upt];
      this.obtained := [upt];
      this.freed := [];
      this.ptr := Entry(upt, PTE_P + PTE_U);
      new;
      hide Pow2, IndexOf, Shift, Entry, Owned, Aligned;
      var root := CopyKernelAreas(g, kpt, areas);
      mem := mem[upt := root];
      assert forall i :: i in kernel ==> i < Pow2(g.bits) by {
        forall i | i in kernel ensures i < Pow2(g.bits) {
          var k :| 0 <= k < |areas| && Covers(areas[k], i);
          assert AreaOk(g, areas[k]);
        }
      }
      FreshRoot(g, Tb(), upt);
    }

    /** Every translation is the one of the earlier tables. */
    ghost predicate SameLookups(tb: Tables)
      requires g.n >= 1
      reads this
    {
      forall t: seq<nat> :: |t| == g.n ==> Lookup(g, Tb(), t) == Lookup(g, tb, t)
    }

    /** ptwalk's growth step: a zeroed page is linked in below entry index of p's table. */
    method Grow(cur: nat, index: nat, next: nat, ghost p: seq<nat>)
      requires Valid() && p in node && cur == node[p] && |p| < g.n - 1
      requires cur in mem && index < |mem[cur]| && !Present(mem[cur][index]) && !IsKernel(Tb(), p, index)
      requires next !in mem && Aligned(next, g.ps)
      modifies this`mem, this`node, this`obtained
      ensures Valid() && obtained == old(obtained) + [next]
      ensures node == old(node)[p + [index] := next] && mem.Keys == old(mem.Keys) + {next}
      ensures p + [index] !in old(node) && SameLookups(old(Tb()))
    {
      hide Pow2, TablesOk, Entry, Aligned, Present, Lookup;
      NodeFacts(g, Tb(), p);
      AddTableOk(g, Tb(), p, index, next);
      RootUnmoved(g, Tb(), p + [index]);
      var zeros := PgAllocZ(g);
      mem := mem[next := zeros][cur := mem[cur][index := Entry(next, PTE_P + PTE_W + PTE_U)]];
      node := node[p + [index] := next];
      obtained := obtained + [next];
      assert Tb() == AddTable(g, old(Tb()), p, index, next);
    }

    /** One level of ptwalk: answer is what pgalloc says if it is asked. */
    method Descend(addr: nat, i: nat, cur: nat, answer: nat) returns (next: nat, asked: bool)
      requires Valid() && InArea(addr) && 1 <= i < g.n
      requires Indices(g, addr)[..i - 1] in node && cur == node[Indices(g, addr)[..i - 1]]
      requires answer != 0 ==> answer !in mem && Aligned(answer, g.ps)
      modifies this`mem, this`node, this`obtained
      ensures Valid() && SameLookups(old(Tb())) && asked == (Indices(g, addr)[..i] !in old(node))
      ensures !asked || answer == 0 ==> node == old(node) && obtained == old(obtained) && mem.Keys == old(mem.Keys)
      ensures asked && answer != 0 ==> node == old(node)[Indices(g, addr)[..i] := answer]
      ensures asked && answer != 0 ==> obtained == old(obtained) + [answer] && mem.Keys == old(mem.Keys) + {answer}
      ensures !asked || answer != 0 ==> Indices(g, addr)[..i] in node && next == node[Indices(g, addr)[..i]]
    {
      hide Pow2, TablesOk, Entry, Aligned, Present, Lookup, UserBit, Base, IndexOf, EntryOk;
      ghost var t := Indices(g, addr);
      ghost var p := t[..i - 1];
      UserIndices(g, Tb(), addr);
      NodeFacts(g, Tb(), p);
      var index := IndexOf(g, addr, i - 1);
      UserPresent(g, Tb(), p, index);
      assert p + [index] == t[..i];
      asked := !Present(mem[cur][index]);
      if asked {
        next := answer;
        if answer != 0 { Grow(cur, index, answer, p); }
      } else {
        next := Base(mem[cur][index], g.ps);
      }
    }

    lemma Start(addr: nat)
      requires Valid() && InArea(addr)
      ensures [] in node && Base(ptr, g.ps) == node[[]] && UserTuple(g, Tb(), Indices(g, addr)) && g.n >= 2
      ensures SameLookups(Tb())
    {
      UserIndices(g, Tb(), addr);
      RootBase(g, Tb(), ptr);
    }

    lemma Reached(t: seq<nat>, i: nat)
      requires Valid() && i < g.n == |t| && t[..g.n - 1] in node
      ensures t[..i] in node
    {
      hide TablesOk;
      if t[..i] !in node { MissingBelow(g, Tb(), t, i, g.n - 1); }
    }

    /** One round of ptwalk's loop; ok is false where it panics for want of a page. */
    method WalkStep(addr: nat, i: nat, cur: nat, supply: seq<nat>, used: nat) returns (next: nat, used': nat, ok: bool)
      requires Valid() && InArea(addr) && 1 <= i < g.n && used <= |supply| && Supply(g, mem, supply[used..])
      requires Indices(g, addr)[..i - 1] in node && cur == node[Indices(g, addr)[..i - 1]]
      requires Indices(g, addr)[..i] in node || used < |supply|
      modifies this`mem, this`node, this`obtained
      ensures Valid() && SameLookups(old(Tb())) && used <= used' <= |supply| && Supply(g, mem, supply[used'..])
      ensures var c := Indices(g, addr)[..i];
              && (ok <==> c in old(node) || supply[used] != 0)
              && (ok ==> used' == used + if c in old(node) then 0 else 1)
              && (ok ==> c in node && next == node[c])
              && node == (if ok && c !in old(node) then old(node)[c := supply[used]] else old(node))
      ensures obtained == old(obtained) + supply[used..used'] && (!ok ==> used' == used)
    {
      hide Pow2, TablesOk, Entry, Aligned, Present, Lookup, UserBit, Base, IndexOf, Supply, IsTuple;
      hide Valid, AreaApart, NoRepeats, Range;
      var answer := if used < |supply| then supply[used] else 0;
      ghost var before := mem;
      if answer != 0 { SupplyHead(g, mem, supply, used); }
      var asked;
      next, asked := Descend(addr, i, cur, answer);
      used', ok := used, !asked || answer != 0;
      if asked && answer != 0 {
        SupplyTail(g, before, mem, supply, used);
        used' := used + 1;
        assert supply[used..used'] == [answer];
      } else {
        SupplySame(g, before, mem, supply[used..]);
      }
    }

    method WalkOn(addr: nat, i: nat, cur: nat, supply: seq<nat>, used: nat, ghost tb: Tables, ghost obt: seq<nat>)
      returns (next: nat, used': nat, ok: bool)
      requires i < g.n && Walking(addr, i, cur, supply, used, tb, obt)
      modifies this`mem, this`node, this`obtained
      ensures ok ==> Walking(addr, i + 1, next, supply, used', tb, obt)
      ensures !ok ==> Valid() && SameLookups(tb) && used' <= |supply| && Supply(g, mem, supply[used'..])
      ensures !ok ==> obtained == obt + supply[..used'] && used' < |supply| && supply[used'] == 0
      ensures !ok ==> Short(supply, Needed(tb.node, addr)) && used' <= Needed(tb.node, addr)
      ensures !ok ==> Indices(g, addr)[..g.n - 1] !in tb.node
      ensures forall q :: q in tb.node ==> q in node && node[q] == tb.node[q]
      ensures forall q :: q in node ==> q in tb.node || q <= Indices(g, addr)
    {
      hide Valid, Walking, WalkNodes, Supply, Short, Needed, Indices, Lookup;
      WalkFacts(addr, i, cur, supply, used, tb, obt);
      ghost var nodes := node;
      next, used', ok := WalkStep(addr, i, cur, supply, used);
      Taken(supply, used, used');
      if ok {
        WalkGoesOn(addr, i, next, supply, used, used', tb, obt, nodes);
      } else {
        WalkStops(addr, i, supply, used, tb, nodes);
      }
    }

    /** What the round needs to know of the walk so far. */
    lemma WalkFacts(addr: nat, i: nat, cur: nat, supply: seq<nat>, used: nat, tb: Tables, obt: seq<nat>)
      requires i < g.n && Walking(addr, i, cur, supply, used, tb, obt)
      ensures Valid() && InArea(addr) && 1 <= i < g.n && used <= |supply| && Supply(g, mem, supply[used..])
      ensures Indices(g, addr)[..i - 1] in node && cur == node[Indices(g, addr)[..i - 1]]
      ensures Indices(g, addr)[..i] in node || (used < |supply| && Indices(g, addr)[..g.n - 1] !in tb.node)
      ensures obtained == obt + supply[..used] && SameLookups(tb) && WalkNodes(addr, i, supply, used, tb, node)
      ensures forall q :: q in tb.node ==> q in node && node[q] == tb.node[q]
      ensures forall q :: q in node ==> q in tb.node || q <= Indices(g, addr)
    {
      hide Pow2, TablesOk, Supply, Missing, Short, IndexOf, Valid;
      if Indices(g, addr)[..g.n - 1] in node { Reached(Indices(g, addr), i); }
    }

    /** The part of Walking that speaks of nodes and answers only. */
    ghost predicate WalkNodes(addr: nat, i: nat, supply: seq<nat>, used: nat, tb: Tables, nodes: map<seq<nat>, nat>) {
      && 1 <= i <= g.n && used <= i - 1 && used <= |supply|
      && var t := Indices(g, addr);
         && (|supply| >= g.n - 1 || t[..g.n - 1] in tb.node)
         && (forall q :: q in tb.node ==> q in nodes && nodes[q] == tb.node[q])
         && (forall q :: q in nodes ==> q in tb.node || (q <= t && |q| < i))
         && used == Missing(tb.node, t, i - 1) && !Short(supply, used)
         && (t[..g.n - 1] in tb.node ==> used == 0)
    }

    lemma WalkGoesOn(addr: nat, i: nat, next: nat, supply: seq<nat>, used: nat, used': nat, tb: Tables, obt: seq<nat>, nodes: map<seq<nat>, nat>)
      requires i < g.n && WalkNodes(addr, i, supply, used, tb, nodes) && Valid() && InArea(addr) && SameLookups(tb)
      requires var c := Indices(g, addr)[..i];
               && c in node && next == node[c] && used' == used + (if c in nodes then 0 else 1) && used' <= |supply|
               && (c !in nodes ==> supply[used] != 0 && Indices(g, addr)[..g.n - 1] !in tb.node)
               && node == if c in nodes then nodes else nodes[c := supply[used]]
      requires obtained == obt + supply[..used'] && Supply(g, mem, supply[used'..])
      ensures Walking(addr, i + 1, next, supply, used', tb, obt)
      ensures forall q :: q in tb.node ==> q in node && node[q] == tb.node[q]
      ensures forall q :: q in node ==> q in tb.node || q <= Indices(g, addr)
    {
      hide Valid, InArea, Supply, SameLookups, Missing, Short, IndexOf;
      ghost var t := Indices(g, addr);
      MissingStep(tb.node, t, i, g.n - 1);
      if used' > used { NotShort(supply, used); }
    }

    lemma WalkStops(addr: nat, i: nat, supply: seq<nat>, used: nat, tb: Tables, nodes: map<seq<nat>, nat>)
      requires i < g.n && WalkNodes(addr, i, supply, used, tb, nodes) && node == nodes
      requires Indices(g, addr)[..i] !in nodes && used < |supply| && supply[used] == 0 && Valid()
      ensures Short(supply, Needed(tb.node, addr)) && used <= Needed(tb.node, addr)
      ensures Indices(g, addr)[..g.n - 1] !in tb.node
    {
      hide Valid, Missing, Short, IndexOf;
      ghost var t := Indices(g, addr);
      MissingStep(tb.node, t, i, g.n - 1);
      ShortAt(supply, used, Missing(tb.node, t, g.n - 1));
      if t[..g.n - 1] in node { Reached(t, i); }
    }

    /** ptwalk: the leaf entry's place, growing the tables on the way where needed.
        Translations do not change, and exactly the missing tables are asked for; the
        walk stops where one of the answers is NULL. */
    method PtWalk(addr: nat, supply: seq<nat>) returns (page: nat, index: nat, used: nat, ok: bool)
      requires Valid() && InArea(addr) && Supply(g, mem, supply)
      requires |supply| >= g.n - 1 || Indices(g, addr)[..g.n - 1] in node
      modifies this`mem, this`node, this`obtained
      ensures Valid() && used <= |supply| && obtained == old(obtained) + supply[..used]
      ensures Supply(g, mem, supply[used..])
      ensures forall q :: q in old(node) ==> q in node && node[q] == old(node[q])
      ensures forall q :: q in node ==> q in old(node) || q <= Indices(g, addr)
      ensures SameLookups(old(Tb()))
      ensures ok ==> var t := Indices(g, addr);
                     t[..g.n - 1] in node && page == node[t[..g.n - 1]] && index == t[g.n - 1]
      ensures !ok ==> used < |supply| && supply[used] == 0
      ensures (ok <==> !Short(supply, Needed(old(node), addr))) && used <= Needed(old(node), addr)
      ensures ok ==> used == Needed(old(node), addr)
      ensures Indices(g, addr)[..g.n - 1] in old(node) ==> ok && used == 0
    {
      hide Pow2, Valid, TablesOk, Base, IndexOf, Supply, Walking;
      ghost var (tb, obt) := (Tb(), obtained);
      WalkStarts(addr, supply);
      page, index := 0, 0;
      var cur := Base(ptr, g.ps);
      var i := 1;
      used, ok := 0, true;
      while i < g.n
        invariant i <= g.n && Walking(addr, i, cur, supply, used, tb, obt)
      {
        cur, used, ok := WalkOn(addr, i, cur, supply, used, tb, obt);
        if !ok { return; }
        i := i + 1;
      }
      WalkEnds(addr, cur, supply, used, tb, obt);
      page, index := cur, IndexOf(g, addr, g.n - 1);
    }

    /** The walk before round i, begun with the tables tb and the pages obt. */
    ghost predicate Walking(addr: nat, i: nat, cur: nat, supply: seq<nat>, used: nat, tb: Tables, obt: seq<nat>)
      reads this
    {
      && Valid() && InArea(addr) && SameLookups(tb) && WalkNodes(addr, i, supply, used, tb, node)
      && Indices(g, addr)[..i - 1] in node && cur == node[Indices(g, addr)[..i - 1]]
      && obtained == obt + supply[..used] && Supply(g, mem, supply[used..])
    }

    lemma WalkStarts(addr: nat, supply: seq<nat>)
      requires Valid() && InArea(addr) && Supply(g, mem, supply)
      requires |supply| >= g.n - 1 || Indices(g, addr)[..g.n - 1] in node
      ensures g.n >= 2 && Walking(addr, 1, Base(ptr, g.ps), supply, 0, Tb(), obtained)
    {
      hide Pow2, TablesOk, Supply, Base, IndexOf;
      Start(addr);
      NothingShort(supply);
      assert Indices(g, addr)[..0] == [] && supply[..0] == [] && supply[0..] == supply;
    }

    lemma WalkEnds(addr: nat, cur: nat, supply: seq<nat>, used: nat, tb: Tables, obt: seq<nat>)
      requires Walking(addr, g.n, cur, supply, used, tb, obt)
      ensures Valid() && used <= |supply| && obtained == obt + supply[..used] && Supply(g, mem, supply[used..])
      ensures forall q :: q in tb.node ==> q in node && node[q] == tb.node[q]
      ensures forall q :: q in node ==> q in tb.node || q <= Indices(g, addr)
      ensures g.n >= 2 && SameLookups(tb) && used == Needed(tb.node, addr) && !Short(supply, used)
      ensures Indices(g, addr)[..g.n - 1] in node && cur == node[Indices(g, addr)[..g.n - 1]]
      ensures Indices(g, addr)[..g.n - 1] in tb.node ==> used == 0
    {
      hide Pow2, TablesOk, Supply, Missing, Short, IndexOf;
    }

    /** Writing a leaf entry of the user area. */
    method WriteLeaf(page: nat, index: nat, e: nat, ghost t: seq<nat>)
      requires Valid() && UserTuple(g, Tb(), t) && t[..g.n - 1] in node
      requires page == node[t[..g.n - 1]] && index == t[g.n - 1] && (Present(e) ==> UserBit(e))
      modifies this`mem
      ensures Valid() && mem.Keys == old(mem.Keys) && Lookup(g, Tb(), t) == e
      ensures forall u: seq<nat> :: |u| == g.n && u != t ==> Lookup(g, Tb(), u) == Lookup(g, old(Tb()), u)
    {
      hide Pow2, TablesOk, Entry, Aligned, Lookup, Present, UserBit;
      SetLeafOk(g, Tb(), t, e);
      NodeFacts(g, Tb(), t[..g.n - 1]);
      var row: seq<nat> := mem[page];
      row := row[index := e];
      mem := mem[page := row];
      assert Tb() == SetLeaf(g, old(Tb()), t, e);
    }

    /** map: a finite map from pages to entries, updated at one page. */
    method Map(va: nat, pa: nat, prot: nat, supply: seq<nat>) returns (r: Outcome, used: nat)
      requires Valid() && Supply(g, mem, supply)
      requires |supply| >= g.n - 1 || (InArea(va) && Indices(g, va)[..g.n - 1] in node)
      modifies this`mem, this`node, this`obtained
      ensures Valid() && used <= |supply| && obtained == old(obtained) + supply[..used]
      ensures r == BadAddress <==> !InArea(va)
      ensures r == Misaligned <==> InArea(va) && !(Aligned(va, g.ps) && Aligned(pa, g.ps))
      ensures r == BadAddress || r == Misaligned ==> used == 0 && Tb() == old(Tb())
      ensures r == NoPage <==>
        && InArea(va) && Aligned(va, g.ps) && Aligned(pa, g.ps)
        && Short(supply, Needed(old(node), va))
      ensures r == NotMapped ==> prot == PROT_NONE && !Present(Translate(g, old(Tb()), va))
      ensures r == AlreadyMapped ==> prot != PROT_NONE && Present(Translate(g, old(Tb()), va))
      ensures r == Done ==> (prot == PROT_NONE <==> Present(Translate(g, old(Tb()), va)))
      ensures r == Done && prot == PROT_NONE ==> Translate(g, Tb(), va) == 0
      ensures r == Done && prot != PROT_NONE ==> var e := Translate(g, Tb(), va);
        && e % 2 == 1 && (e / 4) % 2 == 1 && ((e / 2) % 2 == 1 <==> (prot / PROT_WRITE) % 2 == 1)
        && Base(e, g.ps) == pa && e == pa + 5 + if (prot / PROT_WRITE) % 2 == 1 then 2 else 0
      ensures forall b: nat {:trigger Translate(g, Tb(), b)} :: b < Limit(g) ==>
        (r == Done && OnPage(g, b, va)) || Translate(g, Tb(), b) == Translate(g, old(Tb()), b)
    {
      hide Pow2, TablesOk, Entry, Aligned, Lookup, Base, IndexOf, Supply, IsTuple, NoRepeats, Range, Short, Needed, NewEntry;
      used := 0;
      if !(areaStart <= va < areaEnd) { return BadAddress, 0; }
      BaseFixed(va, g.ps);
      BaseFixed(pa, g.ps);
      if va != Base(va, g.ps) || pa != Base(pa, g.ps) { return Misaligned, 0; }
      ghost var t := Indices(g, va);
      var page, index, ok;
      page, index, used, ok := PtWalk(va, supply);
      if !ok { return NoPage, used; }
      UserIndices(g, Tb(), va);
      LeafEntry(g, Tb(), t);
      var e := mem[page][index];
      if prot == PROT_NONE {
        if !Present(e) { return NotMapped, used; }
      } else {
        if Present(e) { return AlreadyMapped, used; }
      }
      NewEntryUser(g, pa, prot);
      ghost var before := mem;
      WriteLeaf(page, index, NewEntry(pa, prot), t);
      SupplySame(g, before, mem, supply[used..]);
      OtherPages(g, va);
      var again;
      page, index, again, ok := PtWalk(va, supply[used..]);
      r := Done;
    }

    /** pgfree, which must be given a page still held: no double free, no use after it. */
    method PgFree(page: nat)
      requires page in mem
      modifies this`mem, this`freed
      ensures mem == old(mem) - {page} && freed == old(freed) + [page]
    {
      mem := mem - {page};
      freed := freed + [page];
    }

    /** teardown, from the table pt that serves prefix p of the tables tb: frees the pages
        of that subtree, each once, and reads no page it has freed. */
    method Teardown(level: nat, pt: nat, ghost tb: Tables, ghost p: seq<nat>)
      requires TablesOk(g, tb) && level == |p| + 1
      requires level <= g.n ==> p in tb.node && pt == tb.node[p] && Intact(tb, mem, p)
      modifies this`mem, this`freed
      ensures level > g.n ==> mem == old(mem) && freed == old(freed)
      ensures level <= g.n ==> mem == old(mem) - Subtree(tb, p)
      ensures level <= g.n ==> multiset(freed) == multiset(old(freed)) + multiset(Subtree(tb, p))
      decreases g.n + 1 - level
    {
      hide Pow2, TablesOk, Present, UserBit, Base, Below, Subtree, Intact;
      if level > g.n { return; }
      PageHeld(tb, mem, p);
      NodeFacts(g, tb, p);
      EmptyBelow(tb, p);
      var index := 0;
      while index < Pow2(g.bits)
        invariant 0 <= index <= Pow2(g.bits)
        invariant mem == old(mem) - Below(tb, p, index)
        invariant multiset(freed) == multiset(old(freed)) + multiset(Below(tb, p, index))
      {
        PageStays(g, tb, p, index);
        var e := mem[pt][index];
        TeardownEntry(g, tb, p, index);
        StillIntact(g, tb, old(mem), p, index);
        DisjointBelow(g, tb, p, index);
        BelowStep(tb, p, index);
        ghost var (m0, f0) := (mem, freed);
        if Present(e) && UserBit(e) {
          Teardown(level + 1, Base(e, g.ps), tb, p + [index]);
        }
        MinusTwice(old(mem), Below(tb, p, index), Subtree(tb, p + [index]));
        MultisetUnion(Below(tb, p, index), Subtree(tb, p + [index]));
        index := index + 1;
      }
      BelowAll(g, tb, p);
      MinusTwice(old(mem), Below(tb, p, index), {pt});
      MultisetUnion(Below(tb, p, index), {pt});
      PgFree(pt);
    }

    /** unprotect: every page obtained is freed exactly once, and nothing else. */
    method Unprotect()
      requires Valid()
      modifies this`mem, this`freed
      ensures mem == map[] && multiset(freed) == multiset(obtained)
    {
      hide Pow2, TablesOk, Present, UserBit, Base, Entry;
      ghost var tb := Tb();
      TablesRoot(g, tb);
      RootBase(g, tb, ptr);
      WholeTree(g, tb);
      if Present(ptr) && UserBit(ptr) {
        Teardown(1, Base(ptr, g.ps), tb, []);
      }
      DistinctMultiset(obtained);
    }
  }

  lemma PageHeld(tb: Tables, mem: map<nat, seq<nat>>, p: seq<nat>)
    requires Intact(tb, mem, p) && p in tb.node
    ensures tb.node[p] in mem && tb.node[p] in tb.mem && mem[tb.node[p]] == tb.mem[tb.node[p]]
  {
    assert p <= p;
  }

  lemma EmptyBelow(tb: Tables, p: seq<nat>)
    ensures Below(tb, p, 0) == {}
  {
  }

  /** teardown descends exactly where there is a table, or below the last level. */
  lemma TeardownEntry(g: Geo, tb: Tables, p: seq<nat>, i: nat)
    requires TablesOk(g, tb) && p in tb.node && i < |Row(tb, p)|
    ensures |p| + 1 < g.n ==> (Owned(Row(tb, p)[i]) <==> p + [i] in tb.node)
    ensures |p| + 1 < g.n && Owned(Row(tb, p)[i]) ==> Base(Row(tb, p)[i], g.ps) == tb.node[p + [i]]
    ensures p + [i] !in tb.node ==> Subtree(tb, p + [i]) == {}
    ensures |p| + 1 == g.n ==> p + [i] !in tb.node
  {
    hide TablesOk, Pow2, Present, UserBit, Base, Subtree;
    EntryFacts(g, tb, p, i);
    if p + [i] in tb.node { NodeFacts(g, tb, p + [i]); } else { NoSubtree(g, tb, p + [i]); }
  }

  lemma MinusTwice(m: map<nat, seq<nat>>, a: set<nat>, b: set<nat>)
    ensures m - a - b == m - (a + b) && m - {} == m
  {
  }

  lemma MultisetUnion(a: set<nat>, b: set<nat>)
    requires a !! b
    ensures multiset(a + b) == multiset(a) + multiset(b)
  {
  }

  lemma WholeTree(g: Geo, tb: Tables)
    requires TablesOk(g, tb)
    ensures [] in tb.node && Subtree(tb, []) == tb.mem.Keys && Intact(tb, tb.mem, [])
  {
    TablesRoot(g, tb);
    hide TablesOk, Pow2;
    forall q | q in tb.node ensures [] <= q && tb.node[q] in tb.mem { NodeFacts(g, tb, q); }
    forall x | x in tb.mem.Keys ensures x in Subtree(tb, []) {
      var q :| q in tb.node && tb.node[q] == x;
      assert [] <= q;
    }
  }

  lemma {:induction false} DistinctMultiset(s: seq<nat>)
    requires NoRepeats(s)
    ensures multiset(s) == multiset(Range(s))
  {
    if s != [] {
      var (last, rest) := (s[|s| - 1], s[..|s| - 1]);
      assert s == rest + [last];
      DistinctMultiset(rest);
      assert last !in rest;
      assert Range(s) == Range(rest) + {last};
    }
  }

  lemma SupplyHead(g: Geo, mem: map<nat, seq<nat>>, supply: seq<nat>, used: nat)
    requires used < |supply| && supply[used] != 0 && Supply(g, mem, supply[used..])
    ensures supply[used] !in mem && Aligned(supply[used], g.ps)
  {
    hide Aligned;
    assert supply[used..][0] == supply[used];
  }

  lemma SupplySame(g: Geo, mem: map<nat, seq<nat>>, mem': map<nat, seq<nat>>, supply: seq<nat>)
    requires Supply(g, mem, supply) && mem'.Keys == mem.Keys
    ensures Supply(g, mem', supply)
  {
    hide Aligned;
  }

  lemma SupplyTail(g: Geo, mem: map<nat, seq<nat>>, mem': map<nat, seq<nat>>, supply: seq<nat>, used: nat)
    requires used < |supply| && supply[used] != 0 && Supply(g, mem, supply[used..])
    requires mem'.Keys == mem.Keys + {supply[used]}
    ensures Supply(g, mem', supply[used + 1..]) && supply[..used + 1] == supply[..used] + [supply[used]]
  {
    hide Aligned;
    var s := supply[used..];
    assert s[0] == supply[used] && supply[used + 1..] == s[1..];
  }

  /** pgallocz: whatever the page held, it is zeroed. */
  method PgAllocZ(g: Geo) returns (page: seq<nat>)
    ensures page == Zeros(g)
  {
    hide Pow2;
    assert |Zeros(g)| == Pow2(g.bits);
    page :| |page| == Pow2(g.bits);
    for i := 0 to |page|
      invariant |page| == Pow2(g.bits) && forall k :: 0 <= k < i ==> page[k] == 0
    {
      page := page[i := 0];
    }
  }

  lemma RootUnmoved(g: Geo, tb: Tables, c: seq<nat>)
    requires TablesOk(g, tb) && c !in tb.node
    ensures c != [] && [] in tb.node
  {
    TablesRoot(g, tb);
  }

  lemma RootBase(g: Geo, tb: Tables, ptr: nat)
    requires TablesOk(g, tb) && [] in tb.node && ptr == Entry(tb.node[[]], PTE_P + PTE_U)
    ensures Base(ptr, g.ps) == tb.node[[]] && Owned(ptr)
  {
    hide TablesOk, Pow2, Entry, Base, Present, UserBit;
    TablesRoot(g, tb);
    NodeFacts(g, tb, []);
    EntryMeaning(tb.node[[]], 5, g.ps);
  }

  lemma UserIndices(g: Geo, tb: Tables, addr: nat)
    requires TablesOk(g, tb) && g.n >= 1 && IndexOf(g, addr, 0) !in tb.kernel
    ensures UserTuple(g, tb, Indices(g, addr)) && [] in tb.node
  {
    TablesRoot(g, tb);
    hide TablesOk, Pow2, IndexOf;
    forall i | 0 <= i < g.n ensures IndexOf(g, addr, i) < Pow2(g.bits) { IndexMeaning(g, addr, i); }
  }

  lemma FreshRoot(g: Geo, tb: Tables, upt: nat)
    requires GeoOk(g) && |tb.kpt| == Pow2(g.bits) && Aligned(upt, g.ps)
    requires tb.node == map[[] := upt] && tb.mem.Keys == {upt} && |tb.mem[upt]| == Pow2(g.bits)
    requires forall i :: i in tb.kernel ==> i < Pow2(g.bits) && !Owned(tb.kpt[i])
    requires forall i :: 0 <= i < Pow2(g.bits) ==> tb.mem[upt][i] == if i in tb.kernel then tb.kpt[i] else 0
    ensures TablesOk(g, tb)
  {
    Blank();
    hide Pow2, Aligned, Present, UserBit, Base;
    assert tb.node.Values == {upt} by { assert tb.node[[]] == upt; }
    assert RootOk(g, tb) && NodesOk(g, tb) && NoSharing(tb);
    forall p, i: nat | p in tb.node && i < |Row(tb, p)| ensures EntryOk(g, tb, p, i) {
      assert p == [] && Row(tb, p) == tb.mem[upt];
      assert Row(tb, p)[i] == if i in tb.kernel then tb.kpt[i] else 0;
    }
  }
}
