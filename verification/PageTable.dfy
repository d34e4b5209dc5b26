/** The x86 page tables of abstract-machine/am/src/x86/qemu/vme.c: a radix tree of
    table pages that grows on demand. The number of levels, the index width and
    the page size are parameters (4 levels of 9 bits, or 2 of 10, over 4 KiB). */
module PageTable {
  import opened Powers
  import opened Bits

  const PTE_P: nat := 1
  const PTE_W: nat := 2
  const PTE_U: nat := 4

  /** n levels, each indexed by bits address bits, over pages of 2^ps bytes. */
  datatype Geo = Geo(ps: nat, bits: nat, n: nat)

  predicate GeoOk(g: Geo) {
    g.ps >= 3 && g.bits >= 1 && g.n >= 2
  }

  // ----- entries

  predicate Present(e: nat) {
    e % 2 == 1
  }

  predicate UserBit(e: nat) {
    (e / 4) % 2 == 1
  }

  predicate WriteBit(e: nat) {
    (e / 2) % 2 == 1
  }

  /** The test teardown makes: present and user. */
  predicate Owned(e: nat) {
    Present(e) && UserBit(e)
  }

  /** baseof: clear the bits below the page size. */
  function Base(e: nat, ps: nat): nat {
    Shl(Quotient(e, Pow2(ps)), ps)
  }

  /** page | flags, for a page-aligned address. */
  function Entry(page: nat, flags: nat): nat {
    Or(page, flags)
  }

  lemma EntryMeaning(page: nat, flags: nat, ps: nat)
    requires ps >= 3 && Aligned(page, ps) && flags < 8
    ensures Entry(page, flags) == page + flags && Base(Entry(page, flags), ps) == page
    ensures Present(Entry(page, flags)) <==> flags % 2 == 1
    ensures UserBit(Entry(page, flags)) <==> flags / 4 == 1
    ensures WriteBit(Entry(page, flags)) <==> (flags / 2) % 2 == 1
  {
    hide Pow2, Or, Aligned;
    MultipleOfAligned(page, ps);
    AlignedWeaken(page, ps, 3);
    MultipleOfAligned(page, 3);
    Pow2Monotone(3, ps);
    EightIsPow2();
    OrDisjoint(Quotient(page, Pow2(ps)), flags, ps);
    PageOfSum(page, flags, Pow2(ps));
    LowBits(Quotient(page, 8), flags);
  }

  lemma EightIsPow2()
    ensures Pow2(3) == 8
  {
  }

  lemma PageOfSum(page: nat, flags: nat, m: nat)
    requires flags < m && page == page / m * m
    ensures Quotient(page + flags, m) == Quotient(page, m)
  {
    DivModUnique(page + flags, m, page / m, flags);
  }

  lemma LowBits(q: nat, flags: nat)
    requires flags < 8
    ensures (q * 8 + flags) % 2 == flags % 2 && ((q * 8 + flags) / 4) % 2 == (flags / 4) % 2
    ensures ((q * 8 + flags) / 2) % 2 == (flags / 2) % 2
  {
    DivModUnique(q * 4 + flags / 2, 2, q * 2 + flags / 4, (flags / 2) % 2);
    DivModUnique(q * 8 + flags, 2, q * 4 + flags / 2, flags % 2);
    DivModUnique(q * 8 + flags, 4, q * 2 + flags / 4, flags % 4);
    DivModUnique(q * 2 + flags / 4, 2, q, flags / 4);
  }

  // ----- addresses

  function Shift(g: Geo, level: nat): nat
    requires level < g.n
  {
    g.ps + g.bits * (g.n - 1 - level)
  }

  /** indexof: the bits of the address selected by the level's mask. */
  function IndexOf(g: Geo, addr: nat, level: nat): nat
    requires level < g.n
  {
    var mask := Shl(Pow2(g.bits) - 1, Shift(g, level));
    Quotient(And(addr, mask), Pow2(Shift(g, level)))
  }

  lemma IndexMeaning(g: Geo, addr: nat, level: nat)
    requires level < g.n
    ensures IndexOf(g, addr, level) == Quotient(addr, Pow2(Shift(g, level))) % Pow2(g.bits)
    ensures IndexOf(g, addr, level) < Pow2(g.bits)
  {
    var s := Shift(g, level);
    AndHighMask(addr, Pow2(g.bits) - 1, s);
    AndLowMask(Quotient(addr, Pow2(s)), g.bits);
    hide And, Pow2;
    ModOfMultiple(And(Quotient(addr, Pow2(s)), Pow2(g.bits) - 1), Pow2(s));
  }

  /** The index tuple of an address. */
  function Indices(g: Geo, addr: nat): (t: seq<nat>)
    ensures |t| == g.n && forall i :: 0 <= i < g.n ==> t[i] == IndexOf(g, addr, i)
  {
    seq(g.n, i requires 0 <= i < g.n => IndexOf(g, addr, i))
  }

  /** The number formed by the indices from a level on. */
  lemma {:induction false} HighPart(g: Geo, a: nat, b: nat, level: nat)
    requires GeoOk(g) && level < g.n && Indices(g, a) == Indices(g, b)
    requires a < Pow2(Shift(g, 0) + g.bits) && b < Pow2(Shift(g, 0) + g.bits)
    ensures Quotient(a, Pow2(Shift(g, level))) == Quotient(b, Pow2(Shift(g, level)))
    decreases level
  {
    var (s, w) := (Shift(g, level), Pow2(g.bits));
    IndexMeaning(g, a, level);
    IndexMeaning(g, b, level);
    assert Indices(g, a)[level] == Indices(g, b)[level];
    if level == 0 {
      Pow2Add(s, g.bits);
      QuotientBelow(a, Pow2(s), w);
      QuotientBelow(b, Pow2(s), w);
      DivModUnique(Quotient(a, Pow2(s)), w, 0, Quotient(a, Pow2(s)));
      DivModUnique(Quotient(b, Pow2(s)), w, 0, Quotient(b, Pow2(s)));
    } else {
      HighPart(g, a, b, level - 1);
      assert Shift(g, level - 1) == s + g.bits by {
        assert g.bits * (g.n - 1 - (level - 1)) == g.bits * (g.n - 1 - level) + g.bits;
      }
      Pow2Add(s, g.bits);
      QuotientTwice(a, Pow2(s), w);
      QuotientTwice(b, Pow2(s), w);
      DivMod(Quotient(a, Pow2(s)), w);
      DivMod(Quotient(b, Pow2(s)), w);
    }
  }

  lemma QuotientTwice(x: nat, m: nat, n: nat)
    requires m > 0 && n > 0
    ensures m * n > 0 && x / (m * n) == (x / m) / n
  {
    MulMonotone(1, m, n);
    DivMod(x, m);
    DivMod(x / m, n);
    var (q, r) := ((x / m) / n, (x / m) % n);
    assert x == q * (m * n) + (r * m + x % m) by {
      assert x == (q * n + r) * m + x % m;
      assert (q * n) * m == q * (m * n);
      assert (q * n + r) * m == (q * n) * m + r * m;
    }
    MulMonotone(r, n - 1, m);
    assert (n - 1) * m == m * n - m;
    MulMonotone(0, r, m);
    DivModUnique(x, m * n, q, r * m + x % m);
  }

  /** Equal index tuples mean the same page. */
  lemma SameTupleSamePage(g: Geo, a: nat, b: nat)
    requires GeoOk(g) && Indices(g, a) == Indices(g, b)
    requires a < Pow2(Shift(g, 0) + g.bits) && b < Pow2(Shift(g, 0) + g.bits)
    ensures Quotient(a, Pow2(g.ps)) == Quotient(b, Pow2(g.ps))
  {
    HighPart(g, a, b, g.n - 1);
    assert g.bits * 0 == 0;
  }

  // ----- the tables as a value

  /** mem holds the table pages of one address space, node says which page serves
      which index prefix; kpt and kernel are the shared kernel part of the root. */
  datatype Tables = Tables(mem: map<nat, seq<nat>>, node: map<seq<nat>, nat>, kpt: seq<nat>, kernel: set<nat>)

  predicate IsTuple(g: Geo, t: seq<nat>) {
    forall i :: 0 <= i < |t| ==> t[i] < Pow2(g.bits)
  }

  function Row(tb: Tables, p: seq<nat>): seq<nat> {
    if p in tb.node && tb.node[p] in tb.mem then tb.mem[tb.node[p]] else []
  }

  predicate IsKernel(tb: Tables, p: seq<nat>, i: nat) {
    p == [] && i in tb.kernel
  }

  /** One table page: known, of full size, reached through its parent. */
  predicate NodeOk(g: Geo, tb: Tables, p: seq<nat>)
    requires p in tb.node
  {
    && |p| < g.n && IsTuple(g, p)
    && tb.node[p] in tb.mem && |tb.mem[tb.node[p]]| == Pow2(g.bits) && Aligned(tb.node[p], g.ps)
    && (|p| > 0 ==> p[..|p| - 1] in tb.node)
  }

  /** One entry: links exactly to the table below, or is a leaf, or the kernel's. */
  predicate EntryOk(g: Geo, tb: Tables, p: seq<nat>, i: nat)
    requires i < |Row(tb, p)|
  {
    var e := Row(tb, p)[i];
    && (|p| < g.n - 1 ==> (Owned(e) <==> p + [i] in tb.node) && (Owned(e) ==> Base(e, g.ps) == tb.node[p + [i]] && WriteBit(e)))
    && (if IsKernel(tb, p, i) then i < |tb.kpt| && e == tb.kpt[i] && !Owned(e) else Present(e) ==> UserBit(e))
  }

  ghost predicate NodesOk(g: Geo, tb: Tables) {
    forall p {:trigger tb.node[p]} :: p in tb.node ==> NodeOk(g, tb, p)
  }

  /** No page serves two prefixes. */
  ghost predicate NoSharing(tb: Tables) {
    forall p, q {:trigger tb.node[p], tb.node[q]} :: p in tb.node && q in tb.node && tb.node[p] == tb.node[q] ==> p == q
  }

  ghost predicate EntriesOk(g: Geo, tb: Tables) {
    forall p, i: nat {:trigger Row(tb, p)[i]} :: p in tb.node && i < |Row(tb, p)| ==> EntryOk(g, tb, p, i)
  }

  ghost predicate RootOk(g: Geo, tb: Tables) {
    && GeoOk(g) && [] in tb.node && |tb.kpt| == Pow2(g.bits)
    && (forall i :: i in tb.kernel ==> i < Pow2(g.bits))
  }

  /** The tables form a tree: no page serves two prefixes, nothing else is in memory,
      and the kernel's entries of the root are the shared ones. */
  ghost predicate TablesOk(g: Geo, tb: Tables) {
    RootOk(g, tb) && NodesOk(g, tb) && NoSharing(tb) && tb.mem.Keys == tb.node.Values && EntriesOk(g, tb)
  }

  /** The leaf entry an index tuple leads to; 0 where a table is missing. */
  function Lookup(g: Geo, tb: Tables, t: seq<nat>): nat
    requires |t| == g.n >= 1
  {
    var row := Row(tb, t[..g.n - 1]);
    if t[g.n - 1] < |row| then row[t[g.n - 1]] else 0
  }

  /** What the hardware does: follow the entries from a table page down. */
  function HardwareWalk(g: Geo, tb: Tables, page: nat, t: seq<nat>, level: nat): nat
    requires |t| == g.n && level < g.n
    decreases g.n - level
  {
    if page !in tb.mem || t[level] >= |tb.mem[page]| then 0
    else
      var e := tb.mem[page][t[level]];
      if level == g.n - 1 then e
      else if Present(e) then HardwareWalk(g, tb, Base(e, g.ps), t, level + 1)
      else 0
  }

  /** Whether it lets a program read or write there: every entry on the way must. */
  predicate HardwareAllows(g: Geo, tb: Tables, page: nat, t: seq<nat>, level: nat, write: bool)
    requires |t| == g.n && level < g.n
    decreases g.n - level
  {
    if page !in tb.mem || t[level] >= |tb.mem[page]| then false
    else
      var e := tb.mem[page][t[level]];
      && Present(e) && UserBit(e) && (write ==> WriteBit(e))
      && (level == g.n - 1 || HardwareAllows(g, tb, Base(e, g.ps), t, level + 1, write))
  }

  predicate UserTuple(g: Geo, tb: Tables, t: seq<nat>) {
    |t| == g.n >= 1 && IsTuple(g, t) && t[0] !in tb.kernel
  }

  /** What the invariant says about one table page. */
  lemma NodeFacts(g: Geo, tb: Tables, p: seq<nat>)
    requires TablesOk(g, tb) && p in tb.node
    ensures NodeOk(g, tb, p) && |p| < g.n && tb.node[p] in tb.mem
    ensures Row(tb, p) == tb.mem[tb.node[p]] && |Row(tb, p)| == Pow2(g.bits)
  {
    hide Pow2, EntriesOk, NoSharing, RootOk;
    assert tb.node[p] == tb.node[p];
  }

  /** What it says about one entry. */
  lemma EntryFacts(g: Geo, tb: Tables, p: seq<nat>, i: nat)
    requires TablesOk(g, tb) && p in tb.node && i < |Row(tb, p)|
    ensures EntryOk(g, tb, p, i)
  {
    hide Pow2, EntryOk, NodesOk, NoSharing, RootOk, Row;
    assert Row(tb, p)[i] >= 0;
  }

  lemma SamePage(g: Geo, tb: Tables, p: seq<nat>, q: seq<nat>)
    requires TablesOk(g, tb) && p in tb.node && q in tb.node && tb.node[p] == tb.node[q]
    ensures p == q
  {
    hide Pow2, EntriesOk, NodesOk, RootOk;
  }

  /** For user addresses the walk through memory and the lookup by prefix agree. */
  lemma {:induction false} WalkIsLookup(g: Geo, tb: Tables, t: seq<nat>, level: nat)
    requires TablesOk(g, tb) && UserTuple(g, tb, t) && level < g.n && t[..level] in tb.node
    ensures HardwareWalk(g, tb, tb.node[t[..level]], t, level) == Lookup(g, tb, t)
    decreases g.n - level
  {
    hide TablesOk, NodeOk, Pow2, Base, Present, UserBit;
    var p := t[..level];
    NodeFacts(g, tb, p);
    EntryFacts(g, tb, p, t[level]);
    if level < g.n - 1 {
      UserPresent(g, tb, p, t[level]);
      assert p + [t[level]] == t[..level + 1];
      if t[..level + 1] in tb.node {
        WalkIsLookup(g, tb, t, level + 1);
      } else {
        MissingBelow(g, tb, t, level + 1, g.n - 1);
      }
    }
  }

  /** The tables on the way never take a right away: the leaf entry decides alone. */
  lemma {:induction false} LeafDecides(g: Geo, tb: Tables, t: seq<nat>, level: nat, write: bool)
    requires TablesOk(g, tb) && UserTuple(g, tb, t) && level < g.n && t[..level] in tb.node
    ensures HardwareAllows(g, tb, tb.node[t[..level]], t, level, write) <==>
      Present(Lookup(g, tb, t)) && (write ==> WriteBit(Lookup(g, tb, t)))
    decreases g.n - level
  {
    hide TablesOk, NodeOk, Pow2, Base, Present, UserBit, WriteBit;
    var p := t[..level];
    NodeFacts(g, tb, p);
    EntryFacts(g, tb, p, t[level]);
    UserPresent(g, tb, p, t[level]);
    if level < g.n - 1 {
      assert p + [t[level]] == t[..level + 1];
      if t[..level + 1] in tb.node {
        LeafDecides(g, tb, t, level + 1, write);
      } else {
        MissingBelow(g, tb, t, level + 1, g.n - 1);
        Blank();
      }
    }
  }

  /** Outside the kernel's part, present entries are user entries. */
  lemma UserPresent(g: Geo, tb: Tables, p: seq<nat>, i: nat)
    requires TablesOk(g, tb) && p in tb.node && i < |Row(tb, p)| && !IsKernel(tb, p, i)
    ensures Present(Row(tb, p)[i]) <==> Owned(Row(tb, p)[i])
    ensures |p| < g.n - 1 ==> (Present(Row(tb, p)[i]) <==> p + [i] in tb.node)
    ensures |p| < g.n - 1 && Present(Row(tb, p)[i]) ==> Base(Row(tb, p)[i], g.ps) == tb.node[p + [i]] && WriteBit(Row(tb, p)[i])
  {
    hide TablesOk, NodeOk, Pow2, Base, Present, UserBit;
    EntryFacts(g, tb, p, i);
  }

  /** Prefixes of present tables are present. */
  lemma {:induction false} MissingBelow(g: Geo, tb: Tables, t: seq<nat>, i: nat, k: nat)
    requires TablesOk(g, tb) && i <= k < g.n && k <= |t| && t[..i] !in tb.node
    ensures t[..k] !in tb.node
    decreases k
  {
    hide TablesOk, Pow2;
    if i < k {
      MissingBelow(g, tb, t, i, k - 1);
      assert t[..k][..k - 1] == t[..k - 1];
      if t[..k] in tb.node { NodeFacts(g, tb, t[..k]); }
    }
  }

  // ----- growing and writing

  function Zeros(g: Geo): (r: seq<nat>)
    ensures |r| == Pow2(g.bits) && forall i :: 0 <= i < |r| ==> r[i] == 0
  {
    seq(Pow2(g.bits), _ => 0)
  }

  /** A fresh zeroed page linked in at entry i of the table for prefix p. */
  function AddTable(g: Geo, tb: Tables, p: seq<nat>, i: nat, page: nat): Tables
    requires i < |Row(tb, p)|
  {
    var row := Row(tb, p)[i := Entry(page, PTE_P + PTE_W + PTE_U)];
    tb.(mem := tb.mem[page := Zeros(g)][tb.node[p] := row], node := tb.node[p + [i] := page])
  }

  /** The table pages, row by row, after growing. */
  lemma AddTableRows(g: Geo, tb: Tables, p: seq<nat>, i: nat, page: nat)
    requires TablesOk(g, tb) && p in tb.node && i < |Row(tb, p)| && page !in tb.mem && p + [i] !in tb.node
    ensures var tb' := AddTable(g, tb, p, i, page);
            && Row(tb', p) == Row(tb, p)[i := Entry(page, PTE_P + PTE_W + PTE_U)]
            && Row(tb', p + [i]) == Zeros(g)
            && forall q :: q in tb.node && q != p ==> Row(tb', q) == Row(tb, q)
  {
    hide TablesOk, NodeOk, Pow2, Entry, Zeros;
    NodeFacts(g, tb, p);
    forall q | q in tb.node ensures tb.node[q] in tb.mem && (tb.node[q] == tb.node[p] ==> q == p) {
      NodeFacts(g, tb, q);
      if tb.node[q] == tb.node[p] { SamePage(g, tb, p, q); }
    }
  }

  lemma ChildOfMissing(g: Geo, tb: Tables, c: seq<nat>, k: nat)
    requires TablesOk(g, tb) && c !in tb.node
    ensures c + [k] !in tb.node
  {
    hide TablesOk, Pow2;
    assert (c + [k])[..|c + [k]| - 1] == c;
    if c + [k] in tb.node { NodeFacts(g, tb, c + [k]); }
  }

  lemma AddTableNode(g: Geo, tb: Tables, p: seq<nat>, i: nat, page: nat, q: seq<nat>)
    requires TablesOk(g, tb) && p in tb.node && |p| < g.n - 1 && i < |Row(tb, p)| && p + [i] !in tb.node
    requires page !in tb.mem && Aligned(page, g.ps)
    requires q in tb.node || q == p + [i]
    ensures NodeOk(g, AddTable(g, tb, p, i, page), q)
  {
    hide TablesOk, EntryOk, Pow2, Entry, Aligned;
    NodeFacts(g, tb, p);
    if q in tb.node { NodeFacts(g, tb, q); } else { assert q[..|q| - 1] == p; }
  }

  lemma Blank()
    ensures !Present(0)
  {
  }

  lemma Distinct(p: seq<nat>, i: nat, q: seq<nat>, k: nat)
    ensures p + [i] == q + [k] ==> p == q && i == k
    ensures (p + [i]) + [k] != p + [i]
  {
    assert (p + [i])[..|p|] == p && (q + [k])[..|q|] == q;
    assert (p + [i])[|p|] == i && (q + [k])[|q|] == k;
  }

  lemma AddTableEntry(g: Geo, tb: Tables, p: seq<nat>, i: nat, page: nat, q: seq<nat>, k: nat)
    requires TablesOk(g, tb) && p in tb.node && |p| < g.n - 1 && i < |Row(tb, p)| && p + [i] !in tb.node
    requires !IsKernel(tb, p, i) && page !in tb.mem && Aligned(page, g.ps)
    requires q in tb.node || q == p + [i]
    requires k < |Row(AddTable(g, tb, p, i, page), q)|
    ensures EntryOk(g, AddTable(g, tb, p, i, page), q, k)
  {
    hide TablesOk, Pow2, Entry, Aligned, Base, Row, Present, UserBit, WriteBit;
    var c := p + [i];
    TablesRoot(g, tb);
    EntryMeaning(page, 7, g.ps);
    AddTableRows(g, tb, p, i, page);
    Blank();
    Distinct(p, i, q, k);
    if q == c {
      ChildOfMissing(g, tb, c, k);
    } else {
      EntryFacts(g, tb, q, k);
    }
  }

  /** Growing keeps the tables a tree and changes no translation. */
  lemma AddTableOk(g: Geo, tb: Tables, p: seq<nat>, i: nat, page: nat)
    requires TablesOk(g, tb) && p in tb.node && |p| < g.n - 1 && i < |Row(tb, p)|
    requires !Present(Row(tb, p)[i]) && !IsKernel(tb, p, i)
    requires page !in tb.mem && Aligned(page, g.ps)
    ensures p + [i] !in tb.node
    ensures var tb' := AddTable(g, tb, p, i, page);
            && TablesOk(g, tb') && tb'.kpt == tb.kpt && tb'.kernel == tb.kernel
            && tb'.node == tb.node[p + [i] := page] && tb'.mem.Keys == tb.mem.Keys + {page}
            && forall t: seq<nat> :: |t| == g.n ==> Lookup(g, tb', t) == Lookup(g, tb, t)
  {
    UserPresent(g, tb, p, i);
    NodeFacts(g, tb, p);
    hide Pow2, Entry, Aligned, Base, Present, UserBit, EntryOk, NodeOk, Zeros, NoSharing, Lookup, Row, TablesOk;
    var tb' := AddTable(g, tb, p, i, page);
    assert RootOk(g, tb') by { TablesRoot(g, tb); }
    assert NodesOk(g, tb') by {
      forall q | q in tb'.node ensures NodeOk(g, tb', q) { AddTableNode(g, tb, p, i, page, q); }
    }
    AddTablePages(g, tb, p, i, page);
    assert EntriesOk(g, tb') by {
      forall q, k: nat | q in tb'.node && k < |Row(tb', q)| ensures EntryOk(g, tb', q, k) {
        AddTableEntry(g, tb, p, i, page, q, k);
      }
    }
    Conclude(g, tb');
    forall t: seq<nat> | |t| == g.n ensures Lookup(g, tb', t) == Lookup(g, tb, t) {
      AddTableLookup(g, tb, p, i, page, t);
    }
  }

  lemma TablesRoot(g: Geo, tb: Tables)
    requires TablesOk(g, tb)
    ensures RootOk(g, tb) && GeoOk(g) && tb.mem.Keys == tb.node.Values && NoSharing(tb)
  {
    hide Pow2, EntriesOk, NodesOk, NoSharing;
  }

  lemma Conclude(g: Geo, tb: Tables)
    requires RootOk(g, tb) && NodesOk(g, tb) && NoSharing(tb) && tb.mem.Keys == tb.node.Values && EntriesOk(g, tb)
    ensures TablesOk(g, tb)
  {
  }

  lemma AddTablePages(g: Geo, tb: Tables, p: seq<nat>, i: nat, page: nat)
    requires TablesOk(g, tb) && p in tb.node && i < |Row(tb, p)| && p + [i] !in tb.node && page !in tb.mem
    ensures var tb' := AddTable(g, tb, p, i, page);
            NoSharing(tb') && tb'.mem.Keys == tb'.node.Values && tb'.mem.Keys == tb.mem.Keys + {page}
  {
    TablesRoot(g, tb);
    NodeFacts(g, tb, p);
    hide TablesOk, NoSharing, Pow2, NodeOk, Entry, Zeros, Row;
    assert page !in tb.node.Values;
    GrowPages(tb.node, p + [i], page);
    Sharing(tb, AddTable(g, tb, p, i, page), p + [i], page);
  }

  lemma GrowPages(node: map<seq<nat>, nat>, c: seq<nat>, page: nat)
    requires c !in node
    ensures node[c := page].Values == node.Values + {page}
  {
    var node' := node[c := page];
    assert node'[c] == page;
    forall q | q in node ensures node[q] in node'.Values { assert node'[q] == node[q]; }
  }

  lemma Sharing(tb: Tables, tb': Tables, c: seq<nat>, page: nat)
    requires NoSharing(tb) && page !in tb.node.Values && tb'.node == tb.node[c := page]
    ensures NoSharing(tb')
  {
  }

  lemma AddTableLookup(g: Geo, tb: Tables, p: seq<nat>, i: nat, page: nat, t: seq<nat>)
    requires TablesOk(g, tb) && p in tb.node && |p| < g.n - 1 && i < |Row(tb, p)| && p + [i] !in tb.node
    requires page !in tb.mem && |t| == g.n
    ensures Lookup(g, AddTable(g, tb, p, i, page), t) == Lookup(g, tb, t)
  {
    AddTableRows(g, tb, p, i, page);
    NodeFacts(g, tb, p);
    hide TablesOk, Pow2, Entry, EntryOk, NodeOk;
    var l := t[..g.n - 1];
    if l in tb.node { assert l != p; } else { assert Row(tb, l) == []; }
  }

  /** Writing a leaf entry. */
  function SetLeaf(g: Geo, tb: Tables, t: seq<nat>, e: nat): Tables
    requires |t| == g.n >= 1 && t[g.n - 1] < |Row(tb, t[..g.n - 1])|
  {
    var p := t[..g.n - 1];
    tb.(mem := tb.mem[tb.node[p] := Row(tb, p)[t[g.n - 1] := e]])
  }

  lemma SetLeafRows(g: Geo, tb: Tables, t: seq<nat>, e: nat)
    requires TablesOk(g, tb) && UserTuple(g, tb, t) && t[..g.n - 1] in tb.node
    ensures t[g.n - 1] < |Row(tb, t[..g.n - 1])|
    ensures var tb' := SetLeaf(g, tb, t, e);
            var p := t[..g.n - 1];
            && tb'.mem.Keys == tb.mem.Keys
            && Row(tb', p) == Row(tb, p)[t[g.n - 1] := e]
            && (forall q :: q in tb.node && q != p ==> Row(tb', q) == Row(tb, q))
            && (forall q :: q in tb.node ==> NodeOk(g, tb', q))
  {
    hide TablesOk, Pow2, Aligned;
    var p := t[..g.n - 1];
    NodeFacts(g, tb, p);
    var tb' := SetLeaf(g, tb, t, e);
    forall q | q in tb.node
      ensures q != p ==> Row(tb', q) == Row(tb, q)
      ensures NodeOk(g, tb', q)
    {
      NodeFacts(g, tb, q);
      if tb.node[q] == tb.node[p] { SamePage(g, tb, p, q); }
    }
  }

  lemma SetLeafEntry(g: Geo, tb: Tables, t: seq<nat>, e: nat, q: seq<nat>, k: nat)
    requires TablesOk(g, tb) && UserTuple(g, tb, t) && t[..g.n - 1] in tb.node
    requires t[g.n - 1] < |Row(tb, t[..g.n - 1])|
    requires Present(e) ==> UserBit(e)
    requires q in tb.node && k < |Row(SetLeaf(g, tb, t, e), q)|
    ensures EntryOk(g, SetLeaf(g, tb, t, e), q, k)
  {
    hide TablesOk, RootOk, NoSharing, Pow2, Base, Row, NodeOk, Present, UserBit;
    TablesRoot(g, tb);
    SetLeafRows(g, tb, t, e);
    EntryFacts(g, tb, q, k);
  }

  /** It changes the translation of exactly one user page and no table. */
  lemma SetLeafOk(g: Geo, tb: Tables, t: seq<nat>, e: nat)
    requires TablesOk(g, tb) && UserTuple(g, tb, t) && t[..g.n - 1] in tb.node
    requires Present(e) ==> UserBit(e)
    ensures t[g.n - 1] < |Row(tb, t[..g.n - 1])|
    ensures var tb' := SetLeaf(g, tb, t, e);
            && TablesOk(g, tb') && tb'.node == tb.node && tb'.mem.Keys == tb.mem.Keys
            && tb'.kpt == tb.kpt && tb'.kernel == tb.kernel
            && Lookup(g, tb', t) == e
            && forall u: seq<nat> :: |u| == g.n && u != t ==> Lookup(g, tb', u) == Lookup(g, tb, u)
  {
    hide TablesOk, Pow2, Lookup, Row, Present, UserBit;
    SetLeafTables(g, tb, t, e);
    var tb' := SetLeaf(g, tb, t, e);
    forall u: seq<nat> | |u| == g.n && u != t ensures Lookup(g, tb', u) == Lookup(g, tb, u) {
      SetLeafLookup(g, tb, t, e, u);
    }
    LeafReads(g, tb, t, e);
  }

  lemma LeafReads(g: Geo, tb: Tables, t: seq<nat>, e: nat)
    requires TablesOk(g, tb) && UserTuple(g, tb, t) && t[..g.n - 1] in tb.node
    requires t[g.n - 1] < |Row(tb, t[..g.n - 1])|
    ensures Lookup(g, SetLeaf(g, tb, t, e), t) == e
  {
    SetLeafRows(g, tb, t, e);
    TablesRoot(g, tb);
    hide TablesOk, Pow2;
  }

  lemma SetLeafTables(g: Geo, tb: Tables, t: seq<nat>, e: nat)
    requires TablesOk(g, tb) && UserTuple(g, tb, t) && t[..g.n - 1] in tb.node
    requires Present(e) ==> UserBit(e)
    ensures t[g.n - 1] < |Row(tb, t[..g.n - 1])|
    ensures var tb' := SetLeaf(g, tb, t, e);
            && TablesOk(g, tb') && tb'.node == tb.node && tb'.mem.Keys == tb.mem.Keys
            && tb'.kpt == tb.kpt && tb'.kernel == tb.kernel
  {
    SetLeafRows(g, tb, t, e);
    TablesRoot(g, tb);
    hide TablesOk, Pow2, EntryOk, NodeOk, Present, UserBit, Row, NoSharing;
    var tb' := SetLeaf(g, tb, t, e);
    assert RootOk(g, tb') && NodesOk(g, tb');
    assert NoSharing(tb') by { SameSharing(tb, tb'); }
    assert EntriesOk(g, tb') by {
      forall q, k: nat | q in tb'.node && k < |Row(tb', q)| ensures EntryOk(g, tb', q, k) {
        SetLeafEntry(g, tb, t, e, q, k);
      }
    }
    Conclude(g, tb');
  }

  lemma SameSharing(tb: Tables, tb': Tables)
    requires NoSharing(tb) && tb'.node == tb.node
    ensures NoSharing(tb')
  {
  }

  lemma MissingRow(tb: Tables, tb': Tables, p: seq<nat>)
    requires tb'.node == tb.node && p !in tb.node
    ensures Row(tb, p) == Row(tb', p)
  {
  }

  lemma SetLeafLookup(g: Geo, tb: Tables, t: seq<nat>, e: nat, u: seq<nat>)
    requires TablesOk(g, tb) && UserTuple(g, tb, t) && t[..g.n - 1] in tb.node
    requires t[g.n - 1] < |Row(tb, t[..g.n - 1])| && |u| == g.n && u != t
    ensures Lookup(g, SetLeaf(g, tb, t, e), u) == Lookup(g, tb, u)
  {
    hide TablesOk, Pow2, NodeOk, Row, IsTuple;
    SetLeafRows(g, tb, t, e);
    if u[..g.n - 1] !in tb.node { MissingRow(tb, SetLeaf(g, tb, t, e), u[..g.n - 1]); }
    var (l, p) := (u[..g.n - 1], t[..g.n - 1]);
    assert u == l + [u[g.n - 1]] && t == p + [t[g.n - 1]];
  }
}
