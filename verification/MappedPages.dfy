/** The list of mapped pages a task keeps beside its page table (kernel/src/uproc.c):
    pgmap, pgunmap and delete_mapping keep it an exact image of the table. */
module MappedPages {
  import opened Wrappers
  import opened Powers
  import opened PageTable
  import opened AddressSpaces

  const PROT_NONE_FLAG: nat := 1
  const PROT_READ_BIT: nat := 2
  const PROT_WRITE_BIT: nat := 4

  datatype PageRec = PageRec(va: nat, pa: nat)

  /** convert_mmap_prot_to_vm_prot. */
  function ConvertProt(prot: nat): nat {
    (if (prot / PROT_READ_BIT) % 2 == 1 then 1 else 0) + if (prot / PROT_WRITE_BIT) % 2 == 1 then 2 else 0
  }

  /** The protection lets a program read or write. */
  predicate SomeAccess(prot: nat) {
    (prot / PROT_READ_BIT) % 2 == 1 || (prot / PROT_WRITE_BIT) % 2 == 1
  }

  /** The user's bits and the machine's, which differ in position, and no other bits. */
  lemma ConvertMeaning(prot: nat)
    ensures var vm := ConvertProt(prot);
            && vm < 4 && (vm % 2 == 1 <==> (prot / PROT_READ_BIT) % 2 == 1) && ((vm / 2) % 2 == 1 <==> (prot / PROT_WRITE_BIT) % 2 == 1)
            && (vm != PROT_NONE <==> SomeAccess(prot))
  {
  }

  // ----- the list as a value

  /** The frame the list records for a page: its first entry. */
  function Find(pages: seq<PageRec>, va: nat): Option<nat> {
    if pages == [] then None
    else if pages[0].va == va then Some(pages[0].pa)
    else Find(pages[1..], va)
  }

  /** The list without its first entry for a page. */
  function Remove(pages: seq<PageRec>, va: nat): seq<PageRec> {
    if pages == [] then []
    else if pages[0].va == va then pages[1..]
    else [pages[0]] + Remove(pages[1..], va)
  }

  /** The list without the pages of a range. */
  function Without(pages: seq<PageRec>, lo: nat, hi: nat): seq<PageRec> {
    if pages == [] then []
    else if lo <= pages[0].va < hi then Without(pages[1..], lo, hi)
    else [pages[0]] + Without(pages[1..], lo, hi)
  }

  ghost predicate OncePerPage(pages: seq<PageRec>) {
    forall i, j :: 0 <= i < j < |pages| ==> pages[i].va != pages[j].va
  }

  lemma {:induction false} FindSome(pages: seq<PageRec>, va: nat)
    ensures Find(pages, va).Some? <==> exists i :: 0 <= i < |pages| && pages[i].va == va
    decreases |pages|
  {
    if pages != [] && pages[0].va != va {
      FindSome(pages[1..], va);
      forall i | 0 < i < |pages| ensures pages[i] == pages[1..][i - 1] {}
    }
  }

  /** Removing one page changes what the list says about that page only. */
  lemma {:induction false} FindAfterRemove(pages: seq<PageRec>, va: nat, b: nat)
    requires OncePerPage(pages)
    ensures Find(Remove(pages, va), b) == if b == va then None else Find(pages, b)
    decreases |pages|
  {
    if pages != [] {
      TailOncePerPage(pages);
      if pages[0].va == va {
        FindSome(pages[1..], va);
      } else {
        FindAfterRemove(pages[1..], va, b);
      }
    }
  }

  lemma TailOncePerPage(pages: seq<PageRec>)
    requires OncePerPage(pages) && pages != []
    ensures OncePerPage(pages[1..]) && forall i :: 0 <= i < |pages| - 1 ==> pages[1..][i].va != pages[0].va
  {
  }

  lemma {:induction false} RemoveKeeps(pages: seq<PageRec>, va: nat)
    ensures forall p :: p in Remove(pages, va) ==> p in pages
    ensures OncePerPage(pages) ==> OncePerPage(Remove(pages, va))
    decreases |pages|
  {
    if pages != [] {
      RemoveKeeps(pages[1..], va);
      if pages[0].va != va && OncePerPage(pages) {
        TailOncePerPage(pages);
        var rest := Remove(pages[1..], va);
        forall j | 0 <= j < |rest| ensures rest[j].va != pages[0].va { assert rest[j] in pages[1..]; }
      }
    }
  }

  /** Where no two entries share a page and the range holds one page, removing that
      page empties the range. */
  lemma {:induction false} RemoveIsWithout(pages: seq<PageRec>, lo: nat, hi: nat)
    requires lo < hi && OncePerPage(pages)
    requires forall p :: p in pages && lo <= p.va < hi ==> p.va == lo
    ensures Without(pages, lo, hi) == Remove(pages, lo)
    decreases |pages|
  {
    if pages != [] {
      TailOncePerPage(pages);
      assert pages[0] in pages;
      RemoveIsWithout(pages[1..], lo, hi);
      if pages[0].va == lo { RemoveNothing(pages[1..], lo); }
    }
  }

  lemma {:induction false} RemoveNothing(pages: seq<PageRec>, va: nat)
    requires forall i :: 0 <= i < |pages| ==> pages[i].va != va
    ensures Remove(pages, va) == pages && Find(pages, va) == None
    decreases |pages|
  {
    if pages != [] { RemoveNothing(pages[1..], va); }
  }

  lemma {:induction false} WithoutTwice(pages: seq<PageRec>, a: nat, b: nat, c: nat)
    requires a <= b <= c
    ensures Without(Without(pages, a, b), b, c) == Without(pages, a, c)
    decreases |pages|
  {
    if pages != [] {
      WithoutTwice(pages[1..], a, b, c);
      var head := [pages[0]] + Without(pages[1..], a, b);
      assert head[1..] == Without(pages[1..], a, b);
    }
  }

  lemma {:induction false} WithoutNothing(pages: seq<PageRec>, a: nat)
    ensures Without(pages, a, a) == pages
    decreases |pages|
  {
    if pages != [] { WithoutNothing(pages[1..], a); }
  }

  /** A range removal removes exactly the range. */
  lemma {:induction false} FindWithout(pages: seq<PageRec>, lo: nat, hi: nat, b: nat)
    ensures Find(Without(pages, lo, hi), b) == if lo <= b < hi then None else Find(pages, b)
    decreases |pages|
  {
    if pages != [] {
      FindWithout(pages[1..], lo, hi, b);
      var head := [pages[0]] + Without(pages[1..], lo, hi);
      assert head[1..] == Without(pages[1..], lo, hi);
    }
  }

  lemma {:induction false} RemoveAt(pages: seq<PageRec>, k: nat, va: nat)
    requires k < |pages| && pages[k].va == va && forall i :: 0 <= i < k ==> pages[i].va != va
    ensures Remove(pages, va) == pages[..k] + pages[k + 1..] && Find(pages, va) == Some(pages[k].pa)
    decreases k
  {
    if k > 0 {
      RemoveAt(pages[1..], k - 1, va);
      assert pages[..k] == [pages[0]] + pages[1..][..k - 1] && pages[1..][k..] == pages[k + 1..];
    }
  }

  // ----- the list and the page table

  ghost function Frame(g: Geo, e: nat): Option<nat> {
    if Present(e) then Some(Base(e, g.ps)) else None
  }

  /** Same pages, same frames, no page twice. */
  ghost predicate ImageOf(g: Geo, tb: Tables, lo: nat, hi: nat, pages: seq<PageRec>)
    requires g.n >= 1
  {
    && OncePerPage(pages) && (forall p :: p in pages ==> lo <= p.va < hi && Aligned(p.va, g.ps))
    && forall b: nat {:trigger Translate(g, tb, b)} :: lo <= b < hi && Aligned(b, g.ps) ==>
      Find(pages, b) == Frame(g, Translate(g, tb, b))
  }

  /** All translations but one page's are unchanged: the shape of map's contract. */
  ghost predicate OnlyPage(g: Geo, tb: Tables, tb': Tables, va: nat)
    requires g.n >= 1
  {
    forall b: nat {:trigger Translate(g, tb', b)} :: b < Limit(g) ==>
      OnPage(g, b, va) || Translate(g, tb', b) == Translate(g, tb, b)
  }

  lemma AlignedSamePage(g: Geo, a: nat, b: nat)
    requires Aligned(a, g.ps) && Aligned(b, g.ps) && OnPage(g, a, b)
    ensures a == b
  {
    MultipleOfAligned(a, g.ps);
    MultipleOfAligned(b, g.ps);
  }

  lemma MapKeepsImage(g: Geo, tb: Tables, tb': Tables, lo: nat, hi: nat, pages: seq<PageRec>, va: nat, pa: nat)
    requires GeoOk(g) && hi <= Limit(g) && ImageOf(g, tb, lo, hi, pages) && OnlyPage(g, tb, tb', va)
    requires lo <= va < hi && Aligned(va, g.ps)
    requires !Present(Translate(g, tb, va)) && Present(Translate(g, tb', va)) && Base(Translate(g, tb', va), g.ps) == pa
    ensures ImageOf(g, tb', lo, hi, [PageRec(va, pa)] + pages)
  {
    hide Pow2, Aligned, Present, Base, Limit, Translate, OnPage;
    var pages' := [PageRec(va, pa)] + pages;
    assert pages'[1..] == pages;
    assert Find(pages, va) == None;
    FindSome(pages, va);
    forall b: nat | lo <= b < hi && Aligned(b, g.ps)
      ensures Find(pages', b) == Frame(g, Translate(g, tb', b))
    {
      if OnPage(g, b, va) { AlignedSamePage(g, b, va); }
      assert Find(pages, b) == Frame(g, Translate(g, tb, b));
    }
  }

  lemma UnmapKeepsImage(g: Geo, tb: Tables, tb': Tables, lo: nat, hi: nat, pages: seq<PageRec>, va: nat)
    requires GeoOk(g) && hi <= Limit(g) && ImageOf(g, tb, lo, hi, pages) && OnlyPage(g, tb, tb', va)
    requires lo <= va < hi && Aligned(va, g.ps) && Translate(g, tb', va) == 0
    ensures ImageOf(g, tb', lo, hi, Remove(pages, va))
  {
    hide Pow2, Aligned, Base, Limit, Translate, OnPage, Find, Remove;
    RemoveKeeps(pages, va);
    forall b: nat | lo <= b < hi && Aligned(b, g.ps)
      ensures Find(Remove(pages, va), b) == Frame(g, Translate(g, tb', b))
    {
      FindAfterRemove(pages, va, b);
      if OnPage(g, b, va) { AlignedSamePage(g, b, va); }
      assert Find(pages, b) == Frame(g, Translate(g, tb, b));
    }
  }

  // ----- the objects

  class MPage {
    var va: nat
    var pa: nat
    var next: MPage?

    constructor (va: nat, pa: nat)
      ensures Value() == PageRec(va, pa) && next == null
    {
      this.va, this.pa, this.next := va, pa, null;
    }

    function Value(): PageRec
      reads this
    {
      PageRec(va, pa)
    }
  }

  class TaskPages {
    const space: AddressSpace
    var head: MPage?
    ghost var nodes: seq<MPage>
    ghost var pages: seq<PageRec>

    ghost function Node(i: int): MPage?
      reads this
    {
      if 0 <= i < |nodes| then nodes[i] else null
    }

    ghost predicate Linked()
      reads this, nodes
    {
      && head == Node(0) && |pages| == |nodes| && NoRepeats(nodes)
      && (forall i {:trigger nodes[i].Value()} {:trigger pages[i]} :: 0 <= i < |nodes| ==> nodes[i].Value() == pages[i])
      && (forall i {:trigger nodes[i].next} :: 0 <= i < |nodes| ==> nodes[i].next == Node(i + 1))
    }

    ghost predicate Image()
      reads this, space
    {
      GeoOk(space.g) && ImageOf(space.g, space.Tb(), space.areaStart, space.areaEnd, pages)
    }

    ghost predicate Valid()
      reads this, nodes, space
    {
      Linked() && space.Valid() && Image()
    }

    /** A new address space with no page mapped. */
    constructor (space: AddressSpace)
      requires space.Valid()
      requires forall b: nat {:trigger Translate(space.g, space.Tb(), b)} ::
        space.InArea(b) ==> !Present(Translate(space.g, space.Tb(), b))
      ensures Valid() && this.space == space && pages == [] && fresh(nodes)
    {
      hide Present, Translate, Pow2, TablesOk, Aligned;
      this.space := space;
      head, nodes, pages := null, [], [];
    }

    lemma At(k: nat)
      requires Linked() && k < |nodes|
      ensures nodes[k].next == Node(k + 1) && |pages| == |nodes| && pages[k] == nodes[k].Value()
    {
    }

    lemma Ends()
      requires Linked()
      ensures head == Node(0) && |pages| == |nodes|
    {
    }

    /** new_mapped_page, then insert_map_page. */
    method InsertMapPage(va: nat, pa: nat)
      requires Linked()
      modifies this`head, this`nodes, this`pages
      ensures Linked() && pages == [PageRec(va, pa)] + old(pages)
      ensures |nodes| == |old(nodes)| + 1 && fresh(nodes[0]) && nodes[1..] == old(nodes)
    {
      var pg := new MPage(va, pa);
      pg.next := head;
      head := pg;
      nodes := [pg] + nodes;
      pages := [PageRec(va, pa)] + pages;
    }

    /** find_mapped_page. */
    method FindMappedPage(va: nat) returns (r: MPage?)
      requires Linked()
      ensures r == null <==> Find(pages, va) == None
      ensures r != null ==> r in nodes && r.va == va && Find(pages, va) == Some(r.pa)
    {
      hide Linked, Find, Remove;
      Ends();
      var cur := head;
      ghost var k := 0;
      while cur != null
        invariant 0 <= k <= |nodes| && cur == Node(k)
        invariant forall i :: 0 <= i < k ==> pages[i].va != va
        decreases |nodes| - k
      {
        At(k);
        if cur.va == va {
          RemoveAt(pages, k, va);
          return cur;
        }
        cur := cur.next;
        k := k + 1;
      }
      RemoveNothing(pages, va);
      r := null;
    }

    /** delete_map_page; found is false where it panics. */
    method DeleteMapPage(va: nat) returns (found: bool)
      requires Linked()
      modifies this`head, this`nodes, this`pages, nodes
      ensures Linked() && found == Find(old(pages), va).Some? && pages == Remove(old(pages), va)
      ensures forall n :: n in nodes ==> n in old(nodes)
    {
      hide Linked, Find, Remove;
      Ends();
      var cur := head;
      var prev: MPage? := null;
      ghost var k := 0;
      while cur != null
        invariant 0 <= k <= |nodes| && cur == Node(k) && prev == Node(k - 1)
        invariant forall i :: 0 <= i < k ==> pages[i].va != va
        decreases |nodes| - k
        modifies {}
      {
        At(k);
        if cur.va == va {
          RemoveAt(pages, k, va);
          break;
        }
        prev := cur;
        cur := cur.next;
        k := k + 1;
      }
      if cur == null {
        RemoveNothing(pages, va);
        return false;
      }
      Unlink(prev, cur, k);
      found := true;
    }

    method Unlink(prev: MPage?, cur: MPage, ghost k: nat)
      requires Linked() && k < |nodes| && cur == nodes[k] && prev == Node(k - 1)
      modifies this`head, this`nodes, this`pages, nodes
      ensures Linked() && k < |old(pages)| && pages == old(pages)[..k] + old(pages)[k + 1..]
      ensures nodes == old(nodes)[..k] + old(nodes)[k + 1..]
    {
      if prev == null {
        head := cur.next;
      } else {
        prev.next := cur.next;
      }
      nodes := nodes[..k] + nodes[k + 1..];
      pages := pages[..k] + pages[k + 1..];
    }

    predicate Admits(va: nat, pa: nat, prot: nat, listed: seq<PageRec>) {
      && space.InArea(va) && Aligned(va, space.g.ps) && Aligned(pa, space.g.ps)
      && (SomeAccess(prot) <==> Find(listed, va).None?)
    }

    /** pgmap: where every page asked for is there, it succeeds exactly for an aligned pair
        in the user area whose page is listed when no access is asked for, and not listed
        otherwise. On success list and table agree again exactly when the protection
        allows any access; if not, the call unmapped the page it has just listed. */
    method PgMap(va: nat, pa: nat, prot: nat, supply: seq<nat>) returns (r: Outcome, used: nat)
      requires Valid() && Supply(space.g, space.mem, supply)
      requires |supply| >= space.g.n - 1 || Find(pages, va).Some?
      modifies this`head, this`nodes, this`pages, space`mem, space`node, space`obtained
      ensures Linked() && space.Valid() && pages == [PageRec(va, pa)] + old(pages)
      ensures |nodes| == |old(nodes)| + 1 && fresh(nodes[0]) && nodes[1..] == old(nodes)
      ensures used <= |supply| && space.obtained == old(space.obtained) + supply[..used]
      ensures r == BadAddress <==> !space.InArea(va)
      ensures r == Misaligned <==> space.InArea(va) && !(Aligned(va, space.g.ps) && Aligned(pa, space.g.ps))
      ensures r == NoPage <==>
        && space.InArea(va) && Aligned(va, space.g.ps) && Aligned(pa, space.g.ps)
        && Short(supply, space.Needed(old(space.node), va))
      ensures r != NoPage ==> (r == Done <==> Admits(va, pa, prot, old(pages)))
      ensures r == Done ==> (Image() <==> SomeAccess(prot))
      ensures r == Done ==> OnlyPage(space.g, old(space.Tb()), space.Tb(), va)
      ensures r == Done && !SomeAccess(prot) ==> Translate(space.g, space.Tb(), va) == 0
      ensures r == Done && SomeAccess(prot) ==> var e := Translate(space.g, space.Tb(), va);
        && e % 2 == 1 && (e / 4) % 2 == 1 && ((e / 2) % 2 == 1 <==> (prot / PROT_WRITE_BIT) % 2 == 1) && Base(e, space.g.ps) == pa
    {
      hide Pow2, TablesOk, Aligned, Base, Translate, Supply, ConvertProt, Find, ImageOf, Linked, NoRepeats, Range, Entry, Short, AddressSpace.Needed;
      ghost var (tb, pages0) := (space.Tb(), pages);
      ConvertMeaning(prot);
      if Find(pages0, va).Some? {
        ListedIsMapped(space.g, tb, space.areaStart, space.areaEnd, pages0, va);
        MappedHasTable(space.g, tb, va);
      }
      InsertMapPage(va, pa);
      var vmProt := ConvertProt(prot);
      r, used := space.Map(va, pa, vmProt, supply);
      if space.InArea(va) && Aligned(va, space.g.ps) {
        ImageAt(space.g, tb, space.areaStart, space.areaEnd, pages0, va);
        if r == Done && vmProt == PROT_NONE {
          ImageBroken(space.g, space.Tb(), space.areaStart, space.areaEnd, pages0, va, pa);
        } else if r == Done {
          MapKeepsImage(space.g, tb, space.Tb(), space.areaStart, space.areaEnd, pages0, va, pa);
        }
      }
    }

    /** pgunmap; found is false where it panics. */
    method PgUnmap(va: nat) returns (found: bool)
      requires Valid()
      modifies this`head, this`nodes, this`pages, nodes, space`mem, space`node, space`obtained
      ensures Valid() && found == Find(old(pages), va).Some? && pages == Remove(old(pages), va)
      ensures space.obtained == old(space.obtained) && forall n :: n in nodes ==> n in old(nodes)
      ensures found ==> OnlyPage(space.g, old(space.Tb()), space.Tb(), va)
      ensures !found ==> space.Tb() == old(space.Tb())
    {
      hide Pow2, TablesOk, Aligned, Present, Base, Translate, Find, ImageOf, Linked, NoRepeats, Range, Entry, Remove;
      ghost var (tb, pages0) := (space.Tb(), pages);
      found := DeleteMapPage(va);
      if !found {
        MissingRemove(pages0, va);
        return;
      }
      ListedIsMapped(space.g, tb, space.areaStart, space.areaEnd, pages0, va);
      ZeroAligned(space.g.ps);
      MappedHasTable(space.g, tb, va);
      var r, used := space.Map(va, 0, PROT_NONE, []);
      UnmapKeepsImage(space.g, tb, space.Tb(), space.areaStart, space.areaEnd, pages0, va);
    }

    /** delete_mapping: removes exactly the listed pages of the range, in the list and in
        the table. */
    method DeleteMapping(startAddr: nat, endAddr: nat)
      requires Valid() && Aligned(startAddr, space.g.ps)
      modifies this`head, this`nodes, this`pages, nodes, space`mem, space`node, space`obtained
      ensures Valid() && pages == Without(old(pages), startAddr, endAddr)
      ensures space.obtained == old(space.obtained)
      ensures SameOutside(space.g, old(space.Tb()), space.Tb(), startAddr, endAddr)
    {
      hide Pow2, TablesOk, Aligned, Present, Base, Translate, Find, ImageOf, Linked, NoRepeats, Range, Entry, Without, Remove, OnlyPage;
      ghost var (tb0, pages0) := (space.Tb(), pages);
      var cur := startAddr;
      WithoutNothing(pages0, startAddr);
      PageSize(space.g);
      while cur < endAddr
        invariant Valid() && startAddr <= cur && Aligned(cur, space.g.ps)
        invariant cur < endAddr + Pow2(space.g.ps) || cur == startAddr
        invariant pages == Without(pages0, startAddr, cur)
        invariant space.obtained == old(space.obtained)
        invariant forall n :: n in nodes ==> n in old(nodes)
        invariant SameOutside(space.g, tb0, space.Tb(), startAddr, cur)
      {
        ghost var (tb, before) := (space.Tb(), pages);
        var pg := FindMappedPage(cur);
        if pg != null {
          forall i | 0 <= i < |nodes| ensures nodes[i] in old(nodes) {}
          var found := PgUnmap(cur);
        } else {
          MissingRemove(before, cur);
        }
        OneMorePage(space.g, tb, space.areaStart, space.areaEnd, pages0, before, startAddr, cur);
        if pg != null { OutsideStep(space.g, tb0, tb, space.Tb(), startAddr, cur); }
        else { OutsideWider(space.g, tb0, tb, startAddr, cur); }
        AlignedStep(space.g, cur);
        cur := cur + Pow2(space.g.ps);
      }
      ListedAligned(space.g, tb0, space.areaStart, space.areaEnd, pages0);
      LastPartPage(space.g, pages0, startAddr, endAddr, cur);
      OutsideExact(space.g, tb0, space.Tb(), startAddr, endAddr, cur);
    }
  }

  /** A run on which list and table part: the first page of the user area is mapped for
      reading, and pgmap is then called on it again with the constant for no access. Both
      calls succeed; the page is listed twice and translates to nothing. */
  method NoAccessRun(tp: TaskPages, supply: seq<nat>) returns (first: Outcome, second: Outcome)
    requires tp.Valid() && tp.pages == [] && Supply(tp.space.g, tp.space.mem, supply) && 0 !in supply
    requires |supply| >= tp.space.g.n - 1
    requires tp.space.areaStart < tp.space.areaEnd && Aligned(tp.space.areaStart, tp.space.g.ps)
    modifies tp, tp.space
    ensures first == second == Done && !tp.Image()
    ensures var va := tp.space.areaStart;
            tp.pages == [PageRec(va, 0), PageRec(va, 0)] && Translate(tp.space.g, tp.space.Tb(), va) == 0
  {
    hide Pow2, TablesOk, Aligned, Present, Base, Translate, Supply, ImageOf, Range, Entry;
    var va := tp.space.areaStart;
    var used;
    ZeroAligned(tp.space.g.ps);
    first, used := tp.PgMap(va, 0, PROT_READ_BIT, supply);
    assert tp.pages == [PageRec(va, 0)];
    NoSupply(tp.space.g, tp.space.mem);
    second, used := tp.PgMap(va, 0, PROT_NONE_FLAG, []);
  }

  lemma NoSupply(g: Geo, mem: map<nat, seq<nat>>)
    ensures Supply(g, mem, [])
  {
  }

  /** Pages outside the range translate as before. */
  ghost predicate SameOutside(g: Geo, tb: Tables, tb': Tables, lo: nat, hi: nat)
    requires g.n >= 1
  {
    forall b: nat {:trigger Translate(g, tb', b)} :: b < Limit(g) && Aligned(b, g.ps) && !(lo <= b < hi) ==>
      Translate(g, tb', b) == Translate(g, tb, b)
  }

  lemma PageSize(g: Geo)
    ensures Pow2(g.ps) >= 1
  {
  }

  lemma AlignedStep(g: Geo, cur: nat)
    requires Aligned(cur, g.ps)
    ensures Aligned(cur + Pow2(g.ps), g.ps)
  {
    AlignedPow2(g.ps, g.ps);
    AlignedSum(cur, Pow2(g.ps), g.ps);
  }

  lemma OneMorePage(g: Geo, tb: Tables, lo: nat, hi: nat, pages0: seq<PageRec>, pages: seq<PageRec>, a: nat, cur: nat)
    requires GeoOk(g) && ImageOf(g, tb, lo, hi, pages) && pages == Without(pages0, a, cur) && a <= cur && Aligned(cur, g.ps)
    ensures Remove(pages, cur) == Without(pages0, a, cur + Pow2(g.ps))
  {
    hide Pow2, Aligned, Translate, Without, Remove, Find;
    forall p | p in pages && cur <= p.va < cur + Pow2(g.ps) ensures p.va == cur {
      if p.va != cur { GridStep(cur, p.va, g.ps); }
    }
    PageSize(g);
    RemoveIsWithout(pages, cur, cur + Pow2(g.ps));
    WithoutTwice(pages0, a, cur, cur + Pow2(g.ps));
  }

  lemma OutsideStep(g: Geo, tb0: Tables, tb: Tables, tb': Tables, lo: nat, cur: nat)
    requires GeoOk(g) && SameOutside(g, tb0, tb, lo, cur) && OnlyPage(g, tb, tb', cur) && lo <= cur && Aligned(cur, g.ps)
    ensures SameOutside(g, tb0, tb', lo, cur + Pow2(g.ps))
  {
    hide Pow2, Aligned, Translate, OnPage, Limit;
    PageSize(g);
    forall b: nat | b < Limit(g) && Aligned(b, g.ps) && !(lo <= b < cur + Pow2(g.ps))
      ensures Translate(g, tb', b) == Translate(g, tb0, b)
    {
      if OnPage(g, b, cur) { AlignedSamePage(g, b, cur); }
      assert Translate(g, tb', b) == Translate(g, tb, b);
    }
  }

  lemma OutsideWider(g: Geo, tb0: Tables, tb: Tables, lo: nat, cur: nat)
    requires g.n >= 1 && SameOutside(g, tb0, tb, lo, cur)
    ensures SameOutside(g, tb0, tb, lo, cur + Pow2(g.ps))
  {
    hide Aligned, Translate, Limit, Pow2;
    PageSize(g);
  }

  /** The walk may stop inside the last page: there is no page address after it. */
  predicate Stopped(g: Geo, lo: nat, hi: nat, last: nat) {
    Aligned(last, g.ps) && (if last == lo then hi <= lo else hi <= last < hi + Pow2(g.ps))
  }

  lemma OutsideExact(g: Geo, tb0: Tables, tb: Tables, lo: nat, hi: nat, last: nat)
    requires g.n >= 1 && SameOutside(g, tb0, tb, lo, last) && Stopped(g, lo, hi, last)
    ensures SameOutside(g, tb0, tb, lo, hi)
  {
    hide Pow2, Aligned, Translate, Limit;
    forall b: nat | b < Limit(g) && Aligned(b, g.ps) && !(lo <= b < hi)
      ensures Translate(g, tb, b) == Translate(g, tb0, b)
    {
      if lo <= b < last { GridStep(b, last, g.ps); }
    }
  }

  lemma ListedAligned(g: Geo, tb: Tables, lo: nat, hi: nat, pages: seq<PageRec>)
    requires GeoOk(g) && ImageOf(g, tb, lo, hi, pages)
    ensures forall p :: p in pages ==> Aligned(p.va, g.ps)
  {
    hide Translate, Find, Aligned;
  }

  lemma {:induction false} LastPartPage(g: Geo, pages: seq<PageRec>, lo: nat, hi: nat, last: nat)
    requires (forall p :: p in pages ==> Aligned(p.va, g.ps)) && Stopped(g, lo, hi, last)
    ensures Without(pages, lo, last) == Without(pages, lo, hi)
    decreases |pages|
  {
    hide Pow2, Aligned;
    if pages != [] {
      assert pages[0] in pages;
      LastPartPage(g, pages[1..], lo, hi, last);
      if lo <= pages[0].va < last { GridStep(pages[0].va, last, g.ps); }
    }
  }

  lemma ImageAt(g: Geo, tb: Tables, lo: nat, hi: nat, pages: seq<PageRec>, va: nat)
    requires GeoOk(g) && ImageOf(g, tb, lo, hi, pages) && lo <= va < hi && Aligned(va, g.ps)
    ensures Find(pages, va) == Frame(g, Translate(g, tb, va))
    ensures Find(pages, va) == None <==> !Present(Translate(g, tb, va))
  {
  }

  lemma ImageBroken(g: Geo, tb: Tables, lo: nat, hi: nat, pages: seq<PageRec>, va: nat, pa: nat)
    requires GeoOk(g) && lo <= va < hi && Aligned(va, g.ps) && Translate(g, tb, va) == 0
    ensures !ImageOf(g, tb, lo, hi, [PageRec(va, pa)] + pages)
  {
    hide Translate, Pow2, Aligned;
    if ImageOf(g, tb, lo, hi, [PageRec(va, pa)] + pages) {
      ImageAt(g, tb, lo, hi, [PageRec(va, pa)] + pages, va);
    }
  }

  lemma MissingRemove(pages: seq<PageRec>, va: nat)
    requires Find(pages, va) == None
    ensures Remove(pages, va) == pages
  {
    FindSome(pages, va);
    RemoveNothing(pages, va);
  }

  lemma ListedIsMapped(g: Geo, tb: Tables, lo: nat, hi: nat, pages: seq<PageRec>, va: nat)
    requires GeoOk(g) && ImageOf(g, tb, lo, hi, pages) && Find(pages, va).Some?
    ensures lo <= va < hi && Aligned(va, g.ps) && Present(Translate(g, tb, va))
  {
    hide Find, Present, Translate, Pow2, Aligned;
    FindSome(pages, va);
    var i :| 0 <= i < |pages| && pages[i].va == va;
    assert pages[i] in pages;
    ImageAt(g, tb, lo, hi, pages, va);
  }
}
