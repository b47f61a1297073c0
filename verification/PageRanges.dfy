/** Mapping a range of pages: the stores of paging_map_range, and what they do to the flat maps. */
module PageRanges {
  import opened Words
  import opened Memory
  import opened Paging

  /** The arguments that paging_map_range accepts. */
  predicate RangeArgs(vaddr: u32, paddr: u32, endaddr: u32)
  {
    vaddr % PAGE_SIZE == 0 && paddr % PAGE_SIZE == 0 && endaddr % PAGE_SIZE == 0 && paddr <= endaddr
  }

  /** The flat map with `count` pages from page number vpage on, wrapping at 2^32, mapped to paddr onwards. */
  ghost function RangeMapped(f: FlatMap, vpage: nat, paddr: u32, count: nat, flags: nat): FlatMap
    requires paddr % PAGE_SIZE == 0 && paddr + PAGE_SIZE * count <= TWO32 && flags < PAGE_SIZE
  {
    seq(PAGES, page requires 0 <= page < PAGES =>
      if InRange(page, vpage, count) then PackedAddr(paddr + PAGE_SIZE * ((page - vpage) % PAGES), flags) else f[page])
  }

  predicate InRange(page: nat, vpage: nat, count: nat)
  {
    (page - vpage) % PAGES < count
  }

  /** A page-aligned address with flags in its low bits: by the packing laws, `a | flags`. */
  function PackedAddr(a: u32, flags: nat): u32
    requires a % PAGE_SIZE == 0 && flags < PAGE_SIZE
  {
    a + flags
  }

  lemma RangeStep(f: FlatMap, vpage: nat, paddr: u32, i: nat, flags: nat)
    requires paddr % PAGE_SIZE == 0 && paddr + PAGE_SIZE * (i + 1) <= TWO32 && flags < PAGE_SIZE
    ensures RangeMapped(f, vpage, paddr, i + 1, flags)
            == RangeMapped(f, vpage, paddr, i, flags)[RangePage(vpage, i) := RangeEntry(paddr, i, flags)]
  {
    var g, h := RangeMapped(f, vpage, paddr, i, flags), RangeMapped(f, vpage, paddr, i + 1, flags);
    forall page | 0 <= page < PAGES
      ensures h[page] == g[RangePage(vpage, i) := RangeEntry(paddr, i, flags)][page]
    {
      OffsetInRange(page, vpage, i);
    }
  }

  lemma OffsetInRange(page: nat, vpage: nat, i: nat)
    requires page < PAGES && i < PAGES
    ensures (page - vpage) % PAGES == i <==> page == (vpage + i) % PAGES
  {}

  /** The flat maps with a range of pages of one space mapped. */
  ghost function WithRange(m: map<u32, FlatMap>, v: u32, vpage: nat, paddr: u32, count: nat, flags: nat): map<u32, FlatMap>
    requires v in m && paddr % PAGE_SIZE == 0 && paddr + PAGE_SIZE * count <= TWO32 && flags < PAGE_SIZE
  {
    m[v := RangeMapped(m[v], vpage, paddr, count, flags)]
  }

  lemma RangeZero(f: FlatMap, vpage: nat, paddr: u32, flags: nat)
    requires paddr % PAGE_SIZE == 0 && flags < PAGE_SIZE
    ensures RangeMapped(f, vpage, paddr, 0, flags) == f
  {}

  lemma WholePages(paddr: u32, endaddr: u32)
    requires paddr % PAGE_SIZE == 0 && endaddr % PAGE_SIZE == 0 && paddr <= endaddr
    ensures paddr + PAGE_SIZE * ((endaddr - paddr) / PAGE_SIZE) == endaddr
  {}

  /** The virtual address of the i-th page of a range, wrapping at 2^32. */
  function RangeAddr(vaddr: u32, i: nat): u32
  {
    (vaddr + PAGE_SIZE * i) % TWO32
  }

  lemma NextPage(vaddr: u32, i: nat)
    requires vaddr % PAGE_SIZE == 0
    ensures RangeAddr(vaddr, i) % PAGE_SIZE == 0 && RangeAddr(vaddr, i) / PAGE_SIZE == RangePage(vaddr / PAGE_SIZE, i)
    ensures Plus(RangeAddr(vaddr, i), PAGE_SIZE) == RangeAddr(vaddr, i + 1)
  {
    var p := vaddr / PAGE_SIZE + i;
    PageWraps(p);
    PageWraps(p + 1);
    PageWraps(p % PAGES + 1);
    assert vaddr + PAGE_SIZE * i == PAGE_SIZE * p;
    assert vaddr + PAGE_SIZE * (i + 1) == PAGE_SIZE * (p + 1);
  }

  lemma PageWraps(p: nat)
    ensures (PAGE_SIZE * p) % TWO32 == PAGE_SIZE * (p % PAGES)
    ensures (p % PAGES + 1) % PAGES == (p + 1) % PAGES
  {
    var q, r := p / PAGES, p % PAGES;
    assert PAGE_SIZE * p == TWO32 * q + PAGE_SIZE * r;
  }

  lemma NextFrame(paddr: u32, i: nat)
    requires paddr % PAGE_SIZE == 0
    ensures (paddr + PAGE_SIZE * i) % PAGE_SIZE == 0
  {}

  // ---------- The stores ----------

  /** The i-th page of a range, and the entry stored for it. */
  function RangePage(vpage: nat, i: nat): (page: nat)
    ensures page < PAGES
  {
    (vpage + i) % PAGES
  }

  function RangeEntry(paddr: u32, i: nat, flags: nat): u32
    requires paddr % PAGE_SIZE == 0 && paddr + PAGE_SIZE * (i + 1) <= TWO32 && flags < PAGE_SIZE
  {
    NextFrame(paddr, i);
    PackedAddr(paddr + PAGE_SIZE * i, flags)
  }

  /** Memory after the first i stores of a range. */
  ghost function RangeStored(m: Mem, sp: Space, vpage: nat, paddr: u32, i: nat, flags: nat): Mem
    requires paddr % PAGE_SIZE == 0 && paddr + PAGE_SIZE * i <= TWO32 && flags < PAGE_SIZE
  {
    if i == 0 then m
    else
      var before := RangeStored(m, sp, vpage, paddr, i - 1, flags);
      WithEntry(before, sp, RangePage(vpage, i - 1), RangeEntry(paddr, i - 1, flags))
  }

  /** The stores keep the wiring, touch only tables of the space, and map exactly the pages of the range. */
  lemma {:induction false} RangeStoredKeeps(m: Mem, sp: Space, vpage: nat, paddr: u32, i: nat, flags: nat)
    requires paddr % PAGE_SIZE == 0 && paddr + PAGE_SIZE * i <= TWO32 && flags < PAGE_SIZE
    requires Wired(m, sp) && Distinct(sp)
    ensures var n := RangeStored(m, sp, vpage, paddr, i, flags);
            && Wired(n, sp) && TablesOnly(m, n, sp)
            && Flat(n, sp) == RangeMapped(Flat(m, sp), vpage, paddr, i, flags)
  {
    if i == 0 {
      RangeZero(Flat(m, sp), vpage, paddr, flags);
    } else {
      RangeStoredKeeps(m, sp, vpage, paddr, i - 1, flags);
      PageMapped(m, RangeStored(m, sp, vpage, paddr, i - 1, flags), sp, vpage, paddr, i - 1, flags);
    }
  }

  lemma PageMapped(m0: Mem, m: Mem, sp: Space, vpage: nat, paddr: u32, i: nat, flags: nat)
    requires paddr % PAGE_SIZE == 0 && paddr + PAGE_SIZE * (i + 1) <= TWO32 && flags < PAGE_SIZE
    requires Wired(m, sp) && Distinct(sp) && TablesOnly(m0, m, sp)
    requires Flat(m, sp) == RangeMapped(Flat(m0, sp), vpage, paddr, i, flags)
    ensures var n := WithEntry(m, sp, RangePage(vpage, i), RangeEntry(paddr, i, flags));
            && Wired(n, sp) && TablesOnly(m0, n, sp)
            && Flat(n, sp) == RangeMapped(Flat(m0, sp), vpage, paddr, i + 1, flags)
  {
    var page, val := RangePage(vpage, i), RangeEntry(paddr, i, flags);
    RangeStep(Flat(m0, sp), vpage, paddr, i, flags);
    StoreEntry(m, sp, page, val);
    EntryInTables(m0, m, sp, page, val);
  }

  /** The loop at page i: the two addresses, and memory after the stores so far. */
  ghost predicate AtPage(m: Mem, n: Mem, sp: Space, vaddr: u32, paddr: u32, i: nat, flags: nat, va: u32, pa: nat)
    requires paddr % PAGE_SIZE == 0 && paddr + PAGE_SIZE * i <= TWO32 && flags < PAGE_SIZE
  {
    && va == RangeAddr(vaddr, i) && pa == paddr + PAGE_SIZE * i
    && Wired(n, sp) && n == RangeStored(m, sp, vaddr / PAGE_SIZE, paddr, i, flags)
  }

  lemma NextStore(m: Mem, n: Mem, sp: Space, vaddr: u32, paddr: u32, i: nat, flags: nat, va: u32, pa: nat)
    requires vaddr % PAGE_SIZE == 0 && paddr % PAGE_SIZE == 0 && paddr + PAGE_SIZE * (i + 1) <= TWO32
    requires flags < PAGE_SIZE && Distinct(sp) && AtPage(m, n, sp, vaddr, paddr, i, flags, va, pa)
    ensures va % PAGE_SIZE == 0 && pa < TWO32 && pa % PAGE_SIZE == 0 && Wired(n, sp)
    ensures var o := WithEntry(n, sp, va / PAGE_SIZE, PackedAddr(pa, flags));
            AtPage(m, o, sp, vaddr, paddr, i + 1, flags, Plus(va, PAGE_SIZE), pa + PAGE_SIZE)
  {
    NextPage(vaddr, i);
    NextFrame(paddr, i);
    StoreEntry(n, sp, va / PAGE_SIZE, PackedAddr(pa, flags));
  }

  /** The kernel state after the first i stores of a range in a live space. */
  ghost function RangeUpTo(k: Kern, v: u32, vpage: nat, paddr: u32, i: nat, flags: nat): Kern
    requires v in k.spaces
    requires paddr % PAGE_SIZE == 0 && paddr + PAGE_SIZE * i <= TWO32 && flags < PAGE_SIZE
  {
    k.(mem := RangeStored(k.mem, k.spaces[v], vpage, paddr, i, flags))
  }

  /** paging_map_range on a live space: all stores of the range, or none when its arguments are refused. */
  ghost function AfterMapRange(k: Kern, v: u32, vaddr: u32, paddr: u32, endaddr: u32, flags: nat): Kern
    requires v in k.spaces && flags < PAGE_SIZE
  {
    if RangeArgs(vaddr, paddr, endaddr) then
      WholePages(paddr, endaddr);
      RangeUpTo(k, v, vaddr / PAGE_SIZE, paddr, (endaddr - paddr) / PAGE_SIZE, flags)
    else k
  }

  /** What paging_map_range does to the flat maps. */
  ghost function WithMapRange(m: map<u32, FlatMap>, v: u32, vaddr: u32, paddr: u32, endaddr: u32, flags: nat):
    map<u32, FlatMap>
    requires v in m && flags < PAGE_SIZE
  {
    if RangeArgs(vaddr, paddr, endaddr) then
      WholePages(paddr, endaddr);
      WithRange(m, v, vaddr / PAGE_SIZE, paddr, (endaddr - paddr) / PAGE_SIZE, flags)
    else m
  }

  /** No other space sees a range mapped in one. */
  lemma MapRangeKeeps(k: Kern, v: u32, vaddr: u32, paddr: u32, endaddr: u32, flags: nat)
    requires Inv(k) && v in k.spaces && flags < PAGE_SIZE
    ensures Inv(AfterMapRange(k, v, vaddr, paddr, endaddr, flags))
    ensures Flats(AfterMapRange(k, v, vaddr, paddr, endaddr, flags)) ==
            WithMapRange(Flats(k), v, vaddr, paddr, endaddr, flags)
  {
    if RangeArgs(vaddr, paddr, endaddr) {
      WholePages(paddr, endaddr);
      assert SpaceInv(k, v);
      SpaceDistinct(k, v);
      var vpage, n := vaddr / PAGE_SIZE, (endaddr - paddr) / PAGE_SIZE;
      RangeStoredKeeps(k.mem, k.spaces[v], vpage, paddr, n, flags);
      RewiredKeeps(k, v, RangeStored(k.mem, k.spaces[v], vpage, paddr, n, flags));
    }
  }
}
