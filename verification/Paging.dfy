/**
  Two-level page tables as values: what it means that a table built from heap blocks and packed
  pointers represents a flat map from page numbers to entries, and what each operation does to it.
 */
module Paging {
  import opened Words
  import opened HeapTable
  import opened Memory

  const ENTRIES := 1024
  const PAGES := 0x10_0000

  const PRESENT := 1
  const WRITE := 2
  const USER := 4

  // ---------- The flat map a space represents ----------

  /** An address space is made of this many heap blocks: ... */
  const BLOCKS := 1027

  /** ... its structure, its page directory descriptor, its directory, and then its page tables. */
  const VSPACE := 0
  const DESCRIPTOR := 1
  const DIRECTORY := 2
  const TABLES := 3

  /** The page frames of those blocks. */
  type Space = sp: seq<Frame> | |sp| == BLOCKS ghost witness seq(BLOCKS, _ => 0)

  function DirEntry(m: Mem, sp: Space, i: nat): u32
    requires i < ENTRIES
  {
    Word(m, sp[DIRECTORY], i)
  }

  /** Following the packed pointers from the space's structure reaches the blocks of its layout. */
  ghost predicate Wired(m: Mem, sp: Space)
  {
    && Word(m, sp[VSPACE], 0) == Addr(sp[DESCRIPTOR])
    && Word(m, sp[DESCRIPTOR], 0) == Addr(sp[DIRECTORY])
    && forall i :: 0 <= i < ENTRIES ==> FrameOf(DirEntry(m, sp, i)) == sp[TABLES + i]
  }

  /** The frame of the table that holds the entry of a page. */
  function TableOf(sp: Space, page: nat): Frame
    requires page < PAGES
  {
    sp[TABLES + page / ENTRIES]
  }

  function Entry(m: Mem, sp: Space, page: nat): u32
    requires page < PAGES
  {
    Word(m, TableOf(sp, page), page % ENTRIES)
  }

  function WithEntry(m: Mem, sp: Space, page: nat, val: u32): Mem
    requires page < PAGES
  {
    SetWord(m, TableOf(sp, page), page % ENTRIES, val)
  }

  type FlatMap = f: seq<u32> | |f| == PAGES ghost witness seq(PAGES, _ => 0)

  ghost function Flat(m: Mem, sp: Space): FlatMap
  {
    seq(PAGES, page requires 0 <= page < PAGES => Entry(m, sp, page))
  }

  /** Every page maps to itself with the creation flags. */
  ghost function Identity(flags: byte): FlatMap
  {
    seq(PAGES, page requires 0 <= page < PAGES => IdentityEntry(page, flags))
  }

  /** The page's address with the flags in its low bits: by the packing laws, `address | flags`. */
  function IdentityEntry(page: nat, flags: byte): u32
    requires page < PAGES
  {
    PAGE_SIZE * page + flags
  }

  /**
    That address is the one the processor's two-level walk finds: bits 22 to 31 of the address pick
    a directory entry, bits 12 to 21 an entry of the table it points to, each a word of four bytes
    from low to high, and the page's own twelve bits are added to the frame's address.
   */
  lemma HardwareWalk(m: Mem, sp: Space, a: u32)
    requires Wired(m, sp)
    ensures var d := 4096 * sp[2] + 4 * (a / 0x40_0000);
            var pde := (m[d] as int) + 256 * (m[d + 1] as int)
                       + 0x1_0000 * (m[d + 2] as int) + 0x100_0000 * (m[d + 3] as int);
            var t := pde / 4096 * 4096 + 4 * (a / 4096 % 1024);
            var pte := (m[t] as int) + 256 * (m[t + 1] as int)
                       + 0x1_0000 * (m[t + 2] as int) + 0x100_0000 * (m[t + 3] as int);
            Phys(Flat(m, sp), a) == pte / 4096 * 4096 + a % 4096
  {
    var page := a / PAGE_SIZE;
    assert page / ENTRIES == a / 0x40_0000;
    assert FrameOf(DirEntry(m, sp, page / ENTRIES)) == sp[TABLES + page / ENTRIES];
  }

  /** The physical address an address translates to. */
  function Phys(f: FlatMap, a: u32): u32
  {
    Addr(FrameOf(f[a / PAGE_SIZE])) + a % PAGE_SIZE
  }

  /** Every address translates to itself. */
  ghost predicate IdentitySpace(f: FlatMap)
  {
    forall a: u32 :: Phys(f, a) == a
  }

  /** Every entry is the page's own address or-ed with the flags. */
  ghost predicate OrEntries(f: FlatMap, flags: byte)
  {
    forall page :: 0 <= page < 0x10_0000 ==> f[page] == Or(4096 * page, flags)
  }

  /** So every address translates to itself, and the low bits of every entry are the flags. */
  lemma IdentityIs(flags: byte)
    ensures IdentitySpace(Identity(flags)) && OrEntries(Identity(flags), flags)
  {
    var f := Identity(flags);
    forall a: u32
      ensures Phys(f, a) == a
    {
      FrameOfPacked(Addr(FrameOf(a)), flags);
    }
    forall page | 0 <= page < 0x10_0000
      ensures f[page] == Or(4096 * page, flags)
    {
      OrFlags(4096 * page, flags);
    }
  }

  lemma FrameOfPacked(x: u32, flags: nat)
    requires x % PAGE_SIZE == 0 && flags < PAGE_SIZE && x + flags < TWO32
    ensures Addr(FrameOf(x + flags)) == x && (x + flags) % PAGE_SIZE == flags
  {}

  // ---------- Stores and other changes to memory ----------

  ghost predicate Distinct(fs: seq<Frame>)
  {
    forall r, q :: 0 <= r < |fs| && 0 <= q < |fs| && fs[r] == fs[q] ==> r == q
  }

  /** Storing into an entry changes that entry of the flat map and nothing else. */
  lemma StoreEntry(m: Mem, sp: Space, page: nat, val: u32)
    requires Wired(m, sp) && Distinct(sp) && page < PAGES
    ensures Wired(WithEntry(m, sp, page, val), sp)
    ensures Flat(WithEntry(m, sp, page, val), sp) == Flat(m, sp)[page := val]
  {
    var n := WithEntry(m, sp, page, val);
    forall other | 0 <= other < PAGES
      ensures Entry(n, sp, other) == Flat(m, sp)[page := val][other]
    {
      WordSet(m, TableOf(sp, page), page % ENTRIES, val, TableOf(sp, other), other % ENTRIES);
      assert TableOf(sp, page) == TableOf(sp, other) ==> page / ENTRIES == other / ENTRIES;
    }
    SetWordOutside(m, TableOf(sp, page), page % ENTRIES, val);
    WiringFrame(m, n, sp);
  }

  /** The wiring depends only on the structure, descriptor and directory pages. */
  lemma WiringFrame(m: Mem, n: Mem, sp: Space)
    requires Wired(m, sp)
    requires Page(m, sp[VSPACE]) == Page(n, sp[VSPACE])
    requires Page(m, sp[DESCRIPTOR]) == Page(n, sp[DESCRIPTOR])
    requires Page(m, sp[DIRECTORY]) == Page(n, sp[DIRECTORY])
    ensures Wired(n, sp)
  {
    WordFrame(m, n, sp[VSPACE], 0);
    WordFrame(m, n, sp[DESCRIPTOR], 0);
    forall i | 0 <= i < ENTRIES
      ensures DirEntry(n, sp, i) == DirEntry(m, sp, i)
    {
      WordFrame(m, n, sp[DIRECTORY], i);
    }
  }

  /** A space whose blocks keep their contents keeps its wiring and its flat map. */
  lemma SpaceFrame(m: Mem, n: Mem, sp: Space)
    requires Wired(m, sp)
    requires forall r :: 0 <= r < BLOCKS ==> Page(m, sp[r]) == Page(n, sp[r])
    ensures Wired(n, sp) && Flat(n, sp) == Flat(m, sp)
  {
    WiringFrame(m, n, sp);
    forall page | 0 <= page < PAGES
      ensures Entry(n, sp, page) == Entry(m, sp, page)
    {
      WordFrame(m, n, TableOf(sp, page), page % ENTRIES);
    }
  }

  // ---------- Kernel states ----------

  /**
    The kernel's memory as a value: the heap table with the allocations it encodes, physical memory,
    and the live address spaces by the address of their structure. `owner` names the space and the
    role of every page a space is made of, which makes all those pages pairwise different.
   */
  datatype Kern = Kern(
    base: u32, table: Table, live: Runs, lost: set<nat>,
    mem: Mem, spaces: map<u32, Space>, owner: map<Frame, (u32, nat)>)

  /** The page is a live one-block run of the heap. */
  ghost predicate OneBlock(k: Kern, f: Frame)
  {
    FrameOf(k.base) <= f &&
    var b := f - FrameOf(k.base);
    b in k.live && k.live[b] == 1
  }

  ghost predicate Owned(k: Kern, v: u32, r: nat)
    requires v in k.spaces && r < BLOCKS
  {
    var f := k.spaces[v][r];
    OneBlock(k, f) && f in k.owner && k.owner[f] == (v, r)
  }

  ghost predicate SpaceInv(k: Kern, v: u32)
    requires v in k.spaces
  {
    && Addr(k.spaces[v][VSPACE]) == v
    && Wired(k.mem, k.spaces[v])
    && forall r :: 0 <= r < BLOCKS ==> Owned(k, v, r)
  }

  ghost predicate HeapInv(k: Kern)
  {
    && 0 < k.base && k.base % BLOCK_SIZE == 0 && k.base + BLOCK_SIZE * |k.table| <= TWO32
    && Encodes(k.table, k.live, k.lost)
  }

  ghost predicate Inv(k: Kern)
  {
    HeapInv(k) && forall v :: v in k.spaces ==> SpaceInv(k, v)
  }

  /** The abstract state: one flat map for each live space. */
  ghost function Flats(k: Kern): map<u32, FlatMap>
  {
    map v | v in k.spaces :: Flat(k.mem, k.spaces[v])
  }

  lemma SpaceDistinct(k: Kern, v: u32)
    requires Inv(k) && v in k.spaces
    ensures Distinct(k.spaces[v])
  {
    forall r, q | 0 <= r < BLOCKS && 0 <= q < BLOCKS && k.spaces[v][r] == k.spaces[v][q]
      ensures r == q
    {
      assert Owned(k, v, r) && Owned(k, v, q);
    }
  }

  /** No page belongs to two spaces. */
  lemma SpacesDisjoint(k: Kern, v: u32, w: u32)
    requires Inv(k) && v in k.spaces && w in k.spaces && v != w
    ensures forall r, q :: 0 <= r < BLOCKS && 0 <= q < BLOCKS ==> k.spaces[v][r] != k.spaces[w][q]
  {
    forall r, q | 0 <= r < BLOCKS && 0 <= q < BLOCKS
      ensures k.spaces[v][r] != k.spaces[w][q]
    {
      assert Owned(k, v, r) && Owned(k, w, q);
    }
  }

  // ---------- What each kind of change preserves ----------

  /** Only pages that hold tables of the space differ. */
  ghost predicate TablesOnly(m: Mem, n: Mem, sp: Space)
  {
    forall f: Frame :: f !in sp[TABLES..] ==> Page(n, f) == Page(m, f)
  }

  /** New contents for the tables of one space are seen by no other space. */
  lemma RewiredKeeps(k: Kern, v: u32, n: Mem)
    requires Inv(k) && v in k.spaces && TablesOnly(k.mem, n, k.spaces[v]) && Wired(n, k.spaces[v])
    ensures Inv(k.(mem := n))
    ensures Flats(k.(mem := n)) == Flats(k)[v := Flat(n, k.spaces[v])]
  {
    var k' := k.(mem := n);
    forall w | w in k.spaces
      ensures SpaceInv(k', w)
      ensures w != v ==> Flat(n, k.spaces[w]) == Flat(k.mem, k.spaces[w])
    {
      SameOwners(k, k', w);
      if w != v {
        RewiredUnseen(k, v, n, w);
        SpaceFrame(k.mem, n, k.spaces[w]);
      }
    }
    FlatsAre(k', Flats(k)[v := Flat(n, k.spaces[v])]);
  }

  lemma RewiredUnseen(k: Kern, v: u32, n: Mem, w: u32)
    requires Inv(k) && v in k.spaces && w in k.spaces && w != v && TablesOnly(k.mem, n, k.spaces[v])
    ensures forall r :: 0 <= r < BLOCKS ==> Page(k.mem, k.spaces[w][r]) == Page(n, k.spaces[w][r])
  {
    SpacesDisjoint(k, v, w);
    forall r | 0 <= r < BLOCKS
      ensures k.spaces[w][r] !in k.spaces[v][TABLES..]
    {}
  }

  lemma FlatsAre(k: Kern, m: map<u32, FlatMap>)
    requires m.Keys == k.spaces.Keys && forall v :: v in m ==> m[v] == Flat(k.mem, k.spaces[v])
    ensures Flats(k) == m
  {}

  /** A store into one entry of one space is seen by that space at that page, and nowhere else. */
  lemma MapKeeps(k: Kern, v: u32, page: nat, val: u32)
    requires Inv(k) && v in k.spaces && page < PAGES
    ensures Inv(Mapped(k, v, page, val))
    ensures Flats(Mapped(k, v, page, val)) == WithValue(Flats(k), v, page, val)
  {
    var sp := k.spaces[v];
    assert SpaceInv(k, v);
    SpaceDistinct(k, v);
    StoreEntry(k.mem, sp, page, val);
    EntryInTables(k.mem, k.mem, sp, page, val);
    RewiredKeeps(k, v, WithEntry(k.mem, sp, page, val));
  }

  lemma EntryInTables(m: Mem, n: Mem, sp: Space, page: nat, val: u32)
    requires TablesOnly(m, n, sp) && page < PAGES
    ensures TablesOnly(m, WithEntry(n, sp, page, val), sp)
  {
    SetWordOutside(n, TableOf(sp, page), page % ENTRIES, val);
    assert sp[TABLES..][page / ENTRIES] == TableOf(sp, page);
  }

  /** The flat maps with one entry of one space changed. */
  ghost function WithValue(m: map<u32, FlatMap>, v: u32, page: nat, val: u32): map<u32, FlatMap>
    requires v in m && page < PAGES
  {
    m[v := m[v][page := val]]
  }

  /** The kernel with `val` stored as the entry of a page of space v. */
  ghost function Mapped(k: Kern, v: u32, page: nat, val: u32): Kern
    requires v in k.spaces && page < PAGES
  {
    k.(mem := WithEntry(k.mem, k.spaces[v], page, val))
  }

  lemma SameOwners(k: Kern, k': Kern, v: u32)
    requires v in k.spaces && SpaceInv(k, v)
    requires k'.base == k.base && v in k'.spaces && k'.spaces[v] == k.spaces[v] && k'.owner == k.owner
    requires forall r :: 0 <= r < BLOCKS && OneBlock(k, k.spaces[v][r]) ==> OneBlock(k', k.spaces[v][r])
    ensures forall r :: 0 <= r < BLOCKS ==> Owned(k', v, r)
  {
    forall r | 0 <= r < BLOCKS
      ensures Owned(k', v, r)
    {
      assert Owned(k, v, r);
    }
  }

  /** The space's blocks are still allocated, and hold what they held. */
  ghost predicate LeavesSpace(k: Kern, k': Kern, sp: Space)
  {
    forall r :: 0 <= r < BLOCKS ==> OneBlock(k', sp[r]) && Page(k'.mem, sp[r]) == Page(k.mem, sp[r])
  }

  ghost predicate LeavesSpaces(k: Kern, k': Kern)
  {
    && k'.base == k.base && k'.spaces == k.spaces && k'.owner == k.owner
    && forall v :: v in k.spaces ==> LeavesSpace(k, k', k.spaces[v])
  }

  /** A change that leaves the blocks of the spaces alone is seen by no space. */
  lemma OthersKeep(k: Kern, k': Kern)
    requires Inv(k) && HeapInv(k') && LeavesSpaces(k, k')
    ensures Inv(k') && Flats(k') == Flats(k)
  {
    forall v | v in k.spaces
      ensures SpaceInv(k', v) && Flat(k'.mem, k.spaces[v]) == Flat(k.mem, k.spaces[v])
    {
      OthersKeepSpace(k, k', v);
    }
    SameFlats(k, k');
  }

  lemma SameFlats(k: Kern, k': Kern)
    requires k'.spaces == k.spaces
    requires forall v :: v in k.spaces ==> Flat(k'.mem, k.spaces[v]) == Flat(k.mem, k.spaces[v])
    ensures Flats(k') == Flats(k)
  {}

  lemma OthersKeepSpace(k: Kern, k': Kern, v: u32)
    requires v in k.spaces && SpaceInv(k, v) && LeavesSpace(k, k', k.spaces[v])
    requires k'.base == k.base && k'.spaces == k.spaces && k'.owner == k.owner
    ensures SpaceInv(k', v) && Flat(k'.mem, k.spaces[v]) == Flat(k.mem, k.spaces[v])
  {
    SpaceFrame(k.mem, k'.mem, k.spaces[v]);
    SameOwners(k, k', v);
  }

  /** The page belongs to no live space. */
  ghost predicate Unowned(k: Kern, f: Frame)
  {
    forall v, r :: v in k.spaces && 0 <= r < BLOCKS ==> k.spaces[v][r] != f
  }

  ghost function OwnerOf(sp: Space): (o: map<Frame, (u32, nat)>)
    requires Distinct(sp)
    ensures forall r :: 0 <= r < BLOCKS ==> sp[r] in o && o[sp[r]] == (Addr(sp[VSPACE]), r)
    ensures forall f :: f in o ==> exists r :: 0 <= r < BLOCKS && sp[r] == f
  {
    map r | 0 <= r < BLOCKS :: sp[r] := (Addr(sp[VSPACE]), r)
  }

  ghost function WithSpace(k: Kern, sp: Space): Kern
    requires Distinct(sp)
  {
    k.(spaces := k.spaces[Addr(sp[VSPACE]) := sp], owner := k.owner + OwnerOf(sp))
  }

  ghost function WithoutSpace(k: Kern, v: u32): Kern
  {
    k.(spaces := k.spaces - {v})
  }

  lemma AddSpace(k: Kern, sp: Space)
    requires Inv(k) && Distinct(sp) && Wired(k.mem, sp)
    requires forall r :: 0 <= r < BLOCKS ==> OneBlock(k, sp[r]) && Unowned(k, sp[r])
    ensures Addr(sp[VSPACE]) !in k.spaces
    ensures Inv(WithSpace(k, sp))
    ensures Flats(WithSpace(k, sp)) == Flats(k)[Addr(sp[VSPACE]) := Flat(k.mem, sp)]
  {
    var k' := WithSpace(k, sp);
    NewSpaceIsNew(k, sp);
    forall w | w in k'.spaces
      ensures SpaceInv(k', w)
    {
      if w == Addr(sp[VSPACE]) {
        NowThere(k, sp);
      } else {
        StillThere(k, sp, w);
      }
    }
    NewFlats(k, sp);
  }

  lemma NewFlats(k: Kern, sp: Space)
    requires Distinct(sp) && Addr(sp[VSPACE]) !in k.spaces
    ensures Flats(WithSpace(k, sp)) == Flats(k)[Addr(sp[VSPACE]) := Flat(k.mem, sp)]
  {}

  lemma NewSpaceIsNew(k: Kern, sp: Space)
    requires Inv(k) && Unowned(k, sp[VSPACE])
    ensures Addr(sp[VSPACE]) !in k.spaces
  {
    var v := Addr(sp[VSPACE]);
    assert v in k.spaces ==> SpaceInv(k, v);
  }

  lemma NowThere(k: Kern, sp: Space)
    requires Distinct(sp) && Wired(k.mem, sp)
    requires forall r :: 0 <= r < BLOCKS ==> OneBlock(k, sp[r])
    ensures SpaceInv(WithSpace(k, sp), Addr(sp[VSPACE]))
  {
    forall r | 0 <= r < BLOCKS
      ensures Owned(WithSpace(k, sp), Addr(sp[VSPACE]), r)
    {
      assert OneBlock(k, sp[r]);
    }
  }

  lemma StillThere(k: Kern, sp: Space, w: u32)
    requires Inv(k) && Addr(sp[VSPACE]) !in k.spaces && Distinct(sp) && w in k.spaces
    requires forall r :: 0 <= r < BLOCKS ==> Unowned(k, sp[r])
    ensures SpaceInv(WithSpace(k, sp), w)
  {
    forall r | 0 <= r < BLOCKS
      ensures Owned(WithSpace(k, sp), w, r)
    {
      assert Owned(k, w, r);
      assert k.spaces[w][r] !in OwnerOf(sp);
    }
  }

  lemma RemoveSpace(k: Kern, v: u32)
    requires Inv(k) && v in k.spaces
    ensures Inv(WithoutSpace(k, v))
    ensures Flats(WithoutSpace(k, v)) == Flats(k) - {v}
    ensures forall r :: 0 <= r < BLOCKS ==> OneBlock(k, k.spaces[v][r]) && Unowned(WithoutSpace(k, v), k.spaces[v][r])
  {
    var k' := WithoutSpace(k, v);
    forall w | w in k'.spaces
      ensures SpaceInv(k', w)
    {
      SameOwners(k, k', w);
    }
    forall r | 0 <= r < BLOCKS
      ensures OneBlock(k, k.spaces[v][r]) && Unowned(k', k.spaces[v][r])
    {
      assert Owned(k, v, r);
      forall w | w in k'.spaces
        ensures forall q :: 0 <= q < BLOCKS ==> k'.spaces[w][q] != k.spaces[v][r]
      {
        SpacesDisjoint(k, w, v);
      }
    }
  }
}
