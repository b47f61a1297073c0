/** Filling page tables word by word: the memory side of creating an address space. */
module PageTables {
  import opened Words
  import opened Memory
  import opened Paging

  /** Table number i of a fresh space: its entries map the pages of its 4 MB to themselves. */
  ghost predicate TableHolds(m: Mem, f: Frame, i: nat, flags: byte)
    requires i < ENTRIES
  {
    forall j :: 0 <= j < ENTRIES ==> Word(m, f, j) == IdentityEntry(ENTRIES * i + j, flags)
  }

  /** The directory's first entries point to the tables, with the given bits in the low part. */
  ghost predicate DirectoryHolds(m: Mem, dir: Frame, tables: seq<Frame>, bits: nat)
    requires |tables| <= ENTRIES
  {
    forall i :: 0 <= i < |tables| ==> Word(m, dir, i) == Addr(tables[i]) + bits
  }

  ghost predicate TablesHold(m: Mem, tables: seq<Frame>, flags: byte)
    requires |tables| <= ENTRIES
  {
    forall i :: 0 <= i < |tables| ==> TableHolds(m, tables[i], i, flags)
  }

  /** memset(a, 0, size). */
  method ZeroBytes(m: Mem, a: u32, size: u32) returns (n: Mem)
    requires a + size <= TWO32
    ensures n == Zeroed(m, a, size)
  {
    n := m;
    var i := 0;
    while i < size
      invariant 0 <= i <= size
      invariant forall b :: 0 <= b < TWO32 ==> n[b] == if a <= b < a + i then 0 else m[b]
    {
      n := n[a + i := 0];
      i := i + 1;
    }
  }

  /** Writes the entries of one page table, which maps the 4 MB that start at `offset`. */
  method FillTable(m: Mem, pt: u32, offset: u32, flags: byte, ghost f: Frame, ghost i: nat) returns (n: Mem)
    requires pt == Addr(f) && i < ENTRIES && offset == PAGE_SIZE * ENTRIES * i
    ensures SameOutside(m, n, {f})
    ensures TableHolds(n, f, i, flags)
  {
    hide SameOutside, Or, Page, IdentityEntry;
    SameOutsideItself(m, {f});
    n := m;
    var ptEntry := 0;
    while ptEntry < ENTRIES
      invariant 0 <= ptEntry <= ENTRIES
      invariant SameOutside(m, n, {f})
      invariant forall j :: 0 <= j < ptEntry ==> Word(n, f, j) == IdentityEntry(ENTRIES * i + j, flags)
    {
      EntryValue(f, i, ptEntry, flags);
      var val: u32 := Or(offset + ptEntry * PAGE_SIZE, flags);
      ghost var before := n;
      n := Store32(n, pt + 4 * ptEntry, val);
      TableStep(m, before, n, f, i, ptEntry, val, flags);
      ptEntry := ptEntry + 1;
    }
  }

  lemma EntryValue(f: Frame, i: nat, j: nat, flags: byte)
    requires i < ENTRIES && j < ENTRIES
    ensures var a := PAGE_SIZE * ENTRIES * i + j * PAGE_SIZE;
            a < TWO32 && Or(a, flags) == IdentityEntry(ENTRIES * i + j, flags)
    ensures (Addr(f) + 4 * j) % 4 == 0 && Addr(f) + 4 * j + 4 <= TWO32
  {
    var page := ENTRIES * i + j;
    assert PAGE_SIZE * ENTRIES * i + j * PAGE_SIZE == PAGE_SIZE * page;
    OrFlags(PAGE_SIZE * page, flags);
    WordAddress(f, j);
  }

  lemma SameOutsideItself(m: Mem, frames: set<Frame>)
    ensures SameOutside(m, m, frames)
  {}

  lemma TableStep(m: Mem, n: Mem, n': Mem, f: Frame, i: nat, e: nat, val: u32, flags: byte)
    requires i < ENTRIES && e < ENTRIES && n' == SetWord(n, f, e, val) && SameOutside(m, n, {f})
    requires val == IdentityEntry(ENTRIES * i + e, flags)
    requires forall j :: 0 <= j < e ==> Word(n, f, j) == IdentityEntry(ENTRIES * i + j, flags)
    ensures SameOutside(m, n', {f})
    ensures forall j :: 0 <= j < e + 1 ==> Word(n', f, j) == IdentityEntry(ENTRIES * i + j, flags)
  {
    SetWordOutside(n, f, e, val);
    SameOutsideTwice(m, n, n', f);
    forall j | 0 <= j < e + 1
      ensures Word(n', f, j) == IdentityEntry(ENTRIES * i + j, flags)
    {
      WordSet(n, f, e, val, f, j);
    }
  }

  lemma TableFrame(m: Mem, n: Mem, f: Frame, i: nat, flags: byte)
    requires i < ENTRIES && Page(m, f) == Page(n, f) && TableHolds(m, f, i, flags)
    ensures TableHolds(n, f, i, flags)
  {
    forall j | 0 <= j < ENTRIES
      ensures Word(n, f, j) == Word(m, f, j)
    {
      WordFrame(m, n, f, j);
    }
  }

  lemma DirectoryFrame(m: Mem, n: Mem, dir: Frame, tables: seq<Frame>, bits: nat)
    requires |tables| <= ENTRIES && Page(m, dir) == Page(n, dir) && DirectoryHolds(m, dir, tables, bits)
    ensures DirectoryHolds(n, dir, tables, bits)
  {
    forall i | 0 <= i < |tables|
      ensures Word(n, dir, i) == Word(m, dir, i)
    {
      WordFrame(m, n, dir, i);
    }
  }

  lemma TablesFrame(m: Mem, n: Mem, tables: seq<Frame>, flags: byte)
    requires |tables| <= ENTRIES && TablesHold(m, tables, flags)
    requires forall i :: 0 <= i < |tables| ==> Page(m, tables[i]) == Page(n, tables[i])
    ensures TablesHold(n, tables, flags)
  {
    forall i | 0 <= i < |tables|
      ensures TableHolds(n, tables[i], i, flags)
    {
      TableFrame(m, n, tables[i], i, flags);
    }
  }

  /** The words of a page before the i-th agree. */
  ghost predicate WordsBefore(m: Mem, n: Mem, f: Frame, i: nat)
    requires i <= ENTRIES
  {
    forall j :: 0 <= j < i ==> Word(n, f, j) == Word(m, f, j)
  }

  lemma SetWordBefore(m: Mem, f: Frame, i: nat, v: u32)
    requires i < ENTRIES
    ensures WordsBefore(m, SetWord(m, f, i, v), f, i) && Word(SetWord(m, f, i, v), f, i) == v
  {
    forall j | 0 <= j < i + 1
      ensures Word(SetWord(m, f, i, v), f, j) == if j == i then v else Word(m, f, j)
    {
      WordSet(m, f, i, v, f, j);
    }
  }

  /** Adding one more table: only its page and the directory change, and the directory's new entry points to it. */
  lemma OneMoreTable(m0: Mem, m1: Mem, m2: Mem, dir: Frame, tables: seq<Frame>, f: Frame, flags: byte, bits: nat)
    requires |tables| < ENTRIES && f != dir && f !in tables && dir !in tables
    requires DirectoryHolds(m0, dir, tables, bits) && TablesHold(m0, tables, flags)
    requires SameOutside(m0, m1, {f}) && TableHolds(m1, f, |tables|, flags)
    requires SameOutside(m1, m2, {dir}) && WordsBefore(m1, m2, dir, |tables|)
    requires Word(m2, dir, |tables|) == Addr(f) + bits
    ensures DirectoryHolds(m2, dir, tables + [f], bits) && TablesHold(m2, tables + [f], flags)
  {
    DirectoryFrame(m0, m1, dir, tables, bits);
    TableFrame(m1, m2, f, |tables|, flags);
    TablesKept(m0, m1, m2, dir, f, tables, flags);
  }

  lemma TablesKept(m0: Mem, m1: Mem, m2: Mem, dir: Frame, f: Frame, tables: seq<Frame>, flags: byte)
    requires |tables| <= ENTRIES && f !in tables && dir !in tables && TablesHold(m0, tables, flags)
    requires SameOutside(m0, m1, {f}) && SameOutside(m1, m2, {dir})
    ensures TablesHold(m2, tables, flags)
  {
    forall i | 0 <= i < |tables|
      ensures Page(m0, tables[i]) == Page(m2, tables[i])
    {
      assert tables[i] !in {f} && tables[i] !in {dir};
      assert Page(m1, tables[i]) == Page(m0, tables[i]);
    }
    TablesFrame(m0, m2, tables, flags);
  }

  /** A finished structure is wired and represents the identity map. */
  lemma FreshSpace(m: Mem, sp: Space, flags: byte, bits: nat)
    requires Word(m, sp[VSPACE], 0) == Addr(sp[DESCRIPTOR])
    requires Word(m, sp[DESCRIPTOR], 0) == Addr(sp[DIRECTORY])
    requires bits < PAGE_SIZE && DirectoryHolds(m, sp[DIRECTORY], sp[TABLES..], bits) && TablesHold(m, sp[TABLES..], flags)
    ensures Wired(m, sp) && Flat(m, sp) == Identity(flags)
    ensures forall i :: 0 <= i < ENTRIES ==> DirEntry(m, sp, i) == Addr(sp[TABLES + i]) + bits
  {
    forall i | 0 <= i < ENTRIES
      ensures DirEntry(m, sp, i) == Addr(sp[TABLES + i]) + bits
      ensures FrameOf(DirEntry(m, sp, i)) == sp[TABLES + i]
    {
      assert sp[TABLES..][i] == sp[TABLES + i];
    }
    forall page | 0 <= page < PAGES
      ensures Entry(m, sp, page) == IdentityEntry(page, flags)
    {
      FreshEntry(m, sp, flags, page);
    }
  }

  /** Storing the descriptor's address in the structure completes a space. */
  lemma StructureLinked(m: Mem, n: Mem, sp: Space, flags: byte, bits: nat)
    requires Distinct(sp) && n == SetWord(m, sp[VSPACE], 0, Addr(sp[DESCRIPTOR]))
    requires bits < PAGE_SIZE && Word(m, sp[DESCRIPTOR], 0) == Addr(sp[DIRECTORY])
    requires DirectoryHolds(m, sp[DIRECTORY], sp[TABLES..], bits) && TablesHold(m, sp[TABLES..], flags)
    ensures Wired(n, sp) && Flat(n, sp) == Identity(flags)
    ensures forall i :: 0 <= i < ENTRIES ==> DirEntry(n, sp, i) == Addr(sp[TABLES + i]) + bits
  {
    WordSet(m, sp[VSPACE], 0, Addr(sp[DESCRIPTOR]), sp[VSPACE], 0);
    SetWordOutside(m, sp[VSPACE], 0, Addr(sp[DESCRIPTOR]));
    forall r | 0 < r < BLOCKS
      ensures Page(n, sp[r]) == Page(m, sp[r])
    {
      assert sp[r] !in {sp[VSPACE]};
    }
    WordFrame(m, n, sp[DESCRIPTOR], 0);
    DirectoryFrame(m, n, sp[DIRECTORY], sp[TABLES..], bits);
    TablesFrame(m, n, sp[TABLES..], flags);
    FreshSpace(n, sp, flags, bits);
  }

  lemma FreshEntry(m: Mem, sp: Space, flags: byte, page: nat)
    requires TablesHold(m, sp[TABLES..], flags) && page < PAGES
    ensures Entry(m, sp, page) == IdentityEntry(page, flags)
  {
    var i, j := page / ENTRIES, page % ENTRIES;
    assert sp[TABLES..][i] == sp[TABLES + i];
    assert TableHolds(m, sp[TABLES..][i], i, flags);
    assert Word(m, sp[TABLES + i], j) == IdentityEntry(ENTRIES * i + j, flags);
  }
}
