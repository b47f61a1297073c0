/** Laying a program out in its address space: segments or a flat binary, and the stack. */
module Loader {
  import opened Status
  import opened Words
  import opened Memory
  import opened Paging
  import opened PageRanges
  import opened KernelPaging

  const TASK_START: u32 := 0x40_0000
  const STACK_SIZE := 16384
  const STACK_BEGIN: u32 := 0x3f_f000
  const STACK_END: u32 := 0x3f_b000
  const PF_W := 2

  /** A program header; offset is the two's-complement word of the source's signed field. */
  datatype Phdr = Phdr(offset: u32, vaddr: u32, memsz: u32, flags: u32)

  datatype Image =
    | Elf(data: u32, phdrs: seq<Phdr>)
    | Binary(raw: u32, size: u32)

  // ---------- Address arithmetic, in 32 bits ----------

  function AlignUpper(a: u32): (r: u32)
  {
    if a % PAGE_SIZE != 0 then (a - a % PAGE_SIZE + PAGE_SIZE) % TWO32 else a
  }

  function AlignLower(a: u32): u32
  {
    if a % PAGE_SIZE != 0 then a - a % PAGE_SIZE else a
  }

  // ---------- What each part of the layout maps ----------

  /** The arguments of one paging_map_range call. */
  datatype Range = Range(vaddr: u32, paddr: u32, endaddr: u32, flags: nat)

  /** The PF_W bit of the header's flags. */
  predicate Writable(ph: Phdr)
  {
    ph.flags / PF_W % 2 == 1
  }

  lemma WriteBit(flags: nat)
    ensures And(flags, PF_W) == if flags / PF_W % 2 == 1 then PF_W else 0
  {
    assert Pow2(1) == 2 && Bit(flags, 1) == (flags / 2 % 2 == 1);
    AndOne(flags, 1);
  }

  function SegmentRange(data: u32, ph: Phdr): Range
  {
    var code := Plus(data, ph.offset);
    Range(AlignLower(ph.vaddr), AlignLower(code), AlignUpper(Plus(code, ph.memsz)),
          SegmentAccess(ph))
  }

  /** The flags of a segment's pages: write access exactly when PF_W is set. */
  function SegmentAccess(ph: Phdr): (flags: nat)
    ensures flags < PAGE_SIZE
  {
    if Writable(ph) then PRESENT + WRITE + USER else PRESENT + USER
  }

  function BinaryRange(raw: u32, size: u32): Range
  {
    Range(TASK_START, raw, AlignUpper(Plus(raw, size)), PRESENT + WRITE + USER)
  }

  function StackRange(stack: u32): Range
  {
    Range(STACK_END, stack, AlignUpper(Plus(stack, STACK_SIZE)), PRESENT + WRITE + USER)
  }

  /** All the ranges in the order they are mapped. */
  function Ranges(image: Image, stack: u32): seq<Range>
  {
    (match image
     case Elf(data, phdrs) => seq(|phdrs|, i requires 0 <= i < |phdrs| => SegmentRange(data, phdrs[i]))
     case Binary(raw, size) => [BinaryRange(raw, size)])
    + [StackRange(stack)]
  }

  ghost predicate Accepted(r: Range)
  {
    RangeArgs(r.vaddr, r.paddr, r.endaddr) && r.flags < PAGE_SIZE
  }

  /** The range covers a page: the page's distance from its first page, modulo 2^20, is below its length. */
  ghost predicate RangeHas(r: Range, page: nat)
    requires Accepted(r)
  {
    InRange(page, r.vaddr / PAGE_SIZE, (r.endaddr - r.paddr) / PAGE_SIZE)
  }

  ghost function Applied(f: FlatMap, r: Range): FlatMap
    requires Accepted(r)
  {
    RangeMapped(f, r.vaddr / PAGE_SIZE, r.paddr, (r.endaddr - r.paddr) / PAGE_SIZE, r.flags)
  }

  /** The flat map after the ranges, up to the first one that is refused. */
  ghost function AppliedAll(f: FlatMap, rs: seq<Range>): FlatMap
    decreases |rs|
  {
    if rs == [] then f
    else if Accepted(rs[0]) then AppliedAll(Applied(f, rs[0]), rs[1..])
    else f
  }

  ghost predicate AllAccepted(rs: seq<Range>)
  {
    forall i :: 0 <= i < |rs| ==> Accepted(rs[i])
  }

  /** A page's entry in the end: that of the last range that covers it, else what it was. */
  lemma {:induction false} LastRangeWins(f: FlatMap, rs: seq<Range>, page: nat)
    requires AllAccepted(rs) && page < PAGES
    ensures forall i :: 0 <= i < |rs| && RangeHas(rs[i], page) && (forall j :: i < j < |rs| ==> !RangeHas(rs[j], page)) ==>
              AppliedAll(f, rs)[page] == Applied(f, rs[i])[page]
    ensures (forall i :: 0 <= i < |rs| ==> !RangeHas(rs[i], page)) ==> AppliedAll(f, rs)[page] == f[page]
    decreases |rs|
  {
    if rs == [] {
    } else {
      var g := Applied(f, rs[0]);
      LastRangeWins(g, rs[1..], page);
      assert AppliedAll(f, rs) == AppliedAll(g, rs[1..]);
      forall i | 0 <= i < |rs| && RangeHas(rs[i], page) && (forall j :: i < j < |rs| ==> !RangeHas(rs[j], page))
        ensures AppliedAll(f, rs)[page] == Applied(f, rs[i])[page]
      {
        if i > 0 {
          assert rs[1..][i - 1] == rs[i];
          assert Applied(g, rs[i])[page] == Applied(f, rs[i])[page];
        }
      }
    }
  }

  // ---------- The layout of an ELF program ----------

  /** A program header as TIS ELF 1.2 asks for, whose file range lies inside the address space. */
  predicate WellFormed(data: u32, ph: Phdr)
  {
    && ph.vaddr % PAGE_SIZE == ph.offset % PAGE_SIZE
    && data + ph.offset + ph.memsz + PAGE_SIZE <= TWO32
    && ph.vaddr + ph.memsz <= TWO32
  }

  /** The pages of a segment, from that of its first byte on. */
  predicate SegmentPage(ph: Phdr, page: nat)
  {
    ph.vaddr / PAGE_SIZE <= page && PAGE_SIZE * page < ph.vaddr + ph.memsz
  }

  predicate StackPage(page: nat)
  {
    STACK_END / PAGE_SIZE <= page < STACK_BEGIN / PAGE_SIZE
  }

  /** The number of pages that size bytes from page offset r on touch. */
  function PageSpan(r: nat, size: nat): nat
  {
    (r + size + PAGE_SIZE - 1) / PAGE_SIZE
  }

  /** A segment's range is accepted and covers exactly the segment's pages. */
  lemma SegmentCovers(data: u32, ph: Phdr, page: nat)
    requires data % PAGE_SIZE == 0 && WellFormed(data, ph) && page < PAGES
    ensures Accepted(SegmentRange(data, ph))
    ensures RangeHas(SegmentRange(data, ph), page) <==> SegmentPage(ph, page)
  {
    SegmentSpan(data, ph);
    SpanEnds(ph.vaddr, ph.memsz, page);
    SpanFits(ph.vaddr, ph.memsz);
    InRangeDirect(page, ph.vaddr / PAGE_SIZE, PageSpan(ph.vaddr % PAGE_SIZE, ph.memsz));
  }

  lemma SegmentSpan(data: u32, ph: Phdr)
    requires data % PAGE_SIZE == 0 && WellFormed(data, ph)
    ensures var r := SegmentRange(data, ph);
            && Accepted(r) && r.vaddr / PAGE_SIZE == ph.vaddr / PAGE_SIZE
            && (r.endaddr - r.paddr) / PAGE_SIZE == PageSpan(ph.vaddr % PAGE_SIZE, ph.memsz)
  {
    var r, code := SegmentRange(data, ph), data + ph.offset;
    assert r.vaddr == AlignLower(ph.vaddr) && r.paddr == AlignLower(code) && r.endaddr == AlignUpper(code + ph.memsz) by {
      NoWrap(data, ph.offset);
      NoWrap(code, ph.memsz);
    }
    RangeSpan(code, ph.memsz);
    SameOffset(data, ph.offset);
    LowerPage(ph.vaddr);
  }

  lemma NoWrap(a: u32, b: u32)
    requires a + b < TWO32
    ensures Plus(a, b) == a + b
  {}

  lemma SameOffset(data: u32, offset: u32)
    requires data % PAGE_SIZE == 0
    ensures (data + offset) % PAGE_SIZE == offset % PAGE_SIZE
  {
    assert data == PAGE_SIZE * (data / PAGE_SIZE);
  }

  lemma LowerPage(a: u32)
    ensures AlignLower(a) == PAGE_SIZE * (a / PAGE_SIZE) && AlignLower(a) / PAGE_SIZE == a / PAGE_SIZE
  {}

  lemma RangeSpan(start: u32, size: u32)
    requires start + size + PAGE_SIZE <= TWO32
    ensures var lo, hi := AlignLower(start), AlignUpper(start + size);
            && lo % PAGE_SIZE == 0 && hi % PAGE_SIZE == 0 && lo == start - start % PAGE_SIZE
            && hi == lo + PAGE_SIZE * PageSpan(start % PAGE_SIZE, size)
            && (hi - lo) / PAGE_SIZE == PageSpan(start % PAGE_SIZE, size)
  {
    var q, r := start / PAGE_SIZE, start % PAGE_SIZE;
    var x := start + size;
    assert x == PAGE_SIZE * q + (r + size);
    UpperIsCeiling(x);
    assert (x + PAGE_SIZE - 1) / PAGE_SIZE == q + PageSpan(r, size);
  }

  lemma UpperIsCeiling(x: u32)
    requires x + PAGE_SIZE <= TWO32
    ensures AlignUpper(x) == PAGE_SIZE * ((x + PAGE_SIZE - 1) / PAGE_SIZE)
  {
    var q, r := x / PAGE_SIZE, x % PAGE_SIZE;
    assert x == PAGE_SIZE * q + r;
  }

  lemma SpanEnds(start: nat, size: nat, page: nat)
    ensures PAGE_SIZE * page < start + size <==> page < start / PAGE_SIZE + PageSpan(start % PAGE_SIZE, size)
  {
    var q, r := start / PAGE_SIZE, start % PAGE_SIZE;
    assert start == PAGE_SIZE * q + r;
    var n: int := PageSpan(r, size);
    assert PAGE_SIZE * (n - 1) < r + size <= PAGE_SIZE * n;
  }

  lemma SpanFits(start: nat, size: nat)
    requires start + size <= TWO32
    ensures start / PAGE_SIZE + PageSpan(start % PAGE_SIZE, size) <= PAGES
  {
    SpanEnds(start, size, PAGES);
  }

  lemma InRangeDirect(page: nat, vpage: nat, count: nat)
    requires page < PAGES && vpage < PAGES && vpage + count <= PAGES
    ensures InRange(page, vpage, count) <==> vpage <= page < vpage + count
  {}

  /** The ranges of a program do not overlap: segments with one another, or segments with the stack. */
  ghost predicate Apart(phdrs: seq<Phdr>)
  {
    && (forall i, j, page ::
          0 <= i < |phdrs| && 0 <= j < |phdrs| && SegmentPage(phdrs[i], page) && SegmentPage(phdrs[j], page) ==> i == j)
    && (forall i, page :: 0 <= i < |phdrs| && SegmentPage(phdrs[i], page) ==> !StackPage(page))
  }

  ghost predicate Loadable(data: u32, phdrs: seq<Phdr>, stack: u32)
  {
    && data % PAGE_SIZE == 0 && stack % PAGE_SIZE == 0 && stack + STACK_SIZE + PAGE_SIZE <= TWO32
    && (forall i :: 0 <= i < |phdrs| ==> WellFormed(data, phdrs[i]))
    && Apart(phdrs)
  }

  lemma StackCovers(stack: u32, page: nat)
    requires stack % PAGE_SIZE == 0 && stack + STACK_SIZE + PAGE_SIZE <= TWO32 && page < PAGES
    ensures Accepted(StackRange(stack))
    ensures StackRange(stack) == Range(STACK_END, stack, stack + STACK_SIZE, PRESENT + WRITE + USER)
    ensures RangeHas(StackRange(stack), page) <==> StackPage(page)
  {
    InRangeDirect(page, STACK_END / PAGE_SIZE, STACK_SIZE / PAGE_SIZE);
  }

  lemma RangesOf(data: u32, phdrs: seq<Phdr>, stack: u32)
    requires Loadable(data, phdrs, stack)
    ensures var rs := Ranges(Elf(data, phdrs), stack);
            && |rs| == |phdrs| + 1 && AllAccepted(rs) && rs[|phdrs|] == StackRange(stack)
            && (forall i :: 0 <= i < |phdrs| ==> rs[i] == SegmentRange(data, phdrs[i]))
            && (forall i, page :: 0 <= i < |phdrs| && 0 <= page < PAGES ==>
                  (RangeHas(rs[i], page) <==> SegmentPage(phdrs[i], page)))
  {
    var rs, n := Ranges(Elf(data, phdrs), stack), |phdrs|;
    StackCovers(stack, 0);
    forall i | 0 <= i < n
      ensures Accepted(rs[i])
    {
      SegmentCovers(data, phdrs[i], 0);
    }
    forall i, page | 0 <= i < n && 0 <= page < PAGES
      ensures RangeHas(rs[i], page) <==> SegmentPage(phdrs[i], page)
    {
      SegmentCovers(data, phdrs[i], page);
    }
  }

  /** The layout, page by page: each page is mapped by the one range that covers it, if any. */
  lemma ElfPage(f: FlatMap, data: u32, phdrs: seq<Phdr>, stack: u32, page: nat)
    requires Loadable(data, phdrs, stack) && page < PAGES
    ensures var rs := Ranges(Elf(data, phdrs), stack);
            && |rs| == |phdrs| + 1 && AllAccepted(rs)
            && (forall i :: 0 <= i < |rs| && RangeHas(rs[i], page) ==> AppliedAll(f, rs)[page] == Applied(f, rs[i])[page])
            && ((forall i :: 0 <= i < |rs| ==> !RangeHas(rs[i], page)) ==> AppliedAll(f, rs)[page] == f[page])
  {
    var rs, n := Ranges(Elf(data, phdrs), stack), |phdrs|;
    RangesOf(data, phdrs, stack);
    StackCovers(stack, page);
    LastRangeWins(f, rs, page);
    forall i, j | 0 <= i < j < |rs| && RangeHas(rs[i], page)
      ensures !RangeHas(rs[j], page)
    {
      assert SegmentPage(phdrs[i], page);
      if j < n {
        assert !SegmentPage(phdrs[j], page);
      }
    }
  }

  /** The addresses from vaddr on translate to those from paddr on. */
  ghost predicate MapsBytes(g: FlatMap, vaddr: u32, size: nat, paddr: int)
  {
    forall a: u32 :: vaddr <= a < vaddr + size ==> Phys(g, a) == paddr + (a - vaddr)
  }

  /** The pages of the addresses from vaddr on are present and open to users, and writable or not. */
  ghost predicate HasAccess(g: FlatMap, vaddr: u32, size: nat, writable: bool)
  {
    forall a: u32 :: vaddr <= a < vaddr + size ==>
      var e := g[FrameOf(a)];
      e % 2 == 1 && e / 4 % 2 == 1 && (e / 2 % 2 == 1 <==> writable)
  }

  /** The low bits of an entry are its flags. */
  lemma AccessBits(e: u32, flags: nat)
    requires e % PAGE_SIZE == flags < 8
    ensures e % 2 == flags % 2 && e / 2 % 2 == flags / 2 % 2 && e / 4 % 2 == flags / 4 % 2
  {
    var q := e / PAGE_SIZE;
    HalfSum(flags, 2048 * q);
    HalfSum(flags / 2, 1024 * q);
    HalfSum(flags / 4, 512 * q);
    assert e == 2 * (2048 * q) + flags;
    assert e / 4 == e / 2 / 2 && flags / 4 == flags / 2 / 2;
  }

  lemma HalfSum(x: nat, y: nat)
    ensures (2 * y + x) / 2 == y + x / 2 && (2 * y + x) % 2 == x % 2
  {}

  /**
    The memory image of an ELF program whose segments are congruent to their file offsets modulo the
    page size and whose page ranges are disjoint from one another and from the stack: every byte of a
    segment is the file byte at the same offset, with the segment's access, the 16 KB below STACK_BEGIN
    are the stack buffer, with write access, and every other page is what it was.
   */
  lemma ElfLayout(f: FlatMap, data: u32, phdrs: seq<Phdr>, stack: u32)
    requires Loadable(data, phdrs, stack)
    ensures AllAccepted(Ranges(Elf(data, phdrs), stack))
    ensures var g := AppliedAll(f, Ranges(Elf(data, phdrs), stack));
            && (forall j :: 0 <= j < |phdrs| ==> MapsBytes(g, phdrs[j].vaddr, phdrs[j].memsz, data + phdrs[j].offset))
            && (forall j :: 0 <= j < |phdrs| ==> HasAccess(g, phdrs[j].vaddr, phdrs[j].memsz, phdrs[j].flags / 2 % 2 == 1))
            && MapsBytes(g, 0x3f_b000, 0x4000, stack) && HasAccess(g, 0x3f_b000, 0x4000, true)
            && (forall page ::
                  && 0 <= page < PAGES && !StackPage(page)
                  && (forall j :: 0 <= j < |phdrs| ==> !SegmentPage(phdrs[j], page)) ==>
                    g[page] == f[page])
  {
    var g := AppliedAll(f, Ranges(Elf(data, phdrs), stack));
    RangesOf(data, phdrs, stack);
    forall j | 0 <= j < |phdrs|
      ensures MapsBytes(g, phdrs[j].vaddr, phdrs[j].memsz, data + phdrs[j].offset)
      ensures HasAccess(g, phdrs[j].vaddr, phdrs[j].memsz, phdrs[j].flags / 2 % 2 == 1)
    {
      SegmentLaidOut(f, data, phdrs, stack, j);
    }
    StackLaidOut(f, data, phdrs, stack);
    forall page | 0 <= page < PAGES && !StackPage(page) && (forall j :: 0 <= j < |phdrs| ==> !SegmentPage(phdrs[j], page))
      ensures g[page] == f[page]
    {
      ElfPage(f, data, phdrs, stack, page);
      StackCovers(stack, page);
    }
  }

  lemma SegmentLaidOut(f: FlatMap, data: u32, phdrs: seq<Phdr>, stack: u32, j: nat)
    requires Loadable(data, phdrs, stack) && j < |phdrs|
    ensures var g := AppliedAll(f, Ranges(Elf(data, phdrs), stack));
            && MapsBytes(g, phdrs[j].vaddr, phdrs[j].memsz, data + phdrs[j].offset)
            && HasAccess(g, phdrs[j].vaddr, phdrs[j].memsz, phdrs[j].flags / 2 % 2 == 1)
  {
    hide SegmentAccess, SegmentRange, Applied, AppliedAll;
    var rs := Ranges(Elf(data, phdrs), stack);
    var g := AppliedAll(f, rs);
    RangesOf(data, phdrs, stack);
    forall a: u32 | phdrs[j].vaddr <= a < phdrs[j].vaddr + phdrs[j].memsz
      ensures Phys(g, a) == data + phdrs[j].offset + (a - phdrs[j].vaddr)
      ensures g[FrameOf(a)] % PAGE_SIZE == SegmentAccess(phdrs[j])
      ensures var e := g[FrameOf(a)];
              e % 2 == 1 && e / 4 % 2 == 1 && (e / 2 % 2 == 1 <==> phdrs[j].flags / 2 % 2 == 1)
    {
      ElfPage(f, data, phdrs, stack, FrameOf(a));
      SegmentByte(f, data, phdrs[j], a);
      assert RangeHas(rs[j], FrameOf(a));
      SegmentBits(g[FrameOf(a)], phdrs[j]);
    }
  }

  lemma SegmentBits(e: u32, ph: Phdr)
    requires e % PAGE_SIZE == SegmentAccess(ph)
    ensures e % 2 == 1 && e / 4 % 2 == 1 && (e / 2 % 2 == 1 <==> ph.flags / 2 % 2 == 1)
  {
    AccessBits(e, SegmentAccess(ph));
  }

  lemma StackBits(e: u32)
    requires e % PAGE_SIZE == PRESENT + WRITE + USER
    ensures e % 2 == 1 && e / 4 % 2 == 1 && e / 2 % 2 == 1
  {
    AccessBits(e, PRESENT + WRITE + USER);
  }

  lemma StackLaidOut(f: FlatMap, data: u32, phdrs: seq<Phdr>, stack: u32)
    requires Loadable(data, phdrs, stack)
    ensures var g := AppliedAll(f, Ranges(Elf(data, phdrs), stack));
            MapsBytes(g, STACK_END, STACK_SIZE, stack) && HasAccess(g, STACK_END, STACK_SIZE, true)
  {
    hide StackRange, Applied, AppliedAll;
    var rs := Ranges(Elf(data, phdrs), stack);
    var g := AppliedAll(f, rs);
    RangesOf(data, phdrs, stack);
    forall a: u32 | STACK_END <= a < STACK_END + STACK_SIZE
      ensures Phys(g, a) == stack + (a - STACK_END)
      ensures var e := g[FrameOf(a)]; e % 2 == 1 && e / 4 % 2 == 1 && e / 2 % 2 == 1
    {
      ElfPage(f, data, phdrs, stack, FrameOf(a));
      StackByte(f, stack, a);
      assert RangeHas(rs[|phdrs|], FrameOf(a));
      StackBits(g[FrameOf(a)]);
    }
  }

  lemma SegmentByte(f: FlatMap, data: u32, ph: Phdr, a: u32)
    requires data % PAGE_SIZE == 0 && WellFormed(data, ph) && ph.vaddr <= a < ph.vaddr + ph.memsz
    ensures Accepted(SegmentRange(data, ph)) && RangeHas(SegmentRange(data, ph), FrameOf(a))
    ensures Phys(Applied(f, SegmentRange(data, ph)), a) == data + ph.offset + (a - ph.vaddr)
    ensures Applied(f, SegmentRange(data, ph))[FrameOf(a)] % PAGE_SIZE == SegmentAccess(ph)
  {
    var code := data + ph.offset;
    SegmentStart(data, ph);
    assert SegmentPage(ph, FrameOf(a));
    SegmentCovers(data, ph, FrameOf(a));
    RangeByte(f, SegmentRange(data, ph), a);
  }

  /** A segment's range starts as far below its first byte in memory as in the file data. */
  lemma SegmentStart(data: u32, ph: Phdr)
    requires data % PAGE_SIZE == 0 && WellFormed(data, ph)
    ensures var r := SegmentRange(data, ph);
            r.vaddr <= ph.vaddr && r.paddr - r.vaddr == data + ph.offset - ph.vaddr
  {
    SameOffset(data, ph.offset);
  }

  lemma StackByte(f: FlatMap, stack: u32, a: u32)
    requires stack % PAGE_SIZE == 0 && stack + STACK_SIZE + PAGE_SIZE <= TWO32
    requires STACK_END <= a < STACK_END + STACK_SIZE
    ensures Accepted(StackRange(stack)) && RangeHas(StackRange(stack), FrameOf(a))
    ensures Phys(Applied(f, StackRange(stack)), a) == stack + (a - STACK_END)
    ensures Applied(f, StackRange(stack))[FrameOf(a)] % PAGE_SIZE == PRESENT + WRITE + USER
  {
    StackCovers(stack, FrameOf(a));
    RangeByte(f, StackRange(stack), a);
  }

  /** Inside a range, past its start, an address keeps its distance from that start. */
  lemma RangeByte(f: FlatMap, r: Range, a: u32)
    requires Accepted(r) && r.vaddr <= a && RangeHas(r, FrameOf(a))
    ensures Phys(Applied(f, r), a) == r.paddr + (a - r.vaddr)
    ensures Applied(f, r)[FrameOf(a)] % PAGE_SIZE == r.flags
  {
    var page, first := FrameOf(a), r.vaddr / PAGE_SIZE;
    var x := r.paddr + PAGE_SIZE * (page - first);
    assert (page - first) % PAGES == page - first;
    assert Applied(f, r)[page] == x + r.flags;
    assert x % PAGE_SIZE == 0;
    FrameOfPacked(x, r.flags);
  }

  // ---------- A flat binary is one writable segment at TASK_START ----------

  lemma BinaryAsSegment(raw: u32, size: u32, stack: u32)
    requires raw % PAGE_SIZE == 0
    ensures Ranges(Binary(raw, size), stack) == Ranges(Elf(raw, [Phdr(0, TASK_START, size, PF_W)]), stack)
  {
    assert SegmentRange(raw, Phdr(0, TASK_START, size, PF_W)) == BinaryRange(raw, size);
  }

  lemma BinaryLayout(f: FlatMap, raw: u32, size: u32, stack: u32)
    requires raw % PAGE_SIZE == 0 && raw + size + PAGE_SIZE <= TWO32 && TASK_START + size <= TWO32
    requires stack % PAGE_SIZE == 0 && stack + STACK_SIZE + PAGE_SIZE <= TWO32
    ensures AllAccepted(Ranges(Binary(raw, size), stack))
    ensures var g := AppliedAll(f, Ranges(Binary(raw, size), stack));
            && MapsBytes(g, 0x40_0000, size, raw) && HasAccess(g, 0x40_0000, size, true)
            && MapsBytes(g, 0x3f_b000, 0x4000, stack) && HasAccess(g, 0x3f_b000, 0x4000, true)
  {
    var ph := Phdr(0, TASK_START, size, PF_W);
    BinaryAsSegment(raw, size, stack);
    assert [ph][0] == ph;
    ElfLayout(f, raw, [ph], stack);
  }

  // ---------- process_map_memory ----------

  /** Maps the image and then the stack; the first range that is refused ends it. */
  method ProcessMapMemory(kern: Kernel, vspace: u32, image: Image, stack: u32) returns (status: int)
    requires kern.Valid() && vspace in kern.k.spaces
    modifies kern`mem, kern`k
    ensures kern.Valid() && kern.k == RangesMapped(old(kern.k), vspace, Ranges(image, stack))
    ensures Flats(kern.k) == AfterRanges(old(kern.k), vspace, Ranges(image, stack))
    ensures status == SUCCESS <==> AllAccepted(Ranges(image, stack))
    ensures status != SUCCESS ==> status == -ERR_PROCESS_MAPPING_FAILED
  {
    ghost var k0, rs := kern.k, Ranges(image, stack);
    ghost var n := |rs| - 1;
    RangesAre(image, stack);
    RangesKeep(k0, vspace, rs);
    status := MapImage(kern, vspace, image, stack, k0, rs, n);
    if status < 0 {
      return;
    }
    var end := AlignUpper(Plus(stack, STACK_SIZE));
    status := MapNext(kern, vspace, STACK_END, stack, end, PRESENT + WRITE + USER, k0, rs, n);
    if status == SUCCESS {
      AllMapped(kern.k, k0, vspace, rs, n);
    }
  }

  /** The first part: the segments of an ELF file, or a flat binary. */
  method MapImage(kern: Kernel, vspace: u32, image: Image, ghost stack: u32, ghost k0: Kern, ghost rs: seq<Range>,
                  ghost n: nat)
    returns (status: int)
    requires kern.Valid() && vspace in k0.spaces && kern.k == k0 && rs == Ranges(image, stack) && n == |rs| - 1
    modifies kern`mem, kern`k
    ensures kern.Valid()
    ensures status == SUCCESS ==> SoFar(kern.k, k0, vspace, rs, n)
    ensures status != SUCCESS ==>
            status == -ERR_PROCESS_MAPPING_FAILED && Refused(kern.k, k0, vspace, rs)
  {
    RangesAre(image, stack);
    match image {
      case Elf(data, phdrs) =>
        status := MapElf(kern, vspace, data, phdrs, k0, rs);
      case Binary(raw, size) =>
        FirstRange(k0, vspace, rs);
        status := MapBinary(kern, vspace, raw, size, k0, rs, n);
    }
  }

  /** process_map_binary: the whole file from TASK_START on. */
  method MapBinary(kern: Kernel, vspace: u32, raw: u32, size: u32, ghost k0: Kern, ghost rs: seq<Range>, ghost n: nat)
    returns (status: int)
    requires kern.Valid() && vspace in k0.spaces && kern.k == k0
    requires 1 <= n <= |rs| && SoFar(k0, k0, vspace, rs, n - 1) && rs[n - 1] == BinaryRange(raw, size)
    modifies kern`mem, kern`k
    ensures kern.Valid()
    ensures status == SUCCESS ==> SoFar(kern.k, k0, vspace, rs, n)
    ensures status != SUCCESS ==>
            status == -ERR_PROCESS_MAPPING_FAILED && Refused(kern.k, k0, vspace, rs)
  {
    var end := AlignUpper(Plus(raw, size));
    assert rs[n - 1] == Range(TASK_START, raw, end, PRESENT + WRITE + USER);
    status := MapNext(kern, vspace, TASK_START, raw, end, PRESENT + WRITE + USER, k0, rs, n - 1);
  }

  lemma RangesAre(image: Image, stack: u32)
    ensures var rs := Ranges(image, stack);
            && |rs| >= 1 && rs[|rs| - 1] == StackRange(stack)
            && match image
               case Elf(data, phdrs) =>
                 |rs| == |phdrs| + 1 && forall i :: 0 <= i < |phdrs| ==> rs[i] == SegmentRange(data, phdrs[i])
               case Binary(raw, size) => |rs| == 2 && rs[0] == BinaryRange(raw, size)
  {}

  /** process_map_elf: every program header, in order. */
  method MapElf(kern: Kernel, vspace: u32, data: u32, phdrs: seq<Phdr>, ghost k0: Kern, ghost rs: seq<Range>)
    returns (status: int)
    requires kern.Valid() && vspace in k0.spaces && kern.k == k0
    requires |phdrs| <= |rs| && forall i :: 0 <= i < |phdrs| ==> rs[i] == SegmentRange(data, phdrs[i])
    modifies kern`mem, kern`k
    ensures kern.Valid()
    ensures status == SUCCESS ==> SoFar(kern.k, k0, vspace, rs, |phdrs|)
    ensures status != SUCCESS ==>
            status == -ERR_PROCESS_MAPPING_FAILED && Refused(kern.k, k0, vspace, rs)
  {
    FirstRange(k0, vspace, rs);
    var i := 0;
    while i < |phdrs|
      invariant 0 <= i <= |phdrs|
      invariant kern.Valid()
      invariant SoFar(kern.k, k0, vspace, rs, i)
    {
      var ph := phdrs[i];
      var code := Plus(data, ph.offset);
      var flags := PRESENT + USER;
      WriteBit(ph.flags);
      if And(ph.flags, PF_W) != 0 {
        flags := flags + WRITE;
      }
      var vaddr, paddr, end := AlignLower(ph.vaddr), AlignLower(code), AlignUpper(Plus(code, ph.memsz));
      assert rs[i] == Range(vaddr, paddr, end, flags);
      status := MapNext(kern, vspace, vaddr, paddr, end, flags, k0, rs, i);
      if status < 0 {
        return;
      }
      i := i + 1;
    }
    status := SUCCESS;
  }

  ghost function AfterRanges(k: Kern, v: u32, rs: seq<Range>): map<u32, FlatMap>
    requires v in k.spaces
  {
    Flats(k)[v := AppliedAll(Flats(k)[v], rs)]
  }

  /** The kernel after the ranges were mapped in a space, up to the first one that is refused. */
  ghost function RangesMapped(k: Kern, v: u32, rs: seq<Range>): (k': Kern)
    requires v in k.spaces
    ensures k' == k.(mem := k'.mem)
    decreases |rs|
  {
    if rs == [] then k
    else if Accepted(rs[0]) then RangesMapped(OneMapped(k, v, rs[0]), v, rs[1..])
    else k
  }

  ghost function OneMapped(k: Kern, v: u32, r: Range): (k': Kern)
    requires v in k.spaces && r.flags < PAGE_SIZE
    ensures k' == k.(mem := k'.mem)
  {
    AfterMapRange(k, v, r.vaddr, r.paddr, r.endaddr, r.flags)
  }

  /** The flat map of the space is that of the ranges, and no other space sees them. */
  lemma {:induction false} RangesKeep(k: Kern, v: u32, rs: seq<Range>)
    requires Inv(k) && v in k.spaces
    ensures Inv(RangesMapped(k, v, rs)) && Flats(RangesMapped(k, v, rs)) == AfterRanges(k, v, rs)
    decreases |rs|
  {
    if rs != [] && Accepted(rs[0]) {
      var k1 := OneMapped(k, v, rs[0]);
      RangeKeeps(k, v, rs[0], k1);
      RangesKeep(k1, v, rs[1..]);
      FirstApplied(Flats(k), Flats(k1), v, rs);
    }
  }

  lemma RangeKeeps(k: Kern, v: u32, r: Range, k': Kern)
    requires Inv(k) && v in k.spaces && Accepted(r) && k' == OneMapped(k, v, r)
    ensures Inv(k') && Flats(k') == WithMapRange(Flats(k), v, r.vaddr, r.paddr, r.endaddr, r.flags)
  {
    MapRangeKeeps(k, v, r.vaddr, r.paddr, r.endaddr, r.flags);
  }

  lemma FirstApplied(m: map<u32, FlatMap>, n: map<u32, FlatMap>, v: u32, rs: seq<Range>)
    requires v in m && rs != [] && Accepted(rs[0])
    requires n == WithMapRange(m, v, rs[0].vaddr, rs[0].paddr, rs[0].endaddr, rs[0].flags)
    ensures v in n && n[v := AppliedAll(n[v], rs[1..])] == m[v := AppliedAll(m[v], rs)]
  {
    assert n == m[v := Applied(m[v], rs[0])];
  }

  /** The first i ranges are accepted and mapped. */
  ghost predicate SoFar(k: Kern, k0: Kern, v: u32, rs: seq<Range>, i: nat)
    requires v in k0.spaces && i <= |rs|
  {
    AllAccepted(rs[..i]) && k == RangesMapped(k0, v, rs[..i])
  }

  /** One of the ranges is refused, and those before it are mapped. */
  ghost predicate Refused(k: Kern, k0: Kern, v: u32, rs: seq<Range>)
    requires v in k0.spaces
  {
    !AllAccepted(rs) && k == RangesMapped(k0, v, rs)
  }

  lemma AllMapped(k: Kern, k0: Kern, v: u32, rs: seq<Range>, n: nat)
    requires v in k0.spaces && |rs| == n + 1 && SoFar(k, k0, v, rs, n + 1)
    ensures AllAccepted(rs) && k == RangesMapped(k0, v, rs)
  {
    assert rs[..n + 1] == rs;
  }

  lemma FirstRange(k: Kern, v: u32, rs: seq<Range>)
    requires v in k.spaces
    ensures SoFar(k, k, v, rs, 0)
  {
    assert rs[..0] == [];
  }

  /** One call of paging_map_range: the i-th of the ranges rs since k0. */
  method MapNext(kern: Kernel, vspace: u32, vaddr: u32, paddr: u32, endaddr: u32, flags: nat,
                 ghost k0: Kern, ghost rs: seq<Range>, ghost i: nat) returns (status: int)
    requires kern.Valid() && vspace in k0.spaces
    requires i < |rs| && SoFar(kern.k, k0, vspace, rs, i)
    requires rs[i] == Range(vaddr, paddr, endaddr, flags) && flags < PAGE_SIZE
    modifies kern`mem, kern`k
    ensures kern.Valid()
    ensures status == SUCCESS ==> SoFar(kern.k, k0, vspace, rs, i + 1)
    ensures status != SUCCESS ==>
            status == -ERR_PROCESS_MAPPING_FAILED && Refused(kern.k, k0, vspace, rs)
  {
    NextMapped(k0, vspace, rs, i);
    status := kern.MapRange(vspace, vaddr, paddr, endaddr, flags);
  }

  /** Either the next range is mapped, or it is refused and nothing after it is mapped. */
  lemma {:induction false} NextMapped(k: Kern, v: u32, rs: seq<Range>, i: nat)
    requires v in k.spaces && i < |rs| && AllAccepted(rs[..i]) && rs[i].flags < PAGE_SIZE
    ensures Accepted(rs[i]) ==>
              && AllAccepted(rs[..i + 1])
              && RangesMapped(k, v, rs[..i + 1]) == OneMapped(RangesMapped(k, v, rs[..i]), v, rs[i])
    ensures !Accepted(rs[i]) ==> RangesMapped(k, v, rs) == RangesMapped(k, v, rs[..i])
    decreases i
  {
    if i > 0 {
      assert rs[..i][0] == rs[0] && rs[..i + 1][0] == rs[0];
      assert rs[..i][1..] == rs[1..][..i - 1] && rs[..i + 1][1..] == rs[1..][..i];
      NextMapped(OneMapped(k, v, rs[0]), v, rs[1..], i - 1);
    }
  }
}
