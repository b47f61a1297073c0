/**
  The block table of the kernel heap as a value: what an entry byte says, what a table that
  encodes a set of allocations looks like, and what the allocator's operations do to it.
 */
module HeapTable {
  import opened Options
  import opened Words

  const BLOCK_SIZE := 4096

  const FREE: bv8 := 0x00
  const TAKEN: bv8 := 0x01
  const HAS_NEXT: bv8 := 0x80
  const IS_FIRST: bv8 := 0x40

  type Table = seq<bv8>

  /** Live allocations: first block |-> number of blocks. */
  type Runs = map<nat, nat>

  // ---------- Encoding ----------

  /** The byte of block i inside a run of k blocks that starts at block s. */
  function RunEntry(i: nat, s: nat, k: nat): bv8
  {
    if k == 1 then TAKEN | IS_FIRST
    else if i == s then TAKEN | IS_FIRST | HAS_NEXT
    else if i == s + k - 1 then TAKEN
    else TAKEN | HAS_NEXT
  }

  /** Bit 0 says taken, bit 6 first of its run, bit 7 that the run goes on; no other bit is used. */
  lemma EntryBits(i: nat, s: nat, k: nat)
    requires s <= i < s + k
    ensures RunEntry(i, s, k) & 1 == 1
    ensures RunEntry(i, s, k) & 0x40 != 0 <==> i == s
    ensures RunEntry(i, s, k) & 0x80 != 0 <==> i + 1 < s + k
    ensures RunEntry(i, s, k) & 0x3e == 0
  {}

  ghost predicate Covers(live: Runs, s: nat, i: nat)
  {
    s in live && s <= i < s + live[s]
  }

  /** The runs are non-empty, lie inside a table of n blocks and are pairwise disjoint. */
  ghost predicate Disjoint(n: nat, live: Runs)
  {
    && (forall s :: s in live ==> live[s] >= 1 && s + live[s] <= n)
    && (forall s, r :: s in live && r in live && s < r ==> s + live[s] <= r)
  }

  /**
    The table holds exactly the encoding of the live runs, except that the blocks in `lost`
    are taken although no live run covers them. With `lost == {}` the encoding is exact.
   */
  ghost predicate Encodes(t: Table, live: Runs, lost: set<nat>)
  {
    && Disjoint(|t|, live)
    && (forall s: nat, i: nat :: Covers(live, s, i) ==> t[i] == RunEntry(i, s, live[s]) && i !in lost)
    && (forall i :: i in lost ==> i < |t| && t[i] != FREE)
    && (forall i :: 0 <= i < |t| && t[i] != FREE && i !in lost ==> exists s :: Covers(live, s, i))
  }

  /** The live runs determine the table ... */
  lemma RunsDetermineTable(t: Table, u: Table, live: Runs)
    requires |t| == |u| && Encodes(t, live, {}) && Encodes(u, live, {})
    ensures t == u
  {
    forall i | 0 <= i < |t|
      ensures t[i] == u[i]
    {
      if s :| Covers(live, s, i) {
        assert t[i] == RunEntry(i, s, live[s]) == u[i];
      }
    }
  }

  /** ... and the table determines the live runs: no two sets of allocations share an encoding. */
  lemma TableDeterminesRuns(t: Table, a: Runs, b: Runs)
    requires Encodes(t, a, {}) && Encodes(t, b, {})
    ensures a == b
  {
    forall s | s in a
      ensures s in b && b[s] == a[s]
    {
      SameRun(t, a, b, s);
    }
    forall s | s in b
      ensures s in a
    {
      SameRun(t, b, a, s);
    }
  }

  lemma SameRun(t: Table, a: Runs, b: Runs, s: nat)
    requires Encodes(t, a, {}) && Encodes(t, b, {}) && s in a
    ensures s in b && b[s] == a[s]
  {
    assert Covers(a, s, s);
    var r :| Covers(b, r, s);
    assert t[s] & IS_FIRST != 0;
    assert r == s;
    EndsNoLater(t, a, b, s);
    EndsNoLater(t, b, a, s);
  }

  /** A run's last byte has no HAS_NEXT bit, so no other encoding of the table carries the run on. */
  lemma EndsNoLater(t: Table, a: Runs, b: Runs, s: nat)
    requires Encodes(t, a, {}) && Encodes(t, b, {}) && s in a && s in b
    ensures b[s] <= a[s]
  {
    var last := s + a[s] - 1;
    assert Covers(a, s, last);
    assert t[last] & HAS_NEXT == 0;
    assert a[s] < b[s] ==> Covers(b, s, last);
  }

  // ---------- Finding and taking blocks ----------

  ghost predicate FreeRun(t: Table, s: nat, k: nat)
  {
    s + k <= |t| && forall i :: s <= i < s + k ==> t[i] == FREE
  }

  /** The start of the first run of k free blocks, if there is one and k is not 0. */
  ghost function FirstFit(t: Table, k: nat): (r: Option<nat>)
    ensures r.Some? ==> FreeRun(t, r.value, k) && forall s :: 0 <= s < r.value ==> !FreeRun(t, s, k)
    ensures r.None? <==> k == 0 || forall s :: !FreeRun(t, s, k)
  {
    if k == 0 then None else FitFrom(t, k, 0)
  }

  ghost function FitFrom(t: Table, k: nat, from: nat): (r: Option<nat>)
    requires k > 0
    ensures r.Some? ==> from <= r.value && FreeRun(t, r.value, k) && forall s :: from <= s < r.value ==> !FreeRun(t, s, k)
    ensures r.None? ==> forall s :: from <= s ==> !FreeRun(t, s, k)
    decreases |t| - from
  {
    if from + k > |t| then None
    else if FreeRun(t, from, k) then Some(from)
    else FitFrom(t, k, from + 1)
  }

  /** The table once the run of k blocks from s is marked taken. */
  function Marked(t: Table, s: nat, k: nat): Table
  {
    seq(|t|, i requires 0 <= i < |t| => if s <= i < s + k then RunEntry(i, s, k) else t[i])
  }

  /** The request size rounded up to whole blocks, in 32-bit arithmetic. */
  function AlignedSize(size: u32): (r: u32)
  {
    if size % BLOCK_SIZE == 0 then size
    else (size - size % BLOCK_SIZE + BLOCK_SIZE) % TWO32
  }

  function BlocksFor(size: u32): nat
  {
    AlignedSize(size) / BLOCK_SIZE
  }

  ghost function MallocTable(t: Table, size: u32): Table
  {
    match FirstFit(t, BlocksFor(size))
    case None => t
    case Some(s) => Marked(t, s, BlocksFor(size))
  }

  /** The address malloc returns from a heap at `base`: 0 when no run of blocks fits. */
  ghost function MallocResult(base: nat, t: Table, size: u32): nat
  {
    match FirstFit(t, BlocksFor(size))
    case None => 0
    case Some(s) => base + BLOCK_SIZE * s
  }

  /**
    No size is rounded to a region shorter than itself: rounding wraps to zero blocks exactly for
    size 0 and the sizes above 0xfffff000, and otherwise gives the least number of blocks that covers it.
   */
  lemma RoundingNeverShort(size: u32)
    ensures BlocksFor(size) == 0 <==> size == 0 || size > 0xffff_f000
    ensures BlocksFor(size) > 0 ==> BLOCK_SIZE * (BlocksFor(size) - 1) < size <= BLOCK_SIZE * BlocksFor(size)
  {
    var q, r := size / BLOCK_SIZE, size % BLOCK_SIZE;
    assert size == BLOCK_SIZE * q + r;
    if r != 0 {
      assert size - r + BLOCK_SIZE == BLOCK_SIZE * (q + 1);
      assert q == 0xfffff <==> size > 0xffff_f000;
    }
  }

  /** The blocks that are free. */
  ghost function FreeBlocks(t: Table): set<nat>
  {
    set i: nat | i < |t| && t[i] == FREE
  }

  /** Whatever malloc returns from a heap inside the address space is sound. */
  lemma MallocSound(base: u32, t: Table, size: u32)
    requires 0 < base && base % BLOCK_SIZE == 0 && base + BLOCK_SIZE * |t| <= TWO32
    ensures var r := MallocResult(base, t, size);
            && 0 <= r < TWO32
            && (r == 0 <==> FirstFit(t, BlocksFor(size)).None?)
            && (r == 0 ==> MallocTable(t, size) == t)
            && (size == 0 || size > 0xffff_f000 ==> r == 0)
            && (r != 0 ==> r % BLOCK_SIZE == 0 && base <= r && r + size <= base + BLOCK_SIZE * |t|)
            && (r != 0 ==> forall i: nat ::
                 (r - base) / BLOCK_SIZE <= i < (r - base + size + BLOCK_SIZE - 1) / BLOCK_SIZE ==>
                 i < |t| && t[i] == FREE && MallocTable(t, size)[i] != FREE)
  {
    RoundingNeverShort(size);
    var k := BlocksFor(size);
    match FirstFit(t, k) {
      case None =>
      case Some(s) =>
        assert (BLOCK_SIZE * s + size + BLOCK_SIZE - 1) / BLOCK_SIZE == s + k;
    }
  }

  /** A one-block request succeeds exactly when some block is free; it then takes the first free one. */
  lemma OneBlockFit(t: Table)
    ensures FirstFit(t, 1).Some? <==> FreeBlocks(t) != {}
    ensures forall s :: FirstFit(t, 1) == Some(s) ==>
              s in FreeBlocks(t) && FreeBlocks(Marked(t, s, 1)) == FreeBlocks(t) - {s}
  {
    forall s | s in FreeBlocks(t)
      ensures FreeRun(t, s, 1)
    {}
    match FirstFit(t, 1) {
      case None =>
      case Some(s) => assert s in FreeBlocks(t);
    }
  }

  // ---------- Giving blocks back ----------

  /** The block of an address in a heap at `base`, in 32-bit arithmetic. */
  function BlockOf(base: u32, addr: u32): nat
  {
    (addr - base) % TWO32 / BLOCK_SIZE
  }

  /** free_blocks as written: the entry is cleared before its HAS_NEXT bit is tested. */
  function FreedWritten(t: Table, s: nat): Table
  {
    if s < |t| then t[s := FREE] else t
  }

  /** free_blocks as meant: the HAS_NEXT bit is read before the entry is cleared. */
  function FreedMeant(t: Table, s: nat): (u: Table)
    ensures |u| == |t|
    decreases |t| - s
  {
    if s >= |t| then t
    else if t[s] & HAS_NEXT == 0 then t[s := FREE]
    else FreedMeant(t[s := FREE], s + 1)
  }

  /** The table with the k blocks from s free. */
  function Cleared(t: Table, s: nat, k: nat): Table
  {
    seq(|t|, i requires 0 <= i < |t| => if s <= i < s + k then FREE else t[i])
  }

  /** From inside a run, the meant free clears up to the run's last block and no further. */
  lemma {:induction false} MeantClearsRun(t: Table, s: nat, k: nat, from: nat)
    requires k >= 1 && s <= from < s + k <= |t|
    requires forall i :: from <= i < s + k ==> t[i] == RunEntry(i, s, k)
    ensures FreedMeant(t, from) == Cleared(t, from, s + k - from)
    decreases s + k - from
  {
    if from + 1 < s + k {
      MeantClearsRun(t[from := FREE], s, k, from + 1);
    }
  }

  /** malloc then the meant free gives the table back byte for byte. */
  lemma MallocThenFree(t: Table, s: nat, k: nat)
    requires k >= 1 && FreeRun(t, s, k)
    ensures FreedMeant(Marked(t, s, k), s) == t
  {
    MeantClearsRun(Marked(t, s, k), s, k, s);
  }

  /** malloc then the written free gives the table back exactly when one block was taken. */
  lemma MallocThenWrittenFree(t: Table, s: nat, k: nat)
    requires k >= 1 && FreeRun(t, s, k)
    ensures FreedWritten(Marked(t, s, k), s) == t <==> k == 1
    ensures forall i :: s < i < s + k ==> FreedWritten(Marked(t, s, k), s)[i] != FREE
  {
    var u := FreedWritten(Marked(t, s, k), s);
    if k == 1 {
      assert u == t;
    } else {
      assert u[s + 1] == RunEntry(s + 1, s, k) != FREE;
    }
  }
}
