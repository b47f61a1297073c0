/** The first-fit block allocator, working in place on its entry table. */
module Heap {
  import opened Status
  import opened Options
  import opened Words
  import opened HeapTable


  /** -1 and -ERR_MALLOC_FAIL as the 32-bit words they become. */
  const NO_BLOCK: u32 := 0xffff_ffff
  const NO_FIT: u32 := 0xffff_fffe

  /** The difference of two pointers is a signed word; its quotient, rounded to zero, is compared as an unsigned one. */
  function BlocksBetween(saddr: u32, eaddr: u32): u32
  {
    var d := (eaddr - saddr) % TWO32;
    if d < 0x8000_0000 then d / BLOCK_SIZE else (-((TWO32 - d) / BLOCK_SIZE)) % TWO32
  }

  class Heap {
    var entries: array<bv8>
    var base: u32

    ghost predicate Valid()
      reads this
    {
      base % BLOCK_SIZE == 0 && base + BLOCK_SIZE * entries.Length <= TWO32
    }

    constructor (table: array<bv8>)
      ensures entries == table && base == 0
    {
      entries := table;
      base := 0;
    }

    /** Sets up the heap over [saddr, eaddr) with the given entry table. */
    method Create(saddr: u32, eaddr: u32, table: array<bv8>) returns (status: int)
      requires table.Length < TWO32
      modifies this, table
      ensures status == SUCCESS <==>
              saddr % BLOCK_SIZE == 0 && eaddr % BLOCK_SIZE == 0 && table.Length == BlocksBetween(saddr, eaddr)
      ensures status == SUCCESS ==>
              base == saddr && entries == table && forall i :: 0 <= i < table.Length ==> table[i] == FREE
      ensures status == SUCCESS && saddr <= eaddr < saddr + 0x8000_0000 ==>
              Valid() && BLOCK_SIZE * table.Length == eaddr - saddr
      ensures status != SUCCESS ==>
              status == -ERR_INVARG && base == old(base) && entries == old(entries) && table[..] == old(table[..])
    {
      if saddr % BLOCK_SIZE != 0 || eaddr % BLOCK_SIZE != 0 {
        return -ERR_INVARG;
      }
      if table.Length != BlocksBetween(saddr, eaddr) {
        return -ERR_INVARG;
      }
      base := saddr;
      entries := table;
      var i := 0;
      while i < table.Length
        modifies table
        invariant 0 <= i <= table.Length
        invariant forall j :: 0 <= j < i ==> table[j] == FREE
      {
        table[i] := FREE;
        i := i + 1;
      }
      status := SUCCESS;
    }

    /** The least start of k consecutive free entries; NO_FIT when there is none, or when k is 0. */
    method FindFreeEntry(k: u32) returns (r: u32)
      requires Valid()
      ensures FirstFit(entries[..], k).None? ==> r == NO_FIT
      ensures FirstFit(entries[..], k).Some? ==> r == FirstFit(entries[..], k).value
    {
      ghost var t := entries[..];
      var count: u32, start: u32 := 0, NO_BLOCK;
      var current := 0;
      while current < entries.Length
        invariant 0 <= current <= entries.Length
        invariant start == NO_BLOCK ==> count == 0 && (current == 0 || t[current - 1] != FREE)
        invariant start != NO_BLOCK ==>
                  && start + count == current
                  && (start == 0 || t[start - 1] != FREE)
                  && FreeRun(t, start, count)
        invariant k > 0 ==> count < k
        invariant k > 0 ==> forall s: nat :: s + k <= current ==> !FreeRun(t, s, k)
      {
        if entries[current] != FREE {
          BrokenByTaken(t, k, current);
          start := NO_BLOCK;
          count := 0;
        } else {
          if start == NO_BLOCK {
            start := current;
          }
          count := count + 1;
          if count == k {
            BrokenBefore(t, k, start, current);
            return start;
          }
          BrokenTooShort(t, k, start, count, current);
        }
        current := current + 1;
      }
      r := NO_FIT;
    }

    /** Marks the blocks from sblock to eblock taken, as one run. */
    method MarkBlocksTaken(sblock: u32, eblock: u32)
      requires sblock <= eblock < entries.Length
      modifies entries
      ensures entries[..] == Marked(old(entries[..]), sblock, eblock - sblock + 1)
    {
      if sblock == eblock {
        entries[sblock] := TAKEN | IS_FIRST;
        return;
      }
      ghost var k := eblock - sblock + 1;
      var block := sblock;
      while block <= eblock
        invariant sblock <= block <= eblock + 1
        invariant forall i :: 0 <= i < entries.Length ==>
                    entries[i] == if sblock <= i < block then RunEntry(i, sblock, k) else old(entries[..])[i]
      {
        if block == sblock {
          entries[block] := TAKEN | IS_FIRST | HAS_NEXT;
        } else if block == eblock {
          entries[block] := TAKEN;
        } else {
          entries[block] := TAKEN | HAS_NEXT;
        }
        block := block + 1;
      }
    }

    method MallocBlocks(k: u32) returns (r: u32)
      requires Valid()
      modifies entries
      ensures FirstFit(old(entries[..]), k).None? ==> r == 0 && entries[..] == old(entries[..])
      ensures FirstFit(old(entries[..]), k).Some? ==>
              var s := FirstFit(old(entries[..]), k).value;
              r == base + BLOCK_SIZE * s && entries[..] == Marked(old(entries[..]), s, k)
    {
      var start := FindFreeEntry(k);
      if start == NO_FIT {
        return 0;
      }
      MarkBlocksTaken(start, start + k - 1);
      r := base + BLOCK_SIZE * start;
    }

    method Malloc(size: u32) returns (r: u32)
      requires Valid()
      modifies entries
      ensures entries[..] == MallocTable(old(entries[..]), size)
      ensures r == MallocResult(base, old(entries[..]), size)
    {
      var alignedSize := AlignedSize(size);
      r := MallocBlocks(alignedSize / BLOCK_SIZE);
    }

    /** free_blocks as written: it stops after the first entry, which it has cleared before looking at it. */
    method FreeBlocks(startBlock: u32)
      requires entries.Length < TWO32
      modifies entries
      ensures entries[..] == FreedWritten(old(entries[..]), startBlock)
    {
      var block: int, more := startBlock, true;
      while more && block < entries.Length
        invariant if more then block == startBlock && entries[..] == old(entries[..])
                  else startBlock < entries.Length && entries[..] == old(entries[..])[startBlock := FREE]
        decreases entries.Length - block
      {
        entries[block] := FREE;
        more := entries[block] & HAS_NEXT != 0;
        block := block + 1;
      }
    }

    /** free_blocks as meant: the HAS_NEXT bit is read before the entry is cleared. */
    method FreeBlocksMeant(startBlock: u32)
      requires entries.Length < TWO32
      modifies entries
      ensures entries[..] == FreedMeant(old(entries[..]), startBlock)
    {
      var block: int := startBlock;
      while block < entries.Length
        invariant block >= startBlock
        invariant FreedMeant(entries[..], block) == FreedMeant(old(entries[..]), startBlock)
      {
        var hasNext := entries[block] & HAS_NEXT != 0;
        ghost var before := entries[..];
        entries[block] := FREE;
        assert entries[..] == before[block := FREE];
        if !hasNext {
          return;
        }
        block := block + 1;
      }
    }

    method Free(addr: u32)
      requires Valid()
      modifies entries
      ensures entries[..] == FreedWritten(old(entries[..]), BlockOf(base, addr))
    {
      FreeBlocks((addr - base) % TWO32 / BLOCK_SIZE);
    }
  }

  // A window of k blocks that ends just after `current` ...

  lemma BrokenByTaken(t: Table, k: nat, current: nat)
    requires current < |t| && t[current] != FREE
    requires k > 0 ==> forall s: nat :: s + k <= current ==> !FreeRun(t, s, k)
    ensures k > 0 ==> forall s: nat :: s + k <= current + 1 ==> !FreeRun(t, s, k)
  {}

  lemma BrokenTooShort(t: Table, k: nat, start: nat, count: nat, current: nat)
    requires current < |t| && start + count == current + 1 && (start == 0 || t[start - 1] != FREE)
    requires k > 0 ==> count < k && forall s: nat :: s + k <= current ==> !FreeRun(t, s, k)
    ensures k > 0 ==> forall s: nat :: s + k <= current + 1 ==> !FreeRun(t, s, k)
  {}

  lemma BrokenBefore(t: Table, k: nat, start: nat, current: nat)
    requires k > 0 && current < |t| && start + k == current + 1
    requires forall s: nat :: s + k <= current ==> !FreeRun(t, s, k)
    requires FreeRun(t, start, k)
    ensures FirstFit(t, k) == Some(start)
  {}
}
