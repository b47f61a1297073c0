/** Reading a byte range of a disk sector by sector. */
module Disk {
  import opened Words

  const SECTOR_SIZE := 512

  /** All sectors that a read of n bytes at pos touches are on the disk, and positions fit 32 bits. */
  predicate Readable(image: seq<byte>, pos: nat, n: nat)
  {
    pos + n < TWO32 && SECTOR_SIZE * ((pos + n) / SECTOR_SIZE + 1) <= |image|
  }

  /** `count` consecutive sector numbers. */
  function Sectors(first: nat, count: nat): seq<nat>
  {
    seq(count, i requires 0 <= i < count => first + i)
  }

  /** The array contents with the given bytes written at `at`. */
  function Written(s: seq<byte>, at: nat, bytes: seq<byte>): seq<byte>
    requires at + |bytes| <= |s|
  {
    seq(|s|, i requires 0 <= i < |s| => if at <= i < at + |bytes| then bytes[i - at] else s[i])
  }

  class Stream {
    var pos: u32
    /** The sectors read so far. */
    ghost var log: seq<nat>

    constructor ()
      ensures pos == 0 && log == []
    {
      pos, log := 0, [];
    }

    method Seek(position: u32)
      modifies this
      ensures pos == position && log == old(log)
    {
      pos := position;
    }

    /** Copies part of one sector, read into a buffer of its own, and advances the position. */
    method ReadSector(image: seq<byte>, out: array<byte>, at: nat, sector: u32, sectorOffset: nat, n: nat)
      requires sectorOffset + n <= SECTOR_SIZE && at + n <= out.Length
      requires pos == SECTOR_SIZE * sector + sectorOffset && pos + n < TWO32 && SECTOR_SIZE * (sector + 1) <= |image|
      modifies this, out
      ensures pos == old(pos) + n && log == old(log) + [sector]
      ensures out[..] == Written(old(out[..]), at, image[old(pos)..old(pos) + n])
    {
      var buffer := image[SECTOR_SIZE * sector..SECTOR_SIZE * (sector + 1)];
      log := log + [sector];
      ghost var s0, bytes := out[..], image[pos..pos + n];
      assert bytes == buffer[sectorOffset..sectorOffset + n];
      var index := 0;
      while index < n
        modifies out
        invariant 0 <= index <= n
        invariant forall i :: 0 <= i < out.Length ==>
                    out[i] == if at <= i < at + index then bytes[i - at] else s0[i]
      {
        assert bytes[index] == buffer[sectorOffset + index];
        out[at + index] := buffer[sectorOffset + index];
        index := index + 1;
      }
      assert out[..] == Written(s0, at, bytes);
      pos := pos + n;
    }

    /**
      Delivers exactly the n bytes at the position, advances it by n, and reads the sectors from the
      first byte's to that of the byte after the last, which is one more than needed at a sector's end.
     */
    method Read(image: seq<byte>, out: array<byte>, at: nat, n: u32)
      requires Readable(image, pos, n) && at + n <= out.Length
      modifies this, out
      ensures pos == old(pos) + n
      ensures out[..] == Written(old(out[..]), at, image[old(pos)..old(pos) + n])
      ensures log == old(log) + Touched(old(pos), n)
      decreases n
    {
      var sector := pos / SECTOR_SIZE;
      var sectorOffset := pos % SECTOR_SIZE;
      var isOverflowing := sectorOffset + n >= SECTOR_SIZE;
      SectorOnDisk(image, pos, n);
      if isOverflowing {
        ghost var p, s0 := pos, out[..];
        var m := n - (sectorOffset + n - SECTOR_SIZE);
        NextSector(image, p, n);
        ReadSector(image, out, at, sector, sectorOffset, m);
        ghost var s1 := out[..];
        Read(image, out, at + m, n - m);
        WrittenTwice(s0, s1, out[..], at, image, p, p + m, p + n);
      } else {
        OneSector(pos, n);
        ReadSector(image, out, at, sector, sectorOffset, n);
      }
    }
  }

  /** The sectors a read of n bytes at pos reads. */
  function Touched(pos: nat, n: nat): seq<nat>
  {
    Sectors(pos / SECTOR_SIZE, (pos % SECTOR_SIZE + n) / SECTOR_SIZE + 1)
  }

  lemma OneSector(pos: nat, n: nat)
    requires pos % SECTOR_SIZE + n < SECTOR_SIZE
    ensures Touched(pos, n) == [pos / SECTOR_SIZE]
  {}

  lemma SectorOnDisk(image: seq<byte>, pos: nat, n: nat)
    requires Readable(image, pos, n)
    ensures SECTOR_SIZE * (pos / SECTOR_SIZE + 1) <= |image|
    ensures pos == SECTOR_SIZE * (pos / SECTOR_SIZE) + pos % SECTOR_SIZE
  {}

  /** The rest of an overflowing read starts at the next sector. */
  lemma NextSector(image: seq<byte>, pos: nat, n: nat)
    requires Readable(image, pos, n) && pos % SECTOR_SIZE + n >= SECTOR_SIZE
    ensures var m := SECTOR_SIZE - pos % SECTOR_SIZE;
            && 0 < m <= n && Readable(image, pos + m, n - m)
            && Touched(pos, n) == [pos / SECTOR_SIZE] + Touched(pos + m, n - m)
  {
    var q, r := pos / SECTOR_SIZE, pos % SECTOR_SIZE;
    var m := SECTOR_SIZE - r;
    assert pos + m == SECTOR_SIZE * (q + 1);
    assert (pos + m) / SECTOR_SIZE == q + 1 && (pos + m) % SECTOR_SIZE == 0;
    assert (r + n) / SECTOR_SIZE == (n - m) / SECTOR_SIZE + 1;
  }

  lemma WrittenTwice(s0: seq<byte>, s1: seq<byte>, s2: seq<byte>, at: nat, image: seq<byte>, a: nat, b: nat, c: nat)
    requires a <= b <= c <= |image| && at + (c - a) <= |s0|
    requires s1 == Written(s0, at, image[a..b]) && s2 == Written(s1, at + (b - a), image[b..c])
    ensures s2 == Written(s0, at, image[a..c])
  {}
}
