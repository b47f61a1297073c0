/**
  Reading a file as the code is written, and exactly where that departs from the meant read of Fat16:
  the table position multiplies, the whole offset is added to the cluster's position, a piece is not cut
  at the cluster's end, a failed lookup is tested on an unsigned value, and the marks have 12 bits.
 */
module Fat16Written {
  import opened Status
  import opened Options
  import opened Words
  import opened Disk
  import opened Fat16
  import opened EntryPosition

  // ---------- The written read ----------

  /** A byte of the disk at a 32-bit position; `off` is what the disk answers past its image. */
  function DiskByte(v: Volume, off: u32 -> byte, pos: u32): byte
  {
    if pos < |v.image| then v.image[pos] else off(pos)
  }

  function EntryWritten(v: Volume, off: u32 -> byte, cluster: u32): (e: nat)
    ensures e < 0x1_0000
  {
    var pos := EntryPosWritten(v, cluster);
    (DiskByte(v, off, pos) as int) + 0x100 * (DiskByte(v, off, Plus(pos, 1)) as int)
  }

  /** The k-th cluster of a chain as the written lookup finds it. */
  function FollowWritten(v: Volume, off: u32 -> byte, cluster: nat, k: nat): (r: Option<nat>)
    requires cluster < 0x1_0000
    ensures r.Some? ==> r.value < 0x1_0000
    decreases k
  {
    if k == 0 then Some(cluster)
    else
      var entry := EntryWritten(v, off, cluster);
      if Stops(entry) then None else FollowWritten(v, off, entry, k - 1)
  }

  /** The cluster of an offset, in the unsigned variable: a failure is the word of -ERR_INVARG. */
  function ClusterWritten(v: Volume, off: u32 -> byte, first: nat, offset: nat): u32
    requires Proper(v) && first < 0x1_0000
  {
    match FollowWritten(v, off, first, ClusterIndex(v, offset))
    case None => TWO32 - ERR_INVARG
    case Some(c) => c
  }

  /** Where a piece of the read starts on the disk, in 32-bit arithmetic. */
  function PieceStart(v: Volume, cluster: u32, offset: nat): u32
  {
    (ClusterPos(v, cluster) + offset) % TWO32
  }

  function Consecutive(pos: u32, n: nat): seq<u32>
  {
    seq(n, i requires 0 <= i < n => (pos + i) % TWO32)
  }

  /** The disk positions that the whole written read takes its bytes from, in order. */
  function WrittenPositions(v: Volume, off: u32 -> byte, first: nat, offset: nat, size: nat): (r: seq<u32>)
    requires Proper(v) && first < 0x1_0000
    ensures |r| == size
    decreases size
  {
    var n := Min(size, ClusterSize(v));
    var piece := Consecutive(PieceStart(v, ClusterWritten(v, off, first, offset), offset), n);
    if size <= n then piece else piece + WrittenPositions(v, off, first, offset + n, size - n)
  }

  /** The bytes it delivers. */
  function WrittenBytes(v: Volume, off: u32 -> byte, first: nat, offset: nat, size: nat): (r: seq<byte>)
    requires Proper(v) && first < 0x1_0000
    ensures |r| == size
  {
    DiskBytes(v, off, WrittenPositions(v, off, first, offset, size))
  }

  function DiskBytes(v: Volume, off: u32 -> byte, ps: seq<u32>): (r: seq<byte>)
    ensures |r| == |ps|
  {
    seq(|ps|, i requires 0 <= i < |ps| => DiskByte(v, off, ps[i]))
  }

  /** The test `current_cluster < 0`, on the unsigned variable. */
  function WrittenStatus(v: Volume, off: u32 -> byte, first: nat, offset: nat): int
    requires Proper(v) && first < 0x1_0000
  {
    if ClusterWritten(v, off, first, offset) < 0 then -ERR_INVARG else SUCCESS
  }

  /** The written read never fails, so its status is the meant one exactly when the chain reaches the offset. */
  lemma WrittenNeverFails(v: Volume, off: u32 -> byte, first: nat, offset: nat)
    requires Proper(v) && TableReadable(v) && first < 0x1_0000
    ensures WrittenStatus(v, off, first, offset) == SUCCESS
    ensures WrittenStatus(v, off, first, offset) == MeantStatus(v, first, offset) <==>
            Follow(v, first, ClusterIndex(v, offset)).Some?
  {}

  // ---------- When its positions are the meant ones ----------

  /** The disk position of a file's byte, as meant. */
  function MeantPosition(v: Volume, first: nat, offset: nat): Option<int>
    requires Proper(v) && TableReadable(v) && first < 0x1_0000
  {
    match Follow(v, first, ClusterIndex(v, offset))
    case None => None
    case Some(c) => Some(ClusterPos(v, c) + ClusterOffset(v, offset))
  }

  ghost predicate SamePlaces(v: Volume, first: nat, offset: nat, ps: seq<u32>)
    requires Proper(v) && TableReadable(v) && first < 0x1_0000
  {
    forall i :: 0 <= i < |ps| ==> MeantPosition(v, first, offset + i) == Some(ps[i])
  }

  /** The k-th cluster of the chain lies at a position, taken modulo 2^32. */
  predicate LiesAt(v: Volume, first: nat, k: nat, pos: int)
    requires Proper(v) && TableReadable(v) && first < 0x1_0000
  {
    var c := Follow(v, first, k);
    c.Some? && ClusterPos(v, c.value) == pos % TWO32
  }

  /**
    A piece of n bytes is right: the cluster of its offset lies as many clusters behind the one looked up
    as the offset has clusters, and so does the next one, if the piece runs into it.
   */
  predicate PieceRight(v: Volume, off: u32 -> byte, first: nat, offset: nat, n: nat)
    requires Proper(v) && TableReadable(v) && first < 0x1_0000
  {
    var pos := ClusterPos(v, ClusterWritten(v, off, first, offset)) + offset - ClusterOffset(v, offset);
    && (n > 0 ==> LiesAt(v, first, ClusterIndex(v, offset), pos))
    && (ClusterOffset(v, offset) + n > ClusterSize(v) ==>
          LiesAt(v, first, ClusterIndex(v, offset) + 1, pos + ClusterSize(v)))
  }

  /** All pieces of the read are right. */
  predicate PiecesRight(v: Volume, off: u32 -> byte, first: nat, offset: nat, size: nat)
    requires Proper(v) && TableReadable(v) && first < 0x1_0000
    decreases size
  {
    var n := Min(size, ClusterSize(v));
    PieceRight(v, off, first, offset, n) && (size > n ==> PiecesRight(v, off, first, offset + n, size - n))
  }

  /** For every read: the written one takes each byte from its meant position exactly when all its pieces are right. */
  lemma {:induction false} WrittenAgrees(v: Volume, off: u32 -> byte, first: nat, offset: nat, size: nat)
    requires Proper(v) && TableReadable(v) && first < 0x1_0000 && BytesReadable(v, first, offset, size)
    ensures SamePlaces(v, first, offset, WrittenPositions(v, off, first, offset, size)) <==>
            PiecesRight(v, off, first, offset, size)
    decreases size
  {
    var n := Min(size, ClusterSize(v));
    var piece := Consecutive(PieceStart(v, ClusterWritten(v, off, first, offset), offset), n);
    PieceAgrees(v, off, first, offset, n);
    if size > n {
      WrittenAgrees(v, off, first, offset + n, size - n);
      PlacesSplit(v, first, offset, piece, WrittenPositions(v, off, first, offset + n, size - n));
    }
  }

  lemma PlacesSplit(v: Volume, first: nat, offset: nat, ps: seq<u32>, qs: seq<u32>)
    requires Proper(v) && TableReadable(v) && first < 0x1_0000
    ensures SamePlaces(v, first, offset, ps + qs) <==>
            SamePlaces(v, first, offset, ps) && SamePlaces(v, first, offset + |ps|, qs)
  {
    if SamePlaces(v, first, offset, ps + qs) {
      forall i | 0 <= i < |qs|
        ensures MeantPosition(v, first, offset + |ps| + i) == Some(qs[i])
      {
        assert (ps + qs)[|ps| + i] == qs[i];
      }
      forall i | 0 <= i < |ps|
        ensures MeantPosition(v, first, offset + i) == Some(ps[i])
      {
        assert (ps + qs)[i] == ps[i];
      }
    } else if SamePlaces(v, first, offset, ps) && SamePlaces(v, first, offset + |ps|, qs) {
      forall i | 0 <= i < |ps + qs|
        ensures MeantPosition(v, first, offset + i) == Some((ps + qs)[i])
      {
        if i >= |ps| {
          assert MeantPosition(v, first, offset + |ps| + (i - |ps|)) == Some(qs[i - |ps|]);
        }
      }
    }
  }

  lemma PieceAgrees(v: Volume, off: u32 -> byte, first: nat, offset: nat, n: nat)
    requires Proper(v) && TableReadable(v) && first < 0x1_0000 && BytesReadable(v, first, offset, n)
    requires n <= ClusterSize(v)
    ensures SamePlaces(v, first, offset, Consecutive(PieceStart(v, ClusterWritten(v, off, first, offset), offset), n)) <==>
            PieceRight(v, off, first, offset, n)
  {
    var w, r, c := ClusterWritten(v, off, first, offset), ClusterOffset(v, offset), ClusterSize(v);
    var pos := ClusterPos(v, w) + offset - r;
    var ps := Consecutive(PieceStart(v, w, offset), n);
    forall i | 0 <= i < n
      ensures MeantPosition(v, first, offset + i) == Some(ps[i]) <==>
              if r + i < c then LiesAt(v, first, ClusterIndex(v, offset), pos)
              else LiesAt(v, first, ClusterIndex(v, offset) + 1, pos + c)
    {
      ByteAgrees(v, first, offset, i, w);
    }
    if n > 0 && SamePlaces(v, first, offset, ps) {
      assert MeantPosition(v, first, offset + 0) == Some(ps[0]);
      if r + n > c {
        assert MeantPosition(v, first, offset + (c - r)) == Some(ps[c - r]);
      }
    }
  }

  /** One byte of a piece: it is in the cluster of the piece's offset or in the next one. */
  lemma ByteAgrees(v: Volume, first: nat, offset: nat, i: nat, w: u32)
    requires Proper(v) && TableReadable(v) && first < 0x1_0000 && i < ClusterSize(v)
    requires OffsetReadable(v, first, offset + i)
    ensures var r, c := ClusterOffset(v, offset), ClusterSize(v);
            var pos := ClusterPos(v, w) + offset - r;
            MeantPosition(v, first, offset + i) == Some((PieceStart(v, w, offset) + i) % TWO32) <==>
            if r + i < c then LiesAt(v, first, ClusterIndex(v, offset), pos)
            else LiesAt(v, first, ClusterIndex(v, offset) + 1, pos + c)
  {
    var r, c := ClusterOffset(v, offset), ClusterSize(v);
    var k := ClusterIndex(v, offset) + if r + i < c then 0 else 1;
    var j := if r + i < c then r + i else r + i - c;
    IndexOfByte(offset, i, c);
    assert ClusterIndex(v, offset + i) == k && ClusterOffset(v, offset + i) == j;
    match Follow(v, first, k) {
      case None =>
      case Some(d) =>
        var base := ClusterPos(v, w) + offset - r + if r + i < c then 0 else c;
        SameModulo(ClusterPos(v, d), j, base, ClusterPos(v, w) + offset, i);
    }
  }

  lemma IndexOfByte(a: nat, i: nat, c: nat)
    requires i < c
    ensures (a + i) / c == a / c + (if a % c + i < c then 0 else 1)
    ensures (a + i) % c == a % c + i - (if a % c + i < c then 0 else c)
  {
    var q, r := a / c, a % c;
    assert a == q * c + r;
    if r + i < c {
      MultipleAdds(q, r + i, c);
    } else {
      assert (q + 1) * c == q * c + c;
      MultipleAdds(q + 1, r + i - c, c);
    }
  }

  lemma SameModulo(p: nat, j: nat, base: int, start: int, i: nat)
    requires p + j < TWO32 && base + j == start + i
    ensures p + j == (start % TWO32 + i) % TWO32 <==> p == base % TWO32
  {}

  // ---------- Reads of at most a cluster ----------

  /**
    A read of at most a cluster that starts in the first one is right exactly when it stays in that
    cluster, or the chain goes on with the next cluster of the disk.
   */
  lemma ShortReadAgrees(v: Volume, off: u32 -> byte, first: nat, offset: nat, size: nat)
    requires Proper(v) && TableReadable(v) && first < 0x1_0000 && BytesReadable(v, first, offset, size)
    requires offset < ClusterSize(v) && size <= ClusterSize(v) && ClusterReadable(v, first)
    ensures SamePlaces(v, first, offset, WrittenPositions(v, off, first, offset, size)) <==>
            offset + size <= ClusterSize(v) || Follow(v, first, 1) == Some(first + 1)
  {
    WrittenAgrees(v, off, first, offset, size);
    InFirst(v, off, first, offset);
    var pos, c := ClusterPos(v, first), ClusterSize(v);
    LiesBehind(v, first, pos + c);
  }

  lemma InFirst(v: Volume, off: u32 -> byte, first: nat, offset: nat)
    requires Proper(v) && TableReadable(v) && first < 0x1_0000 && offset < ClusterSize(v) && ClusterReadable(v, first)
    ensures ClusterIndex(v, offset) == 0 && ClusterOffset(v, offset) == offset
    ensures ClusterWritten(v, off, first, offset) == first
    ensures LiesAt(v, first, 0, ClusterPos(v, first))
  {
    SmallModulus(offset, ClusterSize(v));
    assert Follow(v, first, 0) == FollowWritten(v, off, first, 0) == Some(first);
  }

  /** The second cluster of the chain lies behind the first one exactly when it is the next one. */
  lemma LiesBehind(v: Volume, first: nat, behind: int)
    requires Proper(v) && TableReadable(v) && first < 0x1_0000 && ClusterReadable(v, first)
    requires behind == ClusterPos(v, first) + ClusterSize(v)
    ensures LiesAt(v, first, 1, behind) <==> Follow(v, first, 1) == Some(first + 1)
  {
    assert 0 <= behind < TWO32 && behind % TWO32 == behind;
    match Follow(v, first, 1) {
      case None =>
      case Some(d) => PositionsApart(v, first, d);
    }
  }

  /** Where the positions agree, so do the bytes: the written read delivers what the meant one does. */
  lemma SamePlacesSameBytes(v: Volume, off: u32 -> byte, first: nat, offset: nat, size: nat, s: seq<byte>, at: nat)
    requires Proper(v) && TableReadable(v) && first < 0x1_0000 && BytesReadable(v, first, offset, size)
    requires at + size <= |s| && SamePlaces(v, first, offset, WrittenPositions(v, off, first, offset, size))
    ensures Received(v, first, offset, size, s, at) == Written(s, at, WrittenBytes(v, off, first, offset, size))
  {
    var ps, bytes := WrittenPositions(v, off, first, offset, size), WrittenBytes(v, off, first, offset, size);
    forall o: nat | offset <= o < offset + |bytes|
      ensures Gives(v, first, offset, bytes, o)
    {
      assert OffsetReadable(v, first, o);
      assert MeantPosition(v, first, offset + (o - offset)) == Some(ps[o - offset]);
    }
    ReceivedIsWritten(v, first, offset, s, at, bytes);
  }

  /** Inside the first cluster the written read is right, status included, whatever the chain after it is. */
  lemma WrittenReadsFirstCluster(v: Volume, off: u32 -> byte, first: nat, offset: nat, size: nat, s: seq<byte>, at: nat)
    requires Proper(v) && TableReadable(v) && first < 0x1_0000 && ClusterReadable(v, first) && at + size <= |s|
    requires offset < ClusterSize(v) && offset + size <= ClusterSize(v)
    ensures BytesReadable(v, first, offset, size)
    ensures Received(v, first, offset, size, s, at) == Written(s, at, WrittenBytes(v, off, first, offset, size))
    ensures WrittenStatus(v, off, first, offset) == MeantStatus(v, first, offset) == SUCCESS
  {
    SmallModulus(offset, ClusterSize(v));
    assert Follow(v, first, 0) == Some(first);
    forall o: nat | offset <= o < offset + size
      ensures OffsetReadable(v, first, o)
    {
      SmallModulus(o, ClusterSize(v));
    }
    ShortReadAgrees(v, off, first, offset, size);
    SamePlacesSameBytes(v, off, first, offset, size, s, at);
  }

  // ---------- A read that goes wrong ----------

  /** A boot volume with a file in clusters 2 and 4, whose second cluster starts with a 1. */
  function SplitFile(): Volume
  {
    BootVolume(seq(563_712, i requires 0 <= i < 563_712 => if i == 102_404 then 4 else if i == 497_664 then 1 else 0))
  }

  /** From offset 1, a cluster's length of that file: the written read takes its last byte from cluster 3. */
  lemma WrittenReadFails(off: u32 -> byte)
    ensures var v, s := SplitFile(), seq(65_536, _ => 0);
            && Proper(v) && TableReadable(v) && BytesReadable(v, 2, 1, 65_536) && ReadOnDisk(v, off, 2, 1, 65_536)
            && Received(v, 2, 1, 65_536, s, 0)[65_535] == 1
            && Written(s, 0, WrittenBytes(v, off, 2, 1, 65_536))[65_535] == 0
  {
    var v := SplitFile();
    SplitFileChain(v);
    forall o: nat | 1 <= o < 65_537
      ensures OffsetReadable(v, 2, o)
    {
      assert o < 131_072;
      assert ClusterIndex(v, o) == if o < 65_536 then 0 else 1;
    }
    assert ClusterIndex(v, 65_536) == 1 && ClusterOffset(v, 65_536) == 0;
    var pos := PieceStart(v, ClusterWritten(v, off, 2, 1), 1);
    assert ClusterWritten(v, off, 2, 1) == 2 by {
      assert ClusterIndex(v, 1) == 0;
    }
    assert pos == 366_593;
    assert WrittenPositions(v, off, 2, 1, 65_536)[65_535] == 432_128;
  }

  lemma SplitFileChain(v: Volume)
    requires v == SplitFile()
    ensures Proper(v) && TableReadable(v) && ClusterSize(v) == 65_536
    ensures ClusterPos(v, 2) == 366_592 && ClusterPos(v, 4) == 497_664 && ClusterReadable(v, 2) && ClusterReadable(v, 4)
    ensures Follow(v, 2, 0) == Some(2) && Follow(v, 2, 1) == Some(4)
    ensures ClusterBytes(v, 4)[0] == 1
  {
    assert EntryPos(v, 2) == 102_404;
    assert TableEntry(v, 2) == 4;
    assert Follow(v, 4, 0) == Some(4);
  }

  // ---------- A file closed by an end mark of the specification ----------

  /**
    A one-cluster file of the boot volume that ends with the mark 0xffff: the code goes on to a cluster that is
    nowhere on the disk, but all reads inside the file ask for nothing there.
   */
  lemma MarkedFileReadable(v: Volume, offset: nat, size: nat)
    requires v == BootVolume(v.image) && |v.image| >= 432_640 && TableReadable(v) && TableEntry(v, 2) == 0xffff
    requires offset + size <= 65_536
    ensures Proper(v) && IsChain(v, [2]) && Readables(v, [2]) && |Content(v, [2])| == 65_536
    ensures BytesReadable(v, 2, offset, size) && (offset < 65_536 ==> OffsetReadable(v, 2, offset))
    ensures Follow(v, 2, 1) == Some(0xffff) && !ClusterReadable(v, 0xffff)
  {
    assert ClusterSize(v) == 65_536 && ClusterPos(v, 2) == 366_592;
    assert ClusterReadable(v, 2);
    ContentLength(v, [2], 65_536);
    assert Follow(v, 0xffff, 0) == Some(0xffff);
    forall o: nat | o < 65_536
      ensures OffsetReadable(v, 2, o)
    {
      assert ClusterIndex(v, o) == 0 && Follow(v, 2, 0) == Some(2);
    }
  }

  // ---------- Marks of 12 and of 16 bits ----------

  /** What ends a chain in the specification: unused 0, reserved from 0xfff0, bad 0xfff7, end from 0xfff8 on. */
  predicate FatStops(entry: nat)
  {
    entry == 0 || entry >= 0xfff0
  }

  /** The numbers of ordinary clusters that the code takes for a mark. */
  predicate TakenForMark(entry: nat)
  {
    entry == 0xff0 || entry == 0xff6 || entry == 0xff7 || entry == 0xff8 || entry == 0xfff
  }

  lemma MarksAgree(entry: nat)
    ensures Stops(entry) == FatStops(entry) <==> entry < 0xfff0 && !TakenForMark(entry)
  {}

  /** The k-th cluster of a chain by the marks of the specification. */
  function FollowFat(v: Volume, cluster: nat, k: nat): (r: Option<nat>)
    requires TableReadable(v) && cluster < 0x1_0000
    ensures r.Some? ==> r.value < 0x1_0000
    decreases k
  {
    if k == 0 then Some(cluster)
    else
      var entry := TableEntry(v, cluster);
      if FatStops(entry) then None else FollowFat(v, entry, k - 1)
  }

  /**
    The code follows a chain as the specification does, for all of k steps, exactly when no entry on the way
    is a mark of the specification or a cluster number that the code takes for one.
   */
  lemma {:induction false} FollowAgrees(v: Volume, cluster: nat, k: nat)
    requires TableReadable(v) && cluster < 0x1_0000
    ensures (forall j: nat :: j <= k ==> FollowsFat(v, cluster, j)) <==>
            forall j: nat :: j < k ==> EntryAgrees(v, cluster, j)
    decreases k
  {
    if k > 0 {
      var entry := TableEntry(v, cluster);
      MarksAgree(entry);
      assert FollowFat(v, cluster, 0) == Some(cluster);
      if Stops(entry) == FatStops(entry) {
        if !Stops(entry) {
          FollowAgrees(v, entry, k - 1);
          StepsShift(v, cluster, k);
        }
      } else {
        OneStops(v, cluster);
      }
    }
  }

  predicate FollowsFat(v: Volume, cluster: nat, j: nat)
    requires TableReadable(v) && cluster < 0x1_0000
  {
    Follow(v, cluster, j) == FollowFat(v, cluster, j)
  }

  /** By the specification the chain has stopped before the j-th entry, or the code reads that entry as it does. */
  predicate EntryAgrees(v: Volume, cluster: nat, j: nat)
    requires TableReadable(v) && cluster < 0x1_0000
  {
    var c := FollowFat(v, cluster, j);
    c.Some? ==> Stops(TableEntry(v, c.value)) == FatStops(TableEntry(v, c.value))
  }

  lemma StepsShift(v: Volume, cluster: nat, k: nat)
    requires TableReadable(v) && cluster < 0x1_0000 && k > 0
    requires !Stops(TableEntry(v, cluster)) && !FatStops(TableEntry(v, cluster))
    ensures var entry := TableEntry(v, cluster);
            && ((forall j: nat :: j <= k ==> FollowsFat(v, cluster, j)) <==>
                forall j: nat :: j <= k - 1 ==> FollowsFat(v, entry, j))
            && ((forall j: nat :: j < k ==> EntryAgrees(v, cluster, j)) <==>
                forall j: nat :: j < k - 1 ==> EntryAgrees(v, entry, j))
  {
    var entry := TableEntry(v, cluster);
    assert FollowsFat(v, cluster, 0) && EntryAgrees(v, cluster, 0);
    forall j: nat
      ensures FollowsFat(v, cluster, j + 1) <==> FollowsFat(v, entry, j)
      ensures EntryAgrees(v, cluster, j + 1) <==> EntryAgrees(v, entry, j)
    {}
    forall j: nat | 0 < j
      ensures FollowsFat(v, cluster, j) <==> FollowsFat(v, entry, j - 1)
      ensures EntryAgrees(v, cluster, j) <==> EntryAgrees(v, entry, j - 1)
    {
      assert FollowsFat(v, cluster, j - 1 + 1) <==> FollowsFat(v, entry, j - 1);
      assert EntryAgrees(v, cluster, j - 1 + 1) <==> EntryAgrees(v, entry, j - 1);
    }
  }

  lemma OneStops(v: Volume, cluster: nat)
    requires TableReadable(v) && cluster < 0x1_0000
    requires Stops(TableEntry(v, cluster)) != FatStops(TableEntry(v, cluster))
    ensures !FollowsFat(v, cluster, 1) && !EntryAgrees(v, cluster, 0)
  {
    var entry := TableEntry(v, cluster);
    assert Follow(v, entry, 0) == Some(entry) == FollowFat(v, entry, 0);
  }

  // ---------- The code ----------

  /** The table entries that the written lookup of the k-th cluster reads are on the disk. */
  ghost predicate LookupOnDisk(v: Volume, off: u32 -> byte, first: nat, k: nat)
    requires first < 0x1_0000
  {
    forall j: nat :: j < k ==>
      var c := FollowWritten(v, off, first, j);
      c.Some? ==> Readable(v.image, EntryPosWritten(v, c.value), 2)
  }

  /** Everything the written read touches is on the disk. */
  ghost predicate ReadOnDisk(v: Volume, off: u32 -> byte, first: nat, offset: nat, size: nat)
    requires Proper(v) && first < 0x1_0000
    decreases size
  {
    var n := Min(size, ClusterSize(v));
    var pos := PieceStart(v, ClusterWritten(v, off, first, offset), offset);
    && LookupOnDisk(v, off, first, ClusterIndex(v, offset))
    && Readable(v.image, pos, n) && pos + n <= |v.image|
    && (size > n ==> ReadOnDisk(v, off, first, offset + n, size - n))
  }

  class WrittenDriver {
    const fatStreamer: Stream
    const clusterStreamer: Stream

    constructor ()
      ensures fresh(fatStreamer) && fresh(clusterStreamer)
    {
      fatStreamer := new Stream();
      clusterStreamer := new Stream();
    }

    method GetEntry(v: Volume, cluster: u32, ghost off: u32 -> byte) returns (entry: nat)
      requires Readable(v.image, EntryPosWritten(v, cluster), 2)
      modifies fatStreamer
      ensures entry == EntryWritten(v, off, cluster)
      ensures var p := (v.reservedSectors * 512 * cluster * 2) % 0x1_0000_0000;
              entry == (v.image[p] as int) + 256 * (v.image[p + 1] as int)
    {
      var buffer := new byte[2](_ => 0);
      var pos := EntryPosWritten(v, cluster);
      fatStreamer.Seek(pos);
      fatStreamer.Read(v.image, buffer, 0, 2);
      assert buffer[..][0] == v.image[pos..pos + 2][0] && buffer[..][1] == v.image[pos..pos + 2][1];
      EntryBytes(v, off, cluster, pos);
      entry := (buffer[0] as int) + 0x100 * (buffer[1] as int);
    }

    method GetClusterFromOffset(v: Volume, cluster: nat, offset: nat, ghost off: u32 -> byte) returns (r: u32)
      requires Proper(v) && cluster < 0x1_0000 && LookupOnDisk(v, off, cluster, ClusterIndex(v, offset))
      modifies fatStreamer
      ensures r == ClusterWritten(v, off, cluster, offset)
    {
      var current: nat := cluster;
      var additional := ClusterIndex(v, offset);
      var index := 0;
      while index < additional
        invariant 0 <= index <= additional && current < 0x1_0000
        invariant FollowWritten(v, off, cluster, index) == Some(current)
        invariant FollowWritten(v, off, cluster, additional) == FollowWritten(v, off, current, additional - index)
      {
        var entry := GetEntry(v, current, off);
        FollowWrittenNext(v, off, cluster, index);
        if Stops(entry) {
          return TWO32 - ERR_INVARG;
        }
        current := entry;
        index := index + 1;
      }
      r := current;
    }

    /** The recursive read as it is written; its result is ignored, and its failure test never holds. */
    method ReadFromDisk(v: Volume, first: nat, offset: u32, size: u32, out: array<byte>, at: nat,
                        ghost off: u32 -> byte)
      returns (status: int)
      requires Proper(v) && first < 0x1_0000 && ReadOnDisk(v, off, first, offset, size)
      requires offset + size < TWO32 && at + size <= out.Length
      modifies fatStreamer, clusterStreamer, out
      ensures status == SUCCESS
      ensures out[..] == Written(old(out[..]), at, WrittenBytes(v, off, first, offset, size))
      decreases size
    {
      var n;
      ghost var x, rest;
      status, n, x, rest := FirstPiece(v, first, offset, size, out, at, off);
      if status == SUCCESS && size - n > 0 {
        ghost var s1 := out[..];
        var _ := ReadFromDisk(v, first, offset + n, size - n, out, at + n, off);
        WrittenBoth(old(out[..]), s1, out[..], at, x, rest);
      }
    }

    /** The lookup and the first piece of a read; `x` are its bytes. */
    method FirstPiece(v: Volume, first: nat, offset: u32, size: u32, out: array<byte>, at: nat, ghost off: u32 -> byte)
      returns (status: int, n: nat, ghost x: seq<byte>, ghost rest: seq<byte>)
      requires Proper(v) && first < 0x1_0000 && ReadOnDisk(v, off, first, offset, size)
      requires offset + size < TWO32 && at + size <= out.Length
      modifies fatStreamer, clusterStreamer, out
      ensures status == SUCCESS && n <= size && (n < size ==> n > 0 && ReadOnDisk(v, off, first, offset + n, size - n))
      ensures |x| == n && out[..] == Written(old(out[..]), at, x)
      ensures WrittenBytes(v, off, first, offset, size) == x + rest && rest == RestBytes(v, off, first, offset, size, n)
    {
      n, x, rest := 0, [], [];
      OnDiskParts(v, off, first, offset, size, Min(size, ClusterSize(v)));
      var current := GetClusterFromOffset(v, first, offset, off);
      if current < 0 {
        return -ERR_INVARG, n, x, rest;
      }
      status := SUCCESS;
      n := ReadPiece(v, current, offset, size, out, at);
      ghost var pos := PieceStart(v, current, offset);
      x := v.image[pos..pos + n];
      PieceThenRest(v, off, first, offset, size, pos, n);
      rest := RestBytes(v, off, first, offset, size, n);
    }

    /** One step: at most a cluster's length, from the whole offset behind the cluster's position. */
    method ReadPiece(v: Volume, current: u32, offset: u32, size: u32, out: array<byte>, at: nat) returns (n: nat)
      requires Proper(v) && at + size <= out.Length
      requires var pos, n := PieceStart(v, current, offset), Min(size, ClusterSize(v));
               Readable(v.image, pos, n) && pos + n <= |v.image|
      modifies clusterStreamer, out
      ensures n == Min(size, ClusterSize(v))
      ensures var pos := PieceStart(v, current, offset);
              pos + n <= |v.image| && out[..] == Written(old(out[..]), at, v.image[pos..pos + n])
    {
      n := Min(size, ClusterSize(v));
      clusterStreamer.Seek(PieceStart(v, current, offset));
      clusterStreamer.Read(v.image, out, at, n);
    }
  }

  lemma EntryBytes(v: Volume, off: u32 -> byte, cluster: u32, pos: u32)
    requires pos == EntryPosWritten(v, cluster) && pos + 2 <= |v.image| && pos + 2 < TWO32
    ensures EntryWritten(v, off, cluster) == (v.image[pos] as int) + 0x100 * (v.image[pos + 1] as int)
  {
    assert Plus(pos, 1) == pos + 1;
  }

  lemma {:induction false} FollowWrittenNext(v: Volume, off: u32 -> byte, cluster: nat, k: nat)
    requires cluster < 0x1_0000
    ensures FollowWritten(v, off, cluster, k + 1) ==
            match FollowWritten(v, off, cluster, k)
            case None => None
            case Some(c) => if Stops(EntryWritten(v, off, c)) then None else Some(EntryWritten(v, off, c))
    decreases k
  {
    if k > 0 && !Stops(EntryWritten(v, off, cluster)) {
      FollowWrittenNext(v, off, EntryWritten(v, off, cluster), k - 1);
    }
  }

  /** The bytes after the first n. */
  ghost function RestBytes(v: Volume, off: u32 -> byte, first: nat, offset: nat, size: nat, n: nat): seq<byte>
    requires Proper(v) && first < 0x1_0000 && n <= size
  {
    if n < size then WrittenBytes(v, off, first, offset + n, size - n) else []
  }

  lemma OnDiskParts(v: Volume, off: u32 -> byte, first: nat, offset: nat, size: nat, n: nat)
    requires Proper(v) && first < 0x1_0000 && ReadOnDisk(v, off, first, offset, size) && n == Min(size, ClusterSize(v))
    ensures LookupOnDisk(v, off, first, ClusterIndex(v, offset))
    ensures var pos := PieceStart(v, ClusterWritten(v, off, first, offset), offset);
            Readable(v.image, pos, n) && pos + n <= |v.image|
    ensures n < size ==> n > 0 && ReadOnDisk(v, off, first, offset + n, size - n)
  {}

  lemma PieceThenRest(v: Volume, off: u32 -> byte, first: nat, offset: nat, size: nat, pos: u32, n: nat)
    requires Proper(v) && first < 0x1_0000 && n == Min(size, ClusterSize(v)) && pos + n <= |v.image| && pos + n < TWO32
    requires pos == PieceStart(v, ClusterWritten(v, off, first, offset), offset)
    ensures WrittenBytes(v, off, first, offset, size) == v.image[pos..pos + n] + RestBytes(v, off, first, offset, size, n)
  {
    PieceBytes(v, off, pos, n);
    if size > n {
      BothBytes(v, off, Consecutive(pos, n), WrittenPositions(v, off, first, offset + n, size - n));
    }
  }

  lemma PieceBytes(v: Volume, off: u32 -> byte, pos: u32, n: nat)
    requires pos + n <= |v.image| && pos + n < TWO32
    ensures DiskBytes(v, off, Consecutive(pos, n)) == v.image[pos..pos + n]
  {
    forall i | 0 <= i < n
      ensures DiskBytes(v, off, Consecutive(pos, n))[i] == v.image[pos..pos + n][i]
    {
      assert Consecutive(pos, n)[i] == pos + i;
    }
  }

  lemma BothBytes(v: Volume, off: u32 -> byte, ps: seq<u32>, qs: seq<u32>)
    ensures DiskBytes(v, off, ps + qs) == DiskBytes(v, off, ps) + DiskBytes(v, off, qs)
  {}

  lemma WrittenBoth(s0: seq<byte>, s1: seq<byte>, s2: seq<byte>, at: nat, x: seq<byte>, y: seq<byte>)
    requires at + |x| + |y| <= |s0| == |s1|
    requires s1 == Written(s0, at, x) && s2 == Written(s1, at + |x|, y)
    ensures s2 == Written(s0, at, x + y)
  {}
}
