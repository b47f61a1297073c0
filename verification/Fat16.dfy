/**
  Reading files of a FAT16 volume: cluster geometry, the file allocation table, and reads along a
  cluster chain. Where the code departs from its intent, both steps are defined and compared.
 */
module Fat16 {
  import opened Status
  import opened Options
  import opened Words
  import opened Disk


  /** The fields of the BIOS parameter block that reading uses, and the disk. */
  datatype Volume = Volume(
    reservedSectors: nat, fatCopies: nat, sectorsPerFat: nat, rootEntries: nat, sectorsPerCluster: nat, image: seq<byte>)

  /** The fields have the widths of the parameter block, and a cluster is not empty. */
  predicate Proper(v: Volume)
  {
    && v.reservedSectors < 0x1_0000 && v.fatCopies < 0x100 && v.sectorsPerFat < 0x1_0000
    && v.rootEntries < 0x1_0000 && 0 < v.sectorsPerCluster < 0x100
  }

  // ---------- Geometry ----------

  function RootSector(v: Volume): nat
  {
    v.fatCopies * v.sectorsPerFat + v.reservedSectors
  }

  function RootLastSector(v: Volume): int
  {
    var size := v.rootEntries * 32;
    RootSector(v) + size / SECTOR_SIZE + (if size % SECTOR_SIZE != 0 then 1 else 0) - 1
  }

  function ClusterSize(v: Volume): nat
  {
    v.sectorsPerCluster * SECTOR_SIZE
  }

  /** Which cluster of a file holds an offset, and where in it. */
  function ClusterIndex(v: Volume, offset: nat): nat
    requires Proper(v)
  {
    QuotientNatural(offset, ClusterSize(v));
    offset / ClusterSize(v)
  }

  function ClusterOffset(v: Volume, offset: nat): (r: nat)
    requires Proper(v)
    ensures r < ClusterSize(v)
  {
    offset % ClusterSize(v)
  }

  lemma QuotientNatural(a: nat, c: nat)
    requires c > 0
    ensures a / c >= 0
  {}

  function ClusterToSector(v: Volume, cluster: nat): int
  {
    RootLastSector(v) + (cluster - 2) * v.sectorsPerCluster + 1
  }

  function ClusterPos(v: Volume, cluster: nat): int
  {
    ClusterToSector(v, cluster) * SECTOR_SIZE
  }

  /** The geometry is that of the FAT specification: the root directory is rounded up to sectors, cluster 2 follows it. */
  lemma SpecGeometry(v: Volume, cluster: nat)
    ensures ClusterSize(v) == 512 * v.sectorsPerCluster
    ensures ClusterPos(v, cluster)
            == 512 * ((cluster - 2) * v.sectorsPerCluster
                      + v.reservedSectors + v.fatCopies * v.sectorsPerFat + (v.rootEntries * 32 + 511) / 512)
    ensures EntryPos(v, cluster) == 512 * (v.reservedSectors + cluster * 2 / 512) + cluster * 2 % 512
  {}

  lemma PositionsApart(v: Volume, a: nat, b: nat)
    requires Proper(v)
    ensures ClusterPos(v, b) == ClusterPos(v, a) + (b - a) * ClusterSize(v)
    ensures ClusterPos(v, b) == ClusterPos(v, a) + ClusterSize(v) <==> b == a + 1
  {
    var c, d := ClusterSize(v), b - a;
    assert (b - 2) * v.sectorsPerCluster == (a - 2) * v.sectorsPerCluster + d * v.sectorsPerCluster;
    assert d * v.sectorsPerCluster * SECTOR_SIZE == d * c;
    if d > 1 {
      ProductAtLeast(d, c, 2, c);
    } else if d < 0 {
      ProductAtLeast(-d, c, 0, c);
      assert d * c == -(-d * c);
    }
  }

  /** The parameter block of the volume the kernel boots from: clusters of 64 KB. */
  function BootVolume(image: seq<byte>): Volume
  {
    Volume(200, 2, 256, 64, 128, image)
  }

  // ---------- The table ----------

  /** The byte position of a cluster's table entry, as meant. */
  function EntryPos(v: Volume, cluster: nat): nat
  {
    v.reservedSectors * SECTOR_SIZE + cluster * 2
  }

  lemma ProductAtLeast(a: nat, b: nat, c: nat, d: nat)
    requires c <= a && d <= b
    ensures c * d <= a * b
  {
    assert c * d <= a * d && a * d <= a * b;
  }

  predicate TableReadable(v: Volume)
  {
    Readable(v.image, EntryPos(v, 0xffff), 2)
  }

  function TableEntry(v: Volume, cluster: nat): (e: nat)
    requires TableReadable(v) && cluster < 0x1_0000
    ensures e < 0x1_0000
  {
    (v.image[EntryPos(v, cluster)] as int) + 0x100 * (v.image[EntryPos(v, cluster) + 1] as int)
  }

  /** The values the code takes for the end of a chain, a bad, a reserved or an unused cluster. */
  predicate Stops(entry: nat)
  {
    entry == 0xff8 || entry == 0xfff || entry == 0xff7 || entry == 0xff0 || entry == 0xff6 || entry == 0
  }

  /** The k-th cluster of the chain that starts at a cluster; None past a stop mark. */
  function Follow(v: Volume, cluster: nat, k: nat): (r: Option<nat>)
    requires TableReadable(v) && cluster < 0x1_0000
    ensures r.Some? ==> r.value < 0x1_0000
    decreases k
  {
    if k == 0 then Some(cluster)
    else
      var entry := TableEntry(v, cluster);
      if Stops(entry) then None else Follow(v, entry, k - 1)
  }

  lemma {:induction false} FollowNext(v: Volume, cluster: nat, k: nat)
    requires TableReadable(v) && cluster < 0x1_0000
    ensures Follow(v, cluster, k + 1) ==
            match Follow(v, cluster, k)
            case None => None
            case Some(c) => if Stops(TableEntry(v, c)) then None else Some(TableEntry(v, c))
    decreases k
  {
    if k > 0 && !Stops(TableEntry(v, cluster)) {
      FollowNext(v, TableEntry(v, cluster), k - 1);
    }
  }

  /** A chain: each cluster's table entry names the next one. */
  ghost predicate IsChain(v: Volume, chain: seq<nat>)
    requires TableReadable(v)
  {
    && chain != [] && (forall i :: 0 <= i < |chain| ==> chain[i] < 0x1_0000)
    && forall i :: 1 <= i < |chain| ==> chain[i] == TableEntry(v, chain[i - 1]) && !Stops(chain[i])
  }

  lemma {:induction false} FollowChain(v: Volume, chain: seq<nat>, k: nat)
    requires TableReadable(v) && IsChain(v, chain) && k < |chain|
    ensures Follow(v, chain[0], k) == Some(chain[k])
    decreases k
  {
    if k > 0 {
      FollowChain(v, chain, k - 1);
      FollowNext(v, chain[0], k - 1);
    }
  }

  // ---------- File contents ----------

  /** A whole cluster, with the sector after it that a read to its end touches, is on the disk. */
  predicate ClusterReadable(v: Volume, cluster: nat)
  {
    ClusterPos(v, cluster) >= 0 && Readable(v.image, ClusterPos(v, cluster), ClusterSize(v))
  }

  function ClusterBytes(v: Volume, cluster: nat): (r: seq<byte>)
    requires ClusterReadable(v, cluster)
    ensures |r| == ClusterSize(v)
  {
    var pos := ClusterPos(v, cluster);
    v.image[pos..pos + ClusterSize(v)]
  }

  /** The contents of a chain of clusters, one after the other. */
  ghost function Content(v: Volume, chain: seq<nat>): seq<byte>
    requires Readables(v, chain)
  {
    if chain == [] then [] else ClusterBytes(v, chain[0]) + Content(v, chain[1..])
  }

  /** The contents at an offset are in the cluster of that offset. */
  lemma {:induction false} ContentAt(v: Volume, chain: seq<nat>, k: nat, a: nat, r: nat, c: nat)
    requires Readables(v, chain) && k < |chain| && c == ClusterSize(v) && r < c && a == k * c
    ensures a + r < |Content(v, chain)|
    ensures Content(v, chain)[a + r] == ClusterBytes(v, chain[k])[r]
    decreases k
  {
    if k == 0 {
      assert a == 0;
    } else {
      OneMore(k - 1, c);
      ContentAt(v, chain[1..], k - 1, a - c, r, c);
      AppendAt(ClusterBytes(v, chain[0]), Content(v, chain[1..]), a - c + r);
    }
  }

  lemma {:induction false} ContentLength(v: Volume, chain: seq<nat>, c: nat)
    requires Readables(v, chain) && c == ClusterSize(v)
    ensures |Content(v, chain)| == |chain| * c
  {
    if chain != [] {
      ContentLength(v, chain[1..], c);
      OneMore(|chain| - 1, c);
    }
  }

  lemma OneMore(k: nat, c: nat)
    ensures (k + 1) * c == k * c + c
  {}

  lemma AppendAt(x: seq<byte>, y: seq<byte>, i: nat)
    requires i < |y|
    ensures (x + y)[|x| + i] == y[i]
  {}

  /** The cluster of an offset, if the chain has one, is on the disk. */
  ghost predicate OffsetReadable(v: Volume, first: nat, offset: nat)
    requires Proper(v) && TableReadable(v) && first < 0x1_0000
  {
    var c := Follow(v, first, ClusterIndex(v, offset));
    c.Some? ==> ClusterReadable(v, c.value)
  }

  /** The clusters that hold a byte of [offset, offset + size) are on the disk; nothing is asked of any other. */
  ghost predicate BytesReadable(v: Volume, first: nat, offset: nat, size: nat)
    requires Proper(v) && TableReadable(v) && first < 0x1_0000
  {
    forall o: nat :: offset <= o < offset + size ==> OffsetReadable(v, first, o)
  }

  /** A file's byte at an offset, in the cluster its chain reaches there; None past the chain's end. */
  ghost function ByteAt(v: Volume, first: nat, offset: nat): Option<byte>
    requires Proper(v) && TableReadable(v) && first < 0x1_0000 && OffsetReadable(v, first, offset)
  {
    match Follow(v, first, ClusterIndex(v, offset))
    case None => None
    case Some(c) => Some(ClusterBytes(v, c)[ClusterOffset(v, offset)])
  }

  /** Along a chain, a file's bytes are the concatenated contents of the clusters. */
  lemma ByteOfContent(v: Volume, chain: seq<nat>, offset: nat)
    requires Proper(v) && TableReadable(v) && IsChain(v, chain) && Readables(v, chain)
    requires offset < |Content(v, chain)|
    ensures OffsetReadable(v, chain[0], offset)
    ensures ByteAt(v, chain[0], offset) == Some(Content(v, chain)[offset])
  {
    ContentAtOffset(v, chain, offset);
    FollowChain(v, chain, ClusterIndex(v, offset));
  }

  lemma ContentAtOffset(v: Volume, chain: seq<nat>, offset: nat)
    requires Proper(v) && Readables(v, chain) && offset < |Content(v, chain)|
    ensures ClusterIndex(v, offset) < |chain|
    ensures Content(v, chain)[offset] == ClusterBytes(v, chain[ClusterIndex(v, offset)])[ClusterOffset(v, offset)]
  {
    var k, r := ClusterIndex(v, offset), ClusterOffset(v, offset);
    ContentLength(v, chain, ClusterSize(v));
    QuotientBelow(offset, ClusterSize(v), |chain|);
    ContentAt(v, chain, k, k * ClusterSize(v), r, ClusterSize(v));
  }

  lemma QuotientBelow(a: nat, c: nat, n: nat)
    requires c > 0 && a < n * c
    ensures a / c < n && a == a / c * c + a % c
  {
    if a / c >= n {
      ProductAtLeast(a / c, c, n, c);
    }
  }

  ghost predicate Readables(v: Volume, chain: seq<nat>)
  {
    forall i :: 0 <= i < |chain| ==> ClusterReadable(v, chain[i])
  }

  /** A buffer after a read of [offset, offset + size) into it at `at`: bytes past the chain's end are left as they were. */
  ghost function Received(v: Volume, first: nat, offset: nat, size: nat, s: seq<byte>, at: nat): seq<byte>
    requires Proper(v) && TableReadable(v) && first < 0x1_0000 && BytesReadable(v, first, offset, size)
    requires at + size <= |s|
  {
    seq(|s|, i requires 0 <= i < |s| => NewByte(v, first, offset, size, s, at, i))
  }

  ghost function NewByte(v: Volume, first: nat, offset: nat, size: nat, s: seq<byte>, at: nat, i: nat): byte
    requires Proper(v) && TableReadable(v) && first < 0x1_0000 && BytesReadable(v, first, offset, size) && i < |s|
  {
    if i < at || at + size <= i then s[i]
    else
      assert OffsetReadable(v, first, offset + (i - at));
      match ByteAt(v, first, offset + (i - at)) case None => s[i] case Some(b) => b
  }

  /** At offset o the file has the byte of a slice that starts at `offset`, in a cluster on the disk. */
  ghost predicate Gives(v: Volume, first: nat, offset: nat, bytes: seq<byte>, o: nat)
    requires Proper(v) && TableReadable(v) && first < 0x1_0000 && offset <= o < offset + |bytes|
  {
    OffsetReadable(v, first, o) && ByteAt(v, first, o) == Some(bytes[o - offset])
  }

  lemma ReceivedIsWritten(v: Volume, first: nat, offset: nat, s: seq<byte>, at: nat, bytes: seq<byte>)
    requires Proper(v) && TableReadable(v) && first < 0x1_0000 && at + |bytes| <= |s|
    requires forall o: nat :: offset <= o < offset + |bytes| ==> Gives(v, first, offset, bytes, o)
    ensures BytesReadable(v, first, offset, |bytes|)
    ensures Received(v, first, offset, |bytes|, s, at) == Written(s, at, bytes)
  {
    forall o: nat | offset <= o < offset + |bytes|
      ensures OffsetReadable(v, first, o)
    {
      assert Gives(v, first, offset, bytes, o);
    }
    forall i | at <= i < at + |bytes|
      ensures NewByte(v, first, offset, |bytes|, s, at, i) == bytes[i - at]
    {
      assert Gives(v, first, offset, bytes, offset + (i - at));
    }
  }

  /** A read within a chain delivers exactly the slice of its contents. */
  lemma ReceivedSlice(v: Volume, chain: seq<nat>, offset: nat, size: nat, s: seq<byte>, at: nat)
    requires Proper(v) && TableReadable(v) && IsChain(v, chain) && Readables(v, chain)
    requires offset + size <= |Content(v, chain)| && at + size <= |s|
    ensures BytesReadable(v, chain[0], offset, size)
    ensures Received(v, chain[0], offset, size, s, at) == Written(s, at, Content(v, chain)[offset..offset + size])
  {
    var content := Content(v, chain);
    var bytes := content[offset..offset + size];
    forall o: nat | offset <= o < offset + |bytes|
      ensures Gives(v, chain[0], offset, bytes, o)
    {
      ByteOfContent(v, chain, o);
      assert bytes[o - offset] == content[o];
    }
    ReceivedIsWritten(v, chain[0], offset, s, at, bytes);
  }

  // ---------- Which bytes one step of a read takes ----------

  /** A piece of a read: where on the disk, and how many bytes. */
  datatype Piece = Piece(pos: int, size: nat)

  function Min(a: nat, b: nat): nat
  {
    if a < b then a else b
  }

  /** As meant: from the offset inside the current cluster, and not past that cluster's end. */
  function NextPiece(v: Volume, cluster: nat, offset: nat, size: nat): Piece
    requires Proper(v)
  {
    Piece(ClusterPos(v, cluster) + ClusterOffset(v, offset), Min(size, ClusterSize(v) - ClusterOffset(v, offset)))
  }

  lemma SmallModulus(a: nat, c: nat)
    requires a < c
    ensures a % c == a && a / c == 0
  {}

  /** The next piece is on the disk, and what a read of its bytes delivers. */
  lemma PieceReceived(v: Volume, first: nat, offset: nat, size: nat, s: seq<byte>, at: nat)
    requires Proper(v) && TableReadable(v) && first < 0x1_0000 && at + size <= |s|
    requires OffsetReadable(v, first, offset) && Follow(v, first, ClusterIndex(v, offset)).Some?
    ensures var p := NextPiece(v, Follow(v, first, ClusterIndex(v, offset)).value, offset, size);
            && p.size <= size && (size > 0 ==> p.size > 0)
            && 0 <= p.pos && Readable(v.image, p.pos, p.size) && p.pos + p.size <= |v.image|
            && BytesReadable(v, first, offset, p.size)
            && Received(v, first, offset, p.size, s, at) == Written(s, at, v.image[p.pos..p.pos + p.size])
  {
    var c := Follow(v, first, ClusterIndex(v, offset)).value;
    var p := NextPiece(v, c, offset, size);
    OnDisk(v, c, ClusterOffset(v, offset), p.size);
    var bytes := v.image[p.pos..p.pos + p.size];
    forall o: nat | offset <= o < offset + |bytes|
      ensures Gives(v, first, offset, bytes, o)
    {
      WithinCluster(offset, o - offset, ClusterSize(v));
    }
    ReceivedIsWritten(v, first, offset, s, at, bytes);
  }

  lemma WithinCluster(a: nat, i: nat, c: nat)
    requires c > 0 && a % c + i < c
    ensures (a + i) / c == a / c && (a + i) % c == a % c + i
  {
    assert a + i == a / c * c + (a % c + i);
    SmallModulus(a % c + i, c);
    MultipleAdds(a / c, a % c + i, c);
  }

  lemma {:induction false} MultipleAdds(q: nat, r: nat, c: nat)
    requires r < c
    ensures (q * c + r) / c == q && (q * c + r) % c == r
  {
    var a := q * c + r;
    var d := a / c - q;
    assert a == a / c * c + a % c;
    assert d * c == r - a % c;
    assert -d * c == a % c - r;
    if d >= 1 {
      ProductAtLeast(d, c, 1, c);
    } else if d <= -1 {
      ProductAtLeast(-d, c, 1, c);
    }
  }

  /** Once the chain has stopped it gives no more clusters. */
  lemma {:induction false} FollowStops(v: Volume, first: nat, k: nat, j: nat)
    requires TableReadable(v) && first < 0x1_0000 && k <= j && Follow(v, first, k).None?
    ensures Follow(v, first, j).None?
    decreases j
  {
    if k < j {
      FollowStops(v, first, k, j - 1);
      FollowNext(v, first, j - 1);
    }
  }

  /** A read that starts past the chain's end delivers nothing. */
  lemma NothingReceived(v: Volume, first: nat, offset: nat, size: nat, s: seq<byte>, at: nat)
    requires Proper(v) && TableReadable(v) && first < 0x1_0000 && at + size <= |s|
    requires Follow(v, first, ClusterIndex(v, offset)).None?
    ensures BytesReadable(v, first, offset, size)
    ensures Received(v, first, offset, size, s, at) == s
  {
    forall o: nat | offset <= o < offset + size
      ensures Follow(v, first, ClusterIndex(v, o)).None? && OffsetReadable(v, first, o)
    {
      QuotientMonotone(offset, o, ClusterSize(v));
      FollowStops(v, first, ClusterIndex(v, offset), ClusterIndex(v, o));
    }
    forall i | at <= i < at + size
      ensures NewByte(v, first, offset, size, s, at, i) == s[i]
    {
      assert Follow(v, first, ClusterIndex(v, offset + (i - at))).None?;
    }
  }

  lemma QuotientMonotone(a: nat, b: nat, c: nat)
    requires a <= b && c > 0
    ensures a / c <= b / c
  {
    if b / c < a / c {
      ProductAtLeast(a / c, c, b / c + 1, c);
    }
  }

  lemma ReceivedTwice(v: Volume, first: nat, offset: nat, n: nat, size: nat, s: seq<byte>, at: nat)
    requires Proper(v) && TableReadable(v) && first < 0x1_0000 && BytesReadable(v, first, offset, size)
    requires n <= size && at + size <= |s|
    ensures BytesReadable(v, first, offset, n) && BytesReadable(v, first, offset + n, size - n)
    ensures Received(v, first, offset + n, size - n, Received(v, first, offset, n, s, at), at + n) ==
            Received(v, first, offset, size, s, at)
  {}

  // ---------- Reading ----------

  /** A read fails, as meant, when the chain stops before the cluster of its offset. */
  function MeantStatus(v: Volume, first: nat, offset: nat): int
    requires Proper(v) && TableReadable(v) && first < 0x1_0000
  {
    if Follow(v, first, ClusterIndex(v, offset)).Some? then SUCCESS else -ERR_INVARG
  }

  class Driver {
    const fatStreamer: Stream
    const clusterStreamer: Stream

    constructor ()
      ensures fresh(fatStreamer) && fresh(clusterStreamer)
    {
      fatStreamer := new Stream();
      clusterStreamer := new Stream();
    }

    /** The table entry of a cluster, at its meant position. */
    method GetEntry(v: Volume, cluster: nat) returns (entry: nat)
      requires TableReadable(v) && cluster < 0x1_0000
      modifies fatStreamer
      ensures entry == TableEntry(v, cluster)
      ensures var p := 512 * v.reservedSectors + 2 * cluster;
              p + 1 < |v.image| && entry == (v.image[p] as int) + 256 * (v.image[p + 1] as int)
    {
      var buffer := new byte[2](_ => 0);
      EntryReadable(v, cluster);
      fatStreamer.Seek(EntryPos(v, cluster));
      fatStreamer.Read(v.image, buffer, 0, 2);
      ghost var p := EntryPos(v, cluster);
      assert buffer[..][0] == v.image[p..p + 2][0] && buffer[..][1] == v.image[p..p + 2][1];
      entry := (buffer[0] as int) + 0x100 * (buffer[1] as int);
    }

    /** The cluster that holds a file offset, or -ERR_INVARG when the chain stops before it. */
    method GetClusterFromOffset(v: Volume, cluster: nat, offset: nat) returns (r: int)
      requires Proper(v) && TableReadable(v) && cluster < 0x1_0000
      modifies fatStreamer
      ensures r == match Follow(v, cluster, ClusterIndex(v, offset)) case None => -ERR_INVARG case Some(c) => c
    {
      var current := cluster;
      var additional := ClusterIndex(v, offset);
      var index := 0;
      while index < additional
        invariant 0 <= index <= additional && 0 <= current < 0x1_0000
        invariant Follow(v, cluster, additional) == Follow(v, current, additional - index)
      {
        var entry := GetEntry(v, current);
        if entry == 0xff8 || entry == 0xfff {
          return -ERR_INVARG;
        }
        if entry == 0xff7 {
          return -ERR_INVARG;
        }
        if entry == 0xff0 || entry == 0xff6 {
          return -ERR_INVARG;
        }
        if entry == 0 {
          return -ERR_INVARG;
        }
        current := entry;
        index := index + 1;
      }
      r := current;
    }

    /**
      Reads [offset, offset + size) of a file into the buffer, cluster by cluster along its chain,
      with the meant table position, offset inside the cluster and cap at the cluster's end. It fails
      when the chain ends before the offset; when it ends later the read is short, and succeeds.
     */
    method ReadFromDisk(v: Volume, first: nat, offset: u32, size: u32, out: array<byte>, at: nat) returns (status: int)
      requires Proper(v) && TableReadable(v) && first < 0x1_0000
      requires OffsetReadable(v, first, offset) && BytesReadable(v, first, offset, size)
      requires offset + size < TWO32 && at + size <= out.Length
      modifies fatStreamer, clusterStreamer, out
      ensures status == MeantStatus(v, first, offset)
      ensures out[..] == Received(v, first, offset, size, old(out[..]), at)
      decreases size
    {
      ghost var s0 := out[..];
      var current := GetClusterFromOffset(v, first, offset);
      if current < 0 {
        NothingReceived(v, first, offset, size, s0, at);
        return -ERR_INVARG;
      }
      var n := ReadPiece(v, first, current, offset, size, out, at);
      ReceivedTwice(v, first, offset, n, size, s0, at);
      if size - n > 0 {
        assert OffsetReadable(v, first, offset + n);
        var _ := ReadFromDisk(v, first, offset + n, size - n, out, at + n);
      }
      status := SUCCESS;
    }

    /** One step: reads the next piece, from the cluster of the offset; its size. */
    method ReadPiece(v: Volume, ghost first: nat, current: nat, offset: u32, size: u32, out: array<byte>, at: nat)
      returns (n: nat)
      requires Proper(v) && TableReadable(v) && first < 0x1_0000
      requires OffsetReadable(v, first, offset) && BytesReadable(v, first, offset, size)
      requires offset + size < TWO32 && at + size <= out.Length
      requires Follow(v, first, ClusterIndex(v, offset)) == Some(current)
      modifies clusterStreamer, out
      ensures n <= size && (size > 0 ==> n > 0) && BytesReadable(v, first, offset, n)
      ensures out[..] == Received(v, first, offset, n, old(out[..]), at)
    {
      var piece := NextPiece(v, current, offset, size);
      PieceReceived(v, first, offset, size, out[..], at);
      clusterStreamer.Seek(piece.pos);
      clusterStreamer.Read(v.image, out, at, piece.size);
      n := piece.size;
    }

    /**
      Reads members of a file one after the other, and counts them: it stops at the first member that
      starts past the chain's end, so the buffer is that of one read of all members.
     */
    method ReadMembers(v: Volume, first: nat, position: u32, size: u32, members: nat, out: array<byte>)
      returns (count: nat)
      requires Proper(v) && TableReadable(v) && first < 0x1_0000
      requires (members > 0 ==> OffsetReadable(v, first, position)) && BytesReadable(v, first, position, members * size)
      requires position + members * size < TWO32 && members * size <= out.Length
      modifies fatStreamer, clusterStreamer, out
      ensures out[..] == Received(v, first, position, members * size, old(out[..]), 0)
      ensures count <= members
      ensures forall m :: 0 <= m < count ==> Starts(v, first, position, size, m)
      ensures count < members ==> !Starts(v, first, position, size, count)
    {
      ghost var s0, total := out[..], members * size;
      count := 0;
      var offset, at := position, 0;
      NoMember(v, first, position, s0);
      while count < members
        invariant 0 <= count <= members && at == count * size && offset == position + at
        invariant at <= total && BytesReadable(v, first, position, at)
        invariant out[..] == Received(v, first, position, at, s0, 0)
        invariant forall m :: 0 <= m < count ==> Starts(v, first, position, size, m)
      {
        NextMember(count, members, size);
        ghost var s1 := out[..];
        assert at + size <= total;
        assert at < total ==> OffsetReadable(v, first, position + at);
        ReceivedTwice(v, first, position, at, at + size, s0, 0);
        var status := ReadFromDisk(v, first, offset, size, out, at);
        if status < 0 {
          NothingReceived(v, first, offset, size, s1, at);
          EndOfMembers(v, first, position, at, total, s0);
          return;
        }
        offset, at, count := offset + size, at + size, count + 1;
      }
    }
  }

  /** The chain reaches the start of a member. */
  predicate Starts(v: Volume, first: nat, position: nat, size: nat, m: nat)
    requires Proper(v) && TableReadable(v) && first < 0x1_0000
  {
    Follow(v, first, ClusterIndex(v, position + m * size)).Some?
  }

  lemma NextMember(count: nat, members: nat, size: nat)
    requires count < members
    ensures (count + 1) * size == count * size + size <= members * size
  {
    ProductAtLeast(members, size, count + 1, size);
  }

  lemma NoMember(v: Volume, first: nat, offset: nat, s: seq<byte>)
    requires Proper(v) && TableReadable(v) && first < 0x1_0000
    ensures Received(v, first, offset, 0, s, 0) == s
  {}

  /** Once a member starts past the end, the later ones deliver nothing. */
  lemma EndOfMembers(v: Volume, first: nat, position: nat, at: nat, size: nat, s: seq<byte>)
    requires Proper(v) && TableReadable(v) && first < 0x1_0000 && BytesReadable(v, first, position, size)
    requires at <= size <= |s|
    requires Follow(v, first, ClusterIndex(v, position + at)).None?
    ensures BytesReadable(v, first, position, at)
    ensures Received(v, first, position, at, s, 0) == Received(v, first, position, size, s, 0)
  {
    ReceivedTwice(v, first, position, at, size, s, 0);
    NothingReceived(v, first, position + at, size - at, Received(v, first, position, at, s, 0), at);
  }

  lemma EntryReadable(v: Volume, cluster: nat)
    requires TableReadable(v) && cluster < 0x1_0000
    ensures Readable(v.image, EntryPos(v, cluster), 2) && EntryPos(v, cluster) + 2 <= |v.image|
  {
    ReadableWithin(v.image, EntryPos(v, 0xffff), 2, EntryPos(v, cluster), 2);
  }

  /** A read that ends no later than a readable one is readable. */
  lemma ReadableWithin(image: seq<byte>, pos: nat, n: nat, pos': nat, n': nat)
    requires Readable(image, pos, n) && pos' + n' <= pos + n
    ensures Readable(image, pos', n')
  {
    assert (pos' + n') / SECTOR_SIZE <= (pos + n) / SECTOR_SIZE;
  }

  lemma OnDisk(v: Volume, cluster: nat, r: nat, n: nat)
    requires ClusterReadable(v, cluster) && r + n <= ClusterSize(v)
    ensures var pos := ClusterPos(v, cluster) + r;
            && 0 <= pos && Readable(v.image, pos, n) && pos + n <= |v.image|
            && v.image[pos..pos + n] == ClusterBytes(v, cluster)[r..r + n]
  {
    var pos := ClusterPos(v, cluster);
    ReadableWithin(v.image, pos, ClusterSize(v), pos + r, n);
  }
}
