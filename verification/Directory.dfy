/** Directories of a FAT16 volume: counting and loading their entries. */
module Directory {
  import opened Options
  import opened Words
  import opened Disk
  import opened Fat16

  const ENTRY_SIZE := 32
  const END_MARK: byte := 0x00
  const DELETED_MARK: byte := 0xe5

  // ---------- Counting and loading ----------

  /** The i-th entry of the directory that starts at a byte position. */
  function Slot(image: seq<byte>, pos: nat, i: nat): seq<byte>
    requires pos + ENTRY_SIZE * (i + 1) <= |image|
  {
    image[pos + ENTRY_SIZE * i..pos + ENTRY_SIZE * (i + 1)]
  }

  /** The first n entries, deleted ones included. */
  function Slots(image: seq<byte>, pos: nat, n: nat): (r: seq<seq<byte>>)
    requires pos + ENTRY_SIZE * n <= |image|
    ensures |r| == n
  {
    seq(n, i requires 0 <= i < n => Slot(image, pos, i))
  }

  predicate Deleted(entry: seq<byte>)
  {
    entry != [] && entry[0] == DELETED_MARK
  }

  /** The entries that are not deleted, in order. */
  function Live(entries: seq<seq<byte>>): (r: seq<seq<byte>>)
    ensures |r| <= |entries|
    ensures forall e :: e in r ==> !Deleted(e)
  {
    if entries == [] then []
    else if Deleted(entries[0]) then Live(entries[1..])
    else [entries[0]] + Live(entries[1..])
  }

  /** The directory's end mark is in entry `end` and in no entry before. */
  ghost predicate EndsAt(image: seq<byte>, pos: nat, end: nat)
  {
    && Readable(image, pos, ENTRY_SIZE * (end + 1)) && pos + ENTRY_SIZE * (end + 1) <= |image|
    && Slot(image, pos, end)[0] == END_MARK
    && forall i :: 0 <= i < end ==> Slot(image, pos, i)[0] != END_MARK
  }

  /** Counts the live entries before the end mark. */
  method TotalFiles(streamer: Stream, image: seq<byte>, pos: u32, ghost end: nat) returns (total: nat)
    requires EndsAt(image, pos, end)
    modifies streamer
    ensures total == |Live(Slots(image, pos, end))|
  {
    streamer.Seek(pos);
    total := 0;
    var entry := new byte[ENTRY_SIZE](_ => 0);
    ghost var i, entries := 0, Slots(image, pos, end);
    var more := true;
    while more
      modifies streamer, entry
      invariant 0 <= i <= end + 1 && streamer.pos == pos + ENTRY_SIZE * i
      invariant if more then i <= end && total + |Live(entries[i..])| == |Live(entries)| else total == |Live(entries)|
      decreases end + 1 - i, more
    {
      ReadableWithin(image, pos, ENTRY_SIZE * (end + 1), streamer.pos, ENTRY_SIZE);
      streamer.Read(image, entry, 0, ENTRY_SIZE);
      assert entry[..] == Slot(image, pos, i);
      assert entry[0] == entry[..][0];
      assert i < end ==> entries[i..][1..] == entries[i + 1..] && entries[i..][0] == entry[..];
      if entry[0] == END_MARK {
        more := false;
      } else if entry[0] != DELETED_MARK {
        total := total + 1;
      }
      i := i + 1;
    }
  }

  /** No live entry follows a deleted one. */
  ghost predicate DeletedLast(entries: seq<seq<byte>>)
  {
    forall i, j :: 0 <= i < j < |entries| && Deleted(entries[i]) ==> Deleted(entries[j])
  }

  /** The first entries, as many as are live, are the live ones exactly when no live entry follows a deleted one. */
  lemma {:induction false} LoadedAreLive(entries: seq<seq<byte>>)
    ensures entries[..|Live(entries)|] == Live(entries) <==> DeletedLast(entries)
  {
    if entries != [] {
      if Deleted(entries[0]) {
        FirstDeleted(entries);
      } else {
        var rest := entries[1..];
        LoadedAreLive(rest);
        assert entries[..|Live(entries)|] == [entries[0]] + rest[..|Live(rest)|];
        DeletedLastRest(entries);
      }
    }
  }

  lemma FirstDeleted(entries: seq<seq<byte>>)
    requires entries != [] && Deleted(entries[0])
    ensures entries[..|Live(entries)|] == Live(entries) <==> DeletedLast(entries)
  {
    var live := Live(entries[1..]);
    NoneLive(entries);
    if live != [] {
      assert entries[..|live|][0] == entries[0] && live[0] in live;
    }
  }

  lemma {:induction false} NoneLive(entries: seq<seq<byte>>)
    ensures Live(entries) == [] <==> forall j :: 0 <= j < |entries| ==> Deleted(entries[j])
  {
    if entries != [] {
      NoneLive(entries[1..]);
      assert forall j :: 1 <= j < |entries| ==> entries[j] == entries[1..][j - 1];
    }
  }

  lemma DeletedLastRest(entries: seq<seq<byte>>)
    requires entries != [] && !Deleted(entries[0])
    ensures DeletedLast(entries) <==> DeletedLast(entries[1..])
  {
    var rest := entries[1..];
    if DeletedLast(rest) {
      forall i, j | 0 <= i < j < |entries| && Deleted(entries[i])
        ensures Deleted(entries[j])
      {
        assert entries[i] == rest[i - 1] && entries[j] == rest[j - 1];
      }
    }
  }

  // ---------- Loading a directory ----------

  /** A loaded directory: the bytes of its entries, and how many there are. */
  datatype Listing = Listing(files: seq<byte>, total: nat)

  function Subdirectory(entry: seq<byte>): bool
    requires |entry| == ENTRY_SIZE
  {
    And(entry[11], 0x10) != 0
  }

  /** The low word of the first cluster or-ed with the high word. */
  function FirstCluster(entry: seq<byte>): (r: nat)
    requires |entry| == ENTRY_SIZE
    ensures r < 0x1_0000
  {
    var low, high := (entry[26] as int) + 0x100 * (entry[27] as int), (entry[20] as int) + 0x100 * (entry[21] as int);
    OrIsWord(low, high);
    Or(low, high)
  }

  /** The attribute is bit 4 of byte 11. */
  lemma SubdirectoryBit(entry: seq<byte>)
    requires |entry| == ENTRY_SIZE
    ensures Subdirectory(entry) <==> entry[11] / 16 % 2 == 1
  {
    var b: nat := entry[11];
    assert Pow2(4) == 16;
    assert Bit(b, 4) == Bit(b / 2 / 2, 2) == Bit(b / 2 / 2 / 2 / 2, 0);
    AndOne(entry[11], 4);
  }

  /** With no high word, as on a FAT16 volume, the first cluster is the little-endian word in bytes 26 and 27. */
  lemma ClusterWord(entry: seq<byte>)
    requires |entry| == ENTRY_SIZE
    ensures entry[20] == entry[21] == 0 ==> FirstCluster(entry) == entry[26] as int + 256 * entry[27] as int
    ensures forall n: nat :: Bit(FirstCluster(entry), n) <==>
              Bit(entry[26] as int + 256 * entry[27] as int, n) || Bit(entry[20] as int + 256 * entry[21] as int, n)
  {
    var low: nat, high: nat := entry[26] as int + 256 * entry[27] as int, entry[20] as int + 256 * entry[21] as int;
    if high == 0 {
      OrZero(low);
    }
    forall n: nat
      ensures Bit(FirstCluster(entry), n) <==> Bit(low, n) || Bit(high, n)
    {
      OrBits(low, high, n);
    }
  }

  lemma OrIsWord(f: nat, g: nat)
    requires f < 0x1_0000 && g < 0x1_0000
    ensures Or(f, g) < 0x1_0000
  {
    assert Pow2(8) == 256;
    assert Pow2(16) == 0x1_0000;
    OrSplits(16, 0, f, 0, g);
  }

  /** The directory has an end mark, and the bytes that loading it reads are in clusters on the disk. */
  ghost predicate DirectoryOnDisk(v: Volume, first: nat, end: nat)
    requires Proper(v) && TableReadable(v) && first < 0x1_0000
  {
    && ClusterPos(v, first) >= 0 && EndsAt(v.image, ClusterPos(v, first), end)
    && BytesReadable(v, first, 0, ENTRY_SIZE * |Live(Slots(v.image, ClusterPos(v, first), end))|)
  }

  /** All entries of a directory before its end mark. */
  ghost function Entries(v: Volume, first: nat, end: nat): seq<seq<byte>>
    requires Proper(v) && TableReadable(v) && first < 0x1_0000 && DirectoryOnDisk(v, first, end)
  {
    Slots(v.image, ClusterPos(v, first), end)
  }

  function Zeros(n: nat): seq<byte>
  {
    seq(n, i => 0)
  }

  /** Loads the directory a directory entry names. `room` tells whether memory for it was found. */
  method LoadDirectory(d: Driver, streamer: Stream, v: Volume, entry: seq<byte>, room: bool, ghost end: nat)
    returns (r: Option<Listing>)
    requires Proper(v) && TableReadable(v) && |entry| == ENTRY_SIZE
    requires Subdirectory(entry) ==> DirectoryOnDisk(v, FirstCluster(entry), end)
    modifies streamer, d.fatStreamer, d.clusterStreamer
    ensures r.Some? <==> Subdirectory(entry) && room && Live(Entries(v, FirstCluster(entry), end)) != []
    ensures r.Some? ==>
              var n := |Live(Entries(v, FirstCluster(entry), end))|;
              r.value == Listing(Received(v, FirstCluster(entry), 0, ENTRY_SIZE * n, Zeros(ENTRY_SIZE * n), 0), n)
  {
    if !Subdirectory(entry) {
      return None;
    }
    var first := FirstCluster(entry);
    var total := TotalFiles(streamer, v.image, ClusterPos(v, first), end);
    if !room || total == 0 {
      return None;
    }
    var files := new byte[ENTRY_SIZE * total](_ => 0);
    assert files[..] == Zeros(ENTRY_SIZE * total);
    StartsInFirst(v, first);
    assert OffsetReadable(v, first, 0);
    var status := d.ReadFromDisk(v, first, 0, ENTRY_SIZE * total, files, 0);
    if status < 0 {
      return None;
    }
    r := Some(Listing(files[..], total));
  }

  lemma StartsInFirst(v: Volume, first: nat)
    requires Proper(v) && TableReadable(v) && first < 0x1_0000
    ensures ClusterIndex(v, 0) == 0 && Follow(v, first, 0) == Some(first)
  {
    SmallModulus(0, ClusterSize(v));
  }

  /** The chain goes on with the next clusters of the disk, for as many as `size` bytes need. */
  ghost predicate Contiguous(v: Volume, first: nat, size: nat)
    requires Proper(v) && TableReadable(v) && first < 0x1_0000
  {
    forall k: nat :: k * ClusterSize(v) < size ==> Follow(v, first, k) == Some(first + k)
  }

  /**
    The count runs along the disk and the load along the chain. Where these are the same, as in a directory
    that fits its first cluster, the loaded entries are the first slots of the directory, so they are its
    live entries exactly when no live entry follows a deleted one.
   */
  lemma LoadedListing(v: Volume, first: nat, end: nat, n: nat)
    requires Proper(v) && TableReadable(v) && first < 0x1_0000 && DirectoryOnDisk(v, first, end)
    requires n == |Live(Entries(v, first, end))| && Contiguous(v, first, ENTRY_SIZE * n)
    ensures var files := Received(v, first, 0, ENTRY_SIZE * n, Zeros(ENTRY_SIZE * n), 0);
            Slots(files, 0, n) == Live(Entries(v, first, end)) <==>
            DeletedLast(Entries(v, first, end))
  {
    var size, pos := ENTRY_SIZE * n, ClusterPos(v, first);
    LoadedBytes(v, first, size);
    SlotsOfSlice(v.image, pos, n);
    assert Slots(v.image, pos, n) == Entries(v, first, end)[..n];
    LoadedAreLive(Entries(v, first, end));
  }

  /** A directory that fits its first cluster is contiguous. */
  lemma OneClusterContiguous(v: Volume, first: nat, size: nat)
    requires Proper(v) && TableReadable(v) && first < 0x1_0000 && size <= ClusterSize(v)
    ensures Contiguous(v, first, size)
  {
    StartsInFirst(v, first);
    forall k: nat | k * ClusterSize(v) < size
      ensures k == 0
    {
      if k > 0 {
        ProductAtLeast(k, ClusterSize(v), 1, ClusterSize(v));
      }
    }
  }

  /** Loading a contiguous directory delivers the bytes of the disk from its start. */
  lemma LoadedBytes(v: Volume, first: nat, size: nat)
    requires Proper(v) && TableReadable(v) && first < 0x1_0000 && Contiguous(v, first, size)
    requires 0 <= ClusterPos(v, first) && ClusterPos(v, first) + size <= |v.image| && BytesReadable(v, first, 0, size)
    ensures var pos := ClusterPos(v, first);
            Received(v, first, 0, size, Zeros(size), 0) == v.image[pos..pos + size]
  {
    var pos := ClusterPos(v, first);
    var bytes := v.image[pos..pos + size];
    forall o: nat | 0 <= o < 0 + |bytes|
      ensures Gives(v, first, 0, bytes, o)
    {
      assert OffsetReadable(v, first, o);
      DivMod(o, ClusterSize(v));
      assert Follow(v, first, ClusterIndex(v, o)) == Some(first + ClusterIndex(v, o));
      PositionsApart(v, first, first + ClusterIndex(v, o));
    }
    ReceivedIsWritten(v, first, 0, Zeros(size), 0, bytes);
    assert Written(Zeros(size), 0, bytes) == bytes;
  }

  lemma DivMod(a: nat, c: nat)
    requires c > 0
    ensures a == a / c * c + a % c && a / c * c <= a
  {}

  lemma SlotsOfSlice(image: seq<byte>, pos: nat, n: nat)
    requires pos + ENTRY_SIZE * n <= |image|
    ensures Slots(image[pos..pos + ENTRY_SIZE * n], 0, n) == Slots(image, pos, n)
  {
    forall i | 0 <= i < n
      ensures Slot(image[pos..pos + ENTRY_SIZE * n], 0, i) == Slot(image, pos, i)
    {
      SliceOfSlice(image, pos, ENTRY_SIZE * n, ENTRY_SIZE * i, ENTRY_SIZE * (i + 1));
    }
  }

  lemma SliceOfSlice(s: seq<byte>, pos: nat, size: nat, a: nat, b: nat)
    requires pos + size <= |s| && a <= b <= size
    ensures s[pos..pos + size][a..b] == s[pos + a..pos + b]
  {
    var x, y := s[pos..pos + size][a..b], s[pos + a..pos + b];
    forall k | 0 <= k < b - a
      ensures x[k] == y[k]
    {}
  }
}
