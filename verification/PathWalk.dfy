/** Finding the unit a path names: from the root directory down, loading one directory after the other. */
module PathWalk {
  import opened Options
  import opened Words
  import opened Disk
  import opened Fat16
  import opened Directory
  import opened Names
  import opened Paths
  import opened PathParser

  type Entry = e: seq<byte> | |e| == ENTRY_SIZE witness seq(ENTRY_SIZE, _ => 0)

  /** The entries that loading a directory gives; None for a null pointer. */
  type Loading = Entry -> Option<seq<Entry>>

  /** What a walk ends with: the entry of a unit, no unit, or a read through a null pointer. */
  datatype Result = Found(entry: Entry) | Missing | Fault

  // ---------- What a walk finds ----------

  /** The last entry that has the name, up to case. */
  ghost function Child(entries: seq<Entry>, name: seq<byte>): (r: Option<Entry>)
    ensures r.Some? ==> r.value in entries && HasName(r.value, name)
    ensures r.None? ==> forall e :: e in entries ==> !HasName(e, name)
  {
    var n := |entries|;
    if n == 0 then None
    else if HasName(entries[n - 1], name) then Some(entries[n - 1])
    else
      assert entries == entries[..n - 1] + [entries[n - 1]];
      Child(entries[..n - 1], name)
  }

  /** From a unit along the remaining names. */
  ghost function Walk(load: Loading, unit: Option<Entry>, names: seq<seq<byte>>): Result
    decreases |names|
  {
    if names == [] then
      match unit case None => Missing case Some(e) => Found(e)
    else
      match unit
      case None => Fault
      case Some(e) =>
        if !Subdirectory(e) then Missing
        else match load(e)
          case None => Fault
          case Some(entries) => Walk(load, Child(entries, names[0]), names[1..])
  }

  /** From the root; a path without units has a null pointer for its first one, which every entry is compared with. */
  ghost function Resolved(load: Loading, root: seq<Entry>, names: seq<seq<byte>>): Result
  {
    if names == [] then
      if root == [] then Missing else Fault
    else match Child(root, names[0])
      case None => Missing
      case Some(e) => Walk(load, Some(e), names[1..])
  }

  // ---------- Loading from the disk ----------

  ghost predicate OnDisk(v: Volume, e: Entry)
    requires Proper(v) && TableReadable(v)
  {
    exists end: nat :: DirectoryOnDisk(v, FirstCluster(e), end)
  }

  /** A directory ends at one place only. */
  lemma OneEnd(v: Volume, e: Entry, a: nat, b: nat)
    requires Proper(v) && TableReadable(v)
    requires DirectoryOnDisk(v, FirstCluster(e), a) && DirectoryOnDisk(v, FirstCluster(e), b)
    ensures a == b
  {}

  /** The entries in the bytes of a loaded directory. */
  function InBytes(files: seq<byte>, n: nat): (r: seq<Entry>)
    requires |files| == ENTRY_SIZE * n
    ensures |r| == n
  {
    seq(n, i requires 0 <= i < n => EntryAt(files, n, i))
  }

  function EntryAt(files: seq<byte>, n: nat, i: nat): Entry
    requires |files| == ENTRY_SIZE * n && i < n
  {
    files[ENTRY_SIZE * i..ENTRY_SIZE * (i + 1)]
  }

  /** What LoadDirectory gives, with memory for it: nothing for an empty directory. */
  ghost function FromDisk(v: Volume, e: Entry): Option<seq<Entry>>
    requires Proper(v) && TableReadable(v)
  {
    if !OnDisk(v, e) then None
    else
      var end: nat :| DirectoryOnDisk(v, FirstCluster(e), end);
      EntriesUpTo(v, e, end)
  }

  ghost function EntriesUpTo(v: Volume, e: Entry, end: nat): Option<seq<Entry>>
    requires Proper(v) && TableReadable(v) && DirectoryOnDisk(v, FirstCluster(e), end)
  {
    var n := |Live(Entries(v, FirstCluster(e), end))|;
    if n == 0 then None
    else Some(InBytes(Received(v, FirstCluster(e), 0, ENTRY_SIZE * n, Zeros(ENTRY_SIZE * n), 0), n))
  }

  /** There is no choice in it. */
  lemma FromDiskIs(v: Volume, e: Entry, end: nat)
    requires Proper(v) && TableReadable(v) && DirectoryOnDisk(v, FirstCluster(e), end)
    ensures FromDisk(v, e) == EntriesUpTo(v, e, end)
  {
    var a: nat :| DirectoryOnDisk(v, FirstCluster(e), a) && FromDisk(v, e) == EntriesUpTo(v, e, a);
    OneEnd(v, e, a, end);
  }

  /**
    A directory whose clusters follow one another on the disk loads as its live entries, in order, exactly when no
    live entry follows a deleted one.
   */
  lemma FolderListed(v: Volume, e: Entry, end: nat)
    requires Proper(v) && TableReadable(v) && DirectoryOnDisk(v, FirstCluster(e), end)
    requires Live(Entries(v, FirstCluster(e), end)) != []
    requires Contiguous(v, FirstCluster(e), 32 * |Live(Entries(v, FirstCluster(e), end))|)
    ensures FromDisk(v, e).Some?
    ensures FromDisk(v, e).value == Live(Entries(v, FirstCluster(e), end)) <==> DeletedLast(Entries(v, FirstCluster(e), end))
  {
    var n := |Live(Entries(v, FirstCluster(e), end))|;
    var files := Received(v, FirstCluster(e), 0, ENTRY_SIZE * n, Zeros(ENTRY_SIZE * n), 0);
    FromDiskIs(v, e, end);
    LoadedListing(v, FirstCluster(e), end, n);
    assert InBytes(files, n) == Slots(files, 0, n);
  }

  /** Along any chain, the i-th entry loaded is the i-th 32 bytes of the contents of the chain's clusters. */
  lemma FolderContent(v: Volume, e: Entry, end: nat, chain: seq<nat>)
    requires Proper(v) && TableReadable(v) && DirectoryOnDisk(v, FirstCluster(e), end)
    requires IsChain(v, chain) && Readables(v, chain) && chain[0] == FirstCluster(e)
    requires 0 < 32 * |Live(Entries(v, FirstCluster(e), end))| <= |Content(v, chain)|
    ensures FromDisk(v, e).Some? && |FromDisk(v, e).value| == |Live(Entries(v, FirstCluster(e), end))|
    ensures forall i :: 0 <= i < |FromDisk(v, e).value| ==>
              FromDisk(v, e).value[i] == Content(v, chain)[32 * i..32 * i + 32]
  {
    hide FromDisk, Content, Live, Received, Follow;
    var n := |Live(Entries(v, FirstCluster(e), end))|;
    FromDiskIs(v, e, end);
    ReceivedSlice(v, chain, 0, 32 * n, Zeros(32 * n), 0);
    var files := Content(v, chain)[0..32 * n];
    assert Written(Zeros(32 * n), 0, files) == files;
    EntriesOfSlice(Content(v, chain), n);
  }

  lemma EntriesOfSlice(bytes: seq<byte>, n: nat)
    requires 32 * n <= |bytes|
    ensures forall i :: 0 <= i < n ==> InBytes(bytes[0..32 * n], n)[i] == bytes[32 * i..32 * i + 32]
  {
    forall i | 0 <= i < n
      ensures EntryAt(bytes[0..32 * n], n, i) == bytes[32 * i..32 * i + 32]
    {
      SliceOfSlice(bytes, 0, 32 * n, 32 * i, 32 * i + 32);
    }
  }

  ghost function DiskLoading(v: Volume): Loading
    requires Proper(v) && TableReadable(v)
  {
    (e: Entry) => FromDisk(v, e)
  }

  /** Every directory that the walk goes into is on the disk. */
  ghost predicate WalkOnDisk(v: Volume, unit: Option<Entry>, names: seq<seq<byte>>)
    requires Proper(v) && TableReadable(v)
    decreases |names|
  {
    names != [] && unit.Some? && Subdirectory(unit.value) ==>
      && OnDisk(v, unit.value)
      && match FromDisk(v, unit.value)
         case None => true
         case Some(entries) => WalkOnDisk(v, Child(entries, names[0]), names[1..])
  }

  // ---------- The walk ----------

  /** A block whose first bytes are a name, followed by zeros. */
  ghost predicate Holding(unit: seq<byte>, name: seq<byte>)
  {
    NulFree(name) && |name| <= UNIT_LENGTH <= |unit| && unit[..UNIT_LENGTH] == Padded(name, UNIT_LENGTH, 0)
  }

  /** The nodes of a parsed path hold its units; the one node of a path without units holds none. */
  ghost predicate HoldUnits(nodes: seq<PathUnit>, names: seq<seq<byte>>)
  {
    if names == [] then |nodes| == 1 && nodes[0].unit == None
    else
      && |nodes| == |names|
      && forall i :: 0 <= i < |names| ==> nodes[i].unit.Some? && Holding(nodes[i].unit.value, names[i])
  }

  /** Every directory that the walk from the root goes into is on the disk. */
  ghost predicate AllOnDisk(v: Volume, root: seq<Entry>, names: seq<seq<byte>>)
    requires Proper(v) && TableReadable(v)
  {
    names != [] ==> WalkOnDisk(v, Child(root, names[0]), names[1..])
  }

  /** Follows the list of units; a directory is loaded when the walk goes into it. */
  method GetUnit(d: Driver, streamer: Stream, v: Volume, root: seq<Entry>, path: PathUnit,
                 ghost nodes: seq<PathUnit>, ghost names: seq<seq<byte>>)
    returns (r: Result)
    requires Proper(v) && TableReadable(v) && AllOnDisk(v, root, names)
    requires Linked(nodes) && path == nodes[0] && HoldUnits(nodes, names)
    modifies streamer, d.fatStreamer, d.clusterStreamer
    ensures r == Resolved(DiskLoading(v), root, names)
  {
    if path.unit == None {
      return if root == [] then Missing else Fault;
    }
    ghost var load, i := DiskLoading(v), 1;
    var current := FindChild(root, path.unit.value, names[0]);
    if current == None {
      return Missing;
    }
    var next := path.next;
    while next != null
      invariant 1 <= i <= |nodes| == |names|
      invariant next == if i < |nodes| then nodes[i] else null
      invariant Walk(load, current, names[i..]) == Resolved(load, root, names)
      invariant WalkOnDisk(v, current, names[i..])
      decreases |nodes| - i
    {
      assert names[i..][0] == names[i] && names[i..][1..] == names[i + 1..];
      var stop;
      current, stop := Descend(d, streamer, v, current, next.unit.value, names[i..]);
      if stop.Some? {
        return stop.value;
      }
      next, i := next.next, i + 1;
    }
    r := match current case None => Missing case Some(e) => Found(e);
  }

  /** What opening a path ends with. */
  datatype Opening = Halts | NoPath | Walked(result: Result)

  /** Parses a path and walks along its units: the parser's list is what the walk needs. */
  method Open(d: Driver, streamer: Stream, v: Volume, root: seq<Entry>, path: seq<byte>, m: Stale) returns (r: Opening)
    requires Proper(v) && TableReadable(v) && NulFree(path) && Held(m)
    requires Parse(path, m).Path? ==> AllOnDisk(v, root, Parse(path, m).units)
    modifies streamer, d.fatStreamer, d.clusterStreamer
    ensures r == match Parse(path, m)
                 case Panic => Halts
                 case Invalid => NoPath
                 case Path(_, units) => Walked(Resolved(DiskLoading(v), root, units))
  {
    var parsed, nodes := ParsePath(path, m);
    match parsed {
      case Halted => r := Halts;
      case Refused => r := NoPath;
      case Accepted(_, head) =>
        ParsedHolds(path, m, nodes);
        var result := GetUnit(d, streamer, v, root, head, nodes, Parse(path, m).units);
        r := Walked(result);
    }
  }

  lemma ParsedHolds(path: seq<byte>, m: Stale, nodes: seq<PathUnit>)
    requires NulFree(path) && Held(m) && Parse(path, m).Path? && Fitting(path[3..], m, Units(path[3..]))
    requires Carried(nodes) == Blocks(path[3..], m, Units(path[3..]))
    ensures HoldUnits(nodes, Parse(path, m).units)
  {
    var rest := path[3..];
    UnitsNulFree(rest);
    assert |nodes| == |Carried(nodes)|;
    forall i | 0 <= i < |nodes|
      ensures nodes[i].unit == Carried(nodes)[i]
    {}
    forall i | 0 <= i < |Units(rest)|
      ensures nodes[i].unit.Some? && Holding(nodes[i].unit.value, Units(rest)[i])
    {
      FilledHolds(Units(rest)[i], UnitBlock(rest, m, i));
    }
  }

  lemma FilledHolds(u: seq<byte>, b: seq<byte>)
    requires NulFree(u) && |u| <= UNIT_LENGTH && |b| >= BLOCK
    ensures Holding(Filled(u, b), u)
  {
    assert Filled(u, b)[..UNIT_LENGTH] == Padded(u, UNIT_LENGTH, 0);
  }

  lemma {:induction false} UnitsNulFree(rest: seq<byte>)
    requires NulFree(rest)
    ensures NulFreeUnits(Units(rest))
    decreases |rest|
  {
    if rest != [] {
      UnitsNulFree(AfterUnit(rest));
    }
  }

  /** One turn of the loop: the next unit, or the end of the walk. */
  method Descend(d: Driver, streamer: Stream, v: Volume, current: Option<Entry>, unit: seq<byte>,
                 ghost names: seq<seq<byte>>)
    returns (next: Option<Entry>, stop: Option<Result>)
    requires Proper(v) && TableReadable(v) && names != [] && Holding(unit, names[0]) && WalkOnDisk(v, current, names)
    modifies streamer, d.fatStreamer, d.clusterStreamer
    ensures stop.Some? ==> Walk(DiskLoading(v), current, names) == stop.value
    ensures stop.None? ==>
              && Walk(DiskLoading(v), current, names) == Walk(DiskLoading(v), next, names[1..])
              && WalkOnDisk(v, next, names[1..])
  {
    if current == None {
      return None, Some(Fault);
    }
    if !Subdirectory(current.value) {
      return None, Some(Missing);
    }
    var entries := Load(d, streamer, v, current.value);
    if entries == None {
      return None, Some(Fault);
    }
    next := FindChild(entries.value, unit, names[0]);
    stop := None;
  }

  method Load(d: Driver, streamer: Stream, v: Volume, e: Entry) returns (r: Option<seq<Entry>>)
    requires Proper(v) && TableReadable(v) && Subdirectory(e) && OnDisk(v, e)
    modifies streamer, d.fatStreamer, d.clusterStreamer
    ensures r == FromDisk(v, e)
  {
    ghost var end: nat :| DirectoryOnDisk(v, FirstCluster(e), end);
    FromDiskIs(v, e, end);
    var listing := LoadDirectory(d, streamer, v, e, true, end);
    if listing == None {
      return None;
    }
    r := Some(InBytes(listing.value.files, listing.value.total));
  }

  method FindChild(entries: seq<Entry>, unit: seq<byte>, ghost name: seq<byte>) returns (r: Option<Entry>)
    requires Holding(unit, name)
    ensures r == Child(entries, name)
  {
    var found := FindUnit(entries, |entries|, name, unit[..UNIT_LENGTH]);
    match found {
      case None =>
        r := None;
        forall e | e in entries
          ensures !HasName(e, name)
        {
          var j :| 0 <= j < |entries| && entries[j] == e;
        }
      case Some(i) =>
        r := Some(entries[i]);
        LastChild(entries, name, i);
    }
  }

  lemma {:induction false} LastChild(entries: seq<Entry>, name: seq<byte>, i: nat)
    requires i < |entries| && HasName(entries[i], name)
    requires forall j :: i < j < |entries| ==> !HasName(entries[j], name)
    ensures Child(entries, name) == Some(entries[i])
  {
    if i < |entries| - 1 {
      LastChild(entries[..|entries| - 1], name, i);
    }
  }

  // ---------- Positions below the root ----------

  /** Going down by positions, the entries passed have the names, and the last one is the entry. */
  ghost predicate Leads(load: Loading, entries: seq<Entry>, positions: seq<nat>, names: seq<seq<byte>>, e: Entry)
    decreases |names|
  {
    && |positions| == |names| > 0 && positions[0] < |entries| && HasName(entries[positions[0]], names[0])
    && var c := entries[positions[0]];
       if |names| == 1 then e == c
       else Subdirectory(c) && load(c).Some? && Leads(load, load(c).value, positions[1..], names[1..], e)
  }

  /** No two entries of a directory, here or in the levels below, have names that are equal up to case. */
  ghost predicate Unambiguous(load: Loading, entries: seq<Entry>, levels: nat)
    decreases levels
  {
    && (forall i, j :: 0 <= i < j < |entries| ==> Folded(Decoded(entries[i])) != Folded(Decoded(entries[j])))
    && forall i :: 0 <= i < |entries| && Subdirectory(entries[i]) && load(entries[i]).Some? && levels > 0 ==>
         Unambiguous(load, load(entries[i]).value, levels - 1)
  }

  ghost predicate Reaches(load: Loading, root: seq<Entry>, names: seq<seq<byte>>, e: Entry)
  {
    exists positions: seq<nat> :: Leads(load, root, positions, names, e)
  }

  /**
    Whatever loading gives, even when directories contain each other: with no ambiguous names on as many
    levels as the path has, it finds an entry exactly when its names lead there.
   */
  lemma ResolvedIsLed(load: Loading, root: seq<Entry>, names: seq<seq<byte>>, e: Entry)
    requires names != [] && Unambiguous(load, root, |names|)
    ensures Resolved(load, root, names) == Found(e) <==> Reaches(load, root, names, e)
  {
    if Resolved(load, root, names) == Found(e) {
      var positions := PositionsOf(load, root, names, e);
      assert Reaches(load, root, names, e);
    } else if Reaches(load, root, names, e) {
      var positions: seq<nat> :| Leads(load, root, positions, names, e);
      LedIsResolved(load, root, positions, names, e);
      assert false;
    }
  }

  /** Any unit found is where its names lead, even with names that repeat. */
  lemma {:induction false} PositionsOf(load: Loading, root: seq<Entry>, names: seq<seq<byte>>, e: Entry)
    returns (positions: seq<nat>)
    requires names != [] && Resolved(load, root, names) == Found(e)
    ensures Leads(load, root, positions, names, e)
    decreases |names|
  {
    var c := Child(root, names[0]).value;
    var i :| 0 <= i < |root| && root[i] == c;
    if |names| == 1 {
      positions := [i];
    } else {
      WalkOn(load, c, names[1..], e);
      var rest := PositionsOf(load, load(c).value, names[1..], e);
      positions := [i] + rest;
      assert positions[1..] == rest;
    }
  }

  lemma WalkOn(load: Loading, unit: Entry, names: seq<seq<byte>>, e: Entry)
    requires names != [] && Walk(load, Some(unit), names) == Found(e)
    ensures Subdirectory(unit) && load(unit).Some? && Resolved(load, load(unit).value, names) == Found(e)
  {
    var next := Child(load(unit).value, names[0]);
    assert Walk(load, Some(unit), names) == Walk(load, next, names[1..]);
    assert next.Some?;
  }

  lemma {:induction false} LedIsResolved(load: Loading, root: seq<Entry>, positions: seq<nat>,
                                         names: seq<seq<byte>>, e: Entry)
    requires Unambiguous(load, root, |names|) && Leads(load, root, positions, names, e)
    ensures names != [] && Resolved(load, root, names) == Found(e)
    decreases |names|
  {
    LastChild(root, names[0], positions[0]);
    if |names| > 1 {
      LedIsResolved(load, load(root[positions[0]]).value, positions[1..], names[1..], e);
    }
  }

  // ---------- Printed paths ----------

  /** The positions lead down through directories that load. */
  ghost predicate Inside(load: Loading, entries: seq<Entry>, positions: seq<nat>)
    decreases |positions|
  {
    && positions != [] && positions[0] < |entries|
    && var c := entries[positions[0]];
       |positions| == 1 || (Subdirectory(c) && load(c).Some? && Inside(load, load(c).value, positions[1..]))
  }

  /** The names of the entries passed on the way down, and the last entry. */
  ghost function NamesAlong(load: Loading, entries: seq<Entry>, positions: seq<nat>): seq<seq<byte>>
    requires Inside(load, entries, positions)
    decreases |positions|
  {
    var c := entries[positions[0]];
    [Decoded(c)] + if |positions| == 1 then [] else NamesAlong(load, load(c).value, positions[1..])
  }

  ghost function EntryAlong(load: Loading, entries: seq<Entry>, positions: seq<nat>): Entry
    requires Inside(load, entries, positions)
    decreases |positions|
  {
    var c := entries[positions[0]];
    if |positions| == 1 then c else EntryAlong(load, load(c).value, positions[1..])
  }

  lemma {:induction false} OwnNamesLead(load: Loading, entries: seq<Entry>, positions: seq<nat>)
    requires Inside(load, entries, positions)
    ensures Leads(load, entries, positions, NamesAlong(load, entries, positions), EntryAlong(load, entries, positions))
    ensures |NamesAlong(load, entries, positions)| == |positions|
    ensures NulFreeUnits(NamesAlong(load, entries, positions))
    ensures forall i :: 0 <= i < |positions| ==> |NamesAlong(load, entries, positions)[i]| < UNIT_LENGTH
    decreases |positions|
  {
    var c := entries[positions[0]];
    var names := NamesAlong(load, entries, positions);
    assert names[0] == Decoded(c);
    DecodedNulFree(c);
    if |positions| > 1 {
      OwnNamesLead(load, load(c).value, positions[1..]);
      assert names[1..] == NamesAlong(load, load(c).value, positions[1..]);
    }
  }

  /** Every unit with unambiguous and proper names is found by parsing its printed path. */
  lemma OpenedByPrintedPath(load: Loading, root: seq<Entry>, positions: seq<nat>, drive: byte, m: Stale)
    requires Inside(load, root, positions) && Unambiguous(load, root, |positions|)
    requires 'A' as int <= drive <= 'Z' as int && Held(m)
    requires var names := NamesAlong(load, root, positions);
             && SlashFree(names) && names != [] && names[|names| - 1] != [] && |Printed(drive, names)| <= PATH_LENGTH
    ensures var p := Parse(Printed(drive, NamesAlong(load, root, positions)), m);
            p.Path? && p.units != [] && Resolved(load, root, p.units) == Found(EntryAlong(load, root, positions))
  {
    var names := NamesAlong(load, root, positions);
    OwnNamesLead(load, root, positions);
    ParsePrinted(drive, names, m);
    LedIsResolved(load, root, positions, names, EntryAlong(load, root, positions));
  }

  // ---------- Where the walk faults ----------

  /** After k names the walk is at a directory that loads as null, or that lacks the next name although more follow it. */
  ghost predicate StuckAt(load: Loading, unit: Entry, names: seq<seq<byte>>, k: nat)
    requires k < |names|
  {
    var r := Walk(load, Some(unit), names[..k]);
    && r.Found? && Subdirectory(r.entry)
    && (load(r.entry).None? || (k + 1 < |names| && Child(load(r.entry).value, names[k]).None?))
  }

  /** The walk reads through a null pointer exactly when it gets stuck before its last step. */
  lemma {:induction false} FaultsWhenStuck(load: Loading, unit: Entry, names: seq<seq<byte>>)
    ensures Walk(load, Some(unit), names) == Fault <==> exists k: nat :: k < |names| && StuckAt(load, unit, names, k)
    decreases |names|
  {
    if names != [] {
      assert names[..0] == [];
      if Subdirectory(unit) && load(unit).Some? && Child(load(unit).value, names[0]).Some? {
        var next := Child(load(unit).value, names[0]).value;
        FaultsWhenStuck(load, next, names[1..]);
        forall k: nat | k < |names| - 1
          ensures StuckAt(load, unit, names, k + 1) <==> StuckAt(load, next, names[1..], k)
        {
          StuckLater(load, unit, names, next, k);
        }
        assert !StuckAt(load, unit, names, 0);
        if k: nat :| k < |names| && StuckAt(load, unit, names, k) {
          assert StuckAt(load, next, names[1..], k - 1);
        }
        if k: nat :| k < |names[1..]| && StuckAt(load, next, names[1..], k) {
          assert StuckAt(load, unit, names, k + 1);
        }
      } else {
        NeverLeaves(load, unit, names);
      }
    }
  }

  /** The last entry of the name is in position i. */
  ghost predicate LastNamed(entries: seq<Entry>, name: seq<byte>, i: nat)
  {
    i < |entries| && HasName(entries[i], name) && forall j :: i < j < |entries| ==> !HasName(entries[j], name)
  }

  /**
    From the root: a path whose first name is not there is missing, and so is one without units in an empty root;
    the walk faults without units in any other root, and when it gets stuck below the last entry of the first name.
   */
  lemma ResolvedFaults(load: Loading, root: seq<Entry>, names: seq<seq<byte>>)
    ensures names == [] ==> Resolved(load, root, names) == if root == [] then Missing else Fault
    ensures names != [] && (forall e :: e in root ==> !HasName(e, names[0])) ==> Resolved(load, root, names) == Missing
    ensures names != [] ==>
              (Resolved(load, root, names) == Fault <==>
               exists i: nat, k: nat :: LastNamed(root, names[0], i) && k < |names[1..]| &&
                                          StuckAt(load, root[i], names[1..], k))
  {
    if names != [] {
      if Child(root, names[0]).Some? {
        var i := ChildAt(root, names[0]);
        LastChild(root, names[0], i);
        FaultsWhenStuck(load, root[i], names[1..]);
      }
    }
  }

  lemma {:induction false} ChildAt(entries: seq<Entry>, name: seq<byte>) returns (i: nat)
    requires Child(entries, name).Some?
    ensures LastNamed(entries, name, i)
  {
    i := |entries| - 1;
    if !HasName(entries[i], name) {
      i := ChildAt(entries[..i], name);
    }
  }

  lemma StuckLater(load: Loading, unit: Entry, names: seq<seq<byte>>, next: Entry, k: nat)
    requires Subdirectory(unit) && load(unit).Some? && k + 1 < |names| && Child(load(unit).value, names[0]) == Some(next)
    ensures StuckAt(load, unit, names, k + 1) <==> StuckAt(load, next, names[1..], k)
  {
    assert names[..k + 1][1..] == names[1..][..k];
  }

  /** A walk with no next unit ends at once or at the next name. */
  lemma NeverLeaves(load: Loading, unit: Entry, names: seq<seq<byte>>)
    requires names != [] && (!Subdirectory(unit) || load(unit).None? || Child(load(unit).value, names[0]).None?)
    ensures Walk(load, Some(unit), names) == Fault <==> exists k: nat :: k < |names| && StuckAt(load, unit, names, k)
  {
    assert names[..0] == [];
    forall k: nat | 0 < k < |names|
      ensures !StuckAt(load, unit, names, k)
    {
      NotPast(load, unit, names, k);
    }
    assert StuckAt(load, unit, names, 0) <==> Subdirectory(unit) && (load(unit).None? || |names| > 1);
    if Subdirectory(unit) && load(unit).Some? {
      assert Walk(load, Some(unit), names) == Walk(load, None, names[1..]);
    }
  }

  lemma NotPast(load: Loading, unit: Entry, names: seq<seq<byte>>, k: nat)
    requires 0 < k < |names| && (!Subdirectory(unit) || load(unit).None? || Child(load(unit).value, names[0]).None?)
    ensures !Walk(load, Some(unit), names[..k]).Found?
  {
    var some := names[..k];
    assert some[0] == names[0];
    if Subdirectory(unit) && load(unit).Some? {
      assert Walk(load, Some(unit), some) == Walk(load, None, some[1..]);
    }
  }

  /** The entry of a subdirectory named "D" whose first cluster is 2. */
  function EmptyFolder(): Entry
  {
    seq(ENTRY_SIZE, i requires 0 <= i < ENTRY_SIZE =>
      if i == 0 then 0x44 else if i < 11 then SPACE else if i == 11 then 0x10 else if i == 26 then 2 else 0)
  }

  /** On a boot volume of zeros that subdirectory is empty, and the path "D/X" reads through a null pointer. */
  lemma EmptyFolderFaults(v: Volume)
    requires v == BootVolume(seq(563_712, _ => 0))
    ensures Proper(v) && TableReadable(v) && OnDisk(v, EmptyFolder())
    ensures Resolved(DiskLoading(v), [EmptyFolder()], [[0x44], [0x58]]) == Fault
    ensures StuckAt(DiskLoading(v), EmptyFolder(), [[0x58]], 0)
  {
    var e, load := EmptyFolder(), DiskLoading(v);
    FolderEntry();
    assert ClusterPos(v, 2) == 366_592;
    assert Slots(v.image, 366_592, 0) == [];
    assert DirectoryOnDisk(v, 2, 0);
    FromDiskIs(v, e, 0);
    assert load(e) == None;
    var names: seq<seq<byte>> := [[0x44], [0x58]];
    assert Child([e], names[0]) == Some(e);
    assert names[1..] == [[0x58]] && [[0x58]][..0] == [];
  }

  lemma FolderEntry()
    ensures Subdirectory(EmptyFolder()) && FirstCluster(EmptyFolder()) == 2
    ensures HasName(EmptyFolder(), [0x44])
  {
    var e := EmptyFolder();
    OrZero(2);
    assert And(0x10, 0x10) == 16;
    assert e[..NAME_LENGTH][1..][0] == SPACE;
    assert e[NAME_LENGTH..NAME_LENGTH + EXTENSION_LENGTH][0] == SPACE;
    assert Trimmed(e[..NAME_LENGTH]) == [0x44];
    assert Decoded(e) == [0x44];
  }
}
