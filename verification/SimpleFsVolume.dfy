/**
 SimpleFS on its device (src/fs/simplefs.cpp), as values: the entry table, the
 data extents, and the map from names to bytes that they stand for.
 */
module SimpleFsVolume {
  import opened Outcomes
  import opened Arithmetic
  import opened Seals
  import opened SimpleFsEntries

  const MAX_ENTRIES: nat := 32
  const DATA_START: nat := 5
  const MAX_FILE: nat := 65536
  const WORD: nat := 0x1_0000_0000
  const REGULAR: byte := 1
  const DEVICE: byte := 2

  type Disk = seq<Block>

  // ---------------------------------------------------------------------
  // The table

  function EntryOf(disk: Disk, i: nat): DiskEntry
    requires i < MAX_ENTRIES && |disk| >= DATA_START
  {
    Decode(disk[1 + i / 8], i % 8 * 64)
  }

  function Table(disk: Disk): (t: seq<DiskEntry>)
    requires |disk| >= DATA_START
    ensures |t| == MAX_ENTRIES
  {
    seq(MAX_ENTRIES, i requires 0 <= i < MAX_ENTRIES => EntryOf(disk, i))
  }

  /** Rewriting one entry's bytes changes that entry alone. */
  lemma TableWritten(disk: Disk, i: nat, block: Block, e: DiskEntry)
    requires i < MAX_ENTRIES && |disk| >= DATA_START && Decode(block, i % 8 * 64) == e
    requires forall k :: 0 <= k < BLOCK && !(i % 8 * 64 <= k < i % 8 * 64 + ENTRY) ==> block[k] == disk[1 + i / 8][k]
    ensures Table(disk[1 + i / 8 := block]) == Table(disk)[i := e]
  {
    var after := disk[1 + i / 8 := block];
    forall j | 0 <= j < MAX_ENTRIES ensures EntryOf(after, j) == if j == i then e else EntryOf(disk, j) {
      if j != i && j / 8 == i / 8 {
        assert j % 8 != i % 8;
        DecodeLocal(disk[1 + i / 8], block, j % 8 * 64);
      }
    }
  }

  lemma NoZeroNames(disk: Disk)
    requires |disk| >= DATA_START
    ensures forall k :: 0 <= k < MAX_ENTRIES ==> 0 !in Table(disk)[k].name
  {
    forall k | 0 <= k < MAX_ENTRIES ensures 0 !in Table(disk)[k].name {
      NoZeroRead(disk[1 + k / 8], k % 8 * 64 + 16);
    }
  }

  lemma NameWritten(disk: Disk, i: nat, block: Block, name: Name)
    requires i < MAX_ENTRIES && |disk| >= DATA_START && NameStored(block, i % 8 * 64 + 16, name)
    ensures var e := Table(disk[1 + i / 8 := block])[i];
            e == Decode(block, i % 8 * 64) && (e.name == name <==> 0 !in name)
  {
    NameRoundTrip(block, i % 8 * 64 + 16, name);
  }

  /** A file whose entry was written can be found under its name if and only if that has no zero byte. */
  lemma FoundAgain(disk: Disk, i: nat, block: Block, name: Name)
    requires i < MAX_ENTRIES && |disk| >= DATA_START
    requires NameStored(block, i % 8 * 64 + 16, name) && Decode(block, i % 8 * 64).used
    ensures var t := Table(disk[1 + i / 8 := block]);
            (exists k :: 0 <= k < MAX_ENTRIES && t[k].used && t[k].name == name) <==> 0 !in name
  {
    NoZeroNames(disk[1 + i / 8 := block]);
    NameWritten(disk, i, block, name);
  }

  // ---------------------------------------------------------------------
  // Data

  function Blocks(size: nat): nat { (size + BLOCK - 1) / BLOCK }

  /** The extent is as long as its size needs, and inside the data area. */
  predicate InArea(x: Extent, n: nat) {
    x.count == Blocks(x.size) && (x.count > 0 ==> DATA_START <= x.start && x.start + x.count <= n)
  }

  predicate Apart(x: Extent, y: Extent) {
    x.count == 0 || y.count == 0 || x.start + x.count <= y.start || y.start + y.count <= x.start
  }

  function Data(disk: Disk, x: Extent): (r: seq<byte>)
    requires InArea(x, |disk|)
    ensures |r| == x.size
  {
    seq(x.size, k requires 0 <= k < x.size => disk[x.start + k / BLOCK][k % BLOCK])
  }

  /** Writing a block outside an extent leaves its data. */
  lemma DataApart(disk: Disk, x: Extent, b: nat, block: Block)
    requires InArea(x, |disk|) && b < |disk| && !(x.start <= b < x.start + x.count)
    ensures Data(disk[b := block], x) == Data(disk, x)
  {
  }

  // ---------------------------------------------------------------------
  // The invariant

  predicate GoodName(n: Name) { 0 < |n| < NAME_CAPACITY && 0 !in n && 47 !in n }

  predicate EntrySound(e: DiskEntry, n: nat) {
    Storable(e) && (e.used ==> GoodName(e.name) && InArea(e.extent, n))
  }

  predicate PairSound(e: DiskEntry, f: DiskEntry) {
    e.used && f.used ==> e.name != f.name && Apart(e.extent, f.extent)
  }

  /** Names are distinct, and extents are disjoint and inside the data area. */
  ghost predicate Sound(t: seq<DiskEntry>, n: nat) {
    && |t| == MAX_ENTRIES
    && forall k :: Opened(TableSeal, k) ==>
         && (forall i :: 0 <= i < |t| ==> EntrySound(t[i], n))
         && (forall i, j :: 0 <= i < |t| && 0 <= j < |t| && i != j ==> PairSound(t[i], t[j]))
  }

  datatype File = File(kind: byte, bytes: seq<byte>)

  /** `files` is what the used entries and their extents spell out. */
  ghost predicate Shows(disk: Disk, t: seq<DiskEntry>, files: map<Name, File>) {
    forall k :: Opened(FilesSeal, k) ==>
      && (forall i :: 0 <= i < |t| && t[i].used ==> InArea(t[i].extent, |disk|) && t[i].name in files &&
                                                    files[t[i].name] == File(t[i].kind, Data(disk, t[i].extent)))
      && (forall n :: n in files ==> exists i :: 0 <= i < |t| && t[i].used && t[i].name == n)
  }

  lemma SoundAt(t: seq<DiskEntry>, n: nat, i: nat)
    requires Sound(t, n) && i < |t|
    ensures EntrySound(t[i], n)
  {
    assert Opened(TableSeal, 0);
  }

  lemma PairAt(t: seq<DiskEntry>, n: nat, i: nat, j: nat)
    requires Sound(t, n) && i < |t| && j < |t| && i != j
    ensures PairSound(t[i], t[j])
  {
    assert Opened(TableSeal, 0);
  }

  lemma ShowsAt(disk: Disk, t: seq<DiskEntry>, files: map<Name, File>, i: nat)
    requires Shows(disk, t, files) && i < |t| && t[i].used
    ensures InArea(t[i].extent, |disk|) && t[i].name in files
    ensures files[t[i].name] == File(t[i].kind, Data(disk, t[i].extent))
  {
    assert Opened(FilesSeal, 0);
  }

  lemma ShowsName(disk: Disk, t: seq<DiskEntry>, files: map<Name, File>, n: Name) returns (i: nat)
    requires Shows(disk, t, files) && n in files
    ensures i < |t| && t[i].used && t[i].name == n
  {
    assert Opened(FilesSeal, 0);
    i :| 0 <= i < |t| && t[i].used && t[i].name == n;
  }

  /** A new disk whose table says the same, and whose used extents hold the same. */
  lemma ShowsSame(disk: Disk, after: Disk, t: seq<DiskEntry>, files: map<Name, File>)
    requires Shows(disk, t, files) && |after| == |disk|
    requires forall i :: 0 <= i < |t| && t[i].used && InArea(t[i].extent, |disk|) ==>
              Data(after, t[i].extent) == Data(disk, t[i].extent)
    ensures Shows(after, t, files)
  {
    assert Opened(FilesSeal, 0);
  }

  // ---------------------------------------------------------------------
  // One entry replaced

  lemma SoundReplaced(t: seq<DiskEntry>, n: nat, i: nat, e: DiskEntry)
    requires Sound(t, n) && i < |t| && EntrySound(e, n)
    requires forall j :: 0 <= j < |t| && j != i ==> PairSound(e, t[j])
    ensures Sound(t[i := e], n)
  {
    assert Opened(TableSeal, 0);
  }

  /** A new entry binds a new name. */
  lemma ShowsAdded(disk: Disk, t: seq<DiskEntry>, files: map<Name, File>, i: nat, e: DiskEntry)
    requires Shows(disk, t, files) && i < |t| && !t[i].used && e.used && e.name !in files && InArea(e.extent, |disk|)
    ensures Shows(disk, t[i := e], files[e.name := File(e.kind, Data(disk, e.extent))])
  {
    var u, g := t[i := e], files[e.name := File(e.kind, Data(disk, e.extent))];
    forall j: nat | j < |u| && u[j].used
      ensures InArea(u[j].extent, |disk|) && u[j].name in g && g[u[j].name] == File(u[j].kind, Data(disk, u[j].extent))
    {
      if j != i {
        ShowsAt(disk, t, files, j);
      }
    }
    forall n | n in g ensures exists j :: 0 <= j < |u| && u[j].used && u[j].name == n {
      if n == e.name {
        assert u[i].name == n;
      } else {
        var j := ShowsName(disk, t, files, n);
        assert u[j].name == n;
      }
    }
  }

  /** A freed entry unbinds its name. */
  lemma ShowsDropped(disk: Disk, t: seq<DiskEntry>, files: map<Name, File>, i: nat, e: DiskEntry)
    requires Sound(t, |disk|) && Shows(disk, t, files) && i < |t| && t[i].used && !e.used
    ensures Shows(disk, t[i := e], files - {t[i].name})
  {
    var u, g := t[i := e], files - {t[i].name};
    forall j: nat | j < |u| && u[j].used
      ensures InArea(u[j].extent, |disk|) && u[j].name in g && g[u[j].name] == File(u[j].kind, Data(disk, u[j].extent))
    {
      ShowsAt(disk, t, files, j);
      PairAt(t, |disk|, i, j);
    }
    forall n | n in g ensures exists j :: 0 <= j < |u| && u[j].used && u[j].name == n {
      var j := ShowsName(disk, t, files, n);
      assert u[j].name == n;
    }
  }

  /** A new extent gives its name new bytes; `after` is the disk once they are written. */
  lemma ShowsRewritten(disk: Disk, after: Disk, t: seq<DiskEntry>, files: map<Name, File>, i: nat, x: Extent)
    requires Sound(t, |disk|) && Shows(disk, t, files) && |after| == |disk| && i < |t| && t[i].used && InArea(x, |disk|)
    requires forall j :: 0 <= j < |t| && j != i && t[j].used && InArea(t[j].extent, |disk|) ==>
              Data(after, t[j].extent) == Data(disk, t[j].extent)
    ensures Shows(after, t[i := t[i].(extent := x)], files[t[i].name := File(t[i].kind, Data(after, x))])
  {
    var u, g := t[i := t[i].(extent := x)], files[t[i].name := File(t[i].kind, Data(after, x))];
    forall j: nat | j < |u| && u[j].used
      ensures InArea(u[j].extent, |after|) && u[j].name in g
      ensures g[u[j].name] == File(u[j].kind, Data(after, u[j].extent))
    {
      ShowsAt(disk, t, files, j);
      if j != i {
        PairAt(t, |disk|, i, j);
      }
    }
    forall n | n in g ensures exists j :: 0 <= j < |u| && u[j].used && u[j].name == n {
      if n == t[i].name {
        assert u[i].name == n;
      } else {
        var j := ShowsName(disk, t, files, n);
        assert u[j].name == n;
      }
    }
  }

  /** Table writes leave the data area. */
  lemma ShowsTable(disk: Disk, b: nat, block: Block, t: seq<DiskEntry>, files: map<Name, File>)
    requires Shows(disk, t, files) && b < DATA_START <= |disk|
    ensures Shows(disk[b := block], t, files)
  {
    forall i | 0 <= i < |t| && t[i].used && InArea(t[i].extent, |disk|)
      ensures Data(disk[b := block], t[i].extent) == Data(disk, t[i].extent)
    {
      if t[i].extent.count > 0 {
        DataApart(disk, t[i].extent, b, block);
      }
    }
    ShowsSame(disk, disk[b := block], t, files);
  }

  // ---------------------------------------------------------------------
  // The search for an extent

  /** `ranges_overlap`, in 32-bit arithmetic. */
  predicate Overlaps(start: nat, count: nat, s: nat, c: nat) {
    count != 0 && c != 0 && start < (s + c) % WORD && s < (start + count) % WORD
  }

  /** A candidate that lies in the data area and meets no other file's extent. */
  ghost predicate Fits(t: seq<DiskEntry>, n: nat, required: nat, ignored: nat, candidate: nat) {
    && DATA_START <= candidate && candidate + required <= n
    && forall i :: 0 <= i < |t| && i != ignored && t[i].used ==> Apart(Extent(0, candidate, required), t[i].extent)
  }

  /** The inner loop: does the candidate meet another file's extent? */
  method Collides(t: seq<DiskEntry>, required: nat, ignored: nat, candidate: nat) returns (collision: bool)
    ensures collision <==>
            exists i ::
                0 <= i < |t| && i != ignored && t[i].used &&
                    Overlaps(candidate, required, t[i].extent.start, t[i].extent.count)
  {
    for i := 0 to |t|
      invariant forall j :: 0 <= j < i && j != ignored && t[j].used ==>
              !Overlaps(candidate, required, t[j].extent.start, t[j].extent.count)
    {
      if i != ignored && t[i].used && Overlaps(candidate, required, t[i].extent.start, t[i].extent.count) {
        return true;
      }
    }
    return false;
  }

  /** Below the wrap the 32-bit comparison is exact. */
  lemma OverlapExact(t: seq<DiskEntry>, n: nat, required: nat, candidate: nat, i: nat)
    requires Sound(t, n) && n < WORD && i < |t| && t[i].used && required > 0 && candidate + required <= n
    ensures Overlaps(candidate, required, t[i].extent.start, t[i].extent.count) <==>
            !Apart(Extent(0, candidate, required), t[i].extent)
  {
    SoundAt(t, n, i);
  }

  // An extent of a sound table has at most 2^23 blocks, so it meets at most one of
  // 33 candidates 2^24 blocks apart, and 32 entries leave one of them clear.

  const STRIDE: nat := 0x100_0000

  ghost function Station(k: nat): nat { DATA_START + k * STRIDE }

  lemma MeetsOne(x: Extent, required: nat, j: nat, k: nat)
    requires x.count <= 0x80_0000 && 0 < required <= 128 && j != k
    ensures Apart(Extent(0, Station(j), required), x) || Apart(Extent(0, Station(k), required), x)
  {
  }

  /** The stations that the first `m` entries meet are at most `m`. */
  lemma {:induction false} Taken(t: seq<DiskEntry>, n: nat, required: nat, m: nat) returns (met: set<nat>)
    requires Sound(t, n) && m <= |t| && 0 < required <= 128
    ensures |met| <= m
    ensures forall k, i :: k !in met && 0 <= k && 0 <= i < m && t[i].used ==>
            Apart(Extent(0, Station(k), required), t[i].extent)
  {
    if m == 0 {
      met := {};
    } else {
      met := Taken(t, n, required, m - 1);
      var e := t[m - 1];
      SoundAt(t, n, m - 1);
      if k: nat :| e.used && !Apart(Extent(0, Station(k), required), e.extent) {
        forall j: nat | j != k ensures Apart(Extent(0, Station(j), required), e.extent) {
          MeetsOne(e.extent, required, j, k);
        }
        met := met + {k};
      }
    }
  }

  lemma NotAll(met: set<nat>, n: nat) returns (k: nat)
    requires |met| < n
    ensures k < n && k !in met
  {
    var both, rest := Upto(n) * met, Upto(n) - met;
    assert both + rest == Upto(n);
    assert both + (met - Upto(n)) == met;
    assert rest != {};
    k :| k in rest;
  }

  /** On a volume large enough for the 32-bit sum to wrap there is always room. */
  lemma AlwaysRoom(t: seq<DiskEntry>, n: nat, required: nat, ignored: nat) returns (c: nat)
    requires Sound(t, n) && n == WORD - 1 && 0 < required <= 128
    ensures Fits(t, n, required, ignored, c)
  {
    var met := Taken(t, n, required, MAX_ENTRIES);
    var k := NotAll(met, MAX_ENTRIES + 1);
    c := Station(k);
  }

  /**
   `allocate_extent`: the lowest extent that fits, and a refusal only when none
   does. The 32-bit sums never wrap: where they could, there is always room.
   */
  method AllocateExtent(t: seq<DiskEntry>, n: nat, required: nat, ignored: nat) returns (r: Result<nat>)
    requires Sound(t, n) && DATA_START < n < WORD && 0 < required <= 128
    ensures r.Ok? ==> Fits(t, n, required, ignored, r.value)
    ensures r.Ok? ==> forall c :: Fits(t, n, required, ignored, c) ==> r.value <= c
    ensures r.Err? ==> r.status == Overflow && forall c :: !Fits(t, n, required, ignored, c)
  {
    ghost var room := 0;
    if n == WORD - 1 {
      room := AlwaysRoom(t, n, required, ignored);
    }
    var candidate := DATA_START;
    while (candidate + required) % WORD <= n
      invariant DATA_START <= candidate && (candidate + required <= n + 1 || candidate == DATA_START)
      invariant forall c :: Fits(t, n, required, ignored, c) ==> candidate <= c
      decreases n + required - candidate
    {
      assert n == WORD - 1 ==> candidate <= room;
      var collision := Collides(t, required, ignored, candidate);
      forall i | 0 <= i < |t| && i != ignored && t[i].used
        ensures Overlaps(candidate, required, t[i].extent.start, t[i].extent.count) <==>
                !Apart(Extent(0, candidate, required), t[i].extent)
      {
        OverlapExact(t, n, required, candidate, i);
      }
      if !collision {
        return Ok(candidate);
      }
      candidate := candidate + 1;
    }
    return Err(Overflow);
  }
}
