/**
 SimpleFS (src/fs/simplefs.cpp) on a device whose writes may fail. Over any run of
 format, create, write, unlink and read it is a map from names to bytes, and an
 operation on one name, even one that fails midway, leaves every other name alone.
 */
module SimpleFs {
  import opened Outcomes
  import opened Bytes
  import opened SimpleFsEntries
  import opened SimpleFsVolume
  import opened Seals

  const SLASH: byte := 47
  const MAGIC: nat := 0x53464b4f

  /** `normalize_name`: one optional leading slash, and a flat root. */
  function Normalize(path: seq<byte>): (r: Result<Name>)
    ensures r.Ok? && 0 !in path ==> GoodName(r.value)
  {
    if path == [] || path == [SLASH] then Err(InvalidArgument)
    else
      var name := if path[0] == SLASH then path[1..] else path;
      if SLASH in name then Err(Unsupported)
      else if |name| >= NAME_CAPACITY then Err(Overflow)
      else Ok(name)
  }

  /** Every name but this one is as before. */
  ghost predicate OthersKept(a: map<Name, File>, b: map<Name, File>, name: Name) {
    forall n :: n != name ==> (n in a <==> n in b) && (n in a ==> a[n] == b[n])
  }

  class SimpleDiskFileSystem {
    const blockCount: nat
    var disk: Disk
    var fileCount: nat
    ghost var files: map<Name, File>
    /** A device write has failed since the format. */
    ghost var faulted: bool

    ghost predicate Valid()
      reads this
    {
      Stored() && (!faulted ==> fileCount == |files|)
    }

    /** `format`: an empty table, whatever the device held. */
    constructor (device: Disk)
      requires DATA_START < |device| < WORD
      ensures Valid() && files == map[] && fileCount == 0
    {
      blockCount := |device|;
      var formatted: Disk := device[0 := SuperBlock(|device|, 0)];
      for b := 1 to DATA_START
        invariant |formatted| == |device| && forall c :: 1 <= c < b ==> formatted[c] == ZeroBlock()
      {
        formatted := formatted[b := ZeroBlock()];
      }
      ZeroTable(formatted, |device|);
      disk := formatted;
      fileCount, files, faulted := 0, map[], false;
    }

    /** A sector write: done, or failed with the sector old or new. */
    method WriteBlock(b: nat, block: Block) returns (s: Status, ghost done: bool)
      requires b < |disk|
      modifies this`disk, this`faulted
      ensures disk == if done then old(disk)[b := block] else old(disk)
      ensures s == Success ==> done && faulted == old(faulted)
      ensures s != Success ==> s == IoError && faulted
    {
      var reached, ok: bool := *, *;
      done := ok || reached;
      if ok || reached {
        disk := disk[b := block];
      }
      if ok {
        return Success, done;
      }
      faulted := true;
      return IoError, done;
    }

    /** `write_entry`: only the table changes, and only at this entry. */
    method WriteEntry(i: nat, e: DiskEntry) returns (s: Status, ghost done: bool)
      requires Valid() && i < MAX_ENTRIES && Storable(e)
      modifies this`disk, this`faulted
      ensures |disk| == blockCount && (s == Success || s == IoError)
      ensures done ==> Table(disk) == old(Table(disk))[i := Kept(e)]
      ensures !done ==> disk == old(disk)
      ensures s == Success ==> done && faulted == old(faulted)
      ensures s != Success ==> faulted
      ensures disk == old(disk)[1 + i / 8 := disk[1 + i / 8]]
    {
      var block := disk[1 + i / 8];
      assert disk == disk[1 + i / 8 := block];
      var updated := PutEntry(block, i % 8 * 64, e);
      NameReadBack(updated, i % 8 * 64 + 16, e.name);
      TableWritten(disk, i, updated, Kept(e));
      s, done := WriteBlock(1 + i / 8, updated);
    }

    /** `find_entry`: the used entry with this name. */
    method FindEntry(name: Name) returns (i: nat)
      requires Valid()
      ensures i <= MAX_ENTRIES && (i < MAX_ENTRIES <==> name in files)
      ensures i < MAX_ENTRIES ==> Table(disk)[i].used && Table(disk)[i].name == name
    {
      for j := 0 to MAX_ENTRIES
        invariant forall k :: 0 <= k < j ==> !(Table(disk)[k].used && Table(disk)[k].name == name)
      {
        var entry := EntryOf(disk, j);
        if entry.used && entry.name == name {
          ShowsAt(disk, Table(disk), files, j);
          return j;
        }
      }
      if name in files {
        ghost var k := ShowsName(disk, Table(disk), files, name);
      }
      return MAX_ENTRIES;
    }

    /** `find_free_entry`. */
    method FindFreeEntry() returns (i: nat)
      requires Valid()
      ensures i <= MAX_ENTRIES && (i < MAX_ENTRIES ==> !Table(disk)[i].used)
      ensures i == MAX_ENTRIES ==> forall k :: 0 <= k < MAX_ENTRIES ==> Table(disk)[k].used
    {
      for j := 0 to MAX_ENTRIES
        invariant forall k :: 0 <= k < j ==> Table(disk)[k].used
      {
        if !EntryOf(disk, j).used {
          assert !Table(disk)[j].used;
          return j;
        }
      }
      return MAX_ENTRIES;
    }

    /**
     Writes an entry. When the table stays sound with it and then shows the files `after`, so
     it does afterwards; a failed write may have done as much.
     */
    method StoreEntry(i: nat, e: DiskEntry, ghost after: map<Name, File>, ghost keeps: bool) returns (s: Status)
      requires Valid() && i < MAX_ENTRIES && Storable(e)
      requires keeps ==>
               Sound(Table(disk)[i := Kept(e)], blockCount) && Shows(disk, Table(disk)[i := Kept(e)], after)
      modifies this`disk, this`files, this`faulted
      ensures |disk| == blockCount && (s == Success || s == IoError)
      ensures keeps ==> Stored() && (files == after || (s != Success && files == old(files)))
      ensures s == Success ==> Table(disk) == old(Table(disk))[i := Kept(e)] && faulted == old(faulted)
      ensures s != Success ==> faulted
    {
      ghost var before, done := disk, false;
      s, done := WriteEntry(i, e);
      if done && keeps {
        EntryStored(before, disk, i, Kept(e), after);
        files := after;
      }
    }

    /** The invariant but for the file count. */
    ghost predicate Stored()
      reads this
    {
      && DATA_START < blockCount < WORD && |disk| == blockCount
      && Sound(Table(disk), blockCount) && Shows(disk, Table(disk), files)
    }

    /** `unlink`. */
    method Unlink(path: seq<byte>) returns (s: Status)
      requires Valid()
      modifies this
      ensures Valid()
      ensures Normalize(path).Err? ==> s == Normalize(path).status && files == old(files)
      ensures Normalize(path).Ok? ==> OthersKept(old(files), files, Normalize(path).value)
      ensures Normalize(path).Ok? && 0 in path ==> s == NotFound
      ensures s == NotFound <==> Normalize(path).Ok? && Normalize(path).value !in old(files)
      ensures s == Success ==> Normalize(path).value in old(files) && files == old(files) - {Normalize(path).value}
      ensures s == IoError ==> faulted
      ensures s == Success || s == IoError || (files == old(files) && disk == old(disk))
    {
      var normal := Normalize(path);
      if normal.Err? {
        return normal.status;
      }
      NeverStored(disk, files, normal.value);
      var i := FindEntry(normal.value);
      if i == MAX_ENTRIES {
        return NotFound;
      }
      s := DropEntry(i, normal.value);
    }

    /** The writes of an `unlink`. */
    method DropEntry(i: nat, ghost name: Name) returns (s: Status)
      requires Valid() && i < MAX_ENTRIES && Table(disk)[i].used && Table(disk)[i].name == name && name in files
      modifies this
      ensures Valid() && (s == Success || (s == IoError && faulted))
      ensures files == old(files) - {name} || (s == IoError && files == old(files))
    {
      var empty := DiskEntry(false, REGULAR, Extent(0, 0, 0), seq(16, _ => 0), []);
      DroppedSound(disk, files, i, empty);
      s := StoreEntry(i, empty, files - {name}, true);
      if s != Success {
        return;
      }
      if fileCount > 0 {
        fileCount := fileCount - 1;
      }
      s := FlushInfo();
    }

    /**
     `create`: an empty file under a name that is free. It is stored under the name up to its
     first zero byte, and that keeps the table sound if and only if it is not empty and not a
     file's name already.
     */
    method Create(path: seq<byte>, kind: byte, meta: seq<byte>) returns (s: Status)
      requires Valid() && |meta| == 16
      modifies this
      ensures |disk| == blockCount > DATA_START
      ensures Normalize(path).Err? ==> Valid() && s == Normalize(path).status && files == old(files)
      ensures s == AlreadyExists <==> Normalize(path).Ok? && Normalize(path).value in old(files)
      ensures s == Overflow && Normalize(path).Ok? ==> forall k :: 0 <= k < MAX_ENTRIES ==> Table(disk)[k].used
      ensures s in {Success, AlreadyExists, Overflow} || Normalize(path).Err? || (s == IoError && faulted)
      ensures s == Success || s == IoError || (Valid() && files == old(files) && disk == old(disk))
      ensures Normalize(path).Ok? && Tells(old(files), Normalize(path).value) ==>
              Valid() && OthersKept(old(files), files, Cut(Normalize(path).value))
      ensures s == Success ==>
              if Tells(old(files), Normalize(path).value)
              then files == old(files)[Cut(Normalize(path).value) := File(kind, [])]
              else !Sound(Table(disk), blockCount)
    {
      var normal := Normalize(path);
      if normal.Err? {
        return normal.status;
      }
      var existing := FindEntry(normal.value);
      if existing < MAX_ENTRIES {
        return AlreadyExists;
      }
      var i := FindFreeEntry();
      if i == MAX_ENTRIES {
        return Overflow;
      }
      var entry := DiskEntry(true, kind, Extent(0, 0, 0), meta, normal.value);
      CutFlat(path);
      s := AddEntry(i, entry);
    }

    /** The writes of a `create`. */
    method AddEntry(i: nat, e: DiskEntry) returns (s: Status)
      requires Valid() && i < MAX_ENTRIES && !Table(disk)[i].used && e.used && e.extent == Extent(0, 0, 0)
      requires Storable(e) && (Cut(e.name) != [] ==> GoodName(Cut(e.name)))
      modifies this
      ensures |disk| == blockCount && (s == Success || (s == IoError && faulted))
      ensures old(Tells(files, e.name)) ==>
              && Valid()
              && (files == old(files)[Cut(e.name) := File(e.kind, [])] || (s == IoError && files == old(files)))
      ensures s == Success && !old(Tells(files, e.name)) ==> !Sound(Table(disk), blockCount)
    {
      ghost var tells := Tells(files, e.name);
      if tells {
        AddedSound(disk, files, i, Kept(e));
      } else {
        AddedUnsound(disk, files, i, Kept(e));
      }
      s := StoreEntry(i, e, files[Cut(e.name) := File(e.kind, [])], tells);
      if s != Success {
        return;
      }
      fileCount := fileCount + 1;
      s := FlushInfo();
    }

    /** `write_file`: the name gets these bytes; all other names keep theirs, whatever fails. */
    method WriteFile(path: seq<byte>, data: seq<byte>) returns (s: Status)
      requires Valid()
      modifies this
      ensures Valid()
      ensures |data| > MAX_FILE ==> s == Overflow
      ensures |data| <= MAX_FILE && Normalize(path).Err? ==> s == Normalize(path).status
      ensures |data| <= MAX_FILE && Normalize(path).Ok? ==>
              (s == NotFound <==> Normalize(path).value !in old(files)) && (0 in path ==> s == NotFound)
      ensures |data| <= MAX_FILE && Normalize(path).Ok? && Normalize(path).value in old(files) ==>
              (s == InvalidArgument <==> old(files)[Normalize(path).value].kind !in {REGULAR, DEVICE})
      ensures s == Overflow && |data| <= MAX_FILE && Normalize(path).Ok? ==>
              exists i :: 0 <= i < MAX_ENTRIES && Table(disk)[i].used && Table(disk)[i].name == Normalize(path).value &&
                          forall c :: !Fits(Table(disk), blockCount, Blocks(|data|), i, c)
      ensures s == IoError ==> faulted
      ensures Normalize(path).Ok? ==> OthersKept(old(files), files, Normalize(path).value)
      ensures s == Success ==> Normalize(path).value in old(files)
      ensures s == Success ==>
                var name := Normalize(path).value; files == old(files)[name := File(old(files)[name].kind, data)]
      ensures s == Success || s == IoError || (files == old(files) && disk == old(disk))
      ensures fileCount == old(fileCount)
    {
      if |data| > MAX_FILE {
        return Overflow;
      }
      var normal := Normalize(path);
      if normal.Err? {
        return normal.status;
      }
      NeverStored(disk, files, normal.value);
      var i := FindEntry(normal.value);
      if i == MAX_ENTRIES {
        return NotFound;
      }
      var entry := EntryOf(disk, i);
      ShowsAt(disk, Table(disk), files, i);
      if entry.kind != REGULAR && entry.kind != DEVICE {
        return InvalidArgument;
      }
      var required := Blocks(|data|);
      var start := 0;
      if required != 0 {
        var allocation := AllocateExtent(Table(disk), blockCount, required, i);
        if allocation.Err? {
          return Overflow;
        }
        start := allocation.value;
      }
      s := StoreData(i, Extent(|data|, start, required), data);
    }

    /** The data block loop: nothing outside the extent is written. */
    method WriteBlocks(x: Extent, data: seq<byte>) returns (s: Status)
      requires x.size == |data| && InArea(x, |disk|)
      modifies this`disk, this`faulted
      ensures OnlyWithin(old(disk), disk, x) && (s == Success || s == IoError)
      ensures s == Success ==> faulted == old(faulted) && forall k :: 0 <= k < x.count ==>
              disk[x.start + k] == Chunk(data, k)
      ensures s != Success ==> faulted
    {
      for k := 0 to x.count
        invariant OnlyWithin(old(disk), disk, x) && faulted == old(faulted)
        invariant forall j :: 0 <= j < k ==> disk[x.start + j] == Chunk(data, j)
      {
        var block := FillBlock(data, k);
        ghost var done;
        s, done := WriteBlock(x.start + k, block);
        if s != Success {
          return;
        }
      }
      return Success;
    }

    /** The data blocks, then the entry that points to them. */
    method StoreData(i: nat, x: Extent, data: seq<byte>) returns (s: Status)
      requires Valid() && i < MAX_ENTRIES && Table(disk)[i].used && Table(disk)[i].name in files
      requires x.size == |data| && InArea(x, blockCount) && x.size < WORD && x.start < WORD && x.count < WORD
      requires ApartFromOthers(Table(disk), i, x)
      modifies this
      ensures Valid() && fileCount == old(fileCount) && (s == Success || (s == IoError && faulted))
      ensures OthersKept(old(files), files, old(Table(disk)[i].name))
      ensures s == Success ==> files == old(files)[old(Table(disk)[i].name) := File(old(Table(disk)[i].kind), data)]
    {
      var entry := Table(disk)[i];
      ghost var before, t := disk, Table(disk);
      s := WriteBlocks(x, data);
      AfterBlocks(before, disk, t, entry, files, i, x);
      files := files[entry.name := File(entry.kind, Data(disk, entry.extent))];
      if s != Success {
        return;
      }
      ChunksAreData(disk, x, data);
      CutWhole(entry.name);
      s := StoreEntry(i, entry.(extent := x), files[entry.name := File(entry.kind, data)], true);
    }

    /** `read_file_into`: the bytes last written under the name. */
    method ReadFile(path: seq<byte>, capacity: nat) returns (r: Result<seq<byte>>)
      requires Valid()
      ensures Normalize(path).Ok? && 0 in path ==> r == Err(NotFound)
      ensures Normalize(path).Err? ==> r == Err(Normalize(path).status)
      ensures Normalize(path).Ok? && Normalize(path).value !in files ==> r == Err(NotFound)
      ensures Normalize(path).Ok? && Normalize(path).value in files ==>
              var file := files[Normalize(path).value];
              r == if file.kind != REGULAR && file.kind != DEVICE then Err(InvalidArgument)
                   else if |file.bytes| > capacity then Err(Overflow)
                   else Ok(file.bytes)
    {
      var normal := Normalize(path);
      if normal.Err? {
        return Err(normal.status);
      }
      NeverStored(disk, files, normal.value);
      var i := FindEntry(normal.value);
      if i == MAX_ENTRIES {
        return Err(NotFound);
      }
      var entry := EntryOf(disk, i);
      ShowsAt(disk, Table(disk), files, i);
      if entry.kind != REGULAR && entry.kind != DEVICE {
        return Err(InvalidArgument);
      }
      if entry.extent.size > capacity {
        return Err(Overflow);
      }
      var out := ReadExtent(disk, entry.extent);
      return Ok(out);
    }

    /** `flush_info`: the superblock is no part of the table or the data. */
    method FlushInfo() returns (s: Status)
      requires DATA_START < blockCount < WORD && |disk| == blockCount
      modifies this`disk, this`faulted
      ensures |disk| == blockCount && Table(disk) == old(Table(disk)) && (s == Success || (s == IoError && faulted))
      ensures old(Valid()) ==> Valid()
      ensures s == Success ==> faulted == old(faulted)
    {
      var block := SuperBlock(blockCount, fileCount % WORD);
      ghost var before := disk;
      if Valid() {
        ShowsTable(before, 0, block, Table(before), files);
      }
      SuperApart(before, block);
      ghost var done;
      s, done := WriteBlock(0, block);
    }
  }

  /**
   A new file under this name can be told from the others: what is stored of the name is something,
   and not theirs.
   */
  ghost predicate Tells(files: map<Name, File>, name: Name) { Cut(name) != [] && Cut(name) !in files }

  /** "a", a zero byte and "b" is another name for "a", and `create` takes it. */
  lemma DoubleName(files: map<Name, File>)
    requires [97] in files && [97, 0, 98] !in files
    ensures Normalize([97, 0, 98]) == Ok([97, 0, 98]) && !Tells(files, [97, 0, 98])
  {
    var name: Name := [97, 0, 98];
    assert CutLength(name, 1) == 1;
    assert Cut(name) == [97];
  }

  /** What is stored of a path is a flat name. */
  lemma CutFlat(path: seq<byte>)
    requires Normalize(path).Ok?
    ensures var name := Cut(Normalize(path).value); name != [] ==> GoodName(name)
  {
    var name := Normalize(path).value;
    CutWhole(name);
    assert SLASH !in name;
  }

  /** No file has a zero byte in its name. */
  lemma NeverStored(disk: Disk, files: map<Name, File>, name: Name)
    requires |disk| > DATA_START && Shows(disk, Table(disk), files)
    ensures 0 in name ==> name !in files
  {
    if name in files {
      var k := ShowsName(disk, Table(disk), files, name);
      NoZeroNames(disk);
    }
  }

  lemma EntryStored(before: Disk, disk: Disk, i: nat, e: DiskEntry, after: map<Name, File>)
    requires i < MAX_ENTRIES && |before| > DATA_START && |disk| == |before|
    requires disk == before[1 + i / 8 := disk[1 + i / 8]]
    requires Table(disk) == Table(before)[i := e] && Shows(before, Table(before)[i := e], after)
    ensures Shows(disk, Table(disk), after)
  {
    ShowsTable(before, 1 + i / 8, disk[1 + i / 8], Table(before)[i := e], after);
  }

  lemma SuperApart(disk: Disk, block: Block)
    requires |disk| >= DATA_START
    ensures Table(disk[0 := block]) == Table(disk)
  {
  }

  // ---------------------------------------------------------------------
  // Data blocks

  /** Block `k` of the data, zero padded. */
  function Chunk(data: seq<byte>, k: nat): Block {
    seq(BLOCK, j requires 0 <= j < BLOCK => if k * BLOCK + j < |data| then data[k * BLOCK + j] else 0)
  }

  method FillBlock(data: seq<byte>, k: nat) returns (block: Block)
    requires k * BLOCK < |data|
    ensures block == Chunk(data, k)
  {
    block := seq(BLOCK, _ => 0);
    var written := k * BLOCK;
    var count := if |data| - written < BLOCK then |data| - written else BLOCK;
    for i := 0 to count
      invariant forall j :: 0 <= j < BLOCK ==> block[j] == if j < i then data[written + j] else 0
    {
      block := block[i := data[written + i]];
    }
  }

  ghost predicate OnlyWithin(before: Disk, after: Disk, x: Extent) {
    |after| == |before| && forall b :: 0 <= b < |before| && !(x.start <= b < x.start + x.count) ==>
        after[b] == before[b]
  }

  lemma ChunksAreData(disk: Disk, x: Extent, data: seq<byte>)
    requires x.size == |data| && InArea(x, |disk|) && forall k :: 0 <= k < x.count ==>
              disk[x.start + k] == Chunk(data, k)
    ensures Data(disk, x) == data
  {
    forall k | 0 <= k < |data| ensures Data(disk, x)[k] == data[k] {
      assert disk[x.start + k / BLOCK] == Chunk(data, k / BLOCK);
    }
  }

  ghost predicate ApartFromOthers(t: seq<DiskEntry>, i: nat, x: Extent) {
    forall j :: 0 <= j < |t| && j != i && t[j].used ==> Apart(x, t[j].extent)
  }

  lemma DataElsewhere(before: Disk, after: Disk, x: Extent, y: Extent)
    requires OnlyWithin(before, after, x) && InArea(y, |before|) && Apart(x, y)
    ensures Data(after, y) == Data(before, y)
  {
  }

  lemma TableElsewhere(before: Disk, after: Disk, x: Extent)
    requires OnlyWithin(before, after, x) && InArea(x, |before|) && |before| > DATA_START
    ensures Table(after) == Table(before)
  {
    forall i | 0 <= i < MAX_ENTRIES ensures EntryOf(after, i) == EntryOf(before, i) {
      assert 1 + i / 8 < DATA_START;
    }
  }

  /** Writing into an extent of entry `i`'s own leaves the table and all other files. */
  lemma DataKept(before: Disk, after: Disk, t: seq<DiskEntry>, files: map<Name, File>, i: nat, x: Extent)
    requires |before| > DATA_START && t == Table(before) && Sound(t, |before|) && Shows(before, t, files) && i < |t|
    requires t[i].used
    requires OnlyWithin(before, after, x) && InArea(x, |before|) && ApartFromOthers(t, i, x)
    ensures Table(after) == t && InArea(t[i].extent, |after|)
    ensures Shows(after, t, files[t[i].name := File(t[i].kind, Data(after, t[i].extent))])
    ensures ElsewhereSame(before, after, t, i)
  {
    TableElsewhere(before, after, x);
    ShowsAt(before, t, files, i);
    forall j | 0 <= j < |t| && j != i && t[j].used && InArea(t[j].extent, |before|)
      ensures Data(after, t[j].extent) == Data(before, t[j].extent)
    {
      DataElsewhere(before, after, x, t[j].extent);
    }
    ShowsRewritten(before, after, t, files, i, t[i].extent);
    assert t[i := t[i].(extent := t[i].extent)] == t;
  }

  ghost predicate ElsewhereSame(before: Disk, after: Disk, t: seq<DiskEntry>, i: nat) {
    |after| == |before| &&
    forall j :: 0 <= j < |t| && j != i && t[j].used && InArea(t[j].extent, |before|) ==>
        Data(after, t[j].extent) == Data(before, t[j].extent)
  }

  lemma RewrittenSound(disk: Disk, t: seq<DiskEntry>, files: map<Name, File>, i: nat, x: Extent)
    requires |disk| > DATA_START && Sound(t, |disk|) && Shows(disk, t, files) && i < |t| && t[i].used
    requires InArea(x, |disk|) && x.size < WORD && x.start < WORD && x.count < WORD && ApartFromOthers(t, i, x)
    ensures Sound(t[i := t[i].(extent := x)], |disk|) && Storable(t[i].(extent := x)) && GoodName(t[i].name)
    ensures Shows(disk, t[i := t[i].(extent := x)], files[t[i].name := File(t[i].kind, Data(disk, x))])
  {
    SoundAt(t, |disk|, i);
    forall j | 0 <= j < |t| && j != i ensures PairSound(t[i].(extent := x), t[j]) {
      PairAt(t, |disk|, i, j);
    }
    SoundReplaced(t, |disk|, i, t[i].(extent := x));
    ShowsRewritten(disk, disk, t, files, i, x);
  }

  /** The state between the data blocks and the entry. */
  lemma AfterBlocks(before: Disk, after: Disk, t: seq<DiskEntry>, e: DiskEntry, files: map<Name, File>, i: nat,
                    x: Extent)
    requires |before| > DATA_START && t == Table(before) && Sound(t, |before|) && Shows(before, t, files)
    requires i < |t| && e == t[i] && e.used
    requires OnlyWithin(before, after, x) && InArea(x, |before|) && ApartFromOthers(t, i, x)
    requires x.size < WORD && x.start < WORD && x.count < WORD
    ensures Table(after) == t && InArea(e.extent, |after|) && InArea(x, |after|)
    ensures var middle := files[e.name := File(e.kind, Data(after, e.extent))];
            && Shows(after, t, middle) && Sound(t[i := e.(extent := x)], |after|) && Storable(e.(extent := x)) &&
                 0 !in e.name
            && Shows(after, t[i := e.(extent := x)], middle[e.name := File(e.kind, Data(after, x))])
  {
    DataKept(before, after, t, files, i, x);
    RewrittenSound(after, t, files[e.name := File(e.kind, Data(after, e.extent))], i, x);
  }

  lemma DroppedSound(disk: Disk, files: map<Name, File>, i: nat, e: DiskEntry)
    requires |disk| >= DATA_START && i < MAX_ENTRIES && Table(disk)[i].used && !e.used && Storable(e)
    requires Sound(Table(disk), |disk|) && Shows(disk, Table(disk), files)
    ensures Sound(Table(disk)[i := e], |disk|) && Shows(disk, Table(disk)[i := e], files - {Table(disk)[i].name})
  {
    ShowsDropped(disk, Table(disk), files, i, e);
    SoundReplaced(Table(disk), |disk|, i, e);
  }

  lemma AddedSound(disk: Disk, files: map<Name, File>, i: nat, e: DiskEntry)
    requires |disk| > DATA_START && Sound(Table(disk), |disk|) && Shows(disk, Table(disk), files) && i < MAX_ENTRIES
    requires !Table(disk)[i].used && e.used && e.name !in files && GoodName(e.name) && Storable(e)
    requires e.extent == Extent(0, 0, 0)
    ensures Sound(Table(disk)[i := e], |disk|) && Shows(disk, Table(disk)[i := e], files[e.name := File(e.kind, [])])
  {
    var t := Table(disk);
    forall j | 0 <= j < |t| && j != i ensures PairSound(e, t[j]) {
      if t[j].used {
        ShowsAt(disk, t, files, j);
      }
    }
    SoundReplaced(t, |disk|, i, e);
    ShowsAdded(disk, t, files, i, e);
    assert Data(disk, e.extent) == [];
  }

  /** An entry without a name, or with that of another, makes the table unsound. */
  lemma AddedUnsound(disk: Disk, files: map<Name, File>, i: nat, e: DiskEntry)
    requires |disk| > DATA_START && Shows(disk, Table(disk), files) && i < MAX_ENTRIES && !Table(disk)[i].used
    requires e.used && (e.name == [] || e.name in files)
    ensures !Sound(Table(disk)[i := e], |disk|)
  {
    assert Opened(TableSeal, 0);
    var t := Table(disk)[i := e];
    assert t[i] == e;
    if e.name != [] {
      var k := ShowsName(disk, Table(disk), files, e.name);
      assert t[k] == Table(disk)[k] && !PairSound(t[k], t[i]);
    } else {
      assert !EntrySound(t[i], |disk|);
    }
  }

  /** The copy loop of a read, block by block. */
  method ReadExtent(disk: Disk, x: Extent) returns (out: seq<byte>)
    requires InArea(x, |disk|)
    ensures out == Data(disk, x)
  {
    out := [];
    var k := 0;
    while k < x.count && |out| < x.size
      invariant k <= x.count && |out| == (if x.size < k * BLOCK then x.size else k * BLOCK)
      invariant forall j :: 0 <= j < |out| ==> out[j] == disk[x.start + j / BLOCK][j % BLOCK]
    {
      var count := if x.size - |out| < BLOCK then x.size - |out| else BLOCK;
      out := out + disk[x.start + k][..count];
      k := k + 1;
    }
  }

  // ---------------------------------------------------------------------
  // Format

  lemma ZeroTable(disk: Disk, n: nat)
    requires |disk| == n && n > DATA_START && forall b :: 1 <= b < DATA_START ==> disk[b] == ZeroBlock()
    ensures Sound(Table(disk), n) && Shows(disk, Table(disk), map[])
  {
    forall i | 0 <= i < MAX_ENTRIES ensures !Table(disk)[i].used && EntrySound(Table(disk)[i], n) {
      assert disk[1 + i / 8] == ZeroBlock();
    }
  }

  /** The superblock: magic, version, block size, block count, file count and start of the data. */
  function SuperBlock(blocks: nat, files: nat): (b: Block)
    requires blocks < WORD && files < WORD
    ensures R64(b, 8) == blocks && R32(b, 16) == files
  {
    var head := W16(W16(W32(ZeroBlock(), 0, MAGIC), 4, 1), 6, BLOCK);
    W32(W32(W64(head, 8, blocks), 16, files), 20, DATA_START)
  }

  function ZeroBlock(): Block { seq(BLOCK, _ => 0) }
}
