/**
 The ext4 provider's storage operations (src/fs/ext4_fs.cpp): extent list edits,
 bitmap allocation, and reading, writing and resizing files, over a device whose
 every transfer may fail.

 Bitmaps, counters and inode records are held decoded; the device holds the data
 blocks. Any failed transfer sets `failed`, after which nothing is promised of
 the volume except what each contract says of that case.
 */
module Ext4Volumes {
  import opened Outcomes
  import opened Arithmetic
  import opened Seals
  import opened Ext4Extents
  import opened Ext4Pools
  import opened Ext4Layout
  import opened Ext4Contents
  import opened Ext4Preflight

  const MAX_FILE: nat := 0xffff_ffff

  class Ext4Volume {
    const geo: Geometry
    const layout: seq<Group>
    const groupBlocks: nat
    const writable: bool
    const maintained: bool

    var disk: Disk
    var blocks: Pool
    var numbers: Pool
    var inodes: map<nat, Inode>
    var failed: bool
    var writeSequence: nat

    /** Set when an operation reports inconsistent metadata rather than a failed transfer. */
    ghost var corrupt: bool

    /** A mount of a sound volume. */
    constructor (geo: Geometry, layout: seq<Group>, groupBlocks: nat, writable: bool, maintained: bool, volume: Volume,
                 numbers: Pool)
      requires geo.Valid() && Describes(layout, groupBlocks, geo) && Shaped(geo, volume.disk)
      requires SoundVolume(geo, volume) && numbers.Consistent() && Numbered(numbers, volume.inodes.Keys)
      ensures Valid() && !failed && State() == volume && this.numbers == numbers
      ensures this.geo == geo && this.writable == writable && this.maintained == maintained
    {
      this.geo, this.layout, this.groupBlocks := geo, layout, groupBlocks;
      this.writable, this.maintained := writable, maintained;
      disk, blocks, inodes, this.numbers := volume.disk, volume.pool, volume.inodes, numbers;
      failed, writeSequence, corrupt := false, 0, false;
    }

    ghost predicate Mounted() {
      geo.Valid() && Describes(layout, groupBlocks, geo)
    }

    ghost function State(): Volume
      reads this
    {
      Volume(disk, blocks, inodes)
    }

    /** Unless a transfer failed, the volume is sound. */
    ghost predicate Valid()
      reads this
    {
      Stored() && (!failed ==> Numbered(numbers, inodes.Keys))
    }

    /** The same, but for the numbers in use. */
    ghost predicate Stored()
      reads this
    {
      && Mounted()
      && Shaped(geo, disk)
      && !corrupt
      && (!failed ==> SoundVolume(geo, State()) && numbers.Consistent())
    }

    /** What allocation needs of the bitmaps in the middle of an operation. */
    ghost predicate PoolsReady()
      reads this
    {
      && Mounted()
      && PoolFits(geo, blocks)
      && numbers.Consistent()
      && forall b :: blocks.Free(b) ==> geo.DataBlock(b)
    }

    ghost function PoolOf(isInode: bool): Pool
      reads this
    {
      if isInode then numbers else blocks
    }

    // -------------------------------------------------------------------
    // Transfers

    method ReadMetadata() returns (ok: bool)
      modifies this`failed
      ensures ok ==> failed == old(failed)
      ensures !ok ==> failed
    {
      ok := *;
      if !ok {
        failed := true;
      }
    }

    /**
     Writes a bitmap, a counter or an inode record. Each lies in one sector, which a failed write
     leaves as it was or as it was to be (BlockDevices), and the others of its block are
     rewritten as they were; so whatever fails, no other record changes.
     */
    method WriteMetadata() returns (s: Status)
      modifies this`failed, this`writeSequence
      ensures s == Success ==> !old(failed) && !failed && writable && writeSequence == old(writeSequence) + 1
      ensures s == Denied ==> !writable && failed == old(failed)
      ensures s == IoError ==> failed
      ensures s != Success ==> writeSequence == old(writeSequence)
      ensures s in {Success, Denied, IoError}
    {
      if failed {
        return IoError;
      }
      if !writable {
        return Denied;
      }
      var ok: bool := *;
      if !ok {
        failed := true;
        return IoError;
      }
      writeSequence := writeSequence + 1;
      return Success;
    }

    method ReadBlock(b: nat) returns (s: Status, data: seq<byte>)
      requires Mounted() && Shaped(geo, disk)
      modifies this`failed, this`corrupt
      ensures s == Success ==> b < geo.blocks && data == disk[b] && failed == old(failed)
      ensures s != Success ==> s == IoError && failed
      ensures b < geo.blocks ==> corrupt == old(corrupt)
    {
      if b >= geo.blocks {
        failed, corrupt := true, true;
        return IoError, [];
      }
      var ok: bool := *;
      if !ok {
        failed := true;
        return IoError, [];
      }
      return Success, disk[b];
    }

    /** A failed write may leave anything in the block it was for, and touches no other. */
    method WriteBlock(b: nat, data: seq<byte>) returns (s: Status)
      requires Mounted() && Shaped(geo, disk) && |data| == geo.blockSize
      modifies this`disk, this`failed, this`corrupt, this`writeSequence
      ensures Shaped(geo, disk)
      ensures s == Success ==> !old(failed) && !failed && writable && b < geo.blocks && disk == old(disk)[b := data]
      ensures s == Success ==> writeSequence == old(writeSequence) + 1
      ensures s != Success ==>
              (failed || (s == Denied && !writable && disk == old(disk))) && writeSequence == old(writeSequence)
      ensures forall c :: 0 <= c < geo.blocks && c != b ==> disk[c] == old(disk)[c]
      ensures s in {Success, Denied, IoError}
      ensures b < geo.blocks ==> corrupt == old(corrupt)
    {
      if failed {
        return IoError;
      }
      if !writable {
        return Denied;
      }
      if b >= geo.blocks {
        failed, corrupt := true, true;
        return IoError;
      }
      var ok: bool := *;
      if !ok {
        failed := true;
        assert |seq(geo.blockSize, _ => 0)| == geo.blockSize;
        var torn: seq<byte> :| |torn| == geo.blockSize;
        disk := disk[b := torn];
        return IoError;
      }
      disk := disk[b := data];
      writeSequence := writeSequence + 1;
      return Success;
    }

    // -------------------------------------------------------------------
    // Extent list

    /** `map` on inline extents: absent corruption, the block of `logical` or 0. */
    method Map(node: Inode, logical: nat) returns (r: Result<nat>)
      requires Mounted()
      modifies this`failed, this`corrupt
      ensures r.Err? ==> if node.plain then failed else r.status == Unsupported && failed == old(failed)
      ensures r.Ok? ==> failed == old(failed) && node.plain && r.value == Lookup(node.extents, logical)
      ensures node.plain && Structured(geo, node.extents) ==> r.Ok?
      ensures Editable(geo, node) ==> r.Ok?
      ensures r.Ok? || !node.plain ==> corrupt == old(corrupt)
    {
      assert Editable(geo, node) ==> node.plain && Structured(geo, node.extents) by { assert Opened(RecordSeal, 0); }
      if !node.plain {
        return Err(Unsupported);
      }
      var previousEnd := 0;
      var i := 0;
      while i < |node.extents|
        invariant 0 <= i <= |node.extents|
        invariant failed == old(failed) && corrupt == old(corrupt)
        invariant Lookup(node.extents, logical) == Lookup(node.extents[i..], logical)
        invariant i == 0 ==> previousEnd == 0
        invariant i > 0 ==> previousEnd == node.extents[i - 1].End()
      {
        var e := node.extents[i];
        var clear := DataRange(layout, groupBlocks, geo, e.physical, e.Length());
        if e.start < previousEnd || !clear {
          failed, corrupt := true, true;
          return Err(IoError);
        }
        previousEnd := e.End();
        assert node.extents[i..][1..] == node.extents[i + 1..];
        if e.Covers(logical) {
          return Ok(if e.count > MAX_PLAIN then 0 else e.physical + (logical - e.start));
        }
        i := i + 1;
      }
      return Ok(0);
    }

    /** `writable` accepts exactly the records that Writable describes, on an unfailed writable mount. */
    method CheckWritable(node: Inode) returns (s: Status)
      requires Mounted()
      modifies this`failed, this`corrupt
      ensures s == Success <==> !old(failed) && writable && Writable(geo, node)
      ensures s == Success ==> failed == old(failed)
      ensures s in {Success, Denied, Unsupported} || (s == IoError && failed)
      ensures s in {Denied, Unsupported} ==> failed == old(failed)
      ensures s == Denied ==> !writable
      ensures !failed && !writable ==> s == Denied
      ensures Sound(geo, node) || s != IoError || old(failed) ==> corrupt == old(corrupt)
    {
      if failed {
        return IoError;
      }
      if !writable {
        return Denied;
      }
      if !node.plain || |node.extents| > SLOTS {
        return Unsupported;
      }
      for i := 0 to |node.extents|
        invariant failed == old(failed)
        invariant forall k :: 0 <= k < i ==> node.extents[k].count <= MAX_PLAIN
      {
        if node.extents[i].count > MAX_PLAIN {
          return Unsupported;
        }
      }
      s := CheckExtents(layout, groupBlocks, geo, node);
      if s == IoError {
        failed, corrupt := true, true;
      }
    }

    /** `append`: the writable check, then the record that Appended describes. */
    method Append(node: Inode, logical: nat, physical: nat) returns (r: Result<Inode>)
      requires Mounted()
      modifies this`failed, this`corrupt
      ensures !old(failed) && writable && Editable(geo, node) ==> r == Appended(geo, node, logical, physical)
      ensures !(!old(failed) && writable && Editable(geo, node)) ==> r.Err?
      ensures failed == (old(failed) || r == Err(IoError))
      ensures r.Err? ==> r.status in {IoError, Denied, Unsupported, Overflow}
      ensures r != Err(IoError) || old(failed) ==> corrupt == old(corrupt)
    {
      assert Opened(RecordSeal, 0);
      var status := CheckWritable(node);
      if status != Success {
        return Err(status);
      }
      r := Place(geo, node, logical, physical);
      if r == Err(IoError) {
        failed, corrupt := true, true;
      }
    }

    // -------------------------------------------------------------------
    // Bitmaps and counters

    method SetPool(isInode: bool, p: Pool)
      modifies this`blocks, this`numbers
      ensures PoolOf(isInode) == p && PoolOf(!isInode) == old(PoolOf(!isInode))
    {
      if isInode {
        numbers := p;
      } else {
        blocks := p;
      }
    }

    /** `counts`: moves one group counter and the superblock counter by `delta`, within their limits. */
    method Counts(isInode: bool, group: nat, delta: int) returns (s: Status)
      requires group < |PoolOf(isInode).groupFree| && 0 < PoolOf(isInode).per && (delta == 1 || delta == -1)
      modifies this`blocks, this`numbers, this`failed, this`corrupt, this`writeSequence
      ensures PoolOf(!isInode) == old(PoolOf(!isInode))
      ensures s == Success ==> !failed
      ensures s == Success ==>
                && 0 <= old(PoolOf(isInode)).groupFree[group] + delta
                && 0 <= old(PoolOf(isInode)).superFree + delta
                && PoolOf(isInode) == Counted(old(PoolOf(isInode)), group, delta)
      ensures s != Success && writable ==> failed
      ensures writeSequence >= old(writeSequence)
      ensures var p := old(PoolOf(isInode));
              && 0 <= p.groupFree[group] + delta <= (if isInode then p.per else p.High(group) - p.Low(group))
              && 0 <= p.superFree + delta <= MAX_FILE
              ==> corrupt == old(corrupt)
    {
      var p := if isInode then numbers else blocks;
      var ok := ReadMetadata();
      if !ok {
        return IoError;
      }
      var value := p.groupFree[group] + delta;
      var limit := if isInode then p.per else p.High(group) - p.Low(group);
      if value < 0 || value > limit {
        failed, corrupt := true, true;
        return IoError;
      }
      ok := ReadMetadata();
      if !ok {
        return IoError;
      }
      if (delta < 0 && p.superFree == 0) || (delta > 0 && p.superFree == MAX_FILE) {
        failed, corrupt := true, true;
        return IoError;
      }
      s := WriteMetadata();
      if s != Success {
        return;
      }
      SetPool(isInode, p.(groupFree := p.groupFree[group := value]));
      s := WriteMetadata();
      if s != Success {
        return;
      }
      SetPool(isInode, Counted(p, group, delta));
    }

    /**
     The group loop shared by `available_number` and `allocate`: groups whose
     counter is zero are skipped unread, the others are scanned bit by bit.
     */
    method Search(isInode: bool, from: nat) returns (ok: bool, index: nat)
      requires PoolsReady() && !failed && from <= |PoolOf(isInode).used|
      modifies this`failed
      ensures ok ==> !failed && index == FirstFree(PoolOf(isInode).used, from)
      ensures ok && index < |PoolOf(isInode).used| ==> !PoolOf(isInode).used[index]
      ensures !ok ==> failed
    {
      var p := if isInode then numbers else blocks;
      PoolTiled(p);
      var searched := 0;
      for group := 0 to |p.groupFree|
        invariant !failed && searched <= |p.used|
        invariant searched == if group == |p.groupFree| then |p.used| else p.Low(group)
        invariant forall k :: from <= k < searched ==> p.used[k]
      {
        ok, index := SearchGroup(p, group, from);
        if !ok {
          return;
        }
        GroupBounds(p, group);
        if index < p.High(group) {
          FirstFreeIs(p.used, from, index);
          return;
        }
        searched := index;
      }
      FirstFreeIs(p.used, from, |p.used|);
      return true, |p.used|;
    }

    method SearchGroup(p: Pool, group: nat, from: nat) returns (ok: bool, index: nat)
      requires p.Consistent() && group < |p.groupFree|
      modifies this`failed
      ensures ok ==> failed == old(failed)
      ensures !ok ==> failed
      ensures ok ==> Scanned(p, group, from, index)
    {
      assert Opened(PoolSeal, 0);
      index := p.High(group);
      ok := ReadMetadata();
      if !ok {
        return;
      }
      if p.groupFree[group] == 0 {
        GroupBounds(p, group);
        FreeCountZero(p.used, p.Low(group), p.High(group));
      } else {
        ok := ReadMetadata();
        if !ok {
          return;
        }
        index := ScanGroup(p, group, from);
      }
    }

    /** `available_number`: the lowest usable clear bit above `after`, without touching anything. */
    method AvailableNumber(isInode: bool, after: nat) returns (r: Result<nat>)
      requires PoolsReady() && !failed
      modifies this`failed
      ensures r.Ok? ==> !failed
      ensures !failed ==> r == NextFree(PoolOf(isInode), after)
      ensures r.Err? ==> r.status in {NoMemory, IoError}
    {
      var p := if isInode then numbers else blocks;
      var ok, index := Search(isInode, SearchFrom(p, after));
      if !ok {
        return Err(IoError);
      }
      if index == |p.used| {
        return Err(NoMemory);
      }
      if !isInode {
        var clear := DataRange(layout, groupBlocks, geo, p.base + index, 1);
        assert clear by { assert blocks.Free(p.base + index); }
      }
      return Ok(p.base + index);
    }

    /** `allocate`: takes the lowest usable clear bit, and fails for lack of one only if there is none. */
    method Allocate(isInode: bool) returns (r: Result<nat>)
      requires PoolsReady() && !failed && writable
      modifies this`blocks, this`numbers, this`failed, this`corrupt, this`writeSequence
      ensures PoolOf(!isInode) == old(PoolOf(!isInode))
      ensures !failed ==> r == LowestFree(old(PoolOf(isInode)))
      ensures r.Ok? ==>
                && !failed
                && r.value >= PoolOf(isInode).base
                && Turned(old(PoolOf(isInode)), PoolOf(isInode), r.value - PoolOf(isInode).base, true)
      ensures r.Err? && !failed ==> PoolOf(isInode) == old(PoolOf(isInode)) && writeSequence == old(writeSequence)
      ensures r.Err? ==> r.status in {NoMemory, IoError}
      ensures corrupt == old(corrupt)
    {
      var p := if isInode then numbers else blocks;
      var ok, index := Search(isInode, p.Start());
      if !ok {
        return Err(IoError);
      }
      if index == |p.used| {
        return Err(NoMemory);
      }
      if !isInode {
        var clear := DataRange(layout, groupBlocks, geo, p.base + index, 1);
        assert clear by { assert blocks.Free(p.base + index); }
      }
      var status := Turn(isInode, index, true);
      if status != Success {
        return Err(IoError);
      }
      return Ok(p.base + index);
    }

    /** The write half of `allocate` and `free_number`: the bitmap first, then the counters. */
    method Turn(isInode: bool, index: nat, v: bool) returns (s: Status)
      requires PoolOf(isInode).Consistent() && !failed && writable
      requires index < |PoolOf(isInode).used| && PoolOf(isInode).used[index] != v
      modifies this`blocks, this`numbers, this`failed, this`corrupt, this`writeSequence
      ensures PoolOf(!isInode) == old(PoolOf(!isInode))
      ensures s == Success ==> !failed && Turned(old(PoolOf(isInode)), PoolOf(isInode), index, v)
      ensures s != Success ==> failed && s == IoError
      ensures corrupt == old(corrupt)
    {
      var p := if isInode then numbers else blocks;
      s := WriteMetadata();
      if s != Success {
        return;
      }
      FlippedLimits(p, index, v);
      SetPool(isInode, p.(used := p.used[index := v]));
      s := Counts(isInode, Quotient(index, p.per), if v then -1 else 1);
      if s != Success {
        return IoError;
      }
      assert PoolOf(isInode) == Flipped(p, index, v);
      FlippedConsistent(p, index, v);
    }

    /** A number that was handed out: in range, its bit set, and a data block if it is a block. */
    ghost predicate InUse(number: int, isInode: bool)
      reads this
    {
      var p := PoolOf(isInode);
      && p.first <= number < p.base + |p.used|
      && !p.Free(number)
      && (!isInode ==> geo.DataBlock(number))
    }

    /** `free_number`: clears the bit of a number that is in use, and reports corruption otherwise. */
    method FreeNumber(number: nat, isInode: bool) returns (s: Status)
      requires PoolsReady() && !failed && writable
      modifies this`blocks, this`numbers, this`failed, this`corrupt, this`writeSequence
      ensures PoolOf(!isInode) == old(PoolOf(!isInode))
      ensures s == Success ==>
                && !failed
                && number >= PoolOf(isInode).base
                && Turned(old(PoolOf(isInode)), PoolOf(isInode), number - PoolOf(isInode).base, false)
                && (!isInode ==> geo.DataBlock(number))
      ensures s != Success ==> failed && s == IoError
      ensures old(InUse(number, isInode)) ==> corrupt == old(corrupt)
    {
      var p := if isInode then numbers else blocks;
      if number < p.first || number >= p.base + |p.used| {
        failed, corrupt := true, true;
        return IoError;
      }
      if !isInode {
        var clear := DataRange(layout, groupBlocks, geo, number, 1);
        if !clear {
          failed, corrupt := true, true;
          return IoError;
        }
      }
      var ok := ReadMetadata();
      if !ok {
        return IoError;
      }
      if !p.used[number - p.base] {
        failed, corrupt := true, true;
        return IoError;
      }
      s := Turn(isInode, number - p.base, false);
    }

    // -------------------------------------------------------------------
    // Contents

    /** `read_active`: the requested part of the contents, as far as the file and the buffer reach. */
    method ReadActive(ino: nat, offset: nat, count: nat, capacity: nat) returns (r: Result<seq<byte>>)
      requires Valid() && !failed
      modifies this`failed, this`corrupt
      ensures r.Ok? ==> !failed
      ensures r.Ok? ==> ino in inodes && inodes[ino].kind == Regular
      ensures !failed && ino !in inodes ==> r == Err(NotFound)
      ensures !failed && ino in inodes && inodes[ino].kind != Regular ==> r == Err(InvalidArgument)
      ensures r.Ok? ==>
                var c := Contents(geo, disk, inodes[ino]);
                r.value == if offset >= |c| then [] else c[offset..offset + Min(Min(count, |c| - offset), capacity)]
      ensures ino in inodes && inodes[ino].kind == Regular && inodes[ino].plain ==> r.Ok? || failed
      ensures Valid()
    {
      var ok := ReadMetadata();
      if !ok {
        return Err(IoError);
      }
      if ino !in inodes {
        return Err(NotFound);
      }
      var node := inodes[ino];
      if node.kind != Regular {
        return Err(InvalidArgument);
      }
      var wanted := if offset >= node.size then 0 else Min(Min(count, node.size - offset), capacity);
      ghost var c := Contents(geo, disk, node);
      var out := [];
      while |out| < wanted
        invariant Valid() && !failed
        invariant |out| <= wanted
        invariant forall k :: 0 <= k < |out| ==> out[k] == StreamByte(geo, disk, node.extents, offset + k)
      {
        var chunk := ReadChunk(ino, offset + |out|, wanted - |out|);
        if chunk.Err? {
          return chunk;
        }
        out := out + chunk.value;
      }
      assert offset < |c| ==> out == c[offset..offset + wanted];
      return Ok(out);
    }

    /** One turn of the read loop: the bytes up to the end of one block. */
    method ReadChunk(ino: nat, position: nat, remaining: nat) returns (r: Result<seq<byte>>)
      requires Valid() && !failed && ino in inodes && 0 < remaining
      modifies this`failed, this`corrupt
      ensures r.Ok? ==> !failed
      ensures r.Err? ==> failed || !inodes[ino].plain
      ensures r.Ok? ==> 0 < |r.value| <= remaining
      ensures r.Ok? ==> forall k :: 0 <= k < |r.value| ==>
              r.value[k] == StreamByte(geo, disk, inodes[ino].extents, position + k)
      ensures corrupt == old(corrupt)
    {
      var node := inodes[ino];
      SoundFile(geo, State(), ino);
      var logical := Quotient(position, geo.blockSize);
      var mapped := Map(node, logical);
      if mapped.Err? {
        return Err(mapped.status);
      }
      var buffer: seq<byte> := seq(geo.blockSize, _ => 0);
      if mapped.value != 0 {
        MappedBlock(geo, State(), ino, logical);
        var status;
        status, buffer := ReadBlock(mapped.value);
        if status != Success {
          return Err(status);
        }
      }
      assert forall w :: 0 <= w < geo.blockSize ==> buffer[w] == Cell(disk, node.extents, logical, w);
      var within := Remainder(position, geo.blockSize);
      var length := ChunkLength(geo.blockSize, position, remaining);
      var out := buffer[within..within + length];
      ChunkShown(geo, disk, node.extents, position, buffer, out);
      return Ok(out);
    }

    /** The state between two turns of the write loop. */
    ghost predicate Writing(ino: nat)
      reads this
    {
      && Valid() && !failed && writable
      && ino in inodes && Editable(geo, inodes[ino])
    }

    /** One turn of the write loop when the block is mapped: read, overlay, write back, save the record. */
    method RewriteChunk(ino: nat, physical: nat, ghost logical: nat, within: nat, chunk: seq<byte>, end: nat)
      returns (s: Status)
      requires Writing(ino) && within + |chunk| <= geo.blockSize
      requires physical == Lookup(inodes[ino].extents, logical) != 0
      modifies this
      ensures Valid() && numbers == old(numbers) && OthersKept(old(State()), State(), ino)
      ensures s == Success ==> Writing(ino) && Wrote(geo.blockSize, old(State()), State(), ino, logical, within, chunk)
      ensures s == Success ==> blocks == old(blocks) && inodes[ino] == Raised(old(inodes)[ino], end)
      ensures s != Success ==> failed
    {
      ghost var v := State();
      OthersSame(v, v, ino);
      s := Overwrite(v, ino, inodes[ino], physical, logical, within, chunk);
      if s != Success {
        return;
      }
      ghost var w := State();
      var node := Raised(inodes[ino], end);
      s := WriteMetadata();
      if s != Success {
        return;
      }
      SameKeys(inodes, ino, node);
      inodes := inodes[ino := node];
      SaveDone(geo, v, w, State(), ino, end);
    }

    /** Allocates the block for a hole and maps it; a full extent list gives the block back. */
    method TakeBlock(node: Inode, logical: nat) returns (s: Status, physical: nat, grown: Inode)
      requires PoolsReady() && !failed && writable && Editable(geo, node) && Lookup(node.extents, logical) == 0
      modifies this`blocks, this`numbers, this`failed, this`corrupt, this`writeSequence
      ensures numbers == old(numbers)
      ensures s == Success ==>
                && !failed
                && Fills(geo, old(blocks).used, node, logical, physical, grown)
                && old(blocks).Free(physical)
                && Turned(old(blocks), blocks, physical - geo.firstData, true)
      ensures s != Success && !failed ==> blocks == old(blocks) && NoRoom(geo, old(blocks).used, node, logical, s)
      ensures corrupt == old(corrupt)
    {
      physical, grown := 0, node;
      var r := Allocate(false);
      if r.Err? {
        return r.status, physical, grown;
      }
      physical := r.value;
      OnlyOverflow(geo, node, logical, physical);
      var mapped := Append(node, logical, physical);
      if mapped.Ok? {
        return Success, physical, mapped.value;
      }
      s := mapped.status;
      GiveBack(physical, old(blocks));
    }

    method GiveBack(physical: nat, ghost before: Pool)
      requires PoolsReady() && !failed && writable && before.Consistent()
      requires before.base == geo.firstData <= physical && Turned(before, blocks, physical - geo.firstData, true)
      requires geo.DataBlock(physical)
      modifies this`blocks, this`numbers, this`failed, this`corrupt, this`writeSequence
      ensures numbers == old(numbers)
      ensures !failed ==> blocks == before
      ensures corrupt == old(corrupt)
    {
      var freed := FreeNumber(physical, false);
      if freed == Success {
        assert before.used[physical - geo.firstData := true][physical - geo.firstData := false] == before.used;
        ConsistentUnique(blocks, before);
      }
    }

    /**
     One turn of the write loop on a hole: take the lowest free block, map it,
     write it from zeros, save the record. Without room the volume is as before.
     */
    method ExtendChunk(ino: nat, logical: nat, within: nat, chunk: seq<byte>, end: nat)
      returns (s: Status, ghost physical: nat, ghost grown: Inode)
      requires Writing(ino) && within + |chunk| <= geo.blockSize && logical < geo.Blocks(end)
      requires Lookup(inodes[ino].extents, logical) == 0
      modifies this
      ensures Valid() && numbers == old(numbers) && OthersKept(old(State()), State(), ino)
      ensures s == Success ==> Writing(ino) && Wrote(geo.blockSize, old(State()), State(), ino, logical, within, chunk)
      ensures s == Success ==>
                && Fills(geo, old(blocks).used, old(inodes)[ino], logical, physical, grown)
                && geo.firstData <= physical < geo.firstData + |old(blocks).used|
                && blocks.used == old(blocks).used[physical - geo.firstData := true]
                && inodes[ino] == Raised(grown, end)
      ensures s != Success && !failed ==>
                && State() == old(State())
                && NoRoom(geo, old(blocks).used, old(inodes)[ino], logical, s)
    {
      ghost var v := State();
      PoolsFromSound(geo, v);
      var node := inodes[ino];
      var taken, after;
      s, taken, after := TakeBlock(node, logical);
      physical, grown := taken, after;
      if s != Success {
        return;
      }
      var block := Spliced(seq(geo.blockSize, _ => 0), within, chunk);
      s := WriteBlock(taken, block);
      OthersKeptBy(geo, v, State(), ino, taken);
      if s != Success {
        return;
      }
      s := WriteMetadata();
      if s != Success {
        return;
      }
      SameKeys(inodes, ino, Raised(after, end));
      inodes := inodes[ino := Raised(after, end)];
      ExtendDone(geo, v, State(), ino, logical, taken, after, within, chunk, end);
    }

    /** `zero_tail`: clears what the last, partial block holds past the end of file. */
    method ZeroTail(ino: nat) returns (s: Status)
      requires Writing(ino)
      modifies this`disk, this`failed, this`corrupt, this`writeSequence
      ensures Valid() && OthersKept(old(State()), State(), ino)
      ensures s == Success ==>
              Writing(ino) && TailClear(geo, disk, inodes[ino]) && SameBelow(geo, old(State()), State(), ino)
      ensures s != Success ==> failed
    {
      s := ClearTail(inodes[ino], State(), ino);
    }

    /** The body of `zero_tail` on the record `node`, which `u` holds for `ino` although it may not be saved yet. */
    method ClearTail(node: Inode, ghost u: Volume, ghost ino: nat) returns (s: Status)
      requires Mounted() && !failed && writable && Holds(geo, u, ino, node) && u.disk == disk
      modifies this`disk, this`failed, this`corrupt, this`writeSequence
      ensures Shaped(geo, disk) && OthersKept(u, u.(disk := disk), ino)
      ensures s == Success ==> !failed && Holds(geo, u.(disk := disk), ino, node)
      ensures s == Success ==> TailClear(geo, disk, node) && SameBelow(geo, u, u.(disk := disk), ino)
      ensures s != Success ==> failed
      ensures corrupt == old(corrupt)
    {
      var within := Remainder(node.size, geo.blockSize);
      var logical := Quotient(node.size, geo.blockSize);
      EditableFacts(geo, u, ino);
      OthersSame(u, u.(disk := disk), ino);
      if within == 0 {
        TailClearAlready(geo, disk, node);
        return Success;
      }
      var mapped := Map(node, logical);
      if mapped.Err? {
        return IoError;
      }
      if mapped.value == 0 {
        TailClearAlready(geo, disk, node);
        return Success;
      }
      var zeros: seq<byte> := seq(geo.blockSize - within, _ => 0);
      s := Overwrite(u, ino, node, mapped.value, logical, within, zeros);
      if s == Success {
        TailCleared(geo, u.disk, disk, node, zeros);
      }
    }

    /** Read, overlay and write back one mapped block of the record `node`, which `u` holds for `ino`. */
    method Overwrite(ghost u: Volume, ghost ino: nat, ghost node: Inode, physical: nat, ghost logical: nat,
                     within: nat, chunk: seq<byte>)
      returns (s: Status)
      requires Mounted() && !failed && writable && Holds(geo, u, ino, node) && u.disk == disk
      requires within + |chunk| <= geo.blockSize && physical == Lookup(node.extents, logical) != 0
      modifies this`disk, this`failed, this`corrupt, this`writeSequence
      ensures Shaped(geo, disk) && OthersKept(u, u.(disk := disk), ino)
      ensures s == Success ==> !failed && Holds(geo, u.(disk := disk), ino, node)
      ensures s == Success ==> Wrote(geo.blockSize, u, u.(disk := disk), ino, logical, within, chunk)
      ensures s != Success ==> failed
      ensures corrupt == old(corrupt)
    {
      MappedBlock(geo, u, ino, logical);
      OthersSame(u, u.(disk := disk), ino);
      var buffer;
      s, buffer := ReadBlock(physical);
      if s != Success {
        return;
      }
      var block := Spliced(buffer, within, chunk);
      s := WriteBlock(physical, block);
      OthersKeptBy(geo, u, u.(disk := disk), ino, physical);
      if s == Success {
        RewriteDone(geo, u, u.(disk := disk), ino, logical, within, chunk, 0);
      }
    }

    /** One hole of the rehearsal: the next free block past `after`, and the staged record with it. */
    method RehearseHole(staged: Inode, logical: nat, after: nat) returns (n: Result<nat>, r: Result<Inode>)
      requires PoolsReady() && !failed && writable && Editable(geo, staged)
      requires Lookup(staged.extents, logical) == 0
      modifies this`failed, this`corrupt
      ensures !failed ==> FillsAfter(geo, blocks.used, staged, logical, after, n, r)
      ensures !failed && n.Ok? ==> blocks.Free(n.value) && geo.DataBlock(n.value) && after < n.value
      ensures r.Ok? ==> n.Ok? && !failed
      ensures r.Err? ==> r.status != Success
      ensures corrupt == old(corrupt)
    {
      n := AvailableNumber(false, after);
      if n.Err? {
        return n, Err(n.status);
      }
      FirstFreeAt(blocks.used, SearchFrom(blocks, after));
      OnlyOverflow(geo, staged, logical, n.value);
      r := Append(staged, logical, n.value);
    }

    /** What the rehearsal keeps of its staged record. */
    ghost predicate Staged(staged: Inode, after: nat)
      reads this
    {
      && PoolsReady() && !failed && writable && Editable(geo, staged)
      && forall b :: Owns(staged.extents, b) ==> !blocks.Free(b) || b <= after
    }

    /** One turn of the rehearsal. */
    method RehearseStep(staged: Inode, after: nat, logical: nat, end: nat,
                        ghost record: Inode, ghost all: seq<Chunk>, ghost seen: seq<nat>, ghost rest: seq<Chunk>)
      returns (r: Result<Inode>, last: nat, ghost seen': seq<nat>)
      requires Staged(staged, after) && logical < geo.Blocks(end)
      requires rest != [] && rest[0] == Chunk(logical, end)
      requires Rehearsing(geo, blocks.used, record, all, seen, staged, rest, after)
      modifies this`failed, this`corrupt
      ensures r.Ok? ==> Staged(r.value, last)
      ensures r.Ok? ==> Rehearsing(geo, blocks.used, record, all, seen', r.value, rest[1..], last)
      ensures r.Err? ==> r.status != Success
      ensures r.Err? && !failed ==> Foresees(geo, blocks.used, record, all, Err(r.status))
      ensures corrupt == old(corrupt)
    {
      last, seen' := after, seen;
      var mapped := Map(staged, logical);
      if mapped.Err? {
        return Err(IoError), last, seen';
      }
      if mapped.value != 0 {
        RehearsingMapped(geo, blocks.used, record, all, seen, staged, rest, after);
        RaisedEditable(geo, staged, end);
        return Ok(Raised(staged, end)), last, seen';
      }
      var n;
      n, r := RehearseHole(staged, logical, after);
      if r.Err? {
        if !failed {
          RehearsingRefused(geo, blocks.used, record, all, seen, staged, rest, after, n, r);
        }
        return;
      }
      RehearsingFilled(geo, blocks.used, record, all, seen, staged, rest, after, n.value, r.value);
      GrownAfterEditable(geo, blocks.used, staged, logical, after, n.value, r.value, end);
      return Ok(Raised(r.value, end)), n.value, seen + [n.value];
    }

    /** `preflight_write`: comes to what Plan foresees, and changes nothing. */
    method PreflightWrite(record: Inode, offset: nat, count: nat) returns (s: Status, ghost foreseen: Result<seq<nat>>)
      requires Staged(record, 0) && forall b :: Owns(record.extents, b) ==> !blocks.Free(b)
      modifies this`failed, this`corrupt
      ensures !failed ==> Foresees(geo, blocks.used, record, Chunks(geo.blockSize, offset, count), foreseen)
      ensures !failed ==> s == if foreseen.Ok? then Success else foreseen.status
      ensures s == Success ==> !failed
      ensures corrupt == old(corrupt)
    {
      ghost var all := Chunks(geo.blockSize, offset, count);
      var staged, after, done := record, 0, 0;
      ghost var seen, rest := [], all;
      RehearsingAtStart(geo, blocks.used, record, all);
      while done < count
        invariant done <= count && Staged(staged, after) && corrupt == old(corrupt)
        invariant rest == Chunks(geo.blockSize, offset + done, count - done)
        invariant Rehearsing(geo, blocks.used, record, all, seen, staged, rest, after)
      {
        var position := offset + done;
        var length := ChunkLength(geo.blockSize, position, count - done);
        BlocksCover(geo, position, position + length);
        var r;
        r, after, seen := RehearseStep(staged, after, Quotient(position, geo.blockSize), position + length, record,
            all, seen, rest);
        if r.Err? {
          return r.status, Err(r.status);
        }
        staged := r.value;
        done := done + length;
        rest := rest[1..];
      }
      RehearsingAtEnd(geo, blocks.used, record, all, seen, staged, after);
      return Success, Ok(seen);
    }

    /** One turn of the write loop: it follows Exec, lays the chunk into the stream, and grows the size to cover it. */
    method WriteStep(ino: nat, position: nat, chunk: seq<byte>,
                     ghost initial: seq<bool>, ghost before: Inode, ghost all: seq<Chunk>, ghost taken: seq<nat>,
                         ghost rest: seq<Chunk>)
      returns (s: Status, ghost taken': seq<nat>)
      requires Writing(ino) && chunk != [] && Remainder(position, geo.blockSize) + |chunk| <= geo.blockSize
      requires rest != [] && rest[0] == Chunk(Quotient(position, geo.blockSize), position + |chunk|)
      requires Underway(geo, initial, before, all, taken, blocks.used, inodes[ino], rest)
      modifies this
      ensures Valid() && numbers == old(numbers) && OthersKept(old(State()), State(), ino)
      ensures s == Success ==>
              Writing(ino) && Underway(geo, initial, before, all, taken', blocks.used, inodes[ino], rest[1..])
      ensures s == Success ==> Wrote(geo.blockSize, old(State()), State(), ino,
                                     Quotient(position, geo.blockSize), Remainder(position, geo.blockSize), chunk)
      ensures s == Success ==> inodes[ino].size == Max(old(inodes)[ino].size, position + |chunk|)
      ensures s != Success && !failed ==> State() == old(State()) && Runs(geo, initial, before, all, Err(s))
    {
      taken' := taken;
      var logical, within := Quotient(position, geo.blockSize), Remainder(position, geo.blockSize);
      var end := position + |chunk|;
      BlocksCover(geo, position, end);
      var mapped := Map(inodes[ino], logical);
      if mapped.Err? {
        return IoError, taken';
      }
      if mapped.value != 0 {
        UnderwayMapped(geo, initial, before, all, taken, blocks.used, inodes[ino], rest);
        s := RewriteChunk(ino, mapped.value, logical, within, chunk, end);
      } else {
        ghost var physical, grown;
        s, physical, grown := ExtendChunk(ino, logical, within, chunk, end);
        if s == Success {
          UnderwayFilled(geo, initial, before, all, taken, old(blocks).used, old(inodes)[ino], rest, physical, grown);
          taken' := taken + [physical];
          GrownSize(geo, old(blocks).used, old(inodes)[ino], logical, physical, grown);
        } else if !failed {
          UnderwayRefused(geo, initial, before, all, taken, blocks.used, inodes[ino], rest, s);
        }
      }
    }

    /** The loop of `write_active`: what it has written so far is a prefix of the input, laid at `offset`. */
    method WriteLoop(ino: nat, offset: nat, input: seq<byte>)
      returns (s: Status, ghost taken: seq<nat>, ghost done: nat)
      requires Writing(ino)
      modifies this
      ensures Valid() && numbers == old(numbers) && OthersKept(old(State()), State(), ino)
      ensures done <= |input|
      ensures !failed ==> Writing(ino) && Written(geo, old(State()), State(), ino, offset, input[..done])
      ensures s == Success ==> !failed && done == |input|
      ensures s == Success ==>
              Runs(geo, old(blocks).used, old(inodes)[ino], Chunks(geo.blockSize, offset, |input|), Ok(taken))
      ensures s != Success && !failed ==>
                Runs(geo, old(blocks).used, old(inodes)[ino], Chunks(geo.blockSize, offset, |input|), Err(s))
    {
      ghost var v := State();
      ghost var all := Chunks(geo.blockSize, offset, |input|);
      ghost var rest := all;
      var written := 0;
      taken, done := [], 0;
      UnderwayAtStart(geo, blocks.used, inodes[ino], all);
      while written < |input|
        invariant written == done <= |input| && Writing(ino) && numbers == old(numbers) && OthersKept(v, State(), ino)
        invariant rest == Chunks(geo.blockSize, offset + written, |input| - written)
        invariant Underway(geo, v.pool.used, v.inodes[ino], all, taken, blocks.used, inodes[ino], rest)
        invariant Written(geo, v, State(), ino, offset, input[..done])
      {
        s, taken, written := WriteTurn(ino, offset, input, written, v, all, taken, rest);
        if s != Success {
          return;
        }
        done := written;
        rest := rest[1..];
      }
      UnderwayAtEnd(geo, v.pool.used, v.inodes[ino], all, taken, blocks.used, inodes[ino]);
      assert input[..|input|] == input;
      s := Success;
    }

    /** One turn of that loop: `input[written..written']` has been laid. */
    method WriteTurn(ino: nat, offset: nat, input: seq<byte>, written: nat, ghost v: Volume, ghost all: seq<Chunk>,
                     ghost taken: seq<nat>, ghost rest: seq<Chunk>) returns (s: Status, ghost taken': seq<nat>,
                         written': nat)
      requires written < |input| && Writing(ino) && ino in v.inodes && OthersKept(v, State(), ino)
      requires rest == Chunks(geo.blockSize, offset + written, |input| - written)
      requires Underway(geo, v.pool.used, v.inodes[ino], all, taken, blocks.used, inodes[ino], rest)
      requires Written(geo, v, State(), ino, offset, input[..written])
      modifies this
      ensures Valid() && numbers == old(numbers) && OthersKept(v, State(), ino)
      ensures s == Success ==>
                && Writing(ino) && written < written' <= |input|
                && rest != [] && rest[1..] == Chunks(geo.blockSize, offset + written', |input| - written')
                && Underway(geo, v.pool.used, v.inodes[ino], all, taken', blocks.used, inodes[ino], rest[1..])
                && Written(geo, v, State(), ino, offset, input[..written'])
      ensures s != Success && !failed ==>
                State() == old(State()) && Runs(geo, v.pool.used, v.inodes[ino], all, Err(s))
    {
      var position := offset + written;
      var length := ChunkLength(geo.blockSize, position, |input| - written);
      ghost var w := State();
      written' := written;
      s, taken' := WriteStep(ino, position, input[written..written + length], v.pool.used, v.inodes[ino], all, taken,
          rest);
      OthersKeptChain(v, w, State(), ino);
      if s != Success {
        return;
      }
      WrittenMore(geo, v, w, State(), ino, offset, input, written, length);
      written' := written + length;
    }

    /** The mutating part of `write_active`: clear the gap before a write past the end, then write. */
    method WriteData(ino: nat, offset: nat, input: seq<byte>)
      returns (s: Status, ghost taken: seq<nat>, ghost done: nat)
      requires Writing(ino)
      modifies this
      ensures Valid() && numbers == old(numbers) && OthersKept(old(State()), State(), ino)
      ensures done <= |input|
      ensures !failed ==> Overlays(geo, old(State()), State(), ino, offset, input[..done])
      ensures s == Success ==> !failed && done == |input|
      ensures s == Success ==>
              Runs(geo, old(blocks).used, old(inodes)[ino], Chunks(geo.blockSize, offset, |input|), Ok(taken))
      ensures s != Success && !failed ==>
                Runs(geo, old(blocks).used, old(inodes)[ino], Chunks(geo.blockSize, offset, |input|), Err(s))
    {
      ghost var v := State();
      taken, done := [], 0;
      if offset > inodes[ino].size {
        s := ZeroTail(ino);
        if s != Success {
          return;
        }
      }
      ghost var w := State();
      s, taken, done := WriteLoop(ino, offset, input);
      if offset > v.inodes[ino].size {
        OthersKeptChain(v, w, State(), ino);
      }
      if !failed {
        OverlayDone(geo, v, w, State(), ino, offset, input[..done]);
      }
    }

    /**
     `write_active`. A successful write overlays the contents and takes exactly
     the blocks Exec says; one that stops short without a device error leaves a
     prefix. On a mount with the rehearsal (`maintained`) a write that fails
     without a device error has changed nothing at all. Other inodes keep their
     records and blocks in every case, device errors included.
     */
    method WriteActive(ino: nat, offset: nat, input: seq<byte>)
      returns (s: Status, ghost taken: seq<nat>, ghost done: nat)
      requires Valid()
      modifies this
      ensures Valid() && numbers == old(numbers)
      ensures !old(failed) ==> OthersKept(old(State()), State(), ino)
      ensures done <= |input|
      ensures s == Success ==> !failed && Overlays(geo, old(State()), State(), ino, offset, input)
      ensures !failed && Admission(geo, old(inodes), writable, ino, offset + |input|) != Success ==>
                s == Admission(geo, old(inodes), writable, ino, offset + |input|)
      ensures !failed && Admission(geo, old(inodes), writable, ino, offset + |input|) == Success && input != [] ==>
                Runs(geo, old(blocks).used, old(inodes)[ino], Chunks(geo.blockSize, offset, |input|),
                     if s == Success then Ok(taken) else Err(s))
      ensures s != Success && !failed && ino in old(inodes) ==>
                Overlays(geo, old(State()), State(), ino, offset, input[..done])
      ensures s != Success && !failed && maintained ==> State() == old(State())
    {
      ghost var v := State();
      taken, done := [], 0;
      NothingWritten(geo, v, ino, offset);
      var ok := ReadMetadata();
      if !ok {
        return IoError, taken, done;
      }
      if ino !in inodes {
        return NotFound, taken, done;
      }
      var node := inodes[ino];
      if node.kind != Regular {
        return InvalidArgument, taken, done;
      }
      if !failed {
        SoundFile(geo, v, ino);
      }
      s := CheckWritable(node);
      if s != Success {
        return;
      }
      assert Writing(ino);
      if offset > MAX_FILE || |input| > MAX_FILE - offset {
        return Overflow, taken, done;
      }
      if input == [] {
        return;
      }
      var writes := writeSequence;
      ghost var foreseen: Result<seq<nat>> := Err(IoError);
      if maintained {
        StagedFromSound(geo, v, ino);
        s, foreseen := PreflightWrite(node, offset, |input|);
        if s != Success {
          if !failed {
            FirstBlockTaken(geo, v);
            ForeseenIsRun(geo, v.pool.used, node, Chunks(geo.blockSize, offset, |input|), foreseen);
          }
          return;
        }
      }
      s, taken, done := WriteData(ino, offset, input);
      if s == Success {
        assert input[..done] == input;
      } else if maintained {
        if !failed {
          FirstBlockTaken(geo, v);
          ForeseenRuns(geo, v.pool.used, node, Chunks(geo.blockSize, offset, |input|), foreseen, Err(s));
        }
        if writeSequence != writes {
          failed := true;
        }
      }
    }

    // -------------------------------------------------------------------
    // Resizing

    /** The inner loop of a shrink: gives back blocks `[physical + from, physical + length)`. */
    method FreeRun(physical: nat, from: nat, length: nat) returns (s: Status)
      requires PoolsReady() && !failed && writable && from <= length
      modifies this`blocks, this`numbers, this`failed, this`corrupt, this`writeSequence
      ensures numbers == old(numbers)
      ensures s == Success ==>
              PoolsReady() && !failed && RunFreed(old(blocks), blocks, physical + from, physical + length)
      ensures s != Success ==> failed
      ensures RunSet(geo, old(blocks), physical + from, physical + length) ==> corrupt == old(corrupt)
    {
      var j := from;
      while j < length
        invariant from <= j <= length && numbers == old(numbers) && PoolsReady() && !failed
        invariant RunFreed(old(blocks), blocks, physical + from, physical + j)
        invariant RunSet(geo, old(blocks), physical + from, physical + length) ==> corrupt == old(corrupt)
      {
        if RunSet(geo, old(blocks), physical + from, physical + length) {
          assert !old(blocks).Free(physical + j);
          assert InUse(physical + j, false);
        }
        ghost var mid := blocks;
        s := FreeNumber(physical + j, false);
        if s != Success {
          return;
        }
        RunFreedMore(old(blocks), mid, blocks, physical + from, physical + j);
        j := j + 1;
      }
      s := Success;
    }

    /** The extent loop of a shrink, from the last extent down: frees what lies past `keep` and clips the list. */
    method Shrink(node: Inode, keep: nat) returns (s: Status, cut: Inode)
      requires PoolsReady() && !failed && writable && Editable(geo, node)
      modifies this`blocks, this`numbers, this`failed, this`corrupt, this`writeSequence
      ensures numbers == old(numbers)
      ensures s == Success ==>
                && PoolsReady() && !failed
                && Released(old(blocks), blocks, node.extents, keep)
                && cut == node.(extents := Clipped(node.extents, keep),
                                sectors := Times(Total(Clipped(node.extents, keep)), geo.SectorsPerBlock()))
      ensures s != Success ==> failed
      ensures (forall b :: Owns(node.extents, b) ==> !old(blocks).Free(b)) ==> corrupt == old(corrupt)
    {
      cut := node;
      var ex := node.extents;
      ShrinkStart(geo, node, blocks, keep);
      var i := |ex|;
      while i > 0
        invariant 0 <= i <= |ex| && numbers == old(numbers) && PoolsReady() && !failed
        invariant Released(old(blocks), blocks, ex[i..], keep)
        invariant (forall b :: Owns(ex, b) ==> !old(blocks).Free(b)) ==> corrupt == old(corrupt)
        invariant Trimmed(geo, node, cut, i, keep)
      {
        s, cut := ShrinkStep(node, cut, i, keep, old(blocks));
        if s != Success {
          return;
        }
        i := i - 1;
      }
      TrimmedDone(geo, node, cut, keep);
      assert ex[0..] == ex;
      s := Success;
    }

    /** One turn of that loop. */
    method ShrinkStep(node: Inode, cut: Inode, i: nat, keep: nat, ghost before: Pool) returns (s: Status, next: Inode)
      requires PoolsReady() && !failed && writable && Editable(geo, node) && 0 < i <= |node.extents|
      requires PoolFits(geo, before) && Released(before, blocks, node.extents[i..], keep)
      requires Trimmed(geo, node, cut, i, keep)
      modifies this`blocks, this`numbers, this`failed, this`corrupt, this`writeSequence
      ensures numbers == old(numbers)
      ensures s == Success ==>
                && PoolsReady() && !failed
                && Released(before, blocks, node.extents[i - 1..], keep) && Trimmed(geo, node, next, i - 1, keep)
      ensures s != Success ==> failed
      ensures (forall b :: Owns(node.extents, b) ==> !before.Free(b)) ==> corrupt == old(corrupt)
    {
      next := cut;
      var e := node.extents[i - 1];
      var retain := if keep > e.start then Min(keep - e.start, e.count) else 0;
      ghost var mid := blocks;
      if forall b :: Owns(node.extents, b) ==> !before.Free(b) {
        RunStillSet(geo, node, before, blocks, i, keep, retain);
      }
      s := FreeRun(e.physical, retain, e.count);
      if s != Success {
        return;
      }
      ReleasedMore(geo, node, before, mid, blocks, i, keep, retain);
      TrimmedMore(geo, node, cut, i, keep, retain);
      next := TrimStep(geo, cut, i, e, retain);
    }

    /** The shrinking half of `resize`: release what lies past the new end, zero the rest of its last block, save. */
    method CutFile(ino: nat, size: nat) returns (s: Status)
      requires Writing(ino) && size < inodes[ino].size
      modifies this
      ensures Valid() && numbers == old(numbers) && OthersKept(old(State()), State(), ino)
      ensures s == Success ==> Writing(ino) && ResizedTo(geo, old(State()), State(), ino, size)
      ensures s == Success ==> Released(old(blocks), blocks, old(inodes)[ino].extents, geo.Blocks(size))
      ensures s != Success ==> failed
    {
      ghost var v := State();
      StagedFromSound(geo, v, ino);
      var node := inodes[ino];
      var cut;
      s, cut := Shrink(node, geo.Blocks(size));
      OthersSame(v, State(), ino);
      if s != Success {
        return;
      }
      cut := cut.(size := size);
      ghost var u := Volume(disk, blocks, inodes[ino := cut]);
      CutSound(geo, v, u, ino, size);
      s := ClearTail(cut, u, ino);
      OthersKeptChain(v, u, u.(disk := disk), ino);
      OthersButRecord(v, u.(disk := disk), State(), ino);
      if s != Success {
        return;
      }
      s := WriteMetadata();
      if s != Success {
        return;
      }
      SameKeys(inodes, ino, cut);
      inodes := inodes[ino := cut];
      assert State() == u.(disk := disk);
      CutDone(geo, v, u, State(), ino, size);
    }

    /** `resize` on a writable record: the contents are cut or zero-extended to `size`. */
    method Resize(ino: nat, size: nat) returns (s: Status)
      requires Writing(ino)
      modifies this
      ensures Valid() && numbers == old(numbers) && OthersKept(old(State()), State(), ino)
      ensures s == Success ==>
              Writing(ino) && ResizedTo(geo, old(State()), State(), ino, size) && inodes[ino].size == size
      ensures s == Success ==>
                if size < old(inodes)[ino].size
                    then Released(old(blocks), blocks, old(inodes)[ino].extents, geo.Blocks(size))
                else blocks == old(blocks)
      ensures s != Success ==> failed
    {
      ghost var v := State();
      OthersSame(v, v, ino);
      var node := inodes[ino];
      if size < node.size {
        s := CutFile(ino, size);
        return;
      }
      if size > node.size {
        s := ZeroTail(ino);
        if s != Success {
          return;
        }
      }
      ghost var w := State();
      s := WriteMetadata();
      if s != Success {
        return;
      }
      SameKeys(inodes, ino, node.(size := size));
      inodes := inodes[ino := node.(size := size)];
      SaveDone(geo, v, w, State(), ino, size);
      GrowDone(geo, v, w, State(), ino, size);
    }

    /** `truncate_active`: the contents are cut or zero-extended, or nothing changed unless a transfer failed. */
    method TruncateActive(ino: nat, size: nat) returns (s: Status)
      requires Valid()
      modifies this
      ensures Valid() && numbers == old(numbers)
      ensures !old(failed) ==> OthersKept(old(State()), State(), ino)
      ensures s == Success ==> !failed && ResizedTo(geo, old(State()), State(), ino, size)
      ensures !failed ==> s == Admission(geo, old(inodes), writable, ino, size)
      ensures s != Success && !failed ==> State() == old(State())
    {
      ghost var v := State();
      OthersSame(v, v, ino);
      var ok := ReadMetadata();
      if !ok {
        return IoError;
      }
      if ino !in inodes {
        return NotFound;
      }
      if inodes[ino].kind != Regular {
        return InvalidArgument;
      }
      if !failed {
        SoundFile(geo, v, ino);
      }
      s := CheckWritable(inodes[ino]);
      if s != Success {
        return;
      }
      if size > MAX_FILE {
        return Overflow;
      }
      assert Writing(ino);
      var writes := writeSequence;
      s := Resize(ino, size);
      if maintained && s != Success && writeSequence != writes {
        failed := true;
      }
    }

    /** Makes one call, and says what it has done. */
    method Perform(call: Call) returns (s: Status, ghost done: Call)
      requires Valid() && !failed
      modifies this
      ensures Valid()
      ensures s == Success ==> !failed
      ensures !failed ==> Did(geo, old(State()), done, State()) && Effect(call, s, done)
    {
      ghost var v := State();
      match call
      case WriteCall(ino, offset, input) =>
        ghost var taken, n;
        s, taken, n := WriteActive(ino, offset, input);
        done := if s == Success then call else WriteCall(ino, offset, input[..n]);
      case TruncateCall(ino, size) =>
        s := TruncateActive(ino, size);
        done := if s == Success then call else WriteCall(ino, 0, []);
        NothingWritten(geo, v, ino, 0);
    }

    /**
     Any run of writes and truncates, on any files, up to the first failed transfer: every file holds
     what replaying the calls on its own byte string gives.
     */
    method Run(calls: seq<Call>) returns (statuses: seq<Status>, ghost log: seq<Call>)
      requires Valid() && !failed
      modifies this
      ensures Valid()
      ensures !failed ==>
              && |statuses| == |log| == |calls|
              && (forall i :: 0 <= i < |calls| ==> Effect(calls[i], statuses[i], log[i]))
              && forall ino :: ino in old(inodes) ==>
                   && ino in inodes
                   && Contents(geo, disk, inodes[ino]) ==
                      Replayed(Contents(geo, old(disk), old(inodes)[ino]), log, ino)
    {
      statuses, log := [], [];
      ghost var volumes := [State()];
      for i := 0 to |calls|
        invariant Valid() && !failed && |statuses| == |log| == i
        invariant |volumes| == i + 1 && volumes[0] == old(State()) && volumes[i] == State()
        invariant forall k :: 0 <= k < i ==> Effect(calls[k], statuses[k], log[k])
        invariant forall k :: 0 <= k < i ==> Did(geo, volumes[k], log[k], volumes[k + 1])
      {
        var s;
        ghost var done;
        s, done := Perform(calls[i]);
        if failed {
          return;
        }
        statuses, log, volumes := statuses + [s], log + [done], volumes + [State()];
      }
      forall ino | ino in old(inodes)
        ensures ino in inodes && Contents(geo, disk, inodes[ino]) ==
                Replayed(Contents(geo, old(disk), old(inodes)[ino]), log, ino)
      {
        RunContents(geo, volumes, log, ino);
      }
    }

    /** The storage half of `destroy`: every block of the file and its number go back, and nothing else does. */
    method DestroyStorage(ino: nat) returns (s: Status)
      requires Valid() && !failed && writable && numbers.first <= ino
      modifies this
      ensures Valid() && OthersKept(old(State()), State(), ino)
      ensures s == Success ==> !failed && ino in old(inodes) && inodes == old(inodes) - {ino}
      ensures s == Success ==> numbers.base <= ino && Turned(old(numbers), numbers, ino - numbers.base, false)
      ensures s == Success ==> forall b :: Owns(old(inodes)[ino].extents, b) ==> blocks.Free(b)
      ensures s != Success && !failed ==> State() == old(State()) && numbers == old(numbers)
      ensures !failed ==> (s == Success <==> ino in old(inodes) && Writable(geo, old(inodes)[ino]))
    {
      ghost var keys, before := inodes.Keys, numbers;
      if ino in inodes {
        NumberedAt(numbers, keys, ino);
      }
      s := ReleaseFile(ino);
      if s != Success {
        return;
      }
      PoolsFromSound(geo, State());
      s := FreeNumber(ino, true);
      if s == Success {
        NumberFreed(before, numbers, keys, ino);
        assert inodes.Keys == keys - {ino};
      }
    }

    /** Empties the file and clears its record. */
    method ReleaseFile(ino: nat) returns (s: Status)
      requires Valid() && !failed && writable
      modifies this
      ensures Stored() && numbers == old(numbers) && OthersKept(old(State()), State(), ino)
      ensures s != Success ==> Valid()
      ensures s == Success ==> !failed && ino in old(inodes) && inodes == old(inodes) - {ino}
      ensures s == Success ==> forall b :: Owns(old(inodes)[ino].extents, b) ==> blocks.Free(b)
      ensures s != Success && !failed ==> State() == old(State())
      ensures !failed ==> (s == Success <==> ino in old(inodes) && Writable(geo, old(inodes)[ino]))
    {
      ghost var v := State();
      OthersSame(v, v, ino);
      var ok := ReadMetadata();
      if !ok {
        return IoError;
      }
      if ino !in inodes {
        return NotFound;
      }
      SoundFile(geo, v, ino);
      s := CheckWritable(inodes[ino]);
      if s != Success {
        return;
      }
      assert Writing(ino);
      s := Resize(ino, 0);
      if s != Success {
        return;
      }
      ghost var w := State();
      s := WriteMetadata();
      if s != Success {
        return;
      }
      inodes := inodes - {ino};
      DestroyDone(geo, v, w, State(), ino);
    }
  }

  /** Above the reserved numbers exactly those with a record are in use. */
  ghost predicate Numbered(numbers: Pool, keys: set<nat>) {
    forall k :: Opened(PoolSeal, k) ==>
      && (forall n: nat :: n in keys ==> n < numbers.base + |numbers.used|)
      && (forall n: nat :: numbers.first <= n < numbers.base + |numbers.used| ==> (n in keys <==> !numbers.Free(n)))
  }

  lemma NumberedAt(numbers: Pool, keys: set<nat>, n: nat)
    requires Numbered(numbers, keys) && n in keys
    ensures n < numbers.base + |numbers.used| && (numbers.first <= n ==> !numbers.Free(n))
  {
    assert Opened(PoolSeal, 0);
  }

  lemma NumberFreed(before: Pool, after: Pool, keys: set<nat>, ino: nat)
    requires Numbered(before, keys) && before.base <= ino && Turned(before, after, ino - before.base, false)
    ensures Numbered(after, keys - {ino})
  {
    assert Opened(PoolSeal, 0);
  }

  lemma SameKeys(inodes: map<nat, Inode>, ino: nat, node: Inode)
    requires ino in inodes
    ensures inodes[ino := node].Keys == inodes.Keys
  {
  }

  /** Why a change up to byte `end` is refused before anything is touched, if it is. */
  ghost function Admission(geo: Geometry, inodes: map<nat, Inode>, writable: bool, ino: nat, end: nat): Status
    requires geo.Valid()
  {
    if ino !in inodes then NotFound
    else if inodes[ino].kind != Regular then InvalidArgument
    else if !writable then Denied
    else if !Writable(geo, inodes[ino]) then Unsupported
    else if end > MAX_FILE then Overflow
    else Success
  }

  lemma EmptyRecord(geo: Geometry, node: Inode)
    requires geo.Valid() && Editable(geo, node) && node.size == 0
    ensures node.extents == []
  {
    assert Opened(RecordSeal, 0);
  }

  lemma DestroyDone(geo: Geometry, v: Volume, w: Volume, u: Volume, ino: nat)
    requires SoundVolume(geo, v) && ino in v.inodes && Editable(geo, v.inodes[ino])
    requires SoundVolume(geo, w) && ino in w.inodes && Editable(geo, w.inodes[ino]) && w.inodes[ino].size == 0
    requires OthersKept(v, w, ino) && u == w.(inodes := w.inodes - {ino})
    requires 0 < v.inodes[ino].size ==> Released(v.pool, w.pool, v.inodes[ino].extents, geo.Blocks(0))
    ensures SoundVolume(geo, u) && OthersKept(v, u, ino)
    ensures forall b :: Owns(v.inodes[ino].extents, b) ==> u.pool.Free(b)
    ensures u.inodes == v.inodes - {ino}
  {
    EmptyRecord(geo, w.inodes[ino]);
    VolumeRemoved(geo, w, ino);
    assert u.inodes == v.inodes - {ino} by { assert Opened(OthersSeal, 0); }
    OthersButRecord(v, w, u, ino);
    if v.inodes[ino].size == 0 {
      EmptyRecord(geo, v.inodes[ino]);
    } else {
      forall b | Owns(v.inodes[ino].extents, b) ensures u.pool.Free(b) {
        OwnedTaken(geo, v, ino, b);
        assert Opened(TrimSeal, 0);
        assert Beyond(v.inodes[ino].extents, geo.Blocks(0), b);
      }
    }
  }

  /** Only the record of `ino` differs. */
  lemma OthersButRecord(v: Volume, w: Volume, u: Volume, ino: nat)
    requires OthersKept(v, w, ino) && u.disk == w.disk
    requires forall j :: j != ino ==> (j in u.inodes <==> j in v.inodes)
    requires forall j :: j != ino && j in v.inodes ==> u.inodes[j] == v.inodes[j]
    ensures OthersKept(v, u, ino)
  {
    assert Opened(OthersSeal, 0);
  }

  lemma CutDone(geo: Geometry, v: Volume, u: Volume, w: Volume, ino: nat, size: nat)
    requires SameBelow(geo, v, u, ino) && SameBelow(geo, u, w, ino)
    requires u.inodes[ino].size == w.inodes[ino].size == size <= v.inodes[ino].size
    ensures ResizedTo(geo, v, w, ino, size)
  {
    ContentsCut(geo, v.disk, w.disk, v.inodes[ino], w.inodes[ino]);
  }

  lemma GrowDone(geo: Geometry, v: Volume, w: Volume, u: Volume, ino: nat, size: nat)
    requires 0 < geo.blockSize && ino in v.inodes && ino in u.inodes
    requires u.disk == w.disk && u.inodes[ino] == v.inodes[ino].(size := size) && v.inodes[ino].size <= size
    requires if v.inodes[ino].size < size then w.inodes == v.inodes && TailClear(geo, w.disk, v.inodes[ino]) &&
              SameBelow(geo, v, w, ino)
             else w == v
    ensures ResizedTo(geo, v, u, ino, size)
  {
    if v.inodes[ino].size < size {
      ContentsGrown(geo, v.disk, u.disk, v.inodes[ino], u.inodes[ino]);
    } else {
      ContentsCut(geo, v.disk, u.disk, v.inodes[ino], u.inodes[ino]);
    }
  }

  lemma OthersSame(v: Volume, w: Volume, ino: nat)
    requires w.disk == v.disk && w.inodes == v.inodes
    ensures OthersKept(v, w, ino)
  {
  }

  /** The contents are those of before, cut at `size`. */
  ghost predicate ResizedTo(geo: Geometry, v: Volume, w: Volume, ino: nat, size: nat) {
    && 0 < geo.blockSize && ino in v.inodes && ino in w.inodes
    && Contents(geo, w.disk, w.inodes[ino]) == Resized(Contents(geo, v.disk, v.inodes[ino]), size)
  }

  /** The volume once the clipped record is taken for the file's. */
  lemma CutSound(geo: Geometry, v: Volume, u: Volume, ino: nat, size: nat)
    requires SoundVolume(geo, v) && ino in v.inodes && Editable(geo, v.inodes[ino])
    requires u.disk == v.disk && Released(v.pool, u.pool, v.inodes[ino].extents, geo.Blocks(size))
    requires var cut := Clipped(v.inodes[ino].extents, geo.Blocks(size));
             u.inodes == v.inodes[ino := v.inodes[ino].(extents := cut,
                 sectors := Times(Total(cut), geo.SectorsPerBlock()), size := size)]
    ensures SoundVolume(geo, u) && Editable(geo, u.inodes[ino])
    ensures OthersKept(v, u, ino) && SameBelow(geo, v, u, ino)
  {
    var node, cut := v.inodes[ino], u.inodes[ino];
    var keep := geo.Blocks(size);
    assert Writable(geo, node) by { assert Opened(RecordSeal, 0); }
    ClippedMap(geo, node.extents, keep);
    assert Writable(geo, cut);
    VolumeClipped(geo, v, u.pool, ino, cut, keep);
    assert u == Volume(v.disk, u.pool, v.inodes[ino := cut]);
    forall i: nat | i < size
      ensures StreamByte(geo, u.disk, cut.extents, i) == StreamByte(geo, v.disk, node.extents, i)
    {
      BlocksCover(geo, i, size);
    }
  }

  /** `cut` is `node` with the extents from slot `i` on clipped at `keep`, and its sector count to match. */
  ghost predicate Trimmed(geo: Geometry, node: Inode, cut: Inode, i: nat, keep: nat)
    requires geo.Valid() && i <= |node.extents|
  {
    forall k :: Opened(TrimSeal, k) ==>
      && cut.extents == node.extents[..i] + Clipped(node.extents[i..], keep)
      && cut.sectors == Times(Total(cut.extents), geo.SectorsPerBlock())
      && cut == node.(extents := cut.extents, sectors := cut.sectors)
  }

  /** The edit of the record for one extent: its entry shortened or removed, the sector count lowered. */
  function TrimStep(geo: Geometry, cut: Inode, i: nat, e: Extent, retain: nat): Inode
    requires geo.Valid() && 0 < i <= |cut.extents| && retain <= e.count
    requires Times(e.count - retain, geo.SectorsPerBlock()) <= cut.sectors
  {
    cut.(sectors := cut.sectors - Times(e.count - retain, geo.SectorsPerBlock()),
         extents := if retain == 0 then cut.extents[..|cut.extents| - 1] else cut.extents[i - 1 := e.(count := retain)])
  }

  lemma TrimmedDone(geo: Geometry, node: Inode, cut: Inode, keep: nat)
    requires geo.Valid() && Trimmed(geo, node, cut, 0, keep)
    ensures cut == node.(extents := Clipped(node.extents, keep),
                         sectors := Times(Total(Clipped(node.extents, keep)), geo.SectorsPerBlock()))
  {
    assert Opened(TrimSeal, 0);
    assert node.extents[0..] == node.extents;
    assert node.extents[..0] + Clipped(node.extents, keep) == Clipped(node.extents, keep);
  }

  /** Every block of `[low, high)` is a data block whose bit is set. */
  ghost predicate RunSet(geo: Geometry, pool: Pool, low: int, high: int) {
    forall b :: low <= b < high ==> geo.DataBlock(b) && !pool.Free(b)
  }

  /** Exactly the bits of blocks `[low, high)` were set and are now clear. */
  ghost predicate RunFreed(before: Pool, after: Pool, low: int, high: int) {
    && after.Consistent() && before.base == after.base && before.first == after.first && before.per == after.per
    && |after.used| == |before.used|
    && (forall b :: before.base <= b < before.base + |before.used| ==>
         (after.Free(b) <==> before.Free(b) || low <= b < high))
  }

  lemma RunFreedMore(before: Pool, mid: Pool, after: Pool, low: int, high: int)
    requires RunFreed(before, mid, low, high) && mid.base <= high && low <= high
    requires Turned(mid, after, high - mid.base, false)
    ensures RunFreed(before, after, low, high + 1)
  {
  }

  lemma ShrinkStart(geo: Geometry, node: Inode, pool: Pool, keep: nat)
    requires geo.Valid() && Editable(geo, node) && pool.Consistent()
    ensures Released(pool, pool, node.extents[|node.extents|..], keep)
    ensures Trimmed(geo, node, node, |node.extents|, keep)
  {
    assert Opened(RecordSeal, 0);
    assert node.extents[..|node.extents|] + [] == node.extents;
  }

  /** How much of extent `i - 1` survives, and that nothing after a shortened one does. */
  lemma ClippedStep(geo: Geometry, ex: seq<Extent>, i: nat, keep: nat, retain: nat)
    requires Structured(geo, ex) && Plain(ex) && 0 < i <= |ex|
    requires retain == if keep > ex[i - 1].start then Min(keep - ex[i - 1].start, ex[i - 1].count) else 0
    ensures Clipped(ex[i - 1..], keep) ==
            if retain == 0 then [] else [ex[i - 1].(count := retain)] + Clipped(ex[i..], keep)
    ensures retain == 0 ==> Clipped(ex[i..], keep) == []
  {
    var e := ex[i - 1];
    assert geo.DataRange(e.physical, e.Length());
    assert ex[i - 1..][1..] == ex[i..];
    if i < |ex| {
      assert ex[i - 1].End() <= ex[i].start;
    }
  }

  /** Freeing the tail of extent `i - 1` releases it along with what later extents released. */
  lemma ReleasedMore(geo: Geometry, node: Inode, start: Pool, mid: Pool, after: Pool, i: nat, keep: nat, retain: nat)
    requires geo.Valid() && Editable(geo, node) && 0 < i <= |node.extents|
    requires retain == if keep > node.extents[i - 1].start
              then Min(keep - node.extents[i - 1].start, node.extents[i - 1].count) else 0
    requires Released(start, mid, node.extents[i..], keep)
    requires RunFreed(mid, after, node.extents[i - 1].physical + retain,
              node.extents[i - 1].physical + node.extents[i - 1].count)
    ensures Released(start, after, node.extents[i - 1..], keep)
  {
    assert Opened(TrimSeal, 0) && Opened(RecordSeal, 0);
    forall b ensures Beyond(node.extents[i - 1..], keep, b) <==>
                     || Beyond(node.extents[i..], keep, b)
                     || node.extents[i - 1].physical + retain <= b < node.extents[i - 1].physical +
                          node.extents[i - 1].count
    {
      BeyondSplit(node.extents, i, keep, retain, b);
    }
  }

  /** The part of extent `i - 1` to be freed is still marked: later extents gave back only their own blocks. */
  lemma RunStillSet(geo: Geometry, node: Inode, start: Pool, mid: Pool, i: nat, keep: nat, retain: nat)
    requires geo.Valid() && Editable(geo, node) && 0 < i <= |node.extents| && retain <= node.extents[i - 1].count
    requires PoolFits(geo, start) && Released(start, mid, node.extents[i..], keep)
    requires forall b :: Owns(node.extents, b) ==> !start.Free(b)
    ensures RunSet(geo, mid, node.extents[i - 1].physical + retain,
            node.extents[i - 1].physical + node.extents[i - 1].count)
  {
    assert Opened(TrimSeal, 0) && Opened(RecordSeal, 0);
    var ex := node.extents;
    var e := ex[i - 1];
    assert geo.DataRange(e.physical, e.Length());
    forall b | e.physical + retain <= b < e.physical + e.count ensures geo.DataBlock(b) && !mid.Free(b) {
      assert e.Owns(b) && Owns(ex, b);
      forall k | 0 <= k < |ex[i..]| ensures !ex[i..][k].Owns(b) {
        assert Separate(ex[i - 1], ex[i + k]);
      }
    }
  }

  lemma BeyondSplit(ex: seq<Extent>, i: nat, keep: nat, retain: nat, b: int)
    requires Plain(ex) && 0 < i <= |ex|
    requires retain == if keep > ex[i - 1].start then Min(keep - ex[i - 1].start, ex[i - 1].count) else 0
    ensures Beyond(ex[i - 1..], keep, b) <==>
            Beyond(ex[i..], keep, b) || ex[i - 1].physical + retain <= b < ex[i - 1].physical + ex[i - 1].count
  {
    var e, all, rest := ex[i - 1], ex[i - 1..], ex[i..];
    assert all == [e] + rest;
    if k :| 0 <= k < |all| && all[k].Owns(b) && keep <= all[k].start + (b - all[k].physical) {
      assert k > 0 ==> rest[k - 1] == all[k];
    }
    if k :| 0 <= k < |rest| && rest[k].Owns(b) && keep <= rest[k].start + (b - rest[k].physical) {
      assert all[k + 1] == rest[k];
    }
    if e.physical + retain <= b < e.physical + e.count {
      assert all[0].Owns(b);
    }
  }

  lemma TrimmedExtents(geo: Geometry, ex: seq<Extent>, cut: seq<Extent>, i: nat, keep: nat, retain: nat)
    requires Structured(geo, ex) && Plain(ex) && 0 < i <= |ex|
    requires retain == if keep > ex[i - 1].start then Min(keep - ex[i - 1].start, ex[i - 1].count) else 0
    requires cut == ex[..i] + Clipped(ex[i..], keep)
    ensures ex[..i - 1] + Clipped(ex[i - 1..], keep) ==
            if retain == 0 then cut[..|cut| - 1] else cut[i - 1 := ex[i - 1].(count := retain)]
    ensures Total(cut) == Total(ex[..i - 1] + Clipped(ex[i - 1..], keep)) + (ex[i - 1].count - retain)
  {
    ClippedStep(geo, ex, i, keep, retain);
    TrimmedList(ex, cut, i, Clipped(ex[i..], keep), Clipped(ex[i - 1..], keep), retain);
  }

  lemma TrimmedList(ex: seq<Extent>, cut: seq<Extent>, i: nat, tail: seq<Extent>, next: seq<Extent>, retain: nat)
    requires 0 < i <= |ex| && cut == ex[..i] + tail && retain <= ex[i - 1].count <= MAX_PLAIN
    requires next == if retain == 0 then [] else [ex[i - 1].(count := retain)] + tail
    requires retain == 0 ==> tail == []
    ensures ex[..i - 1] + next == if retain == 0 then cut[..|cut| - 1] else cut[i - 1 := ex[i - 1].(count := retain)]
    ensures Total(cut) == Total(ex[..i - 1] + next) + (ex[i - 1].count - retain)
  {
    var e, head := ex[i - 1], ex[..i - 1];
    assert ex[..i] == head + [e];
    assert cut == head + ([e] + tail);
    TotalConcat(head, [e] + tail);
    TotalConcat([e], tail);
    TotalConcat(head, next);
    if retain > 0 {
      TotalConcat([e.(count := retain)], tail);
    }
  }

  lemma EditableTrimmed(geo: Geometry, node: Inode, cut: seq<Extent>, i: nat, keep: nat, retain: nat)
    requires geo.Valid() && Editable(geo, node) && 0 < i <= |node.extents|
    requires retain == if keep > node.extents[i - 1].start
              then Min(keep - node.extents[i - 1].start, node.extents[i - 1].count) else 0
    requires cut == node.extents[..i] + Clipped(node.extents[i..], keep)
    ensures node.extents[..i - 1] + Clipped(node.extents[i - 1..], keep) ==
            if retain == 0 then cut[..|cut| - 1] else cut[i - 1 := node.extents[i - 1].(count := retain)]
    ensures Total(cut) == Total(node.extents[..i - 1] + Clipped(node.extents[i - 1..], keep)) +
            (node.extents[i - 1].count - retain)
  {
    assert Opened(RecordSeal, 0);
    TrimmedExtents(geo, node.extents, cut, i, keep, retain);
  }

  lemma TrimmedMore(geo: Geometry, node: Inode, cut: Inode, i: nat, keep: nat, retain: nat)
    requires geo.Valid() && Editable(geo, node) && 0 < i <= |node.extents| && Trimmed(geo, node, cut, i, keep)
    requires retain == if keep > node.extents[i - 1].start
              then Min(keep - node.extents[i - 1].start, node.extents[i - 1].count) else 0
    ensures i <= |cut.extents| && retain <= node.extents[i - 1].count
    ensures Times(node.extents[i - 1].count - retain, geo.SectorsPerBlock()) <= cut.sectors
    ensures Trimmed(geo, node, TrimStep(geo, cut, i, node.extents[i - 1], retain), i - 1, keep)
  {
    assert Opened(TrimSeal, 0);
    EditableTrimmed(geo, node, cut.extents, i, keep, retain);
    var after := node.extents[..i - 1] + Clipped(node.extents[i - 1..], keep);
    TrimmedSectors(cut.extents, after, node.extents[i - 1].count - retain, geo.SectorsPerBlock());
    assert TrimStep(geo, cut, i, node.extents[i - 1], retain).extents == after;
  }

  lemma TrimmedSectors(cut: seq<Extent>, after: seq<Extent>, dropped: nat, spb: nat)
    requires Total(cut) == Total(after) + dropped
    ensures Times(dropped, spb) <= Times(Total(cut), spb)
    ensures Times(Total(after), spb) == Times(Total(cut), spb) - Times(dropped, spb)
  {
    TimesAdd(Total(after), dropped, spb);
  }

  lemma NothingWritten(geo: Geometry, v: Volume, ino: nat, offset: nat)
    requires 0 < geo.blockSize
    ensures OthersKept(v, v, ino)
    ensures ino in v.inodes ==> Overlays(geo, v, v, ino, offset, [])
  {
    if ino in v.inodes {
      var c := Contents(geo, v.disk, v.inodes[ino]);
      assert Overlay(c, offset, []) == c;
    }
  }

  /** The rehearsal's hypotheses on a sound volume: a file's own blocks are not free. */
  lemma StagedFromSound(geo: Geometry, v: Volume, ino: nat)
    requires SoundVolume(geo, v) && ino in v.inodes
    ensures PoolFits(geo, v.pool) && forall b :: v.pool.Free(b) ==> geo.DataBlock(b)
    ensures forall b :: Owns(v.inodes[ino].extents, b) ==> !v.pool.Free(b)
  {
    PoolsFromSound(geo, v);
    forall b | Owns(v.inodes[ino].extents, b) ensures !v.pool.Free(b) {
      OwnedTaken(geo, v, ino, b);
    }
  }

  /** Block 0 is metadata, so the bit the rehearsal would skip is set. */
  lemma FirstBlockTaken(geo: Geometry, v: Volume)
    requires SoundVolume(geo, v)
    ensures geo.firstData == 0 && v.pool.used != [] ==> v.pool.used[0]
  {
    PoolsFromSound(geo, v);
    if geo.firstData == 0 && v.pool.used != [] {
      assert !v.pool.Free(0);
    }
  }

  /** The file's contents are as before with `input` laid at `offset`, zero-filled up to it. */
  ghost predicate Overlays(geo: Geometry, v: Volume, w: Volume, ino: nat, offset: nat, input: seq<byte>) {
    && 0 < geo.blockSize && ino in v.inodes && ino in w.inodes
    && Contents(geo, w.disk, w.inodes[ino]) == Overlay(Contents(geo, v.disk, v.inodes[ino]), offset, input)
  }

  lemma OverlayDone(geo: Geometry, v: Volume, w: Volume, u: Volume, ino: nat, offset: nat, input: seq<byte>)
    requires 0 < geo.blockSize && ino in v.inodes && w.inodes == v.inodes
    requires Written(geo, w, u, ino, offset, input)
    requires SameBelow(geo, v, w, ino)
    requires offset > v.inodes[ino].size ==> TailClear(geo, w.disk, w.inodes[ino])
    ensures Overlays(geo, v, u, ino, offset, input)
  {
    assert Opened(StreamSeal, 0);
    var node, after := v.inodes[ino], u.inodes[ino];
    assert Contents(geo, w.disk, node) == Contents(geo, v.disk, node);
    if input == [] {
      assert Contents(geo, u.disk, after) == Contents(geo, w.disk, node);
      assert Overlay(Contents(geo, v.disk, node), offset, input) == Contents(geo, v.disk, node);
    } else {
      ContentsOverlaid(geo, w.disk, node, u.disk, after, offset, input);
    }
  }

  /** The file's stream is as before with `input` laid at `offset`, and its size grew to cover it. */
  ghost predicate Written(geo: Geometry, v: Volume, w: Volume, ino: nat, offset: nat, input: seq<byte>) {
    forall k :: Opened(StreamSeal, k) ==> WrittenOpened(geo, v, w, ino, offset, input)
  }

  ghost predicate WrittenOpened(geo: Geometry, v: Volume, w: Volume, ino: nat, offset: nat, input: seq<byte>) {
    && 0 < geo.blockSize && ino in v.inodes && ino in w.inodes
    && StreamOverlaid(geo, v.disk, v.inodes[ino].extents, w.disk, w.inodes[ino].extents, offset, input)
    && w.inodes[ino].size == if input == [] then v.inodes[ino].size else Max(v.inodes[ino].size, offset + |input|)
  }

  lemma WrittenMore(geo: Geometry, v: Volume, w: Volume, u: Volume, ino: nat, offset: nat, input: seq<byte>, done: nat,
                    length: nat)
    requires 0 < geo.blockSize && done + length <= |input| && 0 < length
    requires Written(geo, v, w, ino, offset, input[..done])
    requires Remainder(offset + done, geo.blockSize) + length <= geo.blockSize
    requires Wrote(geo.blockSize, w, u, ino, Quotient(offset + done, geo.blockSize),
              Remainder(offset + done, geo.blockSize),
                   input[done..done + length])
    requires u.inodes[ino].size == Max(w.inodes[ino].size, offset + done + length)
    ensures Written(geo, v, u, ino, offset, input[..done + length])
  {
    var first, second := input[..done], input[done..done + length];
    assert first + second == input[..done + length];
    assert Opened(StreamSeal, 0);
    CellsToStream(geo, w.disk, w.inodes[ino].extents, u.disk, u.inodes[ino].extents, offset + done, second);
    StreamOverlaidTwice(geo, v.disk, v.inodes[ino].extents, w.disk, w.inodes[ino].extents, u.disk,
        u.inodes[ino].extents,
                        offset, first, second);
  }

  lemma GrownSize(geo: Geometry, used: seq<bool>, node: Inode, logical: nat, physical: nat, grown: Inode)
    requires Fills(geo, used, node, logical, physical, grown)
    ensures grown.size == node.size && grown.kind == node.kind
  {
    assert Opened(FillSeal, 0);
  }

  /** `u` is a sound volume whose record for `ino` is `node`, a writable one. */
  ghost predicate Holds(geo: Geometry, u: Volume, ino: nat, node: Inode) {
    && SoundVolume(geo, u)
    && ino in u.inodes && u.inodes[ino] == node
    && Editable(geo, node)
  }

  /** Both volumes show the same bytes of the file below its end. */
  ghost predicate SameBelow(geo: Geometry, v: Volume, w: Volume, ino: nat) {
    && 0 < geo.blockSize && ino in v.inodes && ino in w.inodes
    && forall i: nat :: i < w.inodes[ino].size ==>
         StreamByte(geo, w.disk, w.inodes[ino].extents, i) == StreamByte(geo, v.disk, v.inodes[ino].extents, i)
  }

  lemma EditableFacts(geo: Geometry, v: Volume, ino: nat)
    requires SoundVolume(geo, v) && ino in v.inodes && Editable(geo, v.inodes[ino])
    ensures v.inodes[ino].plain && Structured(geo, v.inodes[ino].extents)
    ensures EndsBy(v.inodes[ino].extents, geo.Blocks(v.inodes[ino].size))
  {
    assert Opened(RecordSeal, 0);
  }

  lemma OnlyOverflow(geo: Geometry, node: Inode, logical: nat, physical: nat)
    requires geo.Valid() && Editable(geo, node) && Lookup(node.extents, logical) == 0
    ensures Appended(geo, node, logical, physical).Err? ==> Appended(geo, node, logical, physical) == Err(Overflow)
  {
    assert Opened(RecordSeal, 0);
    AppendedErrors(geo, node, logical, physical);
  }

  lemma PoolsFromSound(geo: Geometry, v: Volume)
    requires SoundVolume(geo, v)
    ensures PoolFits(geo, v.pool) && forall b :: v.pool.Free(b) ==> geo.DataBlock(b)
  {
    assert Opened(VolumeSeal, 0);
  }

  lemma FreeIsUnowned(geo: Geometry, v: Volume, ino: nat, n: nat)
    requires SoundVolume(geo, v) && ino in v.inodes && v.pool.Free(n)
    ensures geo.DataBlock(n) && !Owns(v.inodes[ino].extents, n)
  {
    assert Opened(VolumeSeal, 0);
    assert !Owned(v.inodes, n);
  }

  lemma ExtendDone(geo: Geometry, v: Volume, w: Volume, ino: nat, logical: nat, physical: nat, grown: Inode,
                   within: nat, chunk: seq<byte>, end: nat)
    requires SoundVolume(geo, v) && ino in v.inodes && Editable(geo, v.inodes[ino])
    requires within + |chunk| <= geo.blockSize && logical < geo.Blocks(end)
    requires Lookup(v.inodes[ino].extents, logical) == 0
    requires Fills(geo, v.pool.used, v.inodes[ino], logical, physical, grown)
    requires v.pool.base == geo.firstData && v.pool.Free(physical)
    requires Turned(v.pool, w.pool, physical - geo.firstData, true)
    requires physical < |v.disk| && w.disk == v.disk[physical := Spliced(seq(geo.blockSize, _ => 0), within, chunk)]
    requires w.inodes == v.inodes[ino := Raised(grown, end)]
    ensures SoundVolume(geo, w) && Editable(geo, w.inodes[ino])
    ensures Wrote(geo.blockSize, v, w, ino, logical, within, chunk) && OthersKept(v, w, ino)
  {
    var block := w.disk[physical];
    FreeIsUnowned(geo, v, ino, physical);
    GrownEditable(geo, v.pool.used, v.inodes[ino], logical, physical, grown, end);
    VolumeExtended(geo, v, w.pool, ino, w.inodes[ino], logical, physical, block);
    assert w == Volume(v.disk[physical := block], w.pool, v.inodes[ino := w.inodes[ino]]);
    OthersKeptBy(geo, v, w, ino, physical);
    SoundFile(geo, v, ino);
    ExtendStep(geo, v.disk, v.inodes[ino].extents, grown.extents, logical, physical, within, chunk);
  }

  lemma GrownEditable(geo: Geometry, used: seq<bool>, node: Inode, logical: nat, physical: nat, grown: Inode, end: nat)
    requires Fills(geo, used, node, logical, physical, grown)
    requires geo.Valid() && Editable(geo, node) && geo.DataBlock(physical) && !Owns(node.extents, physical)
    requires logical < geo.Blocks(end)
    ensures Editable(geo, Raised(grown, end)) && Sound(geo, Raised(grown, end))
    ensures MapsOneMore(node.extents, grown.extents, logical, physical)
  {
    assert Opened(RecordSeal, 0);
    FillsGrown(geo, used, node, logical, physical, grown, end);
  }

  lemma GrownAfterEditable(geo: Geometry, used: seq<bool>, node: Inode, logical: nat, after: nat, physical: nat,
                           grown: Inode, end: nat)
    requires FillsAfter(geo, used, node, logical, after, Ok(physical), Ok(grown))
    requires geo.Valid() && Editable(geo, node) && geo.DataBlock(physical) && !Owns(node.extents, physical)
    requires logical < geo.Blocks(end)
    ensures Editable(geo, Raised(grown, end))
    ensures forall b: int :: Owns(grown.extents, b) <==> b == physical || Owns(node.extents, b)
  {
    FilledBy(geo, used, node, logical, after, physical, grown);
    EditableGrown(geo, node, logical, physical, grown, end);
    OwnsGrown(geo, node, logical, physical, grown);
  }

  lemma FilledBy(geo: Geometry, used: seq<bool>, node: Inode, logical: nat, after: nat, physical: nat, grown: Inode)
    requires FillsAfter(geo, used, node, logical, after, Ok(physical), Ok(grown))
    ensures 0 < geo.blockSize && Appended(geo, node, logical, physical) == Ok(grown)
  {
    assert Opened(FillSeal, 0);
  }

  lemma EditableGrown(geo: Geometry, node: Inode, logical: nat, physical: nat, grown: Inode, end: nat)
    requires geo.Valid() && Editable(geo, node) && geo.DataBlock(physical) && !Owns(node.extents, physical)
    requires logical < geo.Blocks(end) && Appended(geo, node, logical, physical) == Ok(grown)
    ensures Editable(geo, Raised(grown, end))
  {
    assert Opened(RecordSeal, 0);
    AppendedWritable(geo, node, logical, physical, end);
  }

  lemma OwnsGrown(geo: Geometry, node: Inode, logical: nat, physical: nat, grown: Inode)
    requires geo.Valid() && Editable(geo, node) && geo.DataBlock(physical) && !Owns(node.extents, physical)
    requires Appended(geo, node, logical, physical) == Ok(grown)
    ensures forall b: int :: Owns(grown.extents, b) <==> b == physical || Owns(node.extents, b)
  {
    assert Opened(RecordSeal, 0);
    AppendedMap(geo, node, logical, physical);
  }

  lemma ExtendStep(geo: Geometry, disk: Disk, ex: seq<Extent>, ex': seq<Extent>, logical: nat, physical: nat,
                   within: nat, chunk: seq<byte>)
    requires geo.Valid() && Shaped(geo, disk) && Structured(geo, ex) && within + |chunk| <= geo.blockSize
    requires Lookup(ex, logical) == 0 && geo.DataBlock(physical) && !Owns(ex, physical) && physical < |disk|
    requires MapsOneMore(ex, ex', logical, physical)
    ensures CellsOverlaid(geo.blockSize, disk, ex,
            disk[physical := Spliced(seq(geo.blockSize, _ => 0), within, chunk)], ex',
                          logical, within, chunk)
  {
    var zeros: seq<byte> := seq(geo.blockSize, _ => 0);
    var block := Spliced(zeros, within, chunk);
    Extended(geo, disk, ex, ex', logical, physical, block);
    SplicedOverlays(geo.blockSize, disk, ex, disk[physical := block], ex', zeros, logical, within, chunk);
  }

  /** A record that `writable` accepts. */
  ghost predicate Editable(geo: Geometry, node: Inode)
    requires geo.Valid()
  {
    forall k :: Opened(RecordSeal, k) ==> Writable(geo, node)
  }

  /** The chunk appears in the file, and nothing else of it changes. */
  ghost predicate Wrote(bs: nat, v: Volume, w: Volume, ino: nat, logical: nat, within: nat, chunk: seq<byte>) {
    && ino in v.inodes && ino in w.inodes
    && CellsOverlaid(bs, v.disk, v.inodes[ino].extents, w.disk, w.inodes[ino].extents, logical, within, chunk)
  }

  lemma MappedBlock(geo: Geometry, v: Volume, ino: nat, logical: nat)
    requires SoundVolume(geo, v) && ino in v.inodes && Lookup(v.inodes[ino].extents, logical) != 0
    ensures Lookup(v.inodes[ino].extents, logical) < |v.disk|
    ensures Owns(v.inodes[ino].extents, Lookup(v.inodes[ino].extents, logical))
  {
    SoundFile(geo, v, ino);
    LookupOwned(geo, v.inodes[ino].extents, logical);
  }

  lemma RewriteDone(geo: Geometry, v: Volume, w: Volume, ino: nat, logical: nat, within: nat, chunk: seq<byte>,
                    end: nat)
    requires SoundVolume(geo, v) && ino in v.inodes && Editable(geo, v.inodes[ino])
    requires within + |chunk| <= geo.blockSize
    requires var physical := Lookup(v.inodes[ino].extents, logical);
             && 0 < physical < |v.disk|
             && w.disk == v.disk[physical := Spliced(v.disk[physical], within, chunk)]
    requires w.pool == v.pool && w.inodes == v.inodes[ino := Raised(v.inodes[ino], end)]
    ensures SoundVolume(geo, w) && Editable(geo, w.inodes[ino])
    ensures Wrote(geo.blockSize, v, w, ino, logical, within, chunk) && OthersKept(v, w, ino)
  {
    var physical := Lookup(v.inodes[ino].extents, logical);
    var block := w.disk[physical];
    VolumeRewritten(geo, v, ino, w.inodes[ino], physical, block);
    assert w == Volume(v.disk[physical := block], v.pool, v.inodes[ino := w.inodes[ino]]);
    MappedBlock(geo, v, ino, logical);
    OthersKeptBy(geo, v, w, ino, physical);
    SoundFile(geo, v, ino);
    RewriteStep(geo, v.disk, v.inodes[ino].extents, logical, within, chunk);
    RaisedEditable(geo, v.inodes[ino], end);
  }

  /** Saving a record that only grew its size after its block was written. */
  lemma SaveDone(geo: Geometry, v: Volume, w: Volume, u: Volume, ino: nat, end: nat)
    requires OthersKept(v, w, ino)
    requires SoundVolume(geo, w) && ino in w.inodes && Editable(geo, w.inodes[ino])
    requires u == Volume(w.disk, w.pool, w.inodes[ino := Raised(w.inodes[ino], end)])
    ensures SoundVolume(geo, u) && Editable(geo, u.inodes[ino]) && OthersKept(v, u, ino)
  {
    var node := Raised(w.inodes[ino], end);
    var disk := w.disk;
    assert disk[0 := disk[0]] == disk;
    VolumeRewritten(geo, w, ino, node, 0, disk[0]);
    RaisedEditable(geo, w.inodes[ino], end);
  }

  lemma RaisedEditable(geo: Geometry, node: Inode, end: nat)
    requires geo.Valid() && Editable(geo, node)
    ensures Editable(geo, Raised(node, end))
  {
    assert Opened(RecordSeal, 0);
    RaisedWritable(geo, node, end);
  }

  lemma RewriteStep(geo: Geometry, disk: Disk, ex: seq<Extent>, logical: nat, within: nat, chunk: seq<byte>)
    requires geo.Valid() && Shaped(geo, disk) && Structured(geo, ex) && within + |chunk| <= geo.blockSize
    requires 0 < Lookup(ex, logical) < |disk|
    ensures var physical := Lookup(ex, logical);
            CellsOverlaid(geo.blockSize, disk, ex, disk[physical := Spliced(disk[physical], within, chunk)], ex,
                logical, within, chunk)
  {
    var physical := Lookup(ex, logical);
    var block := Spliced(disk[physical], within, chunk);
    Rewritten(geo, disk, ex, logical, block);
    SplicedOverlays(geo.blockSize, disk, ex, disk[physical := block], ex, disk[physical], logical, within, chunk);
  }

  /** The pool with one group counter and the superblock counter moved by `delta`. */
  function Counted(p: Pool, group: nat, delta: int): Pool
    requires group < |p.groupFree| && 0 <= p.groupFree[group] + delta && 0 <= p.superFree + delta
  {
    p.(groupFree := p.groupFree[group := p.groupFree[group] + delta], superFree := p.superFree + delta)
  }

  /** The first bit a search past `after` may return. */
  function SearchFrom(p: Pool, after: nat): (i: nat)
    requires p.base <= p.first <= p.base + |p.used|
    ensures p.Start() <= i <= |p.used|
  {
    if after < p.first then p.Start() else Min(after + 1 - p.base, |p.used|)
  }

  function NextFree(p: Pool, after: nat): Result<nat>
    requires p.base <= p.first <= p.base + |p.used|
  {
    var i := FirstFree(p.used, SearchFrom(p, after));
    if i == |p.used| then Err(NoMemory) else Ok(p.base + i)
  }

  function LowestFree(p: Pool): Result<nat>
    requires p.base <= p.first <= p.base + |p.used|
  {
    var i := FirstFree(p.used, p.Start());
    if i == |p.used| then Err(NoMemory) else Ok(p.base + i)
  }

  /** `index` is the lowest clear bit of `group` at or after `from`, or the group's end. */
  ghost predicate Scanned(p: Pool, group: nat, from: nat, index: nat) {
    && p.Low(group) <= index <= p.High(group)
    && (index < p.High(group) ==> from <= index && !p.used[index])
    && (forall k :: p.Low(group) <= k < index && from <= k ==> p.used[k])
  }

  /** The bit loop of a search: the lowest clear bit of `group` at or after `from`, or the group's end. */
  method ScanGroup(p: Pool, group: nat, from: nat) returns (index: nat)
    requires p.Tiled() && group < |p.groupFree|
    ensures Scanned(p, group, from, index)
  {
    GroupBounds(p, group);
    var low := p.Low(group);
    var bit := 0;
    while bit < p.per && low + bit < |p.used|
      invariant 0 <= bit <= p.per && low + bit <= |p.used|
      invariant forall k :: low <= k < low + bit && from <= k ==> p.used[k]
    {
      if from <= low + bit && !p.used[low + bit] {
        return low + bit;
      }
      bit := bit + 1;
    }
    return low + bit;
  }

  method FindPosition(ex: seq<Extent>, logical: nat) returns (position: nat)
    ensures position == Position(ex, logical)
  {
    position := 0;
    while position < |ex| && ex[position].start < logical
      invariant position <= |ex|
      invariant Position(ex, logical) == position + Position(ex[position..], logical)
    {
      assert ex[position..][1..] == ex[position + 1..];
      position := position + 1;
    }
  }

  /** `append` after its check: find the slot, then merge into a neighbour or shift the rest up. */
  method Place(geo: Geometry, node: Inode, logical: nat, physical: nat) returns (r: Result<Inode>)
    requires geo.Valid()
    ensures r == Appended(geo, node, logical, physical)
  {
    var ex := node.extents;
    var position := FindPosition(ex, logical);
    if position < |ex| && ex[position].start == logical {
      return Err(IoError);
    }
    var sectors := node.sectors + geo.SectorsPerBlock();
    if position > 0 {
      var previous := ex[position - 1];
      if logical < previous.End() {
        return Err(IoError);
      }
      if logical == previous.End() && physical == previous.physical + previous.Length() &&
          previous.Length() < MAX_PLAIN {
        return Ok(node.(extents := ex[position - 1 := previous.(count := previous.Length() + 1)], sectors := sectors));
      }
    }
    if position < |ex| {
      var next := ex[position];
      if logical + 1 == next.start && physical + 1 == next.physical && next.Length() < MAX_PLAIN {
        return Ok(node.(extents := ex[position := Extent(logical, next.Length() + 1, physical)], sectors := sectors));
      }
    }
    if |ex| >= SLOTS {
      return Err(Overflow);
    }
    var shifted := ShiftIn(ex, position, Extent(logical, 1, physical));
    return Ok(node.(extents := shifted, sectors := sectors));
  }

  /** The shift loop of `append`: later entries move up one slot to make room at `position`. */
  method ShiftIn(ex: seq<Extent>, position: nat, entry: Extent) returns (slots: seq<Extent>)
    requires position <= |ex|
    ensures slots == Inserted(ex, position, entry)
  {
    slots := ex + [entry];
    var i := |ex|;
    while i > position
      invariant position <= i <= |ex|
      invariant |slots| == |ex| + 1
      invariant forall k :: 0 <= k < i ==> slots[k] == ex[k]
      invariant forall k :: i < k <= |ex| ==> slots[k] == ex[k - 1]
    {
      slots := slots[i := slots[i - 1]];
      i := i - 1;
    }
    slots := slots[position := entry];
    InsertedAt(ex, position, entry);
  }

  /** The second loop of `writable`: order, placement, overlap and the sector count. */
  method CheckExtents(layout: seq<Group>, per: nat, geo: Geometry, node: Inode) returns (s: Status)
    requires geo.Valid() && Describes(layout, per, geo) && Plain(node.extents)
    ensures s == Success <==>
            && Structured(geo, node.extents)
            && EndsBy(node.extents, geo.Blocks(node.size))
            && node.sectors == Times(Total(node.extents), geo.SectorsPerBlock())
    ensures s == IoError ==>
            !Structured(geo, node.extents) || node.sectors != Times(Total(node.extents), geo.SectorsPerBlock())
    ensures s in {Success, Unsupported, IoError}
  {
    var ex := node.extents;
    var previousEnd, total := 0, 0;
    for i := 0 to |ex|
      invariant Structured(geo, ex[..i]) && EndsBy(ex[..i], geo.Blocks(node.size))
      invariant previousEnd == if i == 0 then 0 else ex[i - 1].End()
      invariant total == Total(ex[..i])
    {
      s := CheckExtent(layout, per, geo, ex, i, previousEnd, geo.Blocks(node.size));
      if s != Success {
        return;
      }
      CheckedMore(geo, ex, i, geo.Blocks(node.size));
      previousEnd := ex[i].End();
      total := total + ex[i].count;
    }
    assert ex[..|ex|] == ex;
    return if Times(total, geo.SectorsPerBlock()) != node.sectors then IoError else Success;
  }

  /** One turn of that loop. */
  method CheckExtent(layout: seq<Group>, per: nat, geo: Geometry, ex: seq<Extent>, i: nat, previousEnd: nat, limit: nat)
    returns (s: Status)
    requires Describes(layout, per, geo) && Plain(ex) && i < |ex|
    requires previousEnd == if i == 0 then 0 else ex[i - 1].End()
    ensures s == Success ==>
            && previousEnd <= ex[i].start
            && ex[i].End() <= limit
            && geo.DataRange(ex[i].physical, ex[i].Length())
            && (forall k :: 0 <= k < i ==> Separate(ex[k], ex[i]))
    ensures s == IoError ==> !Structured(geo, ex)
    ensures s == Unsupported ==> !EndsBy(ex, limit)
    ensures s in {Success, Unsupported, IoError}
  {
    var e := ex[i];
    if e.count == 0 || e.start < previousEnd || e.physical + e.count > geo.blocks {
      assert i > 0 ==> (Sorted(ex) ==> ex[i - 1].End() <= ex[i].start);
      assert AllData(geo, ex) ==> geo.DataRange(e.physical, e.Length());
      return IoError;
    }
    if e.End() > limit {
      return Unsupported;
    }
    var clear := DataRange(layout, per, geo, e.physical, e.count);
    if !clear {
      assert !AllData(geo, ex);
      return IoError;
    }
    for j := 0 to i
      invariant forall k :: 0 <= k < j ==> Separate(ex[k], e)
    {
      if e.physical < ex[j].physical + ex[j].count && ex[j].physical < e.physical + e.count {
        assert !Separate(ex[j], ex[i]);
        return IoError;
      }
    }
    return Success;
  }

  lemma CheckedMore(geo: Geometry, ex: seq<Extent>, i: nat, limit: nat)
    requires i < |ex| && Plain(ex) && Structured(geo, ex[..i]) && EndsBy(ex[..i], limit) && ex[i].End() <= limit
    requires i > 0 ==> ex[i - 1].End() <= ex[i].start
    requires geo.DataRange(ex[i].physical, ex[i].Length()) && forall k :: 0 <= k < i ==> Separate(ex[k], ex[i])
    ensures Structured(geo, ex[..i + 1]) && EndsBy(ex[..i + 1], limit)
    ensures Total(ex[..i + 1]) == Total(ex[..i]) + ex[i].count
  {
    var front := ex[..i];
    assert forall k :: 0 <= k < i ==> front[k] == ex[k];
    StructuredPush(geo, front, ex[i]);
    assert ex[..i + 1] == front + [ex[i]];
    TotalConcat(front, [ex[i]]);
  }

  lemma StructuredPush(geo: Geometry, ex: seq<Extent>, e: Extent)
    requires Structured(geo, ex) && geo.DataRange(e.physical, e.Length())
    requires ex != [] ==> ex[|ex| - 1].End() <= e.start
    requires forall k :: 0 <= k < |ex| ==> Separate(ex[k], e)
    ensures Structured(geo, ex + [e])
  {
    forall k | 0 <= k < |ex| ensures ex[k].End() <= e.start {
      assert k < |ex| - 1 ==> ex[k].End() <= ex[|ex| - 1].start;
    }
  }

  /** What one block holds of the stream. */
  lemma ChunkShown(geo: Geometry, disk: Disk, ex: seq<Extent>, position: nat, buffer: seq<byte>, out: seq<byte>)
    requires 0 < geo.blockSize == |buffer| && Remainder(position, geo.blockSize) + |out| <= geo.blockSize
    requires out == buffer[Remainder(position, geo.blockSize)..Remainder(position, geo.blockSize) + |out|]
    requires forall w :: 0 <= w < geo.blockSize ==> buffer[w] == Cell(disk, ex, Quotient(position, geo.blockSize), w)
    ensures forall k :: 0 <= k < |out| ==> out[k] == StreamByte(geo, disk, ex, position + k)
  {
    forall k | 0 <= k < |out| ensures out[k] == StreamByte(geo, disk, ex, position + k) {
      ChunkByte(geo, disk, ex, position, |out|, k);
      assert out[k] == buffer[Remainder(position, geo.blockSize) + k];
    }
  }

  lemma ChunkByte(geo: Geometry, disk: Disk, ex: seq<Extent>, position: nat, length: nat, k: nat)
    requires 0 < geo.blockSize && Remainder(position, geo.blockSize) + length <= geo.blockSize && k < length
    ensures StreamByte(geo, disk, ex, position + k) ==
            Cell(disk, ex, Quotient(position, geo.blockSize), Remainder(position, geo.blockSize) + k)
  {
    InBlock(geo.blockSize, position, length, position + k);
  }

  // ---------------------------------------------------------------------
  // Whole runs

  /** What a call does, as the contracts of WriteActive and TruncateActive promise it. */
  datatype Call = WriteCall(ino: nat, offset: nat, input: seq<byte>) | TruncateCall(ino: nat, size: nat)

  ghost predicate Did(geo: Geometry, v: Volume, call: Call, w: Volume) {
    && SoundVolume(geo, v) && SoundVolume(geo, w)
    && OthersKept(v, w, call.ino)
    && match call
       case WriteCall(ino, offset, input) => ino in v.inodes ==> Overlays(geo, v, w, ino, offset, input)
       case TruncateCall(ino, size) => ino in v.inodes ==> ResizedTo(geo, v, w, ino, size)
  }

  /** What a call with this status has done: all of it, or a prefix of a write and nothing of a truncate. */
  ghost predicate Effect(call: Call, s: Status, done: Call) {
    if s == Success then done == call
    else done.WriteCall? && done.ino == call.ino && (done.input != [] ==>
           call.WriteCall? && done.offset == call.offset && done.input <= call.input)
  }

  /** What the calls on one inode make of its contents. */
  function Replayed(contents: seq<byte>, calls: seq<Call>, ino: nat): seq<byte> {
    if calls == [] then contents
    else
      var before := Replayed(contents, calls[..|calls| - 1], ino);
      match calls[|calls| - 1]
      case WriteCall(j, offset, input) => if j == ino then Overlay(before, offset, input) else before
      case TruncateCall(j, size) => if j == ino then Resized(before, size) else before
  }

  /** An operation on one inode leaves the contents of every other as they were. */
  lemma OtherContents(geo: Geometry, v: Volume, w: Volume, ino: nat, j: nat)
    requires SoundVolume(geo, v) && OthersKept(v, w, ino) && j in v.inodes && j != ino
    ensures j in w.inodes && Contents(geo, w.disk, w.inodes[j]) == Contents(geo, v.disk, v.inodes[j])
  {
    assert Opened(OthersSeal, 0);
    SoundFile(geo, v, j);
    var ex := v.inodes[j].extents;
    forall i: nat ensures StreamByte(geo, w.disk, ex, i) == StreamByte(geo, v.disk, ex, i) {
      CellUnaffected(geo, v.disk, w.disk, ex, Quotient(i, geo.blockSize), Remainder(i, geo.blockSize));
    }
  }

  /**
   Over any run of successful writes and truncates, in any mix over any files,
   every file reads as the overlay of the calls that named it.
   */
  lemma {:induction false} RunContents(geo: Geometry, volumes: seq<Volume>, calls: seq<Call>, ino: nat)
    requires 0 < geo.blockSize && |volumes| == |calls| + 1 && ino in volumes[0].inodes
    requires forall i :: 0 <= i < |calls| ==> Did(geo, volumes[i], calls[i], volumes[i + 1])
    ensures var last := volumes[|calls|];
            && ino in last.inodes
            && Contents(geo, last.disk, last.inodes[ino]) ==
               Replayed(Contents(geo, volumes[0].disk, volumes[0].inodes[ino]), calls, ino)
    decreases |calls|
  {
    if calls != [] {
      var n := |calls| - 1;
      RunContents(geo, volumes[..n + 1], calls[..n], ino);
      assert Did(geo, volumes[n], calls[n], volumes[n + 1]);
      if calls[n].ino != ino {
        OtherContents(geo, volumes[n], volumes[n + 1], calls[n].ino, ino);
      }
    }
  }
}
