/**
 File contents on top of the block map, and the ownership invariant that keeps
 files apart (src/fs/ext4_fs.cpp, `read_active`, `write_active`, `resize`), as values.

 A file is read as an endless stream of bytes: mapped blocks show the disk,
 everything else is zero. The file's contents are the first `size` bytes.
 */
module Ext4Contents {
  import opened Outcomes
  import opened Arithmetic
  import opened Seals
  import opened Ext4Extents
  import opened Ext4Pools

  type Disk = seq<seq<byte>>

  ghost predicate Shaped(geo: Geometry, disk: Disk) {
    && |disk| == geo.blocks
    && forall b :: 0 <= b < |disk| ==> |disk[b]| == geo.blockSize
  }

  /** Byte `w` of logical block `l`: the disk where the block is mapped, zero elsewhere. */
  function Cell(disk: Disk, ex: seq<Extent>, l: nat, w: nat): byte {
    var physical := Lookup(ex, l);
    if physical == 0 || physical >= |disk| || w >= |disk[physical]| then 0 else disk[physical][w]
  }

  /** Byte `i` of the stream. */
  function StreamByte(geo: Geometry, disk: Disk, ex: seq<Extent>, i: nat): byte
    requires 0 < geo.blockSize
  {
    Cell(disk, ex, Quotient(i, geo.blockSize), Remainder(i, geo.blockSize))
  }

  function Contents(geo: Geometry, disk: Disk, node: Inode): seq<byte>
    requires 0 < geo.blockSize
  {
    seq(node.size, i requires 0 <= i => StreamByte(geo, disk, node.extents, i))
  }

  /** `before` with `input` laid over it at `offset`, zero-filled in between. */
  function Overlay(before: seq<byte>, offset: nat, input: seq<byte>): seq<byte> {
    var size := if input == [] then |before| else Max(|before|, offset + |input|);
    seq(size, i requires 0 <= i =>
      if offset <= i < offset + |input| then input[i - offset] else if i < |before| then before[i] else 0)
  }

  /** `before` cut or zero-extended to `size` bytes. */
  function Resized(before: seq<byte>, size: nat): seq<byte> {
    seq(size, i requires 0 <= i => if i < |before| then before[i] else 0)
  }

  // ---------------------------------------------------------------------
  // Ownership

  ghost predicate Owned(inodes: map<nat, Inode>, b: int) {
    exists ino :: ino in inodes && Owns(inodes[ino].extents, b)
  }

  ghost predicate PoolFits(geo: Geometry, pool: Pool) {
    && pool.Consistent()
    && pool.base == pool.first == geo.firstData
    && pool.base + |pool.used| == geo.blocks
  }

  /** The decoded state of a volume. */
  datatype Volume = Volume(disk: Disk, pool: Pool, inodes: map<nat, Inode>)

  /**
   A sound volume: records are sound, no two inodes share a block, and the
   bitmap marks exactly the metadata blocks and the owned blocks.
   */
  ghost predicate SoundVolume(geo: Geometry, v: Volume) {
    && geo.Valid()
    && Shaped(geo, v.disk)
    && forall k :: Opened(VolumeSeal, k) ==> SoundParts(geo, v)
  }

  ghost predicate SoundParts(geo: Geometry, v: Volume)
    requires geo.Valid()
  {
    && PoolFits(geo, v.pool)
    && (forall ino :: ino in v.inodes ==> Sound(geo, v.inodes[ino]))
    && Apart(v.inodes)
    && Marked(geo, v.pool, v.inodes)
  }

  ghost predicate Apart(inodes: map<nat, Inode>) {
    forall i, j, b: int :: i in inodes && j in inodes && Owns(inodes[i].extents, b) && Owns(inodes[j].extents, b) ==>
        i == j
  }

  ghost predicate Marked(geo: Geometry, pool: Pool, inodes: map<nat, Inode>) {
    forall b :: geo.firstData <= b < geo.blocks ==> (pool.Free(b) <==> geo.DataBlock(b) && !Owned(inodes, b))
  }

  /** What reading and writing one file needs to know of a sound volume. */
  lemma SoundFile(geo: Geometry, v: Volume, ino: nat)
    requires SoundVolume(geo, v) && ino in v.inodes
    ensures geo.Valid() && Shaped(geo, v.disk) && Sound(geo, v.inodes[ino])
  {
    assert Opened(VolumeSeal, 0);
  }

  /** A block owned by a file is a data block whose bit is set. */
  lemma OwnedTaken(geo: Geometry, v: Volume, ino: nat, b: int)
    requires SoundVolume(geo, v) && ino in v.inodes && Owns(v.inodes[ino].extents, b)
    ensures geo.DataBlock(b) && 0 < b < |v.disk| && !v.pool.Free(b)
    ensures v.pool.base <= b < v.pool.base + |v.pool.used| && v.pool.used[b - v.pool.base]
  {
    assert Opened(VolumeSeal, 0);
    var ex := v.inodes[ino].extents;
    assert Sound(geo, v.inodes[ino]);
    var i :| 0 <= i < |ex| && ex[i].Owns(b);
    assert geo.DataRange(ex[i].physical, ex[i].Length());
    assert Owned(v.inodes, b);
  }

  lemma SameOwned(inodes: map<nat, Inode>, ino: nat, node: Inode, c: int)
    requires ino in inodes && node.extents == inodes[ino].extents
    ensures Owned(inodes[ino := node], c) <==> Owned(inodes, c)
  {
    var after := inodes[ino := node];
    if j :| j in inodes && Owns(inodes[j].extents, c) {
      assert Owns(after[j].extents, c);
    }
    if j :| j in after && Owns(after[j].extents, c) {
      assert Owns(inodes[j].extents, c);
    }
  }

  /** Rewriting a file's block and growing its size keeps the volume sound. */
  lemma VolumeRewritten(geo: Geometry, v: Volume, ino: nat, node: Inode, b: nat, data: seq<byte>)
    requires SoundVolume(geo, v) && ino in v.inodes
    requires node.extents == v.inodes[ino].extents && node.sectors == v.inodes[ino].sectors
    requires b < geo.blocks && |data| == geo.blockSize
    ensures SoundVolume(geo, Volume(v.disk[b := data], v.pool, v.inodes[ino := node]))
  {
    assert Opened(VolumeSeal, 0);
    forall c ensures Owned(v.inodes[ino := node], c) <==> Owned(v.inodes, c) {
      SameOwned(v.inodes, ino, node, c);
    }
  }

  lemma OwnedExtended(inodes: map<nat, Inode>, ino: nat, node: Inode, logical: nat, n: nat, c: int)
    requires ino in inodes && MapsOneMore(inodes[ino].extents, node.extents, logical, n)
    ensures Owned(inodes[ino := node], c) <==> c == n || Owned(inodes, c)
  {
    var after := inodes[ino := node];
    if c == n {
      assert Owns(after[ino].extents, c);
    }
    if j :| j in inodes && Owns(inodes[j].extents, c) {
      assert Owns(after[j].extents, c);
    }
    if j :| j in after && Owns(after[j].extents, c) {
      assert c != n ==> Owns(inodes[j].extents, c);
    }
  }

  lemma ApartExtended(inodes: map<nat, Inode>, ino: nat, node: Inode, logical: nat, n: nat)
    requires ino in inodes && MapsOneMore(inodes[ino].extents, node.extents, logical, n)
    requires Apart(inodes) && !Owned(inodes, n)
    ensures Apart(inodes[ino := node])
  {
    var after := inodes[ino := node];
    forall i, j, c: int | i in after && j in after && Owns(after[i].extents, c) && Owns(after[j].extents, c)
      ensures i == j
    {
      if c != n {
        assert Owns(inodes[i].extents, c) && Owns(inodes[j].extents, c);
      }
    }
  }

  /** Taking a free block for one file keeps the volume sound: no file shares it and its bit is set. */
  lemma VolumeExtended(geo: Geometry, v: Volume, pool: Pool, ino: nat, node: Inode, logical: nat, n: nat,
                       data: seq<byte>)
    requires SoundVolume(geo, v) && ino in v.inodes
    requires v.pool.Free(n) && Turned(v.pool, pool, n - v.pool.base, true)
    requires Sound(geo, node) && MapsOneMore(v.inodes[ino].extents, node.extents, logical, n)
    requires |data| == geo.blockSize
    ensures n < geo.blocks && SoundVolume(geo, Volume(v.disk[n := data], pool, v.inodes[ino := node]))
  {
    assert Opened(VolumeSeal, 0);
    MarkedExtended(geo, v, pool, ino, node, logical, n);
    ApartExtended(v.inodes, ino, node, logical, n);
  }

  lemma MarkedExtended(geo: Geometry, v: Volume, pool: Pool, ino: nat, node: Inode, logical: nat, n: nat)
    requires PoolFits(geo, v.pool) && Marked(geo, v.pool, v.inodes) && ino in v.inodes
    requires v.pool.Free(n) && Turned(v.pool, pool, n - v.pool.base, true)
    requires MapsOneMore(v.inodes[ino].extents, node.extents, logical, n)
    ensures Marked(geo, pool, v.inodes[ino := node])
  {
    forall b | geo.firstData <= b < geo.blocks
      ensures pool.Free(b) <==> geo.DataBlock(b) && !Owned(v.inodes[ino := node], b)
    {
      OwnedExtended(v.inodes, ino, node, logical, n, b);
    }
  }

  /** Nothing of any inode but `ino` differs: neither its record nor the blocks it owns. */
  ghost predicate OthersKept(v: Volume, w: Volume, ino: nat) {
    forall k :: Opened(OthersSeal, k) ==> OthersKeptOpened(v, w, ino)
  }

  ghost predicate OthersKeptOpened(v: Volume, w: Volume, ino: nat) {
    && |w.disk| == |v.disk|
    && (forall j :: j != ino ==> (j in w.inodes <==> j in v.inodes))
    && (forall j :: j != ino && j in v.inodes ==> w.inodes[j] == v.inodes[j])
    && (forall j, b :: j != ino && j in v.inodes && Owns(v.inodes[j].extents, b) && 0 <= b < |v.disk| ==>
         w.disk[b] == v.disk[b])
  }

  lemma OthersKeptChain(u: Volume, v: Volume, w: Volume, ino: nat)
    requires OthersKept(u, v, ino) && OthersKept(v, w, ino)
    ensures OthersKept(u, w, ino)
  {
    assert Opened(OthersSeal, 0);
  }

  /** Writes confined to blocks free before, or owned by the file itself, leave the others alone. */
  lemma OthersKeptBy(geo: Geometry, v: Volume, w: Volume, ino: nat, n: nat)
    requires SoundVolume(geo, v) && ino in v.inodes
    requires v.pool.Free(n) || Owns(v.inodes[ino].extents, n)
    requires ino in w.inodes && w.inodes == v.inodes[ino := w.inodes[ino]]
    requires |w.disk| == |v.disk| && forall b :: 0 <= b < |v.disk| && b != n ==> w.disk[b] == v.disk[b]
    ensures OthersKept(v, w, ino)
  {
    assert Opened(VolumeSeal, 0);
    forall j, b | j != ino && j in v.inodes && Owns(v.inodes[j].extents, b) && 0 <= b < |v.disk|
      ensures w.disk[b] == v.disk[b]
    {
      if b == n {
        OwnedTaken(geo, v, j, b);
      }
    }
  }

  /** Blocks outside a file's extents do not show in its stream. */
  lemma CellUnaffected(geo: Geometry, disk: Disk, disk': Disk, ex: seq<Extent>, l: nat, w: nat)
    requires geo.Valid() && Structured(geo, ex) && |disk| == |disk'|
    requires forall b :: 0 <= b < |disk| && Owns(ex, b) ==> disk'[b] == disk[b]
    ensures Cell(disk', ex, l, w) == Cell(disk, ex, l, w)
  {
    if Lookup(ex, l) != 0 {
      LookupOwned(geo, ex, l);
    }
  }

  // ---------------------------------------------------------------------
  // One block of a write

  /** The cells after a write are those before it, with block `logical` showing `block`. */
  ghost predicate BlockShown(disk: Disk, ex: seq<Extent>, disk': Disk, ex': seq<Extent>, logical: nat,
                             block: seq<byte>) {
    forall l: nat, w: nat :: w < |block| ==>
      Cell(disk', ex', l, w) == if l == logical then block[w] else Cell(disk, ex, l, w)
  }

  /** Rewriting a mapped block changes exactly that block of the stream. */
  lemma Rewritten(geo: Geometry, disk: Disk, ex: seq<Extent>, logical: nat, block: seq<byte>)
    requires geo.Valid() && Shaped(geo, disk) && Structured(geo, ex)
    requires Lookup(ex, logical) != 0 && |block| == geo.blockSize
    ensures Lookup(ex, logical) < |disk|
    ensures BlockShown(disk, ex, disk[Lookup(ex, logical) := block], ex, logical, block)
  {
    LookupOwned(geo, ex, logical);
    var physical := Lookup(ex, logical);
    forall l: nat, w: nat | w < |block|
      ensures Cell(disk[physical := block], ex, l, w) == if l == logical then block[w] else Cell(disk, ex, l, w)
    {
      if Lookup(ex, l) == physical {
        LookupInjective(geo, ex, l, logical);
      }
    }
  }

  /** Mapping a fresh block and writing it changes exactly that block of the stream. */
  lemma Extended(geo: Geometry, disk: Disk, ex: seq<Extent>, ex': seq<Extent>, logical: nat, physical: nat,
                 block: seq<byte>)
    requires geo.Valid() && Shaped(geo, disk) && Structured(geo, ex)
    requires geo.DataBlock(physical) && !Owns(ex, physical) && |block| == geo.blockSize
    requires MapsOneMore(ex, ex', logical, physical)
    ensures physical < |disk|
    ensures BlockShown(disk, ex, disk[physical := block], ex', logical, block)
  {
    forall l: nat, w: nat | w < |block|
      ensures Cell(disk[physical := block], ex', l, w) == if l == logical then block[w] else Cell(disk, ex, l, w)
    {
      if l != logical && Lookup(ex, l) != 0 {
        LookupOwned(geo, ex, l);
      }
    }
  }

  /** Replacing bytes `[within, within + |chunk|)` of a block. */
  function Spliced(block: seq<byte>, within: nat, chunk: seq<byte>): seq<byte>
    requires within + |chunk| <= |block|
  {
    block[..within] + chunk + block[within + |chunk|..]
  }

  /** The cells after a write are those before it, with `chunk` laid at byte `within` of block `logical`. */
  ghost predicate CellsOverlaid(bs: nat, disk: Disk, ex: seq<Extent>, disk': Disk, ex': seq<Extent>,
                                logical: nat, within: nat, chunk: seq<byte>)
  {
    forall l: nat, w: nat :: w < bs ==>
      Cell(disk', ex', l, w) ==
      if l == logical && within <= w < within + |chunk| then chunk[w - within] else Cell(disk, ex, l, w)
  }

  /** Showing a block spliced from what it showed before overlays exactly the chunk. */
  lemma SplicedOverlays(bs: nat, disk: Disk, ex: seq<Extent>, disk': Disk, ex': seq<Extent>,
                        base: seq<byte>, logical: nat, within: nat, chunk: seq<byte>)
    requires |base| == bs && within + |chunk| <= bs
    requires forall w :: 0 <= w < bs ==> base[w] == Cell(disk, ex, logical, w)
    requires BlockShown(disk, ex, disk', ex', logical, Spliced(base, within, chunk))
    ensures CellsOverlaid(bs, disk, ex, disk', ex', logical, within, chunk)
  {
    var block := Spliced(base, within, chunk);
    assert |block| == bs;
    assert forall w :: 0 <= w < bs ==>
        block[w] == if within <= w < within + |chunk| then chunk[w - within] else base[w];
  }

  /** The stream after a write is the one before it with `chunk` laid at `position`. */
  ghost predicate StreamOverlaid(geo: Geometry, disk: Disk, ex: seq<Extent>, disk': Disk, ex': seq<Extent>,
                                 position: nat, chunk: seq<byte>)
    requires 0 < geo.blockSize
  {
    forall i: nat :: StreamByte(geo, disk', ex', i) ==
      if position <= i < position + |chunk| then chunk[i - position] else StreamByte(geo, disk, ex, i)
  }

  lemma CellsToStream(geo: Geometry, disk: Disk, ex: seq<Extent>, disk': Disk, ex': seq<Extent>, position: nat,
                      chunk: seq<byte>)
    requires 0 < geo.blockSize && Remainder(position, geo.blockSize) + |chunk| <= geo.blockSize
    requires CellsOverlaid(geo.blockSize, disk, ex, disk', ex',
                           Quotient(position, geo.blockSize), Remainder(position, geo.blockSize), chunk)
    ensures StreamOverlaid(geo, disk, ex, disk', ex', position, chunk)
  {
    forall i: nat
      ensures StreamByte(geo, disk', ex', i) ==
              if position <= i < position + |chunk| then chunk[i - position] else StreamByte(geo, disk, ex, i)
    {
      InBlock(geo.blockSize, position, |chunk|, i);
    }
  }

  /** Consecutive chunks overlay the stream like their concatenation. */
  lemma StreamOverlaidTwice(geo: Geometry, a: Disk, x: seq<Extent>, b: Disk, y: seq<Extent>, c: Disk, z: seq<Extent>,
                            offset: nat, first: seq<byte>, second: seq<byte>)
    requires 0 < geo.blockSize
    requires StreamOverlaid(geo, a, x, b, y, offset, first)
    requires StreamOverlaid(geo, b, y, c, z, offset + |first|, second)
    ensures StreamOverlaid(geo, a, x, c, z, offset, first + second)
  {
  }

  // ---------------------------------------------------------------------
  // The end of a file

  /** Nothing but zeros past the end of the file. */
  ghost predicate TailClear(geo: Geometry, disk: Disk, node: Inode)
    requires 0 < geo.blockSize
  {
    forall i: nat :: node.size <= i ==> StreamByte(geo, disk, node.extents, i) == 0
  }

  /** Bytes past the end lie in the last, partial block or in blocks past the extents' limit. */
  lemma PastEnd(geo: Geometry, size: nat, i: nat)
    requires geo.Valid() && size <= i
    ensures Remainder(size, geo.blockSize) == 0 ==> geo.Blocks(size) <= Quotient(i, geo.blockSize)
    ensures Quotient(i, geo.blockSize) != Quotient(size, geo.blockSize) ==>
            geo.Blocks(size) <= Quotient(i, geo.blockSize)
    ensures Quotient(i, geo.blockSize) == Quotient(size, geo.blockSize) ==>
              Remainder(size, geo.blockSize) <= Remainder(i, geo.blockSize)
  {
    PastEndAt(geo.blockSize, size, i);
  }

  lemma {:induction false} PastEndAt(bs: nat, size: nat, i: nat)
    requires 0 < bs && size <= i
    ensures Remainder(size, bs) == 0 ==> Quotient(size + bs - 1, bs) <= Quotient(i, bs)
    ensures Quotient(i, bs) != Quotient(size, bs) ==> Quotient(size + bs - 1, bs) <= Quotient(i, bs)
    ensures Quotient(i, bs) == Quotient(size, bs) ==> Remainder(size, bs) <= Remainder(i, bs)
  {
    if size >= bs {
      PastEndAt(bs, size - bs, i - bs);
    }
  }

  lemma UnmappedPast(ex: seq<Extent>, limit: nat, l: nat)
    requires EndsBy(ex, limit) && limit <= l
    ensures Lookup(ex, l) == 0
  {
    LookupNone(ex, l);
  }

  /** With the last block whole or unmapped, the tail is clear already. */
  lemma TailClearAlready(geo: Geometry, disk: Disk, node: Inode)
    requires geo.Valid() && EndsBy(node.extents, geo.Blocks(node.size))
    requires Remainder(node.size, geo.blockSize) == 0 || Lookup(node.extents, Quotient(node.size, geo.blockSize)) == 0
    ensures TailClear(geo, disk, node)
  {
    forall i: nat | node.size <= i ensures StreamByte(geo, disk, node.extents, i) == 0 {
      PastEnd(geo, node.size, i);
      if geo.Blocks(node.size) <= Quotient(i, geo.blockSize) {
        UnmappedPast(node.extents, geo.Blocks(node.size), Quotient(i, geo.blockSize));
      }
    }
  }

  /** Zeroing the last, partial block from the end of file on clears the tail and nothing else. */
  lemma TailCleared(geo: Geometry, disk: Disk, disk': Disk, node: Inode, zeros: seq<byte>)
    requires geo.Valid() && EndsBy(node.extents, geo.Blocks(node.size))
    requires Remainder(node.size, geo.blockSize) + |zeros| == geo.blockSize
    requires forall k :: 0 <= k < |zeros| ==> zeros[k] == 0
    requires CellsOverlaid(geo.blockSize, disk, node.extents, disk', node.extents,
                           Quotient(node.size, geo.blockSize), Remainder(node.size, geo.blockSize), zeros)
    ensures TailClear(geo, disk', node)
    ensures forall i: nat :: i < node.size ==>
            StreamByte(geo, disk', node.extents, i) == StreamByte(geo, disk, node.extents, i)
  {
    CellsToStream(geo, disk, node.extents, disk', node.extents, node.size, zeros);
    forall i: nat | node.size <= i ensures StreamByte(geo, disk', node.extents, i) == 0 {
      PastEnd(geo, node.size, i);
      if geo.Blocks(node.size) <= Quotient(i, geo.blockSize) {
        UnmappedPast(node.extents, geo.Blocks(node.size), Quotient(i, geo.blockSize));
      }
    }
  }

  // ---------------------------------------------------------------------
  // Whole contents

  /** Overlaying the stream of a file whose gap before `offset` is clear overlays its contents. */
  lemma ContentsOverlaid(geo: Geometry, disk: Disk, node: Inode, disk': Disk, node': Inode, offset: nat,
                         input: seq<byte>)
    requires 0 < geo.blockSize && input != []
    requires StreamOverlaid(geo, disk, node.extents, disk', node'.extents, offset, input)
    requires node'.size == Max(node.size, offset + |input|)
    requires node.size < offset ==> TailClear(geo, disk, node)
    ensures Contents(geo, disk', node') == Overlay(Contents(geo, disk, node), offset, input)
  {
  }

  /** Zeros past the end make growing the size a zero extension. */
  lemma ContentsGrown(geo: Geometry, disk: Disk, disk': Disk, node: Inode, node': Inode)
    requires 0 < geo.blockSize && node'.extents == node.extents && node.size <= node'.size
    requires TailClear(geo, disk', node)
    requires forall i: nat :: i < node.size ==>
              StreamByte(geo, disk', node.extents, i) == StreamByte(geo, disk, node.extents, i)
    ensures Contents(geo, disk', node') == Resized(Contents(geo, disk, node), node'.size)
  {
  }

  /** The same bytes below a smaller size make a prefix. */
  lemma ContentsCut(geo: Geometry, disk: Disk, disk': Disk, node: Inode, node': Inode)
    requires 0 < geo.blockSize && node'.size <= node.size
    requires forall i: nat :: i < node'.size ==>
              StreamByte(geo, disk', node'.extents, i) == StreamByte(geo, disk, node.extents, i)
    ensures Contents(geo, disk', node') == Resized(Contents(geo, disk, node), node'.size)
  {
  }

  // ---------------------------------------------------------------------
  // Dropping blocks

  /** Block `b` is mapped at or past logical block `keep`. */
  ghost predicate Beyond(ex: seq<Extent>, keep: nat, b: int) {
    exists k :: 0 <= k < |ex| && ex[k].Owns(b) && keep <= ex[k].start + (b - ex[k].physical)
  }

  /** `after` is `before` with exactly the bits of the blocks beyond `keep` cleared. */
  ghost predicate Released(before: Pool, after: Pool, ex: seq<Extent>, keep: nat) {
    forall k :: Opened(TrimSeal, k) ==> ReleasedOpened(before, after, ex, keep)
  }

  ghost predicate ReleasedOpened(before: Pool, after: Pool, ex: seq<Extent>, keep: nat) {
    && after.Consistent() && before.base == after.base && before.first == after.first && before.per == after.per
    && |after.used| == |before.used|
    && forall b :: before.base <= b < before.base + |before.used| ==>
         (after.Free(b) <==> before.Free(b) || Beyond(ex, keep, b))
  }

  /** A file owns what survives a cut and loses what lies beyond it. */
  lemma ClippedOrBeyond(geo: Geometry, ex: seq<Extent>, keep: nat, b: int)
    requires Structured(geo, ex) && Plain(ex)
    ensures Owns(Clipped(ex, keep), b) <==> Owns(ex, b) && !Beyond(ex, keep, b)
  {
    ClippedShape(ex, keep);
    ClippedOwned(ex, Clipped(ex, keep), keep, b);
    if i :| 0 <= i < |ex| && ex[i].Owns(b) {
      OneOwner(geo, ex, i, b);
    }
  }

  lemma OneOwner(geo: Geometry, ex: seq<Extent>, i: nat, b: int)
    requires Structured(geo, ex) && Plain(ex) && i < |ex| && ex[i].Owns(b)
    ensures forall k :: 0 <= k < |ex| && ex[k].Owns(b) ==> k == i
  {
    forall k | 0 <= k < |ex| && k != i ensures !ex[k].Owns(b) {
      assert if k < i then Separate(ex[k], ex[i]) else Separate(ex[i], ex[k]);
    }
  }

  lemma OwnedClipped(geo: Geometry, inodes: map<nat, Inode>, ino: nat, node: Inode, keep: nat, c: int)
    requires ino in inodes && Structured(geo, inodes[ino].extents) && Plain(inodes[ino].extents) && Apart(inodes)
    requires node.extents == Clipped(inodes[ino].extents, keep)
    ensures Owned(inodes[ino := node], c) <==> Owned(inodes, c) && !Beyond(inodes[ino].extents, keep, c)
  {
    var ex := inodes[ino].extents;
    var after := inodes[ino := node];
    ClippedOrBeyond(geo, ex, keep, c);
    if j :| j in after && Owns(after[j].extents, c) {
      assert Owns(inodes[j].extents, c);
    }
    if Owned(inodes, c) && !Beyond(ex, keep, c) {
      var j :| j in inodes && Owns(inodes[j].extents, c);
      assert Owns(after[j].extents, c);
    }
  }

  lemma ApartClipped(geo: Geometry, inodes: map<nat, Inode>, ino: nat, node: Inode, keep: nat)
    requires ino in inodes && Structured(geo, inodes[ino].extents) && Plain(inodes[ino].extents) && Apart(inodes)
    requires node.extents == Clipped(inodes[ino].extents, keep)
    ensures Apart(inodes[ino := node])
  {
    var after := inodes[ino := node];
    forall i, j, c: int | i in after && j in after && Owns(after[i].extents, c) && Owns(after[j].extents, c)
      ensures i == j
    {
      ClippedOrBeyond(geo, inodes[ino].extents, keep, c);
      assert Owns(inodes[i].extents, c) && Owns(inodes[j].extents, c);
    }
  }

  /** Cutting a file and releasing exactly what it lost keeps the volume sound. */
  lemma VolumeClipped(geo: Geometry, v: Volume, pool: Pool, ino: nat, node: Inode, keep: nat)
    requires SoundVolume(geo, v) && ino in v.inodes && Plain(v.inodes[ino].extents)
    requires Sound(geo, node) && node.extents == Clipped(v.inodes[ino].extents, keep)
    requires Released(v.pool, pool, v.inodes[ino].extents, keep)
    ensures SoundVolume(geo, Volume(v.disk, pool, v.inodes[ino := node]))
  {
    assert Opened(TrimSeal, 0);
    assert Opened(VolumeSeal, 0);
    assert Sound(geo, v.inodes[ino]);
    ApartClipped(geo, v.inodes, ino, node, keep);
    MarkedClipped(geo, v, pool, ino, node, keep);
  }

  lemma MarkedClipped(geo: Geometry, v: Volume, pool: Pool, ino: nat, node: Inode, keep: nat)
    requires PoolFits(geo, v.pool) && Marked(geo, v.pool, v.inodes) && ino in v.inodes
    requires Structured(geo, v.inodes[ino].extents) && Plain(v.inodes[ino].extents) && Apart(v.inodes)
    requires node.extents == Clipped(v.inodes[ino].extents, keep)
    requires Released(v.pool, pool, v.inodes[ino].extents, keep)
    ensures Marked(geo, pool, v.inodes[ino := node])
  {
    assert Opened(TrimSeal, 0);
    var ex := v.inodes[ino].extents;
    forall b | geo.firstData <= b < geo.blocks
      ensures pool.Free(b) <==> geo.DataBlock(b) && !Owned(v.inodes[ino := node], b)
    {
      OwnedClipped(geo, v.inodes, ino, node, keep, b);
      if Beyond(ex, keep, b) {
        var k :| 0 <= k < |ex| && ex[k].Owns(b) && keep <= ex[k].start + (b - ex[k].physical);
        assert geo.DataRange(ex[k].physical, ex[k].Length());
      }
    }
  }

  /** Forgetting an inode that owns nothing keeps the volume sound. */
  lemma VolumeRemoved(geo: Geometry, v: Volume, ino: nat)
    requires SoundVolume(geo, v) && ino in v.inodes && v.inodes[ino].extents == []
    ensures SoundVolume(geo, v.(inodes := v.inodes - {ino}))
  {
    assert Opened(VolumeSeal, 0);
    var after := v.inodes - {ino};
    forall b ensures Owned(after, b) <==> Owned(v.inodes, b) {
      if j :| j in v.inodes && Owns(v.inodes[j].extents, b) {
        assert j in after && Owns(after[j].extents, b);
      }
      if j :| j in after && Owns(after[j].extents, b) {
        assert Owns(v.inodes[j].extents, b);
      }
    }
    assert Apart(after);
  }
}
