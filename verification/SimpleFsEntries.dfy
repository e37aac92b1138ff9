/**
 SimpleFS directory table entries (src/fs/simplefs.cpp): 64 bytes each, eight to a
 block, with a fixed-size name that ends at its first zero byte.
 */
module SimpleFsEntries {
  import opened Outcomes
  import opened Bytes

  const BLOCK: nat := 512
  const ENTRY: nat := 64
  const NAME_CAPACITY: nat := 32

  type Block = b: seq<byte> | |b| == BLOCK witness seq(BLOCK, _ => 0)
  type Name = seq<byte>

  datatype Extent = Extent(size: nat, start: nat, count: nat)

  /** `meta` is the mode, the owner and the link count, as stored. */
  datatype DiskEntry = DiskEntry(used: bool, kind: byte, extent: Extent, meta: seq<byte>, name: Name)

  /** What an entry can store: 32-bit fields and a short name. */
  predicate Storable(e: DiskEntry) {
    && e.extent.size < 0x1_0000_0000 && e.extent.start < 0x1_0000_0000 && e.extent.count < 0x1_0000_0000
    && |e.meta| == 16 && |e.name| < NAME_CAPACITY
  }

  /** The stored name ends at the first zero byte, and after 31 bytes at the latest. */
  function NameLength(b: seq<byte>, at: nat, n: nat): (r: nat)
    requires n < NAME_CAPACITY && at + NAME_CAPACITY <= |b|
    ensures n <= r < NAME_CAPACITY
    decreases NAME_CAPACITY - n
  {
    if n + 1 < NAME_CAPACITY && b[at + n] != 0 then NameLength(b, at, n + 1) else n
  }

  function DecodeName(b: seq<byte>, at: nat): Name
    requires at + NAME_CAPACITY <= |b|
  {
    b[at..at + NameLength(b, at, 0)]
  }

  /** `read_entry`. */
  function Decode(b: Block, o: nat): DiskEntry
    requires o + ENTRY <= BLOCK
  {
    DiskEntry(b[o] != 0, b[o + 1], Extent(R32(b, o + 4), R32(b, o + 8), R32(b, o + 12)), b[o + 48..o + 64],
        DecodeName(b, o + 16))
  }

  lemma {:induction false} NameLengthLocal(b: seq<byte>, c: seq<byte>, at: nat, n: nat)
    requires n < NAME_CAPACITY && at + NAME_CAPACITY <= |b| && at + NAME_CAPACITY <= |c|
    requires forall i :: at <= i < at + NAME_CAPACITY ==> c[i] == b[i]
    ensures NameLength(c, at, n) == NameLength(b, at, n)
    decreases NAME_CAPACITY - n
  {
    if n + 1 < NAME_CAPACITY && b[at + n] != 0 {
      NameLengthLocal(b, c, at, n + 1);
    }
  }

  /** An entry depends on its own 64 bytes alone. */
  lemma DecodeLocal(b: Block, c: Block, o: nat)
    requires o + ENTRY <= BLOCK && forall i :: o <= i < o + ENTRY ==> c[i] == b[i]
    ensures Decode(c, o) == Decode(b, o)
  {
    NameLengthLocal(b, c, o + 16, 0);
    assert DecodeName(c, o + 16) == DecodeName(b, o + 16);
    assert c[o + 48..o + 64] == b[o + 48..o + 64];
  }

  /** The field holds the name, zero padded. */
  predicate NameStored(b: seq<byte>, at: nat, name: Name) {
    && at + NAME_CAPACITY <= |b| && |name| < NAME_CAPACITY
    && (forall i :: 0 <= i < |name| ==> b[at + i] == name[i])
    && (forall i :: at + |name| <= i < at + NAME_CAPACITY ==> b[i] == 0)
  }

  /** The length of the name up to its first zero byte. */
  function CutLength(name: Name, n: nat): (r: nat)
    requires n <= |name|
    ensures n <= r <= |name|
    decreases |name| - n
  {
    if n == |name| || name[n] == 0 then n else CutLength(name, n + 1)
  }

  /** What a name becomes on disk. */
  function Cut(name: Name): Name { name[..CutLength(name, 0)] }

  /** What an entry becomes on disk. */
  function Kept(e: DiskEntry): DiskEntry { e.(name := Cut(e.name)) }

  lemma CutWhole(name: Name)
    ensures 0 !in name ==> Cut(name) == name
    ensures 0 !in Cut(name) && (0 in name ==> |Cut(name)| < |name|)
  {
    CutIsWhole(name, 0);
    CutFront(name, 0);
  }

  lemma {:induction false} CutFront(name: Name, n: nat)
    requires n <= |name|
    ensures forall i :: n <= i < CutLength(name, n) ==> name[i] != 0
    decreases |name| - n
  {
    if n < |name| && name[n] != 0 {
      CutFront(name, n + 1);
    }
  }

  lemma {:induction false} NameLengthIs(b: seq<byte>, at: nat, name: Name, n: nat)
    requires NameStored(b, at, name) && n <= |name|
    ensures NameLength(b, at, n) == CutLength(name, n)
    decreases |name| - n
  {
    if n < |name| && name[n] != 0 && n + 1 < NAME_CAPACITY {
      NameLengthIs(b, at, name, n + 1);
    }
  }

  /** What is read back is the name up to its first zero byte. */
  lemma NameReadBack(b: seq<byte>, at: nat, name: Name)
    requires NameStored(b, at, name)
    ensures DecodeName(b, at) == Cut(name)
  {
    NameLengthIs(b, at, name, 0);
  }

  lemma {:induction false} CutIsWhole(name: Name, n: nat)
    requires n <= |name|
    ensures CutLength(name, n) == |name| <==> forall i :: n <= i < |name| ==> name[i] != 0
    decreases |name| - n
  {
    if n < |name| && name[n] != 0 {
      CutIsWhole(name, n + 1);
    }
  }

  /** A name survives the disk if and only if it has no zero byte. */
  lemma NameRoundTrip(b: seq<byte>, at: nat, name: Name)
    requires NameStored(b, at, name)
    ensures DecodeName(b, at) == name <==> 0 !in name
  {
    NameReadBack(b, at, name);
    CutIsWhole(name, 0);
  }

  lemma {:induction false} BeforeLength(b: seq<byte>, at: nat, n: nat, k: nat)
    requires n < NAME_CAPACITY && at + NAME_CAPACITY <= |b| && n <= k < NameLength(b, at, n)
    ensures b[at + k] != 0
    decreases NAME_CAPACITY - n
  {
    if n < k {
      BeforeLength(b, at, n + 1, k);
    }
  }

  /** No name that is read has a zero byte. */
  lemma NoZeroRead(b: seq<byte>, at: nat)
    requires at + NAME_CAPACITY <= |b|
    ensures 0 !in DecodeName(b, at)
  {
    var name := DecodeName(b, at);
    forall k | 0 <= k < |name| ensures name[k] != 0 {
      BeforeLength(b, at, 0, k);
      assert name[k] == b[at + k];
    }
  }

  /** "a", a zero byte and "b" is read back as "a", the name of another file. */
  lemma ZeroByteCutsName(b: seq<byte>, at: nat)
    requires NameStored(b, at, [97, 0, 98])
    ensures DecodeName(b, at) == [97]
  {
    NameReadBack(b, at, [97, 0, 98]);
    assert CutLength([97, 0, 98], 0) == 1;
  }

  /** `write_entry` on the block that holds the entry. */
  method PutEntry(b: Block, o: nat, e: DiskEntry) returns (c: Block)
    requires o + ENTRY <= BLOCK && Storable(e)
    ensures forall i :: 0 <= i < BLOCK && !(o <= i < o + ENTRY) ==> c[i] == b[i]
    ensures NameStored(c, o + 16, e.name) && Decode(c, o) == e.(name := DecodeName(c, o + 16))
  {
    var cleared := ClearEntry(b, o);
    var m := PutNumbers(cleared, o, e);
    m := PutMeta(m, o + 48, e.meta);
    c := PutName(m, o + 16, e.name);
    assert c[o + 48..o + 64] == e.meta;
  }

  method ClearEntry(b: Block, o: nat) returns (c: Block)
    requires o + ENTRY <= BLOCK
    ensures forall i :: 0 <= i < BLOCK && !(o <= i < o + ENTRY) ==> c[i] == b[i]
    ensures forall i :: o <= i < o + ENTRY ==> c[i] == 0
  {
    c := b;
    for i := 0 to ENTRY
      invariant forall j :: 0 <= j < BLOCK && !(o <= j < o + ENTRY) ==> c[j] == b[j]
      invariant forall j :: o <= j < o + i ==> c[j] == 0
    {
      c := c[o + i := 0];
    }
  }

  method PutNumbers(b: Block, o: nat, e: DiskEntry) returns (c: Block)
    requires o + ENTRY <= BLOCK && Storable(e)
    ensures forall i :: 0 <= i < BLOCK && !(o <= i < o + 16) ==> c[i] == b[i]
    ensures (c[o] != 0) == e.used && c[o + 1] == e.kind
    ensures R32(c, o + 4) == e.extent.size && R32(c, o + 8) == e.extent.start && R32(c, o + 12) == e.extent.count
  {
    c := b[o := if e.used then 1 else 0][o + 1 := e.kind];
    c := W32(c, o + 4, e.extent.size);
    c := W32(c, o + 8, e.extent.start);
    c := W32(c, o + 12, e.extent.count);
  }

  method PutMeta(b: Block, at: nat, meta: seq<byte>) returns (c: Block)
    requires at + 16 <= BLOCK && |meta| == 16
    ensures forall i :: 0 <= i < BLOCK && !(at <= i < at + 16) ==> c[i] == b[i]
    ensures forall i :: 0 <= i < 16 ==> c[at + i] == meta[i]
  {
    c := b;
    for i := 0 to 16
      invariant forall j :: 0 <= j < BLOCK && !(at <= j < at + 16) ==> c[j] == b[j]
      invariant forall j :: 0 <= j < i ==> c[at + j] == meta[j]
    {
      c := c[at + i := meta[i]];
    }
  }

  method PutName(b: Block, at: nat, name: Name) returns (c: Block)
    requires at + NAME_CAPACITY <= BLOCK && |name| < NAME_CAPACITY && forall i :: at <= i < at + NAME_CAPACITY ==>
              b[i] == 0
    ensures forall i :: 0 <= i < BLOCK && !(at <= i < at + NAME_CAPACITY) ==> c[i] == b[i]
    ensures NameStored(c, at, name)
  {
    c := b;
    for i := 0 to |name|
      invariant forall j :: 0 <= j < BLOCK && !(at <= j < at + |name|) ==> c[j] == b[j]
      invariant forall j :: 0 <= j < i ==> c[at + j] == name[j]
    {
      c := c[at + i := name[i]];
    }
  }
}
