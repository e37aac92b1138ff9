/**
 The inline extent list of an ext4 inode (`map`, `writable`, `append` and the
 extent part of `resize` in src/fs/ext4_fs.cpp).

 An inode record carries at most four extents in order of logical block. The functions
 here say what each edit of that record means for the logical-to-physical block
 map; the loops that perform the edits are in module Ext4Volumes.
 */
module Ext4Extents {
  import opened Outcomes
  import opened Arithmetic
  import opened Seals

  const MAX_PLAIN: nat := 32768
  const SLOTS: nat := 4

  /** Volume geometry. `metadata` holds the superblock, descriptor, bitmap and inode table blocks. */
  datatype Geometry = Geometry(blockSize: nat, firstData: nat, blocks: nat, metadata: set<nat>) {
    ghost predicate Valid() {
      && 0 < blockSize
      && firstData < blocks
      && (firstData == 0 ==> 0 in metadata)
    }

    ghost predicate DataBlock(b: int) {
      firstData <= b < blocks && b !in metadata
    }

    ghost predicate DataRange(first: int, count: int) {
      && 0 < count
      && firstData <= first
      && first + count <= blocks
      && forall b | first <= b < first + count :: DataBlock(b)
    }

    function SectorsPerBlock(): nat
      requires 0 < blockSize
    {
      blockSize / 512
    }

    /** Number of blocks that `size` bytes reach into. */
    function Blocks(size: nat): nat
      requires 0 < blockSize
    {
      Quotient(size + blockSize - 1, blockSize)
    }
  }

  /** One on-disk extent; a count above 32768 marks an unwritten one, which reads as zeros. */
  datatype Extent = Extent(start: nat, count: nat, physical: nat) {
    function Length(): nat { if count > MAX_PLAIN then count - MAX_PLAIN else count }
    function End(): nat { start + Length() }
    predicate Covers(logical: int) { start <= logical < End() }
    predicate Owns(block: int) { physical <= block < physical + Length() }
  }

  datatype Kind = Regular | Directory

  /** The fields of an inode record. `plain` says the record uses inline extents with no other feature. */
  datatype Inode = Inode(kind: Kind, plain: bool, size: nat, sectors: nat, extents: seq<Extent>)

  /** The physical block of `logical`, or 0 for a hole or an unwritten extent. */
  function Lookup(ex: seq<Extent>, logical: nat): nat {
    if ex == [] then 0
    else if ex[0].Covers(logical) then
      (if ex[0].count > MAX_PLAIN then 0 else ex[0].physical + (logical - ex[0].start))
    else Lookup(ex[1..], logical)
  }

  ghost predicate Owns(ex: seq<Extent>, block: int) {
    exists i :: 0 <= i < |ex| && ex[i].Owns(block)
  }

  ghost predicate Sorted(ex: seq<Extent>) {
    forall i, j :: 0 <= i < j < |ex| ==> ex[i].End() <= ex[j].start
  }

  ghost predicate Separate(e: Extent, f: Extent) {
    e.physical + e.Length() <= f.physical || f.physical + f.Length() <= e.physical
  }

  ghost predicate PhysicallyDisjoint(ex: seq<Extent>) {
    forall i, j :: 0 <= i < j < |ex| ==> Separate(ex[i], ex[j])
  }

  ghost predicate AllData(geo: Geometry, ex: seq<Extent>) {
    forall i :: 0 <= i < |ex| ==> geo.DataRange(ex[i].physical, ex[i].Length())
  }

  /** What the extents of every inode of a sound volume satisfy. */
  ghost predicate Structured(geo: Geometry, ex: seq<Extent>) {
    && AllData(geo, ex)
    && Sorted(ex)
    && PhysicallyDisjoint(ex)
  }

  ghost predicate Plain(ex: seq<Extent>) {
    forall i :: 0 <= i < |ex| ==> ex[i].count <= MAX_PLAIN
  }

  ghost predicate EndsBy(ex: seq<Extent>, limit: nat) {
    forall i :: 0 <= i < |ex| ==> ex[i].End() <= limit
  }

  function Total(ex: seq<Extent>): nat {
    if ex == [] then 0 else ex[0].Length() + Total(ex[1..])
  }

  /** An inode whose shape and extents a volume may hold. */
  ghost predicate Sound(geo: Geometry, node: Inode)
    requires geo.Valid()
  {
    && |node.extents| <= SLOTS
    && Structured(geo, node.extents)
    && node.sectors == Times(Total(node.extents), geo.SectorsPerBlock())
  }

  /** Exactly what `writable` accepts of a mounted, unfailed, writable volume. */
  ghost predicate Writable(geo: Geometry, node: Inode)
    requires geo.Valid()
  {
    && node.plain
    && Sound(geo, node)
    && Plain(node.extents)
    && EndsBy(node.extents, geo.Blocks(node.size))
  }

  /** The first slot whose extent does not start before `logical`. */
  function Position(ex: seq<Extent>, logical: nat): (p: nat)
    ensures p <= |ex|
  {
    if ex == [] || logical <= ex[0].start then 0 else 1 + Position(ex[1..], logical)
  }

  function ExtendsPrevious(ex: seq<Extent>, p: nat, logical: nat, physical: nat): bool
    requires p <= |ex|
  {
    && p > 0
    && logical == ex[p - 1].End()
    && physical == ex[p - 1].physical + ex[p - 1].Length()
    && ex[p - 1].Length() < MAX_PLAIN
  }

  function ExtendsNext(ex: seq<Extent>, p: nat, logical: nat, physical: nat): bool
    requires p <= |ex|
  {
    && p < |ex|
    && logical + 1 == ex[p].start
    && physical + 1 == ex[p].physical
    && ex[p].Length() < MAX_PLAIN
  }

  /** True when `logical` lies in no extent. */
  predicate Hole(ex: seq<Extent>, logical: nat) {
    var p := Position(ex, logical);
    && (p < |ex| ==> ex[p].start != logical)
    && (p > 0 ==> ex[p - 1].End() <= logical)
  }

  /** `ex` with the extent `e` put before slot `p`. */
  function Inserted(ex: seq<Extent>, p: nat, e: Extent): seq<Extent>
    requires p <= |ex|
  {
    ex[..p] + [e] + ex[p..]
  }

  /** The record `append` leaves, or why it refuses. */
  function Appended(geo: Geometry, node: Inode, logical: nat, physical: nat): Result<Inode>
    requires 0 < geo.blockSize
  {
    var ex := node.extents;
    var p := Position(ex, logical);
    var sectors := node.sectors + geo.SectorsPerBlock();
    if !Hole(ex, logical) then Err(IoError)
    else if ExtendsPrevious(ex, p, logical, physical) then
      var e := ex[p - 1];
      Ok(node.(extents := ex[p - 1 := e.(count := e.Length() + 1)], sectors := sectors))
    else if ExtendsNext(ex, p, logical, physical) then
      var e := ex[p];
      Ok(node.(extents := ex[p := Extent(logical, e.Length() + 1, physical)], sectors := sectors))
    else if |ex| >= SLOTS then Err(Overflow)
    else
      Ok(node.(extents := Inserted(ex, p, Extent(logical, 1, physical)), sectors := sectors))
  }

  /** The extents that remain below block `keep`. */
  function Clipped(ex: seq<Extent>, keep: nat): seq<Extent> {
    if ex == [] || keep <= ex[0].start then []
    else
      var e := ex[0];
      [if keep < e.End() then e.(count := keep - e.start) else e] + Clipped(ex[1..], keep)
  }

  lemma {:induction false} PositionSplits(ex: seq<Extent>, logical: nat)
    ensures forall i :: 0 <= i < Position(ex, logical) ==> ex[i].start < logical
    ensures Position(ex, logical) < |ex| ==> logical <= ex[Position(ex, logical)].start
  {
    if ex != [] && ex[0].start < logical {
      PositionSplits(ex[1..], logical);
    }
  }

  lemma InsertedAt(ex: seq<Extent>, p: nat, e: Extent)
    requires p <= |ex|
    ensures |Inserted(ex, p, e)| == |ex| + 1
    ensures forall k :: 0 <= k <= |ex| ==>
              Inserted(ex, p, e)[k] == if k < p then ex[k] else if k == p then e else ex[k - 1]
  {
  }

  // ---------------------------------------------------------------------
  // The block map

  lemma {:induction false} LookupAt(ex: seq<Extent>, i: nat, logical: nat)
    requires Sorted(ex) && i < |ex| && ex[i].Covers(logical)
    ensures Lookup(ex, logical) == if ex[i].count > MAX_PLAIN then 0 else ex[i].physical + (logical - ex[i].start)
  {
    if i > 0 {
      assert ex[0].End() <= ex[i].start;
      assert forall a, b :: 0 <= a < b < |ex[1..]| ==> ex[1..][a].End() <= ex[1..][b].start by {
        assert forall a :: 0 <= a < |ex[1..]| ==> ex[1..][a] == ex[a + 1];
      }
      LookupAt(ex[1..], i - 1, logical);
    }
  }

  lemma {:induction false} LookupNone(ex: seq<Extent>, logical: nat)
    requires forall i :: 0 <= i < |ex| ==> !ex[i].Covers(logical)
    ensures Lookup(ex, logical) == 0
  {
    if ex != [] {
      LookupNone(ex[1..], logical);
    }
  }

  lemma {:induction false} LookupFound(ex: seq<Extent>, logical: nat) returns (i: nat)
    requires Lookup(ex, logical) != 0
    ensures i < |ex| && ex[i].Covers(logical) && ex[i].count <= MAX_PLAIN
    ensures Lookup(ex, logical) == ex[i].physical + (logical - ex[i].start)
  {
    if ex[0].Covers(logical) {
      i := 0;
    } else {
      i := LookupFound(ex[1..], logical);
      i := i + 1;
    }
  }

  /** A mapped block is a data block that the extents own. */
  lemma LookupOwned(geo: Geometry, ex: seq<Extent>, logical: nat)
    requires geo.Valid() && Structured(geo, ex) && Lookup(ex, logical) != 0
    ensures Owns(ex, Lookup(ex, logical)) && geo.DataBlock(Lookup(ex, logical))
  {
    var i := LookupFound(ex, logical);
    assert ex[i].Owns(Lookup(ex, logical));
    assert geo.DataRange(ex[i].physical, ex[i].Length());
  }

  /** Distinct logical blocks never share a physical one. */
  lemma LookupInjective(geo: Geometry, ex: seq<Extent>, l: nat, m: nat)
    requires geo.Valid() && Structured(geo, ex)
    requires Lookup(ex, l) == Lookup(ex, m) != 0
    ensures l == m
  {
    var i := LookupFound(ex, l);
    var j := LookupFound(ex, m);
  }

  /** A hole is exactly a logical block outside every extent. */
  lemma HoleIff(ex: seq<Extent>, logical: nat)
    requires Sorted(ex) && forall i :: 0 <= i < |ex| ==> 0 < ex[i].Length()
    ensures Hole(ex, logical) <==> forall i :: 0 <= i < |ex| ==> !ex[i].Covers(logical)
  {
    var p := Position(ex, logical);
    PositionSplits(ex, logical);
    if Hole(ex, logical) {
      forall i | 0 <= i < |ex| ensures !ex[i].Covers(logical) {
        if i < p - 1 {
          assert ex[i].End() <= ex[p - 1].start;
        } else if i > p {
          assert ex[p].End() <= ex[i].start;
        }
      }
    } else if p < |ex| && ex[p].start == logical {
      assert ex[p].Covers(logical);
    } else {
      assert ex[p - 1].Covers(logical);
    }
  }

  /** On plain extents a hole is what the map reports as unmapped. */
  lemma HoleIffUnmapped(geo: Geometry, ex: seq<Extent>, logical: nat)
    requires geo.Valid() && Structured(geo, ex) && Plain(ex)
    ensures Hole(ex, logical) <==> Lookup(ex, logical) == 0
  {
    forall i | 0 <= i < |ex| ensures 0 < ex[i].Length() {
      assert geo.DataRange(ex[i].physical, ex[i].Length());
    }
    HoleIff(ex, logical);
    if i :| 0 <= i < |ex| && ex[i].Covers(logical) {
      CoveredMapped(geo, ex, i, logical);
    } else {
      LookupNone(ex, logical);
    }
  }

  lemma CoveredMapped(geo: Geometry, ex: seq<Extent>, i: nat, logical: nat)
    requires geo.Valid() && Structured(geo, ex) && Plain(ex) && i < |ex| && ex[i].Covers(logical)
    ensures Lookup(ex, logical) != 0
  {
    LookupAt(ex, i, logical);
    assert geo.DataRange(ex[i].physical, ex[i].Length());
    assert geo.DataBlock(ex[i].physical);
  }

  lemma {:induction false} TotalConcat(a: seq<Extent>, b: seq<Extent>)
    ensures Total(a + b) == Total(a) + Total(b)
  {
    if a == [] {
      assert a + b == b;
    } else {
      assert (a + b)[1..] == a[1..] + b;
      TotalConcat(a[1..], b);
    }
  }

  lemma TotalReplace(ex: seq<Extent>, i: nat, e: Extent)
    requires i < |ex|
    ensures Total(ex[i := e]) == Total(ex) - ex[i].Length() + e.Length()
  {
    assert ex == ex[..i] + ([ex[i]] + ex[i + 1..]);
    assert ex[i := e] == ex[..i] + ([e] + ex[i + 1..]);
    TotalConcat(ex[..i], [ex[i]] + ex[i + 1..]);
    TotalConcat(ex[..i], [e] + ex[i + 1..]);
    assert ([ex[i]] + ex[i + 1..])[1..] == ex[i + 1..];
    assert ([e] + ex[i + 1..])[1..] == ex[i + 1..];
  }

  lemma TotalInsert(ex: seq<Extent>, p: nat, e: Extent)
    requires p <= |ex|
    ensures Total(Inserted(ex, p, e)) == Total(ex) + e.Length()
  {
    assert ex[..p] + [e] + ex[p..] == ex[..p] + ([e] + ex[p..]);
    TotalConcat(ex[..p], [e] + ex[p..]);
    assert ([e] + ex[p..])[1..] == ex[p..];
    assert ex == ex[..p] + ex[p..];
    TotalConcat(ex[..p], ex[p..]);
  }

  // ---------------------------------------------------------------------
  // append

  /** The map of `after` is that of `before` with `logical` sent to `physical`. */
  ghost predicate MapsOneMore(before: seq<Extent>, after: seq<Extent>, logical: nat, physical: nat) {
    && (forall l: nat :: Lookup(after, l) == if l == logical then physical else Lookup(before, l))
    && (forall b: int :: Owns(after, b) <==> b == physical || Owns(before, b))
  }

  /** `e` is `f` grown by one block at its end or at its front. */
  ghost predicate Grows(f: Extent, e: Extent, logical: nat, physical: nat) {
    && e.count <= MAX_PLAIN && f.count <= MAX_PLAIN
    && e.count == f.count + 1
    && ((e.start == f.start && e.physical == f.physical && logical == f.End() && physical == f.physical + f.count)
        || (e.start == logical && e.physical == physical && logical + 1 == f.start && physical + 1 == f.physical))
  }

  ghost predicate Untouched(ex: seq<Extent>, logical: nat, physical: nat) {
    forall k :: 0 <= k < |ex| ==> 0 < ex[k].Length() && !ex[k].Covers(logical) && !ex[k].Owns(physical)
  }

  lemma GrownSorted(ex: seq<Extent>, i: nat, e: Extent, logical: nat, physical: nat)
    requires Sorted(ex) && PhysicallyDisjoint(ex) && Untouched(ex, logical, physical)
    requires i < |ex| && Grows(ex[i], e, logical, physical)
    ensures Sorted(ex[i := e]) && PhysicallyDisjoint(ex[i := e])
  {
    var after := ex[i := e];
    forall a, b | 0 <= a < b < |after|
      ensures after[a].End() <= after[b].start && Separate(after[a], after[b])
    {
      assert ex[a].End() <= ex[b].start && Separate(ex[a], ex[b]);
      assert !ex[a].Covers(logical) && !ex[b].Covers(logical);
      assert !ex[a].Owns(physical) && !ex[b].Owns(physical);
    }
  }

  lemma GrownLookup(ex: seq<Extent>, i: nat, e: Extent, logical: nat, physical: nat, l: nat)
    requires i < |ex| && Sorted(ex) && Sorted(ex[i := e]) && Grows(ex[i], e, logical, physical)
    ensures Lookup(ex[i := e], l) == if l == logical then physical else Lookup(ex, l)
  {
    var after := ex[i := e];
    if l == logical {
      LookupAt(after, i, l);
    } else if k :| 0 <= k < |ex| && ex[k].Covers(l) {
      LookupAt(ex, k, l);
      LookupAt(after, k, l);
    } else {
      LookupNone(ex, l);
      LookupNone(after, l);
    }
  }

  lemma GrownOwned(ex: seq<Extent>, i: nat, e: Extent, logical: nat, physical: nat, b: int)
    requires i < |ex| && Grows(ex[i], e, logical, physical)
    ensures Owns(ex[i := e], b) <==> b == physical || Owns(ex, b)
  {
    var after := ex[i := e];
    if b == physical {
      assert after[i].Owns(b);
    } else if k :| 0 <= k < |ex| && ex[k].Owns(b) {
      assert after[k].Owns(b);
    } else {
      assert forall k :: 0 <= k < |after| ==> !after[k].Owns(b);
    }
  }

  lemma GrownData(geo: Geometry, ex: seq<Extent>, i: nat, e: Extent, logical: nat, physical: nat)
    requires i < |ex| && Grows(ex[i], e, logical, physical) && geo.DataBlock(physical)
    requires AllData(geo, ex)
    ensures AllData(geo, ex[i := e])
  {
    assert geo.DataRange(ex[i].physical, ex[i].Length());
    assert geo.DataRange(e.physical, e.Length());
  }

  /** Growing one extent by one block at either end. */
  lemma GrownMap(geo: Geometry, ex: seq<Extent>, i: nat, e: Extent, logical: nat, physical: nat)
    requires Structured(geo, ex) && Plain(ex) && Untouched(ex, logical, physical)
    requires i < |ex| && Grows(ex[i], e, logical, physical) && geo.DataBlock(physical)
    ensures Structured(geo, ex[i := e]) && Plain(ex[i := e])
    ensures MapsOneMore(ex, ex[i := e], logical, physical)
  {
    var after := ex[i := e];
    GrownData(geo, ex, i, e, logical, physical);
    GrownSorted(ex, i, e, logical, physical);
    assert Structured(geo, after) && Plain(after);
    forall l: nat ensures Lookup(after, l) == if l == logical then physical else Lookup(ex, l) {
      GrownLookup(ex, i, e, logical, physical, l);
    }
    forall b: int ensures Owns(after, b) <==> b == physical || Owns(ex, b) {
      GrownOwned(ex, i, e, logical, physical, b);
    }
  }

  /** Slot `p` is where a one-block extent at `logical` belongs. */
  ghost predicate Between(ex: seq<Extent>, p: nat, logical: nat) {
    && p <= |ex|
    && (forall k :: 0 <= k < p ==> ex[k].End() <= logical)
    && (forall k :: p <= k < |ex| ==> logical < ex[k].start)
  }

  lemma HoleBetween(ex: seq<Extent>, logical: nat)
    requires Sorted(ex) && Hole(ex, logical)
    ensures Between(ex, Position(ex, logical), logical)
  {
    var p := Position(ex, logical);
    PositionSplits(ex, logical);
    forall k | 0 <= k < p ensures ex[k].End() <= logical {
      assert k < p - 1 ==> ex[k].End() <= ex[p - 1].start;
    }
    forall k | p <= k < |ex| ensures logical < ex[k].start {
      assert p < k ==> ex[p].End() <= ex[k].start;
    }
  }

  lemma InsertedSorted(ex: seq<Extent>, p: nat, e: Extent)
    requires Sorted(ex) && PhysicallyDisjoint(ex) && e.count == 1
    requires Between(ex, p, e.start) && Untouched(ex, e.start, e.physical)
    ensures Sorted(Inserted(ex, p, e)) && PhysicallyDisjoint(Inserted(ex, p, e))
  {
    var after := Inserted(ex, p, e);
    InsertedAt(ex, p, e);
    forall a, b | 0 <= a < b < |after| ensures after[a].End() <= after[b].start && Separate(after[a], after[b]) {
      var a' := if a < p then a else a - 1;
      var b' := if b < p then b else b - 1;
      if a == p {
        assert after[b] == ex[b'] && !ex[b'].Owns(e.physical);
      } else if b == p {
        assert after[a] == ex[a'] && !ex[a'].Owns(e.physical);
      } else {
        assert after[a] == ex[a'] && after[b] == ex[b'];
        assert ex[a'].End() <= ex[b'].start && Separate(ex[a'], ex[b']);
      }
    }
  }

  lemma InsertedLookup(ex: seq<Extent>, p: nat, e: Extent, l: nat)
    requires p <= |ex| && Sorted(ex) && Sorted(Inserted(ex, p, e)) && e.count == 1
    ensures Lookup(Inserted(ex, p, e), l) == if l == e.start then e.physical else Lookup(ex, l)
  {
    var after := Inserted(ex, p, e);
    InsertedAt(ex, p, e);
    if l == e.start {
      LookupAt(after, p, l);
    } else if k :| 0 <= k < |ex| && ex[k].Covers(l) {
      LookupAt(ex, k, l);
      LookupAt(after, if k < p then k else k + 1, l);
    } else {
      LookupNone(ex, l);
      LookupNone(after, l);
    }
  }

  lemma InsertedOwned(ex: seq<Extent>, p: nat, e: Extent, b: int)
    requires p <= |ex| && e.count == 1
    ensures Owns(Inserted(ex, p, e), b) <==> b == e.physical || Owns(ex, b)
  {
    var after := Inserted(ex, p, e);
    InsertedAt(ex, p, e);
    if b == e.physical {
      assert after[p].Owns(b);
    } else if k :| 0 <= k < |ex| && ex[k].Owns(b) {
      assert after[if k < p then k else k + 1].Owns(b);
    } else {
      assert forall k :: 0 <= k < |after| ==> !after[k].Owns(b);
    }
  }

  /** Inserting a one-block extent in order. */
  lemma InsertedMap(geo: Geometry, ex: seq<Extent>, p: nat, e: Extent)
    requires Structured(geo, ex) && Plain(ex) && e.count == 1
    requires Between(ex, p, e.start) && Untouched(ex, e.start, e.physical) && geo.DataBlock(e.physical)
    ensures Structured(geo, Inserted(ex, p, e)) && Plain(Inserted(ex, p, e))
    ensures MapsOneMore(ex, Inserted(ex, p, e), e.start, e.physical)
  {
    var after := Inserted(ex, p, e);
    InsertedAt(ex, p, e);
    InsertedSorted(ex, p, e);
    assert geo.DataRange(e.physical, 1);
    forall l: nat ensures Lookup(after, l) == if l == e.start then e.physical else Lookup(ex, l) {
      InsertedLookup(ex, p, e, l);
    }
    forall b: int ensures Owns(after, b) <==> b == e.physical || Owns(ex, b) {
      InsertedOwned(ex, p, e, b);
    }
  }

  lemma UntouchedByHole(geo: Geometry, ex: seq<Extent>, logical: nat, physical: nat)
    requires Structured(geo, ex) && Hole(ex, logical) && !Owns(ex, physical)
    ensures Untouched(ex, logical, physical)
  {
    forall k | 0 <= k < |ex| ensures 0 < ex[k].Length() {
      assert geo.DataRange(ex[k].physical, ex[k].Length());
    }
    HoleIff(ex, logical);
  }

  /** `append` refuses a mapped block as corruption, and lacks capacity only when all four slots are taken. */
  lemma AppendedErrors(geo: Geometry, node: Inode, logical: nat, physical: nat)
    requires geo.Valid() && Structured(geo, node.extents) && Plain(node.extents)
    ensures Appended(geo, node, logical, physical) == Err(IoError) <==> Lookup(node.extents, logical) != 0
    ensures Appended(geo, node, logical, physical).Err? ==>
              Appended(geo, node, logical, physical).status in {IoError, Overflow}
    ensures Appended(geo, node, logical, physical) == Err(Overflow) ==> |node.extents| >= SLOTS
  {
    HoleIffUnmapped(geo, node.extents, logical);
  }

  /**
   `append` adds exactly one block to the map through every merge and shift case,
   keeps the record sound, and charges exactly one block of sectors.
   */
  lemma AppendedMap(geo: Geometry, node: Inode, logical: nat, physical: nat)
    requires geo.Valid() && Sound(geo, node) && Plain(node.extents)
    requires geo.DataBlock(physical) && !Owns(node.extents, physical)
    requires Appended(geo, node, logical, physical).Ok?
    ensures var r := Appended(geo, node, logical, physical).value;
            && Sound(geo, r)
            && Plain(r.extents)
            && MapsOneMore(node.extents, r.extents, logical, physical)
            && r.kind == node.kind && r.size == node.size && r.plain == node.plain
  {
    UntouchedByHole(geo, node.extents, logical, physical);
    AppendedEffect(geo, node, logical, physical);
    assert Opened(RecordSeal, 0);
  }

  /** What AppendedMap promises of the new extents, whichever branch produced them. */
  ghost predicate OneMore(geo: Geometry, before: seq<Extent>, after: seq<Extent>, logical: nat, physical: nat) {
    forall k :: Opened(RecordSeal, k) ==>
      && Structured(geo, after) && Plain(after)
      && MapsOneMore(before, after, logical, physical)
      && Total(after) == Total(before) + 1
  }

  lemma AppendedGrown(geo: Geometry, ex: seq<Extent>, i: nat, e: Extent, logical: nat, physical: nat)
    requires Structured(geo, ex) && Plain(ex) && Untouched(ex, logical, physical)
    requires i < |ex| && Grows(ex[i], e, logical, physical) && geo.DataBlock(physical)
    ensures OneMore(geo, ex, ex[i := e], logical, physical)
  {
    GrownMap(geo, ex, i, e, logical, physical);
    TotalReplace(ex, i, e);
  }

  lemma AppendedInserted(geo: Geometry, ex: seq<Extent>, e: Extent)
    requires Structured(geo, ex) && Plain(ex) && e.count == 1
    requires Hole(ex, e.start) && Untouched(ex, e.start, e.physical) && geo.DataBlock(e.physical)
    ensures OneMore(geo, ex, Inserted(ex, Position(ex, e.start), e), e.start, e.physical)
  {
    HoleBetween(ex, e.start);
    InsertedMap(geo, ex, Position(ex, e.start), e);
    TotalInsert(ex, Position(ex, e.start), e);
  }

  lemma AppendedEffect(geo: Geometry, node: Inode, logical: nat, physical: nat)
    requires geo.Valid() && Structured(geo, node.extents) && Plain(node.extents)
    requires geo.DataBlock(physical) && Untouched(node.extents, logical, physical) && Hole(node.extents, logical)
    requires Appended(geo, node, logical, physical).Ok?
    ensures OneMore(geo, node.extents, Appended(geo, node, logical, physical).value.extents, logical, physical)
  {
    var after := Appended(geo, node, logical, physical).value.extents;
    AppendedCases(geo, node, logical, physical, Position(node.extents, logical), after);
    if ExtendsPrevious(node.extents, Position(node.extents, logical), logical, physical) {
      PreviousGrows(geo, node.extents, Position(node.extents, logical), logical, physical, after);
    } else if ExtendsNext(node.extents, Position(node.extents, logical), logical, physical) {
      NextGrows(geo, node.extents, Position(node.extents, logical), logical, physical, after);
    } else {
      AppendedInserted(geo, node.extents, Extent(logical, 1, physical));
    }
  }

  /** The three shapes an append gives the list. */
  lemma AppendedCases(geo: Geometry, node: Inode, logical: nat, physical: nat, p: nat, after: seq<Extent>)
    requires 0 < geo.blockSize && Appended(geo, node, logical, physical).Ok? && p == Position(node.extents, logical)
    requires after == Appended(geo, node, logical, physical).value.extents
    ensures p <= |node.extents|
    ensures ExtendsPrevious(node.extents, p, logical, physical) ==> Lengthened(node.extents, after, p)
    ensures !ExtendsPrevious(node.extents, p, logical, physical) && ExtendsNext(node.extents, p, logical, physical) ==>
              p < |node.extents| && after == node.extents[p := Extent(logical, node.extents[p].Length() + 1, physical)]
    ensures !ExtendsPrevious(node.extents, p, logical, physical) && !ExtendsNext(node.extents, p, logical, physical) ==>
              after == Inserted(node.extents, p, Extent(logical, 1, physical))
  {
  }

  ghost predicate Lengthened(ex: seq<Extent>, after: seq<Extent>, p: nat) {
    0 < p <= |ex| && after == ex[p - 1 := ex[p - 1].(count := ex[p - 1].Length() + 1)]
  }

  lemma PreviousGrows(geo: Geometry, ex: seq<Extent>, p: nat, logical: nat, physical: nat, after: seq<Extent>)
    requires Structured(geo, ex) && Plain(ex) && Untouched(ex, logical, physical) && geo.DataBlock(physical)
    requires Lengthened(ex, after, p) && ExtendsPrevious(ex, p, logical, physical)
    ensures OneMore(geo, ex, after, logical, physical)
  {
    AppendedGrown(geo, ex, p - 1, ex[p - 1].(count := ex[p - 1].Length() + 1), logical, physical);
  }

  lemma NextGrows(geo: Geometry, ex: seq<Extent>, p: nat, logical: nat, physical: nat, after: seq<Extent>)
    requires Structured(geo, ex) && Plain(ex) && Untouched(ex, logical, physical) && geo.DataBlock(physical)
    requires p < |ex| && ExtendsNext(ex, p, logical, physical)
    requires after == ex[p := Extent(logical, ex[p].Length() + 1, physical)]
    ensures OneMore(geo, ex, after, logical, physical)
  {
    AppendedGrown(geo, ex, p, Extent(logical, ex[p].Length() + 1, physical), logical, physical);
  }

  // ---------------------------------------------------------------------
  // truncation

  /** `f` is the part of `e` below block `keep`. */
  ghost predicate Clips(e: Extent, f: Extent, keep: nat) {
    && f.start == e.start && f.physical == e.physical && f.count <= MAX_PLAIN
    && e.start < keep
    && f.End() == Min(keep, e.End())
  }

  ghost predicate ClipsAll(ex: seq<Extent>, out: seq<Extent>, keep: nat) {
    && |out| <= |ex|
    && (forall i :: 0 <= i < |out| ==> Clips(ex[i], out[i], keep))
    && (forall i :: |out| <= i < |ex| ==> keep <= ex[i].start)
  }

  lemma {:induction false} ClippedShape(ex: seq<Extent>, keep: nat)
    requires Sorted(ex) && Plain(ex)
    ensures ClipsAll(ex, Clipped(ex, keep), keep)
  {
    if ex == [] {
    } else if keep <= ex[0].start {
      forall i | 0 <= i < |ex| ensures keep <= ex[i].start {
        assert i > 0 ==> ex[0].End() <= ex[i].start;
      }
    } else {
      var rest := ex[1..];
      assert forall i :: 0 <= i < |rest| ==> rest[i] == ex[i + 1];
      ClippedShape(rest, keep);
      forall i | |Clipped(ex, keep)| <= i < |ex| ensures keep <= ex[i].start {
        assert ex[i] == rest[i - 1];
      }
    }
  }

  lemma ClippedStructured(geo: Geometry, ex: seq<Extent>, out: seq<Extent>, keep: nat)
    requires Structured(geo, ex) && ClipsAll(ex, out, keep)
    ensures Structured(geo, out) && Plain(out) && EndsBy(out, keep)
  {
    forall i | 0 <= i < |out| ensures geo.DataRange(out[i].physical, out[i].Length()) {
      assert Clips(ex[i], out[i], keep) && geo.DataRange(ex[i].physical, ex[i].Length());
    }
    forall i, j | 0 <= i < j < |out| ensures out[i].End() <= out[j].start && Separate(out[i], out[j]) {
      assert ex[i].End() <= ex[j].start && Separate(ex[i], ex[j]);
      assert Clips(ex[i], out[i], keep) && Clips(ex[j], out[j], keep);
    }
  }

  lemma ClippedLookup(ex: seq<Extent>, out: seq<Extent>, keep: nat, l: nat)
    requires Sorted(ex) && Sorted(out) && Plain(ex) && ClipsAll(ex, out, keep)
    ensures Lookup(out, l) == if l < keep then Lookup(ex, l) else 0
  {
    if keep <= l {
      assert forall i :: 0 <= i < |out| ==> Clips(ex[i], out[i], keep);
      LookupNone(out, l);
    } else if k :| 0 <= k < |ex| && ex[k].Covers(l) {
      LookupAt(ex, k, l);
      assert Clips(ex[k], out[k], keep);
      LookupAt(out, k, l);
    } else {
      LookupNone(ex, l);
      assert forall i :: 0 <= i < |out| ==> Clips(ex[i], out[i], keep);
      LookupNone(out, l);
    }
  }

  /** A block survives the cut exactly when it was mapped below it. */
  lemma ClippedOwned(ex: seq<Extent>, out: seq<Extent>, keep: nat, b: int)
    requires ClipsAll(ex, out, keep)
    ensures Owns(out, b) <==> exists i :: 0 <= i < |ex| && ex[i].Owns(b) && ex[i].start + (b - ex[i].physical) < keep
  {
    if i :| 0 <= i < |out| && out[i].Owns(b) {
      assert Clips(ex[i], out[i], keep);
      assert ex[i].Owns(b);
    }
    if i :| 0 <= i < |ex| && ex[i].Owns(b) && ex[i].start + (b - ex[i].physical) < keep {
      assert Clips(ex[i], out[i], keep);
      assert out[i].Owns(b);
    }
  }

  /**
   Clipping at `keep` keeps exactly the map below it, and drops exactly the
   blocks that were mapped at or past the cut.
   */
  lemma ClippedMap(geo: Geometry, ex: seq<Extent>, keep: nat)
    requires Structured(geo, ex) && Plain(ex)
    ensures ClipsAll(ex, Clipped(ex, keep), keep)
    ensures Structured(geo, Clipped(ex, keep)) && Plain(Clipped(ex, keep)) && EndsBy(Clipped(ex, keep), keep)
    ensures forall l: nat :: Lookup(Clipped(ex, keep), l) == if l < keep then Lookup(ex, l) else 0
    ensures forall b: int :: Owns(Clipped(ex, keep), b) ==> Owns(ex, b)
  {
    var out := Clipped(ex, keep);
    ClippedShape(ex, keep);
    ClippedStructured(geo, ex, out, keep);
    forall l: nat ensures Lookup(out, l) == if l < keep then Lookup(ex, l) else 0 {
      ClippedLookup(ex, out, keep, l);
    }
    forall b: int | Owns(out, b) ensures Owns(ex, b) {
      ClippedOwned(ex, out, keep, b);
    }
  }
}
