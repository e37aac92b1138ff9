/**
 The read-only rehearsal of a write (`preflight_write` in src/fs/ext4_fs.cpp)
 against the write loop it rehearses (`write_active`).

 A write is cut into chunks that each stay inside one block. `Plan` walks them
 without touching the bitmap: each hole takes the next clear bit past the
 previous one. `Exec` walks them as the write does: each hole takes the lowest
 clear bit and sets it.
 */
module Ext4Preflight {
  import opened Outcomes
  import opened Arithmetic
  import opened Seals
  import opened Ext4Extents
  import opened Ext4Pools

  /** A logical block a write touches, and how far the file must reach once it has. */
  datatype Chunk = Chunk(logical: nat, end: nat)

  function ChunkLength(bs: nat, position: nat, remaining: nat): (n: nat)
    requires 0 < bs
    ensures n <= remaining
    ensures Remainder(position, bs) + n <= bs
    ensures 0 < remaining ==> 0 < n
  {
    Min(bs - Remainder(position, bs), remaining)
  }

  function Chunks(bs: nat, position: nat, remaining: nat): seq<Chunk>
    requires 0 < bs
    decreases remaining
  {
    if remaining == 0 then []
    else
      var n := ChunkLength(bs, position, remaining);
      [Chunk(Quotient(position, bs), position + n)] + Chunks(bs, position + n, remaining - n)
  }

  function Raised(node: Inode, end: nat): Inode {
    if end > node.size then node.(size := end) else node
  }

  function Prefixed(blocks: seq<nat>, r: Result<seq<nat>>): Result<seq<nat>> {
    if r.Ok? then Ok(blocks + r.value) else r
  }

  /** Bits strictly above block number `after`. */
  function From(geo: Geometry, used: seq<bool>, after: nat): (i: nat)
    ensures i <= |used|
  {
    if after < geo.firstData then 0 else Min(after + 1 - geo.firstData, |used|)
  }

  /** The blocks the rehearsal foresees, in order, or the capacity it finds missing. */
  function Plan(geo: Geometry, used: seq<bool>, node: Inode, chunks: seq<Chunk>, after: nat): Result<seq<nat>>
    requires 0 < geo.blockSize
    decreases |chunks|
  {
    if chunks == [] then Ok([])
    else if Lookup(node.extents, chunks[0].logical) != 0 then
      Plan(geo, used, Raised(node, chunks[0].end), chunks[1..], after)
    else
      var i := FirstFree(used, From(geo, used, after));
      if i == |used| then Err(NoMemory)
      else
        match Appended(geo, node, chunks[0].logical, geo.firstData + i)
        case Err(s) => Err(s)
        case Ok(grown) =>
          Prefixed([geo.firstData + i], Plan(geo, used, Raised(grown, chunks[0].end), chunks[1..], geo.firstData + i))
  }

  /** The blocks the write takes, in order, or the capacity it runs out of. */
  function Exec(geo: Geometry, used: seq<bool>, node: Inode, chunks: seq<Chunk>): Result<seq<nat>>
    requires 0 < geo.blockSize
    decreases |chunks|
  {
    if chunks == [] then Ok([])
    else if Lookup(node.extents, chunks[0].logical) != 0 then
      Exec(geo, used, Raised(node, chunks[0].end), chunks[1..])
    else
      var i := FirstFree(used, 0);
      if i == |used| then Err(NoMemory)
      else
        match Appended(geo, node, chunks[0].logical, geo.firstData + i)
        case Err(s) => Err(s)
        case Ok(grown) =>
          Prefixed([geo.firstData + i], Exec(geo, used[i := true], Raised(grown, chunks[0].end), chunks[1..]))
  }

  /** `used` is the bitmap `initial` once every bit up to block `after` has been set. */
  ghost predicate SetUpTo(geo: Geometry, initial: seq<bool>, used: seq<bool>, after: nat) {
    && |initial| == |used|
    && forall i :: 0 <= i < |used| ==> used[i] == (geo.firstData + i <= after || initial[i])
  }

  lemma SameFirstFree(geo: Geometry, initial: seq<bool>, used: seq<bool>, after: nat)
    requires SetUpTo(geo, initial, used, after)
    ensures FirstFree(initial, From(geo, initial, after)) == FirstFree(used, 0)
    ensures var n := FirstFree(used, 0); n < |used| ==> SetUpTo(geo, initial, used[n := true], geo.firstData + n)
  {
    FirstFreeAt(used, 0);
    FirstFreeIs(initial, From(geo, initial, after), FirstFree(used, 0));
  }

  /**
   The rehearsal is exact: it foresees the very blocks the write will take, or
   the very capacity failure it would meet, for every inode, range and bitmap.
   */
  lemma {:induction false} PlanIsExec(geo: Geometry, initial: seq<bool>, used: seq<bool>, node: Inode,
                                      chunks: seq<Chunk>, after: nat)
    requires 0 < geo.blockSize && SetUpTo(geo, initial, used, after)
    ensures Plan(geo, initial, node, chunks, after) == Exec(geo, used, node, chunks)
    decreases |chunks|
  {
    if chunks == [] {
    } else if Lookup(node.extents, chunks[0].logical) != 0 {
      PlanIsExec(geo, initial, used, Raised(node, chunks[0].end), chunks[1..], after);
    } else {
      var i := FirstFree(used, 0);
      SameFirstFree(geo, initial, used, after);
      if i < |used| {
        var next := Appended(geo, node, chunks[0].logical, geo.firstData + i);
        if next.Ok? {
          PlanIsExec(geo, initial, used[i := true], Raised(next.value, chunks[0].end), chunks[1..], geo.firstData + i);
        }
      }
    }
  }

  /**
   From the start of a write on a volume whose first block is never free:
   planning from block 0 foresees the write exactly.
   */
  lemma PreflightExact(geo: Geometry, used: seq<bool>, node: Inode, chunks: seq<Chunk>)
    requires 0 < geo.blockSize
    requires geo.firstData == 0 && used != [] ==> used[0]
    ensures Plan(geo, used, node, chunks, 0) == Exec(geo, used, node, chunks)
  {
    PlanIsExec(geo, used, used, node, chunks, 0);
  }

  // ---------------------------------------------------------------------
  // Records stay writable along the way

  lemma BlocksCover(geo: Geometry, position: nat, end: nat)
    requires geo.Valid() && position < end
    ensures Quotient(position, geo.blockSize) < geo.Blocks(end)
  {
    QuotientMono(position, end - 1, geo.blockSize);
  }

  lemma BlocksMono(geo: Geometry, size: nat, end: nat)
    requires geo.Valid() && size <= end
    ensures geo.Blocks(size) <= geo.Blocks(end)
  {
    QuotientMono(size + geo.blockSize - 1, end + geo.blockSize - 1, geo.blockSize);
  }

  lemma RaisedWritable(geo: Geometry, node: Inode, end: nat)
    requires geo.Valid() && Writable(geo, node)
    ensures Writable(geo, Raised(node, end))
  {
    BlocksMono(geo, node.size, Max(node.size, end));
  }

  lemma AppendedEnds(geo: Geometry, node: Inode, logical: nat, physical: nat, limit: nat)
    requires 0 < geo.blockSize && EndsBy(node.extents, limit) && Plain(node.extents) && logical < limit
    requires Appended(geo, node, logical, physical).Ok?
    ensures EndsBy(Appended(geo, node, logical, physical).value.extents, limit)
  {
    var ex := node.extents;
    var p := Position(ex, logical);
    if !ExtendsPrevious(ex, p, logical, physical) && !ExtendsNext(ex, p, logical, physical) {
      InsertedAt(ex, p, Extent(logical, 1, physical));
    }
  }

  /** A record accepted by `writable` is accepted again after `append` and the size update of the same block. */
  lemma AppendedWritable(geo: Geometry, node: Inode, logical: nat, physical: nat, end: nat)
    requires geo.Valid() && Writable(geo, node)
    requires geo.DataBlock(physical) && !Owns(node.extents, physical) && logical < geo.Blocks(end)
    requires Appended(geo, node, logical, physical).Ok?
    ensures Writable(geo, Raised(Appended(geo, node, logical, physical).value, end))
  {
    AppendedMap(geo, node, logical, physical);
    BlocksMono(geo, node.size, Max(node.size, end));
    BlocksMono(geo, end, Max(node.size, end));
    AppendedEnds(geo, node, logical, physical, geo.Blocks(Max(node.size, end)));
  }

  // ---------------------------------------------------------------------
  // The write loop follows Exec

  /** The lowest free block is `physical`, and mapping it at `logical` gives `grown`. */
  ghost predicate Fills(geo: Geometry, used: seq<bool>, node: Inode, logical: nat, physical: nat, grown: Inode) {
    forall k :: Opened(FillSeal, k) ==>
      && 0 < geo.blockSize
      && FirstFree(used, 0) < |used|
      && physical == geo.firstData + FirstFree(used, 0)
      && Appended(geo, node, logical, physical) == Ok(grown)
  }

  /** There is no free block, or no extent slot for it. */
  ghost predicate NoRoom(geo: Geometry, used: seq<bool>, node: Inode, logical: nat, s: Status) {
    forall k :: Opened(FillSeal, k) ==>
      && 0 < geo.blockSize
      && (if FirstFree(used, 0) == |used| then s == NoMemory
          else s == Overflow && Appended(geo, node, logical, geo.firstData + FirstFree(used, 0)) == Err(Overflow))
  }

  /** What a filled hole does to the record. */
  lemma FillsGrown(geo: Geometry, used: seq<bool>, node: Inode, logical: nat, physical: nat, grown: Inode, end: nat)
    requires Fills(geo, used, node, logical, physical, grown)
    requires geo.Valid() && Writable(geo, node) && geo.DataBlock(physical) && !Owns(node.extents, physical)
    requires logical < geo.Blocks(end)
    ensures Writable(geo, Raised(grown, end))
    ensures MapsOneMore(node.extents, grown.extents, logical, physical)
    ensures grown.size == node.size && grown.kind == node.kind
  {
    assert Opened(FillSeal, 0);
    AppendedWritable(geo, node, logical, physical, end);
    AppendedMap(geo, node, logical, physical);
  }

  /** Having taken `taken`, the write has `rest` to go, with bitmap `used` and record `node`. */
  ghost predicate Underway(geo: Geometry, initial: seq<bool>, before: Inode, all: seq<Chunk>,
                           taken: seq<nat>, used: seq<bool>, node: Inode, rest: seq<Chunk>)
  {
    forall k :: Opened(FillSeal, k) ==>
      && 0 < geo.blockSize
      && Exec(geo, initial, before, all) == Prefixed(taken, Exec(geo, used, node, rest))
  }

  lemma UnderwayAtStart(geo: Geometry, used: seq<bool>, node: Inode, all: seq<Chunk>)
    requires 0 < geo.blockSize
    ensures Underway(geo, used, node, all, [], used, node, all)
  {
    var r := Exec(geo, used, node, all);
    assert r.Ok? ==> [] + r.value == r.value;
  }

  lemma UnderwayMapped(geo: Geometry, initial: seq<bool>, before: Inode, all: seq<Chunk>,
                       taken: seq<nat>, used: seq<bool>, node: Inode, rest: seq<Chunk>)
    requires Underway(geo, initial, before, all, taken, used, node, rest)
    requires rest != [] && Lookup(node.extents, rest[0].logical) != 0
    ensures Underway(geo, initial, before, all, taken, used, Raised(node, rest[0].end), rest[1..])
  {
    assert Opened(FillSeal, 0);
  }

  lemma UnderwayFilled(geo: Geometry, initial: seq<bool>, before: Inode, all: seq<Chunk>,
                       taken: seq<nat>, used: seq<bool>, node: Inode, rest: seq<Chunk>, physical: nat, grown: Inode)
    requires Underway(geo, initial, before, all, taken, used, node, rest)
    requires rest != [] && Lookup(node.extents, rest[0].logical) == 0
    requires Fills(geo, used, node, rest[0].logical, physical, grown)
    ensures geo.firstData <= physical < geo.firstData + |used|
    ensures Underway(geo, initial, before, all, taken + [physical],
                     used[physical - geo.firstData := true], Raised(grown, rest[0].end), rest[1..])
  {
    assert Opened(FillSeal, 0);
    var after := Exec(geo, used[physical - geo.firstData := true], Raised(grown, rest[0].end), rest[1..]);
    assert after.Ok? ==> (taken + [physical]) + after.value == taken + ([physical] + after.value);
  }

  lemma UnderwayRefused(geo: Geometry, initial: seq<bool>, before: Inode, all: seq<Chunk>,
                        taken: seq<nat>, used: seq<bool>, node: Inode, rest: seq<Chunk>, s: Status)
    requires 0 < geo.blockSize && Underway(geo, initial, before, all, taken, used, node, rest)
    requires rest != [] && Lookup(node.extents, rest[0].logical) == 0
    requires NoRoom(geo, used, node, rest[0].logical, s)
    ensures Runs(geo, initial, before, all, Err(s))
  {
    assert Opened(FillSeal, 0);
  }

  lemma UnderwayAtEnd(geo: Geometry, initial: seq<bool>, before: Inode, all: seq<Chunk>,
                      taken: seq<nat>, used: seq<bool>, node: Inode)
    requires 0 < geo.blockSize && Underway(geo, initial, before, all, taken, used, node, [])
    ensures Runs(geo, initial, before, all, Ok(taken))
  {
    assert Opened(FillSeal, 0);
    assert taken + [] == taken;
  }

  // ---------------------------------------------------------------------
  // The rehearsal loop follows Plan

  /** The write of `all` comes to `r`. */
  ghost predicate Runs(geo: Geometry, used: seq<bool>, node: Inode, all: seq<Chunk>, r: Result<seq<nat>>) {
    forall k :: Opened(FillSeal, k) ==> 0 < geo.blockSize && Exec(geo, used, node, all) == r
  }

  /** The rehearsal of `all` comes to `r`. */
  ghost predicate Foresees(geo: Geometry, used: seq<bool>, node: Inode, all: seq<Chunk>, r: Result<seq<nat>>) {
    forall k :: Opened(FillSeal, k) ==> 0 < geo.blockSize && Plan(geo, used, node, all, 0) == r
  }

  /** What the rehearsal foresees is what the write does. */
  lemma ForeseenRuns(geo: Geometry, used: seq<bool>, node: Inode, all: seq<Chunk>, p: Result<seq<nat>>,
                     r: Result<seq<nat>>)
    requires geo.firstData == 0 && used != [] ==> used[0]
    requires Foresees(geo, used, node, all, p) && Runs(geo, used, node, all, r)
    ensures p == r
  {
    assert Opened(FillSeal, 0);
    PreflightExact(geo, used, node, all);
  }

  lemma ForeseenIsRun(geo: Geometry, used: seq<bool>, node: Inode, all: seq<Chunk>, p: Result<seq<nat>>)
    requires geo.firstData == 0 && used != [] ==> used[0]
    requires Foresees(geo, used, node, all, p)
    ensures Runs(geo, used, node, all, p)
  {
    assert Opened(FillSeal, 0);
    PreflightExact(geo, used, node, all);
  }

  /** Having foreseen `seen`, the last of them `after`, the rehearsal has `rest` to go with record `node`. */
  ghost predicate Rehearsing(geo: Geometry, used: seq<bool>, before: Inode, all: seq<Chunk>,
                             seen: seq<nat>, node: Inode, rest: seq<Chunk>, after: nat)
  {
    forall k :: Opened(FillSeal, k) ==>
      && 0 < geo.blockSize
      && Plan(geo, used, before, all, 0) == Prefixed(seen, Plan(geo, used, node, rest, after))
  }

  lemma RehearsingAtStart(geo: Geometry, used: seq<bool>, node: Inode, all: seq<Chunk>)
    requires 0 < geo.blockSize
    ensures Rehearsing(geo, used, node, all, [], node, all, 0)
  {
    var r := Plan(geo, used, node, all, 0);
    assert r.Ok? ==> [] + r.value == r.value;
  }

  lemma RehearsingMapped(geo: Geometry, used: seq<bool>, before: Inode, all: seq<Chunk>,
                         seen: seq<nat>, node: Inode, rest: seq<Chunk>, after: nat)
    requires Rehearsing(geo, used, before, all, seen, node, rest, after)
    requires rest != [] && Lookup(node.extents, rest[0].logical) != 0
    ensures Rehearsing(geo, used, before, all, seen, Raised(node, rest[0].end), rest[1..], after)
  {
    assert Opened(FillSeal, 0);
  }

  lemma RehearsingFilled(geo: Geometry, used: seq<bool>, before: Inode, all: seq<Chunk>,
                         seen: seq<nat>, node: Inode, rest: seq<Chunk>, after: nat, physical: nat, grown: Inode)
    requires Rehearsing(geo, used, before, all, seen, node, rest, after)
    requires rest != [] && Lookup(node.extents, rest[0].logical) == 0
    requires FillsAfter(geo, used, node, rest[0].logical, after, Ok(physical), Ok(grown))
    ensures Rehearsing(geo, used, before, all, seen + [physical], Raised(grown, rest[0].end), rest[1..], physical)
  {
    assert Opened(FillSeal, 0);
    var next := Plan(geo, used, Raised(grown, rest[0].end), rest[1..], physical);
    assert next.Ok? ==> (seen + [physical]) + next.value == seen + ([physical] + next.value);
  }

  lemma RehearsingRefused(geo: Geometry, used: seq<bool>, before: Inode, all: seq<Chunk>,
                          seen: seq<nat>, node: Inode, rest: seq<Chunk>, after: nat, n: Result<nat>, r: Result<Inode>)
    requires Rehearsing(geo, used, before, all, seen, node, rest, after)
    requires rest != [] && Lookup(node.extents, rest[0].logical) == 0
    requires FillsAfter(geo, used, node, rest[0].logical, after, n, r) && r.Err?
    ensures Foresees(geo, used, before, all, Err(r.status))
  {
    assert Opened(FillSeal, 0);
  }

  /** Past block `after`, the next free block is `n`, and mapping it at `logical` comes to `r`. */
  ghost predicate FillsAfter(geo: Geometry, used: seq<bool>, node: Inode, logical: nat, after: nat, n: Result<nat>,
                             r: Result<Inode>) {
    forall k :: Opened(FillSeal, k) ==>
      && 0 < geo.blockSize
      && var i := FirstFree(used, From(geo, used, after));
      if i == |used| then n == Err(NoMemory) && r == Err(NoMemory)
      else n == Ok(geo.firstData + i) && r == Appended(geo, node, logical, geo.firstData + i)
  }

  lemma RehearsingAtEnd(geo: Geometry, used: seq<bool>, before: Inode, all: seq<Chunk>, seen: seq<nat>, node: Inode,
                        after: nat)
    requires 0 < geo.blockSize && Rehearsing(geo, used, before, all, seen, node, [], after)
    ensures Foresees(geo, used, before, all, Ok(seen))
  {
    assert Opened(FillSeal, 0);
    assert seen + [] == seen;
  }
}
