/** Which blocks of a volume are metadata (`data_range` and the group table of `mount_active` in src/fs/ext4_fs.cpp). */
module Ext4Layout {
  import opened Outcomes
  import opened Arithmetic
  import opened Seals
  import opened Ext4Extents

  datatype Group = Group(begin: nat, end: nat, blockBitmap: nat, inodeBitmap: nat, table: nat, tableBlocks: nat,
                         superblock: bool) {
    /** What the mount checks of a group's descriptor. */
    predicate Valid() {
      && begin + (if superblock then 2 else 0) < end
      && begin <= blockBitmap < end
      && begin <= inodeBitmap < end
      && begin <= table && 0 < tableBlocks && table + tableBlocks <= end
    }

    predicate Holds(b: int) {
      || (superblock && begin <= b < begin + 2)
      || b == blockBitmap
      || b == inodeBitmap
      || table <= b < table + tableBlocks
    }
  }

  /** The group table of a mounted volume: groups of `per` blocks tile the volume from `firstData`. */
  ghost predicate Describes(layout: seq<Group>, per: nat, geo: Geometry) {
    forall k :: Opened(LayoutSeal, k) ==> DescribesOpened(layout, per, geo)
  }

  ghost predicate DescribesOpened(layout: seq<Group>, per: nat, geo: Geometry) {
    && 0 < per
    && (forall g :: 0 <= g < |layout| ==> layout[g].Valid())
    && (forall g :: 0 <= g < |layout| ==> layout[g].begin == geo.firstData + Times(g, per))
    && (forall g :: 0 <= g < |layout| ==> layout[g].end <= layout[g].begin + per)
    && (forall b :: geo.firstData <= b < geo.blocks ==>
         (b in geo.metadata <==> exists g :: 0 <= g < |layout| && layout[g].Holds(b)))
  }

  /**
   `data_range`: scanning only the groups the range can touch decides whether
   any metadata block of the whole volume lies in it.
   */
  method DataRange(layout: seq<Group>, per: nat, geo: Geometry, first: nat, count: nat) returns (clear: bool)
    requires Describes(layout, per, geo)
    ensures clear <==> geo.DataRange(first, count)
  {
    assert Opened(LayoutSeal, 0);
    if count == 0 || first < geo.firstData || first >= geo.blocks || count > geo.blocks - first {
      return false;
    }
    var end := first + count;
    var start := Quotient(first - geo.firstData, per);
    var group := start;
    while group < |layout| && layout[group].begin < end
      invariant start <= group
      invariant forall g :: start <= g < group && g < |layout| ==> !Overlaps(layout[g], first, end)
    {
      if Hits(layout[group], first, end) {
        HitsIsOverlap(layout[group], first, end);
        var b :| first <= b < end && layout[group].Holds(b);
        assert b in geo.metadata && !geo.DataBlock(b);
        return false;
      }
      HitsIsOverlap(layout[group], first, end);
      group := group + 1;
    }
    forall g | 0 <= g < |layout| ensures !Overlaps(layout[g], first, end) {
      OutsideScan(layout, per, geo, first, end, g, group);
    }
    ClearRange(layout, per, geo, first, count);
    return true;
  }

  predicate Hits(group: Group, first: nat, end: nat) {
    || (group.superblock && first < group.begin + 2)
    || first <= group.blockBitmap < end
    || first <= group.inodeBitmap < end
    || (first < group.table + group.tableBlocks && group.table < end)
  }

  ghost predicate Overlaps(group: Group, first: nat, end: nat) {
    exists b :: first <= b < end && group.Holds(b)
  }

  /** The four comparisons of the scan say exactly that the group's metadata meets the range. */
  lemma HitsIsOverlap(group: Group, first: nat, end: nat)
    requires group.Valid() && first < end && group.begin < end
    ensures Hits(group, first, end) <==> Overlaps(group, first, end)
  {
    if group.superblock && first < group.begin + 2 {
      assert group.Holds(Max(first, group.begin));
    } else if first <= group.blockBitmap < end {
      assert group.Holds(group.blockBitmap);
    } else if first <= group.inodeBitmap < end {
      assert group.Holds(group.inodeBitmap);
    } else if first < group.table + group.tableBlocks && group.table < end {
      assert group.Holds(Max(first, group.table));
    }
  }

  /** Groups before the first scanned one end before the range; groups after the last one begin past it. */
  lemma OutsideScan(layout: seq<Group>, per: nat, geo: Geometry, first: nat, end: nat, g: nat, stop: nat)
    requires DescribesOpened(layout, per, geo) && geo.firstData <= first < end && g < |layout|
    requires stop < |layout| ==> end <= layout[stop].begin
    requires forall h :: Quotient(first - geo.firstData, per) <= h < stop && h < |layout| ==>
              !Overlaps(layout[h], first, end)
    requires Quotient(first - geo.firstData, per) <= stop
    ensures !Overlaps(layout[g], first, end)
  {
    var start := Quotient(first - geo.firstData, per);
    QuotientBounds(first - geo.firstData, per);
    assert layout[g].Valid() && layout[g].begin == geo.firstData + Times(g, per);
    if g < start {
      TimesMono(g + 1, start, per);
      assert layout[g].end <= first;
    } else if stop <= g {
      TimesMono(stop, g, per);
      assert layout[stop].begin == geo.firstData + Times(stop, per);
      assert end <= layout[g].begin;
    }
  }

  lemma ClearRange(layout: seq<Group>, per: nat, geo: Geometry, first: nat, count: nat)
    requires DescribesOpened(layout, per, geo)
    requires 0 < count && geo.firstData <= first && first + count <= geo.blocks
    requires forall g :: 0 <= g < |layout| ==> !Overlaps(layout[g], first, first + count)
    ensures geo.DataRange(first, count)
  {
    forall b | first <= b < first + count ensures geo.DataBlock(b) {
      assert forall g :: 0 <= g < |layout| ==> !Overlaps(layout[g], first, first + count);
    }
  }
}
