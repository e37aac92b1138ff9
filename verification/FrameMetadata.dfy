/**
 Where the frame allocator keeps its own tables (`MemoryManager::initialize` in
 src/memory/memory.cpp): a piece cut from the top of a usable range, large enough
 for the frames that are left, and no part of any of them.
 */
module FrameMetadata {
  import opened Outcomes
  import opened Arithmetic
  import opened RegionSweep

  /** `metadata_bytes_for`: a bitmap, the descriptors, the ranges, and room to align them. */
  function MetadataBytes(frames: nat, ranges: nat): nat { (frames + 63) / 64 * 8 + frames * 16 + ranges * 24 + 7 }

  function Total(runs: seq<Run>): nat { if runs == [] then 0 else Total(runs[..|runs| - 1]) + runs[|runs| - 1].count }

  // ---------------------------------------------------------------------
  // Frames and runs, counted

  ghost function PagesIn(base: nat, page: nat, n: nat): (s: set<nat>)
    requires page > 0
    ensures |s| == n && forall b :: b in s ==> base <= b && b + page <= base + Times(n, page)
  {
    if n == 0 then {} else PagesIn(base, page, n - 1) + {base + Times(n - 1, page)}
  }

  lemma {:induction false} PageIn(base: nat, page: nat, n: nat, b: nat)
    requires page > 0 && Remainder(base, page) == 0
    ensures b in PagesIn(base, page, n) <==> InRun(Run(base, n), page, b)
    decreases n
  {
    if n > 0 {
      PageIn(base, page, n - 1, b);
      LastPage(base, page, n, b);
    }
  }

  lemma LastPage(base: nat, page: nat, n: nat, b: nat)
    requires page > 0 && Remainder(base, page) == 0 && n > 0
    ensures InRun(Run(base, n), page, b) <==> InRun(Run(base, n - 1), page, b) || b == base + Times(n - 1, page)
  {
    var last := base + Times(n - 1, page);
    RemainderAdds(base, n - 1, page);
    if Remainder(b, page) == 0 && b < last {
      InBlockOnly(b, last, page);
    }
    if Remainder(b, page) == 0 && last < b {
      InBlockOnly(last, b, page);
    }
  }

  /** Aligned addresses less than a page apart are the same. */
  lemma InBlockOnly(b: nat, last: nat, page: nat)
    requires page > 0 && Remainder(b, page) == 0 && Remainder(last, page) == 0 && b < last
    ensures b + page <= last
  {
    QuotientBounds(b, page);
    QuotientBounds(last, page);
    if Quotient(last, page) <= Quotient(b, page) {
      TimesMono(Quotient(last, page), Quotient(b, page), page);
    } else {
      TimesMono(Quotient(b, page) + 1, Quotient(last, page), page);
    }
  }

  ghost function Pages(runs: seq<Run>, page: nat): set<nat>
    requires page > 0
  {
    if runs == [] then {}
    else
      var last := runs[|runs| - 1];
      Pages(runs[..|runs| - 1], page) + PagesIn(last.base, page, last.count)
  }

  ghost function Bases(runs: seq<Run>): set<nat> { set i | 0 <= i < |runs| :: runs[i].base }

  lemma AscendingFront(runs: seq<Run>, page: nat)
    requires page > 0 && Ascending(runs, page) && runs != []
    ensures Ascending(runs[..|runs| - 1], page)
  {
  }

  lemma {:induction false} PageCovered(runs: seq<Run>, page: nat, b: nat)
    requires page > 0 && Ascending(runs, page)
    ensures b in Pages(runs, page) <==> Covered(runs, page, b)
  {
    if runs != [] {
      var front, last := runs[..|runs| - 1], runs[|runs| - 1];
      AscendingFront(runs, page);
      PageCovered(front, page, b);
      assert runs == front + [last];
      CoveredMore(front, last, page, b);
      PageIn(last.base, page, last.count, b);
    }
  }

  lemma {:induction false} PagesCounted(runs: seq<Run>, page: nat)
    requires page > 0 && Ascending(runs, page)
    ensures |Pages(runs, page)| == Total(runs)
  {
    if runs != [] {
      var front, last := runs[..|runs| - 1], runs[|runs| - 1];
      AscendingFront(runs, page);
      PagesCounted(front, page);
      forall b | b in Pages(front, page) ensures b !in PagesIn(last.base, page, last.count) {
        PageBefore(runs, page, b);
      }
      assert Pages(front, page) !! PagesIn(last.base, page, last.count);
    }
  }

  lemma PageBefore(runs: seq<Run>, page: nat, b: nat)
    requires page > 0 && Ascending(runs, page) && runs != [] && b in Pages(runs[..|runs| - 1], page)
    ensures b < runs[|runs| - 1].base
  {
    var front := runs[..|runs| - 1];
    AscendingFront(runs, page);
    PageCovered(front, page, b);
    var i :| 0 <= i < |front| && InRun(front[i], page, b);
    assert front[i] == runs[i];
  }

  lemma {:induction false} BasesCounted(runs: seq<Run>, page: nat)
    requires page > 0 && Ascending(runs, page)
    ensures |Bases(runs)| == |runs|
  {
    if runs != [] {
      var front, last := runs[..|runs| - 1], runs[|runs| - 1];
      AscendingFront(runs, page);
      BasesCounted(front, page);
      assert Bases(runs) == Bases(front) + {last.base} by {
        assert forall i :: 0 <= i < |front| ==> front[i] == runs[i];
      }
      assert last.base !in Bases(front);
    }
  }

  /** A run begins exactly at a covered page whose predecessor is not covered. */
  lemma BaseIff(runs: seq<Run>, page: nat, b: nat)
    requires page > 0 && Ascending(runs, page)
    ensures b in Bases(runs) <==> Covered(runs, page, b) && !(page <= b && Covered(runs, page, b - page))
  {
    if b in Bases(runs) {
      var i :| 0 <= i < |runs| && runs[i].base == b;
      TimesMono(1, runs[i].count, page);
      assert InRun(runs[i], page, b);
      forall j | 0 <= j < |runs| && page <= b ensures !InRun(runs[j], page, b - page) {
        assert j < i ==> runs[j].base + Times(runs[j].count, page) < runs[i].base;
        assert i < j ==> runs[i].base + Times(runs[i].count, page) < runs[j].base;
      }
    } else if Covered(runs, page, b) {
      var i :| 0 <= i < |runs| && InRun(runs[i], page, b);
      InBlockOnly(runs[i].base, b, page);
      RemainderDrop(b, page);
      assert InRun(runs[i], page, b - page);
    }
  }

  lemma RemainderDrop(b: nat, page: nat)
    requires page > 0 && page <= b && Remainder(b, page) == 0
    ensures Remainder(b - page, page) == 0
  {
  }

  lemma Fewer(a: set<nat>, b: set<nat>)
    requires a <= b
    ensures |a| <= |b|
  {
    assert a + (b - a) == b;
  }

  // ---------------------------------------------------------------------
  // The carve

  /** The ranges of a normalized map: usable, in order, and with something between any two of them. */
  ghost predicate Normalized(usable: seq<Region>) {
    && (forall i :: 0 <= i < |usable| ==> usable[i].usable && usable[i].size > 0 && usable[i].Fits())
    && (forall i, j :: 0 <= i < j < |usable| ==> usable[i].base + usable[i].size < usable[j].base)
  }

  ghost predicate CarvedFrom(usable: seq<Region>, i: nat, carve: nat, piece: Region) {
    i < |usable| && 0 < carve < usable[i].size && piece == Region(usable[i].base + usable[i].size - carve, carve, false)
  }

  /** What is free with the piece reserved is what was free, less the piece. */
  lemma FreeCarved(usable: seq<Region>, piece: Region, a: nat)
    requires !piece.usable && piece.size > 0
    ensures Free(usable + [piece], a) <==> Free(usable, a) && !piece.Covers(a)
  {
    var more := usable + [piece];
    assert more[|usable|] == piece;
    assert forall i :: 0 <= i < |usable| ==> more[i] == usable[i];
  }

  /** The byte behind a range is not free. */
  lemma GapBehind(usable: seq<Region>, i: nat)
    requires Normalized(usable) && i < |usable|
    ensures !Free(usable, usable[i].base + usable[i].size)
  {
    var end := usable[i].base + usable[i].size;
    forall j | 0 <= j < |usable| ensures !usable[j].Covers(end) {
      if j > i {
        assert usable[i].base + usable[i].size < usable[j].base;
      } else if j < i {
        assert usable[j].base + usable[j].size < usable[i].base;
      }
    }
  }

  lemma EligibleCarved(usable: seq<Region>, piece: Region, page: nat, b: nat)
    requires page > 0 && !piece.usable && piece.size > 0
    ensures Eligible(usable + [piece], page, b) <==>
            Eligible(usable, page, b) && (b + page <= piece.base || piece.base + piece.size <= b)
  {
    assert piece.Covers(piece.base);
    forall a: nat ensures Free(usable + [piece], a) <==> Free(usable, a) && !piece.Covers(a) {
      FreeCarved(usable, piece, a);
    }
    if FreeBetween(usable + [piece], b, b + page) {
      assert !piece.Covers(b) && !piece.Covers(b + page - 1);
    }
  }

  /** No managed frame has a byte of the piece. */
  lemma MetadataApart(usable: seq<Region>, piece: Region, page: nat, runs: seq<Run>, b: nat, a: nat)
    requires !piece.usable && piece.size > 0 && SweptAll(runs, page, usable + [piece])
    requires Covered(runs, page, b) && b <= a < b + page
    ensures !piece.Covers(a)
  {
    EligibleCarved(usable, piece, page, b);
  }

  /** The carve makes no new run: a page behind it was never the continuation of one before it. */
  lemma StartKept(usable: seq<Region>, i: nat, carve: nat, piece: Region, page: nat, b: nat)
    requires page > 0 && Normalized(usable) && CarvedFrom(usable, i, carve, piece)
    requires Eligible(usable + [piece], page, b) && !(page <= b && Eligible(usable + [piece], page, b - page))
    ensures Eligible(usable, page, b) && !(page <= b && Eligible(usable, page, b - page))
  {
    EligibleCarved(usable, piece, page, b);
    GapBehind(usable, i);
    var end := piece.base + piece.size;
    if page <= b {
      EligibleCarved(usable, piece, page, b - page);
      assert !(end < b && FreeBetween(usable, b - page, b)) || end < b - page;
    }
  }

  /** `runs` are the runs of whole free pages of these regions. */
  ghost predicate SweptAll(runs: seq<Run>, page: nat, regions: seq<Region>) {
    page > 0 && Ascending(runs, page) && forall b: nat :: Covered(runs, page, b) <==> Eligible(regions, page, b)
  }

  lemma FewerFrames(usable: seq<Region>, piece: Region, page: nat, before: seq<Run>, after: seq<Run>)
    requires !piece.usable && piece.size > 0 && SweptAll(before, page, usable)
    requires SweptAll(after, page, usable + [piece])
    ensures Total(after) <= Total(before)
  {
    forall b | b in Pages(after, page) ensures b in Pages(before, page) {
      PageCovered(after, page, b);
      PageCovered(before, page, b);
      EligibleCarved(usable, piece, page, b);
    }
    Fewer(Pages(after, page), Pages(before, page));
    PagesCounted(after, page);
    PagesCounted(before, page);
  }

  lemma FewerRuns(usable: seq<Region>, i: nat, carve: nat, piece: Region, page: nat, before: seq<Run>, after: seq<Run>)
    requires Normalized(usable) && CarvedFrom(usable, i, carve, piece)
    requires SweptAll(before, page, usable) && SweptAll(after, page, usable + [piece])
    ensures |after| <= |before|
  {
    forall b | b in Bases(after) ensures b in Bases(before) {
      BaseIff(after, page, b);
      StartKept(usable, i, carve, piece, page, b);
      BaseIff(before, page, b);
    }
    Fewer(Bases(after), Bases(before));
    BasesCounted(after, page);
    BasesCounted(before, page);
  }

  /** So the tables of what is left fit where those of the whole were to go. */
  lemma Suffices(usable: seq<Region>, i: nat, carve: nat, piece: Region, page: nat, before: seq<Run>, after: seq<Run>)
    requires Normalized(usable) && CarvedFrom(usable, i, carve, piece)
    requires SweptAll(before, page, usable) && SweptAll(after, page, usable + [piece])
    ensures MetadataBytes(Total(after), |after|) <= MetadataBytes(Total(before), |before|)
  {
    FewerFrames(usable, piece, page, before, after);
    FewerRuns(usable, i, carve, piece, page, before, after);
    BytesMono(Total(after), Total(before), |after|, |before|);
  }

  lemma BytesMono(f: nat, g: nat, r: nat, q: nat)
    requires f <= g && r <= q
    ensures MetadataBytes(f, r) <= MetadataBytes(g, q)
  {
  }

  function PageRounded(bytes: nat, page: nat): (r: nat)
    requires page > 0
    ensures r >= bytes
  {
    bytes + (page - Remainder(bytes, page)) - (if Remainder(bytes, page) == 0 then page else 0)
  }

  /**
   `MemoryManager::initialize` from a normalized map: the topmost range larger than
   the tables gives up its end. What is managed then has no byte of them, and they
   are large enough for it.
   */
  method Initialize(usable: seq<Region>, page: nat)
    returns (s: Status, piece: Region, runs: seq<Run>, ghost all: seq<Run>)
    requires Normalized(usable)
    ensures s == InvalidArgument <==> page == 0 || !PowerOfTwo(page)
    ensures s == Success ==>
              && SweptAll(runs, page, usable + [piece]) && runs != [] && !piece.usable && piece.size > 0
              && (exists i: nat :: CarvedFrom(usable, i, piece.size, piece) &&
                                   forall j :: i < j < |usable| ==> usable[j].size <= piece.size)
              && MetadataBytes(Total(runs), |runs|) <= piece.size
    ensures s in {Success, InvalidArgument, NoMemory}
    ensures s != InvalidArgument ==> SweptAll(all, page, usable)
    ensures s == NoMemory ==>
              || all == []
              || (var carve := PageRounded(MetadataBytes(Total(all), |all|), page);
                  || (forall j :: 0 <= j < |usable| ==> usable[j].size <= carve)
                  || (piece.size == carve && (exists i: nat :: CarvedFrom(usable, i, carve, piece)) &&
                      SweptAll([], page, usable + [piece])))
  {
    piece := Region(0, 0, false);
    var whole;
    s, whole := SweepUsable(usable, page);
    runs, all := [], whole;
    if s != Success {
      return;
    }
    if whole == [] {
      return NoMemory, piece, runs, all;
    }
    var carve := PageRounded(MetadataBytes(Total(whole), |whole|), page);
    var i := |usable|;
    while i > 0
      invariant 0 <= i <= |usable| && forall j :: i <= j < |usable| ==> usable[j].size <= carve
    {
      i := i - 1;
      if usable[i].size > carve {
        piece := Region(usable[i].base + usable[i].size - carve, carve, false);
        s, runs := SweepUsable(usable + [piece], page);
        assert CarvedFrom(usable, i, carve, piece);
        Suffices(usable, i, carve, piece, page, all, runs);
        if runs == [] {
          return NoMemory, piece, runs, all;
        }
        return Success, piece, runs, all;
      }
    }
    return NoMemory, piece, runs, all;
  }
}
