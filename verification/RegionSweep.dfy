/**
 The sweep over boot memory regions (src/memory/memory.cpp): overlapping usable
 and reserved regions in any order become ascending runs of whole usable pages.
 */
module RegionSweep {
  import opened Outcomes
  import opened Arithmetic

  /** The largest address of the machine. */
  const ADDRESS_LIMIT: nat := 0xffff_ffff_ffff_ffff

  datatype Region = Region(base: nat, size: nat, usable: bool) {
    predicate Covers(a: nat) { base <= a < base + size }

    predicate Fits() { base + size <= ADDRESS_LIMIT }

    /** An address where this region begins or ends. */
    predicate Edge(a: nat) { size > 0 && (a == base || a == base + size) }
  }

  /** `count` pages from `base` on. */
  datatype Run = Run(base: nat, count: nat)

  /** `page_size & (page_size - 1)` is zero. */
  predicate PowerOfTwo(n: nat) { n == 1 || (n > 1 && n % 2 == 0 && PowerOfTwo(n / 2)) }

  // ---------------------------------------------------------------------
  // What the sweep is for

  predicate Free(regions: seq<Region>, a: nat) {
    && (exists i :: 0 <= i < |regions| && regions[i].usable && regions[i].Covers(a))
    && (forall i :: 0 <= i < |regions| && regions[i].Covers(a) ==> regions[i].usable)
  }

  ghost predicate FreeBetween(regions: seq<Region>, from: nat, to: nat) {
    forall a: nat :: from <= a < to ==> Free(regions, a)
  }

  /** A page all of whose bytes are usable and not reserved. */
  ghost predicate Eligible(regions: seq<Region>, page: nat, b: nat)
    requires page > 0
  {
    Remainder(b, page) == 0 && FreeBetween(regions, b, b + page)
  }

  predicate InRun(r: Run, page: nat, b: nat)
    requires page > 0
  {
    Remainder(b, page) == 0 && r.base <= b && b + page <= r.base + Times(r.count, page)
  }

  ghost predicate Covered(runs: seq<Run>, page: nat, b: nat)
    requires page > 0
  {
    exists i :: 0 <= i < |runs| && InRun(runs[i], page, b)
  }

  /** Runs are aligned and not empty, and each lies behind the one before it with a gap between them. */
  ghost predicate Ascending(runs: seq<Run>, page: nat)
    requires page > 0
  {
    && (forall i :: 0 <= i < |runs| ==> Remainder(runs[i].base, page) == 0 && runs[i].count > 0)
    && (forall i, j :: 0 <= i < j < |runs| ==> runs[i].base + Times(runs[i].count, page) < runs[j].base)
  }

  // ---------------------------------------------------------------------
  // Aligned pages of an interval

  /** An aligned address at or after `a` is at or after `a` rounded up. */
  lemma RoundedUp(a: nat, b: nat, d: nat)
    requires d > 0 && Remainder(b, d) == 0 && a <= b
    ensures a + Remainder(d - Remainder(a, d), d) <= b
    ensures Remainder(a + Remainder(d - Remainder(a, d), d), d) == 0
  {
    QuotientBounds(a, d);
    QuotientBounds(b, d);
    QuotientMono(a, b, d);
    AlignedUp(a, d);
    if Remainder(a, d) != 0 && Quotient(b, d) != Quotient(a, d) {
      TimesMono(Quotient(a, d) + 1, Quotient(b, d), d);
    }
  }

  lemma AlignedUp(a: nat, d: nat)
    requires d > 0
    ensures Remainder(a + Remainder(d - Remainder(a, d), d), d) == 0
    ensures Remainder(d - Remainder(a, d), d) == if Remainder(a, d) == 0 then 0 else d - Remainder(a, d)
  {
    QuotientBounds(a, d);
    if Remainder(a, d) != 0 {
      RemainderAdds(0, Quotient(a, d) + 1, d);
    } else {
      assert Remainder(d, d) == 0;
    }
  }

  /** An aligned page that ends by `a` ends by `a` rounded down. */
  lemma RoundedDown(a: nat, b: nat, d: nat)
    requires d > 0 && Remainder(b, d) == 0 && b <= a
    ensures b <= a - Remainder(a, d)
  {
    QuotientBounds(a, d);
    QuotientBounds(b, d);
    QuotientMono(b, a, d);
    TimesMono(Quotient(b, d), Quotient(a, d), d);
  }

  /** `append`: the run of whole pages between two addresses, if there is one. */
  method PagesBetween(start: nat, end: nat, page: nat) returns (found: bool, run: Run)
    requires page > 0 && start < end
    ensures found ==> run.count > 0 && Remainder(run.base, page) == 0
    ensures found ==> start <= run.base && run.base + Times(run.count, page) <= end
    ensures found ==> forall b: nat :: InRun(run, page, b) <==> Remainder(b, page) == 0 && start <= b && b + page <= end
    ensures !found ==> forall b: nat :: !(Remainder(b, page) == 0 && start <= b && b + page <= end)
  {
    run := Run(0, 0);
    var adjustment := Remainder(page - Remainder(start, page), page);
    AlignedUp(start, page);
    forall b: nat | Remainder(b, page) == 0 && start <= b && b + page <= end
      ensures start + adjustment <= b && b + page <= end - Remainder(end, page)
    {
      RoundedUp(start, b, page);
      RemainderAdds(b, 1, page);
      assert Times(1, page) == page;
      RoundedDown(end, b + page, page);
    }
    if adjustment >= end - start {
      return false, run;
    }
    var first, last := start + adjustment, end - Remainder(end, page);
    if last <= first {
      return false, run;
    }
    WholePages(first, last, end, page);
    return true, Run(first, Quotient(last - first, page));
  }

  /** Between two aligned addresses there are only whole pages. */
  lemma WholePages(first: nat, last: nat, end: nat, d: nat)
    requires d > 0 && Remainder(first, d) == 0 && last == end - Remainder(end, d) && first < last
    ensures Times(Quotient(last - first, d), d) == last - first && Quotient(last - first, d) > 0
  {
    QuotientBounds(first, d);
    QuotientBounds(end, d);
    var k, m := Quotient(first, d), Quotient(end, d);
    if m <= k {
      TimesMono(m, k, d);
    } else {
      TimesAdd(k, m - k, d);
      QuotientIs(Times(m - k, d), d, m - k, 0);
    }
  }

  // ---------------------------------------------------------------------
  // One segment between neighbouring edges

  /** What one pass over the regions learns at `cursor`. */
  datatype Look = Look(usable: bool, reserved: bool, found: bool, next: nat)

  ghost predicate EdgeAfter(regions: seq<Region>, n: nat, cursor: nat, a: nat)
    requires n <= |regions|
  {
    a > cursor && exists i :: 0 <= i < n && regions[i].Edge(a)
  }

  /** The pass over the first `n` regions is right. */
  ghost predicate Looked(regions: seq<Region>, n: nat, cursor: nat, look: Look)
    requires n <= |regions|
  {
    && (look.usable <==> exists i :: 0 <= i < n && regions[i].usable && regions[i].Covers(cursor))
    && (look.reserved <==> exists i :: 0 <= i < n && !regions[i].usable && regions[i].Covers(cursor))
    && (look.found ==> EdgeAfter(regions, n, cursor, look.next))
    && (forall a: nat :: EdgeAfter(regions, n, cursor, a) ==> look.found && look.next <= a)
  }

  /** The pass over all regions. */
  method LookAround(regions: seq<Region>, cursor: nat) returns (look: Look)
    ensures Looked(regions, |regions|, cursor, look)
  {
    look := Look(false, false, false, ADDRESS_LIMIT);
    for n := 0 to |regions|
      invariant Looked(regions, n, cursor, look)
    {
      var region := regions[n];
      ghost var before := look;
      if region.size != 0 {
        var end := region.base + region.size;
        if region.base <= cursor < end {
          look := look.(usable := look.usable || region.usable, reserved := look.reserved || !region.usable);
        }
        if region.base > cursor && (!look.found || region.base < look.next) {
          look := look.(next := region.base, found := true);
        }
        if end > cursor && (!look.found || end < look.next) {
          look := look.(next := end, found := true);
        }
      }
      LookedMore(regions, n, cursor, before, look);
    }
  }

  lemma LookedMore(regions: seq<Region>, n: nat, cursor: nat, before: Look, look: Look)
    requires n < |regions| && Looked(regions, n, cursor, before)
    requires var r := regions[n];
             && look.usable == (before.usable || (r.usable && r.Covers(cursor)))
             && look.reserved == (before.reserved || (!r.usable && r.Covers(cursor)))
             && (look.found ==> (before.found && look.next == before.next) || (look.next > cursor && r.Edge(look.next)))
             && (before.found ==> look.found && look.next <= before.next)
             && (forall a: nat :: a > cursor && r.Edge(a) ==> look.found && look.next <= a)
    ensures Looked(regions, n + 1, cursor, look)
  {
    if before.found {
      var i :| 0 <= i < n && regions[i].Edge(before.next);
    }
    if look.found && !(before.found && look.next == before.next) {
      assert regions[n].Edge(look.next);
    }
    var m := n + 1;
    forall a: nat | EdgeAfter(regions, m, cursor, a) ensures look.found && look.next <= a {
      var i :| 0 <= i < m && regions[i].Edge(a);
      assert i < n ==> EdgeAfter(regions, n, cursor, a);
    }
  }

  /** Between neighbouring edges all bytes are alike. */
  lemma Alike(regions: seq<Region>, cursor: nat, look: Look, a: nat)
    requires Looked(regions, |regions|, cursor, look) && cursor <= a && (look.found ==> a < look.next)
    ensures Free(regions, a) <==> look.usable && !look.reserved
  {
    forall i | 0 <= i < |regions| ensures regions[i].Covers(a) <==> regions[i].Covers(cursor) {
      var r := regions[i];
      if r.size > 0 {
        assert r.Edge(r.base) && r.Edge(r.base + r.size);
        assert r.base > cursor ==> EdgeAfter(regions, |regions|, cursor, r.base);
        assert r.base + r.size > cursor ==> EdgeAfter(regions, |regions|, cursor, r.base + r.size);
      }
    }
  }

  // ---------------------------------------------------------------------
  // The sweep

  /** Below `level` the runs are exactly the eligible pages, and no eligible page lies across it. */
  ghost predicate Swept(regions: seq<Region>, page: nat, runs: seq<Run>, level: nat)
    requires page > 0
  {
    && Ascending(runs, page)
    && (forall i :: 0 <= i < |runs| ==> runs[i].base + Times(runs[i].count, page) <= level)
    && (forall b: nat :: Covered(runs, page, b) <==> Eligible(regions, page, b) && b + page <= level)
    && (level == 0 || !Free(regions, level - 1))
  }

  ghost predicate NoneFree(regions: seq<Region>, from: nat, to: nat) {
    forall a: nat :: from <= a < to ==> !Free(regions, a)
  }

  /** An eligible page below `next` is below `level`, when nothing in between is free. */
  lemma NotAcross(regions: seq<Region>, page: nat, level: nat, next: nat, b: nat)
    requires page > 0 && Eligible(regions, page, b) && NoneFree(regions, level, next) && b + page <= next
    ensures b + page <= level
  {
    assert Free(regions, b + page - 1);
  }

  lemma SweptSkip(regions: seq<Region>, page: nat, runs: seq<Run>, level: nat, next: nat)
    requires page > 0 && Swept(regions, page, runs, level) && level <= next && NoneFree(regions, level, next)
    ensures Swept(regions, page, runs, next)
  {
    forall b: nat | Eligible(regions, page, b) && b + page <= next ensures b + page <= level {
      NotAcross(regions, page, level, next, b);
    }
  }

  /** The pages of a finished run. */
  lemma SweptRun(regions: seq<Region>, page: nat, runs: seq<Run>, level: nat, cursor: nat, next: nat, found: bool,
                 run: Run)
    requires page > 0 && Swept(regions, page, runs, level) && level < cursor < next
    requires FreeBetween(regions, level, cursor) && NoneFree(regions, cursor, next)
    requires found ==>
              run.count > 0 && Remainder(run.base, page) == 0 && level <= run.base &&
                  run.base + Times(run.count, page) <= cursor
    requires found ==> forall b: nat :: InRun(run, page, b) <==>
              Remainder(b, page) == 0 && level <= b && b + page <= cursor
    requires !found ==> forall b: nat :: !(Remainder(b, page) == 0 && level <= b && b + page <= cursor)
    ensures Swept(regions, page, if found then runs + [run] else runs, next)
  {
    var more := if found then runs + [run] else runs;
    forall i | 0 <= i < |runs| ensures runs[i].base + Times(runs[i].count, page) < level {
      EndsBefore(regions, page, runs, level, i);
    }
    forall b: nat
      ensures Covered(more, page, b) <==> Eligible(regions, page, b) && b + page <= next
    {
      if found {
        CoveredMore(runs, run, page, b);
      }
      if Eligible(regions, page, b) && b + page <= next {
        NotAcross(regions, page, cursor, next, b);
        if b + page > level {
          assert level == 0 || b >= level || b <= level - 1 < b + page;
        }
      }
    }
  }

  /** The last byte of a run is free, and the byte before `level` is not. */
  lemma EndsBefore(regions: seq<Region>, page: nat, runs: seq<Run>, level: nat, i: nat)
    requires page > 0 && Swept(regions, page, runs, level) && i < |runs|
    ensures runs[i].base + Times(runs[i].count, page) < level
  {
    var r := runs[i];
    var last := r.base + Times(r.count - 1, page);
    RemainderAdds(r.base, r.count - 1, page);
    assert InRun(r, page, last);
    assert Eligible(regions, page, last);
    assert Free(regions, last + page - 1);
  }

  lemma CoveredMore(runs: seq<Run>, run: Run, page: nat, b: nat)
    requires page > 0
    ensures Covered(runs + [run], page, b) <==> Covered(runs, page, b) || InRun(run, page, b)
  {
    var more := runs + [run];
    if i :| 0 <= i < |runs| && InRun(runs[i], page, b) {
      assert InRun(more[i], page, b);
    }
    if InRun(run, page, b) {
      assert InRun(more[|runs|], page, b);
    }
  }

  /** The least base of a region that is not empty. */
  method FirstBase(regions: seq<Region>) returns (s: Status, cursor: nat)
    ensures s == Success <==> forall i :: 0 <= i < |regions| ==> regions[i].Fits()
    ensures s == Success || s == Overflow
    ensures s == Success ==> cursor <= ADDRESS_LIMIT && forall i :: 0 <= i < |regions| && regions[i].size > 0 ==>
            cursor <= regions[i].base
  {
    cursor := ADDRESS_LIMIT;
    for i := 0 to |regions|
      invariant cursor <= ADDRESS_LIMIT
      invariant forall j :: 0 <= j < i ==> regions[j].Fits() && (regions[j].size > 0 ==> cursor <= regions[j].base)
    {
      if regions[i].base > ADDRESS_LIMIT || regions[i].size > ADDRESS_LIMIT - regions[i].base {
        return Overflow, cursor;
      }
      if regions[i].size != 0 && regions[i].base < cursor {
        cursor := regions[i].base;
      }
    }
    return Success, cursor;
  }

  /**
   `sweep_usable`: ascending, disjoint runs whose pages are exactly the aligned
   pages that are usable throughout and reserved nowhere.
   */
  method SweepUsable(regions: seq<Region>, page: nat) returns (s: Status, runs: seq<Run>)
    ensures s == if page == 0 || !PowerOfTwo(page) then InvalidArgument
                 else if forall i :: 0 <= i < |regions| ==> regions[i].Fits() then Success
                 else Overflow
    ensures s == Success ==> page > 0 && Ascending(runs, page)
    ensures s == Success ==> forall b: nat :: Covered(runs, page, b) <==> Eligible(regions, page, b)
  {
    runs := [];
    if page == 0 || !PowerOfTwo(page) {
      return InvalidArgument, runs;
    }
    var cursor;
    s, cursor := FirstBase(regions);
    if s != Success {
      return;
    }
    SweptStart(regions, page, cursor);
    var inRun, runStart: nat := false, 0;
    while true
      invariant cursor <= ADDRESS_LIMIT
      invariant inRun ==> runStart < cursor && FreeBetween(regions, runStart, cursor)
      invariant Swept(regions, page, runs, if inRun then runStart else cursor)
      decreases ADDRESS_LIMIT - cursor
    {
      var look := LookAround(regions, cursor);
      forall a: nat | cursor <= a && (look.found ==> a < look.next)
        ensures Free(regions, a) <==> look.usable && !look.reserved
      {
        Alike(regions, cursor, look, a);
      }
      if !look.found {
        NothingBeyond(regions, cursor, look);
        break;
      }
      EdgeFits(regions, cursor, look);
      if look.usable && !look.reserved {
        if !inRun {
          runStart, inRun := cursor, true;
        }
      } else if inRun {
        var found, run := PagesBetween(runStart, cursor, page);
        SweptRun(regions, page, runs, runStart, cursor, look.next, found, run);
        runs := if found then runs + [run] else runs;
        inRun := false;
      } else {
        SweptSkip(regions, page, runs, cursor, look.next);
      }
      cursor := look.next;
    }
    if inRun {
      var found, run := PagesBetween(runStart, cursor, page);
      SweptRun(regions, page, runs, runStart, cursor, cursor + 1, found, run);
      runs := if found then runs + [run] else runs;
      SweptEnd(regions, page, runs, cursor + 1);
    } else {
      SweptEnd(regions, page, runs, cursor);
    }
  }

  lemma SweptStart(regions: seq<Region>, page: nat, cursor: nat)
    requires page > 0 && forall i :: 0 <= i < |regions| && regions[i].size > 0 ==> cursor <= regions[i].base
    ensures Swept(regions, page, [], cursor)
  {
    forall b: nat | Eligible(regions, page, b) ensures b + page > cursor {
      assert Free(regions, b);
    }
  }

  /** With no edge after `cursor`, nothing from there on is free. */
  lemma NothingBeyond(regions: seq<Region>, cursor: nat, look: Look)
    requires Looked(regions, |regions|, cursor, look) && !look.found
    ensures forall a: nat :: a >= cursor ==> !Free(regions, a)
  {
    forall a: nat | a >= cursor && Free(regions, a) ensures false {
      var i :| 0 <= i < |regions| && regions[i].usable && regions[i].Covers(a);
      var r := regions[i];
      assert r.Edge(r.base + r.size);
      assert EdgeAfter(regions, |regions|, cursor, r.base + r.size);
    }
  }

  lemma SweptEnd(regions: seq<Region>, page: nat, runs: seq<Run>, level: nat)
    requires page > 0 && Swept(regions, page, runs, level) && forall a: nat :: a >= level ==> !Free(regions, a)
    ensures forall b: nat :: Covered(runs, page, b) <==> Eligible(regions, page, b)
  {
    forall b: nat | Eligible(regions, page, b) ensures b + page <= level {
      NotAcross(regions, page, level, b + page, b);
    }
  }

  lemma EdgeFits(regions: seq<Region>, cursor: nat, look: Look)
    requires Looked(regions, |regions|, cursor, look) && look.found && forall i :: 0 <= i < |regions| ==>
              regions[i].Fits()
    ensures cursor < look.next <= ADDRESS_LIMIT
  {
    var i :| 0 <= i < |regions| && regions[i].Edge(look.next);
  }
}
