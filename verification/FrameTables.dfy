/**
 The index and address tables of the frame allocator (src/memory/memory.cpp):
 runs of pages become ranges of frame indices, and two binary searches translate
 between a frame's index and its address.
 */
module FrameTables {
  import opened Outcomes
  import opened Arithmetic
  import opened RegionSweep

  datatype Range = Range(base: nat, first: nat, count: nat)

  /** Ranges number the frames without gaps, in ascending and disjoint address order. */
  ghost predicate Tabled(ranges: seq<Range>, page: nat, frames: nat)
    requires page > 0
  {
    && (forall i :: 0 <= i < |ranges| ==> ranges[i].count > 0)
    && (forall i :: 0 <= i < |ranges| ==> Numbered(ranges, i))
    && (forall i, j :: 0 <= i < j < |ranges| ==>
          && ranges[i].first + ranges[i].count <= ranges[j].first
          && ranges[i].base + Times(ranges[i].count, page) <= ranges[j].base)
    && frames == if ranges == [] then 0 else ranges[|ranges| - 1].first + ranges[|ranges| - 1].count
  }

  /** A range starts where the one before it ends. */
  predicate Numbered(ranges: seq<Range>, i: nat)
    requires i < |ranges|
  {
    ranges[i].first == if i == 0 then 0 else ranges[i - 1].first + ranges[i - 1].count
  }

  /** The table of a list of runs, as `initialize` builds it. */
  method BuildRanges(runs: seq<Run>, page: nat) returns (ranges: seq<Range>, frames: nat)
    requires page > 0 && Ascending(runs, page)
    ensures Tabled(ranges, page, frames) && |ranges| == |runs|
    ensures forall i :: 0 <= i < |runs| ==> ranges[i].base == runs[i].base && ranges[i].count == runs[i].count
  {
    ranges, frames := [], 0;
    for k := 0 to |runs|
      invariant |ranges| == k
      invariant forall i :: 0 <= i < k ==> ranges[i].base == runs[i].base && ranges[i].count == runs[i].count
      invariant Tabled(ranges, page, frames)
    {
      var range := Range(runs[k].base, frames, runs[k].count);
      TabledMore(ranges, page, frames, range);
      ranges := ranges + [range];
      frames := frames + runs[k].count;
    }
  }

  /** A range behind all others extends the table. */
  lemma TabledMore(ranges: seq<Range>, page: nat, frames: nat, r: Range)
    requires page > 0 && Tabled(ranges, page, frames) && r.first == frames && r.count > 0
    requires forall i :: 0 <= i < |ranges| ==> ranges[i].base + Times(ranges[i].count, page) <= r.base
    ensures Tabled(ranges + [r], page, frames + r.count)
  {
    var more := ranges + [r];
    forall i | 0 <= i < |more| ensures Numbered(more, i) {
      assert i < |ranges| ==> Numbered(ranges, i);
    }
    forall i | 0 <= i < |ranges| ensures ranges[i].first + ranges[i].count <= frames {
      LastCovers(ranges, page, frames, i);
    }
  }

  /** Frame `index` lies in range `r`. */
  predicate Within(r: Range, index: nat) { r.first <= index < r.first + r.count }

  function AddressIn(r: Range, page: nat, index: nat): nat
    requires Within(r, index)
  {
    r.base + Times(index - r.first, page)
  }

  /** The address of a frame, by whichever range holds it. */
  ghost predicate HasAddress(ranges: seq<Range>, page: nat, index: nat, address: nat) {
    exists i :: 0 <= i < |ranges| && Within(ranges[i], index) && address == AddressIn(ranges[i], page, index)
  }

  /** Every frame index lies in exactly one range. */
  lemma {:induction false} Placed(ranges: seq<Range>, page: nat, frames: nat, index: nat, n: nat) returns (i: nat)
    requires page > 0 && Tabled(ranges, page, frames) && n < |ranges| && index < ranges[n].first + ranges[n].count
    ensures i < |ranges| && Within(ranges[i], index)
    ensures forall j :: 0 <= j < |ranges| && Within(ranges[j], index) ==> j == i
  {
    assert Numbered(ranges, n);
    if index >= ranges[n].first {
      i := n;
    } else {
      i := Placed(ranges, page, frames, index, n - 1);
    }
  }

  /** `address_for`: the one address of a frame, and 0 for an index beyond them. */
  method AddressFor(ranges: seq<Range>, page: nat, ghost frames: nat, index: nat) returns (address: nat)
    requires page > 0 && Tabled(ranges, page, frames)
    ensures index < frames ==> HasAddress(ranges, page, index, address)
    ensures index >= frames ==> address == 0
  {
    var low, high := 0, |ranges|;
    while low < high
      invariant 0 <= low <= high <= |ranges|
      invariant forall j :: 0 <= j < low ==> ranges[j].first + ranges[j].count <= index
      invariant forall j :: high <= j < |ranges| ==> index < ranges[j].first
    {
      var middle := low + (high - low) / 2;
      var range := ranges[middle];
      if index < range.first {
        high := middle;
      } else if index - range.first >= range.count {
        low := middle + 1;
      } else {
        LastCovers(ranges, page, frames, middle);
        return range.base + Times(index - range.first, page);
      }
    }
    if index < frames {
      ghost var i := Placed(ranges, page, frames, index, |ranges| - 1);
    }
    return 0;
  }

  lemma LastCovers(ranges: seq<Range>, page: nat, frames: nat, i: nat)
    requires page > 0 && Tabled(ranges, page, frames) && i < |ranges|
    ensures ranges[i].first + ranges[i].count <= frames
  {
  }

  /** The address lies in range `r`, aligned or not. */
  predicate Spans(r: Range, page: nat, address: nat) { r.base <= address < r.base + Times(r.count, page) }

  /** Addresses inside a range, in terms of whole pages. */
  lemma SpansPages(r: Range, page: nat, address: nat)
    requires page > 0 && r.base <= address
    ensures Spans(r, page, address) <==> Quotient(address - r.base, page) < r.count
    ensures Times(Quotient(address - r.base, page), page) + Remainder(address - r.base, page) == address - r.base
  {
    QuotientBounds(address - r.base, page);
    var q := Quotient(address - r.base, page);
    if q < r.count {
      TimesMono(q + 1, r.count, page);
    } else {
      TimesMono(r.count, q, page);
    }
  }

  /** A frame's address is aligned in its range. */
  lemma AddressSpans(r: Range, page: nat, index: nat)
    requires page > 0 && Within(r, index)
    ensures Spans(r, page, AddressIn(r, page, index))
    ensures Quotient(AddressIn(r, page, index) - r.base, page) == index - r.first
    ensures Remainder(AddressIn(r, page, index) - r.base, page) == 0
  {
    QuotientIs(Times(index - r.first, page), page, index - r.first, 0);
    TimesMono(index - r.first + 1, r.count, page);
  }

  /** `index_of`: the frame at an address, and why there is none. */
  method IndexOf(ranges: seq<Range>, page: nat, frames: nat, address: nat) returns (r: Result<nat>)
    requires page > 0 && Tabled(ranges, page, frames)
    ensures r.Ok? ==> r.value < frames && HasAddress(ranges, page, r.value, address)
    ensures r == Err(NotInitialized) <==> frames == 0
    ensures r == Err(InvalidArgument) ==>
            (exists i :: 0 <= i < |ranges| && Spans(ranges[i], page, address)) && forall k: nat ::
                !HasAddress(ranges, page, k, address)
    ensures r == Err(NotFound) ==> forall i :: 0 <= i < |ranges| ==> !Spans(ranges[i], page, address)
    ensures r.Ok? || r.status in {NotInitialized, InvalidArgument, NotFound}
  {
    if frames == 0 {
      return Err(NotInitialized);
    }
    var low, high := 0, |ranges|;
    while low < high
      invariant 0 <= low <= high <= |ranges|
      invariant forall j :: 0 <= j < low ==> !Spans(ranges[j], page, address)
      invariant forall j :: high <= j < |ranges| ==> address < ranges[j].base
    {
      var middle := low + (high - low) / 2;
      var range := ranges[middle];
      if address < range.base {
        BasesAscend(ranges, page, frames, middle, address);
        high := middle;
      } else {
        SpansPages(range, page, address);
        if Quotient(address - range.base, page) >= range.count {
          forall j | 0 <= j < middle + 1 ensures !Spans(ranges[j], page, address) {
            assert j < middle ==> ranges[j].base + Times(ranges[j].count, page) <= range.base;
          }
          low := middle + 1;
        } else if Remainder(address - range.base, page) != 0 {
          forall k: nat ensures !HasAddress(ranges, page, k, address) {
            Unaligned(ranges, page, frames, middle, address, k);
          }
          return Err(InvalidArgument);
        } else {
          LastCovers(ranges, page, frames, middle);
          var index := range.first + Quotient(address - range.base, page);
          assert Within(ranges[middle], index) && address == AddressIn(ranges[middle], page, index);
          return Ok(index);
        }
      }
    }
    return Err(NotFound);
  }

  lemma BasesAscend(ranges: seq<Range>, page: nat, frames: nat, m: nat, address: nat)
    requires page > 0 && Tabled(ranges, page, frames) && m < |ranges| && address < ranges[m].base
    ensures forall j :: m <= j < |ranges| ==> address < ranges[j].base
  {
    forall j | m < j < |ranges| ensures address < ranges[j].base {
      assert ranges[m].base + Times(ranges[m].count, page) <= ranges[j].base;
    }
  }

  /** Only one range spans an address. */
  lemma OneRange(ranges: seq<Range>, page: nat, frames: nat, i: nat, j: nat, address: nat)
    requires page > 0 && Tabled(ranges, page, frames) && i < |ranges| && j < |ranges|
    requires Spans(ranges[i], page, address) && Spans(ranges[j], page, address)
    ensures i == j
  {
  }

  lemma Unaligned(ranges: seq<Range>, page: nat, frames: nat, i: nat, address: nat, k: nat)
    requires page > 0 && Tabled(ranges, page, frames) && i < |ranges| && Spans(ranges[i], page, address)
    requires Remainder(address - ranges[i].base, page) != 0
    ensures !HasAddress(ranges, page, k, address)
  {
    if HasAddress(ranges, page, k, address) {
      var j :| 0 <= j < |ranges| && Within(ranges[j], k) && address == AddressIn(ranges[j], page, k);
      AddressSpans(ranges[j], page, k);
      OneRange(ranges, page, frames, i, j, address);
      assert false;
    }
  }

  /** The tables are inverse: an address belongs to one frame, and a frame has one address. */
  lemma Inverse(ranges: seq<Range>, page: nat, frames: nat, i: nat, j: nat, a: nat, b: nat)
    requires page > 0 && Tabled(ranges, page, frames) && HasAddress(ranges, page, i, a)
    requires HasAddress(ranges, page, j, b)
    ensures i == j <==> a == b
  {
    var p :| 0 <= p < |ranges| && Within(ranges[p], i) && a == AddressIn(ranges[p], page, i);
    var q :| 0 <= q < |ranges| && Within(ranges[q], j) && b == AddressIn(ranges[q], page, j);
    if a == b {
      OneFrame(ranges, page, frames, p, q, i, j, a);
    }
    if i == j {
      OnePlace(ranges, page, frames, p, q, i);
    }
  }

  lemma OneFrame(ranges: seq<Range>, page: nat, frames: nat, p: nat, q: nat, i: nat, j: nat, a: nat)
    requires page > 0 && Tabled(ranges, page, frames) && p < |ranges| && q < |ranges|
    requires Within(ranges[p], i) && a == AddressIn(ranges[p], page, i) && Within(ranges[q], j)
    requires a == AddressIn(ranges[q], page, j)
    ensures i == j
  {
    AddressSpans(ranges[p], page, i);
    AddressSpans(ranges[q], page, j);
    OneRange(ranges, page, frames, p, q, a);
  }

  lemma OnePlace(ranges: seq<Range>, page: nat, frames: nat, p: nat, q: nat, index: nat)
    requires page > 0 && Tabled(ranges, page, frames) && p < |ranges| && q < |ranges|
    requires Within(ranges[p], index) && Within(ranges[q], index)
    ensures p == q
  {
  }
}
