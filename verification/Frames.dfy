/**
 The physical frame allocator (src/memory/memory.cpp): a hinted search for one
 free frame, a first-fit search for a contiguous run, and handles stamped with a
 generation so that a released handle is not accepted again.
 */
module Frames {
  import opened Outcomes
  import opened Arithmetic
  import opened RegionSweep
  import opened FrameTables
  import opened FrameBits
  import opened Seals

  /** The generation counter has 64 bits and wraps to zero. */
  const MODULUS: nat := 0x1_0000_0000_0000_0000

  datatype Handle = Handle(address: nat, index: nat, generation: nat)

  function Succ(g: nat): nat { if g + 1 >= MODULUS then 0 else g + 1 }

  /** The generation was given to some frame before the counter came to `next`. */
  predicate HandedOut(g: nat, next: nat) { 0 < g < Bound(next) }

  /** Generations handed out so far are below this. */
  function Bound(next: nat): nat { if next == 0 then MODULUS else next }

  /** The bitmap covers the frames, with the bits past the last one set, and the count is exact. */
  ghost predicate Counted(words: seq<Word>, frames: nat, used: nat) {
    && |words| == (frames + 63) / 64
    && forall k :: Opened(ShapeSeal, k) ==>
         && used == Count(words, frames)
         && forall i :: frames <= i < 64 * |words| ==> Bit(words, i)
  }

  /** Used frames carry distinct generations, none of them spent, and the free ones none. */
  ghost predicate Fresh(words: seq<Word>, gens: seq<nat>, next: nat, spent: set<nat>) {
    && |gens| <= 64 * |words| && next < MODULUS
    && forall k :: Opened(FreshSeal, k) ==>
         && (forall i :: 0 <= i < |gens| ==> (gens[i] != 0 <==> Bit(words, i)) && gens[i] < Bound(next))
         && (forall i, j :: 0 <= i < j < |gens| && gens[i] == gens[j] ==> gens[i] == 0)
         && (forall g :: g in spent ==> 0 < g < Bound(next) && g !in gens)
  }

  lemma TakeCounted(words: seq<Word>, frames: nat, used: nat, i: nat)
    requires Counted(words, frames, used) && i < frames && !Bit(words, i)
    ensures Counted(Mark(words, i, true), frames, used + 1)
  {
    assert Opened(ShapeSeal, 0);
    CountMark(words, i, true, frames);
    forall j | frames <= j < 64 * |words| ensures Bit(Mark(words, i, true), j) {
      MarkBit(words, i, true, j);
    }
  }

  lemma DropCounted(words: seq<Word>, frames: nat, used: nat, i: nat)
    requires Counted(words, frames, used) && i < frames && Bit(words, i)
    ensures used > 0 && Counted(Mark(words, i, false), frames, used - 1)
  {
    assert Opened(ShapeSeal, 0);
    CountMark(words, i, false, frames);
    forall j | frames <= j < 64 * |words| ensures Bit(Mark(words, i, false), j) {
      MarkBit(words, i, false, j);
    }
  }

  lemma TakeFresh(words: seq<Word>, gens: seq<nat>, next: nat, spent: set<nat>, i: nat)
    requires Fresh(words, gens, next, spent) && next != 0 && i < |gens|
    ensures Fresh(Mark(words, i, true), gens[i := next], Succ(next), spent)
  {
    assert Opened(FreshSeal, 0);
    forall j | 0 <= j < |gens| ensures Bit(Mark(words, i, true), j) == (j == i || Bit(words, j)) {
      MarkBit(words, i, true, j);
    }
    forall g | g in spent ensures g !in gens[i := next] {
      assert forall j :: 0 <= j < |gens| ==> gens[i := next][j] == if j == i then next else gens[j];
    }
  }

  lemma DropFresh(words: seq<Word>, gens: seq<nat>, next: nat, spent: set<nat>, i: nat)
    requires Fresh(words, gens, next, spent) && i < |gens| && Bit(words, i)
    ensures Fresh(Mark(words, i, false), gens[i := 0], next, spent + {gens[i]})
  {
    assert Opened(FreshSeal, 0);
    forall j | 0 <= j < |gens| ensures Bit(Mark(words, i, false), j) == (j != i && Bit(words, j)) {
      MarkBit(words, i, false, j);
    }
    assert forall j :: 0 <= j < |gens| ==> gens[i := 0][j] == if j == i then 0 else gens[j];
  }

  /** A free frame exists when not all are in use, and it is found from any starting word. */
  lemma SomeWordFree(words: seq<Word>, frames: nat, used: nat, start: nat) returns (k: nat)
    requires Counted(words, frames, used) && used < frames && start < |words|
    ensures k < |words| && Remainder(start + k, |words|) < |words| && !Full(words[Remainder(start + k, |words|)])
  {
    assert Opened(ShapeSeal, 0);
    if forall w :: 0 <= w < |words| ==> Full(words[w]) {
      AllFull(words, frames);
    }
    var w :| 0 <= w < |words| && !Full(words[w]);
    k := Visited(start, |words|, w);
  }

  /** A clear bit belongs to a frame. */
  lemma ClearIsFrame(words: seq<Word>, frames: nat, used: nat, w: nat, b: nat)
    requires Counted(words, frames, used) && w < |words| && b < 64 && !words[w][b]
    ensures 64 * w + b < frames && !Bit(words, 64 * w + b)
  {
    assert Opened(ShapeSeal, 0);
    WordBits(words, w, b);
  }

  predicate FreeRun(words: seq<Word>, first: nat, count: nat) {
    first + count <= 64 * |words| && forall j :: first <= j < first + count ==> !Bit(words, j)
  }

  /** `count` free frames from `first` on, all in range `i`, the first suitably aligned. */
  ghost predicate Fits(words: seq<Word>, ranges: seq<Range>, page: nat, count: nat, alignment: nat, i: nat, first: nat)
  {
    && i < |ranges| && ranges[i].first <= first && first + count <= ranges[i].first + ranges[i].count && count > 0
    && FreeRun(words, first, count)
    && (alignment == 0 || Remainder(AddressIn(ranges[i], page, first), alignment) == 0)
  }

  /** The inner loop of the contiguous search: the first fitting run of one range. */
  method SearchRange(words: seq<Word>, ranges: seq<Range>, page: nat, count: nat, alignment: nat, i: nat)
    returns (found: bool, first: nat)
    requires i < |ranges| && count > 0 && ranges[i].first + ranges[i].count <= 64 * |words|
    ensures found ==> Fits(words, ranges, page, count, alignment, i, first)
    ensures !found ==> forall f: nat :: !Fits(words, ranges, page, count, alignment, i, f)
  {
    var range := ranges[i];
    var run: nat := 0;
    first := 0;
    for offset := 0 to range.count
      invariant run <= offset && FreeRun(words, range.first + offset - run, run)
      invariant run < offset ==> Bit(words, range.first + offset - run - 1)
      invariant forall f: nat :: Fits(words, ranges, page, count, alignment, i, f) ==> f + count > range.first + offset
    {
      run := if Bit(words, range.first + offset) then 0 else run + 1;
      var end := range.first + offset + 1;
      if run >= count {
        first := end - count;
        if alignment == 0 || Remainder(AddressIn(range, page, first), alignment) == 0 {
          return true, first;
        }
      } else {
        forall f: nat | Fits(words, ranges, page, count, alignment, i, f) ensures f + count != end {
          assert f + count == end ==> f <= end - run - 1 < f + count;
        }
      }
    }
    return false, 0;
  }

  /** Why a contiguous request is refused without a search, if it is. */
  function Refusal(frames: nat, used: nat, next: nat, count: nat, alignment: nat): Status {
    if frames == 0 then NotInitialized
    else if count == 0 || (alignment != 0 && !PowerOfTwo(alignment)) then InvalidArgument
    else if count + used > frames then NoMemory
    else if count + next >= MODULUS then Overflow
    else Success
  }

  class FrameAllocator {
    const page: nat
    const ranges: seq<Range>
    const frames: nat
    var words: seq<Word>
    var gens: seq<nat>
    var used: nat
    var hint: nat
    var next: nat
    /** The generations of released handles. */
    ghost var spent: set<nat>

    /** The part of the invariant that every call keeps. */
    ghost predicate Shaped()
      reads this
    {
      && page > 0 && Tabled(ranges, page, frames) && |gens| == frames && next < MODULUS
      && Counted(words, frames, used) && (hint < frames || hint == 0)
    }

    ghost predicate Valid()
      reads this
    {
      Shaped() && Fresh(words, gens, next, spent)
    }

    /** The handle names a frame as it was last handed out. */
    ghost predicate Live(h: Handle)
      reads this
      requires Shaped()
    {
      h.index < frames && h.generation != 0 && gens[h.index] == h.generation &&
          HasAddress(ranges, page, h.index, h.address)
    }

    /**
     `initialize`, from the runs of the sweep; the counter goes on, and every handle from before
     counts as released.
     */
    constructor (runs: seq<Run>, page: nat, next: nat)
      requires page > 0 && Ascending(runs, page) && next < MODULUS
      ensures Valid() && used == 0 && this.next == next && this.page == page
      ensures forall g: nat :: HandedOut(g, next) ==> g in spent
      ensures |ranges| == |runs| && forall i :: 0 <= i < |runs| ==>
              ranges[i].base == runs[i].base && ranges[i].count == runs[i].count
    {
      var table, total := BuildRanges(runs, page);
      this.page, this.ranges, this.frames := page, table, total;
      var n := (total + 63) / 64;
      this.words := seq(n, w requires 0 <= w < n => seq(64, b => 64 * w + b >= total));
      this.gens := seq(total, _ => 0);
      this.used, this.hint, this.next := 0, 0, next;
      this.spent := set g: nat | g < Bound(next) && HandedOut(g, next);
      new;
      EmptyCounted(words, total);
    }

    /** `take`: marks a frame and stamps it. */
    method Take(i: nat) returns (h: Handle)
      requires Shaped() && i < frames && !Bit(words, i)
      modifies this
      ensures Shaped() && words == Mark(old(words), i, true) && gens == old(gens)[i := old(next)]
      ensures used == old(used) + 1
      ensures next == Succ(old(next)) && hint == old(hint) && spent == old(spent)
      ensures h.index == i && h.generation == old(next) && HasAddress(ranges, page, i, h.address)
      ensures old(Valid()) && old(next) != 0 ==> Valid()
    {
      TakeCounted(words, frames, used, i);
      if old(Valid()) && next != 0 {
        TakeFresh(words, gens, next, spent, i);
      }
      words := Mark(words, i, true);
      used := used + 1;
      gens := gens[i := next];
      next := Succ(next);
      var address := AddressFor(ranges, page, frames, i);
      h := Handle(address, i, gens[i]);
    }

    /** `allocate`: some free frame whenever there is one, wherever the hint points. */
    method Allocate() returns (r: Result<Handle>)
      requires Valid()
      modifies this
      ensures Valid()
      ensures r == Err(NotInitialized) <==> frames == 0
      ensures r == Err(NoMemory) <==> 0 < frames && old(used) >= frames
      ensures r == Err(Overflow) <==> 0 < frames && old(used) < frames && old(next) == 0
      ensures r.Err? ==>
              r.status in {NotInitialized, NoMemory, Overflow} && words == old(words) && gens == old(gens) &&
                  spent == old(spent)
      ensures r.Ok? ==> r.value.index < frames && !Bit(old(words), r.value.index) && Live(r.value)
      ensures r.Ok? ==> words == Mark(old(words), r.value.index, true) && gens == old(gens)[r.value.index := old(next)]
      ensures r.Ok? ==> used == old(used) + 1 && spent == old(spent) && next == Succ(old(next))
    {
      if frames == 0 {
        return Err(NotInitialized);
      }
      if used >= frames {
        return Err(NoMemory);
      }
      if next == 0 {
        return Err(Overflow);
      }
      ghost var k := SomeWordFree(words, frames, used, hint / 64);
      for scanned: nat := 0 to |words| + 1
        invariant words == old(words) && gens == old(gens) && used == old(used) && next == old(next)
        invariant spent == old(spent)
        invariant hint == old(hint) && scanned <= k
      {
        var word := Remainder(hint / 64 + scanned, |words|);
        if Full(words[word]) {
          continue;
        }
        var b := LowestClearBit(words[word]);
        ClearIsFrame(words, frames, used, word, b);
        var index := word * 64 + b;
        var h := Take(index);
        hint := if index + 1 < frames then index + 1 else 0;
        return Ok(h);
      }
      return Err(NoMemory);
    }

    /** `handle_at`. */
    method HandleAt(index: nat) returns (r: Result<Handle>)
      requires Shaped()
      ensures r.Ok? <==> index < frames && gens[index] != 0
      ensures r.Ok? ==> Live(r.value) && r.value.index == index
      ensures r.Err? ==> r.status == NotFound
    {
      if index >= frames || gens[index] == 0 {
        return Err(NotFound);
      }
      var address := AddressFor(ranges, page, frames, index);
      return Ok(Handle(address, index, gens[index]));
    }

    /** `exact`. */
    method Exact(h: Handle) returns (yes: bool)
      requires Shaped()
      ensures yes <==> Live(h)
    {
      if h.index >= frames || h.generation == 0 || gens[h.index] != h.generation {
        return false;
      }
      var address := AddressFor(ranges, page, frames, h.index);
      if HasAddress(ranges, page, h.index, h.address) {
        Inverse(ranges, page, frames, h.index, h.index, address, h.address);
      }
      return address == h.address;
    }

    /** A handle that was released is never accepted again. */
    lemma Stale(h: Handle)
      requires Valid() && h.generation in spent
      ensures !Live(h)
    {
      assert Opened(FreshSeal, 0);
    }

    lemma LiveIsUsed(h: Handle)
      requires Valid() && Live(h)
      ensures Bit(words, h.index)
    {
      assert Opened(FreshSeal, 0);
    }

    /** `release`: exactly the live handles are accepted, and each only once. */
    method Release(h: Handle) returns (s: Status)
      requires Valid()
      modifies this
      ensures Valid()
      ensures s == if old(Live(h)) then Success else InvalidArgument
      ensures s == Success ==>
              words == Mark(old(words), h.index, false) && gens == old(gens)[h.index := 0] && used == old(used) - 1
      ensures s == Success ==> spent == old(spent) + {h.generation}
      ensures s != Success ==> words == old(words) && gens == old(gens) && used == old(used) && spent == old(spent)
      ensures next == old(next)
    {
      var exact := Exact(h);
      if exact {
        LiveIsUsed(h);
      }
      if !exact || !Bit(words, h.index) {
        return InvalidArgument;
      }
      DropCounted(words, frames, used, h.index);
      DropFresh(words, gens, next, spent, h.index);
      words := Mark(words, h.index, false);
      spent := spent + {gens[h.index]};
      gens := gens[h.index := 0];
      used := used - 1;
      if h.index < hint {
        hint := h.index;
      }
      return Success;
    }

    /** A request that only the lack of a run could refuse. */
    ghost predicate Placeable(count: nat, alignment: nat)
      reads this
    {
      exists i, f :: Fits(words, ranges, page, count, alignment, i, f)
    }

    /**
     `allocate_contiguous`; `charge` is the account's answer. With a generation to
     give it succeeds just when an aligned run exists. Once the counter has wrapped
     to zero it takes the run all the same and then reports that there is no such
     frame.
     */
    method AllocateContiguous(count: nat, alignment: nat, charge: Status) returns (r: Result<Handle>)
      requires Valid()
      modifies this
      ensures Shaped() && spent == old(spent)
      ensures old(next) != 0 ==> Valid()
      ensures Refusal(frames, old(used), old(next), count, alignment) != Success ==>
              r == Err(Refusal(frames, old(used), old(next), count, alignment))
      ensures Refusal(frames, old(used), old(next), count, alignment) == Success ==>
              (!old(Placeable(count, alignment)) ==> r == Err(NoMemory))
      ensures Refusal(frames, old(used), old(next), count, alignment) == Success && old(Placeable(count, alignment)) ==>
              if charge == Success then r.Ok? <==> old(next) != 0 else r == Err(charge)
      ensures r.Ok? ==> Live(r.value) && exists i :: Fits(old(words), ranges, page, count, alignment, i, r.value.index)
      ensures r.Ok? ==>
              Stamped(old(words), words, old(gens), gens, r.value.index, count, old(next)) && used == old(used) + count
      ensures r == Err(NoMemory) && charge != NoMemory ==> !old(Placeable(count, alignment))
      ensures r.Err? && old(next) != 0 ==> words == old(words) && gens == old(gens) && used == old(used)
      ensures old(next) == 0 && (alignment == 0 || PowerOfTwo(alignment)) && count < MODULUS && charge == Success ==>
              (old(Placeable(count, alignment)) ==> r == Err(NotFound) && used == old(used) + count)
    {
      if frames == 0 {
        return Err(NotInitialized);
      }
      if count == 0 {
        return Err(InvalidArgument);
      }
      if alignment != 0 && !PowerOfTwo(alignment) {
        return Err(InvalidArgument);
      }
      UsedAtMost();
      if count > frames - used {
        TooMany(count, alignment);
        return Err(NoMemory);
      }
      if count > MODULUS - 1 - next {
        return Err(Overflow);
      }
      for i := 0 to |ranges|
        invariant words == old(words) && gens == old(gens) && used == old(used) && next == old(next)
        invariant spent == old(spent) && hint == old(hint)
        invariant forall j, f :: 0 <= j < i ==> !Fits(words, ranges, page, count, alignment, j, f)
      {
        LastCovers(ranges, page, frames, i);
        var found, first := SearchRange(words, ranges, page, count, alignment, i);
        if found {
          if charge != Success {
            return Err(charge);
          }
          TakeRun(first, count);
          r := HandleAt(first);
          return;
        }
      }
      return Err(NoMemory);
    }

    /** With no frame in use, any frame is a run of one. */
    lemma EmptyPlaceable()
      requires Shaped() && used == 0 && ranges != []
      ensures Placeable(1, 0)
    {
      assert Opened(ShapeSeal, 0);
      assert Numbered(ranges, 0);
      LastCovers(ranges, page, frames, 0);
      NoneUsed(words, frames);
      assert Fits(words, ranges, page, 1, 0, 0, 0);
    }

    lemma UsedAtMost()
      requires Shaped()
      ensures used <= frames
    {
      assert Opened(ShapeSeal, 0);
    }

    lemma TooMany(count: nat, alignment: nat)
      requires Shaped() && count > frames - used
      ensures !Placeable(count, alignment)
    {
      assert Opened(ShapeSeal, 0);
      forall i: nat, f: nat ensures !Fits(words, ranges, page, count, alignment, i, f) {
        if Fits(words, ranges, page, count, alignment, i, f) {
          LastCovers(ranges, page, frames, i);
          CountRun(words, f, count, frames);
        }
      }
    }

    /** Takes the frames of a run one after the other. */
    method TakeRun(first: nat, count: nat)
      requires Shaped() && count > 0 && first + count <= frames && FreeRun(words, first, count)
      requires next + count < MODULUS
      modifies this
      ensures Shaped() && spent == old(spent) && used == old(used) + count && next == old(next) + count
      ensures Stamped(old(words), words, old(gens), gens, first, count, old(next))
      ensures old(Valid()) && old(next) != 0 ==> Valid()
    {
      for k := 0 to count
        invariant Shaped() && spent == old(spent) && used == old(used) + k && next == old(next) + k
        invariant Stamped(old(words), words, old(gens), gens, first, k, old(next))
        invariant old(Valid()) && old(next) != 0 ==> Valid()
      {
        ghost var w, g := words, gens;
        var h := Take(first + k);
        StampedMore(old(words), w, words, old(gens), g, gens, first, k, old(next));
      }
    }

    /**
     `release_contiguous`: a live first handle followed by used, adjacent frames; all of them become
     free and stale.
     */
    method ReleaseContiguous(first: Handle, count: nat, charged: bool) returns (s: Status)
      requires Valid()
      modifies this
      ensures Valid() && next == old(next)
      ensures s == Success <==>
              charged && count > 0 && old(Live(first)) && first.index + count <= frames && old(WholeRun(first, count))
      ensures s != Success ==>
              s == InvalidArgument && words == old(words) && gens == old(gens) && used == old(used) &&
                  spent == old(spent)
      ensures s == Success ==> used == old(used) - count && first.index + count <= frames == |gens|
      ensures s == Success ==> Cleared(old(words), words, old(gens), gens, first.index, count)
      ensures s == Success ==> forall j :: first.index <= j < first.index + count ==> old(gens)[j] in spent
      ensures old(spent) <= spent
    {
      var exact := Exact(first);
      if count == 0 || !exact || count > frames - first.index {
        return InvalidArgument;
      }
      var whole := CheckRun(first, count);
      if !whole {
        return InvalidArgument;
      }
      if !charged {
        return InvalidArgument;
      }
      LiveIsUsed(first);
      forall j | first.index <= j < first.index + count ensures Bit(words, j) {
        if j != first.index {
          assert Adjacent(first, j - first.index);
        }
      }
      DropRun(first.index, count);
      if first.index < hint {
        hint := first.index;
      }
      return Success;
    }

    /** The ownership check of a run behind its first frame. */
    method CheckRun(first: Handle, count: nat) returns (whole: bool)
      requires Shaped() && first.index + count <= frames
      ensures whole <==> WholeRun(first, count)
    {
      var k := 1;
      while k < count
        invariant 1 <= k && (k <= count || count == 0)
        invariant forall j :: 1 <= j < k ==> Adjacent(first, j)
      {
        var next := CheckFrame(first, k);
        if !next {
          return false;
        }
        k := k + 1;
      }
      return true;
    }

    /** One turn of that loop. */
    method CheckFrame(first: Handle, k: nat) returns (next: bool)
      requires Shaped() && first.index + k < frames
      ensures next <==> Adjacent(first, k)
    {
      var address := AddressFor(ranges, page, frames, first.index + k);
      if HasAddress(ranges, page, first.index + k, first.address + Times(k, page)) {
        Inverse(ranges, page, frames, first.index + k, first.index + k, address, first.address + Times(k, page));
      }
      return Bit(words, first.index + k) && address == first.address + Times(k, page);
    }

    /** Frame `first.index + k` is in use, and `k` pages behind `first`. */
    ghost predicate Adjacent(first: Handle, k: nat)
      reads this
    {
      && first.index + k < 64 * |words| && Bit(words, first.index + k)
      && HasAddress(ranges, page, first.index + k, first.address + Times(k, page))
    }

    ghost predicate WholeRun(first: Handle, count: nat)
      reads this
    {
      forall k :: 1 <= k < count ==> Adjacent(first, k)
    }

    method DropRun(first: nat, count: nat)
      requires Valid() && first + count <= frames && forall j :: first <= j < first + count ==> Bit(words, j)
      modifies this
      ensures Valid() && next == old(next) && used == old(used) - count && hint == old(hint)
      ensures Cleared(old(words), words, old(gens), gens, first, count)
      ensures forall j :: first <= j < first + count ==> old(gens)[j] in spent
      ensures old(spent) <= spent
    {
      for k := 0 to count
        invariant Valid() && next == old(next) && used == old(used) - k && hint == old(hint)
        invariant Cleared(old(words), words, old(gens), gens, first, k)
        invariant forall j :: first <= j < first + k ==> old(gens)[j] in spent
        invariant old(spent) <= spent
      {
        var i := first + k;
        DropCounted(words, frames, used, i);
        DropFresh(words, gens, next, spent, i);
        ClearedMore(old(words), words, old(gens), gens, first, k);
        words := Mark(words, i, false);
        spent := spent + {gens[i]};
        gens := gens[i := 0];
        used := used - 1;
      }
    }
  }

  lemma EmptyCounted(words: seq<Word>, frames: nat)
    requires |words| == (frames + 63) / 64
    requires forall w :: 0 <= w < |words| ==> forall b :: 0 <= b < 64 ==> words[w][b] == (64 * w + b >= frames)
    ensures Counted(words, frames, 0)
    ensures forall i :: 0 <= i < 64 * |words| ==> Bit(words, i) == (i >= frames)
  {
    forall i | 0 <= i < 64 * |words| ensures Bit(words, i) == (i >= frames) {
      assert i == 64 * (i / 64) + i % 64;
    }
    EmptyCount(words, frames, frames);
  }

  lemma {:induction false} EmptyCount(words: seq<Word>, frames: nat, n: nat)
    requires n <= frames && n <= 64 * |words| && forall i :: 0 <= i < n ==> !Bit(words, i)
    ensures Count(words, n) == 0
  {
    if n > 0 {
      EmptyCount(words, frames, n - 1);
    }
  }

  /** Exactly the `count` frames from `first` on were taken, with the generations from `g` on. */
  ghost predicate Stamped(words: seq<Word>, after: seq<Word>, gens: seq<nat>, newGens: seq<nat>, first: nat,
                          count: nat, g: nat) {
    && |after| == |words| && |newGens| == |gens| && |gens| <= 64 * |words| && first + count <= |gens|
    && (forall j :: 0 <= j < |gens| ==> Bit(after, j) == (first <= j < first + count || Bit(words, j)))
    && (forall j :: 0 <= j < |gens| ==> newGens[j] == if first <= j < first + count then g + (j - first) else gens[j])
  }

  lemma StampedMore(words: seq<Word>, mid: seq<Word>, after: seq<Word>, gens: seq<nat>, midGens: seq<nat>,
                    newGens: seq<nat>, first: nat, k: nat, g: nat)
    requires Stamped(words, mid, gens, midGens, first, k, g) && first + k < |gens|
    requires after == Mark(mid, first + k, true) && newGens == midGens[first + k := g + k]
    ensures Stamped(words, after, gens, newGens, first, k + 1, g)
  {
    forall j | 0 <= j < |gens| ensures Bit(after, j) == (first <= j < first + k + 1 || Bit(words, j)) {
      MarkBit(mid, first + k, true, j);
    }
  }

  /** Exactly the `count` frames from `first` on were given back. */
  ghost predicate Cleared(words: seq<Word>, after: seq<Word>, gens: seq<nat>, newGens: seq<nat>, first: nat,
                          count: nat) {
    && |after| == |words| && |newGens| == |gens| && |gens| <= 64 * |words| && first + count <= |gens|
    && (forall j :: 0 <= j < |gens| ==> Bit(after, j) == (!(first <= j < first + count) && Bit(words, j)))
    && (forall j :: 0 <= j < |gens| ==> newGens[j] == if first <= j < first + count then 0 else gens[j])
  }

  lemma ClearedMore(words: seq<Word>, mid: seq<Word>, gens: seq<nat>, midGens: seq<nat>, first: nat, k: nat)
    requires Cleared(words, mid, gens, midGens, first, k) && first + k < |gens|
    ensures Cleared(words, Mark(mid, first + k, false), gens, midGens[first + k := 0], first, k + 1)
  {
    var after, newGens := Mark(mid, first + k, false), midGens[first + k := 0];
    forall j | 0 <= j < |gens|
      ensures Bit(after, j) == (!(first <= j < first + k + 1) && Bit(words, j))
      ensures newGens[j] == if first <= j < first + k + 1 then 0 else gens[j]
    {
      MarkBit(mid, first + k, false, j);
    }
  }

  /** An allocator with one free frame whose counter has wrapped: the last generation was handed out and taken back. */
  method Wrapped() returns (a: FrameAllocator)
    ensures fresh(a) && a.Valid() && a.next == 0 && a.used == 0 && a.frames == 1 && a.Placeable(1, 0)
  {
    a := new FrameAllocator([Run(0, 1)], 1, MODULUS - 1);
    OneFrame(a.ranges, a.frames);
    var h := a.Allocate();
    assert h.Ok?;
    var s := a.Release(h.value);
    a.EmptyPlaceable();
  }

  lemma OneFrame(ranges: seq<Range>, frames: nat)
    requires |ranges| == 1 && ranges[0].count == 1 && Tabled(ranges, 1, frames)
    ensures frames == 1
  {
    assert Numbered(ranges, 0);
  }

  /** A contiguous request then takes the free frame and reports that there is none. */
  method WrappedCounter() returns (r: Result<Handle>, used: nat)
    ensures r == Err(NotFound) && used == 1
  {
    var a := Wrapped();
    r := a.AllocateContiguous(1, 0, Success);
    used := a.used;
  }

  lemma {:induction false} NoneUsed(words: seq<Word>, n: nat)
    requires n <= 64 * |words| && Count(words, n) == 0
    ensures forall i :: 0 <= i < n ==> !Bit(words, i)
  {
    if n > 0 {
      NoneUsed(words, n - 1);
    }
  }
}
