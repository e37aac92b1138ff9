/**
 The block and inode bitmaps with their group and superblock counters
 (`available_number`, `counts`, `allocate` and `free_number` in
 src/fs/ext4_fs.cpp), as values.

 Number `base + i` is bit `i`; groups are consecutive runs of `per` bits. The
 counters of a consistent pool are the clear bits of each group and of the whole.
 */
module Ext4Pools {
  import opened Outcomes
  import opened Arithmetic
  import opened Seals

  datatype Pool = Pool(base: nat, first: nat, per: nat, used: seq<bool>, groupFree: seq<nat>, superFree: nat) {
    function Low(group: nat): nat { Times(group, per) }

    function High(group: nat): nat { Min(Low(group + 1), |used|) }

    /** As many groups as it takes to hold every bit. */
    ghost predicate Tiled() {
      && 0 < per
      && |used| <= Low(|groupFree|)
      && (0 < |groupFree| ==> Low(|groupFree| - 1) < |used|)
    }

    /** The lowest bit that may be handed out. */
    function Start(): nat
      requires base <= first
    {
      first - base
    }

    /** Bitmap, group counters and superblock counter agree. */
    ghost predicate Consistent() {
      && 0 < per
      && base <= first <= base + |used|
      && |used| <= 0xffff_ffff
      && forall k :: Opened(PoolSeal, k) ==> Agreeing()
    }

    ghost predicate Agreeing() {
      && Tiled()
      && (forall g :: 0 <= g < |groupFree| ==> groupFree[g] == FreeCount(used, Low(g), High(g)))
      && superFree == FreeCount(used, 0, |used|)
    }

    ghost predicate Free(number: int) {
      base <= number < base + |used| && !used[number - base]
    }
  }

  /** Clear bits in `used[low..high]`, where `high` is clamped to the bitmap. */
  function FreeCount(used: seq<bool>, low: nat, high: int): nat
    decreases high
  {
    if high <= low then 0
    else FreeCount(used, low, high - 1) + if high <= |used| && !used[high - 1] then 1 else 0
  }

  /** The lowest clear bit at or after `from`, or the bitmap's length. */
  function FirstFree(used: seq<bool>, from: nat): (i: nat)
    requires from <= |used|
    ensures from <= i <= |used|
    decreases |used| - from
  {
    if from == |used| || !used[from] then from else FirstFree(used, from + 1)
  }

  lemma {:induction false} FirstFreeAt(used: seq<bool>, from: nat)
    requires from <= |used|
    ensures FirstFree(used, from) < |used| ==> !used[FirstFree(used, from)]
    ensures forall k :: from <= k < FirstFree(used, from) ==> used[k]
    decreases |used| - from
  {
    if from < |used| && used[from] {
      FirstFreeAt(used, from + 1);
    }
  }

  lemma FirstFreeIs(used: seq<bool>, from: nat, i: nat)
    requires from <= i <= |used|
    requires i < |used| ==> !used[i]
    requires forall k :: from <= k < i ==> used[k]
    ensures FirstFree(used, from) == i
  {
    FirstFreeAt(used, from);
    var j := FirstFree(used, from);
    assert !(j < i) && !(i < j);
  }

  /** A zero counter means no clear bit, and only that. */
  lemma {:induction false} FreeCountZero(used: seq<bool>, low: nat, high: nat)
    requires high <= |used|
    ensures FreeCount(used, low, high) == 0 <==> forall k :: low <= k < high ==> used[k]
    decreases high
  {
    if low < high {
      FreeCountZero(used, low, high - 1);
    }
  }

  lemma {:induction false} FreeCountSet(used: seq<bool>, i: nat, v: bool, low: nat, high: nat)
    requires i < |used| && used[i] != v && high <= |used|
    ensures FreeCount(used[i := v], low, high) ==
            FreeCount(used, low, high) + if low <= i < high then (if v then -1 else 1) else 0
    decreases high
  {
    if low < high {
      FreeCountSet(used, i, v, low, high - 1);
    }
  }

  lemma {:induction false} FreeCountAtMost(used: seq<bool>, low: nat, high: int)
    ensures FreeCount(used, low, high) <= Max(high - low, 0)
    decreases high
  {
    if low < high {
      FreeCountAtMost(used, low, high - 1);
    }
  }

  /** Bit `i` lies in group `i / per` and in no other. */
  lemma GroupOf(p: Pool, i: nat, g: nat)
    requires p.Tiled() && i < |p.used|
    ensures Quotient(i, p.per) < |p.groupFree|
    ensures p.Low(g) <= i < p.High(g) <==> g == Quotient(i, p.per)
  {
    var q := Quotient(i, p.per);
    QuotientBounds(i, p.per);
    if g < q {
      TimesMono(g + 1, q, p.per);
    } else if q < g {
      TimesMono(q + 1, g, p.per);
    }
    if |p.groupFree| <= q {
      TimesMono(|p.groupFree|, q, p.per);
    }
  }

  /** Groups are nonempty, consecutive, and end at the end of the bitmap. */
  lemma GroupBounds(p: Pool, g: nat)
    requires p.Tiled() && g < |p.groupFree|
    ensures p.Low(g) < p.High(g) <= |p.used|
    ensures p.High(g) == if g + 1 == |p.groupFree| then |p.used| else p.Low(g + 1)
  {
    TimesMono(g, |p.groupFree| - 1, p.per);
    if g + 1 < |p.groupFree| {
      TimesMono(g + 1, |p.groupFree| - 1, p.per);
    }
  }

  lemma PoolTiled(p: Pool)
    requires p.Consistent()
    ensures p.Tiled()
  {
    assert Opened(PoolSeal, 0);
  }

  /** The pool with bit `i` flipped to `v` and both counters adjusted. */
  function Flipped(p: Pool, i: nat, v: bool): Pool
    requires 0 < p.per && i < |p.used| && Quotient(i, p.per) < |p.groupFree|
    requires v ==> 0 < p.groupFree[Quotient(i, p.per)] && 0 < p.superFree
  {
    var delta: int := if v then -1 else 1;
    p.(used := p.used[i := v],
       groupFree := p.groupFree[Quotient(i, p.per) := p.groupFree[Quotient(i, p.per)] + delta],
       superFree := p.superFree + delta)
  }

  /** A clear bit leaves room to decrement both counters of a consistent pool. */
  lemma FlippedRoom(p: Pool, i: nat)
    requires p.Consistent() && i < |p.used|
    ensures Quotient(i, p.per) < |p.groupFree|
    ensures !p.used[i] ==> 0 < p.groupFree[Quotient(i, p.per)] && 0 < p.superFree
  {
    assert Opened(PoolSeal, 0);
    var g := Quotient(i, p.per);
    GroupOf(p, i, g);
    FreeCountZero(p.used, p.Low(g), p.High(g));
    FreeCountZero(p.used, 0, |p.used|);
  }

  /** Flipping a bit together with its counters keeps the pool consistent. */
  lemma FlippedConsistent(p: Pool, i: nat, v: bool)
    requires p.Consistent() && i < |p.used| && p.used[i] != v
    ensures Quotient(i, p.per) < |p.groupFree|
    ensures v ==> 0 < p.groupFree[Quotient(i, p.per)] && 0 < p.superFree
    ensures Flipped(p, i, v).Consistent()
  {
    FlippedRoom(p, i);
    var q := Flipped(p, i, v);
    FlippedTotal(p, i, v);
    PoolTiled(p);
    forall h: nat | h < |q.groupFree| ensures GroupCounted(q, h) {
      FlippedCounted(p, q, i, v, h);
    }
    CountedConsistent(q);
  }

  ghost predicate GroupCounted(p: Pool, g: nat)
    requires 0 < p.per && g < |p.groupFree|
  {
    p.groupFree[g] == FreeCount(p.used, p.Low(g), p.High(g))
  }

  lemma FlippedCounted(p: Pool, q: Pool, i: nat, v: bool, h: nat)
    requires p.Consistent() && i < |p.used| && p.used[i] != v && h < |p.groupFree| && Quotient(i, p.per) < |p.groupFree|
    requires v ==> 0 < p.groupFree[Quotient(i, p.per)] && 0 < p.superFree
    requires q == Flipped(p, i, v)
    ensures GroupCounted(q, h)
  {
    FlippedGroup(p, i, v, h);
  }

  lemma CountedConsistent(p: Pool)
    requires 0 < p.per && p.base <= p.first <= p.base + |p.used| && |p.used| <= 0xffff_ffff && p.Tiled()
    requires forall g: nat :: g < |p.groupFree| ==> GroupCounted(p, g)
    requires p.superFree == FreeCount(p.used, 0, |p.used|)
    ensures p.Consistent()
  {
    forall g: nat | g < |p.groupFree| ensures p.groupFree[g] == FreeCount(p.used, p.Low(g), p.High(g)) {
      assert GroupCounted(p, g);
    }
  }

  lemma FlippedTotal(p: Pool, i: nat, v: bool)
    requires p.Consistent() && i < |p.used| && p.used[i] != v
    ensures FreeCount(p.used[i := v], 0, |p.used|) == p.superFree + if v then -1 else 1
  {
    assert Opened(PoolSeal, 0);
    FreeCountSet(p.used, i, v, 0, |p.used|);
  }

  /** The counters stay within what `counts` allows. */
  lemma FlippedLimits(p: Pool, i: nat, v: bool)
    requires p.Consistent() && i < |p.used| && p.used[i] != v
    ensures Quotient(i, p.per) < |p.groupFree|
    ensures var g := Quotient(i, p.per);
            var delta := if v then -1 else 1;
            && 0 <= p.groupFree[g] + delta <= p.High(g) - p.Low(g) <= p.per
            && 0 <= p.superFree + delta <= 0xffff_ffff
  {
    assert Opened(PoolSeal, 0);
    var g := Quotient(i, p.per);
    FlippedConsistent(p, i, v);
    var q := Flipped(p, i, v);
    FreeCountAtMost(q.used, q.Low(g), q.High(g));
    FreeCountAtMost(q.used, 0, |q.used|);
    GroupBounds(p, g);
  }

  lemma FlippedGroup(p: Pool, i: nat, v: bool, h: nat)
    requires p.Consistent() && i < |p.used| && p.used[i] != v && h < |p.groupFree|
    ensures FreeCount(p.used[i := v], p.Low(h), p.High(h)) ==
            p.groupFree[h] as int + if h == Quotient(i, p.per) then (if v then -1 else 1) else 0
  {
    assert Opened(PoolSeal, 0);
    GroupOf(p, i, h);
    FreeCountSet(p.used, i, v, p.Low(h), p.High(h));
  }

  /** `after` is `before` with bit `i` turned to `v`; a consistent pool determines its counters. */
  ghost predicate Turned(before: Pool, after: Pool, i: nat, v: bool) {
    && i < |before.used| && before.used[i] != v
    && after.used == before.used[i := v]
    && after.base == before.base && after.first == before.first && after.per == before.per
    && after.Consistent()
  }


  /** A consistent pool is determined by its bitmap. */
  lemma ConsistentUnique(p: Pool, q: Pool)
    requires p.Consistent() && q.Consistent()
    requires p.base == q.base && p.first == q.first && p.per == q.per && p.used == q.used
    ensures p == q
  {
    assert Opened(PoolSeal, 0);
    TiledUnique(|p.used|, p.per, |p.groupFree|, |q.groupFree|);
    forall g | 0 <= g < |p.groupFree| ensures p.groupFree[g] == q.groupFree[g] {
      assert p.groupFree[g] == FreeCount(p.used, p.Low(g), p.High(g));
      assert q.groupFree[g] == FreeCount(q.used, q.Low(g), q.High(g));
    }
  }

  lemma TiledUnique(n: nat, per: nat, a: nat, b: nat)
    requires n <= Times(a, per) && (0 < a ==> Times(a - 1, per) < n)
    requires n <= Times(b, per) && (0 < b ==> Times(b - 1, per) < n)
    ensures a == b
  {
    if a < b {
      TimesMono(a, b - 1, per);
    } else if b < a {
      TimesMono(b, a - 1, per);
    }
  }
}
