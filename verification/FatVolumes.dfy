/**
 The FAT32/exFAT provider's storage operations (src/fs/fat_fs.cpp): chains grow,
 shrink, appear and disappear, and the owner bitmap stays the exact disjoint union
 of the chains that are in use.
 */
module FatVolumes {
  import opened Outcomes
  import opened Arithmetic
  import opened FatChains
  import opened FatPartition
  import opened Seals

  const MAX_NODES: nat := 128
  const MAX_REFERENCES: nat := 0xffff_ffff

  datatype Traits = Traits(live: bool, refs: nat, directory: bool, readonly: bool, exposed: bool, parent: nat)

  datatype FatNode = FatNode(start: Head, traits: Traits) {
    /** A node whose chain must be kept: reachable by name, or held open. */
    predicate InUse() { traits.live || traits.refs > 0 }
  }

  /** Only the start of node `i` changed. */
  ghost predicate Restarted(a: seq<FatNode>, b: seq<FatNode>, i: nat) {
    && |b| == |a| && i < |a| && b[i].traits == a[i].traits
    && forall k :: Opened(GrowSeal, k) ==> b == a[i := b[i]]
  }

  lemma RestartedTo(a: seq<FatNode>, i: nat, start: Head)
    requires i < |a|
    ensures Restarted(a, a[i := a[i].(start := start)], i)
  {
  }

  lemma RestartedTwice(a: seq<FatNode>, b: seq<FatNode>, c: seq<FatNode>, i: nat)
    requires Restarted(a, b, i) && Restarted(b, c, i)
    ensures Restarted(a, c, i)
  {
    assert Opened(GrowSeal, 0);
  }

  function Last(list: seq<nat>): nat { if list == [] then 0 else list[|list| - 1] }

  /** The heads are those of the nodes in use and of the system tables. */
  ghost predicate Agrees(nodes: seq<FatNode>, system: seq<Head>, chains: map<Holder, Line>) {
    forall k :: Opened(HeadsSeal, k) ==>
      && (forall i: nat :: OfNode(i) in chains <==> i < |nodes| && nodes[i].InUse())
      && (forall i: nat :: i < |nodes| && nodes[i].InUse() ==> chains[OfNode(i)].head == nodes[i].start)
      && (forall i: nat :: OfSystem(i) in chains <==> i < |system|)
      && (forall i: nat :: i < |system| ==> chains[OfSystem(i)].head == system[i])
  }

  lemma AgreesAt(nodes: seq<FatNode>, system: seq<Head>, chains: map<Holder, Line>, i: nat)
    requires Agrees(nodes, system, chains) && i < |nodes|
    ensures OfNode(i) in chains <==> nodes[i].InUse()
    ensures nodes[i].InUse() ==> chains[OfNode(i)].head == nodes[i].start
  {
    assert Opened(HeadsSeal, 0);
  }

  /** A node in use changes with its head. */
  lemma AgreesSet(nodes: seq<FatNode>, system: seq<Head>, chains: map<Holder, Line>, i: nat, n: FatNode, list: seq<nat>)
    requires Agrees(nodes, system, chains) && i < |nodes| && n.InUse()
    ensures Agrees(nodes[i := n], system, chains[OfNode(i) := Line(n.start, list)])
  {
    assert Opened(HeadsSeal, 0);
  }

  /** A node no longer in use has no head. */
  lemma AgreesDropped(nodes: seq<FatNode>, system: seq<Head>, chains: map<Holder, Line>, i: nat, n: FatNode)
    requires Agrees(nodes, system, chains) && i < |nodes| && !n.InUse()
    ensures Agrees(nodes[i := n], system, chains - {OfNode(i)})
  {
    assert Opened(HeadsSeal, 0);
  }

  /** The book is in order, and is about these nodes. */
  ghost predicate Kept(nodes: seq<FatNode>, system: seq<Head>, book: Book) {
    forall k :: Opened(BookSeal, k) ==> Partition(book) && Agrees(nodes, system, book.chains)
  }

  ghost predicate NoneLoose(b: Book) {
    forall k :: Opened(GrowSeal, k) ==> forall c :: c in b.of ==> b.of[c].Held?
  }

  /** Holder `h` has more clusters behind the old ones, all of them free before; nobody else's chain changed. */
  ghost predicate Grown(a: Book, b: Book, h: Holder) {
    && h in a.chains && h in b.chains && |a.chains[h].list| <= |b.chains[h].list| && SameShape(a.table, b.table)
    && forall k :: Opened(GrowSeal, k) ==>
         && b.chains == a.chains[h := b.chains[h]] && a.chains[h].list <= b.chains[h].list
         && (forall c: nat :: c in b.of <==> c in a.of || c in b.chains[h].list[|a.chains[h].list|..])
         && (forall c: nat :: c in a.of ==> c !in b.chains[h].list[|a.chains[h].list|..])
  }

  lemma GrownSelf(a: Book, b: Book, h: Holder)
    requires h in a.chains && h in b.chains && b.chains == a.chains[h := b.chains[h]]
    requires b.chains[h].list == a.chains[h].list
    requires b.of == a.of && SameShape(a.table, b.table)
    ensures Grown(a, b, h)
    ensures NoneLoose(a) ==> NoneLoose(b)
  {
  }

  lemma GrownOnce(a: Book, b: Book, h: Holder, c: nat)
    requires Partition(a) && h in a.chains && a.table.InRange(c) && !a.table.owners[c]
    requires a.chains[h].list != [] ==> a.table.InRange(a.chains[h].list[|a.chains[h].list| - 1])
    requires b == Appended(Claimed(a, c), h, c)
    ensures Grown(a, b, h) && b.chains[h].list == a.chains[h].list + [c]
  {
    ClusterAt(a, c);
  }

  lemma LooseOnce(a: Book, h: Holder, c: nat)
    requires a.table.Shaped() && h in a.chains && a.table.InRange(c) && NoneLoose(a)
    requires a.chains[h].list != [] ==> a.table.InRange(a.chains[h].list[|a.chains[h].list| - 1])
    ensures NoneLoose(Appended(Claimed(a, c), h, c))
  {
    assert Opened(GrowSeal, 0);
  }

  lemma GrownTwice(a: Book, b: Book, c: Book, h: Holder)
    requires Grown(a, b, h) && Grown(b, c, h)
    ensures Grown(a, c, h)
  {
    assert Opened(GrowSeal, 0);
    var n, m := |a.chains[h].list|, |b.chains[h].list|;
    assert c.chains[h].list[n..] == c.chains[h].list[n..m] + c.chains[h].list[m..];
    assert c.chains[h].list[n..m] == b.chains[h].list[n..];
  }

  lemma GrownSame(a: Book, b: Book, c: Book, h: Holder)
    requires Grown(a, b, h) && h in c.chains && c.chains == b.chains[h := c.chains[h]]
    requires c.chains[h].list == b.chains[h].list
    requires c.of == b.of && SameShape(b.table, c.table)
    ensures Grown(a, c, h)
    ensures NoneLoose(b) ==> NoneLoose(c)
  {
    assert Opened(GrowSeal, 0);
  }

  /** A cut at the end changes the size alone. */
  lemma Uncut(b: Book, h: Holder, bytes: nat)
    requires b.table.Shaped() && h in b.chains
    ensures var t := Cut(b, h, |b.chains[h].list|, bytes);
            t.chains == b.chains[h := t.chains[h]] && t.chains[h].list == b.chains[h].list && t.of == b.of
    ensures Cut(b, h, |b.chains[h].list|, bytes).table == b.table
  {
    assert b.chains[h].list[..|b.chains[h].list|] == b.chains[h].list;
  }

  /** Holder `h` keeps its first `k` clusters; the others are free, on disk too; nobody else's chain changed. */
  ghost predicate Shrunk(a: Book, b: Book, h: Holder, k: nat) {
    && h in a.chains && h in b.chains && k <= |a.chains[h].list|
    && forall q :: Opened(GrowSeal, q) ==>
         && b.chains == a.chains[h := b.chains[h]] && b.chains[h].list == a.chains[h].list[..k] && b.table.Shaped()
         && (forall c: nat :: c in b.of <==> c in a.of && c !in a.chains[h].list[k..])
         && (forall c :: c in a.chains[h].list[k..] ==>
              b.table.InRange(c) && !b.table.owners[c] && !b.table.Allocated(c))
  }

  lemma ShrunkDone(b: Book, h: Holder, k: nat, bytes: nat)
    requires Partition(b) && NoneLoose(b) && h in b.chains && k <= |b.chains[h].list|
    requires 0 < k < |b.chains[h].list| ==> b.table.InRange(b.chains[h].list[k - 1])
    requires Partition(Cut(b, h, k, bytes))
    ensures var c := Cut(b, h, k, bytes);
            var t := FreedAll(c, b.chains[h].list[k..]);
            && (forall d :: d in b.chains[h].list[k..] ==> InHand(c, d))
            && Partition(t) && NoneLoose(t) && Shrunk(b, t, h, k) && SameShape(b.table, t.table)
  {
    assert Opened(GrowSeal, 0);
    var list := b.chains[h].list;
    var c := Cut(b, h, k, bytes);
    HeadAt(b, h);
    ChainInRange(b.table, b.chains[h].head, list);
    forall d | d in list[k..] ensures InHand(c, d) {
      assert d in list;
      ListAt(b, h, d);
    }
    FreedAllPartition(c, list[k..]);
  }

  // ---------------------------------------------------------------------
  // Chains cover sizes

  /** How many clusters of `d` bytes hold `bytes`. */
  function Need(d: nat, bytes: nat): nat { if d == 0 then 0 else Quotient(bytes + d - 1, d) }

  /** `n` clusters are enough for the node, and a directory has at least one. */
  predicate Spans(d: nat, node: FatNode, n: nat) { Need(d, node.start.bytes) <= n && (node.traits.directory ==> n > 0) }

  /** Every node in use has a chain as long as its size needs. */
  ghost predicate Covered(nodes: seq<FatNode>, b: Book) {
    forall k :: Opened(CoverSeal, k) ==>
      forall i: nat :: i < |nodes| && nodes[i].InUse() && OfNode(i) in b.chains ==>
        Spans(b.table.clusterBytes, nodes[i], |b.chains[OfNode(i)].list|)
  }

  lemma CoveredAt(nodes: seq<FatNode>, b: Book, i: nat)
    requires Covered(nodes, b) && i < |nodes| && nodes[i].InUse() && OfNode(i) in b.chains
    ensures Spans(b.table.clusterBytes, nodes[i], |b.chains[OfNode(i)].list|)
  {
    assert Opened(CoverSeal, 0);
  }

  /** One node and its chain change. */
  lemma CoveredSet(nodes: seq<FatNode>, b: Book, i: nat, n: FatNode, c: Book)
    requires Covered(nodes, b) && i < |nodes| && c.table.clusterBytes == b.table.clusterBytes
    requires forall h :: h in c.chains && h != OfNode(i) ==> h in b.chains && c.chains[h] == b.chains[h]
    requires n.InUse() && OfNode(i) in c.chains ==> Spans(c.table.clusterBytes, n, |c.chains[OfNode(i)].list|)
    ensures Covered(nodes[i := n], c)
  {
    assert Opened(CoverSeal, 0);
  }

  /** A chain grew, and still covers the size of its node. */
  lemma CoveredGrown(nodes: seq<FatNode>, b: Book, i: nat, ns: seq<FatNode>, c: Book)
    requires Covered(nodes, b) && Restarted(nodes, ns, i) && nodes[i].InUse() && Grown(b, c, OfNode(i))
    requires || ns[i].start.bytes == nodes[i].start.bytes
             || Need(c.table.clusterBytes, ns[i].start.bytes) <= |c.chains[OfNode(i)].list|
    ensures Covered(ns, c)
  {
    assert Opened(GrowSeal, 0);
    CoveredAt(nodes, b, i);
    CoveredSet(nodes, b, i, ns[i], c);
  }

  lemma CoveredShrunk(nodes: seq<FatNode>, b: Book, i: nat, ns: seq<FatNode>, c: Book, k: nat)
    requires Covered(nodes, b) && Restarted(nodes, ns, i) && !nodes[i].traits.directory && Shrunk(b, c, OfNode(i), k)
    requires SameShape(b.table, c.table) && Need(c.table.clusterBytes, ns[i].start.bytes) <= k
    ensures Covered(ns, c)
  {
    assert Opened(GrowSeal, 0);
    CoveredSet(nodes, b, i, ns[i], c);
  }

  lemma CoveredAdded(nodes: seq<FatNode>, b: Book, i: nat, n: FatNode, c: Book, list: seq<nat>)
    requires Covered(nodes, b) && i < |nodes| && Added(b, c, OfNode(i), list) && SameShape(b.table, c.table)
    requires Spans(c.table.clusterBytes, n, |list|)
    ensures Covered(nodes[i := n], c)
  {
    assert Opened(GrowSeal, 0);
    CoveredSet(nodes, b, i, n, c);
  }

  lemma CoveredDropped(nodes: seq<FatNode>, b: Book, i: nat, n: FatNode, c: Book)
    requires Covered(nodes, b) && i < |nodes| && !n.InUse() && Dropped(b, c, OfNode(i)) && SameShape(b.table, c.table)
    ensures Covered(nodes[i := n], c)
  {
    assert Opened(GrowSeal, 0);
    CoveredSet(nodes, b, i, n, c);
  }

  /** No more than `n` clusters are needed for what fits in them, and no fewer. */
  lemma NeedIff(d: nat, bytes: nat, n: nat)
    requires 0 < d
    ensures Need(d, bytes) <= n <==> bytes <= Times(n, d)
  {
    QuotientBounds(bytes + d - 1, d);
    var q := Quotient(bytes + d - 1, d);
    if q <= n {
      TimesMono(q, n, d);
    } else {
      TimesMono(n + 1, q, d);
    }
  }

  lemma NeedMono(d: nat, a: nat, b: nat)
    requires 0 < d && a <= b
    ensures Need(d, a) <= Need(d, b)
  {
    QuotientMono(a + d - 1, b + d - 1, d);
  }

  /** A longer file needs no fewer clusters; a contiguous one that needs no more keeps its count. */
  lemma CountsGrow(t: Table, list: seq<nat>, head: Head, size: nat)
    requires t.Shaped() && IsChain(t, head, list) && size > head.bytes
    ensures t.Clusters(size) > 0
    ensures head.contiguous && list != [] ==> |list| <= t.Clusters(size)
  {
    QuotientMono(head.bytes + t.clusterBytes - 1, size + t.clusterBytes - 1, t.clusterBytes);
  }

  lemma CountsShrink(t: Table, list: seq<nat>, head: Head, size: nat)
    requires t.Shaped() && IsChain(t, head, list) && size < head.bytes
    ensures list != [] && (t.Clusters(size) == 0 <==> size == 0)
    ensures head.contiguous ==> t.Clusters(size) <= |list|
    ensures head.contiguous && t.Clusters(size) < |list| ==> Times(t.Clusters(size), t.clusterBytes) < head.bytes
  {
    var d := t.clusterBytes;
    QuotientMono(size + d - 1, head.bytes + d - 1, d);
    QuotientBounds(size + d - 1, d);
    QuotientBounds(head.bytes + d - 1, d);
    if t.Clusters(size) < t.Clusters(head.bytes) {
      TimesMono(t.Clusters(size) + 1, t.Clusters(head.bytes), d);
    }
  }

  /** What is cut off is a chain of its own. */
  lemma TailChain(b: Book, h: Holder, k: nat, bytes: nat, head: Head)
    requires b.table.Shaped() && h in b.chains && IsChain(b.table, b.chains[h].head, b.chains[h].list)
    requires k < |b.chains[h].list|
    requires 0 < k ==> b.table.InRange(b.chains[h].list[k - 1])
    requires head.first == b.chains[h].list[k] && head.contiguous == b.chains[h].head.contiguous
    requires head.contiguous ==>
              Times(k, b.table.clusterBytes) < b.chains[h].head.bytes &&
                  head.bytes == b.chains[h].head.bytes - Times(k, b.table.clusterBytes)
    ensures IsChain(Cut(b, h, k, bytes).table, head, b.chains[h].list[k..])
  {
    ChainInRange(b.table, b.chains[h].head, b.chains[h].list);
    if head.contiguous {
      QuotientDrop(b.chains[h].head.bytes + b.table.clusterBytes - 1, k, b.table.clusterBytes);
      assert b.chains[h].list[k..] == Run(head.first, |b.chains[h].list| - k);
    }
  }

  /** A cluster claimed and linked behind node `i`. */
  lemma AppendedKept(nodes: seq<FatNode>, system: seq<Head>, b: Book, i: nat, c: nat)
    requires Kept(nodes, system, b) && b.table.Shaped() && NoneLoose(b) && i < |nodes| && nodes[i].InUse()
    requires b.table.InRange(c) && !b.table.owners[c]
    requires OfNode(i) in b.chains && !b.chains[OfNode(i)].head.contiguous && |b.chains[OfNode(i)].list| < MAX_CHAIN
    ensures b.chains[OfNode(i)].list != [] ==> b.table.InRange(Last(b.chains[OfNode(i)].list))
    ensures var t := Appended(Claimed(b, c), OfNode(i), c);
            var list := b.chains[OfNode(i)].list;
            var n := nodes[i].(start := nodes[i].start.(first := if list != [] then nodes[i].start.first else c));
            && Kept(nodes[i := n], system, t) && NoneLoose(t) && Grown(b, t, OfNode(i)) &&
                 t.chains[OfNode(i)].list == list + [c]
  {
    assert Opened(BookSeal, 0);
    var h := OfNode(i);
    HeadAt(b, h);
    ChainInRange(b.table, b.chains[h].head, b.chains[h].list);
    ClaimedPartition(b, c);
    AppendedPartition(Claimed(b, c), h, c);
    GrownOnce(b, Appended(Claimed(b, c), h, c), h, c);
    LooseOnce(b, h, c);
    AgreesAt(nodes, system, b.chains, i);
    var list := b.chains[h].list;
    AgreesSet(nodes, system, b.chains, i,
              nodes[i].(start := nodes[i].start.(first := if list != [] then nodes[i].start.first else c)), list + [c]);
  }

  /** The same chain with another size. */
  function Sized(b: Book, h: Holder, bytes: nat): Book
    requires h in b.chains
  {
    b.(chains := b.chains[h := Line(b.chains[h].head.(bytes := bytes), b.chains[h].list)])
  }

  lemma SizedIs(b: Book, h: Holder, bytes: nat)
    requires b.table.Shaped() && h in b.chains && b.chains[h].list != []
    ensures Cut(b, h, |b.chains[h].list|, bytes) == Sized(b, h, bytes)
  {
    Uncut(b, h, bytes);
    assert b.chains[h].list[..|b.chains[h].list|] == b.chains[h].list;
  }

  /** A node gets a size that its chain covers. */
  lemma SizeKept(nodes: seq<FatNode>, system: seq<Head>, b: Book, i: nat, size: nat)
    requires Kept(nodes, system, b) && b.table.Shaped() && NoneLoose(b) && Covered(nodes, b)
    requires i < |nodes| && nodes[i].InUse() && OfNode(i) in b.chains
    requires 0 < b.table.Clusters(size) <= |b.chains[OfNode(i)].list|
    requires nodes[i].start.contiguous ==> b.table.Clusters(size) == |b.chains[OfNode(i)].list|
    ensures var t := Sized(b, OfNode(i), size);
            var ns := nodes[i := nodes[i].(start := nodes[i].start.(bytes := size))];
            Kept(ns, system, t) && NoneLoose(t) && Covered(ns, t)
  {
    var h, list := OfNode(i), b.chains[OfNode(i)].list;
    var n := nodes[i].(start := nodes[i].start.(bytes := size));
    CutKept(nodes, system, b, i, |list|, size);
    SizedIs(b, h, size);
    GrownSelf(b, Sized(b, h, size), h);
    CoveredAt(nodes, b, i);
    CoveredSet(nodes, b, i, n, Sized(b, h, size));
  }

  /** A node's chain cut to its first `k` clusters, and what giving the rest back will leave. */
  lemma CutKept(nodes: seq<FatNode>, system: seq<Head>, b: Book, i: nat, k: nat, bytes: nat)
    requires Kept(nodes, system, b) && b.table.Shaped() && NoneLoose(b) && i < |nodes| && nodes[i].InUse()
    requires OfNode(i) in b.chains && k <= |b.chains[OfNode(i)].list|
    requires k == 0 ==> bytes == 0
    requires k > 0 && nodes[i].start.contiguous ==> b.table.Clusters(bytes) == k
    ensures 0 < k < |b.chains[OfNode(i)].list| ==> b.table.InRange(b.chains[OfNode(i)].list[k - 1])
    ensures var t := Cut(b, OfNode(i), k, bytes);
            var n := nodes[i].(start := Head(if k == 0 then 0
                else nodes[i].start.first, nodes[i].start.contiguous, bytes));
            var u := FreedAll(t, b.chains[OfNode(i)].list[k..]);
            && Kept(nodes[i := n], system, t)
            && (forall d :: d in b.chains[OfNode(i)].list[k..] ==> InHand(t, d))
            && NoneLoose(u) && Shrunk(b, u, OfNode(i), k) && SameShape(b.table, u.table)
  {
    assert Opened(BookSeal, 0);
    AgreesAt(nodes, system, b.chains, i);
    CutPartition(b, OfNode(i), k, bytes);
    ShrunkDone(b, OfNode(i), k, bytes);
    AgreesSet(nodes, system, b.chains, i,
              nodes[i].(start := Head(if k == 0 then 0 else nodes[i].start.first, nodes[i].start.contiguous, bytes)),
              b.chains[OfNode(i)].list[..k]);
  }

  /** Holder `h` is gone, and what it held is free, on disk too; nobody else's chain changed. */
  ghost predicate Dropped(a: Book, b: Book, h: Holder) {
    && h in a.chains
    && forall q :: Opened(GrowSeal, q) ==>
         && b.chains == a.chains - {h} && b.table.Shaped()
         && (forall c: nat :: c in b.of <==> c in a.of && c !in a.chains[h].list)
         && (forall c :: c in a.chains[h].list ==> b.table.InRange(c) && !b.table.owners[c] && !b.table.Allocated(c))
  }

  /** A node that goes out of use leaves its clusters in hand, and giving them back leaves nothing behind. */
  lemma DropKept(nodes: seq<FatNode>, system: seq<Head>, b: Book, i: nat, n: FatNode)
    requires Kept(nodes, system, b) && b.table.Shaped() && NoneLoose(b) && i < |nodes| && nodes[i].InUse() && !n.InUse()
    ensures OfNode(i) in b.chains && Cut(b, OfNode(i), 0, 0).table == b.table
    ensures var t := Dismissed(Cut(b, OfNode(i), 0, 0), OfNode(i));
            var list := b.chains[OfNode(i)].list;
            var u := FreedAll(t, list);
            && Kept(nodes[i := n], system, t) && t.table == b.table
            && (forall d :: d in list ==> InHand(t, d)) && IsChain(t.table, nodes[i].start, list)
            && Kept(nodes[i := n], system, u) && NoneLoose(u) && Dropped(b, u, OfNode(i)) && SameShape(b.table, u.table)
  {
    assert Opened(BookSeal, 0) && Opened(GrowSeal, 0);
    var h := OfNode(i);
    AgreesAt(nodes, system, b.chains, i);
    HeadAt(b, h);
    var list := b.chains[h].list;
    ChainInRange(b.table, b.chains[h].head, list);
    CutPartition(b, h, 0, 0);
    var c := Cut(b, h, 0, 0);
    DismissedPartition(c, h);
    AgreesDropped(nodes, system, b.chains, i, n);
    var t := Dismissed(c, h);
    assert t.chains == b.chains - {h};
    assert list[0..] == list;
    forall d | d in list ensures InHand(t, d) {
      ListAt(b, h, d);
    }
    FreedAllPartition(t, list);
  }

  /** A new holder with the clusters of `list`, all of them free before; nobody else's chain changed. */
  ghost predicate Added(a: Book, b: Book, h: Holder, list: seq<nat>) {
    && h !in a.chains && h in b.chains && b.chains[h].list == list
    && forall q :: Opened(GrowSeal, q) ==>
         && b.chains == a.chains[h := b.chains[h]]
         && (forall c: nat :: c in b.of <==> c in a.of || c in list)
         && (forall c :: c in list ==> c !in a.of)
  }

  /** A new node without clusters. */
  lemma AddedEmpty(nodes: seq<FatNode>, system: seq<Head>, b: Book, i: nat, n: FatNode)
    requires Kept(nodes, system, b) && b.table.Shaped() && NoneLoose(b) && i < |nodes| && !nodes[i].InUse()
    requires n.InUse() && n.start == Head(0, false, 0)
    ensures var t := Admitted(b, OfNode(i));
            Kept(nodes[i := n], system, t) && NoneLoose(t) && Added(b, t, OfNode(i), [])
  {
    assert Opened(BookSeal, 0) && Opened(GrowSeal, 0);
    AgreesAt(nodes, system, b.chains, i);
    AdmittedPartition(b, OfNode(i));
    AgreesSet(nodes, system, b.chains, i, n, []);
  }

  /** A new node whose one cluster was just claimed. */
  lemma AddedOne(nodes: seq<FatNode>, system: seq<Head>, b: Book, i: nat, n: FatNode, c: nat)
    requires Kept(nodes, system, b) && b.table.Shaped() && NoneLoose(b) && i < |nodes| && !nodes[i].InUse()
    requires n.InUse() && n.start.first == c && !n.start.contiguous && b.table.InRange(c) && !b.table.owners[c]
    ensures OfNode(i) !in b.chains
    ensures var t := OneCluster(Claimed(b, c), OfNode(i), n.start);
            Kept(nodes[i := n], system, t) && NoneLoose(t) && Added(b, t, OfNode(i), [c]) &&
                t.table == Claimed(b, c).table
  {
    assert Opened(BookSeal, 0) && Opened(GrowSeal, 0);
    var h := OfNode(i);
    AgreesAt(nodes, system, b.chains, i);
    ClusterAt(b, c);
    ClaimedPartition(b, c);
    var m := Claimed(b, c);
    AdmittedPartition(m, h);
    AppendedPartition(Admitted(m, h), h, c);
    var a := Appended(Admitted(m, h), h, c);
    CutPartition(a, h, 1, n.start.bytes);
    Uncut(a, h, n.start.bytes);
    assert a.chains[h].list == [c];
    assert Cut(a, h, 1, n.start.bytes) == OneCluster(m, h, n.start);
    AgreesSet(nodes, system, b.chains, i, n, [c]);
  }

  function OneCluster(b: Book, h: Holder, start: Head): Book {
    b.(chains := b.chains[h := Line(start, [start.first])], of := b.of[start.first := Held(h)])
  }

  /** The loop of `extend` that writes the links of a contiguous run into the table. */
  method LinkEntries(t: Table, values: seq<nat>) returns (fat: seq<nat>)
    requires t.Shaped() && Distinct(values) && forall j :: 0 <= j < |values| ==> t.InRange(values[j])
    ensures |fat| == |t.fat| && forall c :: 0 <= c < |fat| && c !in values ==> fat[c] == t.fat[c]
    ensures values != [] ==> Follows(t.(fat := fat), values)
  {
    fat := t.fat;
    for k := 0 to |values|
      invariant |fat| == |t.fat| && forall c :: 0 <= c < |fat| && c !in values ==> fat[c] == t.fat[c]
      invariant forall j :: 0 <= j < k ==> fat[values[j]] == if j + 1 < |values| then values[j + 1] else 0xffff_ffff
    {
      fat := fat[values[k] := if k + 1 < |values| then values[k + 1] else 0xffff_ffff];
    }
  }

  /** Every cluster of the list is in use on disk and owned by nobody. */
  predicate Unclaimed(t: Table, list: seq<nat>)
    requires t.Shaped()
  {
    forall i :: 0 <= i < |list| ==> t.InRange(list[i]) && !t.owners[list[i]] && t.Allocated(list[i])
  }

  function MarkedAll(b: Book, list: seq<nat>): Book {
    if list == [] then b
    else
      var m := MarkedAll(b, list[..|list| - 1]);
      var c := list[|list| - 1];
      if m.table.Shaped() && m.table.InRange(c) then Marked(m, c) else m
  }

  lemma {:induction false} MarkedAllPartition(b: Book, list: seq<nat>)
    requires Partition(b) && Distinct(list) && Unclaimed(b.table, list)
    ensures var t := MarkedAll(b, list);
            && Partition(t) && t.chains == b.chains && t.table.fat == b.table.fat &&
                 t.table.bitmap == b.table.bitmap && SameShape(b.table, t.table)
            && (forall c :: c in t.of <==> c in b.of || c in list) && (forall c :: c in b.of ==> t.of[c] == b.of[c])
            && (forall c :: c in list ==> c !in b.of && InHand(t, c))
  {
    if list != [] {
      var front, c := list[..|list| - 1], list[|list| - 1];
      assert list == front + [c];
      assert forall i :: 0 <= i < |front| ==> front[i] == list[i];
      MarkedAllPartition(b, front);
      assert c !in front;
      ClusterAt(b, c);
      ClusterAt(MarkedAll(b, front), c);
      MarkedPartition(MarkedAll(b, front), c);
    }
  }

  lemma {:induction false} MarkedAllOwners(b: Book, list: seq<nat>)
    requires b.table.Shaped() && forall i :: 0 <= i < |list| ==> b.table.InRange(list[i])
    ensures var t := MarkedAll(b, list).table;
            && t == b.table.(owners := t.owners) && t.Shaped()
            && forall c :: 0 <= c < |b.table.owners| ==> t.owners[c] == (b.table.owners[c] || c in list)
  {
    if list != [] {
      var front := list[..|list| - 1];
      assert list == front + [list[|list| - 1]];
      assert forall i :: 0 <= i < |front| ==> front[i] == list[i];
      MarkedAllOwners(b, front);
    }
  }

  /** `claim`: sets the owner bits of a chain just when none is set and all are allocated. */
  method Claim(t: Table, values: seq<nat>) returns (s: Status, u: Table)
    requires t.Shaped() && Distinct(values) && forall i :: 0 <= i < |values| ==> t.InRange(values[i])
    ensures s == Success <==> Unclaimed(t, values)
    ensures s == Success ==> u == t.(owners := u.owners) && |u.owners| == |t.owners|
    ensures s == Success ==> forall c :: 0 <= c < |t.owners| ==> u.owners[c] == (t.owners[c] || c in values)
  {
    var owners := t.owners;
    u := t;
    for i := 0 to |values|
      invariant |owners| == |t.owners| && u == t
      invariant forall j :: 0 <= j < i ==> !t.owners[values[j]] && t.Allocated(values[j])
      invariant forall c :: 0 <= c < |owners| ==> owners[c] == (t.owners[c] || c in values[..i])
    {
      assert values[i] !in values[..i];
      if owners[values[i]] {
        return IoError, u;
      }
      if !t.Allocated(values[i]) {
        return IoError, u;
      }
      owners := owners[values[i] := true];
      assert values[..i + 1] == values[..i] + [values[i]];
    }
    assert values[..|values|] == values;
    return Success, t.(owners := owners);
  }

  lemma ClaimedKept(nodes: seq<FatNode>, system: seq<Head>, b: Book, i: nat, n: FatNode, list: seq<nat>)
    requires Kept(nodes, system, b) && b.table.Shaped() && NoneLoose(b) && i < |nodes| && !nodes[i].InUse() && n.InUse()
    requires IsChain(b.table, n.start, list) && Unclaimed(b.table, list) && (b.table.fat32 ==> !n.start.contiguous)
    ensures var m := MarkedAll(b, list);
            var t := Adopted(m, OfNode(i), n.start, list);
            && Kept(nodes[i := n], system, t) && NoneLoose(t) && Added(b, t, OfNode(i), list)
            && m.table == b.table.(owners := m.table.owners) && |m.table.owners| == |b.table.owners|
            && forall c :: 0 <= c < |b.table.owners| ==> m.table.owners[c] == (b.table.owners[c] || c in list)
  {
    assert Opened(BookSeal, 0) && Opened(GrowSeal, 0);
    ChainInRange(b.table, n.start, list);
    AgreesAt(nodes, system, b.chains, i);
    MarkedAllPartition(b, list);
    MarkedAllOwners(b, list);
    var m := MarkedAll(b, list);
    ChainFrame(b.table, m.table, n.start, list);
    AdoptedPartition(m, OfNode(i), n.start, list);
    AgreesSet(nodes, system, b.chains, i, n, list);
  }

  /** The chain of an entry, long enough for its size; a directory has at least one cluster. */
  predicate Fitting(t: Table, start: Head, directory: bool, list: seq<nat>)
    requires t.Shaped()
  {
    IsChain(t, start, list) && start.bytes <= Times(|list|, t.clusterBytes) && (directory ==> start.first != 0)
  }

  /** No node slot can be taken. */
  ghost predicate NoSlot(nodes: seq<FatNode>) {
    forall j :: 0 < j < |nodes| ==> nodes[j].InUse() || nodes[j].start.first != 0 || nodes[j].traits.exposed
  }

  /** No cluster is free both in memory and on disk. */
  ghost predicate Full(t: Table) {
    t.Shaped() && forall c: nat :: t.InRange(c) ==> t.owners[c] || t.Allocated(c)
  }

  /** A node with one more reference. */
  function Retained(n: FatNode): FatNode { n.(traits := n.traits.(refs := n.traits.refs + 1)) }

  class FatVolume {
    const system: seq<Head>
    var table: Table
    var nodes: seq<FatNode>
    ghost var book: Book

    /** The invariant, clusters in hand allowed. */
    ghost predicate Working()
      reads this
    {
      && book.table == table && table.Shaped() && |nodes| == MAX_NODES
      && Kept(nodes, system, book)
    }

    ghost predicate Valid()
      reads this
    {
      Working() && NoneLoose(book) && Covered(nodes, book)
    }

    /** The chain of a node; empty when it is not in use. */
    ghost function List(i: nat): seq<nat>
      reads this
    {
      if OfNode(i) in book.chains then book.chains[OfNode(i)].list else []
    }

    /**
     A cluster has its owner bit exactly when it is in the chain of a node in use or of a system
     table, and only one.
     */
    lemma OwnedExactly(c: nat)
      requires Valid() && table.InRange(c)
      ensures table.owners[c] <==>
              || (exists i: nat :: i < |nodes| && nodes[i].InUse() && c in List(i))
              || (exists j: nat :: j < |system| && OfSystem(j) in book.chains && c in book.chains[OfSystem(j)].list)
      ensures forall h, g ::
              h in book.chains && g in book.chains && c in book.chains[h].list && c in book.chains[g].list ==> h == g
      ensures forall i: nat :: i < |nodes| && nodes[i].InUse() ==> IsChain(table, nodes[i].start, List(i))
      ensures forall j: nat :: j < |system| ==>
              OfSystem(j) in book.chains && IsChain(table, system[j], book.chains[OfSystem(j)].list)
    {
      assert Opened(BookSeal, 0) && Opened(HeadsSeal, 0) && Opened(GrowSeal, 0);
      ExactUnion(book, c);
      if h :| h in book.chains && c in book.chains[h].list {
        match h
        case OfNode(i) => assert nodes[i].InUse() && c in List(i);
        case OfSystem(j) => assert j < |system|;
      }
      forall h | h in book.chains ensures IsChain(table, book.chains[h].head, book.chains[h].list) {
        HeadAt(book, h);
      }
    }

    /** Every position below the size of a node is in a cluster of its chain, and a directory has a cluster. */
    lemma SizeCovered(i: nat, position: nat)
      requires Valid() && i < |nodes| && nodes[i].InUse()
      ensures position < nodes[i].start.bytes ==> Quotient(position, table.clusterBytes) < |List(i)|
      ensures nodes[i].traits.directory ==> List(i) != []
    {
      ListChain(i);
      CoveredAt(nodes, book, i);
      var d := table.clusterBytes;
      if position < nodes[i].start.bytes {
        NeedMono(d, position + 1, nodes[i].start.bytes);
        QuotientMono(d, position + d, d);
        assert Quotient(position + d, d) == 1 + Quotient(position, d);
      }
    }

    lemma ListChain(i: nat)
      requires Working() && i < |nodes| && nodes[i].InUse()
      ensures OfNode(i) in book.chains && book.chains[OfNode(i)].head == nodes[i].start
      ensures IsChain(table, nodes[i].start, List(i))
    {
      assert Opened(BookSeal, 0);
      AgreesAt(nodes, system, book.chains, i);
      HeadAt(book, OfNode(i));
    }

    /** `allocate_cluster`: the lowest cluster that is free both in memory and on disk. */
    method AllocateCluster() returns (r: Result<nat>)
      requires Working()
      modifies this`table, this`book
      ensures Working()
      ensures r.Ok? ==>
              && old(table).InRange(r.value) && !old(table).owners[r.value] && !old(table).Allocated(r.value)
              && (forall c: nat :: 2 <= c < r.value ==> old(table).owners[c] || old(table).Allocated(c))
              && book == Claimed(old(book), r.value)
      ensures r.Err? ==> r.status == NoMemory && book == old(book) && Full(table)
    {
      assert Opened(BookSeal, 0);
      for c: nat := 2 to |table.fat|
        invariant table == old(table) && book == old(book)
        invariant forall d: nat :: 2 <= d < c ==> table.owners[d] || table.Allocated(d)
      {
        if table.owners[c] {
          continue;
        }
        if table.Allocated(c) {
          continue;
        }
        ClaimedPartition(book, c);
        table := table.(fat := table.fat[c := table.EndMark()]);
        table := table.(bitmap := table.bitmap[c := true]);
        table := table.(owners := table.owners[c := true]);
        book := Claimed(book, c);
        return Ok(c);
      }
      return Err(NoMemory);
    }

    /** `free_chain` for a chain that nobody holds any more: every cluster of it becomes free. */
    method FreeChain(head: Head, ghost list: seq<nat>) returns (s: Status)
      requires Working() && IsChain(table, head, list) && forall c :: c in list ==> InHand(book, c)
      modifies this`table, this`book
      ensures Working() && s == Success && book == FreedAll(old(book), list)
    {
      assert Opened(BookSeal, 0);
      var found := Chain(table, head);
      if found.Err? {
        return IoError;
      }
      var values := found.value;
      ChainUnique(table, head, list, values);
      ChainInRange(table, head, list);
      for i := 0 to |values|
        invariant Working() && book == FreedAll(old(book), list[..i])
      {
        var c := values[i];
        FreedNext(old(book), list, i);
        if !table.owners[c] {
          return IoError;
        }
        table := table.(fat := table.fat[c := 0]);
        table := table.(bitmap := table.bitmap[c := false]);
        table := table.(owners := table.owners[c := false]);
        book := Freed(book, c);
      }
      assert list[..|values|] == list;
      return Success;
    }

    /** The clusters of a node, read along its chain. */
    method Values(i: nat) returns (values: seq<nat>)
      requires Working() && i < |nodes| && nodes[i].InUse()
      ensures values == List(i) && |values| <= MAX_CHAIN && OfNode(i) in book.chains
      ensures values == [] <==> nodes[i].start.first == 0
    {
      var found := Chain(table, nodes[i].start);
      ListChain(i);
      if found.Err? {
        assert false;
      }
      values := found.value;
      ChainUnique(table, nodes[i].start, List(i), values);
      ChainInRange(table, nodes[i].start, List(i));
    }

    /** A contiguous run becomes a linked chain of the same clusters. */
    method Unroll(i: nat, values: seq<nat>)
      requires Working() && i < |nodes| && nodes[i].InUse() && nodes[i].start.contiguous && values == List(i)
      modifies this
      ensures Working() && Restarted(old(nodes), nodes, i) && !nodes[i].start.contiguous
      ensures nodes[i].start.bytes == old(nodes[i].start.bytes)
      ensures OfNode(i) in book.chains && book.chains == old(book.chains)[OfNode(i) := book.chains[OfNode(i)]]
      ensures List(i) == old(List(i)) && book.of == old(book.of) && SameShape(old(table), table)
    {
      assert Opened(BookSeal, 0);
      ListChain(i);
      ChainInRange(table, nodes[i].start, values);
      var fat := LinkEntries(table, values);
      RunEntriesPartition(book, OfNode(i), fat);
      table := table.(fat := fat);
      book := book.(table := table);
      RelabelledPartition(book, OfNode(i));
      var start := nodes[i].start.(contiguous := false);
      AgreesSet(nodes, system, book.chains, i, nodes[i].(start := start), List(i));
      RestartedTo(nodes, i, start);
      nodes := nodes[i := nodes[i].(start := start)];
      book := Relabelled(book, OfNode(i));
    }

    /** One turn of the loop of `extend`: a free cluster is taken and linked behind `last`, or becomes the first. */
    method AppendCluster(i: nat, last: nat) returns (r: Result<nat>)
      requires Valid() && i < |nodes| && nodes[i].InUse() && !nodes[i].start.contiguous && |List(i)| < MAX_CHAIN
      requires last == Last(List(i))
      modifies this
      ensures Valid()
      ensures r.Err? ==> r.status == NoMemory && nodes == old(nodes) && book == old(book) && Full(table)
      ensures r.Ok? ==> Restarted(old(nodes), nodes, i) && !nodes[i].start.contiguous
      ensures nodes[i].start.bytes == old(nodes[i].start.bytes)
      ensures r.Ok? ==> List(i) == old(List(i)) + [r.value] && Grown(old(book), book, OfNode(i))
    {
      ListChain(i);
      ChainInRange(table, nodes[i].start, List(i));
      r := AllocateCluster();
      if r.Err? {
        return;
      }
      var c := r.value;
      AppendedKept(nodes, system, old(book), i, c);
      RestartedTo(nodes, i, nodes[i].start.(first := if last != 0 then nodes[i].start.first else c));
      if last != 0 {
        table := table.(fat := table.fat[last := c]);
        assert nodes == nodes[i := nodes[i].(start := nodes[i].start.(first := nodes[i].start.first))];
      } else {
        nodes := nodes[i := nodes[i].(start := nodes[i].start.(first := c))];
      }
      book := Appended(book, OfNode(i), c);
      CoveredGrown(old(nodes), old(book), i, nodes, book);
    }

    /** `extend`: at least `wanted` clusters, by free ones behind the old chain; nobody else's chain changes. */
    method Extend(i: nat, wanted: nat) returns (s: Status)
      requires Valid() && i < |nodes| && nodes[i].InUse()
      modifies this
      ensures Valid() && Restarted(old(nodes), nodes, i)
      ensures Grown(old(book), book, OfNode(i)) && nodes[i].start.bytes == old(nodes[i].start.bytes)
      ensures s == Overflow <==> wanted > MAX_CHAIN
      ensures s == Overflow ==> nodes == old(nodes) && book == old(book)
      ensures s == Success ==> |List(i)| == Max(old(|List(i)|), wanted)
      ensures s == Success || s == Overflow || (s == NoMemory && Full(table))
      ensures old(|List(i)|) >= wanted ==> nodes == old(nodes) && book == old(book)
      ensures old(|List(i)|) < wanted && s == Success ==> !nodes[i].start.contiguous
    {
      var values := Values(i);
      GrownSelf(book, book, OfNode(i));
      RestartedTo(nodes, i, nodes[i].start);
      assert nodes == nodes[i := nodes[i].(start := nodes[i].start)];
      if wanted > MAX_CHAIN {
        return Overflow;
      }
      if |values| >= wanted {
        return Success;
      }
      if nodes[i].start.contiguous {
        Unroll(i, values);
        GrownSelf(old(book), book, OfNode(i));
        CoveredGrown(old(nodes), old(book), i, nodes, book);
      }
      s := AppendMany(i, if |values| > 0 then values[|values| - 1] else 0, |values|, wanted, old(book), old(nodes));
    }

    /** The loop of `extend`. */
    method AppendMany(i: nat, from: nat, count: nat, wanted: nat, ghost start: Book, ghost before: seq<FatNode>)
      returns (s: Status)
      requires Valid() && i < |nodes| && nodes[i].InUse() && !nodes[i].start.contiguous
      requires Grown(start, book, OfNode(i)) && Restarted(before, nodes, i) && |List(i)| == count <= wanted <= MAX_CHAIN
      requires from == Last(List(i))
      modifies this
      ensures Valid() && Restarted(before, nodes, i) && !nodes[i].start.contiguous
      ensures Grown(start, book, OfNode(i)) && nodes[i].start.bytes == old(nodes[i].start.bytes)
      ensures s == Success ==> |List(i)| == wanted
      ensures s == Success || (s == NoMemory && Full(table))
    {
      var last := from;
      for n := count to wanted
        invariant Valid() && Restarted(before, nodes, i) && !nodes[i].start.contiguous
        invariant Grown(start, book, OfNode(i)) && |List(i)| == n && last == Last(List(i))
        invariant nodes[i].start.bytes == old(nodes[i].start.bytes)
      {
        ghost var b, ns := book, nodes;
        var next := AppendCluster(i, last);
        if next.Err? {
          return NoMemory;
        }
        GrownTwice(start, b, book, OfNode(i));
        RestartedTwice(before, ns, nodes, i);
        last := next.value;
      }
      return Success;
    }

    /** `resize`: the chain keeps what fits the new size and gains or loses the rest; nobody else's chain changes. */
    method Resize(i: nat, size: nat) returns (s: Status)
      requires Valid() && i < |nodes|
      modifies this
      ensures Valid() && Restarted(old(nodes), nodes, i) && SameShape(old(table), table)
      ensures s == Denied <==> !old(nodes[i].InUse()) || old(nodes[i].traits.directory) || old(nodes[i].traits.readonly)
      ensures s == Success ==> nodes[i].start.bytes == size
      ensures s in {Success, Denied, Overflow} || (s == NoMemory && Full(table) && size > old(nodes[i].start.bytes))
      ensures s == Overflow <==>
              s != Denied && (size > 0xffff_ffff || size > Times(MAX_CHAIN, old(table).clusterBytes))
      ensures s == Success && size > old(nodes[i].start.bytes) ==>
              Grown(old(book), book, OfNode(i)) && |List(i)| == Max(old(|List(i)|), table.Clusters(size))
      ensures s == Success && size < old(nodes[i].start.bytes) ==>
              Shrunk(old(book), book, OfNode(i), table.Clusters(size))
    {
      RestartedTo(nodes, i, nodes[i].start);
      assert nodes == nodes[i := nodes[i].(start := nodes[i].start)];
      if !nodes[i].InUse() || nodes[i].traits.directory || nodes[i].traits.readonly {
        return Denied;
      }
      if size > 0xffff_ffff || size > Times(MAX_CHAIN, table.clusterBytes) {
        return Overflow;
      }
      if size == nodes[i].start.bytes {
        return Success;
      }
      var wanted := table.Clusters(size);
      NeedIff(table.clusterBytes, size, MAX_CHAIN);
      if size > nodes[i].start.bytes {
        s := Enlarge(i, size, wanted);
      } else {
        s := Shrink(i, size, wanted);
      }
    }

    method Enlarge(i: nat, size: nat, wanted: nat) returns (s: Status)
      requires Valid() && i < |nodes| && nodes[i].InUse() && size > nodes[i].start.bytes
      requires wanted == table.Clusters(size)
      modifies this
      ensures Valid() && s != Denied && Restarted(old(nodes), nodes, i)
      ensures SameShape(old(table), table)
      ensures s == Success || (s == NoMemory && Full(table)) || (s == Overflow && wanted > MAX_CHAIN)
      ensures s == Success ==> nodes[i].start.bytes == size
      ensures s == Success ==> Grown(old(book), book, OfNode(i)) && |List(i)| == Max(old(|List(i)|), wanted)
    {
      ListChain(i);
      CountsGrow(table, List(i), nodes[i].start, size);
      s := Extend(i, wanted);
      if s != Success {
        return;
      }
      ListChain(i);
      SetSize(i, size, old(book), old(nodes));
    }

    /** A node gets a size that its chain covers. */
    method SetSize(i: nat, size: nat, ghost start: Book, ghost before: seq<FatNode>)
      requires Valid() && i < |nodes| && nodes[i].InUse() && OfNode(i) in book.chains
      requires Grown(start, book, OfNode(i)) && Restarted(before, nodes, i)
      requires 0 < table.Clusters(size) <= |List(i)|
      requires nodes[i].start.contiguous ==> table.Clusters(size) == |List(i)|
      modifies this`nodes, this`book
      ensures Valid() && Restarted(before, nodes, i) && nodes[i].start.bytes == size
      ensures Grown(start, book, OfNode(i)) && List(i) == old(List(i))
    {
      ListChain(i);
      SizeKept(nodes, system, book, i, size);
      RestartedTo(nodes, i, nodes[i].start.(bytes := size));
      nodes := nodes[i := nodes[i].(start := nodes[i].start.(bytes := size))];
      book := Sized(book, OfNode(i), size);
      RestartedTwice(before, old(nodes), nodes, i);
      GrownSame(start, old(book), book, OfNode(i));
    }

    method Shrink(i: nat, size: nat, wanted: nat) returns (s: Status)
      requires Valid() && i < |nodes| && nodes[i].InUse() && !nodes[i].traits.directory && size < nodes[i].start.bytes
      requires wanted == table.Clusters(size)
      modifies this
      ensures Valid() && s == Success && Restarted(old(nodes), nodes, i)
      ensures SameShape(old(table), table) && nodes[i].start.bytes == size
      ensures Shrunk(old(book), book, OfNode(i), wanted)
    {
      var values := Values(i);
      ListChain(i);
      ghost var b := book;
      CountsShrink(table, values, nodes[i].start, size);
      var was := nodes[i].start;
      CoveredAt(nodes, b, i);
      NeedMono(table.clusterBytes, size, was.bytes);
      CutKept(nodes, system, b, i, wanted, size);
      if 0 < wanted < |values| && !was.contiguous {
        table := table.(fat := table.fat[values[wanted - 1] := table.EndMark()]);
      }
      var start := Head(if wanted == 0 then 0 else was.first, was.contiguous, size);
      RestartedTo(nodes, i, start);
      nodes := nodes[i := nodes[i].(start := start)];
      book := Cut(b, OfNode(i), wanted, size);
      if wanted < |values| {
        var head := Head(if wanted > 0 then values[wanted] else was.first, was.contiguous,
                         if was.contiguous then was.bytes - Times(wanted, table.clusterBytes) else 0);
        TailChain(b, OfNode(i), wanted, size, head);
        s := FreeChain(head, values[wanted..]);
      } else {
        assert values[wanted..] == [];
        s := Success;
      }
      CoveredShrunk(old(nodes), b, i, nodes, book, wanted);
    }

    /** A volume whose system tables are claimed and whose nodes are still to be found. */
    constructor (book: Book, system: seq<Head>, nodes: seq<FatNode>)
      requires book.table.Shaped() && |nodes| == MAX_NODES && Kept(nodes, system, book) && NoneLoose(book)
      requires Covered(nodes, book)
      ensures Valid() && this.nodes == nodes && this.book == book
    {
      this.table := book.table;
      this.system := system;
      this.nodes := nodes;
      this.book := book;
    }

    /**
     The storage side of `add`, which a mount calls for every entry it finds: accepted just when
     the size is within the limit, the chain is one that covers it, a directory has a cluster,
     and nobody owns any cluster of the chain.
     */
    method Add(i: nat, start: Head, traits: Traits) returns (s: Status)
      requires Valid() && i < |nodes| && !nodes[i].InUse() && traits.live && (table.fat32 ==> !start.contiguous)
      modifies this
      ensures s == Success ==>
              Valid() && Added(old(book), book, OfNode(i), List(i)) && nodes == old(nodes)[i := FatNode(start, traits)]
      ensures start.bytes > Times(MAX_CHAIN, old(table).clusterBytes) ==> s == Overflow
      ensures s == Success <==>
              && start.bytes <= Times(MAX_CHAIN, old(table).clusterBytes)
              && exists list :: Fitting(old(table), start, traits.directory, list) && Unclaimed(old(table), list)
    {
      if start.bytes > Times(MAX_CHAIN, table.clusterBytes) {
        return Overflow;
      }
      var found := Chain(table, start);
      if found.Err? {
        return found.status;
      }
      var values := found.value;
      forall list | IsChain(table, start, list) ensures list == values {
        ChainUnique(table, start, list, values);
      }
      ChainInRange(table, start, values);
      if (traits.directory && start.first == 0) || Times(|values|, table.clusterBytes) < start.bytes {
        return IoError;
      }
      var claimed;
      s, claimed := Claim(table, values);
      if s != Success {
        return;
      }
      assert Fitting(table, start, traits.directory, values);
      Adopt(i, FatNode(start, traits), values, claimed);
    }

    /** The node of an accepted chain, which `claim` has marked in the table. */
    method Adopt(i: nat, n: FatNode, values: seq<nat>, claimed: Table)
      requires Valid() && i < |nodes| && !nodes[i].InUse() && n.InUse() && (table.fat32 ==> !n.start.contiguous)
      requires Fitting(table, n.start, n.traits.directory, values) && Unclaimed(table, values)
      requires claimed == table.(owners := claimed.owners) && |claimed.owners| == |table.owners|
      requires forall c :: 0 <= c < |table.owners| ==> claimed.owners[c] == (table.owners[c] || c in values)
      modifies this
      ensures Valid() && nodes == old(nodes)[i := n]
      ensures List(i) == values && Added(old(book), book, OfNode(i), values)
    {
      ChainInRange(table, n.start, values);
      NeedIff(table.clusterBytes, n.start.bytes, |values|);
      ClaimedKept(nodes, system, book, i, n, values);
      assert claimed.owners == MarkedAll(book, values).table.owners;
      nodes := nodes[i := n];
      book := Adopted(MarkedAll(book, values), OfNode(i), n.start, values);
      table := claimed;
      CoveredAdded(old(nodes), old(book), i, n, book, values);
    }

    /** The slot of a new node: one that no name, handle, cluster or raw pointer refers to. */
    method FindSlot() returns (index: nat)
      requires Valid()
      ensures 0 < index <= |nodes|
      ensures index < |nodes| ==> !nodes[index].InUse() && nodes[index].start.first == 0 && !nodes[index].traits.exposed
      ensures index == |nodes| ==> NoSlot(nodes)
    {
      index := 1;
      while index < |nodes|
        invariant 0 < index <= |nodes|
        invariant forall j :: 0 < j < index ==> nodes[j].InUse() || nodes[j].start.first != 0 || nodes[j].traits.exposed
      {
        if !nodes[index].InUse() && nodes[index].start.first == 0 && !nodes[index].traits.exposed {
          return;
        }
        index := index + 1;
      }
    }

    /** `free_slots` reaching the end of a directory: one more cluster, and on exFAT a larger size. */
    method GrowDirectory(d: nat) returns (s: Status)
      requires Valid() && d < |nodes| && nodes[d].InUse()
      modifies this
      ensures Valid() && Restarted(old(nodes), nodes, d) && Grown(old(book), book, OfNode(d))
      ensures s == Success ==> |List(d)| == old(|List(d)|) + 1
      ensures nodes[d].start.bytes ==
              if s == Success && !old(table).fat32 && d != 0 then Times(|List(d)|, table.clusterBytes)
              else old(nodes[d].start.bytes)
      ensures s == Success || (s == NoMemory && Full(table)) || (s == Overflow && |List(d)| == MAX_CHAIN)
    {
      var values := Values(d);
      s := Extend(d, |values| + 1);
      if s != Success || table.fat32 || d == 0 {
        return;
      }
      ListChain(d);
      QuotientIs(Times(|values| + 1, table.clusterBytes) + table.clusterBytes - 1, table.clusterBytes,
                 |values| + 1, table.clusterBytes - 1);
      SetSize(d, Times(|values| + 1, table.clusterBytes), old(book), old(nodes));
    }

    /** The storage side of `create`, with `growth` clusters more for the parent's entries. */
    method Create(parent: nat, directory: bool, growth: nat) returns (r: Result<nat>, ghost middle: Book)
      requires Valid() && parent < |nodes| && nodes[parent].InUse()
      modifies this
      ensures Valid()
      ensures Grown(old(book), middle, OfNode(parent))
      ensures r.Ok? ==> 0 < r.value < |nodes| && !old(nodes[r.value].InUse()) && nodes[r.value].traits.live
      ensures r.Ok? ==>
              Added(middle, book, OfNode(r.value), List(r.value)) && |List(r.value)| == if directory then 1 else 0
      ensures r.Err? ==> book == middle
      ensures r == Err(NotDirectory) <==> !old(nodes[parent].traits.live) || !old(nodes[parent].traits.directory)
      ensures r.Err? ==>
              || r.status == NotDirectory || (r.status == Overflow && |List(parent)| == MAX_CHAIN)
              || (r.status == NoMemory && (Full(table) || NoSlot(old(nodes))))
    {
      middle := book;
      ListChain(parent);
      GrownSelf(book, book, OfNode(parent));
      if !nodes[parent].traits.live || !nodes[parent].traits.directory {
        return Err(NotDirectory), middle;
      }
      var index := FindSlot();
      if index == |nodes| {
        return Err(NoMemory), middle;
      }
      RestartedTo(nodes, parent, nodes[parent].start);
      assert nodes == nodes[parent := nodes[parent].(start := nodes[parent].start)];
      for g := 0 to growth
        invariant Valid() && Grown(old(book), book, OfNode(parent)) && Restarted(old(nodes), nodes, parent)
      {
        ghost var b, ns := book, nodes;
        var s := GrowDirectory(parent);
        GrownTwice(old(book), b, book, OfNode(parent));
        RestartedTwice(old(nodes), ns, nodes, parent);
        if s != Success {
          return Err(s), book;
        }
      }
      StillFree(old(nodes), nodes, parent, index);
      middle := book;
      r := Publish(index, directory, parent);
    }

    /** The new node itself. */
    method Publish(index: nat, directory: bool, parent: nat) returns (r: Result<nat>)
      requires Valid() && 0 < index < |nodes| && !nodes[index].InUse()
      modifies this
      ensures Valid() && |nodes| == old(|nodes|)
      ensures r.Ok? ==> r.value == index && nodes[index].traits.live
      ensures r.Ok? ==>
              Added(old(book), book, OfNode(index), List(index)) && |List(index)| == if directory then 1 else 0
      ensures r.Err? ==> book == old(book) && r.status == NoMemory && directory && Full(table)
    {
      var traits := Traits(true, 0, directory, false, false, parent);
      if !directory {
        AddedEmpty(nodes, system, book, index, FatNode(Head(0, false, 0), traits));
        nodes := nodes[index := FatNode(Head(0, false, 0), traits)];
        book := Admitted(book, OfNode(index));
        CoveredAdded(old(nodes), old(book), index, nodes[index], book, []);
        return Ok(index);
      }
      ghost var b := book;
      var c := AllocateCluster();
      if c.Err? {
        return Err(c.status);
      }
      var node := FatNode(Head(c.value, false, if table.fat32 then 0 else table.clusterBytes), traits);
      AddedOne(nodes, system, b, index, node, c.value);
      nodes := nodes[index := node];
      book := OneCluster(book, OfNode(index), node.start);
      NeedIff(table.clusterBytes, node.start.bytes, 1);
      CoveredAdded(old(nodes), b, index, node, book, [c.value]);
      return Ok(index);
    }

    /** A node goes out of use: its chain is freed and its slot may be taken again. */
    method Drop(i: nat, traits: Traits) returns (s: Status)
      requires Valid() && i < |nodes| && nodes[i].InUse() && !traits.live && traits.refs == 0
      modifies this
      ensures Valid() && s == Success && SameShape(old(table), table)
      ensures nodes == old(nodes)[i := FatNode(old(nodes[i].start).(first := 0), traits)]
      ensures Dropped(old(book), book, OfNode(i))
    {
      ghost var b := book;
      var start := nodes[i].start;
      DropKept(nodes, system, b, i, FatNode(start, traits));
      DropKept(nodes, system, b, i, FatNode(start.(first := 0), traits));
      nodes := nodes[i := FatNode(start, traits)];
      book := Dismissed(Cut(b, OfNode(i), 0, 0), OfNode(i));
      s := FreeChain(start, b.chains[OfNode(i)].list);
      nodes := nodes[i := FatNode(start.(first := 0), traits)];
      CoveredDropped(old(nodes), b, i, nodes[i], book);
    }

    /** The storage side of `remove`: a node still referenced keeps its chain until the last release. */
    method Remove(i: nat, directory: bool) returns (s: Status)
      requires Valid() && 0 < i < |nodes| && nodes[i].traits.live
      modifies this
      ensures Valid()
      ensures s == Success <==>
              && old(nodes[i].traits.directory) == directory && !old(nodes[i].traits.readonly)
              && (directory ==> forall j :: 0 < j < old(|nodes|) ==>
                   !(old(nodes[j].traits.live) && old(nodes[j].traits.parent) == i))
      ensures s != Success ==> nodes == old(nodes) && book == old(book)
      ensures s == Success && old(nodes[i].traits.refs) > 0 ==> book == old(book)
      ensures s == Success && old(nodes[i].traits.refs) == 0 ==> Dropped(old(book), book, OfNode(i))
      ensures s == Success ==> !nodes[i].traits.live && nodes == old(nodes)[i := nodes[i]]
    {
      var traits := nodes[i].traits;
      if traits.directory != directory {
        return InvalidArgument;
      }
      if traits.readonly {
        return Denied;
      }
      if traits.directory {
        for j := 1 to |nodes|
          invariant forall m :: 0 < m < j ==> !(nodes[m].traits.live && nodes[m].traits.parent == i)
        {
          if nodes[j].traits.live && nodes[j].traits.parent == i {
            return Busy;
          }
        }
      }
      if traits.refs > 0 {
        FlagKept(nodes, system, book, i, nodes[i].(traits := traits.(live := false)));
        nodes := nodes[i := nodes[i].(traits := traits.(live := false))];
        return Success;
      }
      s := Drop(i, traits.(live := false));
    }

    method Retain(i: nat) returns (s: Status)
      requires Valid() && i < |nodes|
      modifies this
      ensures Valid() && book == old(book)
      ensures s == Success <==> old(nodes[i].InUse()) && old(nodes[i].traits.refs) != MAX_REFERENCES
      ensures nodes == if s == Success
                       then old(nodes)[i := Retained(old(nodes[i]))]
                       else old(nodes)
    {
      if !nodes[i].InUse() || nodes[i].traits.refs == MAX_REFERENCES {
        return Busy;
      }
      var node := nodes[i].(traits := nodes[i].traits.(refs := nodes[i].traits.refs + 1));
      FlagKept(nodes, system, book, i, node);
      nodes := nodes[i := node];
      return Success;
    }

    /** `release`: the last release of a removed node frees its chain. */
    method Release(i: nat) returns (s: Status)
      requires Valid() && i < |nodes|
      modifies this
      ensures Valid()
      ensures s == if old(nodes[i].traits.refs) == 0 then InvalidArgument else Success
      ensures s != Success ==> nodes == old(nodes) && book == old(book)
      ensures s == Success ==> nodes[i].traits == old(nodes[i].traits).(refs := old(nodes[i].traits.refs) - 1)
      ensures s == Success ==> nodes == old(nodes)[i := nodes[i]]
      ensures s == Success && nodes[i].InUse() ==> book == old(book)
      ensures s == Success && !nodes[i].InUse() ==> Dropped(old(book), book, OfNode(i))
    {
      if nodes[i].traits.refs == 0 {
        return InvalidArgument;
      }
      var traits := nodes[i].traits.(refs := nodes[i].traits.refs - 1);
      if traits.live || traits.refs > 0 {
        FlagKept(nodes, system, book, i, nodes[i].(traits := traits));
        nodes := nodes[i := nodes[i].(traits := traits)];
        return Success;
      }
      s := Drop(i, traits);
    }
  }

  lemma StillFree(a: seq<FatNode>, b: seq<FatNode>, parent: nat, index: nat)
    requires Restarted(a, b, parent) && index < |a|
    ensures b[index].InUse() == a[index].InUse()
  {
    assert Opened(GrowSeal, 0);
  }

  /** Flags that leave a node in use leave the book alone. */
  lemma FlagKept(nodes: seq<FatNode>, system: seq<Head>, b: Book, i: nat, n: FatNode)
    requires Kept(nodes, system, b) && i < |nodes| && nodes[i].InUse() && n.InUse() && n.start == nodes[i].start
    requires Covered(nodes, b) && n.traits.directory == nodes[i].traits.directory
    ensures Kept(nodes[i := n], system, b) && Covered(nodes[i := n], b)
  {
    assert Opened(BookSeal, 0);
    AgreesAt(nodes, system, b.chains, i);
    CoveredAt(nodes, b, i);
    CoveredSet(nodes, b, i, n, b);
    AgreesSet(nodes, system, b.chains, i, n, b.chains[OfNode(i)].list);
    assert b.chains[OfNode(i) := Line(n.start, b.chains[OfNode(i)].list)] == b.chains;
  }

  /** The next cluster of a list to give back is still owned. */
  lemma FreedNext(b: Book, list: seq<nat>, i: nat)
    requires Partition(b) && Distinct(list) && i < |list| && forall c :: c in list ==> InHand(b, c)
    ensures var m := FreedAll(b, list[..i]);
            && Partition(m) && m.chains == b.chains && m.table.InRange(list[i]) && m.table.owners[list[i]]
            && FreedAll(b, list[..i + 1]) == Freed(m, list[i]) && Partition(Freed(m, list[i]))
  {
    var front, c := list[..i], list[i];
    assert forall d :: d in front ==> d in list;
    FreedAllPartition(b, front);
    assert c !in front && InHand(b, c);
    ClusterAt(FreedAll(b, front), c);
    FreedPartition(FreedAll(b, front), c);
    assert list[..i + 1] == front + [c];
    assert list[..i + 1][..i] == front;
  }
}
