/**
 The ownership invariant of the FAT provider (src/fs/fat_fs.cpp): the owner bits
 are exactly the disjoint union of the chains of the root, the exFAT system tables
 and every live or still referenced node, plus the clusters that an operation in
 progress holds in hand. Each single change an operation makes keeps it.
 */
module FatPartition {
  import opened Seals
  import opened FatChains

  /** Who a chain belongs to. */
  datatype Holder = OfNode(index: nat) | OfSystem(index: nat)

  datatype Owner = Loose | Held(holder: Holder)

  /** Where a chain starts, and the clusters it runs through. */
  datatype Line = Line(head: Head, list: seq<nat>)

  /** `of` says who owns each owned cluster; `Loose` ones are in the hands of the operation. */
  datatype Book = Book(table: Table, chains: map<Holder, Line>, of: map<nat, Owner>)

  ghost predicate Partition(b: Book) {
    && b.table.Shaped()
    && Chained(b) && Owned(b) && Listed(b)
  }

  predicate HeadSound(b: Book, h: Holder)
    requires b.table.Shaped() && h in b.chains
  {
    IsChain(b.table, b.chains[h].head, b.chains[h].list) && (b.table.fat32 ==> !b.chains[h].head.contiguous)
  }

  /** Every head has its list as its chain. */
  ghost predicate Chained(b: Book)
    requires b.table.Shaped()
  {
    forall k :: Opened(ChainSeal, k) ==> forall h :: h in b.chains ==> HeadSound(b, h)
  }

  predicate ClusterSound(b: Book, c: nat)
    requires b.table.Shaped() && b.table.InRange(c)
  {
    && (b.table.owners[c] <==> c in b.of)
    && (c in b.of ==> b.table.Allocated(c) && (b.of[c].Held? ==> b.of[c].holder in b.chains))
  }

  /** The owner bits agree with `of`, and owned clusters are in use on disk. */
  ghost predicate Owned(b: Book)
    requires b.table.Shaped()
  {
    forall k :: Opened(OwnerSeal, k) ==>
      && (forall c :: c in b.of ==> b.table.InRange(c))
      && (forall c: nat :: b.table.InRange(c) ==> ClusterSound(b, c))
  }

  predicate Lists(b: Book, h: Holder, c: nat)
    requires h in b.chains
  {
    c in b.chains[h].list <==> c in b.of && b.of[c] == Held(h)
  }

  /** The lists agree with `of`; so they are disjoint. */
  ghost predicate Listed(b: Book)
  {
    forall k :: Opened(ListSeal, k) ==> forall h, c :: h in b.chains ==> Lists(b, h, c)
  }

  lemma HeadAt(b: Book, h: Holder)
    requires Partition(b) && h in b.chains
    ensures HeadSound(b, h)
  {
    assert Opened(ChainSeal, 0);
  }

  lemma ClusterAt(b: Book, c: nat)
    requires Partition(b) && (c in b.of || b.table.InRange(c))
    ensures b.table.InRange(c) && ClusterSound(b, c)
  {
    assert Opened(OwnerSeal, 0);
  }

  lemma ListAt(b: Book, h: Holder, c: nat)
    requires Partition(b) && h in b.chains
    ensures Lists(b, h, c)
  {
    assert Opened(ListSeal, 0);
  }

  /** With nothing in hand, a cluster is owned just when it is in a chain, and then in one chain only. */
  lemma ExactUnion(b: Book, c: nat)
    requires Partition(b) && b.table.InRange(c) && (forall d :: d in b.of ==> b.of[d].Held?)
    ensures b.table.owners[c] <==> exists h :: h in b.chains && c in b.chains[h].list
    ensures forall h, g :: h in b.chains && g in b.chains && c in b.chains[h].list && c in b.chains[g].list ==> h == g
  {
    ClusterAt(b, c);
    if b.table.owners[c] {
      ListAt(b, b.of[c].holder, c);
    }
    forall h | h in b.chains && c in b.chains[h].list ensures c in b.of && b.of[c] == Held(h) {
      ListAt(b, h, c);
    }
  }

  lemma OthersApart(b: Book, h: Holder, g: Holder, c: nat)
    requires Partition(b) && h in b.chains && g in b.chains && g != h && c in b.chains[h].list
    ensures c !in b.chains[g].list
  {
    ListAt(b, h, c);
    ListAt(b, g, c);
  }

  /** Heads that keep their lists keep them as chains, if the table is unchanged there. */
  lemma HeadKept(b: Book, t: Book, h: Holder)
    requires Partition(b) && t.table.Shaped() && h in b.chains && h in t.chains
    requires t.chains[h] == b.chains[h]
    requires |t.table.fat| == |b.table.fat| && t.table.fat32 == b.table.fat32
    requires t.table.clusterBytes == b.table.clusterBytes
    requires forall c :: c in b.chains[h].list && c < |b.table.fat| ==> t.table.fat[c] == b.table.fat[c]
    ensures HeadSound(t, h)
  {
    HeadAt(b, h);
    ChainFrame(b.table, t.table, b.chains[h].head, b.chains[h].list);
  }

  // ---------------------------------------------------------------------
  // Taking a free cluster

  function Claimed(b: Book, c: nat): Book
    requires b.table.Shaped() && b.table.InRange(c)
  {
    b.(table := b.table.(fat := b.table.fat[c := b.table.EndMark()], bitmap := b.table.bitmap[c := true],
                         owners := b.table.owners[c := true]),
       of := b.of[c := Loose])
  }

  lemma ClaimedPartition(b: Book, c: nat)
    requires Partition(b) && b.table.InRange(c) && !b.table.owners[c]
    ensures Partition(Claimed(b, c)) && c !in b.of
  {
    var t := Claimed(b, c);
    ClusterAt(b, c);
    forall h | h in t.chains ensures HeadSound(t, h) {
      ListAt(b, h, c);
      HeadKept(b, t, h);
    }
    forall d: nat | d in t.of || t.table.InRange(d) ensures t.table.InRange(d) && ClusterSound(t, d) {
      ClusterAt(b, d);
    }
    forall h, d | h in t.chains ensures Lists(t, h, d) {
      ListAt(b, h, d);
    }
  }

  // ---------------------------------------------------------------------
  // Linking a cluster in hand behind a chain

  function Appended(b: Book, h: Holder, c: nat): Book
    requires b.table.Shaped() && h in b.chains
    requires b.chains[h].list != [] ==> b.table.InRange(b.chains[h].list[|b.chains[h].list| - 1])
  {
    var list := b.chains[h].list;
    var table := if list == [] then b.table else b.table.(fat := b.table.fat[list[|list| - 1] := c]);
    var head := if list == [] then b.chains[h].head.(first := c) else b.chains[h].head;
    Book(table, b.chains[h := Line(head, list + [c])], b.of[c := Held(h)])
  }

  predicate InHand(b: Book, c: nat) { c in b.of && b.of[c] == Loose }

  lemma AppendedPartition(b: Book, h: Holder, c: nat)
    requires Partition(b) && h in b.chains && !b.chains[h].head.contiguous && |b.chains[h].list| < MAX_CHAIN
    requires InHand(b, c) && b.table.InRange(c) && b.table.fat[c] >= b.table.Threshold()
    ensures b.chains[h].list != [] ==> b.table.InRange(b.chains[h].list[|b.chains[h].list| - 1])
    ensures Partition(Appended(b, h, c))
  {
    HeadAt(b, h);
    ListAt(b, h, c);
    ChainInRange(b.table, b.chains[h].head, b.chains[h].list);
    var t := Appended(b, h, c);
    forall g | g in t.chains ensures HeadSound(t, g) {
      if g == h {
        AppendedChain(b, h, c);
      } else {
        if b.chains[h].list != [] {
          OthersApart(b, h, g, b.chains[h].list[|b.chains[h].list| - 1]);
        }
        HeadKept(b, t, g);
      }
    }
    forall d: nat | d in t.of || t.table.InRange(d) ensures t.table.InRange(d) && ClusterSound(t, d) {
      ClusterAt(b, d);
    }
    forall g, d | g in t.chains ensures Lists(t, g, d) {
      ListAt(b, g, d);
    }
  }

  lemma AppendedChain(b: Book, h: Holder, c: nat)
    requires b.table.Shaped() && h in b.chains && HeadSound(b, h)
    requires !b.chains[h].head.contiguous && |b.chains[h].list| < MAX_CHAIN && c !in b.chains[h].list
    requires b.table.InRange(c) && b.table.fat[c] >= b.table.Threshold()
    ensures b.chains[h].list != [] ==> b.table.InRange(b.chains[h].list[|b.chains[h].list| - 1])
    ensures HeadSound(Appended(b, h, c), h)
  {
    var list := b.chains[h].list;
    assert forall i :: 0 <= i < |list| ==> list[i] in list;
  }

  // ---------------------------------------------------------------------
  // Cutting a chain short

  /** The first `k` clusters stay; the others are in hand. The file is then `bytes` long. */
  function Cut(b: Book, h: Holder, k: nat, bytes: nat): Book
    requires b.table.Shaped() && h in b.chains && k <= |b.chains[h].list|
    requires 0 < k < |b.chains[h].list| ==> b.table.InRange(b.chains[h].list[k - 1])
  {
    var list := b.chains[h].list;
    var head := b.chains[h].head;
    var table := if 0 < k < |list| && !head.contiguous
        then b.table.(fat := b.table.fat[list[k - 1] := b.table.EndMark()])
                 else b.table;
    Book(table, b.chains[h := Line(Head(if k == 0 then 0 else head.first, head.contiguous, bytes), list[..k])],
         map c | c in b.of :: if c in list[k..] then Loose else b.of[c])
  }

  lemma CutPartition(b: Book, h: Holder, k: nat, bytes: nat)
    requires Partition(b) && h in b.chains && k <= |b.chains[h].list|
    requires k == 0 ==> bytes == 0
    requires k > 0 && b.chains[h].head.contiguous ==> b.table.Clusters(bytes) == k
    ensures 0 < k < |b.chains[h].list| ==> b.table.InRange(b.chains[h].list[k - 1])
    ensures Partition(Cut(b, h, k, bytes))
  {
    HeadAt(b, h);
    var list := b.chains[h].list;
    ChainInRange(b.table, b.chains[h].head, list);
    var t := Cut(b, h, k, bytes);
    forall g | g in t.chains ensures HeadSound(t, g) {
      if g == h {
        CutChain(b, h, k, bytes);
      } else {
        if 0 < k {
          OthersApart(b, h, g, list[k - 1]);
        }
        HeadKept(b, t, g);
      }
    }
    forall d: nat | d in t.of || t.table.InRange(d) ensures t.table.InRange(d) && ClusterSound(t, d) {
      ClusterAt(b, d);
    }
    forall g, d | g in t.chains ensures Lists(t, g, d) {
      ListAt(b, g, d);
      ListAt(b, h, d);
      SplitMember(list, k, d);
    }
  }

  lemma SplitMember(list: seq<nat>, k: nat, d: nat)
    requires k <= |list| && Distinct(list)
    ensures d in list <==> d in list[..k] || d in list[k..]
    ensures !(d in list[..k] && d in list[k..])
  {
    assert list == list[..k] + list[k..];
  }

  lemma CutChain(b: Book, h: Holder, k: nat, bytes: nat)
    requires b.table.Shaped() && h in b.chains && HeadSound(b, h) && k <= |b.chains[h].list|
    requires k == 0 ==> bytes == 0
    requires k > 0 && b.chains[h].head.contiguous ==> b.table.Clusters(bytes) == k
    ensures 0 < k < |b.chains[h].list| ==> b.table.InRange(b.chains[h].list[k - 1])
    ensures HeadSound(Cut(b, h, k, bytes), h)
  {
    ChainInRange(b.table, b.chains[h].head, b.chains[h].list);
    if k > 0 && b.chains[h].head.contiguous {
      assert b.chains[h].list[..k] == Run(b.chains[h].head.first, k);
    }
  }

  // ---------------------------------------------------------------------
  // Giving a cluster in hand back

  function Freed(b: Book, c: nat): Book
    requires b.table.Shaped() && b.table.InRange(c)
  {
    b.(table := b.table.(fat := b.table.fat[c := 0], bitmap := b.table.bitmap[c := false],
                         owners := b.table.owners[c := false]),
       of := b.of - {c})
  }

  /** A freed cluster is in no chain. */
  lemma FreedPartition(b: Book, c: nat)
    requires Partition(b) && InHand(b, c)
    ensures b.table.InRange(c) && Partition(Freed(b, c))
    ensures forall h :: h in b.chains ==> c !in b.chains[h].list
  {
    ClusterAt(b, c);
    var t := Freed(b, c);
    forall h | h in t.chains ensures HeadSound(t, h) && c !in b.chains[h].list {
      ListAt(b, h, c);
      HeadKept(b, t, h);
    }
    forall d: nat | d in t.of || t.table.InRange(d) ensures t.table.InRange(d) && ClusterSound(t, d) {
      ClusterAt(b, d);
    }
    forall h, d | h in t.chains ensures Lists(t, h, d) {
      ListAt(b, h, d);
    }
  }

  /** A list of clusters given back in order. */
  function FreedAll(b: Book, list: seq<nat>): Book {
    if list == [] then b
    else
      var before := FreedAll(b, list[..|list| - 1]);
      var c := list[|list| - 1];
      if before.table.Shaped() && before.table.InRange(c) then Freed(before, c) else before
  }

  /** Giving back clusters in hand leaves every chain alone, and frees exactly them. */
  lemma {:induction false} FreedAllPartition(b: Book, list: seq<nat>)
    requires Partition(b) && Distinct(list) && forall c :: c in list ==> InHand(b, c)
    ensures var t := FreedAll(b, list);
            && Partition(t) && t.chains == b.chains && SameShape(b.table, t.table)
            && (forall c :: c in t.of <==> c in b.of && c !in list) && (forall c :: c in t.of ==> t.of[c] == b.of[c])
            && (forall c :: c in list ==> t.table.InRange(c) && !t.table.owners[c] && !t.table.Allocated(c))
  {
    if list != [] {
      var front, c := list[..|list| - 1], list[|list| - 1];
      assert list == front + [c];
      FreedAllPartition(b, front);
      var m := FreedAll(b, front);
      assert c !in front && c in list;
      assert InHand(b, c);
      FreedPartition(m, c);
    }
  }

  predicate SameShape(t: Table, u: Table) {
    |u.fat| == |t.fat| && u.fat32 == t.fat32 && u.clusterBytes == t.clusterBytes
  }

  // ---------------------------------------------------------------------
  // From a contiguous run to a linked chain

  /** Table entries under a contiguous run are its own to write. */
  lemma RunEntriesPartition(b: Book, h: Holder, fat: seq<nat>)
    requires Partition(b) && h in b.chains && b.chains[h].head.contiguous && |fat| == |b.table.fat|
    requires forall c :: 0 <= c < |fat| && c !in b.chains[h].list ==> fat[c] == b.table.fat[c]
    ensures Partition(b.(table := b.table.(fat := fat)))
  {
    HeadAt(b, h);
    var t := b.(table := b.table.(fat := fat));
    forall g | g in t.chains ensures HeadSound(t, g) {
      HeadAt(b, g);
      if g != h {
        forall c: nat | c in b.chains[g].list ensures c !in b.chains[h].list {
          OthersApart(b, g, h, c);
        }
        HeadKept(b, t, g);
      }
    }
    forall d: nat | d in t.of || t.table.InRange(d) ensures t.table.InRange(d) && ClusterSound(t, d) {
      ClusterAt(b, d);
    }
    forall g, d | g in t.chains ensures Lists(t, g, d) {
      ListAt(b, g, d);
    }
  }

  function Relabelled(b: Book, h: Holder): Book
    requires h in b.chains
  {
    b.(chains := b.chains[h := b.chains[h].(head := b.chains[h].head.(contiguous := false))])
  }

  /** Once its entries link it, or when it is empty, a run may be called a chain. */
  lemma RelabelledPartition(b: Book, h: Holder)
    requires Partition(b) && h in b.chains && (b.chains[h].list == [] || Follows(b.table, b.chains[h].list))
    ensures Partition(Relabelled(b, h))
  {
    HeadAt(b, h);
    ChainInRange(b.table, b.chains[h].head, b.chains[h].list);
    var t := Relabelled(b, h);
    forall g | g in t.chains ensures HeadSound(t, g) {
      HeadAt(b, g);
    }
    forall d: nat | d in t.of || t.table.InRange(d) ensures t.table.InRange(d) && ClusterSound(t, d) {
      ClusterAt(b, d);
    }
    forall g, d | g in t.chains ensures Lists(t, g, d) {
      ListAt(b, g, d);
    }
  }

  // ---------------------------------------------------------------------
  // Holders come and go with empty hands

  function Admitted(b: Book, h: Holder): Book {
    b.(chains := b.chains[h := Line(Head(0, false, 0), [])])
  }

  lemma AdmittedPartition(b: Book, h: Holder)
    requires Partition(b) && h !in b.chains
    ensures Partition(Admitted(b, h))
  {
    var t := Admitted(b, h);
    forall g | g in t.chains ensures HeadSound(t, g) {
      if g != h {
        HeadAt(b, g);
      }
    }
    forall d: nat | d in t.of || t.table.InRange(d) ensures t.table.InRange(d) && ClusterSound(t, d) {
      ClusterAt(b, d);
    }
    forall g, d | g in t.chains ensures Lists(t, g, d) {
      if g != h {
        ListAt(b, g, d);
      } else if d in b.of {
        ClusterAt(b, d);
      }
    }
  }

  function Dismissed(b: Book, h: Holder): Book {
    b.(chains := b.chains - {h})
  }

  lemma DismissedPartition(b: Book, h: Holder)
    requires Partition(b) && h in b.chains && b.chains[h].list == []
    ensures Partition(Dismissed(b, h))
  {
    var t := Dismissed(b, h);
    forall g | g in t.chains ensures HeadSound(t, g) {
      HeadAt(b, g);
    }
    forall d: nat | d in t.of || t.table.InRange(d) ensures t.table.InRange(d) && ClusterSound(t, d) {
      ClusterAt(b, d);
      ListAt(b, h, d);
    }
    forall g, d | g in t.chains ensures Lists(t, g, d) {
      ListAt(b, g, d);
    }
  }

  // ---------------------------------------------------------------------
  // Claiming what a mount finds

  /** An allocated cluster taken in hand without touching the disk. */
  function Marked(b: Book, c: nat): Book
    requires b.table.Shaped() && b.table.InRange(c)
  {
    b.(table := b.table.(owners := b.table.owners[c := true]), of := b.of[c := Loose])
  }

  lemma MarkedPartition(b: Book, c: nat)
    requires Partition(b) && b.table.InRange(c) && !b.table.owners[c] && b.table.Allocated(c)
    ensures Partition(Marked(b, c)) && c !in b.of
  {
    var t := Marked(b, c);
    ClusterAt(b, c);
    forall h | h in t.chains ensures HeadSound(t, h) {
      HeadKept(b, t, h);
    }
    forall d: nat | d in t.of || t.table.InRange(d) ensures t.table.InRange(d) && ClusterSound(t, d) {
      ClusterAt(b, d);
    }
    forall h, d | h in t.chains ensures Lists(t, h, d) {
      ListAt(b, h, d);
    }
  }

  /** Clusters in hand become the chain of a new holder. */
  function Adopted(b: Book, h: Holder, start: Head, list: seq<nat>): Book {
    Book(b.table, b.chains[h := Line(start, list)], map c | c in b.of :: if c in list then Held(h) else b.of[c])
  }

  lemma AdoptedPartition(b: Book, h: Holder, start: Head, list: seq<nat>)
    requires Partition(b) && h !in b.chains && IsChain(b.table, start, list) && (b.table.fat32 ==> !start.contiguous)
    requires forall c :: c in list ==> InHand(b, c)
    ensures Partition(Adopted(b, h, start, list))
  {
    var t := Adopted(b, h, start, list);
    forall g | g in t.chains ensures HeadSound(t, g) {
      if g != h {
        HeadAt(b, g);
      }
    }
    forall d: nat | d in t.of || t.table.InRange(d) ensures t.table.InRange(d) && ClusterSound(t, d) {
      ClusterAt(b, d);
    }
    forall g, d | g in t.chains ensures Lists(t, g, d) {
      if g != h {
        ListAt(b, g, d);
      } else if d in b.of {
        ClusterAt(b, d);
      }
    }
  }
}
