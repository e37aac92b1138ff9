/**
 Cluster chains and the ownership bitmap of the FAT32/exFAT provider
 (src/fs/fat_fs.cpp), as values: what a chain is, and what each single change to
 the allocation table does to the chains of everyone else.
 */
module FatChains {
  import opened Outcomes
  import opened Arithmetic

  const MAX_CHAIN: nat := 1024
  const MAX_CLUSTERS: nat := 262144

  /** The table, the exFAT allocation bitmap and the owner bits, indexed by cluster number. */
  datatype Table = Table(fat32: bool, clusterBytes: nat, fat: seq<nat>, bitmap: seq<bool>, owners: seq<bool>) {
    predicate Shaped() {
      && 2 <= |fat| <= MAX_CLUSTERS + 2 && |bitmap| == |fat| && |owners| == |fat| && clusterBytes > 0
    }

    /** The least value that ends a chain. */
    function Threshold(): nat { if fat32 then 0x0fff_fff8 else 0xffff_fff8 }

    function EndMark(): nat { if fat32 then 0x0fff_ffff else 0xffff_ffff }

    predicate InRange(c: nat) { 2 <= c < |fat| }

    /** `allocated`: in use according to the disk. */
    predicate Allocated(c: nat)
      requires Shaped() && InRange(c)
    {
      if fat32 then fat[c] != 0 else bitmap[c]
    }

    /** The number of clusters that hold `bytes`. */
    function Clusters(bytes: nat): nat
      requires clusterBytes > 0
    {
      Quotient(bytes + clusterBytes - 1, clusterBytes)
    }
  }

  /** What a chain starts from: a node's first cluster, its no-chain flag and its size. */
  datatype Head = Head(first: nat, contiguous: bool, bytes: nat)

  function Run(first: nat, count: nat): seq<nat> { seq(count, i => first + i) }

  predicate Distinct(list: seq<nat>) { forall i, j :: 0 <= i < j < |list| ==> list[i] != list[j] }

  /** Each cluster of the list leads to the next, and the last one ends the chain. */
  predicate Follows(t: Table, list: seq<nat>)
    requires t.Shaped()
  {
    && |list| > 0
    && (forall i :: 0 <= i < |list| ==> t.InRange(list[i]))
    && (forall i :: 0 <= i < |list| - 1 ==> t.fat[list[i]] == list[i + 1])
    && t.fat[list[|list| - 1]] >= t.Threshold()
  }

  /** `list` is the chain of `head`: acyclic, in range, and of bounded length. */
  predicate IsChain(t: Table, head: Head, list: seq<nat>)
    requires t.Shaped()
  {
    if head.first == 0 then head.bytes == 0 && list == []
    else if head.contiguous then
      && 1 <= t.Clusters(head.bytes) <= MAX_CHAIN
      && 2 <= head.first && head.first + t.Clusters(head.bytes) <= |t.fat|
      && list == Run(head.first, t.Clusters(head.bytes))
    else
      Follows(t, list) && Distinct(list) && |list| <= MAX_CHAIN && list[0] == head.first
  }

  /** `chain`: finds the chain of a head exactly when it has one. */
  method Chain(t: Table, head: Head) returns (r: Result<seq<nat>>)
    requires t.Shaped()
    ensures r.Ok? ==> IsChain(t, head, r.value)
    ensures r.Err? ==> r.status != Success && forall list :: !IsChain(t, head, list)
  {
    if head.first == 0 {
      if head.bytes != 0 {
        return Err(IoError);
      }
      return Ok([]);
    }
    var count := t.Clusters(head.bytes);
    if head.contiguous && (count > MAX_CHAIN || count == 0 || head.first < 2 || head.first >= |t.fat| ||
        count > |t.fat| - head.first) {
      return Err(IoError);
    }
    if head.contiguous {
      r := ChainRun(t, head.first, count);
    } else {
      r := ChainLinks(t, head);
    }
  }

  /** The loop of `chain` over a contiguous run. */
  method ChainRun(t: Table, first: nat, count: nat) returns (r: Result<seq<nat>>)
    requires t.Shaped() && 1 <= count <= MAX_CHAIN && 2 <= first && first + count <= |t.fat|
    ensures r == Ok(Run(first, count))
  {
    var c, values: seq<nat> := first, [];
    for i := 0 to MAX_CHAIN
      invariant i < count && c == first + i && values == Run(first, i)
    {
      if !t.InRange(c) {
        return Err(IoError);
      }
      if c in values {
        return Err(IoError);
      }
      values := values + [c];
      assert values == Run(first, i + 1);
      if |values| == count {
        return Ok(values);
      }
      c := c + 1;
    }
    return Err(Overflow);
  }

  /** The loop of `chain` along the table. */
  method ChainLinks(t: Table, head: Head) returns (r: Result<seq<nat>>)
    requires t.Shaped() && head.first != 0 && !head.contiguous
    ensures r.Ok? ==> IsChain(t, head, r.value)
    ensures r.Err? ==> r.status != Success && forall list :: !IsChain(t, head, list)
  {
    var c, values: seq<nat> := head.first, [];
    for i := 0 to MAX_CHAIN
      invariant |values| == i && Distinct(values)
      invariant forall j :: 0 <= j < i ==> t.InRange(values[j])
      invariant forall j :: 0 <= j < i - 1 ==> t.fat[values[j]] == values[j + 1]
      invariant if i == 0 then c == head.first else values[0] == head.first && t.fat[values[i - 1]] == c
      invariant forall list :: IsChain(t, head, list) ==> i < |list| && values == list[..i] && list[i] == c
    {
      if !t.InRange(c) {
        return Err(IoError);
      }
      if c in values {
        return Err(IoError);
      }
      var next := t.fat[c];
      if next >= t.Threshold() {
        return Ok(values + [c]);
      }
      forall list | IsChain(t, head, list)
        ensures i + 1 < |list| && values + [c] == list[..i + 1] && list[i + 1] == next
      {
        assert list[..i + 1] == list[..i] + [list[i]];
      }
      values := values + [c];
      c := next;
    }
    return Err(Overflow);
  }

  /** A head has one chain. */
  lemma ChainUnique(t: Table, head: Head, a: seq<nat>, b: seq<nat>)
    requires t.Shaped() && IsChain(t, head, a) && IsChain(t, head, b)
    ensures a == b
  {
    if head.first != 0 && !head.contiguous {
      if |a| <= |b| {
        SamePrefix(t, a, b, |a|);
      } else {
        SamePrefix(t, b, a, |b|);
      }
    }
  }

  lemma {:induction false} SamePrefix(t: Table, a: seq<nat>, b: seq<nat>, n: nat)
    requires t.Shaped() && Follows(t, a) && Follows(t, b) && a[0] == b[0] && 0 < n <= |a| <= |b|
    ensures a[..n] == b[..n]
    ensures n == |a| ==> |a| == |b|
  {
    if n > 1 {
      SamePrefix(t, a, b, n - 1);
      assert a[n - 2] == a[..n - 1][n - 2] == b[n - 2];
      assert t.fat[a[n - 2]] == a[n - 1] && t.fat[b[n - 2]] == b[n - 1];
    }
    assert a[n - 1] == b[n - 1];
    assert n < |b| ==> t.fat[b[n - 1]] == b[n] && t.InRange(b[n]);
  }

  /** Chains depend on the table at their own clusters alone. */
  lemma ChainFrame(t: Table, u: Table, head: Head, list: seq<nat>)
    requires t.Shaped() && u.Shaped() && IsChain(t, head, list)
    requires |u.fat| == |t.fat| && u.fat32 == t.fat32 && u.clusterBytes == t.clusterBytes
    requires forall c :: c in list && c < |t.fat| ==> u.fat[c] == t.fat[c]
    ensures IsChain(u, head, list)
  {
    if head.first != 0 && !head.contiguous {
      assert forall i :: 0 <= i < |list| ==> list[i] in list;
    }
  }

  lemma ChainInRange(t: Table, head: Head, list: seq<nat>)
    requires t.Shaped() && IsChain(t, head, list)
    ensures Distinct(list) && |list| <= MAX_CHAIN && forall i :: 0 <= i < |list| ==> t.InRange(list[i])
    ensures list == [] <==> head.first == 0
    ensures list != [] ==> list[0] == head.first
  {
  }
}
