/**
 Directory blocks of the ext4 provider (src/fs/ext4_fs.cpp) as bytes: variable
 length records that tile each block, searched, split, replaced and erased in
 place. A directory refines a partial map from names to inodes.
 */
module Ext4Directory {
  import opened Outcomes
  import opened Bytes
  import opened Seals

  type Name = seq<byte>
  type Block = seq<byte>

  /** A live record: where it starts, and what it says. */
  datatype Record = Record(offset: nat, ino: nat, kind: nat, name: Name)

  datatype Target = Target(ino: nat, kind: nat)

  /** `aligned_entry`: the room a name takes, header included, rounded up to a multiple of four. */
  function AlignedEntry(length: nat): (r: nat)
    ensures r % 4 == 0 && 8 + length <= r < 12 + length
  {
    (8 + length + 3) / 4 * 4
  }

  // ---------------------------------------------------------------------
  // Tiling

  /** The header at `p` describes a record that ends by `q`. */
  predicate RecordFits(b: Block, p: nat, q: nat)
    requires q <= |b|
  {
    && p + 8 <= q
    && 8 <= R16(b, p + 4) <= q - p && R16(b, p + 4) % 4 == 0
    && b[p + 6] as nat <= R16(b, p + 4) - 8
  }

  /** Records starting at `p` end exactly at `q`. */
  predicate Tiles(b: Block, p: nat, q: nat)
    requires q <= |b|
    decreases q - p
  {
    p == q || (p < q && RecordFits(b, p, q) && Tiles(b, p + R16(b, p + 4), q))
  }

  function NameAt(b: Block, p: nat, q: nat): Name
    requires q <= |b| && RecordFits(b, p, q)
  {
    b[p + 8..p + 8 + b[p + 6] as nat]
  }

  function RecordAt(b: Block, p: nat, q: nat): Record
    requires q <= |b| && RecordFits(b, p, q)
  {
    Record(p, R32(b, p), b[p + 7] as nat, NameAt(b, p, q))
  }

  /** The live records between `p` and `q`. */
  function Live(b: Block, p: nat, q: nat): set<Record>
    requires q <= |b| && Tiles(b, p, q)
    decreases q - p
  {
    if p == q then {}
    else (if R32(b, p) != 0 then {RecordAt(b, p, q)} else {}) + Live(b, p + R16(b, p + 4), q)
  }

  /** What tiles and lives between `p` and `q` depends on those bytes alone. */
  lemma {:induction false} Local(b: Block, c: Block, p: nat, q: nat)
    requires q <= |b| && q <= |c| && Tiles(b, p, q)
    requires forall i :: p <= i < q ==> c[i] == b[i]
    ensures Tiles(c, p, q) && Live(c, p, q) == Live(b, p, q)
    decreases q - p
  {
    if p < q {
      SameBytes(b, c, p, q);
      Local(b, c, p + R16(b, p + 4), q);
    }
  }

  lemma SameBytes(b: Block, c: Block, p: nat, q: nat)
    requires q <= |b| && q <= |c| && RecordFits(b, p, q) && forall i :: p <= i < q ==> c[i] == b[i]
    ensures RecordFits(c, p, q) && RecordAt(c, p, q) == RecordAt(b, p, q) && R16(c, p + 4) == R16(b, p + 4)
    ensures R32(c, p) == R32(b, p)
  {
    assert R16(c, p + 4) == R16(b, p + 4);
    assert NameAt(c, p, q) == NameAt(b, p, q);
  }

  lemma {:induction false} Joined(b: Block, p: nat, m: nat, q: nat)
    requires m <= q <= |b| && Tiles(b, p, m) && Tiles(b, m, q)
    ensures Tiles(b, p, q) && Live(b, p, q) == Live(b, p, m) + Live(b, m, q)
    decreases m - p
  {
    if p < m {
      assert RecordFits(b, p, q) && NameAt(b, p, q) == NameAt(b, p, m);
      Joined(b, p + R16(b, p + 4), m, q);
    }
  }

  lemma {:induction false} LiveWithin(b: Block, p: nat, q: nat, r: Record)
    requires q <= |b| && Tiles(b, p, q) && r in Live(b, p, q)
    ensures p <= r.offset && r.offset + 8 <= q && r.ino != 0
    decreases q - p
  {
    if p < q && !(R32(b, p) != 0 && r == RecordAt(b, p, q)) {
      LiveWithin(b, p + R16(b, p + 4), q, r);
    }
  }

  // ---------------------------------------------------------------------
  // Edits at one record

  /** A block seen as what is before a record, the record, and what is after it. */
  predicate Stands(b: Block, o: nat) {
    && o <= |b| && Tiles(b, 0, o) && RecordFits(b, o, |b|) && Tiles(b, o + R16(b, o + 4), |b|)
  }

  /** An edit between `o` and `n` leaves what is before and after it. */
  lemma Spliced(b: Block, c: Block, o: nat, n: nat)
    requires o <= n <= |b| == |c| && Tiles(b, 0, o) && Tiles(b, n, |b|) && Tiles(c, o, n)
    requires forall i :: 0 <= i < |b| && !(o <= i < n) ==> c[i] == b[i]
    ensures Tiles(c, 0, |c|)
    ensures Live(c, 0, |c|) == Live(b, 0, o) + Live(c, o, n) + Live(b, n, |b|)
  {
    Local(b, c, 0, o);
    Local(b, c, n, |b|);
    Joined(c, 0, o, n);
    Joined(c, 0, n, |c|);
  }

  /** A single record between `o` and `n`. */
  lemma Single(b: Block, o: nat, n: nat)
    requires n <= |b| && RecordFits(b, o, n) && R16(b, o + 4) == n - o
    ensures Tiles(b, o, n) && Live(b, o, n) == if R32(b, o) != 0 then {RecordAt(b, o, n)} else {}
  {
    assert Tiles(b, n, n) && Live(b, n, n) == {};
  }

  /** `c` holds at `o` a record with these fields. */
  predicate Holds(c: Block, o: nat, length: nat, ino: nat, kind: nat, name: Name) {
    && o + 8 + |name| <= |c| && R32(c, o) == ino && R16(c, o + 4) == length
    && c[o + 6] as nat == |name| && c[o + 7] as nat == kind && c[o + 8..o + 8 + |name|] == name
  }

  lemma HeldRecord(c: Block, o: nat, q: nat, length: nat, ino: nat, kind: nat, name: Name)
    requires q <= |c| && Holds(c, o, length, ino, kind, name)
    requires 8 + |name| <= length <= q - o && length % 4 == 0
    ensures RecordFits(c, o, q) && RecordAt(c, o, q) == Record(o, ino, kind, name)
  {
  }

  /** The part of a record that its own name takes; nothing when it is dead. */
  function Used(b: Block, o: nat): nat
    requires o + 8 <= |b|
  {
    if R32(b, o) != 0 then AlignedEntry(b[o + 6] as nat) else 0
  }

  /** A dead record taken over: one binding more. */
  lemma TakenOver(b: Block, c: Block, o: nat, ino: nat, kind: nat, name: Name)
    requires Stands(b, o) && R32(b, o) == 0 && |c| == |b| && 8 + |name| <= R16(b, o + 4) && ino > 0
    requires Holds(c, o, R16(b, o + 4), ino, kind, name)
    requires forall i :: 0 <= i < |b| && !(o <= i < o + R16(b, o + 4)) ==> c[i] == b[i]
    ensures Tiles(b, 0, |b|) && Tiles(c, 0, |c|)
    ensures Live(c, 0, |c|) == Live(b, 0, |b|) + {Record(o, ino, kind, name)}
  {
    var n := o + R16(b, o + 4);
    HeldRecord(c, o, n, R16(b, o + 4), ino, kind, name);
    Single(b, o, n);
    Single(c, o, n);
    Spliced(b, b, o, n);
    Spliced(b, c, o, n);
  }

  /** Two live records that fill `length` bytes from `o`. */
  lemma Pair(c: Block, o: nat, used: nat, length: nat, r: Record, s: Record)
    requires used <= length && o + length <= |c| && r.offset == o && s.offset == o + used && r.ino != 0 && s.ino != 0
    requires Holds(c, o, used, r.ino, r.kind, r.name) && Holds(c, o + used, length - used, s.ino, s.kind, s.name)
    requires used % 4 == 0 && 8 + |r.name| <= used && used + 8 + |s.name| <= length && length % 4 == 0
    ensures Tiles(c, o, o + length) && Live(c, o, o + length) == {r, s}
  {
    var m, n, rest := o + used, o + length, length - used;
    HeldAlone(c, o, m, used, r);
    HeldAlone(c, m, n, rest, s);
    PairJoined(c, o, m, n, r, s);
  }

  lemma PairJoined(c: Block, o: nat, m: nat, n: nat, r: Record, s: Record)
    requires m <= n <= |c| && Tiles(c, o, m) && Tiles(c, m, n) && Live(c, o, m) == {r} && Live(c, m, n) == {s}
    ensures Tiles(c, o, n) && Live(c, o, n) == {r, s}
  {
    Joined(c, o, m, n);
  }

  /** One live record that fills `length` bytes. */
  lemma HeldAlone(c: Block, o: nat, n: nat, length: nat, r: Record)
    requires n == o + length <= |c| && r.offset == o && r.ino != 0 && Holds(c, o, length, r.ino, r.kind, r.name)
    requires 8 + |r.name| <= length && length % 4 == 0
    ensures Tiles(c, o, n) && Live(c, o, n) == {r}
  {
    HeldRecord(c, o, n, length, r.ino, r.kind, r.name);
    Single(c, o, n);
  }

  lemma Parted(b: Block, o: nat, n: nat, r: Record)
    requires Stands(b, o) && R32(b, o) != 0 && n == o + R16(b, o + 4) && r == RecordAt(b, o, |b|)
    ensures n <= |b| && Tiles(b, 0, |b|) && Tiles(b, n, |b|)
    ensures Live(b, 0, |b|) == Live(b, 0, o) + {r} + Live(b, n, |b|)
  {
    Single(b, o, n);
    SameRecord(b, o, n, r);
    Spliced(b, b, o, n);
  }

  /** A record read up to its own end or up to the block's is the same. */
  lemma SameRecord(b: Block, o: nat, n: nat, r: Record)
    requires n <= |b| && RecordFits(b, o, n) && r == RecordAt(b, o, |b|)
    ensures RecordAt(b, o, n) == r
  {
  }

  /** What a record was split into takes its place. */
  lemma SplitOff(b: Block, c: Block, o: nat, n: nat, r: Record, s: Record)
    requires o <= n <= |b| == |c| && Tiles(b, 0, |b|) && Tiles(b, 0, o) && Tiles(b, n, |b|)
    requires Live(b, 0, |b|) == Live(b, 0, o) + {r} + Live(b, n, |b|)
    requires Tiles(c, o, n) && Live(c, o, n) == {r, s}
    requires forall i :: 0 <= i < |b| && !(o <= i < n) ==> c[i] == b[i]
    ensures Tiles(c, 0, |c|) && Live(c, 0, |c|) == Live(b, 0, |b|) + {s}
  {
    Spliced(b, c, o, n);
    OneMore(Live(b, 0, o), r, s, Live(b, n, |b|));
  }

  lemma OneMore(a: set<Record>, r: Record, s: Record, c: set<Record>)
    ensures a + {r, s} + c == a + {r} + c + {s}
  {
  }

  /** A record's place is its own. */
  lemma Alone(b: Block, o: nat, n: nat, r: Record)
    requires Stands(b, o) && R32(b, o) != 0 && n == o + R16(b, o + 4) && r == RecordAt(b, o, |b|)
    ensures n <= |b| && r !in Live(b, 0, o) && r !in Live(b, n, |b|)
  {
    NotBefore(b, 0, o, r);
    NotAfter(b, n, |b|, r);
  }

  lemma Present(b: Block, o: nat)
    requires Stands(b, o) && R32(b, o) != 0
    ensures Tiles(b, 0, |b|) && RecordAt(b, o, |b|) in Live(b, 0, |b|)
  {
    Parted(b, o, o + R16(b, o + 4), RecordAt(b, o, |b|));
  }

  lemma NotBefore(b: Block, p: nat, q: nat, r: Record)
    requires q <= |b| && Tiles(b, p, q) && r.offset >= q
    ensures r !in Live(b, p, q)
  {
    if r in Live(b, p, q) {
      LiveWithin(b, p, q, r);
    }
  }

  lemma NotAfter(b: Block, p: nat, q: nat, r: Record)
    requires q <= |b| && Tiles(b, p, q) && r.offset < p
    ensures r !in Live(b, p, q)
  {
    if r in Live(b, p, q) {
      LiveWithin(b, p, q, r);
    }
  }

  /** A live record rewritten with another inode, or erased with 0. */
  lemma Rewritten(b: Block, c: Block, o: nat, ino: nat, kind: nat)
    requires Stands(b, o) && R32(b, o) != 0 && |c| == |b|
    requires Holds(c, o, R16(b, o + 4), ino, kind, NameAt(b, o, |b|))
    requires forall i :: 0 <= i < |b| && !(o <= i < o + 8) ==> c[i] == b[i]
    ensures Tiles(b, 0, |b|) && Tiles(c, 0, |c|)
    ensures Live(c, 0, |c|) == Live(b, 0, |b|) - {RecordAt(b, o, |b|)} +
                               (if ino != 0 then {Record(o, ino, kind, NameAt(b, o, |b|))} else {})
  {
    var length, name := R16(b, o + 4), NameAt(b, o, |b|);
    var n := o + length;
    assert forall i :: 0 <= i < |b| && !(o <= i < n) ==> c[i] == b[i];
    OnlyRecord(c, o, n, length, ino, kind, name);
    Replaced(b, c, o, n, RecordAt(b, o, |b|), if ino != 0 then {Record(o, ino, kind, name)} else {});
  }

  lemma Replaced(b: Block, c: Block, o: nat, n: nat, r: Record, s: set<Record>)
    requires Stands(b, o) && R32(b, o) != 0 && n == o + R16(b, o + 4) && r == RecordAt(b, o, |b|)
    requires |c| == |b| && Tiles(c, o, n) && Live(c, o, n) == s && forall i :: 0 <= i < |b| && !(o <= i < n) ==>
              c[i] == b[i]
    ensures Tiles(b, 0, |b|) && Tiles(c, 0, |c|) && Live(c, 0, |c|) == Live(b, 0, |b|) - {r} + s
  {
    Parted(b, o, n, r);
    Spliced(b, c, o, n);
    Alone(b, o, n, r);
    Exchanged(Live(b, 0, o), Live(b, n, |b|), r, s);
  }

  lemma OnlyRecord(c: Block, o: nat, n: nat, length: nat, ino: nat, kind: nat, name: Name)
    requires n == o + length <= |c| && Holds(c, o, length, ino, kind, name) && 8 + |name| <= length && length % 4 == 0
    ensures Tiles(c, o, n) && Live(c, o, n) == if ino != 0 then {Record(o, ino, kind, name)} else {}
  {
    HeldRecord(c, o, n, length, ino, kind, name);
    Single(c, o, n);
  }

  lemma Exchanged(before: set<Record>, after: set<Record>, r: Record, s: set<Record>)
    requires r !in before && r !in after
    ensures before + {r} + after - {r} + s == before + s + after
  {
  }

  // ---------------------------------------------------------------------
  // Bindings

  /** A live record of some block of the directory. */
  datatype Place = Place(block: nat, record: Record)

  function LiveOf(b: Block): set<Record> { if Tiles(b, 0, |b|) then Live(b, 0, |b|) else {} }

  function Places(blocks: seq<Block>): set<Place> {
    set i, r | 0 <= i < |blocks| && r in LiveOf(blocks[i]) :: Place(i, r)
  }

  /** The places spell out the map, each binding once. */
  ghost predicate Refines(places: set<Place>, names: map<Name, Target>) {
    forall k :: Opened(NamesSeal, k) ==>
      && (forall p :: p in places ==>
           p.record.name in names && names[p.record.name] == Target(p.record.ino, p.record.kind))
      && (forall n :: n in names ==> exists p :: p in places && p.record.name == n)
      && (forall p, q :: p in places && q in places && p.record.name == q.record.name ==> p == q)
  }

  lemma RefinesAdded(places: set<Place>, names: map<Name, Target>, p: Place)
    requires Refines(places, names) && p.record.name !in names
    ensures Refines(places + {p}, names[p.record.name := Target(p.record.ino, p.record.kind)])
  {
    assert Opened(NamesSeal, 0);
    var more := names[p.record.name := Target(p.record.ino, p.record.kind)];
    forall n | n in more ensures exists q :: q in places + {p} && q.record.name == n {
      if n in names {
        var q :| q in places && q.record.name == n;
        assert q in places + {p};
      } else {
        assert p in places + {p};
      }
    }
  }

  lemma RefinesErased(places: set<Place>, names: map<Name, Target>, p: Place)
    requires Refines(places, names) && p in places
    ensures p.record.name in names && Refines(places - {p}, names - {p.record.name})
  {
    assert Opened(NamesSeal, 0);
    forall n | n in names && n != p.record.name ensures exists q :: q in places - {p} && q.record.name == n {
      var q :| q in places && q.record.name == n;
      assert q in places - {p};
    }
  }

  lemma PlacesChanged(blocks: seq<Block>, i: nat, c: Block, gone: set<Record>, come: set<Record>)
    requires i < |blocks| && LiveOf(c) == LiveOf(blocks[i]) - gone + come
    ensures Places(blocks[i := c]) == Places(blocks) - (set r | r in gone :: Place(i, r)) +
            (set r | r in come :: Place(i, r))
  {
    var t := blocks[i := c];
    forall p
      ensures p in Places(t) <==>
              p in Places(blocks) - (set r | r in gone :: Place(i, r)) + (set r | r in come :: Place(i, r))
    {
      if p.block == i {
        assert p in (set r | r in gone :: Place(i, r)) <==> p.record in gone;
        assert p in (set r | r in come :: Place(i, r)) <==> p.record in come;
      } else {
        assert p !in (set r | r in gone :: Place(i, r)) && p !in (set r | r in come :: Place(i, r));
      }
    }
  }

  // ---------------------------------------------------------------------
  // One block

  /** Writes a record's header and name. */
  method PutRecord(b: Block, o: nat, length: nat, ino: nat, kind: byte, name: Name) returns (c: Block)
    requires o + 8 + |name| <= |b| && length < 65536 && ino < 0x1_0000_0000 && |name| < 256
    ensures |c| == |b| && Holds(c, o, length, ino, kind, name)
    ensures forall i :: 0 <= i < |b| && !(o <= i < o + 8 + |name|) ==> c[i] == b[i]
  {
    c := W16(W32(b, o, ino), o + 4, length)[o + 6 := |name|][o + 7 := kind];
    for k := 0 to |name|
      invariant |c| == |b| && R32(c, o) == ino && R16(c, o + 4) == length && c[o + 6] == |name| && c[o + 7] == kind
      invariant forall i :: 0 <= i < k ==> c[o + 8 + i] == name[i]
      invariant forall i :: 0 <= i < |b| && !(o <= i < o + 8 + |name|) ==> c[i] == b[i]
    {
      c := c[o + 8 + k := name[k]];
    }
  }

  /** The step from one record to the next. */
  lemma Stepped(b: Block, o: nat)
    requires o < |b| && Tiles(b, 0, o) && RecordFits(b, o, |b|)
    ensures Tiles(b, 0, o + R16(b, o + 4))
    ensures Live(b, 0, o + R16(b, o + 4)) == Live(b, 0, o) + if R32(b, o) != 0 then {RecordAt(b, o, |b|)} else {}
  {
    Single(b, o, o + R16(b, o + 4));
    Joined(b, 0, o, o + R16(b, o + 4));
  }

  /** No live record before `o` has this name. */
  ghost predicate UnnamedTo(b: Block, o: nat, name: Name) {
    o <= |b| && Tiles(b, 0, o) && forall r :: r in Live(b, 0, o) ==> r.name != name
  }

  /**
   The search loop of `find` in one block, whatever it holds: the first live record of the name, if
   the records before it are sound; only a block that is not tiled is reported corrupt.
   */
  method FindRecord(b: Block, name: Name) returns (s: Status, o: nat)
    ensures s in {Success, NotFound, IoError} && UnnamedTo(b, o, name)
    ensures s == Success ==> RecordFits(b, o, |b|) && R32(b, o) != 0 && NameAt(b, o, |b|) == name
    ensures s == Success && Tiles(b, 0, |b|) ==> Stands(b, o)
    ensures s == NotFound ==> o == |b|
    ensures s == IoError ==> o < |b| && !RecordFits(b, o, |b|) && !Tiles(b, 0, |b|)
  {
    o := 0;
    while o < |b|
      invariant UnnamedTo(b, o, name) && (Tiles(b, 0, |b|) ==> Tiles(b, o, |b|))
      decreases |b| - o
    {
      if |b| - o < 8 {
        s := IoError;
        return;
      }
      var length, namelen := R16(b, o + 4), b[o + 6];
      if length < 8 || length % 4 != 0 || length > |b| - o || namelen > length - 8 {
        s := IoError;
        return;
      }
      Stepped(b, o);
      if R32(b, o) != 0 && b[o + 8..o + 8 + namelen] == name {
        return Success, o;
      }
      o := o + length;
    }
    return NotFound, o;
  }

  /** `find` over any blocks: they are searched in order, up to the record or to the first that is corrupt. */
  method Search(blocks: seq<Block>, name: Name) returns (s: Status, i: nat, o: nat)
    ensures s in {Success, NotFound, IoError} && i <= |blocks|
    ensures forall j :: 0 <= j < i ==> Tiles(blocks[j], 0, |blocks[j]|) && UnnamedTo(blocks[j], |blocks[j]|, name)
    ensures s == NotFound <==> i == |blocks|
    ensures s != NotFound ==> UnnamedTo(blocks[i], o, name)
    ensures s == Success ==>
            RecordFits(blocks[i], o, |blocks[i]|) && R32(blocks[i], o) != 0 && NameAt(blocks[i], o, |blocks[i]|) == name
    ensures s == Success && Tiles(blocks[i], 0, |blocks[i]|) ==> Stands(blocks[i], o)
    ensures s == IoError ==> !RecordFits(blocks[i], o, |blocks[i]|) && !Tiles(blocks[i], 0, |blocks[i]|)
  {
    i, o := 0, 0;
    while i < |blocks|
      invariant i <= |blocks|
      invariant forall j :: 0 <= j < i ==> Tiles(blocks[j], 0, |blocks[j]|) && UnnamedTo(blocks[j], |blocks[j]|, name)
    {
      s, o := FindRecord(blocks[i], name);
      if s != NotFound {
        return;
      }
      i := i + 1;
    }
    s := NotFound;
  }

  /** Some record from `p` on has `needed` bytes to spare. */
  predicate HasRoom(b: Block, p: nat, q: nat, needed: nat)
    requires q <= |b| && Tiles(b, p, q)
    decreases q - p
  {
    p < q && (Used(b, p) + needed <= R16(b, p + 4) || HasRoom(b, p + R16(b, p + 4), q, needed))
  }

  lemma {:induction false} LessRoom(b: Block, p: nat, more: nat, needed: nat)
    requires p <= |b| && Tiles(b, p, |b|) && HasRoom(b, p, |b|, more) && needed <= more
    ensures HasRoom(b, p, |b|, needed)
    decreases |b| - p
  {
    if !(Used(b, p) + more <= R16(b, p + 4)) {
      LessRoom(b, p + R16(b, p + 4), more, needed);
    }
  }

  /** The first record with `needed` bytes to spare. */
  method FindRoom(b: Block, needed: nat) returns (s: Status, o: nat)
    requires Tiles(b, 0, |b|)
    ensures s == Success || s == NotFound
    ensures s == Success <==> HasRoom(b, 0, |b|, needed)
    ensures s == Success ==> Stands(b, o) && Used(b, o) + needed <= R16(b, o + 4)
  {
    o := 0;
    while o < |b|
      invariant o <= |b| && Tiles(b, 0, o) && Tiles(b, o, |b|)
      invariant HasRoom(b, 0, |b|, needed) == HasRoom(b, o, |b|, needed)
      decreases |b| - o
    {
      if |b| - o < 8 {
        s := IoError;
        return;
      }
      var length, namelen := R16(b, o + 4), b[o + 6];
      if length < 8 || length % 4 != 0 || length > |b| - o || namelen > length - 8 {
        s := IoError;
        return;
      }
      Stepped(b, o);
      var used := if R32(b, o) != 0 then AlignedEntry(namelen) else 0;
      if length - used >= needed {
        return Success, o;
      }
      o := o + length;
    }
    return NotFound, 0;
  }

  /** Puts a new record into the spare room of the one at `o`. */
  method InsertAt(b: Block, o: nat, ino: nat, kind: byte, name: Name) returns (c: Block, at: nat)
    requires Stands(b, o) && Used(b, o) + AlignedEntry(|name|) <= R16(b, o + 4)
    requires 0 < ino < 0x1_0000_0000 && |name| < 256
    ensures |c| == |b| && Tiles(b, 0, |b|) && Tiles(c, 0, |c|)
    ensures LiveOf(c) == LiveOf(b) + {Record(at, ino, kind, name)}
  {
    var length, used := R16(b, o + 4), Used(b, o);
    if used > 0 {
      var m := W16(b, o + 4, used);
      at := o + used;
      c := PutRecord(m, at, length - used, ino, kind, name);
      SplitDone(b, m, c, o, used, Record(at, ino, kind, name));
    } else {
      at := o;
      c := PutRecord(b, o, length, ino, kind, name);
      TakenOver(b, c, o, ino, kind, name);
    }
  }

  /** Only the length of the record at `o` differs. */
  predicate Resized(b: Block, m: Block, o: nat, length: nat) {
    && |m| == |b| && o + 8 <= |b| && R16(m, o + 4) == length
    && forall i :: 0 <= i < |b| && !(o + 4 <= i < o + 6) ==> m[i] == b[i]
  }

  /** A live record split: it keeps its binding, and the new one follows it. */
  lemma SplitDone(b: Block, m: Block, c: Block, o: nat, used: nat, s: Record)
    requires Stands(b, o) && R32(b, o) != 0 && |b| == |c| && s.offset == o + used && s.ino != 0
    requires used % 4 == 0 && 8 + b[o + 6] as nat <= used && used + 8 + |s.name| <= R16(b, o + 4)
    requires Resized(b, m, o, used)
    requires Holds(c, o + used, R16(b, o + 4) - used, s.ino, s.kind, s.name)
    requires forall i :: 0 <= i < |m| && !(o + used <= i < o + used + 8 + |s.name|) ==> c[i] == m[i]
    ensures Tiles(b, 0, |b|) && Tiles(c, 0, |c|) && Live(c, 0, |c|) == Live(b, 0, |b|) + {s}
  {
    var n, r := o + R16(b, o + 4), RecordAt(b, o, |b|);
    Parted(b, o, n, r);
    Halved(b, m, c, o, used, n, r, s);
    Outside(b, m, c, o, used, n, |s.name|);
    SplitOff(b, c, o, n, r, s);
  }

  lemma Outside(b: Block, m: Block, c: Block, o: nat, used: nat, n: nat, size: nat)
    requires Resized(b, m, o, used) && |c| == |b| && o + used + 8 + size <= n && o + 8 <= n
    requires forall i :: 0 <= i < |m| && !(o + used <= i < o + used + 8 + size) ==> c[i] == m[i]
    ensures forall i :: 0 <= i < |b| && !(o <= i < n) ==> c[i] == b[i]
  {
  }

  lemma Halved(b: Block, m: Block, c: Block, o: nat, used: nat, n: nat, r: Record, s: Record)
    requires o <= |b| && RecordFits(b, o, |b|) && R32(b, o) != 0 && |b| == |c| && s.offset == o + used && s.ino != 0
    requires n == o + R16(b, o + 4) && r == RecordAt(b, o, |b|)
    requires used % 4 == 0 && 8 + b[o + 6] as nat <= used && used + 8 + |s.name| <= n - o && Resized(b, m, o, used)
    requires Holds(c, o + used, n - o - used, s.ino, s.kind, s.name)
    requires forall i :: 0 <= i < |m| && !(o + used <= i < o + used + 8 + |s.name|) ==> c[i] == m[i]
    ensures n <= |c| && Tiles(c, o, n) && Live(c, o, n) == {r, s}
  {
    Shortened(b, m, c, o, used, R16(b, o + 4) - used, |s.name|);
    Pair(c, o, used, R16(b, o + 4), r, s);
  }

  /** Shortening a live record and writing behind it leaves its fields. */
  lemma Shortened(b: Block, m: Block, c: Block, o: nat, used: nat, rest: nat, size: nat)
    requires o <= |b| && RecordFits(b, o, |b|) && |b| == |m| == |c| && used + rest == R16(b, o + 4)
    requires 8 + b[o + 6] as nat <= used
    requires Resized(b, m, o, used) && o + used + 8 + size <= |b|
    requires forall i :: 0 <= i < |m| && !(o + used <= i < o + used + 8 + size) ==> c[i] == m[i]
    ensures Holds(c, o, used, R32(b, o), b[o + 7] as nat, NameAt(b, o, |b|))
  {
  }

  /** The bytes `replace_entry` changes. */
  lemma RecordRewritten(b: Block, c: Block, o: nat, ino: nat, kind: byte)
    requires Stands(b, o) && R32(b, o) != 0 && ino < 0x1_0000_0000
    requires c == if ino != 0 then W32(b, o, ino)[o + 7 := kind] else W32(b, o, ino)
    ensures |c| == |b| && Tiles(b, 0, |b|) && Tiles(c, 0, |c|)
    ensures LiveOf(c) == LiveOf(b) - {RecordAt(b, o, |b|)} +
                         (if ino != 0 then {Record(o, ino, kind, NameAt(b, o, |b|))} else {})
  {
    Rewritten(b, c, o, ino, c[o + 7]);
  }

  ghost predicate AllTiled(blocks: seq<Block>, size: nat) {
    forall i :: 0 <= i < |blocks| ==> |blocks[i]| == size && Tiles(blocks[i], 0, |blocks[i]|)
  }

  /** A name's only place. */
  lemma FoundPlace(blocks: seq<Block>, names: map<Name, Target>, i: nat, o: nat)
    requires i < |blocks| && Stands(blocks[i], o) && R32(blocks[i], o) != 0 && Refines(Places(blocks), names)
    ensures Place(i, RecordAt(blocks[i], o, |blocks[i]|)) in Places(blocks)
    ensures var n := NameAt(blocks[i], o, |blocks[i]|);
            n in names && names[n] == Target(R32(blocks[i], o), blocks[i][o + 7] as nat)
  {
    Present(blocks[i], o);
    assert Opened(NamesSeal, 0);
    assert Place(i, RecordAt(blocks[i], o, |blocks[i]|)) in Places(blocks);
  }

  lemma NoPlace(blocks: seq<Block>, names: map<Name, Target>, name: Name)
    requires Refines(Places(blocks), names)
    requires forall i :: 0 <= i < |blocks| ==> forall r :: r in LiveOf(blocks[i]) ==> r.name != name
    ensures name !in names
  {
    assert Opened(NamesSeal, 0);
    forall p | p in Places(blocks) ensures p.record.name != name {
      assert p.record in LiveOf(blocks[p.block]);
    }
  }

  /** One more record in block `i` binds one more name. */
  lemma BlockGained(blocks: seq<Block>, names: map<Name, Target>, i: nat, c: Block, r: Record)
    requires i < |blocks| && Refines(Places(blocks), names) && r.name !in names && LiveOf(c) == LiveOf(blocks[i]) + {r}
    ensures Refines(Places(blocks[i := c]), names[r.name := Target(r.ino, r.kind)])
  {
    PlacesChanged(blocks, i, c, {}, {r});
    assert (set q | q in {} :: Place(i, q)) == {};
    assert (set q | q in {r} :: Place(i, q)) == {Place(i, r)};
    assert Places(blocks[i := c]) == Places(blocks) + {Place(i, r)};
    RefinesAdded(Places(blocks), names, Place(i, r));
  }

  /** A record erased from block `i` unbinds its name. */
  lemma BlockLost(blocks: seq<Block>, names: map<Name, Target>, i: nat, c: Block, r: Record)
    requires i < |blocks| && Refines(Places(blocks), names) && r in LiveOf(blocks[i])
    requires LiveOf(c) == LiveOf(blocks[i]) - {r}
    ensures Refines(Places(blocks[i := c]), names - {r.name})
  {
    PlacesChanged(blocks, i, c, {r}, {});
    assert (set q | q in {} :: Place(i, q)) == {};
    assert (set q | q in {r} :: Place(i, q)) == {Place(i, r)};
    assert Places(blocks[i := c]) == Places(blocks) - {Place(i, r)};
    RefinesErased(Places(blocks), names, Place(i, r));
  }

  /** A record rewritten in block `i` rebinds its name. */
  lemma BlockRebound(blocks: seq<Block>, names: map<Name, Target>, i: nat, c: Block, r: Record, s: Record)
    requires i < |blocks| && Refines(Places(blocks), names) && r in LiveOf(blocks[i]) && s.name == r.name
    requires LiveOf(c) == LiveOf(blocks[i]) - {r} + {s}
    ensures Refines(Places(blocks[i := c]), names[s.name := Target(s.ino, s.kind)])
  {
    PlaceSwapped(blocks, i, c, r, s);
    RefinesRebound(Places(blocks), names, Place(i, r), Place(i, s));
  }

  lemma PlaceSwapped(blocks: seq<Block>, i: nat, c: Block, r: Record, s: Record)
    requires i < |blocks| && r in LiveOf(blocks[i]) && LiveOf(c) == LiveOf(blocks[i]) - {r} + {s}
    ensures Place(i, r) in Places(blocks) && Places(blocks[i := c]) == Places(blocks) - {Place(i, r)} + {Place(i, s)}
  {
    PlacesChanged(blocks, i, c, {r}, {s});
    assert (set q | q in {s} :: Place(i, q)) == {Place(i, s)};
    assert (set q | q in {r} :: Place(i, q)) == {Place(i, r)};
  }

  lemma RefinesRebound(places: set<Place>, names: map<Name, Target>, p: Place, q: Place)
    requires Refines(places, names) && p in places && q.record.name == p.record.name
    ensures Refines(places - {p} + {q}, names[q.record.name := Target(q.record.ino, q.record.kind)])
  {
    RefinesErased(places, names, p);
    RefinesAdded(places - {p}, names - {p.record.name}, q);
    assert (names - {p.record.name})[q.record.name := Target(q.record.ino, q.record.kind)] ==
           names[q.record.name := Target(q.record.ino, q.record.kind)];
  }

  /** An empty block binds nothing. */
  lemma BlockAppended(blocks: seq<Block>, b: Block)
    requires LiveOf(b) == {}
    ensures Places(blocks + [b]) == Places(blocks)
  {
    var t := blocks + [b];
    forall p ensures p in Places(t) <==> p in Places(blocks) {
      assert p.block < |blocks| ==> t[p.block] == blocks[p.block];
    }
  }

  /** A directory's blocks, and the names they bind. */
  class Directory {
    const blockSize: nat
    var blocks: seq<Block>
    ghost var names: map<Name, Target>

    ghost predicate Valid()
      reads this
    {
      blockSize in {1024, 2048, 4096} && AllTiled(blocks, blockSize) && Refines(Places(blocks), names)
    }

    constructor (blockSize: nat, blocks: seq<Block>, ghost names: map<Name, Target>)
      requires blockSize in {1024, 2048, 4096} && AllTiled(blocks, blockSize) && Refines(Places(blocks), names)
      ensures Valid() && this.blocks == blocks && this.names == names
    {
      this.blockSize := blockSize;
      this.blocks := blocks;
      this.names := names;
    }

    /** `find`: the record of a bound name, or not found for every other name; never corruption. */
    method Find(name: Name) returns (s: Status, i: nat, o: nat)
      requires Valid()
      ensures s == if name in names then Success else NotFound
      ensures s == Success ==>
              i < |blocks| && Stands(blocks[i], o) && R32(blocks[i], o) != 0 &&
                  NameAt(blocks[i], o, |blocks[i]|) == name
    {
      s, i, o := Search(blocks, name);
      if s == NotFound {
        NoPlace(blocks, names, name);
      } else {
        FoundPlace(blocks, names, i, o);
      }
    }

    /** `child`: what the map says. */
    method Child(name: Name) returns (r: Result<nat>)
      requires Valid()
      ensures r == if name in names then Ok(names[name].ino) else Err(NotFound)
    {
      var s, i, o := Find(name);
      if s != Success {
        return Err(s);
      }
      FoundPlace(blocks, names, i, o);
      return Ok(R32(blocks[i], o));
    }

    /** `replace_entry`: rebinds a bound name, or unbinds it with 0; no other binding changes. */
    method ReplaceEntry(name: Name, ino: nat, kind: byte) returns (s: Status)
      requires Valid() && ino < 0x1_0000_0000
      modifies this
      ensures Valid()
      ensures s == if name in old(names) then Success else NotFound
      ensures s == Success ==> names == if ino != 0 then old(names)[name := Target(ino, kind)] else old(names) - {name}
      ensures s != Success ==> names == old(names) && blocks == old(blocks)
    {
      var i, o;
      s, i, o := Find(name);
      if s != Success {
        return;
      }
      var b := blocks[i];
      var c := W32(b, o, ino);
      if ino != 0 {
        c := c[o + 7 := kind];
      }
      RecordRewritten(b, c, o, ino, kind);
      Present(b, o);
      if ino != 0 {
        BlockRebound(blocks, names, i, c, RecordAt(b, o, |b|), Record(o, ino, kind, name));
        names := names[name := Target(ino, kind)];
      } else {
        BlockLost(blocks, names, i, c, RecordAt(b, o, |b|));
        names := names - {name};
      }
      blocks := blocks[i := c];
    }

    method PutAt(i: nat, o: nat, name: Name, ino: nat, kind: byte)
      requires Valid() && name !in names && 0 < ino < 0x1_0000_0000 && |name| < 256
      requires i < |blocks| && Stands(blocks[i], o)
      requires Used(blocks[i], o) + AlignedEntry(|name|) <= R16(blocks[i], o + 4)
      modifies this
      ensures Valid() && |blocks| == old(|blocks|) && names == old(names)[name := Target(ino, kind)]
    {
      var c, at := InsertAt(blocks[i], o, ino, kind, name);
      BlockGained(blocks, names, i, c, Record(at, ino, kind, name));
      names := names[name := Target(ino, kind)];
      blocks := blocks[i := c];
    }

    /** A new block holding one dead record. */
    method Grow()
      requires Valid()
      modifies this`blocks
      ensures Valid() && |blocks| == old(|blocks|) + 1
      ensures HasRoom(blocks[|blocks| - 1], 0, blockSize, blockSize)
    {
      var b := W16(seq(blockSize, _ => 0), 4, blockSize);
      Single(b, 0, blockSize);
      BlockAppended(blocks, b);
      blocks := blocks + [b];
    }

    /** `insert`: binds an absent name, in spare room or in a block of its own; no other binding changes. */
    method Insert(name: Name, ino: nat, kind: byte, room: Status) returns (s: Status)
      requires Valid() && name !in names && 0 < ino < 0x1_0000_0000 && |name| < 256
      modifies this
      ensures Valid()
      ensures s == Success ==> names == old(names)[name := Target(ino, kind)]
      ensures s != Success ==> s == room && names == old(names) && blocks == old(blocks)
      ensures s == Success <==>
              room == Success || exists i ::
                  0 <= i < old(|blocks|) && HasRoom(old(blocks)[i], 0, blockSize, AlignedEntry(|name|))
      ensures |blocks| <= old(|blocks|) + 1
    {
      var needed := AlignedEntry(|name|);
      for i := 0 to |blocks|
        invariant blocks == old(blocks) && names == old(names)
        invariant forall j :: 0 <= j < i ==> !HasRoom(blocks[j], 0, blockSize, needed)
      {
        var found, o := FindRoom(blocks[i], needed);
        if found == Success {
          PutAt(i, o, name, ino, kind);
          return Success;
        }
      }
      if room != Success {
        return room;
      }
      Grow();
      LessRoom(blocks[|blocks| - 1], 0, blockSize, needed);
      var found, o := FindRoom(blocks[|blocks| - 1], needed);
      if found == Success {
        PutAt(|blocks| - 1, o, name, ino, kind);
        return Success;
      }
      return NoMemory;
    }
  }
}
