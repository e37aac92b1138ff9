/**
 exFAT directory entry sets (src/fs/fat_fs.cpp): what `create` and `publish`
 write, `scan_exfat` reads back, with the set checksum and the name hash of
 sections 6.3.3 and 7.6.4 of the Microsoft exFAT specification.
 */
module ExfatNames {
  import opened Outcomes
  import opened Bytes
  import opened FatLabels
  import opened FatScanning
  import opened Seals

  function Rotated(sum: nat): nat { (if sum % 2 == 1 then 0x8000 else 0) + sum / 2 }

  /** `set_sum` over the first `n` bytes, which leaves out its own two. */
  function SetSum(b: seq<byte>, n: nat): (sum: nat)
    requires n <= |b|
    ensures sum < 65536
  {
    if n == 0 then 0
    else if n == 3 || n == 4 then SetSum(b, n - 1)
    else (Rotated(SetSum(b, n - 1)) + b[n - 1]) % 65536
  }

  /** `name_hash`: both bytes of every upper-cased unit, the high one being zero. */
  function NameHash(name: Text, n: nat): (sum: nat)
    requires n <= |name|
    ensures sum < 65536
  {
    if n == 0 then 0 else Rotated((Rotated(NameHash(name, n - 1)) + Upper(name[n - 1])) % 65536)
  }

  /** The checksum does not depend on the bytes that hold it. */
  lemma {:induction false} SumIgnoresItself(b: seq<byte>, c: seq<byte>, n: nat)
    requires n <= |b| == |c| && forall i :: 0 <= i < |b| && i != 2 && i != 3 ==> c[i] == b[i]
    ensures SetSum(c, n) == SetSum(b, n)
  {
    if n > 0 {
      SumIgnoresItself(b, c, n - 1);
    }
  }

  lemma RotatedApart(x: nat, y: nat)
    requires x < 65536 && y < 65536 && x != y
    ensures Rotated(x) != Rotated(y) && Rotated(x) < 65536
  {
  }

  /** A set with one byte changed has another checksum. */
  lemma {:induction false} SumDetects(b: seq<byte>, c: seq<byte>, k: nat, n: nat)
    requires k < n <= |b| == |c| && k != 2 && k != 3 && b[k] != c[k]
    requires forall i :: 0 <= i < |b| && i != k ==> b[i] == c[i]
    ensures SetSum(b, n) != SetSum(c, n)
  {
    if k < n - 1 {
      SumDetects(b, c, k, n - 1);
    } else {
      SumSame(b, c, n - 1);
    }
    if n != 3 && n != 4 {
      SumApart(SetSum(b, n - 1), SetSum(c, n - 1), b[n - 1], c[n - 1]);
    }
  }

  lemma SumApart(x: nat, y: nat, c: byte, d: byte)
    requires x < 65536 && y < 65536 && ((x == y && c != d) || (x != y && c == d))
    ensures (Rotated(x) + c) % 65536 != (Rotated(y) + d) % 65536
  {
    if x != y {
      RotatedApart(x, y);
    }
  }

  lemma {:induction false} SumSame(b: seq<byte>, c: seq<byte>, n: nat)
    requires n <= |b| == |c| && forall i :: 0 <= i < n ==> b[i] == c[i]
    ensures SetSum(b, n) == SetSum(c, n)
  {
    if n > 0 {
      SumSame(b, c, n - 1);
    }
  }

  /** Names that differ in one letter, and not just in its case, have different hashes. */
  lemma {:induction false} HashDetects(a: Text, b: Text, k: nat, n: nat)
    requires k < n <= |a| == |b| && Upper(a[k]) != Upper(b[k])
    requires forall i :: 0 <= i < |a| && i != k ==> Upper(a[i]) == Upper(b[i])
    ensures NameHash(a, n) != NameHash(b, n)
  {
    if k < n - 1 {
      HashDetects(a, b, k, n - 1);
    } else {
      HashSame(a, b, n - 1);
    }
    HashStep(NameHash(a, n - 1), NameHash(b, n - 1), Upper(a[n - 1]), Upper(b[n - 1]));
  }

  lemma HashStep(x: nat, y: nat, c: byte, d: byte)
    requires x < 65536 && y < 65536 && ((x == y && c != d) || (x != y && c == d))
    ensures Rotated((Rotated(x) + c) % 65536) != Rotated((Rotated(y) + d) % 65536)
  {
    SumApart(x, y, c, d);
    RotatedApart((Rotated(x) + c) % 65536, (Rotated(y) + d) % 65536);
  }

  lemma {:induction false} HashSame(a: Text, b: Text, n: nat)
    requires n <= |a| == |b| && forall i :: 0 <= i < n ==> Upper(a[i]) == Upper(b[i])
    ensures NameHash(a, n) == NameHash(b, n)
  {
    if n > 0 {
      HashSame(a, b, n - 1);
    }
  }

  /** Entries for a name: the file, the stream, and one for every fifteen units. */
  function Slots(n: nat): nat { (n + 14) / 15 + 2 }

  /** Where unit `i` of the name stands in the set. */
  function UnitAt(i: nat): nat { 64 + i / 15 * 32 + 2 + i % 15 * 2 }

  function Flags(f: File): nat { if f.start.contiguous then 3 else 1 }

  /** The fields fit their widths. */
  predicate Representable(s: Start) {
    s.cluster < 0x1_0000_0000 && s.size < 0x1_0000_0000_0000_0000 && s.valid < 0x1_0000_0000_0000_0000
  }

  /** The header fields of a set. */
  predicate HeaderIs(b: seq<byte>, f: File)
    requires |b| >= 64
  {
    && b[0] == 0x85 && b[1] == f.slots - 1 && !f.readonly && f.names.alias == []
    && R16(b, 4) == (if f.directory then 16 else 32)
    && b[32] == 0xc0 && b[33] == Flags(f) && b[35] == |f.names.name|
    && R64(b, 40) == f.start.valid && R32(b, 52) == f.start.cluster && R64(b, 56) == f.start.size
  }

  /** The name as the set spells it, and its hash. */
  predicate NameIs(b: seq<byte>, name: Text)
    requires |name| < MAX_SEGMENT && |b| == Slots(|name|) * 32
  {
    && R16(b, 36) == NameHash(name, |name|)
    && forall i :: 0 <= i < |name| ==> b[64 + i / 15 * 32] == 0xc1 && R16(b, UnitAt(i)) == name[i]
  }

  predicate IsSet(b: seq<byte>, f: File) {
    && NameValid(f.names.name) && f.slots == Slots(|f.names.name|) && |b| == f.slots * 32
    && HeaderIs(b, f) && NameIs(b, f.names.name) && R16(b, 2) == SetSum(b, |b|)
  }

  // ---------------------------------------------------------------------
  // Reading

  /** The name a set spells, or none when a unit is missing or not printable. */
  function Spelled(b: seq<byte>, n: nat, len: nat): (r: Result<Text>)
    requires n <= len < MAX_SEGMENT && |b| >= Slots(len) * 32
    ensures r.Err? ==> r.status != Success
  {
    if n == 0 then Ok([])
    else
      var front := Spelled(b, n - 1, len);
      if front.Err? then front
      else if b[64 + (n - 1) / 15 * 32] != 0xc1 then Err(IoError)
      else if !(32 <= R16(b, UnitAt(n - 1)) <= 126) then Err(Unsupported)
      else Ok(front.value + [R16(b, UnitAt(n - 1))])
  }

  /** The checks `scan_exfat` makes on a set, and the file it takes it for. */
  function Parsed(b: seq<byte>, slot: nat): Result<File>
    requires |b| >= 96 && |b| == (b[1] as nat + 1) * 32
  {
    var flags, len := b[33], b[35];
    if R16(b, 2) != SetSum(b, |b|) || b[32] != 0xc0 then Err(IoError)
    else if flags > 3 || flags % 2 == 0 || len == 0 || len >= MAX_SEGMENT ||
        b[1] as nat != 1 + (len + 14) / 15 then Err(Unsupported)
    else
      var name := Spelled(b, len, len);
      if name.Err? then Err(name.status)
      else if R16(b, 36) != NameHash(name.value, |name.value|) then Err(IoError)
      else if R16(b, 4) >= 64 || R16(b, 4) / 8 % 2 == 1 then Err(IoError)
      else
        Ok(File(Label(name.value, []), slot, b[1] as nat + 1,
            Start(R32(b, 52), R64(b, 56), R64(b, 40), flags / 2 % 2 == 1),
                R16(b, 4) / 16 % 2 == 1, R16(b, 4) % 2 == 1))
  }

  /** A set that is accepted is refused once any byte of it is another, the count of its entries apart. */
  lemma CorruptRefused(b: seq<byte>, c: seq<byte>, slot: nat, k: nat)
    requires |b| >= 96 && |b| == (b[1] as nat + 1) * 32 && Parsed(b, slot).Ok?
    requires |c| == |b| && k < |b| && k != 1 && b[k] != c[k] && forall i :: 0 <= i < |b| && i != k ==> b[i] == c[i]
    ensures Parsed(c, slot) == Err(IoError)
  {
    if k == 2 || k == 3 {
      SumIgnoresItself(b, c, |b|);
    } else {
      SumDetects(b, c, k, |b|);
    }
  }

  lemma {:induction false} SpelledIs(b: seq<byte>, name: Text, n: nat)
    requires NameValid(name) && |b| == Slots(|name|) * 32 && NameIs(b, name) && n <= |name|
    ensures Spelled(b, n, |name|) == Ok(name[..n])
  {
    if n > 0 {
      SpelledIs(b, name, n - 1);
      assert name[..n] == name[..n - 1] + [name[n - 1]];
    }
  }

  lemma HeaderReads(b: seq<byte>, f: File)
    requires |b| >= 64 && HeaderIs(b, f) && 3 <= f.slots <= 5 && 0 < |f.names.name| < MAX_SEGMENT
    requires f.slots == Slots(|f.names.name|)
    ensures b[33] <= 3 && b[33] % 2 == 1 && (b[33] / 2 % 2 == 1 <==> f.start.contiguous)
    ensures R16(b, 4) < 64 && R16(b, 4) / 8 % 2 == 0 && (R16(b, 4) / 16 % 2 == 1 <==> f.directory) && R16(b, 4) % 2 == 0
    ensures b[1] as nat == 1 + (b[35] as nat + 14) / 15
  {
  }

  /** Round trip of one set. */
  lemma SetRoundTrip(b: seq<byte>, f: File)
    requires IsSet(b, f)
    ensures |b| >= 96 && |b| == (b[1] as nat + 1) * 32 && Parsed(b, f.slot) == Ok(f)
  {
    SpelledIs(b, f.names.name, |f.names.name|);
    assert f.names.name[..|f.names.name|] == f.names.name;
    HeaderReads(b, f);
  }

  // ---------------------------------------------------------------------
  // Writing

  /** The name loop of `create`, over a buffer whose name entries are already typed. */
  method PutName(b: seq<byte>, name: Text) returns (c: seq<byte>)
    requires NameValid(name) && |b| == Slots(|name|) * 32
    ensures |c| == |b| && forall i :: 0 <= i < 64 ==> c[i] == b[i]
    ensures forall k :: 0 <= k < Slots(|name|) ==> c[k * 32] == b[k * 32]
    ensures forall i :: 0 <= i < |name| ==> R16(c, UnitAt(i)) == name[i]
  {
    c := b;
    for n := 0 to |name|
      invariant |c| == |b| && forall i :: 0 <= i < 64 ==> c[i] == b[i]
      invariant forall k :: 0 <= k < Slots(|name|) ==> c[k * 32] == b[k * 32]
      invariant forall i :: 0 <= i < n ==> R16(c, UnitAt(i)) == name[i]
    {
      UnitFits(n, |name|);
      UnitPut(c, name, n);
      c := W16(c, UnitAt(n), name[n]);
    }
  }

  lemma UnitFits(n: nat, len: nat)
    requires n < len
    ensures UnitAt(n) + 2 <= Slots(len) * 32
  {
  }

  /** One unit more, and nothing else that matters changed. */
  lemma UnitPut(b: seq<byte>, name: Text, n: nat)
    requires |b| == Slots(|name|) * 32 && n < |name| && UnitAt(n) + 2 <= |b|
    requires forall i :: 0 <= i < n ==> R16(b, UnitAt(i)) == name[i]
    ensures var c := W16(b, UnitAt(n), name[n]);
            && (forall i :: 0 <= i < 64 ==> c[i] == b[i])
            && (forall k :: 0 <= k < Slots(|name|) ==> c[k * 32] == b[k * 32])
            && (forall i :: 0 <= i <= n ==> R16(c, UnitAt(i)) == name[i])
  {
    var c := W16(b, UnitAt(n), name[n]);
    forall i | 0 <= i < n ensures R16(c, UnitAt(i)) == name[i] {
      UnitFits(i, |name|);
      UnitsApart(i, n);
    }
    forall k | 0 <= k < Slots(|name|) ensures c[k * 32] == b[k * 32] {
      UnitInside(n, k);
    }
    UnitInside(n, 0);
  }

  lemma UnitInside(n: nat, k: nat)
    ensures UnitAt(n) >= 64 && UnitAt(n) != k * 32 && UnitAt(n) + 1 != k * 32
  {
  }

  lemma UnitsApart(i: nat, n: nat)
    requires i < n
    ensures UnitAt(i) + 2 <= UnitAt(n)
  {
  }

  /** The type bytes of the name entries. */
  method PutTypes(b: seq<byte>, slots: nat) returns (c: seq<byte>)
    requires 2 <= slots && |b| == slots * 32
    ensures |c| == |b| && forall i :: 0 <= i < 64 ==> c[i] == b[i]
    ensures forall k :: 2 <= k < slots ==> c[k * 32] == 0xc1
  {
    c := b;
    for k := 2 to slots
      invariant |c| == |b| && forall i :: 0 <= i < 64 ==> c[i] == b[i]
      invariant forall m :: 2 <= m < k ==> c[m * 32] == 0xc1
    {
      c := c[k * 32 := 0xc1];
    }
  }

  /** The fixed fields. */
  method PutHeader(b: seq<byte>, f: File) returns (c: seq<byte>)
    requires |b| >= 64 && 0 < f.slots <= 5 && |f.names.name| < MAX_SEGMENT && !f.readonly && f.names.alias == []
    requires Representable(f.start)
    ensures |c| == |b| && HeaderIs(c, f) && R16(c, 36) == NameHash(f.names.name, |f.names.name|)
    ensures forall i :: 64 <= i < |b| ==> c[i] == b[i]
  {
    var m := b[0 := 0x85][1 := f.slots - 1][32 := 0xc0][33 := Flags(f)][35 := |f.names.name|];
    m := W16(m, 4, if f.directory then 16 else 32);
    m := W32(W32(W32(m, 8, 0x00210000), 12, 0x00210000), 16, 0x00210000);
    c := PutStream(m, f);
  }

  /** The fields of the stream entry. */
  method PutStream(b: seq<byte>, f: File) returns (c: seq<byte>)
    requires |b| >= 64 && Representable(f.start)
    ensures |c| == |b| && forall i :: 0 <= i < |b| && !(36 <= i < 38) && !(40 <= i < 48) && !(52 <= i < 64) ==>
            c[i] == b[i]
    ensures R16(c, 36) == NameHash(f.names.name, |f.names.name|) && R64(c, 40) == f.start.valid
    ensures R32(c, 52) == f.start.cluster && R64(c, 56) == f.start.size
  {
    c := W16(b, 36, NameHash(f.names.name, |f.names.name|));
    c := W64(c, 40, f.start.valid);
    c := W32(c, 52, f.start.cluster);
    c := W64(c, 56, f.start.size);
  }

  /** The entry set of a file. */
  method EncodeSet(f: File) returns (b: seq<byte>)
    requires NameValid(f.names.name) && f.slots == Slots(|f.names.name|) && !f.readonly && f.names.alias == []
    requires Representable(f.start)
    ensures IsSet(b, f)
  {
    b := seq(f.slots * 32, _ => 0);
    b := PutHeader(b, f);
    ghost var header := b;
    b := PutTypes(b, f.slots);
    b := PutName(b, f.names.name);
    ghost var unsummed := b;
    b := W16(b, 2, SetSum(b, |b|));
    SumIgnoresItself(unsummed, b, |b|);
    HeaderKept(header, b, f);
    NameWritten(b, f.names.name);
  }

  lemma HeaderKept(b: seq<byte>, c: seq<byte>, f: File)
    requires |b| >= 64 && |c| >= 64 && HeaderIs(b, f) && forall i :: 0 <= i < 64 && i != 2 && i != 3 ==> c[i] == b[i]
    ensures HeaderIs(c, f) && R16(c, 36) == R16(b, 36)
  {
  }

  lemma NameWritten(b: seq<byte>, name: Text)
    requires NameValid(name) && |b| == Slots(|name|) * 32 && R16(b, 36) == NameHash(name, |name|)
    requires forall k :: 2 <= k < Slots(|name|) ==> b[k * 32] == 0xc1
    requires forall i :: 0 <= i < |name| ==> R16(b, UnitAt(i)) == name[i]
    ensures NameIs(b, name)
  {
    forall i | 0 <= i < |name| ensures b[64 + i / 15 * 32] == 0xc1 {
      assert b[(2 + i / 15) * 32] == 0xc1;
    }
  }

  // ---------------------------------------------------------------------
  // Whole directories

  /** The bytes of `n` entries in a row. */
  function Joined(entries: seq<Entry>, slot: nat, n: nat): (b: seq<byte>)
    requires slot + n <= |entries|
    ensures |b| == n * 32
  {
    if n == 0 then [] else Joined(entries, slot, n - 1) + entries[slot + n - 1]
  }

  lemma {:induction false} JoinedFirst(entries: seq<Entry>, slot: nat, n: nat)
    requires 0 < n && slot + n <= |entries|
    ensures Joined(entries, slot, n)[..32] == entries[slot] && Joined(entries, slot, n)[1] == entries[slot][1]
    ensures Joined(entries, slot, n)[0] == entries[slot][0]
  {
    if n == 1 {
      assert Joined(entries, slot, 1) == entries[slot];
    } else {
      JoinedFirst(entries, slot, n - 1);
      assert Joined(entries, slot, n)[..32] == Joined(entries, slot, n - 1)[..32];
    }
  }

  lemma {:induction false} JoinedByte(entries: seq<Entry>, slot: nat, n: nat, k: nat)
    requires k < n && slot + n <= |entries|
    ensures Joined(entries, slot, n)[k * 32] == entries[slot + k][0]
  {
    if k < n - 1 {
      JoinedByte(entries, slot, n - 1, k);
    }
  }

  lemma {:induction false} JoinedSame(a: seq<Entry>, b: seq<Entry>, slot: nat, n: nat)
    requires slot + n <= |a| && slot + n <= |b| && forall i :: slot <= i < slot + n ==> a[i] == b[i]
    ensures Joined(a, slot, n) == Joined(b, slot, n)
  {
    if n > 0 {
      JoinedSame(a, b, slot, n - 1);
    }
  }

  /** What `scan_exfat` makes of one slot; `root` admits the system entries. */
  function StepExfat(root: bool, entries: seq<Entry>, slot: nat): Step<()> {
    if slot >= |entries| then Fail(NotFound)
    else
      var e := entries[slot];
      if e[0] < 0x80 then Skip((), 1)
      else if e[0] != 0x85 then
        if root && (e[0] == 0x81 || e[0] == 0x82 || e[0] == 0x83) then Skip((), 1) else Fail(Unsupported)
      else if e[1] < 2 || e[1] > 18 then Fail(IoError)
      else if slot + e[1] >= |entries| then Fail(NotFound)
      else
        JoinedFirst(entries, slot, e[1] as nat + 1);
        Outcome(Parsed(Joined(entries, slot, e[1] as nat + 1), slot), e[1] as nat + 1)
  }

  function Outcome(file: Result<File>, width: nat): Step<()> {
    if file.Err? then Fail(file.status) else Find(file.value, (), width)
  }

  function ExfatScanner(root: bool): Scanner<()> {
    Scanner(false, (), (st, entries, slot) => StepExfat(root, entries, slot))
  }

  /** The scanner of this module, by another name that keeps its step folded. */
  ghost predicate Exfat(sc: Scanner<()>, root: bool) {
    !sc.fat32 && sc.idle == () && forall k :: Opened(StepSeal, k) ==> sc == ExfatScanner(root)
  }

  // ---------------------------------------------------------------------
  // The laws of the scan

  lemma {:induction false} SpelledTypes(b: seq<byte>, n: nat, len: nat, i: nat)
    requires n <= len < MAX_SEGMENT && |b| >= Slots(len) * 32 && i < n && Spelled(b, n, len).Ok?
    ensures b[64 + i / 15 * 32] == 0xc1
  {
    if i < n - 1 {
      SpelledTypes(b, n - 1, len, i);
    }
  }

  /** In a set that is accepted every entry behind the first is the stream entry or a part of the name. */
  lemma ParsedInUse(b: seq<byte>, slot: nat, k: nat)
    requires |b| >= 96 && |b| == (b[1] as nat + 1) * 32 && Parsed(b, slot).Ok? && 0 < k <= b[1] as nat
    ensures b[k * 32] in {0xc0, 0xc1}
  {
    var len := b[35] as nat;
    if k > 1 {
      var i := (k - 2) * 15;
      SpelledTypes(b, len, len, i);
      assert i / 15 == k - 2;
    }
  }

  /** The set from `slot` on reads as this. */
  ghost predicate SetReadsAs(b: seq<byte>, slot: nat, r: Result<File>) {
    |b| >= 96 && |b| == (b[1] as nat + 1) * 32 && forall k :: Opened(SetSeal, k) ==> Parsed(b, slot) == r
  }

  /** A slot where a whole set may stand. */
  predicate SetLeads(a: seq<Entry>, slot: nat) {
    slot < |a| && a[slot][0] == 0x85 && 2 <= a[slot][1] <= 18 && slot + a[slot][1] < |a|
  }

  lemma StepSet(sc: Scanner<()>, root: bool, st: (), a: seq<Entry>, slot: nat) returns (r: Result<File>)
    requires Exfat(sc, root) && SetLeads(a, slot)
    ensures SetReadsAs(Joined(a, slot, a[slot][1] as nat + 1), slot, r)
    ensures sc.step(st, a, slot) == Outcome(r, a[slot][1] as nat + 1)
  {
    assert Opened(StepSeal, 0);
    JoinedFirst(a, slot, a[slot][1] as nat + 1);
    r := Parsed(Joined(a, slot, a[slot][1] as nat + 1), slot);
  }

  lemma ReadsOnce(b: seq<byte>, slot: nat, r: Result<File>, q: Result<File>)
    requires SetReadsAs(b, slot, r) && SetReadsAs(b, slot, q)
    ensures r == q
  {
    assert Opened(SetSeal, 0);
  }

  lemma ReadsInUse(b: seq<byte>, slot: nat, f: File, k: nat)
    requires SetReadsAs(b, slot, Ok(f)) && 0 < k <= b[1] as nat
    ensures b[k * 32] in {0xc0, 0xc1}
  {
    assert Opened(SetSeal, 0);
    ParsedInUse(b, slot, k);
  }

  /** Away from a set a step looks at one slot, and at where the directory ends. */
  lemma StepAlone(sc: Scanner<()>, root: bool, st: (), a: seq<Entry>, slot: nat)
    requires Exfat(sc, root) && slot < |a| && !SetLeads(a, slot)
    ensures sc.step(st, a, slot) == Alone(root, a[slot])
  {
    assert Opened(StepSeal, 0);
  }

  function Alone(root: bool, e: Entry): Step<()> {
    if e[0] < 0x80 then Skip((), 1)
    else if e[0] != 0x85 then
      if root && (e[0] == 0x81 || e[0] == 0x82 || e[0] == 0x83) then Skip((), 1) else Fail(Unsupported)
    else if e[1] < 2 || e[1] > 18 then Fail(IoError)
    else Fail(NotFound)
  }

  lemma StepAdvances(sc: Scanner<()>, root: bool, st: (), a: seq<Entry>, slot: nat)
    requires Exfat(sc, root)
    ensures Advances(sc, st, a, slot) && SkipsFree(sc, st, a, slot)
  {
    if SetLeads(a, slot) {
      var n := a[slot][1] as nat + 1;
      var r := StepSet(sc, root, st, a, slot);
      if r.Ok? {
        JoinedFirst(a, slot, n);
        forall i | slot < i < slot + n ensures !Free(false, a[i]) {
          JoinedByte(a, slot, n, i - slot);
          ReadsInUse(Joined(a, slot, n), slot, r.value, i - slot);
        }
      }
    } else if slot < |a| {
      StepAlone(sc, root, st, a, slot);
    }
  }

  lemma StepSame(sc: Scanner<()>, root: bool, st: (), a: seq<Entry>, b: seq<Entry>, slot: nat)
    requires Exfat(sc, root) && SetLeads(a, slot) && slot + a[slot][1] < |b|
    requires forall i :: slot <= i <= slot + a[slot][1] ==> a[i] == b[i]
    ensures sc.step(st, a, slot) == sc.step(st, b, slot)
  {
    var r := StepSet(sc, root, st, a, slot);
    var q := StepSet(sc, root, st, b, slot);
    JoinedSame(a, b, slot, a[slot][1] as nat + 1);
    ReadsOnce(Joined(a, slot, a[slot][1] as nat + 1), slot, r, q);
  }

  lemma StepLocal(sc: Scanner<()>, root: bool, st: (), a: seq<Entry>, b: seq<Entry>, slot: nat)
    requires Exfat(sc, root)
    ensures Local(sc, st, a, b, slot)
  {
    var s := sc.step(st, a, slot);
    if !s.Fail? && slot + s.width <= |a| && slot + s.width <= |b| &&
        a[slot..slot + s.width] == b[slot..slot + s.width] {
      StepAt(sc, root, st, a, slot);
      forall i | slot <= i < slot + s.width ensures a[i] == b[i] {
        assert a[i] == a[slot..slot + s.width][i - slot];
        assert b[i] == b[slot..slot + s.width][i - slot];
      }
      if SetLeads(a, slot) {
        var r := StepSet(sc, root, st, a, slot);
        StepSame(sc, root, st, a, b, slot);
      } else {
        StepAlone(sc, root, st, a, slot);
        StepAlone(sc, root, st, b, slot);
      }
    }
  }

  lemma StepAt(sc: Scanner<()>, root: bool, st: (), a: seq<Entry>, slot: nat)
    requires Exfat(sc, root) && !sc.step(st, a, slot).Fail?
    ensures slot < |a|
  {
    assert Opened(StepSeal, 0);
  }

  lemma StepOnward(sc: Scanner<()>, root: bool, st: (), a: seq<Entry>, b: seq<Entry>, slot: nat)
    requires Exfat(sc, root)
    ensures Onward(sc, st, a, b, slot)
  {
    if slot < |a| == |b| && a[slot..] == b[slot..] {
      forall i | slot <= i < |a| ensures a[i] == b[i] {
        assert a[i] == a[slot..][i - slot] && b[i] == b[slot..][i - slot];
      }
      if SetLeads(a, slot) {
        StepSame(sc, root, st, a, b, slot);
      } else {
        StepAlone(sc, root, st, a, slot);
        StepAlone(sc, root, st, b, slot);
      }
    }
  }

  lemma ExfatLawful(sc: Scanner<()>, root: bool)
    requires Exfat(sc, root)
    ensures Lawful(sc)
  {
    forall st: (), a: seq<Entry>, slot: nat ensures Advances(sc, st, a, slot) && SkipsFree(sc, st, a, slot) {
      StepAdvances(sc, root, st, a, slot);
    }
    forall st: (), a: seq<Entry>, b: seq<Entry>, slot: nat
      ensures Local(sc, st, a, b, slot) && Onward(sc, st, a, b, slot)
    {
      StepLocal(sc, root, st, a, b, slot);
      StepOnward(sc, root, st, a, b, slot);
    }
  }

  // ---------------------------------------------------------------------
  // Whole directories read back

  /** `scan_exfat`, set after set. */
  method ScanExfat(entries: seq<Entry>, root: bool, a: Answers, ghost sc: Scanner<()>) returns (r: Result<seq<File>>)
    requires Exfat(sc, root)
    ensures r == Scan(sc, a, entries, 0, (), [])
  {
    var files, slot := [], 0;
    while slot < LIMIT
      invariant Scan(sc, a, entries, 0, (), []) == Scan(sc, a, entries, slot, (), files) && AllValid(files)
      decreases LIMIT - slot
    {
      if slot >= |entries| || entries[slot][0] == 0 {
        return Ok(files);
      }
      var s;
      s, slot, files := ScanSet(entries, root, slot, files, a, sc);
      if s != Success {
        return Err(s);
      }
    }
    return Err(Overflow);
  }

  /** One turn of that loop. */
  method ScanSet(entries: seq<Entry>, root: bool, slot: nat, files: seq<File>, a: Answers, ghost sc: Scanner<()>)
    returns (s: Status, next: nat, found: seq<File>)
    requires Exfat(sc, root) && slot < |entries| && slot < LIMIT && entries[slot][0] != 0 && AllValid(files)
    ensures next > slot && AllValid(found)
    ensures Scan(sc, a, entries, slot, (), files) == if s == Success then Scan(sc, a, entries, next, (), found)
            else Err(s)
  {
    var e := entries[slot];
    next, found := slot + 1, files;
    if e[0] != 0x85 || e[1] < 2 || e[1] > 18 || slot + e[1] >= |entries| {
      StepAlone(sc, root, (), entries, slot);
      ScanStep(sc, a, entries, slot, (), files, Alone(root, e));
      if e[0] < 0x80 || (root && (e[0] == 0x81 || e[0] == 0x82 || e[0] == 0x83)) {
        return Success, next, found;
      }
      return Alone(root, e).status, next, found;
    }
    var n := e[1] as nat + 1;
    var file := ReadSet(entries, root, slot, n, sc);
    ScanStep(sc, a, entries, slot, (), files, Outcome(file, n));
    if file.Err? {
      return file.status, next, found;
    }
    s := Add(a, files, file.value);
    next := slot + n;
    if s == Success {
      found := files + [file.value];
    }
  }

  /** Gathers the entries of a set and checks them. */
  method ReadSet(entries: seq<Entry>, root: bool, slot: nat, n: nat, ghost sc: Scanner<()>) returns (file: Result<File>)
    requires Exfat(sc, root) && SetLeads(entries, slot) && n == entries[slot][1] as nat + 1
    ensures sc.step((), entries, slot) == Outcome(file, n) && (file.Ok? ==> file.value.names.alias == [])
    ensures file.Err? ==> file.status != Success
  {
    JoinedFirst(entries, slot, n);
    var b := Joined(entries, slot, n);
    file := Parsed(b, slot);
    ghost var r := StepSet(sc, root, (), entries, slot);
    ReadsOnce(b, slot, r, file);
  }

  /** The name checks of `add`; exFAT has no aliases. */
  method Add(a: Answers, files: seq<File>, f: File) returns (s: Status)
    requires f.names.alias == [] && AllValid(files)
    ensures s == Admit(a, files, f) && (s == Success ==> NameValid(f.names.name))
  {
    EmptyUntaken(files);
    assert Fold(f.names.alias) == [];
    if !NameValid(f.names.name) || f.start.valid > f.start.size || |files| >= a.room {
      return IoError;
    }
    var known, at := Lookup(files, f.names.name);
    if known {
      return IoError;
    }
    return a.store(f);
  }

  /** The entries from `f.slot` on are the set of file `f`. */
  ghost predicate SetAt(entries: seq<Entry>, f: File) {
    && 3 <= f.slots <= 5 && f.slot + f.slots <= |entries|
    && forall k :: Opened(SetSeal, k) ==> IsSet(Joined(entries, f.slot, f.slots), f)
  }

  lemma SetReads(entries: seq<Entry>, f: File)
    requires SetAt(entries, f)
    ensures SetLeads(entries, f.slot) && entries[f.slot][1] == f.slots - 1
    ensures SetReadsAs(Joined(entries, f.slot, f.slots), f.slot, Ok(f))
  {
    assert Opened(SetSeal, 0);
    JoinedFirst(entries, f.slot, f.slots);
    SetRoundTrip(Joined(entries, f.slot, f.slots), f);
  }

  /** Round trip: where the entry set of a file stands, the scanner finds that file and goes on behind it. */
  lemma RoundTrip(sc: Scanner<()>, root: bool, a: Answers, entries: seq<Entry>, f: File, st: (), seen: seq<File>)
    requires Exfat(sc, root) && SetAt(entries, f) && f.slot < LIMIT
    ensures Reads(sc, a, entries, f.slot, st, seen, f)
  {
    SetReads(entries, f);
    var r := StepSet(sc, root, st, entries, f.slot);
    ReadsOnce(Joined(entries, f.slot, f.slots), f.slot, r, Ok(f));
    ReadsBy(sc, a, entries, f.slot, st, f.slot, st, seen, f);
  }

  /** A directory that holds these files, with erased entries anywhere between them, and ends below the limit. */
  ghost predicate Holds(entries: seq<Entry>, slot: nat, files: seq<File>)
    decreases |entries| - slot
  {
    if slot >= LIMIT then false
    else if slot >= |entries| then slot == |entries| && files == []
    else if entries[slot][0] == 0 then files == []
    else if entries[slot][0] < 0x80 then Holds(entries, slot + 1, files)
    else
      && files != [] && files[0].slot == slot && SetAt(entries, files[0])
      && Holds(entries, slot + files[0].slots, files[1..])
  }

  lemma {:induction false} HeldScanned(sc: Scanner<()>, root: bool, a: Answers, entries: seq<Entry>, slot: nat,
                                       files: seq<File>, seen: seq<File>)
    requires Exfat(sc, root) && slot <= |entries| && Holds(entries, slot, files)
    ensures Yields(sc, a, entries, slot, (), seen, files)
    decreases |entries| - slot
  {
    if slot >= |entries| || entries[slot][0] == 0 {
      YieldsNothing(sc, a, entries, slot, (), seen);
    } else if entries[slot][0] < 0x80 {
      StepAlone(sc, root, (), entries, slot);
      HeldScanned(sc, root, a, entries, slot + 1, files, seen);
      YieldsBehind(sc, a, entries, slot, (), (), seen, files);
    } else {
      RoundTrip(sc, root, a, entries, files[0], (), seen);
      HeldScanned(sc, root, a, entries, slot + files[0].slots, files[1..], seen + [files[0]]);
      YieldsFirst(sc, a, entries, slot, (), seen, files);
    }
  }

  /**
   A directory of entry sets is read back in full just when every file is
   acceptable, there is room, and no name occurs twice; else it is refused.
   */
  lemma DirectoryRoundTrip(sc: Scanner<()>, root: bool, a: Answers, entries: seq<Entry>, files: seq<File>)
    requires Exfat(sc, root) && Holds(entries, 0, files)
    ensures var r := Scan(sc, a, entries, 0, (), []);
            if Distinct(files) && |files| <= a.room && forall i :: 0 <= i < |files| ==> Acceptable(a, files[i])
            then r == Ok(files) else r.Err?
  {
    HeldScanned(sc, root, a, entries, 0, files, []);
    YieldsIff(sc, a, entries, (), files);
  }
}
