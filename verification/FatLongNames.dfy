/**
 FAT32 directory entries with long names (src/fs/fat_fs.cpp): what `create`
 writes, `scan_fat` reads back. Long names are those of the Microsoft FAT
 specification: up to thirteen UTF-16 units an entry, last part first, tied to the
 short entry by its checksum.
 */
module FatLongNames {
  import opened Outcomes
  import opened Bytes
  import opened FatLabels
  import opened FatScanning
  import opened Seals

  const LONG_CAPACITY: nat := 260
  const ALIAS_DIGITS: nat := 7
  const OFFSETS: seq<nat> := [1, 3, 5, 7, 9, 14, 16, 18, 20, 22, 24, 28, 30]

  type LongName = t: Text | |t| == LONG_CAPACITY witness seq(LONG_CAPACITY, _ => 0)

  /** `short_sum`: the checksum of the bytes of a short name, rotating right. */
  function ShortSum(b: seq<byte>): (x: nat)
    ensures x < 256
  {
    if b == [] then 0 else ShortNext(ShortSum(b[..|b| - 1]), b[|b| - 1])
  }

  function ShortNext(x: nat, c: byte): (y: nat)
    ensures y < 256
  {
    (ShortTurned(x) + c) % 256
  }

  function ShortTurned(x: nat): nat { (if x % 2 == 1 then 128 else 0) + x / 2 }

  lemma TurnedApart(x: nat, y: nat)
    requires x < 256 && y < 256 && x != y
    ensures ShortTurned(x) != ShortTurned(y)
  {
  }

  lemma AddedApart(u: nat, v: nat, c: byte, d: byte)
    requires u < 256 && v < 256 && ((u == v && c != d) || (u != v && c == d))
    ensures (u + c) % 256 != (v + d) % 256
  {
  }

  lemma ShortApart(x: nat, y: nat, c: byte, d: byte)
    requires x < 256 && y < 256 && ((x == y && c != d) || (x != y && c == d))
    ensures ShortNext(x, c) != ShortNext(y, d)
  {
    if x != y {
      TurnedApart(x, y);
    }
    AddedApart(ShortTurned(x), ShortTurned(y), c, d);
  }

  /** A short name with one byte changed has another checksum, so its long entries no longer go with it. */
  lemma {:induction false} ShortSumDetects(b: seq<byte>, c: seq<byte>, k: nat)
    requires |b| == |c| && k < |b| && b[k] != c[k] && forall i :: 0 <= i < |b| && i != k ==> b[i] == c[i]
    ensures ShortSum(b) != ShortSum(c)
  {
    var n := |b| - 1;
    if k < n {
      ShortSumDetects(b[..n], c[..n], k);
    } else {
      assert b[..n] == c[..n];
    }
    ShortApart(ShortSum(b[..n]), ShortSum(c[..n]), b[n], c[n]);
  }

  /** The number of long entries a name takes. */
  function Parts(n: nat): nat { (n + 12) / 13 }

  /** The unit that stands at `index` of the padded name. */
  function Unit(name: Text, index: nat): nat {
    if index < |name| then name[index] else if index == |name| then 0 else 0xffff
  }

  // ---------------------------------------------------------------------
  // Writing

  /** The long entry number `sequence` of a name. */
  predicate IsLong(e: Entry, name: Text, sequence: nat, last: bool, checksum: nat) {
    && 0 < sequence < 32 && e[0] == sequence + (if last then 64 else 0)
    && e[11] == 15 && e[12] == 0 && e[13] == checksum && R16(e, 26) == 0
    && forall j :: 0 <= j < 13 ==> R16(e, OFFSETS[j]) == Unit(name, (sequence - 1) * 13 + j)
  }

  ghost predicate Long(e: Entry, name: Text, sequence: nat, last: bool, checksum: nat) {
    e[0] != 0 && forall k :: Opened(LongSeal, k) ==> IsLong(e, name, sequence, last, checksum)
  }

  /** The thirteen-unit loop of `create`. */
  method PutUnits(e: Entry, name: Text, at: nat) returns (f: Entry)
    requires forall i :: 0 <= i < |name| ==> name[i] < 256
    ensures forall j :: 0 <= j < 13 ==> R16(f, OFFSETS[j]) == Unit(name, at + j)
    ensures f[0] == e[0] && f[11] == e[11] && f[12] == e[12] && f[13] == e[13] && R16(f, 26) == R16(e, 26)
  {
    f := e;
    for j := 0 to 13
      invariant forall k :: 0 <= k < j ==> R16(f, OFFSETS[k]) == Unit(name, at + k)
      invariant f[0] == e[0] && f[11] == e[11] && f[12] == e[12] && f[13] == e[13] && f[26] == e[26] && f[27] == e[27]
    {
      ghost var before := f;
      f := W16(f, OFFSETS[j], Unit(name, at + j));
      forall k | 0 <= k < j ensures R16(f, OFFSETS[k]) == Unit(name, at + k) {
        OffsetsApart(k, j);
      }
      OffsetsAside(j);
    }
  }

  lemma OffsetsApart(k: nat, j: nat)
    requires k < j < 13
    ensures OFFSETS[k] + 2 <= OFFSETS[j]
  {
  }

  lemma OffsetsAside(j: nat)
    requires j < 13
    ensures OFFSETS[j] !in {0, 10, 11, 12, 13, 25, 26, 27} && OFFSETS[j] + 2 <= 32
  {
  }

  method PutLong(name: Text, sequence: nat, last: bool, checksum: byte) returns (e: Entry)
    requires 0 < sequence < 32
    ensures Long(e, name, sequence, last, checksum)
  {
    e := seq(32, _ => 0);
    e := e[0 := sequence + (if last then 64 else 0)][11 := 15][13 := checksum];
    e := PutUnits(e, name, (sequence - 1) * 13);
  }

  /** The short entry that ends a set: the alias, the attributes, the first cluster and the size. */
  predicate IsShort(e: Entry, f: File) {
    && e[0] != 0 && e[0] != 0xe5 && e[11] < 64 && e[11] / 8 % 2 == 0 && ShortName(e) == Ok(f.names.alias)
    && f.directory == (e[11] / 16 % 2 == 1) && f.readonly == (e[11] % 2 == 1)
    && f.start.cluster == R16(e, 20) * 65536 + R16(e, 26) && !f.start.contiguous
    && f.start.size == f.start.valid == if f.directory then 0 else R32(e, 28)
  }

  /** The last `n` decimal digits of a number. */
  function Digits(number: nat, n: nat): (t: Text)
    ensures |t| == n && forall i :: 0 <= i < n ==> 48 <= t[i] <= 57
  {
    if n == 0 then [] else Digits(number / 10, n - 1) + [48 + number % 10]
  }

  /** The alias `create` makes up: F and a serial number in seven digits, then DAT. */
  function AliasBytes(serial: nat): (t: Text)
    ensures |t| == 11 && forall i :: 0 <= i < 11 ==> 33 <= t[i] <= 126
  {
    [70] + Digits(serial, ALIAS_DIGITS) + [68, 65, 84]
  }

  function Alias(serial: nat): Text { AliasBytes(serial)[..8] + [46] + AliasBytes(serial)[8..] }

  /** The digit loop of `create`. */
  method PutAlias(serial: nat) returns (e: Entry)
    ensures e[..11] == AliasBytes(serial) && forall i :: 11 <= i < 32 ==> e[i] == 0
  {
    e := seq(32, _ => 0);
    e := e[0 := 70];
    var number, i := serial, 8;
    ghost var zero := e;
    while i > 1
      invariant 1 <= i <= 8 && e[0] == 70 && forall k :: 8 <= k < 32 ==> e[k] == 0
      invariant Digits(serial, ALIAS_DIGITS) == Digits(number, i - 1) + e[i..8]
    {
      ghost var before := e;
      e := e[i - 1 := 48 + number % 10];
      assert e[i - 1..8] == [48 + number % 10] + before[i..8];
      number := number / 10;
      i := i - 1;
    }
    e := e[8 := 68][9 := 65][10 := 84];
    assert e[..11] == [70] + e[1..8] + [68, 65, 84];
  }

  lemma LoweredNot(t: Text)
    ensures Lowered(t, false) == t
  {
  }

  /** The rest of the short entry. */
  method PutShort(alias: Entry, serial: nat, f: File) returns (e: Entry)
    requires alias[..11] == AliasBytes(serial) && alias[12] == 0 && f.names.alias == Alias(serial)
    requires f.start.cluster < 0x1_0000_0000 && f.start.size == f.start.valid < 0x1_0000_0000 && !f.start.contiguous
    requires !f.readonly && (f.directory ==> f.start.size == 0)
    ensures IsShort(e, f)
  {
    e := alias[11 := if f.directory then 16 else 32];
    e := W16(W16(W16(e, 16, 0x21), 18, 0x21), 24, 0x21);
    e := W16(e, 20, f.start.cluster / 65536);
    e := W16(e, 26, f.start.cluster % 65536);
    e := W32(e, 28, f.start.size);
    assert e[..11] == alias[..11];
    AliasRead(e, serial);
  }

  /** A short name without spaces or lower-case marks. */
  lemma ShortNameIs(e: Entry)
    requires (forall i :: 0 <= i < 11 ==> 33 <= e[i] <= 126) && e[12] == 0
    ensures ShortName(e) == Ok(e[0..8] + [46] + e[8..11])
  {
    var base, extension := e[0..8], e[8..11];
    PaddedAll(base);
    PaddedAll(extension);
    LoweredNot(base);
    LoweredNot(extension);
    assert base + ([46] + extension) == base + [46] + extension;
  }

  /** `short_name` reads back the alias that was made up. */
  lemma AliasRead(e: Entry, serial: nat)
    requires e[..11] == AliasBytes(serial) && e[12] == 0
    ensures ShortName(e) == Ok(Alias(serial)) && e[0] == 70
  {
    assert forall i :: 0 <= i < 11 ==> e[i] == AliasBytes(serial)[i];
    ShortNameIs(e);
    assert e[0..8] == AliasBytes(serial)[..8] && e[8..11] == AliasBytes(serial)[8..];
  }

  /** The short entry of a file with a valid name. */
  ghost predicate Short(e: Entry, f: File) {
    e[0] != 0 && forall k :: Opened(SetSeal, k) ==> IsShort(e, f) && NameValid(f.names.name)
  }

  /** How many entries a file takes. */
  predicate Sized(f: File) { 2 <= f.slots <= 4 && |f.names.name| < MAX_SEGMENT && f.slots == Parts(|f.names.name|) + 1 }

  /** The entries from `f.slot` on are those of file `f`. */
  ghost predicate Encodes(entries: seq<Entry>, f: File) {
    && f.slot + f.slots <= |entries| && Sized(f) && Short(entries[f.slot + f.slots - 1], f)
    && LongsAt(entries, f, ShortSum(entries[f.slot + f.slots - 1][..11]))
  }

  ghost predicate LongsAt(entries: seq<Entry>, f: File, checksum: nat)
    requires 0 < f.slots && f.slot + f.slots <= |entries|
  {
    forall i :: 0 <= i < f.slots - 1 ==> LongAt(entries, f, i, checksum)
  }

  ghost predicate LongAt(entries: seq<Entry>, f: File, i: nat, checksum: nat)
    requires 0 < f.slots && f.slot + f.slots <= |entries| && i < f.slots - 1
  {
    Long(entries[f.slot + i], f.names.name, f.slots - 1 - i, i == 0, checksum)
  }

  /** The entries of a file, wherever they are put. */
  ghost predicate IsSet(set_: seq<Entry>, f: File) {
    && |set_| == f.slots && Sized(f) && Short(set_[f.slots - 1], f)
    && forall i :: 0 <= i < f.slots - 1 ==>
         Long(set_[i], f.names.name, f.slots - 1 - i, i == 0, ShortSum(set_[f.slots - 1][..11]))
  }

  lemma PutEncodes(entries: seq<Entry>, set_: seq<Entry>, f: File)
    requires IsSet(set_, f) && f.slot + f.slots <= |entries|
    requires forall i :: 0 <= i < f.slots ==> entries[f.slot + i] == set_[i]
    ensures Encodes(entries, f) && forall i :: f.slot <= i < f.slot + f.slots ==> entries[i][0] != 0
  {
    var checksum := ShortSum(entries[f.slot + f.slots - 1][..11]);
    assert entries[f.slot + f.slots - 1] == set_[f.slots - 1];
    forall i | 0 <= i < f.slots - 1 ensures LongAt(entries, f, i, checksum) {
      assert entries[f.slot + i] == set_[i];
    }
    forall i | f.slot <= i < f.slot + f.slots ensures entries[i][0] != 0 {
      assert entries[i] == set_[i - f.slot];
    }
  }

  /** The entries `create` puts for a file, in slot order, with the short entry `short` last. */
  method Encode(short: Entry, f: File) returns (set_: seq<Entry>)
    requires Sized(f) && Short(short, f)
    ensures IsSet(set_, f)
  {
    var checksum, longs, name := ShortSum(short[..11]), f.slots - 1, f.names.name;
    set_ := [];
    for i := 0 to longs
      invariant |set_| == i
      invariant forall k :: 0 <= k < i ==> Long(set_[k], name, longs - k, k == 0, checksum)
    {
      var e := PutLong(name, longs - i, i == 0, checksum);
      set_ := set_ + [e];
    }
    set_ := set_ + [short];
  }

  // ---------------------------------------------------------------------
  // Reading

  /** What the scanner remembers of the long entries seen so far. */
  datatype Lfn = Lfn(longname: LongName, start: nat, count: nat, expected: nat, checksum: nat)

  function Zeros(): LongName { seq(LONG_CAPACITY, _ => 0) }

  function Clean(): Lfn { Lfn(Zeros(), 0, 0, 0, 0) }

  /** The thirteen units of a long entry, or none when one of them is neither ASCII nor padding. */
  predicate AsciiUnits(e: Entry) {
    forall i :: 0 <= i < 13 ==> R16(e, OFFSETS[i]) <= 127 || R16(e, OFFSETS[i]) == 0xffff
  }

  function Stored(longname: LongName, at: nat, e: Entry): LongName
    requires at + 13 <= LONG_CAPACITY && AsciiUnits(e)
  {
    seq(LONG_CAPACITY, k requires 0 <= k < LONG_CAPACITY =>
      if at <= k < at + 13 then (var u := R16(e, OFFSETS[k - at]); if u == 0xffff then 0 else u) else longname[k])
  }

  function LongStep(st: Lfn, e: Entry, slot: nat): Result<Lfn> {
    var order := e[0] % 32;
    var last := e[0] / 64 % 2 == 1;
    if last && (order == 0 || order > 20) then Err(IoError)
    else
      var s := if last then Lfn(Zeros(), slot, order, order, e[13]) else st;
      if s.expected == 0 || order != s.expected || e[13] != s.checksum || e[12] != 0 ||
          R16(e, 26) != 0 then Err(IoError)
      else if !AsciiUnits(e) then Err(Unsupported)
      else if order > 20 then Err(IoError)
      else Ok(s.(longname := Stored(s.longname, (order - 1) * 13, e), expected := s.expected - 1))
  }

  /** The length of the stored name: the first zero. */
  function Length(longname: Text, from: nat): (n: nat)
    requires from <= |longname|
    ensures from <= n <= |longname|
    decreases |longname| - from
  {
    if from == |longname| || longname[from] == 0 then from else Length(longname, from + 1)
  }

  /** `short_name` up to its padding. */
  function Padded(t: Text): Text { if t == [] || t[0] == 32 then [] else [t[0]] + Padded(t[1..]) }

  predicate Printable(t: Text) { forall i :: 0 <= i < |t| ==> 32 <= t[i] <= 126 }

  function Lowered(t: Text, lower: bool): Text {
    seq(|t|, i requires 0 <= i < |t| => if lower && 65 <= t[i] <= 90 then t[i] + 32 else t[i])
  }

  function ShortName(e: Entry): Result<Text> {
    var base := Padded(e[0..8]);
    var extension := Padded(e[8..11]);
    if !Printable(base) || !Printable(extension) then Err(IoError)
    else Ok(Lowered(base, e[12] / 8 % 2 == 1) +
        (if e[8] == 32 then [] else [46] + Lowered(extension, e[12] / 16 % 2 == 1)))
  }

  /** The name and slots of a short entry, after the long entries before it. */
  function NameStep(st: Lfn, e: Entry, slot: nat): Result<File> {
    var alias := ShortName(e);
    if alias.Err? then Err(alias.status)
    else if st.count != 0 then
      if st.expected != 0 || ShortSum(e[..11]) != st.checksum then Err(IoError)
      else if Length(st.longname, 0) >= MAX_SEGMENT then Err(Unsupported)
      else Ok(ToFile(Label(st.longname[..Length(st.longname, 0)], alias.value), st.start, st.count + 1, e))
    else Ok(ToFile(Label(alias.value, alias.value), slot, 1, e))
  }

  function ToFile(names: Label, slot: nat, slots: nat, e: Entry): File {
    var directory := e[11] / 16 % 2 == 1;
    var size := if directory then 0 else R32(e, 28);
    File(names, slot, slots, Start(R16(e, 20) * 65536 + R16(e, 26), size, size, false), directory, e[11] % 2 == 1)
  }

  /** What `scan_fat` makes of one slot. With no long entries pending, it remembers nothing. */
  function StepFat(st: Lfn, entries: seq<Entry>, slot: nat): Step<Lfn> {
    if slot >= |entries| then Fail(NotFound)
    else
      var e := entries[slot];
      if e[0] == 0xe5 then Skip(Clean(), 1)
      else if e[11] == 15 then
        var next := LongStep(st, e, slot);
        if next.Err? then Fail(next.status) else Skip(next.value, 1)
      else if e[11] / 8 % 2 == 1 then
        if st.count != 0 then Fail(IoError) else Skip(Clean(), 1)
      else if e[11] >= 64 then Fail(IoError)
      else Named(NameStep(st, e, slot))
  }

  function Named(file: Result<File>): Step<Lfn> {
    if file.Err? then Fail(file.status)
    else if Dots(file.value.names.name) then Skip(Clean(), 1)
    else Find(file.value, Clean(), 1)
  }

  function FatScanner(): Scanner<Lfn> { Scanner(true, Clean(), (st, entries, slot) => StepFat(st, entries, slot)) }

  /** The scanner of this module, by another name that keeps its step folded. */
  ghost predicate Fat(sc: Scanner<Lfn>) {
    sc.fat32 && sc.idle == Clean() && forall k :: Opened(StepSeal, k) ==> sc == FatScanner()
  }

  lemma FatLawful(sc: Scanner<Lfn>)
    requires Fat(sc)
    ensures Lawful(sc)
  {
    forall st: Lfn, a: seq<Entry>, slot: nat ensures Advances(sc, st, a, slot) && SkipsFree(sc, st, a, slot) {
      StepAdvances(sc, st, a, slot);
    }
    forall st: Lfn, a: seq<Entry>, b: seq<Entry>, slot: nat
      ensures Local(sc, st, a, b, slot) && Onward(sc, st, a, b, slot)
    {
      StepLocal(sc, st, a, b, slot);
    }
  }

  lemma StepAdvances(sc: Scanner<Lfn>, st: Lfn, a: seq<Entry>, slot: nat)
    requires Fat(sc)
    ensures Advances(sc, st, a, slot) && SkipsFree(sc, st, a, slot)
  {
    assert Opened(StepSeal, 0);
  }

  lemma StepLocal(sc: Scanner<Lfn>, st: Lfn, a: seq<Entry>, b: seq<Entry>, slot: nat)
    requires Fat(sc)
    ensures Local(sc, st, a, b, slot) && Onward(sc, st, a, b, slot)
  {
    assert Opened(StepSeal, 0);
    if slot < |a| && slot < |b| {
      assert a[slot..slot + 1] == b[slot..slot + 1] ==> a[slot..slot + 1][0] == b[slot..slot + 1][0];
      assert a[slot..] == b[slot..] ==> a[slot..][0] == b[slot..][0];
    }
  }

  // One slot of the scan, case by case

  ghost predicate SlotAt(sc: Scanner<Lfn>, entries: seq<Entry>, slot: nat, e: Entry) {
    Fat(sc) && slot < |entries| && slot < LIMIT && e == entries[slot] && e[0] != 0
  }

  predicate ShortEntry(e: Entry) { e[0] != 0xe5 && e[11] < 64 && e[11] / 8 % 2 == 0 }

  /** The scanner takes the long entry `e` for this. */
  ghost predicate TakesLong(st: Lfn, e: Entry, slot: nat, r: Result<Lfn>) {
    forall k :: Opened(LongSeal, k) ==> LongStep(st, e, slot) == r
  }

  /** The scanner takes the short entry `e` for this. */
  ghost predicate TakesShort(st: Lfn, e: Entry, slot: nat, r: Result<File>) {
    forall k :: Opened(LongSeal, k) ==> NameStep(st, e, slot) == r
  }

  lemma StepErased(sc: Scanner<Lfn>, entries: seq<Entry>, slot: nat, e: Entry, st: Lfn)
    requires SlotAt(sc, entries, slot, e) && e[0] == 0xe5
    ensures sc.step(st, entries, slot) == Skip(Clean(), 1)
  {
    assert Opened(StepSeal, 0);
  }

  lemma StepLong(sc: Scanner<Lfn>, entries: seq<Entry>, slot: nat, e: Entry, st: Lfn, r: Result<Lfn>)
    requires SlotAt(sc, entries, slot, e) && e[0] != 0xe5 && e[11] == 15 && TakesLong(st, e, slot, r)
    ensures sc.step(st, entries, slot) == if r.Ok? then Skip(r.value, 1) else Fail(r.status)
  {
    assert Opened(StepSeal, 0) && Opened(LongSeal, 0);
  }

  lemma StepOther(sc: Scanner<Lfn>, entries: seq<Entry>, slot: nat, e: Entry, st: Lfn)
    requires SlotAt(sc, entries, slot, e) && e[0] != 0xe5 && e[11] != 15 && (e[11] / 8 % 2 == 1 || e[11] >= 64)
    ensures sc.step(st, entries, slot) == if e[11] / 8 % 2 == 0 || st.count != 0 then Fail(IoError)
            else Skip(Clean(), 1)
  {
    assert Opened(StepSeal, 0);
  }

  lemma StepShort(sc: Scanner<Lfn>, entries: seq<Entry>, slot: nat, e: Entry, st: Lfn, r: Result<File>)
    requires SlotAt(sc, entries, slot, e) && ShortEntry(e) && TakesShort(st, e, slot, r)
    ensures sc.step(st, entries, slot) == Named(r)
  {
    StepIs(sc, entries, slot, st);
    ShortStep(entries, slot, e, st);
    assert Opened(LongSeal, 0);
  }

  lemma StepIs(sc: Scanner<Lfn>, entries: seq<Entry>, slot: nat, st: Lfn)
    requires Fat(sc)
    ensures sc.step(st, entries, slot) == StepFat(st, entries, slot)
  {
    assert Opened(StepSeal, 0);
  }

  lemma ShortStep(entries: seq<Entry>, slot: nat, e: Entry, st: Lfn)
    requires slot < |entries| && e == entries[slot] && ShortEntry(e)
    ensures StepFat(st, entries, slot) == Named(NameStep(st, e, slot))
  {
  }

  /** What the scanner remembers, less what no longer matters. */
  function Normal(st: Lfn): Lfn { if st.count == 0 then Clean() else st }

  /** `scan_fat`, one slot after the other. */
  method ScanFat(entries: seq<Entry>, a: Answers, ghost sc: Scanner<Lfn>) returns (r: Result<seq<File>>)
    requires Fat(sc)
    ensures r == Scan(sc, a, entries, 0, Clean(), [])
  {
    var st, files, slot := Clean(), [], 0;
    while slot < LIMIT
      invariant slot <= LIMIT && (st.count == 0 ==> st.expected == 0)
      invariant Scan(sc, a, entries, 0, Clean(), []) == Scan(sc, a, entries, slot, Normal(st), files)
    {
      if slot >= |entries| || entries[slot][0] == 0 {
        return Ok(files);
      }
      var s;
      s, st, files := ScanSlot(entries, slot, st, files, a, sc);
      if s != Success {
        return Err(s);
      }
      slot := slot + 1;
    }
    return Err(Overflow);
  }

  /** One turn of that loop. */
  method ScanSlot(entries: seq<Entry>, slot: nat, st: Lfn, files: seq<File>, a: Answers, ghost sc: Scanner<Lfn>)
    returns (s: Status, next: Lfn, found: seq<File>)
    requires Fat(sc) && slot < |entries| && slot < LIMIT && entries[slot][0] != 0
    requires (st.count == 0 ==> st.expected == 0)
    ensures Scan(sc, a, entries, slot, Normal(st), files) ==
            if s == Success then Scan(sc, a, entries, slot + 1, Normal(next), found) else Err(s)
    ensures next.count == 0 ==> next.expected == 0
  {
    var e := entries[slot];
    ghost var before := Normal(st);
    next, found := st.(count := 0, expected := 0), files;
    if e[0] == 0xe5 {
      StepErased(sc, entries, slot, e, before);
      ScanStep(sc, a, entries, slot, before, files, Skip(Clean(), 1));
      return Success, next, found;
    }
    if e[11] == 15 {
      var long := LongStep(st, e, slot);
      NormalLong(st, e, slot);
      StepLong(sc, entries, slot, e, before, long);
      ScanStep(sc, a, entries, slot, before, files, if long.Ok? then Skip(long.value, 1) else Fail(long.status));
      if long.Err? {
        return long.status, next, found;
      }
      return Success, long.value, found;
    }
    if e[11] / 8 % 2 == 1 || e[11] >= 64 {
      StepOther(sc, entries, slot, e, before);
      ScanStep(sc, a, entries, slot, before, files, sc.step(before, entries, slot));
      if e[11] / 8 % 2 == 0 || st.count != 0 {
        return IoError, next, found;
      }
      return Success, st, found;
    }
    s, found := ScanName(entries, slot, st, files, a, sc);
  }

  /** The end of that turn: a short entry, with the long ones before it. */
  method ScanName(entries: seq<Entry>, slot: nat, st: Lfn, files: seq<File>, a: Answers, ghost sc: Scanner<Lfn>)
    returns (s: Status, found: seq<File>)
    requires slot < |entries| && SlotAt(sc, entries, slot, entries[slot]) && ShortEntry(entries[slot])
    ensures Scan(sc, a, entries, slot, Normal(st), files) ==
            if s == Success then Scan(sc, a, entries, slot + 1, Clean(), found) else Err(s)
  {
    found := files;
    var file := NameStep(st, entries[slot], slot);
    NormalName(st, entries[slot], slot);
    StepShort(sc, entries, slot, entries[slot], Normal(st), file);
    ScanStep(sc, a, entries, slot, Normal(st), files, Named(file));
    if file.Err? {
      return file.status, found;
    }
    if Dots(file.value.names.name) {
      return Success, found;
    }
    s := Add(a, files, file.value);
    if s == Success {
      found := files + [file.value];
    }
  }

  /** The alias check of `scan_fat`, and the name checks of `add`. */
  method Add(a: Answers, files: seq<File>, f: File) returns (s: Status)
    ensures s == Admit(a, files, f)
  {
    var known, at := Lookup(files, f.names.alias);
    if known {
      return IoError;
    }
    if !NameValid(f.names.name) || f.start.valid > f.start.size || |files| >= a.room {
      return IoError;
    }
    known, at := Lookup(files, f.names.name);
    if known {
      return IoError;
    }
    return a.store(f);
  }

  lemma NormalLong(st: Lfn, e: Entry, slot: nat)
    requires st.count == 0 ==> st.expected == 0
    ensures TakesLong(Normal(st), e, slot, LongStep(st, e, slot))
    ensures LongStep(st, e, slot).Ok? ==> LongStep(st, e, slot).value.count > 0
  {
  }

  lemma NormalName(st: Lfn, e: Entry, slot: nat)
    ensures TakesShort(Normal(st), e, slot, NameStep(st, e, slot))
  {
  }

  // ---------------------------------------------------------------------
  // The round trip

  /** The scanner after the first `i` long entries of a file. */
  ghost predicate Pending(st: Lfn, f: File, i: nat, checksum: nat)
    requires 0 < f.slots && i < f.slots
  {
    var n := f.slots - 1;
    && n * 13 <= LONG_CAPACITY
    && st.start == f.slot && st.count == n && st.expected == n - i && st.checksum == checksum
    && (forall k :: (n - i) * 13 <= k < n * 13 ==> st.longname[k] == if k < |f.names.name| then f.names.name[k] else 0)
    && (forall k :: n * 13 <= k < LONG_CAPACITY ==> st.longname[k] == 0)
  }

  /** What the scanner takes a long entry to continue. */
  function Continued(st: Lfn, slot: nat, order: nat, last: bool, checksum: nat): Lfn {
    if last then Lfn(Zeros(), slot, order, order, checksum) else st
  }

  /** A long entry that follows on is accepted, and its units are stored. */
  lemma LongAccepted(st: Lfn, e: Entry, slot: nat, name: Text, order: nat, last: bool, checksum: nat)
    requires Long(e, name, order, last, checksum) && 0 < order <= 20 && AsciiUnits(e)
    requires !last ==> st.expected == order && st.checksum == checksum
    ensures var s := Continued(st, slot, order, last, checksum);
            && s.expected == order
            && TakesLong(st, e, slot, Ok(s.(longname := Stored(s.longname, (order - 1) * 13, e),
                 expected := order - 1)))
  {
    assert Opened(LongSeal, 0);
    assert e[0] % 32 == order && (e[0] / 64 % 2 == 1 <==> last);
  }

  lemma LongAscii(e: Entry, name: Text, order: nat, last: bool, checksum: nat)
    requires Long(e, name, order, last, checksum) && forall i :: 0 <= i < |name| ==> name[i] <= 126
    ensures AsciiUnits(e)
  {
    assert Opened(LongSeal, 0);
  }

  /** The stored units, where the name or its padding has them. */
  lemma StoredUnits(longname: LongName, e: Entry, name: Text, order: nat, last: bool, checksum: nat, k: nat)
    requires 0 < order <= 20 && AsciiUnits(e) && Long(e, name, order, last, checksum)
    requires k < LONG_CAPACITY && forall i :: 0 <= i < |name| ==> name[i] <= 126
    ensures Stored(longname, (order - 1) * 13, e)[k] ==
            if (order - 1) * 13 <= k < order * 13 then (if k < |name| then name[k] else 0) else longname[k]
  {
    assert Opened(LongSeal, 0);
    if (order - 1) * 13 <= k < order * 13 {
      assert R16(e, OFFSETS[k - (order - 1) * 13]) == Unit(name, k);
    }
  }

  lemma PendingNext(s: Lfn, next: Lfn, f: File, i: nat, order: nat, checksum: nat)
    requires 0 < f.slots <= 4 && i < f.slots - 1 && order == f.slots - 1 - i
    requires if i == 0 then s == Lfn(Zeros(), f.slot, order, order, checksum) else Pending(s, f, i, checksum)
    requires next == s.(longname := next.longname, expected := order - 1)
    requires UnitsAt(next.longname, s.longname, f.names.name, order)
    ensures Pending(next, f, i + 1, checksum)
  {
  }

  /** The units of part `order` of the name have been stored, the rest is as before. */
  ghost predicate UnitsAt(after: LongName, before: LongName, name: Text, order: nat) {
    forall k :: 0 <= k < LONG_CAPACITY ==>
      after[k] == if (order - 1) * 13 <= k < order * 13 then (if k < |name| then name[k] else 0) else before[k]
  }

  lemma StoredAll(longname: LongName, e: Entry, name: Text, order: nat, last: bool, checksum: nat)
    requires 0 < order <= 20 && AsciiUnits(e) && Long(e, name, order, last, checksum)
    requires forall i :: 0 <= i < |name| ==> name[i] <= 126
    ensures UnitsAt(Stored(longname, (order - 1) * 13, e), longname, name, order)
  {
    var after := Stored(longname, (order - 1) * 13, e);
    forall k: nat | k < LONG_CAPACITY
      ensures after[k] == if (order - 1) * 13 <= k < order * 13 then (if k < |name| then name[k] else 0)
              else longname[k]
    {
      StoredUnits(longname, e, name, order, last, checksum, k);
    }
  }

  /** One more long entry. */
  lemma LongStepped(st: Lfn, e: Entry, f: File, i: nat, checksum: nat) returns (next: Lfn)
    requires 0 < f.slots <= 4 && i < f.slots - 1
    requires Long(e, f.names.name, f.slots - 1 - i, i == 0, checksum)
    requires forall k :: 0 <= k < |f.names.name| ==> f.names.name[k] <= 126
    requires i > 0 ==> Pending(st, f, i, checksum)
    ensures TakesLong(st, e, f.slot + i, Ok(next)) && Pending(next, f, i + 1, checksum)
  {
    var order := f.slots - 1 - i;
    var s := Continued(st, f.slot + i, order, i == 0, checksum);
    next := LongStored(st, s, e, f.slot + i, f.names.name, order, i == 0, checksum);
    PendingNext(s, next, f, i, order, checksum);
  }

  lemma LongStored(st: Lfn, s: Lfn, e: Entry, slot: nat, name: Text, order: nat, last: bool, checksum: nat)
    returns (next: Lfn)
    requires Long(e, name, order, last, checksum) && 0 < order <= 20 && s == Continued(st, slot, order, last, checksum)
    requires forall k :: 0 <= k < |name| ==> name[k] <= 126
    requires !last ==> st.expected == order && st.checksum == checksum
    ensures TakesLong(st, e, slot, Ok(next)) && next == s.(longname := next.longname, expected := order - 1)
    ensures UnitsAt(next.longname, s.longname, name, order)
  {
    LongAscii(e, name, order, last, checksum);
    LongAccepted(st, e, slot, name, order, last, checksum);
    StoredAll(s.longname, e, name, order, last, checksum);
    next := s.(longname := Stored(s.longname, (order - 1) * 13, e), expected := order - 1);
  }

  lemma PartsBound(f: File)
    requires NameValid(f.names.name) && f.slots == Parts(|f.names.name|) + 1
    ensures 2 <= f.slots <= 4 && (f.slots - 2) * 13 < |f.names.name| <= (f.slots - 1) * 13
  {
  }

  /** All the long entries of a file, from the `i`-th on. */
  lemma {:induction false} LongsScanned(sc: Scanner<Lfn>, a: Answers, entries: seq<Entry>, f: File, i: nat, st: Lfn,
                                        seen: seq<File>, checksum: nat) returns (last: Lfn)
    requires Fat(sc) && f.slot + f.slots <= |entries| && f.slot + f.slots <= LIMIT && Sized(f) && i < f.slots
    requires forall k :: 0 <= k < |f.names.name| ==> f.names.name[k] <= 126
    requires LongsAt(entries, f, checksum)
    requires i > 0 ==> Pending(st, f, i, checksum)
    ensures Pending(last, f, f.slots - 1, checksum)
    ensures Leads(sc, a, entries, f.slot + i, st, f.slot + f.slots - 1, last, seen)
    decreases f.slots - i
  {
    if i == f.slots - 1 {
      last := st;
    } else {
      assert LongAt(entries, f, i, checksum);
      var e, slot := entries[f.slot + i], f.slot + i;
      var next := LongStepped(st, e, f, i, checksum);
      LongHeader(e, f, i, checksum);
      StepLong(sc, entries, slot, e, st, Ok(next));
      last := LongsScanned(sc, a, entries, f, i + 1, next, seen, checksum);
      LeadsOn(sc, a, entries, slot, st, next, f.slot + f.slots - 1, last, seen);
    }
  }

  lemma LongHeader(e: Entry, f: File, i: nat, checksum: nat)
    requires 2 <= f.slots <= 4 && i < f.slots - 1 && Long(e, f.names.name, f.slots - 1 - i, i == 0, checksum)
    ensures e[0] != 0 && e[0] != 0xe5 && e[11] == 15
  {
    assert Opened(LongSeal, 0);
  }

  /** The stored name ends where the name does. */
  lemma {:induction false} LengthIs(longname: Text, name: Text, from: nat)
    requires |name| < |longname| && from <= |name| && longname[|name|] == 0
    requires forall k :: 0 <= k < |name| ==> longname[k] == name[k] && name[k] != 0
    ensures Length(longname, from) == |name| && longname[..|name|] == name
    decreases |name| - from
  {
    if from < |name| {
      LengthIs(longname, name, from + 1);
    }
  }

  lemma PendingName(st: Lfn, f: File, checksum: nat)
    requires NameValid(f.names.name) && f.slots == Parts(|f.names.name|) + 1 && Pending(st, f, f.slots - 1, checksum)
    ensures Length(st.longname, 0) == |f.names.name| && st.longname[..|f.names.name|] == f.names.name
  {
    PartsBound(f);
    LengthIs(st.longname, f.names.name, 0);
  }

  lemma FileIs(e: Entry, f: File)
    requires IsShort(e, f)
    ensures ToFile(f.names, f.slot, f.slots, e) == f
  {
  }

  /** The short entry of a file, after all its long ones, yields the file. */
  lemma NameFound(e: Entry, f: File, st: Lfn)
    requires |f.names.name| < MAX_SEGMENT && f.slots > 1 && IsShort(e, f)
    requires Length(st.longname, 0) == |f.names.name| && st.longname[..|f.names.name|] == f.names.name
    requires st.start == f.slot && st.count == f.slots - 1 && st.expected == 0 && st.checksum == ShortSum(e[..11])
    ensures NameStep(st, e, f.slot + f.slots - 1) == Ok(f)
  {
    FileIs(e, f);
  }

  lemma {:induction false} PaddedAll(t: Text)
    requires forall i :: 0 <= i < |t| ==> t[i] != 32
    ensures Padded(t) == t
  {
    if t != [] {
      PaddedAll(t[1..]);
    }
  }

  /** Round trip: where the entries of a file stand, the scanner finds that file and goes on behind it. */
  lemma RoundTrip(sc: Scanner<Lfn>, a: Answers, entries: seq<Entry>, f: File, st: Lfn, seen: seq<File>)
    requires Fat(sc) && Encodes(entries, f) && f.slot + f.slots <= LIMIT
    ensures Reads(sc, a, entries, f.slot, st, seen, f)
  {
    var slot := f.slot + f.slots - 1;
    var e := entries[slot];
    ShortNamed(e, f);
    var last := LongsScanned(sc, a, entries, f, 0, st, seen, ShortSum(e[..11]));
    ShortFound(e, f, slot, last);
    StepShort(sc, entries, slot, e, last, Ok(f));
    ReadsBy(sc, a, entries, f.slot, st, slot, last, seen, f);
  }

  lemma ShortNamed(e: Entry, f: File)
    requires Short(e, f)
    ensures !Dots(f.names.name) && forall k :: 0 <= k < |f.names.name| ==> f.names.name[k] <= 126
  {
    assert Opened(SetSeal, 0);
  }

  lemma ShortFound(e: Entry, f: File, slot: nat, last: Lfn)
    requires Sized(f) && Short(e, f) && slot == f.slot + f.slots - 1 && Pending(last, f, f.slots - 1, ShortSum(e[..11]))
    ensures TakesShort(last, e, slot, Ok(f)) && ShortEntry(e)
  {
    assert Opened(SetSeal, 0);
    PendingName(last, f, ShortSum(e[..11]));
    NameFound(e, f, last);
  }

  /** A directory that holds these files, with erased entries anywhere between them, and ends below the limit. */
  ghost predicate Holds(entries: seq<Entry>, slot: nat, files: seq<File>)
    decreases |entries| - slot
  {
    if slot >= LIMIT then false
    else if slot >= |entries| then slot == |entries| && files == []
    else if entries[slot][0] == 0 then files == []
    else if entries[slot][0] == 0xe5 then Holds(entries, slot + 1, files)
    else
      && files != [] && files[0].slot == slot && Encodes(entries, files[0]) && slot + files[0].slots <= LIMIT
      && Holds(entries, slot + files[0].slots, files[1..])
  }

  lemma {:induction false} HeldScanned(sc: Scanner<Lfn>, a: Answers, entries: seq<Entry>, slot: nat, files: seq<File>,
                                       seen: seq<File>)
    requires Fat(sc) && slot <= |entries| && Holds(entries, slot, files)
    ensures Yields(sc, a, entries, slot, Clean(), seen, files)
    decreases |entries| - slot
  {
    if slot >= |entries| || entries[slot][0] == 0 {
      YieldsNothing(sc, a, entries, slot, Clean(), seen);
    } else if entries[slot][0] == 0xe5 {
      StepErased(sc, entries, slot, entries[slot], Clean());
      HeldScanned(sc, a, entries, slot + 1, files, seen);
      YieldsBehind(sc, a, entries, slot, Clean(), Clean(), seen, files);
    } else {
      RoundTrip(sc, a, entries, files[0], Clean(), seen);
      HeldScanned(sc, a, entries, slot + files[0].slots, files[1..], seen + [files[0]]);
      YieldsFirst(sc, a, entries, slot, Clean(), seen, files);
    }
  }

  /**
   A directory of file entries is read back in full just when every file is
   acceptable, there is room, and no name or alias occurs twice; else it is refused.
   */
  lemma DirectoryRoundTrip(sc: Scanner<Lfn>, a: Answers, entries: seq<Entry>, files: seq<File>)
    requires Fat(sc) && Holds(entries, 0, files)
    ensures var r := Scan(sc, a, entries, 0, Clean(), []);
            if Distinct(files) && |files| <= a.room && forall i :: 0 <= i < |files| ==> Acceptable(a, files[i])
            then r == Ok(files) else r.Err?
  {
    HeldScanned(sc, a, entries, 0, files, []);
    YieldsIff(sc, a, entries, Clean(), files);
  }
}
