/**
 `remove` on a FAT32 directory (src/fs/fat_fs.cpp), and the entries of a new one:
 the next scan of the directory yields every other file.
 */
module FatRemoval {
  import opened Outcomes
  import opened Bytes
  import opened FatLabels
  import opened FatScanning
  import opened FatLongNames
  import opened FatErasure

  // ---------------------------------------------------------------------
  // Where a file that was found stands

  /** The long entries seen so far fill the slots from the first of them on. */
  predicate Pends(st: Lfn, slot: nat) {
    || st == Clean()
    || (0 < st.count && st.expected < st.count && st.start + st.count == slot + st.expected)
  }

  lemma LongPends(st: Lfn, e: Entry, slot: nat)
    requires Pends(st, slot) && LongStep(st, e, slot).Ok?
    ensures var next := LongStep(st, e, slot).value;
            && Pends(next, slot + 1) && next.count != 0
            && (next.start == slot || (st.count != 0 && next.start == st.start))
  {
  }

  lemma NamePends(st: Lfn, e: Entry, slot: nat)
    requires Pends(st, slot) && NameStep(st, e, slot).Ok?
    ensures var f := NameStep(st, e, slot).value;
            0 < f.slots && f.slot + f.slots == slot + 1 && f.slot == if st.count == 0 then slot else st.start
  {
  }

  /** What a step makes of the long entries pending. */
  lemma StepPends(st: Lfn, x: seq<Entry>, slot: nat)
    requires Pends(st, slot) && slot < |x|
    ensures var s := StepFat(st, x, slot);
            && (!s.Fail? ==> s.width == 1 && Pends(s.next, slot + 1))
            && (s.Skip? && s.next.count != 0 ==> s.next.start == slot || (st.count != 0 && s.next.start == st.start))
            && (s.Find? ==>
                  && s.next == Clean() && 0 < s.file.slots && s.file.slot + s.file.slots == slot + 1
                  && s.file.slot == if st.count == 0 then slot else st.start)
  {
    var e := x[slot];
    if e[0] != 0xe5 && e[11] == 15 && LongStep(st, e, slot).Ok? {
      LongPends(st, e, slot);
    }
    if NameStep(st, e, slot).Ok? {
      NamePends(st, e, slot);
    }
  }

  /** A file found later begins at a slot still to come, or with the long entries pending. */
  ghost predicate Ahead(sc: Scanner<Lfn>, a: Answers, x: seq<Entry>, slot: nat, st: Lfn, seen: seq<File>,
                        files: seq<File>, k: nat, at: Lfn)
    requires k < |files|
  {
    var f := files[k];
    && 0 < f.slots && slot < f.slot + f.slots <= |x| && f.slot + f.slots <= LIMIT
    && Scan(sc, a, x, f.slot + f.slots, Clean(), files[..k] + [f]) == Ok(files)
    && if f.slot >= slot then Visits(sc, a, x, slot, st, seen, f.slot, at, files[..k])
       else st.count != 0 && f.slot == st.start && seen == files[..k]
  }

  lemma {:induction false} Traced(sc: Scanner<Lfn>, a: Answers, x: seq<Entry>, slot: nat, st: Lfn, seen: seq<File>,
                                  files: seq<File>, k: nat) returns (at: Lfn)
    requires Fat(sc) && Pends(st, slot) && Scan(sc, a, x, slot, st, seen) == Ok(files) && |seen| <= k < |files|
    ensures Ahead(sc, a, x, slot, st, seen, files, k, at)
    decreases LIMIT - slot
  {
    ScanExtends(sc, a, x, slot, st, seen);
    assert slot < |x| && x[slot][0] != 0;
    ScanGoes(sc, a, x, slot, st, seen, files);
    StepIs(sc, x, slot, st);
    StepPends(st, x, slot);
    var s := sc.step(st, x, slot);
    ScanExtends(sc, a, x, slot + 1, s.next, Seen(seen, s));
    if s.Find? && k == |seen| {
      assert files[k] == s.file && files[..k] == seen;
      at := st;
    } else {
      var later := Traced(sc, a, x, slot + 1, s.next, Seen(seen, s), files, k);
      at := if files[k].slot == slot then st else later;
      AheadStep(sc, a, x, slot, st, seen, files, k, s, later);
    }
  }

  /** What is ahead of the next slot is ahead of this one. */
  lemma AheadStep(sc: Scanner<Lfn>, a: Answers, x: seq<Entry>, slot: nat, st: Lfn, seen: seq<File>, files: seq<File>,
                  k: nat, s: Step<Lfn>, at: Lfn)
    requires slot < |x| && slot < LIMIT && x[slot][0] != 0 && sc.step(st, x, slot) == s && Goes(a, seen, s)
    requires s.width == 1
    requires s.Skip? && s.next.count != 0 ==> s.next.start == slot || (st.count != 0 && s.next.start == st.start)
    requires s.Find? ==> s.next == Clean()
    requires k < |files| && Ahead(sc, a, x, slot + 1, s.next, Seen(seen, s), files, k, at)
    ensures Ahead(sc, a, x, slot, st, seen, files, k, if files[k].slot == slot then st else at)
  {
  }

  /** Every file that a scan yields stands somewhere. */
  lemma Standing(sc: Scanner<Lfn>, a: Answers, x: seq<Entry>, files: seq<File>, k: nat) returns (at: Lfn)
    requires Fat(sc) && Scan(sc, a, x, 0, Clean(), []) == Ok(files) && k < |files|
    ensures Stands(sc, a, x, files, k, at)
  {
    at := Traced(sc, a, x, 0, Clean(), [], files, k);
  }

  // ---------------------------------------------------------------------
  // Removal

  /** The loop that erases the entries of a file, last first. */
  method Erase(x: seq<Entry>, f: File) returns (y: seq<Entry>)
    requires f.slot + f.slots <= |x|
    ensures Erased(true, x, y, f.slot, f.slots)
    ensures forall i :: f.slot <= i < f.slot + f.slots ==> y[i] == x[i][0 := 0xe5]
  {
    y := x;
    for i := 0 to f.slots
      invariant |y| == |x| && forall k :: 0 <= k < |x| && !(f.slot + f.slots - i <= k < f.slot + f.slots) ==>
              y[k] == x[k]
      invariant forall k :: f.slot + f.slots - i <= k < f.slot + f.slots ==> y[k] == x[k][0 := 0xe5]
    {
      var at := f.slot + f.slots - 1 - i;
      y := y[at := y[at][0 := 0xe5]];
    }
  }

  /** What erasing file number `k` of `shown` leaves. */
  lemma Gone(sc: Scanner<Lfn>, a: Answers, x: seq<Entry>, y: seq<Entry>, shown: seq<File>, k: nat)
    requires Fat(sc) && Scan(sc, a, x, 0, Clean(), []) == Ok(shown) && k < |shown|
    requires Erased(true, x, y, shown[k].slot, shown[k].slots)
    ensures Scan(sc, a, y, 0, Clean(), []) == Ok(Without(shown, k)) && (Tidy(true, x) ==> Tidy(true, y))
  {
    FatLawful(sc);
    var at := Standing(sc, a, x, shown, k);
    ErasedShown(sc, a, x, y, shown, k, at);
    if Tidy(true, x) {
      TidyErased(true, x, y, shown[k].slot, shown[k].slots);
    }
  }

  /** `remove`, on the directory: the next scan yields every other file, in order. */
  method Remove(a: Answers, entries: seq<Entry>, files: seq<File>, name: Text, directory: bool, busy: bool,
                ghost sc: Scanner<Lfn>, ghost shown: seq<File>)
    returns (s: Status, out: seq<Entry>, index: nat, ghost k: nat)
    requires Fat(sc) && Scan(sc, a, entries, 0, Clean(), []) == Ok(shown) && multiset(files) == multiset(shown)
    ensures Dots(name) ==> s == InvalidArgument
    ensures !Dots(name) && !Matched(shown, name) ==> s == NotFound
    ensures !Dots(name) && Matched(shown, name) ==>
              && index < |files| && k < |shown| && files[index] == shown[k] && Fold(name) in Takes(shown[k].names)
              && s == Objection(shown[k], directory, busy)
    ensures s == Success ==>
              && k < |shown| && Erased(true, entries, out, shown[k].slot, shown[k].slots)
              && Scan(sc, a, out, 0, Clean(), []) == Ok(Without(shown, k)) && (Tidy(true, entries) ==> Tidy(true, out))
    ensures s != Success ==> out == entries
  {
    out, index, k := entries, 0, 0;
    SameTaken(files, shown);
    if Dots(name) {
      return InvalidArgument, out, index, k;
    }
    var found;
    found, index := Lookup(files, name);
    if !found {
      return NotFound, out, index, k;
    }
    var f := files[index];
    assert f in multiset(shown);
    k :| 0 <= k < |shown| && shown[k] == f;
    s := Objection(f, directory, busy);
    if s != Success {
      return s, out, index, k;
    }
    ghost var at := Standing(sc, a, entries, shown, k);
    out := Erase(entries, f);
    Gone(sc, a, entries, out, shown, k);
  }

  // ---------------------------------------------------------------------
  // A new directory

  /** A short entry named by one dot or two. */
  predicate DotEntry(e: Entry, n: nat) {
    && 1 <= n <= 2 && (forall i :: 0 <= i < 11 ==> e[i] == if i < n then 46 else 32) && e[11] == 16 && e[12] == 0
  }

  /** The entry of a new directory for itself or its parent. */
  method PutDot(n: nat, cluster: nat) returns (e: Entry)
    requires 1 <= n <= 2 && cluster < 0x1_0000_0000
    ensures DotEntry(e, n) && R16(e, 20) * 65536 + R16(e, 26) == cluster
  {
    e := ZeroEntry();
    for j := 0 to 11
      invariant forall i :: 0 <= i < j ==> e[i] == 32
      invariant forall i :: j <= i < 32 ==> e[i] == 0
    {
      e := e[j := 32];
    }
    e := e[0 := 46];
    if n == 2 {
      e := e[1 := 46];
    }
    e := e[11 := 16];
    e := W16(W16(e, 20, cluster / 65536), 26, cluster % 65536);
    e := W16(W16(W16(e, 16, 0x21), 18, 0x21), 24, 0x21);
  }

  lemma DotName(e: Entry, n: nat)
    requires DotEntry(e, n)
    ensures ShortName(e).Ok? && Dots(ShortName(e).value)
  {
    var base, extension := e[0..8], e[8..11];
    assert Padded(extension) == [];
    if n == 1 {
      assert Padded(base[1..]) == [];
      assert Padded(base) == [46];
    } else {
      assert Padded(base[1..][1..]) == [];
      assert Padded(base[1..]) == [46];
      assert Padded(base) == [46, 46];
    }
    LoweredNot(Padded(base));
  }

  lemma DotSkipped(sc: Scanner<Lfn>, entries: seq<Entry>, slot: nat, n: nat)
    requires Fat(sc) && slot < |entries| && slot < LIMIT && DotEntry(entries[slot], n)
    ensures sc.step(Clean(), entries, slot) == Skip(Clean(), 1)
  {
    StepIs(sc, entries, slot, Clean());
    DotName(entries[slot], n);
  }

  /** The first cluster of a new directory reads as empty, and has no stale entries. */
  method PutDirectory(self: nat, parent: nat, per: nat, ghost sc: Scanner<Lfn>) returns (entries: seq<Entry>)
    requires Fat(sc) && 2 <= per && self < 0x1_0000_0000 && parent < 0x1_0000_0000
    ensures |entries| == per && Tidy(true, entries)
    ensures forall a :: Scan(sc, a, entries, 0, Clean(), []) == Ok([])
  {
    var dot := PutDot(1, self);
    var dots := PutDot(2, parent);
    entries := [dot, dots] + seq(per - 2, _ => ZeroEntry());
    DirectoryEmpty(sc, entries);
  }

  lemma DirectoryEmpty(sc: Scanner<Lfn>, x: seq<Entry>)
    requires Fat(sc) && 2 <= |x| && DotEntry(x[0], 1) && DotEntry(x[1], 2)
    requires forall i :: 2 <= i < |x| ==> x[i] == ZeroEntry()
    ensures Tidy(true, x) && forall a :: Scan(sc, a, x, 0, Clean(), []) == Ok([])
  {
    DotSkipped(sc, x, 0, 1);
    DotSkipped(sc, x, 1, 2);
    assert x[0][0] == 46 && x[1][0] == 46 && (2 < |x| ==> x[2][0] == 0);
    assert End(x, 0) == 2;
    forall a ensures Scan(sc, a, x, 0, Clean(), []) == Ok([]) {
      ScanStep(sc, a, x, 0, Clean(), [], Skip(Clean(), 1));
      ScanStep(sc, a, x, 1, Clean(), [], Skip(Clean(), 1));
    }
  }
}
