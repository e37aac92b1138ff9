/**
 `remove` on an exFAT directory (src/fs/fat_fs.cpp): the next scan yields every
 other file, and no erased entry can be taken for the end mark.
 */
module ExfatRemoval {
  import opened Outcomes
  import opened FatLabels
  import opened FatScanning
  import opened ExfatNames
  import opened FatErasure
  import opened Seals

  /** The first bytes of an entry set. */
  ghost predicate InUse(x: seq<Entry>, p: nat, n: nat) {
    p + n <= |x| && forall i :: p <= i < p + n ==> x[i][0] > 0x80
  }

  /** A step that yields a file covers just the slots of that file. */
  lemma StepSpan(sc: Scanner<()>, root: bool, x: seq<Entry>, slot: nat)
    requires Exfat(sc, root) && !sc.step((), x, slot).Fail?
    ensures var s := sc.step((), x, slot);
            s.Find? ==> s.file.slot == slot && s.file.slots == s.width > 0 && InUse(x, slot, s.width)
  {
    StepAt(sc, root, (), x, slot);
    if SetLeads(x, slot) {
      var n := x[slot][1] as nat + 1;
      var r := StepSet(sc, root, (), x, slot);
      JoinedFirst(x, slot, n);
      SetSpan(x, slot, n, r.value);
    } else {
      StepAlone(sc, root, (), x, slot);
    }
  }

  lemma SetSpan(x: seq<Entry>, slot: nat, n: nat, f: File)
    requires slot + n <= |x| && 3 <= n && x[slot][0] == 0x85 && SetReadsAs(Joined(x, slot, n), slot, Ok(f))
    ensures f.slot == slot && f.slots == n && InUse(x, slot, n)
  {
    var b := Joined(x, slot, n);
    assert f.slot == slot && f.slots == n by {
      assert Opened(SetSeal, 0);
      JoinedFirst(x, slot, n);
    }
    forall i | slot <= i < slot + n ensures x[i][0] > 0x80 {
      JoinedByte(x, slot, n, i - slot);
      if i > slot {
        ReadsInUse(b, slot, f, i - slot);
      }
    }
  }

  lemma {:induction false} Traced(sc: Scanner<()>, root: bool, a: Answers, x: seq<Entry>, slot: nat, seen: seq<File>,
                                  files: seq<File>, k: nat)
    requires Exfat(sc, root) && Scan(sc, a, x, slot, (), seen) == Ok(files) && |seen| <= k < |files|
    ensures var f := files[k];
            && 0 < f.slots && slot <= f.slot && f.slot + f.slots <= LIMIT && InUse(x, f.slot, f.slots)
            && Visits(sc, a, x, slot, (), seen, f.slot, (), files[..k])
            && Scan(sc, a, x, f.slot + f.slots, (), files[..k] + [f]) == Ok(files)
    decreases LIMIT - slot
  {
    ScanExtends(sc, a, x, slot, (), seen);
    assert slot < |x| && x[slot][0] != 0;
    ScanGoes(sc, a, x, slot, (), seen, files);
    StepSpan(sc, root, x, slot);
    var s := sc.step((), x, slot);
    assert s.next == ();
    ScanExtends(sc, a, x, slot + s.width, s.next, Seen(seen, s));
    if s.Find? && k == |seen| {
      assert files[k] == s.file && files[..k] == seen;
      assert slot + s.width <= LIMIT;
    } else {
      Traced(sc, root, a, x, slot + s.width, Seen(seen, s), files, k);
    }
  }

  /** The loop that erases the entries of a file. */
  method Erase(x: seq<Entry>, f: File) returns (y: seq<Entry>)
    requires InUse(x, f.slot, f.slots)
    ensures Erased(false, x, y, f.slot, f.slots)
    ensures forall i :: f.slot <= i < f.slot + f.slots ==> y[i] == x[i][0 := x[i][0] % 128]
  {
    y := x;
    for i := 0 to f.slots
      invariant |y| == |x| && forall k :: 0 <= k < |x| && !(f.slot <= k < f.slot + i) ==> y[k] == x[k]
      invariant forall k :: f.slot <= k < f.slot + i ==> y[k] == x[k][0 := x[k][0] % 128]
    {
      y := y[f.slot + i := y[f.slot + i][0 := y[f.slot + i][0] % 128]];
    }
  }

  /** What erasing file number `k` of `shown` leaves. */
  lemma Gone(sc: Scanner<()>, root: bool, a: Answers, x: seq<Entry>, y: seq<Entry>, shown: seq<File>, k: nat)
    requires Exfat(sc, root) && Scan(sc, a, x, 0, (), []) == Ok(shown) && k < |shown|
    requires Erased(false, x, y, shown[k].slot, shown[k].slots)
    ensures Scan(sc, a, y, 0, (), []) == Ok(Without(shown, k)) && (Tidy(false, x) ==> Tidy(false, y))
  {
    ExfatLawful(sc, root);
    Traced(sc, root, a, x, 0, [], shown, k);
    ErasedShown(sc, a, x, y, shown, k, ());
    if Tidy(false, x) {
      TidyErased(false, x, y, shown[k].slot, shown[k].slots);
    }
  }

  /** `remove`, on the directory: the next scan yields every other file, in order. */
  method Remove(a: Answers, entries: seq<Entry>, files: seq<File>, name: Text, directory: bool, busy: bool,
                root: bool, ghost sc: Scanner<()>, ghost shown: seq<File>)
    returns (s: Status, out: seq<Entry>, index: nat, ghost k: nat)
    requires Exfat(sc, root) && Scan(sc, a, entries, 0, (), []) == Ok(shown) && multiset(files) == multiset(shown)
    ensures Dots(name) ==> s == InvalidArgument
    ensures !Dots(name) && !Matched(shown, name) ==> s == NotFound
    ensures !Dots(name) && Matched(shown, name) ==>
              && index < |files| && k < |shown| && files[index] == shown[k] && Fold(name) in Takes(shown[k].names)
              && s == Objection(shown[k], directory, busy)
    ensures s == Success ==>
              && k < |shown| && Erased(false, entries, out, shown[k].slot, shown[k].slots)
              && Scan(sc, a, out, 0, (), []) == Ok(Without(shown, k)) && (Tidy(false, entries) ==> Tidy(false, out))
    ensures s != Success ==> out == entries
  {
    out, index, k := entries, 0, 0;
    SameTaken(files, shown);
    if Dots(name) {
      return InvalidArgument, out, index, k;
    }
    var found;
    found, index := Lookup(files, name);
    if !found {
      return NotFound, out, index, k;
    }
    var f := files[index];
    assert f in multiset(shown);
    k :| 0 <= k < |shown| && shown[k] == f;
    s := Objection(f, directory, busy);
    if s != Success {
      return s, out, index, k;
    }
    Traced(sc, root, a, entries, 0, [], shown, k);
    out := Erase(entries, f);
    Gone(sc, root, a, entries, out, shown, k);
  }

  /** The first cluster of a new directory is zeroed: it reads as empty, and has no stale entries. */
  lemma DirectoryEmpty(sc: Scanner<()>, root: bool, a: Answers, x: seq<Entry>)
    requires Exfat(sc, root) && forall i :: 0 <= i < |x| ==> x[i] == ZeroEntry()
    ensures Tidy(false, x) && Scan(sc, a, x, 0, (), []) == Ok([])
  {
  }
}
