/**
 What erasing the entries of a file does to the scan of a FAT or exFAT directory
 (src/fs/fat_fs.cpp): every other file is found as before.
 */
module FatErasure {
  import opened Outcomes
  import opened FatLabels
  import opened FatScanning
  import opened Seals

  /** The scan from `slot` comes to slot `to` in state `at`, with the files `found`. */
  ghost predicate Visits<S>(sc: Scanner<S>, a: Answers, x: seq<Entry>, slot: nat, st: S, seen: seq<File>, to: nat,
                            at: S, found: seq<File>)
    decreases LIMIT - slot
  {
    if slot >= to then slot == to && st == at && seen == found
    else
      && slot < LIMIT && slot < |x| && x[slot][0] != 0 && Goes(a, seen, sc.step(st, x, slot))
      && var s := sc.step(st, x, slot);
         Visits(sc, a, x, slot + s.width, s.next, Seen(seen, s), to, at, found)
  }

  /** The scan goes on after this step. */
  predicate Goes<S>(a: Answers, seen: seq<File>, s: Step<S>) {
    !s.Fail? && s.width > 0 && (s.Find? ==> Admit(a, seen, s.file) == Success)
  }

  function Seen<S>(seen: seq<File>, s: Step<S>): seq<File> { if s.Find? then seen + [s.file] else seen }

  /** A scan that comes to an end goes on after each of its steps. */
  lemma ScanGoes<S>(sc: Scanner<S>, a: Answers, x: seq<Entry>, slot: nat, st: S, seen: seq<File>, files: seq<File>)
    requires Scan(sc, a, x, slot, st, seen) == Ok(files) && slot < |x| && x[slot][0] != 0
    ensures slot < LIMIT && Goes(a, seen, sc.step(st, x, slot))
    ensures var s := sc.step(st, x, slot); Scan(sc, a, x, slot + s.width, s.next, Seen(seen, s)) == Ok(files)
  {
  }

  lemma {:induction false} VisitsScan<S>(sc: Scanner<S>, a: Answers, x: seq<Entry>, slot: nat, st: S, seen: seq<File>,
                                         to: nat, at: S, found: seq<File>)
    requires Visits(sc, a, x, slot, st, seen, to, at, found)
    ensures Scan(sc, a, x, slot, st, seen) == Scan(sc, a, x, to, at, found)
    decreases LIMIT - slot
  {
    if slot < to {
      var s := sc.step(st, x, slot);
      VisitsScan(sc, a, x, slot + s.width, s.next, Seen(seen, s), to, at, found);
    }
  }

  lemma {:induction false} VisitsWithin<S>(sc: Scanner<S>, a: Answers, x: seq<Entry>, slot: nat, st: S,
                                           seen: seq<File>, to: nat, at: S, found: seq<File>)
    requires Visits(sc, a, x, slot, st, seen, to, at, found)
    ensures slot <= to
  {
  }

  /** The way to a slot depends on the slots before it alone. */
  lemma {:induction false} VisitsSame<S(!new)>(sc: Scanner<S>, a: Answers, x: seq<Entry>, y: seq<Entry>, slot: nat,
                                               st: S, seen: seq<File>, to: nat, at: S, found: seq<File>)
    requires Lawful(sc) && Visits(sc, a, x, slot, st, seen, to, at, found)
    requires to <= |x| == |y| && forall i :: 0 <= i < to ==> x[i] == y[i]
    ensures Visits(sc, a, y, slot, st, seen, to, at, found)
    decreases LIMIT - slot
  {
    if slot < to {
      var s := sc.step(st, x, slot);
      var next := slot + s.width;
      VisitsWithin(sc, a, x, next, s.next, Seen(seen, s), to, at, found);
      LawBetween(sc, st, x, y, slot);
      assert x[slot..next] == y[slot..next];
      VisitsSame(sc, a, x, y, next, s.next, Seen(seen, s), to, at, found);
    }
  }

  /** The files `seen` take up no more than the files `more`. */
  ghost predicate Fewer(seen: seq<File>, more: seq<File>) {
    forall k :: Opened(AcceptSeal, k) ==> Taken(seen) <= Taken(more) && |seen| <= |more|
  }

  /** What was admitted after more files is admitted after fewer. */
  lemma AdmitLess(a: Answers, seen: seq<File>, more: seq<File>, g: File)
    requires Fewer(seen, more) && Admit(a, more, g) == Success
    ensures Admit(a, seen, g) == Success && Fewer(seen + [g], more + [g])
  {
    assert Opened(AcceptSeal, 0);
    TakenMore(seen, g);
    TakenMore(more, g);
  }

  /** A step that the scan goes on after, whatever was seen. */
  lemma StepGoes<S>(sc: Scanner<S>, a: Answers, x: seq<Entry>, slot: nat, st: S, seen: seq<File>, s: Step<S>)
    requires slot < |x| && slot < LIMIT && x[slot][0] != 0 && sc.step(st, x, slot) == s && Goes(a, seen, s)
    ensures Scan(sc, a, x, slot, st, seen) == Scan(sc, a, x, slot + s.width, s.next, Seen(seen, s))
  {
    ScanStep(sc, a, x, slot, st, seen, s);
  }

  lemma ScanEnds<S>(sc: Scanner<S>, a: Answers, x: seq<Entry>, slot: nat, st: S, seen: seq<File>, more: seq<File>,
                    rest: seq<File>)
    requires Scan(sc, a, x, slot, st, more) == Ok(more + rest) && (slot >= |x| || x[slot][0] == 0)
    ensures rest == [] && Scan(sc, a, x, slot, st, seen) == Ok(seen)
  {
    assert more == more + rest;
  }

  /** Fewer names in use do not stop a scan. */
  lemma {:induction false} ScanLess<S>(sc: Scanner<S>, a: Answers, x: seq<Entry>, slot: nat, st: S, seen: seq<File>,
                                       more: seq<File>, rest: seq<File>)
    requires Scan(sc, a, x, slot, st, more) == Ok(more + rest) && Fewer(seen, more)
    ensures Scan(sc, a, x, slot, st, seen) == Ok(seen + rest)
    decreases LIMIT - slot
  {
    if slot < |x| && x[slot][0] != 0 {
      ScanGoes(sc, a, x, slot, st, more, more + rest);
      var s := sc.step(st, x, slot);
      if s.Skip? {
        StepGoes(sc, a, x, slot, st, seen, s);
        ScanLess(sc, a, x, slot + s.width, s.next, seen, more, rest);
      } else {
        FindLess(sc, a, x, slot, st, seen, more, rest, s);
        ScanLess(sc, a, x, slot + s.width, s.next, seen + [s.file], more + [s.file], rest[1..]);
      }
    } else {
      ScanEnds(sc, a, x, slot, st, seen, more, rest);
      assert seen + rest == seen;
    }
  }

  /** One step of that, at a slot that yields a file. */
  lemma FindLess<S>(sc: Scanner<S>, a: Answers, x: seq<Entry>, slot: nat, st: S, seen: seq<File>, more: seq<File>,
                    rest: seq<File>, s: Step<S>)
    requires slot < |x| && slot < LIMIT && x[slot][0] != 0 && sc.step(st, x, slot) == s && s.Find? && Goes(a, more, s)
    requires Scan(sc, a, x, slot + s.width, s.next, more + [s.file]) == Ok(more + rest)
    requires Fewer(seen, more)
    ensures rest != [] && Fewer(seen + [s.file], more + [s.file])
    ensures Scan(sc, a, x, slot + s.width, s.next, more + [s.file]) == Ok((more + [s.file]) + rest[1..])
    ensures Scan(sc, a, x, slot, st, seen) == Scan(sc, a, x, slot + s.width, s.next, seen + [s.file])
    ensures seen + rest == (seen + [s.file]) + rest[1..]
  {
    ScanExtends(sc, a, x, slot + s.width, s.next, more + [s.file]);
    RestSplit(seen, more, s.file, rest);
    AdmitLess(a, seen, more, s.file);
    StepGoes(sc, a, x, slot, st, seen, s);
  }

  lemma RestSplit(seen: seq<File>, more: seq<File>, g: File, rest: seq<File>)
    requires more + [g] <= more + rest
    ensures rest != [] && more + rest == (more + [g]) + rest[1..] && seen + rest == (seen + [g]) + rest[1..]
  {
    assert (more + rest)[|more|] == g;
  }

  function Without(files: seq<File>, k: nat): seq<File>
    requires k < |files|
  {
    files[..k] + files[k + 1..]
  }

  /** What `remove` says of the file it has found; `busy` says that a directory has files in it. */
  function Objection(f: File, directory: bool, busy: bool): Status {
    if f.directory != directory then InvalidArgument
    else if f.readonly then Denied
    else if f.directory && busy then Busy
    else Success
  }

  /** The slots of the run are erased, and none of them looks like the end mark; every other slot is as before. */
  ghost predicate Erased(fat32: bool, x: seq<Entry>, y: seq<Entry>, p: nat, n: nat) {
    Filled(x, y, p, n) && forall i :: p <= i < p + n ==> Free(fat32, y[i]) && y[i][0] != 0
  }

  /** The scan finds its file number `k` in the slots from `p` on. */
  ghost predicate Stands<S>(sc: Scanner<S>, a: Answers, x: seq<Entry>, files: seq<File>, k: nat, at: S)
    requires k < |files|
  {
    var f := files[k];
    && 0 < f.slots && f.slot + f.slots <= |x| && f.slot + f.slots <= LIMIT
    && Visits(sc, a, x, 0, sc.idle, [], f.slot, at, files[..k])
    && Scan(sc, a, x, f.slot + f.slots, sc.idle, files[..k] + [f]) == Ok(files)
  }

  /** Without the entries of one file the scan yields all the others, in order. */
  lemma ErasedShown<S(!new)>(sc: Scanner<S>, a: Answers, x: seq<Entry>, y: seq<Entry>, files: seq<File>, k: nat, at: S)
    requires Lawful(sc) && k < |files| && Stands(sc, a, x, files, k, at)
    requires Erased(sc.fat32, x, y, files[k].slot, files[k].slots)
    ensures Scan(sc, a, y, 0, sc.idle, []) == Ok(Without(files, k))
  {
    var f, found := files[k], files[..k];
    var p, q := f.slot, f.slot + f.slots;
    VisitsSame(sc, a, x, y, 0, sc.idle, [], p, at, found);
    VisitsScan(sc, a, y, 0, sc.idle, [], p, at, found);
    ScanFree(sc, a, y, p, q, at, found);
    RestShown(sc, a, x, y, q, found, f, files[k + 1..], files);
  }

  /** The scan behind the erased slots. */
  lemma RestShown<S(!new)>(sc: Scanner<S>, a: Answers, x: seq<Entry>, y: seq<Entry>, q: nat, found: seq<File>, f: File,
                           rest: seq<File>, files: seq<File>)
    requires Lawful(sc) && q <= |x| == |y| && (forall i :: q <= i < |x| ==> x[i] == y[i])
    requires files == (found + [f]) + rest && Scan(sc, a, x, q, sc.idle, found + [f]) == Ok(files)
    ensures Scan(sc, a, y, q, sc.idle, found) == Ok(found + rest)
  {
    assert x[q..] == y[q..];
    ScanOnward(sc, a, x, y, q, sc.idle, found);
    TakenMore(found, f);
    ScanLess(sc, a, x, q, sc.idle, found, found + [f], rest);
  }

  /** Erasing leaves no stale entries. */
  lemma TidyErased(fat32: bool, x: seq<Entry>, y: seq<Entry>, p: nat, n: nat)
    requires Tidy(fat32, x) && Erased(fat32, x, y, p, n)
    ensures Tidy(fat32, y)
  {
    forall i | 0 <= i < End(x, 0) ensures y[i][0] != 0 {
      assert !(p <= i < p + n) ==> y[i] == x[i];
    }
    assert End(y, 0) >= End(x, 0);
  }
}
