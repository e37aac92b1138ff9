/**
 Reading a FAT or exFAT directory slot by slot (src/fs/fat_fs.cpp), and what a new
 entry set does to it. What one step of the scan does is left to the two formats;
 here is what follows for whole directories, and for the place `free_slots` finds.
 */
module FatScanning {
  import opened Outcomes
  import opened Arithmetic
  import opened FatLabels
  import opened Seals

  const LIMIT: nat := 65536

  type Entry = e: seq<byte> | |e| == 32 witness seq(32, _ => 0)

  function ZeroEntry(): Entry { seq(32, _ => 0) }

  /** One step: the scan fails, goes on, or goes on with one more file. */
  datatype Step<S> = Fail(status: Status) | Skip(next: S, width: nat) | Find(file: File, next: S, width: nat)

  /** `step(state, entries, slot)` is what the scan makes of a slot that is not the end mark. */
  datatype Scanner<!S> = Scanner(fat32: bool, idle: S, step: (S, seq<Entry>, nat) -> Step<S>)

  /** What a scan from `slot` on comes to, after the files `seen`. */
  function Scan<S>(sc: Scanner<S>, a: Answers, entries: seq<Entry>, slot: nat, st: S,
                   seen: seq<File>): Result<seq<File>>
    decreases LIMIT - slot
  {
    if slot >= LIMIT then Err(Overflow)
    else if slot >= |entries| || entries[slot][0] == 0 then Ok(seen)
    else
      match sc.step(st, entries, slot)
      case Fail(s) => Err(s)
      case Skip(next, width) => if width == 0 then Err(Fault) else Scan(sc, a, entries, slot + width, next, seen)
      case Find(f, next, width) =>
        if width == 0 then Err(Fault)
        else if Admit(a, seen, f) != Success then Err(Admit(a, seen, f))
        else Scan(sc, a, entries, slot + width, next, seen + [f])
  }

  /** A slot that `free_slots` may use. */
  predicate Free(fat32: bool, e: Entry) { if fat32 then e[0] == 0 || e[0] == 0xe5 else e[0] < 0x80 }

  // ---------------------------------------------------------------------
  // What both formats obey

  /** A step that does not fail advances, inside the directory, and covers no slot that is free behind its first. */
  predicate Advances<S>(sc: Scanner<S>, st: S, entries: seq<Entry>, slot: nat) {
    var s := sc.step(st, entries, slot);
    slot < |entries| && entries[slot][0] != 0 && !s.Fail? ==>
      0 < s.width && slot + s.width <= |entries| && forall i :: slot < i < slot + s.width ==>
          !Free(sc.fat32, entries[i])
  }

  /** An erased slot is skipped, and nothing before it matters any more. */
  ghost predicate SkipsFree<S>(sc: Scanner<S>, st: S, entries: seq<Entry>, slot: nat) {
    slot < |entries| && entries[slot][0] != 0 && Free(sc.fat32, entries[slot]) ==>
        sc.step(st, entries, slot) == Skip(sc.idle, 1)
  }

  /** A step that does not fail depends on the slots it covers alone. */
  ghost predicate Local<S>(sc: Scanner<S>, st: S, a: seq<Entry>, b: seq<Entry>, slot: nat) {
    var s := sc.step(st, a, slot);
    !s.Fail? && slot + s.width <= |a| && slot + s.width <= |b| && a[slot..slot + s.width] == b[slot..slot + s.width] ==>
      sc.step(st, b, slot) == s
  }

  /** No step depends on the slots before it. */
  ghost predicate Onward<S>(sc: Scanner<S>, st: S, a: seq<Entry>, b: seq<Entry>, slot: nat) {
    slot < |a| == |b| && a[slot..] == b[slot..] ==> sc.step(st, a, slot) == sc.step(st, b, slot)
  }

  ghost predicate Lawful<S(!new)>(sc: Scanner<S>) {
    forall k :: Opened(StepSeal, k) ==>
      && (forall st: S, entries, slot: nat :: Advances(sc, st, entries, slot))
      && (forall st: S, entries, slot: nat :: SkipsFree(sc, st, entries, slot))
      && (forall st: S, a, b, slot: nat :: Local(sc, st, a, b, slot))
      && (forall st: S, a, b, slot: nat :: Onward(sc, st, a, b, slot))
  }

  lemma LawAt<S(!new)>(sc: Scanner<S>, st: S, entries: seq<Entry>, slot: nat)
    requires Lawful(sc)
    ensures Advances(sc, st, entries, slot) && SkipsFree(sc, st, entries, slot)
  {
    assert Opened(StepSeal, 0);
  }

  lemma LawBetween<S(!new)>(sc: Scanner<S>, st: S, a: seq<Entry>, b: seq<Entry>, slot: nat)
    requires Lawful(sc)
    ensures Local(sc, st, a, b, slot) && Onward(sc, st, a, b, slot)
  {
    assert Opened(StepSeal, 0);
  }

  // ---------------------------------------------------------------------
  // Scans

  /** How a scan goes on after a step. */
  function After<S>(sc: Scanner<S>, a: Answers, entries: seq<Entry>, slot: nat, seen: seq<File>,
                    s: Step<S>): Result<seq<File>> {
    if s.Fail? then Err(s.status)
    else if s.Skip? then Scan(sc, a, entries, slot + s.width, s.next, seen)
    else if Admit(a, seen, s.file) != Success then Err(Admit(a, seen, s.file))
    else Scan(sc, a, entries, slot + s.width, s.next, seen + [s.file])
  }

  lemma ScanStep<S>(sc: Scanner<S>, a: Answers, entries: seq<Entry>, slot: nat, st: S, seen: seq<File>, s: Step<S>)
    requires slot < |entries| && slot < LIMIT && entries[slot][0] != 0 && sc.step(st, entries, slot) == s
    requires s.Fail? || s.width > 0
    ensures Scan(sc, a, entries, slot, st, seen) == After(sc, a, entries, slot, seen, s)
  {
  }

  /** What a scan finds, it finds after what it has seen. */
  lemma {:induction false} ScanExtends<S>(sc: Scanner<S>, a: Answers, entries: seq<Entry>, slot: nat, st: S,
                                          seen: seq<File>)
    ensures var r := Scan(sc, a, entries, slot, st, seen); r.Ok? ==> seen <= r.value
    decreases LIMIT - slot
  {
    if slot < LIMIT && slot < |entries| && entries[slot][0] != 0 {
      var s := sc.step(st, entries, slot);
      if s.Skip? && s.width > 0 {
        ScanExtends(sc, a, entries, slot + s.width, s.next, seen);
      } else if s.Find? && s.width > 0 {
        ScanExtends(sc, a, entries, slot + s.width, s.next, seen + [s.file]);
      }
    }
  }

  ghost predicate AllValid(files: seq<File>) { forall i :: 0 <= i < |files| ==> NameValid(files[i].names.name) }

  /** The files are acceptable, have room, and share no name or alias. */
  ghost predicate Accepted(a: Answers, files: seq<File>) {
    forall k :: Opened(AcceptSeal, k) ==>
      Distinct(files) && AllValid(files) && |files| <= a.room && forall i :: 0 <= i < |files| ==>
          Acceptable(a, files[i])
  }

  lemma AcceptedMore(a: Answers, seen: seq<File>, f: File)
    requires Accepted(a, seen) && Admit(a, seen, f) == Success
    ensures Accepted(a, seen + [f])
  {
    assert Opened(AcceptSeal, 0);
    AdmitIff(a, seen, f);
    DistinctMore(seen, f);
  }

  /** A scan accepts only files that are acceptable and whose names and aliases are all different. */
  lemma {:induction false} ScanSound<S>(sc: Scanner<S>, a: Answers, entries: seq<Entry>, slot: nat, st: S,
                                        seen: seq<File>)
    requires Accepted(a, seen)
    ensures var r := Scan(sc, a, entries, slot, st, seen); r.Ok? ==> Accepted(a, r.value)
    decreases LIMIT - slot
  {
    if slot < LIMIT && slot < |entries| && entries[slot][0] != 0 {
      var s := sc.step(st, entries, slot);
      if s.Skip? && s.width > 0 {
        ScanSound(sc, a, entries, slot + s.width, s.next, seen);
      } else if s.Find? && s.width > 0 && Admit(a, seen, s.file) == Success {
        AcceptedMore(a, seen, s.file);
        ScanSound(sc, a, entries, slot + s.width, s.next, seen + [s.file]);
      }
    }
  }

  lemma DistinctMore(files: seq<File>, f: File)
    ensures Distinct(files + [f]) <==> Distinct(files) && Takes(f.names) !! Taken(files)
  {
    var more := files + [f];
    forall x ensures x in Taken(files) <==> exists i :: 0 <= i < |files| && x in Takes(files[i].names) {
      TakenAt(files, x);
    }
    if Distinct(more) {
      assert forall i :: 0 <= i < |files| ==> more[i] == files[i];
      assert more[|files|] == f;
    }
    if Distinct(files) && Takes(f.names) !! Taken(files) {
      forall i, j | 0 <= i < j < |more| ensures Takes(more[i].names) !! Takes(more[j].names) {
        if j == |files| {
          assert forall x :: x in Takes(files[i].names) ==> x in Taken(files);
        }
      }
    }
  }

  /** Every one of the files is admitted after those before it. */
  ghost predicate Accepts(a: Answers, seen: seq<File>, files: seq<File>)
    decreases |files|
  {
    files == [] || (Admit(a, seen, files[0]) == Success && Accepts(a, seen + [files[0]], files[1..]))
  }

  /** So they are just when each is acceptable, there is room for all, and no name or alias occurs twice. */
  lemma {:induction false} AcceptsIff(a: Answers, seen: seq<File>, files: seq<File>)
    requires AllValid(seen) && Distinct(seen) && |seen| <= a.room
    ensures Accepts(a, seen, files) <==>
            Distinct(seen + files) && |seen + files| <= a.room && forall i :: 0 <= i < |files| ==>
                Acceptable(a, files[i])
    decreases |files|
  {
    if files == [] {
      assert seen + files == seen;
    } else {
      var f, rest := files[0], files[1..];
      AdmitIff(a, seen, f);
      DistinctMore(seen, f);
      assert seen + files == (seen + [f]) + rest;
      if Admit(a, seen, f) == Success {
        AcceptsIff(a, seen + [f], rest);
        assert forall i :: 0 <= i < |rest| ==> rest[i] == files[i + 1];
      } else if Distinct(seen + files) {
        assert Distinct(seen + [f]) by {
          assert forall i :: 0 <= i < |seen + [f]| ==> (seen + [f])[i] == (seen + files)[i];
        }
      }
    }
  }

  /** The scan of what follows a file's entries. */
  ghost function Following<S>(sc: Scanner<S>, a: Answers, y: seq<Entry>, q: nat, found: seq<File>,
                              f: File): Result<seq<File>> {
    if Admit(a, found, f) != Success then Err(Admit(a, found, f)) else Scan(sc, a, y, q, sc.idle, found + [f])
  }

  // What a scan comes to, folded

  /** The scan goes on from one place to the other. */
  ghost predicate Leads<S>(sc: Scanner<S>, a: Answers, entries: seq<Entry>, slot: nat, st: S, to: nat, at: S,
                           seen: seq<File>) {
    forall k :: Opened(ScanSeal, k) ==> Scan(sc, a, entries, slot, st, seen) == Scan(sc, a, entries, to, at, seen)
  }

  lemma LeadsOn<S>(sc: Scanner<S>, a: Answers, entries: seq<Entry>, slot: nat, st: S, next: S, to: nat, at: S,
                   seen: seq<File>)
    requires slot < |entries| && slot < LIMIT && entries[slot][0] != 0 && sc.step(st, entries, slot) == Skip(next, 1)
    requires Leads(sc, a, entries, slot + 1, next, to, at, seen)
    ensures Leads(sc, a, entries, slot, st, to, at, seen)
  {
    assert Opened(ScanSeal, 0);
    ScanStep(sc, a, entries, slot, st, seen, Skip(next, 1));
  }

  /** From `slot` on the scan finds `f` and goes on behind its entries. */
  ghost predicate Reads<S>(sc: Scanner<S>, a: Answers, entries: seq<Entry>, slot: nat, st: S, seen: seq<File>,
                           f: File) {
    forall k :: Opened(ScanSeal, k) ==>
      Scan(sc, a, entries, slot, st, seen) == Following(sc, a, entries, slot + f.slots, seen, f)
  }

  /** Where a scan leads to a slot that yields `f`, it reads `f`. */
  lemma ReadsBy<S>(sc: Scanner<S>, a: Answers, entries: seq<Entry>, slot: nat, st: S, to: nat, at: S, seen: seq<File>,
                   f: File)
    requires Leads(sc, a, entries, slot, st, to, at, seen) && to < |entries| && to < LIMIT && entries[to][0] != 0
    requires sc.step(at, entries, to).Find? && sc.step(at, entries, to).file == f
    requires sc.step(at, entries, to).next == sc.idle
    requires 0 < sc.step(at, entries, to).width && to + sc.step(at, entries, to).width == slot + f.slots
    ensures Reads(sc, a, entries, slot, st, seen, f)
  {
    assert Opened(ScanSeal, 0);
    ScanStep(sc, a, entries, to, at, seen, sc.step(at, entries, to));
  }

  /** The scan yields these files if all of them are admitted, and fails otherwise. */
  ghost predicate Yields<S>(sc: Scanner<S>, a: Answers, entries: seq<Entry>, slot: nat, st: S, seen: seq<File>,
                            files: seq<File>) {
    forall k :: Opened(ScanSeal, k) ==>
      var r := Scan(sc, a, entries, slot, st, seen);
      if Accepts(a, seen, files) then r == Ok(seen + files) else r.Err?
  }

  lemma YieldsNothing<S>(sc: Scanner<S>, a: Answers, entries: seq<Entry>, slot: nat, st: S, seen: seq<File>)
    requires slot < LIMIT && (slot >= |entries| || entries[slot][0] == 0)
    ensures Yields(sc, a, entries, slot, st, seen, [])
  {
    assert seen + [] == seen;
  }

  lemma YieldsBehind<S>(sc: Scanner<S>, a: Answers, entries: seq<Entry>, slot: nat, st: S, next: S, seen: seq<File>,
                        files: seq<File>)
    requires slot < |entries| && slot < LIMIT && entries[slot][0] != 0 && sc.step(st, entries, slot) == Skip(next, 1)
    requires Yields(sc, a, entries, slot + 1, next, seen, files)
    ensures Yields(sc, a, entries, slot, st, seen, files)
  {
    assert Opened(ScanSeal, 0);
    ScanStep(sc, a, entries, slot, st, seen, Skip(next, 1));
  }

  lemma YieldsFirst<S>(sc: Scanner<S>, a: Answers, entries: seq<Entry>, slot: nat, st: S, seen: seq<File>,
                       files: seq<File>)
    requires files != [] && Reads(sc, a, entries, slot, st, seen, files[0])
    requires Yields(sc, a, entries, slot + files[0].slots, sc.idle, seen + [files[0]], files[1..])
    ensures Yields(sc, a, entries, slot, st, seen, files)
  {
    assert Opened(ScanSeal, 0);
    assert seen + files == (seen + [files[0]]) + files[1..];
  }

  /** So the whole directory is read back just when its files are acceptable, have room and share no name or alias. */
  lemma YieldsIff<S>(sc: Scanner<S>, a: Answers, entries: seq<Entry>, st: S, files: seq<File>)
    requires Yields(sc, a, entries, 0, st, [], files)
    ensures var r := Scan(sc, a, entries, 0, st, []);
            if Distinct(files) && |files| <= a.room && forall i :: 0 <= i < |files| ==> Acceptable(a, files[i])
            then r == Ok(files) else r.Err?
  {
    assert Opened(ScanSeal, 0);
    AcceptsIff(a, [], files);
    assert [] + files == files;
  }

  /** A scan does not depend on the slots before it. */
  lemma {:induction false} ScanOnward<S(!new)>(sc: Scanner<S>, a: Answers, x: seq<Entry>, y: seq<Entry>, slot: nat,
                                        st: S, seen: seq<File>)
    requires Lawful(sc) && slot <= |x| == |y| && x[slot..] == y[slot..]
    ensures Scan(sc, a, x, slot, st, seen) == Scan(sc, a, y, slot, st, seen)
    decreases LIMIT - slot
  {
    if slot < LIMIT && slot < |x| && x[slot][0] != 0 {
      assert x[slot] == x[slot..][0] == y[slot..][0] == y[slot];
      LawAt(sc, st, x, slot);
      LawBetween(sc, st, x, y, slot);
      var s := sc.step(st, x, slot);
      if !s.Fail? {
        var next := slot + s.width;
        assert x[next..] == x[slot..][s.width..] && y[next..] == y[slot..][s.width..];
        ScanOnward(sc, a, x, y, next, s.next, if s.Find? then seen + [s.file] else seen);
      }
    }
  }

  /** Erased slots are passed over. */
  lemma {:induction false} ScanFree<S(!new)>(sc: Scanner<S>, a: Answers, entries: seq<Entry>, p: nat, q: nat, st: S,
                                      seen: seq<File>)
    requires Lawful(sc) && p < q <= |entries| && q <= LIMIT
    requires forall i :: p <= i < q ==> Free(sc.fat32, entries[i]) && entries[i][0] != 0
    ensures Scan(sc, a, entries, p, st, seen) == Scan(sc, a, entries, q, sc.idle, seen)
    decreases q - p
  {
    LawAt(sc, st, entries, p);
    if p + 1 < q {
      ScanFree(sc, a, entries, p + 1, q, sc.idle, seen);
    }
  }

  /** `more` are the files `seen` and one more, in whatever order. */
  ghost predicate Besides(seen: seq<File>, more: seq<File>, f: File) {
    Taken(more) == Taken(seen) + Takes(f.names) && |more| == |seen| + 1 && AllValid(seen) && AllValid(more)
  }

  lemma AdmitBesides(a: Answers, seen: seq<File>, more: seq<File>, f: File, g: File)
    requires Besides(seen, more, f) && Admit(a, seen, g) == Success && |more| < a.room
    requires Takes(g.names) !! Takes(f.names)
    ensures Admit(a, more, g) == Success && Besides(seen + [g], more + [g], f)
  {
    AdmitIff(a, seen, g);
    AdmitIff(a, more, g);
    TakenMore(seen, g);
    TakenMore(more, g);
  }

  /** One more name in use does not stop a scan that finds no file of that name, as long as there is room. */
  lemma {:induction false} ScanBesides<S>(sc: Scanner<S>, a: Answers, entries: seq<Entry>, slot: nat, st: S,
                                          seen: seq<File>, more: seq<File>, f: File, rest: seq<File>)
    requires Scan(sc, a, entries, slot, st, seen) == Ok(seen + rest) && Besides(seen, more, f)
    requires |more| + |rest| <= a.room
    requires forall i :: 0 <= i < |rest| ==> Takes(rest[i].names) !! Takes(f.names)
    ensures Scan(sc, a, entries, slot, st, more) == Ok(more + rest)
    decreases LIMIT - slot
  {
    if slot < |entries| && entries[slot][0] != 0 {
      var s := sc.step(st, entries, slot);
      if s.Skip? {
        ScanBesides(sc, a, entries, slot + s.width, s.next, seen, more, f, rest);
      } else {
        var g := s.file;
        ScanExtends(sc, a, entries, slot + s.width, s.next, seen + [g]);
        assert (seen + rest)[|seen|] == g;
        assert seen + rest == (seen + [g]) + rest[1..] && more + rest == (more + [g]) + rest[1..];
        AdmitBesides(a, seen, more, f, g);
        ScanBesides(sc, a, entries, slot + s.width, s.next, seen + [g], more + [g], f, rest[1..]);
      }
    } else {
      assert rest == [] && more + rest == more;
    }
  }

  function Nobody(): Answers { Answers(0, f => Success) }

  /** The rest of the directory reads as nothing: neither a file nor an error is met. */
  ghost predicate Quiet<S>(sc: Scanner<S>, entries: seq<Entry>, slot: nat) {
    Scan(sc, Nobody(), entries, slot, sc.idle, []) == Ok([])
  }

  lemma {:induction false} QuietIff<S>(sc: Scanner<S>, a: Answers, entries: seq<Entry>, slot: nat, st: S,
                                       seen: seq<File>)
    ensures Scan(sc, a, entries, slot, st, seen) == Ok(seen) <==> Scan(sc, Nobody(), entries, slot, st, []) == Ok([])
    decreases LIMIT - slot
  {
    if slot < LIMIT && slot < |entries| && entries[slot][0] != 0 {
      var s := sc.step(st, entries, slot);
      if s.Skip? && s.width > 0 {
        QuietIff(sc, a, entries, slot + s.width, s.next, seen);
      } else if s.Find? && s.width > 0 {
        ScanExtends(sc, a, entries, slot + s.width, s.next, seen + [s.file]);
        assert Admit(Nobody(), [], s.file) != Success;
      }
    }
  }

  // ---------------------------------------------------------------------
  // The place of a new set

  /** The end mark, or the end of the directory. */
  function End(entries: seq<Entry>, from: nat): (z: nat)
    requires from <= |entries|
    ensures from <= z <= |entries| && (z < |entries| ==> entries[z][0] == 0)
    ensures forall i :: from <= i < z ==> entries[i][0] != 0
    decreases |entries| - from
  {
    if from == |entries| || entries[from][0] == 0 then from else End(entries, from + 1)
  }

  ghost predicate RunAt(fat32: bool, entries: seq<Entry>, p: nat, n: nat) {
    p + n <= |entries| && p + n <= LIMIT && forall i :: p <= i < p + n ==> Free(fat32, entries[i])
  }

  ghost predicate FirstRun(fat32: bool, entries: seq<Entry>, p: nat, n: nat) {
    RunAt(fat32, entries, p, n) && forall q: nat :: q < p ==> !RunAt(fat32, entries, q, n)
  }

  /**
   A scan that comes to `files` reaches a free slot with some of them seen, and does so however that
   slot and later ones change.
   */
  lemma {:induction false} Reach<S(!new)>(sc: Scanner<S>, a: Answers, x: seq<Entry>, y: seq<Entry>, slot: nat, p: nat,
                                   st: S, seen: seq<File>,
                                          files: seq<File>) returns (at: S, found: seq<File>)
    requires Lawful(sc) && Scan(sc, a, x, slot, st, seen) == Ok(files)
    requires slot <= p < |x| == |y| && p <= End(x, 0) && Free(sc.fat32, x[p]) && forall i :: 0 <= i < p ==> x[i] == y[i]
    ensures Scan(sc, a, x, p, at, found) == Ok(files) && Scan(sc, a, y, slot, st, seen) == Scan(sc, a, y, p, at, found)
    ensures found <= files
    decreases p - slot
  {
    if slot == p {
      at, found := st, seen;
      ScanExtends(sc, a, x, slot, st, seen);
    } else {
      LawAt(sc, st, x, slot);
      LawBetween(sc, st, x, y, slot);
      var s := sc.step(st, x, slot);
      var next := slot + s.width;
      assert next <= p;
      assert x[slot..next] == y[slot..next];
      at, found := Reach(sc, a, x, y, next, p, s.next, if s.Find? then seen + [s.file] else seen, files);
    }
  }

  // ---------------------------------------------------------------------
  // What a new set does to the scan

  /** A file that none of the others stands in the way of. */
  ghost predicate Fresh(a: Answers, files: seq<File>, f: File) {
    Accepted(a, files) && Acceptable(a, f) && |files| < a.room && Takes(f.names) !! Taken(files)
  }

  lemma FreshAmong(a: Answers, files: seq<File>, f: File, found: seq<File>)
    requires Fresh(a, files, f) && found <= files
    ensures Admit(a, found, f) == Success && Besides(found, found + [f], f)
    ensures forall i :: 0 <= i < |files| ==> Takes(files[i].names) !! Takes(f.names)
  {
    assert Opened(AcceptSeal, 0);
    forall x | x in Taken(found) ensures x in Taken(files) {
      assert found == files[..|found|];
      TakenPrefix(files, |found|, x);
    }
    forall i | 0 <= i < |files| ensures Takes(files[i].names) !! Takes(f.names) {
      forall x | x in Takes(files[i].names) ensures x in Taken(files) {
        TakenAt(files, x);
      }
    }
    AdmitIff(a, found, f);
    TakenMore(found, f);
  }

  /** The slots of the run are filled; every other slot is as before. */
  ghost predicate Filled(x: seq<Entry>, y: seq<Entry>, p: nat, n: nat) {
    |x| == |y| && p + n <= |x| && forall i :: 0 <= i < |x| && !(p <= i < p + n) ==> x[i] == y[i]
  }

  /** The scan yields the old files, in order, and the new one somewhere among them. */
  ghost predicate Joins(r: Result<seq<File>>, files: seq<File>, f: File) {
    r.Ok? && exists k :: 0 <= k <= |files| && r.value == files[..k] + [f] + files[k..]
  }

  /**
   A set in the run is found just when the run does not begin behind the end mark
   and, if it covers the mark, what stands behind the run reads as nothing.
   */
  ghost predicate Visible<S>(sc: Scanner<S>, x: seq<Entry>, p: nat, n: nat) {
    p <= End(x, 0) && (p + n <= End(x, 0) || Quiet(sc, x, p + n))
  }

  /** In front of the end mark a new file joins those found before and behind it. */
  lemma JoinsInside<S(!new)>(sc: Scanner<S>, a: Answers, x: seq<Entry>, y: seq<Entry>, p: nat, q: nat, f: File,
                             files: seq<File>, at: S, found: seq<File>)
    requires Lawful(sc) && Fresh(a, files, f) && p < q <= LIMIT && q <= |x| == |y| && x[q..] == y[q..]
    requires forall i :: p <= i < q ==> Free(sc.fat32, x[i]) && x[i][0] != 0
    requires Scan(sc, a, x, p, at, found) == Ok(files) && found <= files
    ensures Joins(Following(sc, a, y, q, found, f), files, f)
  {
    ScanFree(sc, a, x, p, q, at, found);
    ScanOnward(sc, a, x, y, q, sc.idle, found);
    FreshAmong(a, files, f, found);
    var rest := files[|found|..];
    assert found + rest == files;
    ScanBesides(sc, a, y, q, sc.idle, found, found + [f], f, rest);
    assert files[..|found|] == found;
  }

  /** A scan that meets nothing but erased slots up to the end mark has found all its files. */
  lemma FoundAll<S(!new)>(sc: Scanner<S>, a: Answers, x: seq<Entry>, p: nat, z: nat, files: seq<File>, at: S,
                   found: seq<File>)
    requires Lawful(sc) && p <= z < |x| && z < LIMIT && x[z][0] == 0
    requires forall i :: p <= i < z ==> Free(sc.fat32, x[i]) && x[i][0] != 0
    requires Scan(sc, a, x, p, at, found) == Ok(files)
    ensures found == files
  {
    if p < z {
      ScanFree(sc, a, x, p, z, at, found);
    }
  }

  /** Over the end mark it comes last, unless something behind it comes back to life. */
  lemma JoinsAtEnd<S(!new)>(sc: Scanner<S>, a: Answers, x: seq<Entry>, y: seq<Entry>, q: nat, f: File, files: seq<File>)
    requires Lawful(sc) && Fresh(a, files, f) && q <= |x| == |y| && x[q..] == y[q..]
    ensures Joins(Following(sc, a, y, q, files, f), files, f) <==> Quiet(sc, x, q)
  {
    FreshAmong(a, files, f, files);
    QuietIff(sc, a, y, q, sc.idle, files + [f]);
    ScanOnward(sc, Nobody(), x, y, q, sc.idle, []);
    ScanExtends(sc, a, y, q, sc.idle, files + [f]);
    JoinsLast(Scan(sc, a, y, q, sc.idle, files + [f]), files, f);
  }

  lemma JoinsLast(r: Result<seq<File>>, files: seq<File>, f: File)
    requires r.Ok? ==> files + [f] <= r.value
    ensures Joins(r, files, f) <==> r == Ok(files + [f])
  {
    if r == Ok(files + [f]) {
      assert files[..|files|] + [f] + files[|files|..] == files + [f];
    }
    if Joins(r, files, f) {
      assert |r.value| == |files| + 1;
      assert r.value == files + [f];
    }
  }

  /** Behind the end mark it is never found. */
  lemma NeverJoins<S(!new)>(sc: Scanner<S>, a: Answers, x: seq<Entry>, y: seq<Entry>, p: nat, n: nat, f: File,
                     files: seq<File>)
    requires Lawful(sc) && Filled(x, y, p, n) && End(x, 0) < p && 0 < n
    requires Scan(sc, a, x, 0, sc.idle, []) == Ok(files)
    ensures Scan(sc, a, y, 0, sc.idle, []) == Ok(files)
  {
    var z := End(x, 0);
    var at, found := Reach(sc, a, x, y, 0, z, sc.idle, [], files);
    assert y[z][0] == 0;
  }

  /** All cases together, for a scan that reaches the run and finds the new file there. */
  lemma JoinsIff<S(!new)>(sc: Scanner<S>, a: Answers, x: seq<Entry>, y: seq<Entry>, p: nat, n: nat, f: File,
                   files: seq<File>,
                          at: S, found: seq<File>)
    requires Lawful(sc) && Fresh(a, files, f) && 0 < n && RunAt(sc.fat32, x, p, n) && Filled(x, y, p, n)
    requires p <= End(x, 0)
    requires Scan(sc, a, x, p, at, found) == Ok(files) && found <= files
    ensures Joins(Following(sc, a, y, p + n, found, f), files, f) <==> Visible(sc, x, p, n)
  {
    assert x[p + n..] == y[p + n..];
    if p + n <= End(x, 0) {
      JoinsInside(sc, a, x, y, p, p + n, f, files, at, found);
    } else {
      FoundAll(sc, a, x, p, End(x, 0), files, at, found);
      JoinsAtEnd(sc, a, x, y, p + n, f, files);
    }
  }

  /** Wherever a scan comes from, at `f.slot` it finds `f` and goes on behind its entries. */
  ghost predicate ReadsAs<S(!new)>(sc: Scanner<S>, a: Answers, y: seq<Entry>, f: File) {
    forall st: S, seen :: Reads(sc, a, y, f.slot, st, seen, f)
  }

  /** A scan reaches the new set with some of the files seen, and reads it. */
  lemma ReachNew<S(!new)>(sc: Scanner<S>, a: Answers, x: seq<Entry>, y: seq<Entry>, f: File, files: seq<File>)
    returns (at: S, found: seq<File>)
    requires Lawful(sc) && RunAt(sc.fat32, x, f.slot, f.slots) && Filled(x, y, f.slot, f.slots) && 0 < f.slots
    requires ReadsAs(sc, a, y, f) && Scan(sc, a, x, 0, sc.idle, []) == Ok(files) && f.slot <= End(x, 0)
    ensures Scan(sc, a, x, f.slot, at, found) == Ok(files) && found <= files
    ensures Scan(sc, a, y, 0, sc.idle, []) == Following(sc, a, y, f.slot + f.slots, found, f)
  {
    at, found := Reach(sc, a, x, y, 0, f.slot, sc.idle, [], files);
    assert Reads(sc, a, y, f.slot, at, found, f) && Opened(ScanSeal, 0);
  }

  /** What a new entry set at a free run of the directory does to the scan of it. */
  lemma ShownIff<S(!new)>(sc: Scanner<S>, a: Answers, x: seq<Entry>, y: seq<Entry>, f: File, files: seq<File>)
    requires Lawful(sc) && RunAt(sc.fat32, x, f.slot, f.slots) && Filled(x, y, f.slot, f.slots) && 0 < f.slots
    requires ReadsAs(sc, a, y, f) && Scan(sc, a, x, 0, sc.idle, []) == Ok(files) && Fresh(a, files, f)
    ensures Joins(Scan(sc, a, y, 0, sc.idle, []), files, f) <==> Visible(sc, x, f.slot, f.slots)
  {
    if f.slot <= End(x, 0) {
      var at, found := ReachNew(sc, a, x, y, f, files);
      JoinsIff(sc, a, x, y, f.slot, f.slots, f, files, at, found);
    } else {
      NeverJoins(sc, a, x, y, f.slot, f.slots, f, files);
    }
  }

  /** A set that fills the last slots below the limit leaves a directory that can no longer be scanned. */
  lemma FullDirectory<S(!new)>(sc: Scanner<S>, a: Answers, x: seq<Entry>, y: seq<Entry>, f: File, files: seq<File>)
    requires Lawful(sc) && RunAt(sc.fat32, x, f.slot, f.slots) && Filled(x, y, f.slot, f.slots) && 0 < f.slots
    requires ReadsAs(sc, a, y, f) && Scan(sc, a, x, 0, sc.idle, []) == Ok(files) && Fresh(a, files, f)
    requires f.slot <= End(x, 0) && f.slot + f.slots == LIMIT
    ensures Scan(sc, a, y, 0, sc.idle, []) == Err(Overflow)
  {
    var at, found := ReachNew(sc, a, x, y, f, files);
    FreshAmong(a, files, f, found);
  }

  // ---------------------------------------------------------------------
  // The search for a run

  /** What the volume answers: the first cluster of a directory, how far the parent may grow, and what if no further. */
  datatype Supply = Supply(cluster: Result<nat>, per: nat, more: nat, refusal: Status) {
    predicate Sound() {
      0 < per && refusal != Success && (cluster.Ok? ==> cluster.value < 0x1_0000_0000) && cluster != Err(Success)
    }
  }

  /** The directory with all the clusters it may have. */
  function Largest(entries: seq<Entry>, per: nat, more: nat): seq<Entry> {
    entries + seq(Times(more, per), _ => ZeroEntry())
  }

  /** There is a run of `count` free slots, or will be. */
  ghost predicate HasRun(fat32: bool, entries: seq<Entry>, count: nat, per: nat, more: nat) {
    exists q: nat :: RunAt(fat32, Largest(entries, per, more), q, count)
  }

  /** What a search that finds none answers. */
  function NoRun(entries: seq<Entry>, per: nat, more: nat, refusal: Status): Status {
    if |Largest(entries, per, more)| < LIMIT then refusal else Overflow
  }

  /** `out` is the directory with some of those clusters. */
  ghost predicate Grew(entries: seq<Entry>, out: seq<Entry>) {
    entries <= out && forall i :: |entries| <= i < |out| ==> out[i] == ZeroEntry()
  }

  lemma GrewWithin(entries: seq<Entry>, out: seq<Entry>, grown: nat, per: nat, more: nat)
    requires Grew(entries, out) && |out| == |entries| + Times(grown, per) && grown <= more
    ensures out <= Largest(entries, per, more) && (grown == more ==> out == Largest(entries, per, more))
  {
    TimesMono(grown, more, per);
  }

  /** A search that ends without a run has missed none. */
  lemma RunMissed(fat32: bool, entries: seq<Entry>, out: seq<Entry>, count: nat, per: nat, more: nat)
    requires out <= Largest(entries, per, more) && (out == Largest(entries, per, more) || |out| >= LIMIT)
    requires forall q: nat :: !RunAt(fat32, out, q, count)
    ensures !HasRun(fat32, entries, count, per, more)
  {
    forall q: nat ensures !RunAt(fat32, Largest(entries, per, more), q, count) {
      assert !RunAt(fat32, out, q, count);
    }
  }

  lemma RunThere(fat32: bool, entries: seq<Entry>, out: seq<Entry>, q: nat, count: nat, per: nat, more: nat)
    requires out <= Largest(entries, per, more) && RunAt(fat32, out, q, count)
    ensures HasRun(fat32, entries, count, per, more)
  {
    assert RunAt(fat32, Largest(entries, per, more), q, count);
  }

  /**
   `free_slots`: the first run of free slots, in a directory that grows by zeroed clusters as long
   as the volume gives any.
   */
  method FreeSlots(fat32: bool, entries: seq<Entry>, count: nat, per: nat, more: nat, refusal: Status)
    returns (r: Result<nat>, out: seq<Entry>, grown: nat)
    requires 0 < count && 0 < per && refusal != Success
    ensures Grew(entries, out) && |out| == |entries| + Times(grown, per) && grown <= more
    ensures r.Ok? <==> HasRun(fat32, entries, count, per, more)
    ensures r.Ok? ==> FirstRun(fat32, out, r.value, count) && (grown > 0 ==> |out| < r.value + count + per)
    ensures r.Err? ==> r.status == NoRun(entries, per, more, refusal)
  {
    out, grown := entries, 0;
    var run, slot := 0, 0;
    while slot < LIMIT
      invariant slot <= LIMIT && run <= slot <= |out| && run < count
      invariant Grew(entries, out) && |out| == |entries| + Times(grown, per) && grown <= more
      invariant forall i :: slot - run <= i < slot ==> Free(fat32, out[i])
      invariant slot - run > 0 ==> !Free(fat32, out[slot - run - 1])
      invariant forall q: nat :: q + count <= slot ==> !RunAt(fat32, out, q, count)
      invariant grown > 0 ==> |out| < slot + per
    {
      if slot == |out| {
        if grown == more {
          GrewWithin(entries, out, grown, per, more);
          RunMissed(fat32, entries, out, count, per, more);
          return Err(refusal), out, grown;
        }
        ghost var before := out;
        out := out + seq(per, _ => ZeroEntry());
        grown := grown + 1;
        SameRuns(fat32, before, out, slot, count);
      }
      if Free(fat32, out[slot]) {
        run := run + 1;
        if run == count {
          GrewWithin(entries, out, grown, per, more);
          RunThere(fat32, entries, out, slot - count + 1, count, per, more);
          return Ok(slot - count + 1), out, grown;
        }
      } else {
        run := 0;
      }
      slot := slot + 1;
    }
    GrewWithin(entries, out, grown, per, more);
    RunMissed(fat32, entries, out, count, per, more);
    return Err(Overflow), out, grown;
  }

  lemma SameRuns(fat32: bool, before: seq<Entry>, out: seq<Entry>, slot: nat, count: nat)
    requires before <= out && slot <= |before| && forall q: nat :: q + count <= slot ==> !RunAt(fat32, before, q, count)
    ensures forall q: nat :: q + count <= slot ==> !RunAt(fat32, out, q, count)
  {
    forall q: nat | q + count <= slot ensures !RunAt(fat32, out, q, count) {
      if RunAt(fat32, out, q, count) {
        assert forall i :: q <= i < q + count ==> before[i] == out[i];
        assert RunAt(fat32, before, q, count);
      }
    }
  }

  /** Zeroed slots at the end change nothing. */
  lemma {:induction false} ScanGrown<S(!new)>(sc: Scanner<S>, a: Answers, x: seq<Entry>, out: seq<Entry>, slot: nat,
                                       st: S,
                                              seen: seq<File>, files: seq<File>)
    requires Lawful(sc) && Grew(x, out)
    requires slot <= |x| && Scan(sc, a, x, slot, st, seen) == Ok(files)
    ensures Scan(sc, a, out, slot, st, seen) == Ok(files)
    decreases LIMIT - slot
  {
    if slot < |x| && x[slot][0] != 0 {
      LawAt(sc, st, x, slot);
      LawBetween(sc, st, x, out, slot);
      var s := sc.step(st, x, slot);
      assert x[slot..slot + s.width] == out[slot..slot + s.width];
      ScanGrown(sc, a, x, out, slot + s.width, s.next, if s.Find? then seen + [s.file] else seen, files);
    }
  }

  // ---------------------------------------------------------------------
  // Directories without stale entries

  /** Nothing but free slots stands behind the end mark. */
  ghost predicate Tidy(fat32: bool, x: seq<Entry>) { forall i :: End(x, 0) <= i < |x| ==> Free(fat32, x[i]) }

  lemma EndGrew(x: seq<Entry>, out: seq<Entry>)
    requires Grew(x, out)
    ensures End(out, 0) == End(x, 0)
  {
    var z := End(x, 0);
    assert End(out, 0) >= z;
    assert z < |out| ==> out[z][0] == 0;
  }

  lemma TidyGrown(fat32: bool, x: seq<Entry>, out: seq<Entry>)
    requires Tidy(fat32, x) && Grew(x, out)
    ensures Tidy(fat32, out)
  {
    EndGrew(x, out);
    forall i | End(out, 0) <= i < |out| ensures Free(fat32, out[i]) {
      assert i < |x| ==> out[i] == x[i];
    }
  }

  /** There a new set is always visible, as long as the directory still ends below the limit. */
  lemma TidyVisible<S(!new)>(sc: Scanner<S>, x: seq<Entry>, p: nat, n: nat)
    requires Lawful(sc) && Tidy(sc.fat32, x) && 0 < n && FirstRun(sc.fat32, x, p, n) && End(x, p + n) < LIMIT
    ensures Visible(sc, x, p, n)
  {
    var z := End(x, 0);
    assert z < p ==> RunAt(sc.fat32, x, z, n);
    if z < p + n {
      var q := End(x, p + n);
      if p + n < q {
        ScanFree(sc, Nobody(), x, p + n, q, sc.idle, []);
      }
    }
  }

  /** And the directory stays so. */
  lemma TidyFilled(fat32: bool, x: seq<Entry>, y: seq<Entry>, p: nat, n: nat)
    requires Tidy(fat32, x) && Filled(x, y, p, n) && p <= End(x, 0) && forall i :: p <= i < p + n ==> y[i][0] != 0
    ensures Tidy(fat32, y)
  {
    forall i | 0 <= i < End(x, 0) ensures y[i][0] != 0 {
      assert !(p <= i < p + n) ==> y[i] == x[i];
    }
  }
}
