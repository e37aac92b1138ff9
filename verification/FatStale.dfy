/**
 FAT32 directories, in whole clusters, where a new entry set is not found again
 (src/fs/fat_fs.cpp): the condition of ShownIff is needed in each of its parts.
 */
module FatStale {
  import opened Outcomes
  import opened FatLabels
  import opened FatScanning
  import opened FatLongNames
  import opened FatCreation
  import opened Seals

  function Zeroed(n: nat): seq<Entry> { seq(n, _ => ZeroEntry()) }

  /** An end mark and a stale entry behind it, in a directory of one 512-byte cluster. */
  function MarkThenStale(stale: Entry): seq<Entry> { [ZeroEntry(), stale] + Zeroed(14) }

  /** The first run that is long enough begins behind the end mark, and the set in it is never found. */
  lemma BehindEndMark(sc: Scanner<Lfn>, a: Answers, stale: Entry, y: seq<Entry>, f: File)
    requires Fat(sc) && !Free(true, stale) && f.slot == 2
    requires Filled(MarkThenStale(stale), y, f.slot, f.slots) && Encodes(y, f)
    ensures Scan(sc, a, MarkThenStale(stale), 0, Clean(), []) == Ok([]) && Put(MarkThenStale(stale), y, f)
    ensures Scan(sc, a, y, 0, Clean(), []) == Ok([])
  {
    var x := MarkThenStale(stale);
    assert x[0] == ZeroEntry() && x[1] == stale && End(x, 0) == 0;
    forall q: nat | q < f.slot ensures !RunAt(true, x, q, f.slots) {
      assert !Free(true, x[1]);
    }
    FatLawful(sc);
    NeverJoins(sc, a, x, y, f.slot, f.slots, f, []);
  }

  /** Two free slots and a stale entry behind them. */
  function StaleThird(stale: Entry): seq<Entry> { [ZeroEntry(), ZeroEntry(), stale] + Zeroed(13) }

  /** The set takes the end mark away, the scan meets the stale entry and fails. */
  lemma BackToLife(sc: Scanner<Lfn>, a: Answers, stale: Entry, x: seq<Entry>, y: seq<Entry>, f: File)
    requires Fat(sc) && !Free(true, stale) && stale[11] == 64 && Grew(StaleThird(stale), x)
    requires f.slot == 0 && f.slots == 2 && Fresh(a, [], f) && Filled(x, y, f.slot, f.slots) && Encodes(y, f)
    ensures Scan(sc, a, x, 0, Clean(), []) == Ok([]) && Put(x, y, f)
    ensures Scan(sc, a, y, 0, Clean(), []) == Err(IoError)
  {
    var old_ := StaleThird(stale);
    assert x[0] == old_[0] == ZeroEntry() && x[1] == old_[1] == ZeroEntry() && x[2] == old_[2] == stale == y[2];
    assert RunAt(true, x, 0, 2);
    RoundTrip(sc, a, y, f, Clean(), []);
    assert Opened(ScanSeal, 0);
    FreshAmong(a, [], f, []);
    StepOther(sc, y, 2, stale, Clean());
    ScanStep(sc, a, y, 2, Clean(), [] + [f], Fail(IoError));
  }

  /** A directory of volume labels with two slots left below the limit. */
  function Crowded(title: Entry): seq<Entry> { seq(LIMIT - 2, _ => title) + Zeroed(2) }

  lemma {:induction false} LabelsSkipped(sc: Scanner<Lfn>, a: Answers, x: seq<Entry>, title: Entry, slot: nat, n: nat)
    requires Fat(sc) && !Free(true, title) && title[11] == 8 && slot <= n <= |x| && n <= LIMIT
    requires forall i :: slot <= i < n ==> x[i] == title
    ensures Scan(sc, a, x, slot, Clean(), []) == Scan(sc, a, x, n, Clean(), [])
    decreases n - slot
  {
    if slot < n {
      StepOther(sc, x, slot, title, Clean());
      ScanStep(sc, a, x, slot, Clean(), [], Skip(Clean(), 1));
      LabelsSkipped(sc, a, x, title, slot + 1, n);
    }
  }

  /** The last two slots are the only run. */
  lemma CrowdedRun(sc: Scanner<Lfn>, a: Answers, title: Entry, x: seq<Entry>)
    requires Fat(sc) && !Free(true, title) && title[11] == 8 && Grew(Crowded(title), x)
    ensures Scan(sc, a, x, 0, Clean(), []) == Ok([]) && FirstRun(true, x, LIMIT - 2, 2) && End(x, 0) == LIMIT - 2
    ensures forall i :: 0 <= i < LIMIT - 2 ==> x[i] == title
  {
    var last := LIMIT - 2;
    assert forall i :: 0 <= i < LIMIT ==> x[i] == Crowded(title)[i];
    LabelsSkipped(sc, a, x, title, 0, last);
    assert x[last] == ZeroEntry() && x[last + 1] == ZeroEntry();
    forall q: nat | q < last ensures !RunAt(true, x, q, 2) {
      assert x[q] == title;
    }
    assert forall i :: 0 <= i < last ==> x[i][0] != 0;
  }

  /** The set fills the directory up to the limit, and the scan no longer ends. */
  lemma LastSlots(sc: Scanner<Lfn>, a: Answers, title: Entry, x: seq<Entry>, y: seq<Entry>, f: File)
    requires Fat(sc) && !Free(true, title) && title[11] == 8 && Grew(Crowded(title), x)
    requires f.slot == LIMIT - 2 && f.slots == 2 && Fresh(a, [], f) && Filled(x, y, f.slot, f.slots) && Encodes(y, f)
    ensures Scan(sc, a, x, 0, Clean(), []) == Ok([]) && Put(x, y, f)
    ensures Scan(sc, a, y, 0, Clean(), []) == Err(Overflow)
  {
    CrowdedRun(sc, a, title, x);
    FatLawful(sc);
    forall st: Lfn, seen ensures Reads(sc, a, y, f.slot, st, seen, f) {
      RoundTrip(sc, a, y, f, st, seen);
    }
    FullDirectory(sc, a, x, y, f, []);
  }

  // ---------------------------------------------------------------------
  // The calls

  /** A name that the first alias is not. */
  predicate Plain(name: Text) { NameValid(name) && Upper(name[0]) != 70 }

  lemma FirstAlias(entries: seq<Entry>, name: Text)
    requires Plain(name) && forall i :: 0 <= i < End(entries, 0) ==> entries[i][0] != 70
    ensures !NoAlias(entries, [], name)
  {
    assert Opened(ShowSeal, 0);
    assert AliasBytes(1)[0] == 70;
    assert Fold(Alias(1))[0] == 70 && Fold(name)[0] == Upper(name[0]);
    forall i | 0 <= i < End(entries, 0) ensures !RawAt(entries[i], AliasBytes(1)) {
      assert entries[i][..11][0] == entries[i][0];
    }
    assert AliasFree(entries, [], name, 1);
  }

  /** A `create` that succeeds, of a file that no later scan finds. */
  method CreateAndLose(a: Answers, stale: Entry, name: Text, v: Supply, ghost sc: Scanner<Lfn>)
    returns (s: Status, out: seq<Entry>)
    requires Fat(sc) && !Free(true, stale) && Plain(name) && a.room > 0 && v.Sound()
    ensures s == Success && Scan(sc, a, out, 0, Clean(), []) == Ok([])
  {
    var x := MarkThenStale(stale);
    assert x[0] == ZeroEntry() && x[1] == stale && End(x, 0) == 0;
    FirstAlias(x, name);
    assert RunAt(true, x, 2, Parts(|name|) + 1);
    RunThere(true, x, x, 2, Parts(|name|) + 1, v.per, v.more);
    ghost var grown;
    var f;
    s, out, grown, f := Create(a, x, [], name, false, v, sc, []);
  }

  /** A `create` that succeeds, after which the directory can no longer be read. */
  method CreateAndBreak(a: Answers, stale: Entry, name: Text, v: Supply, ghost sc: Scanner<Lfn>)
    returns (s: Status, out: seq<Entry>)
    requires Fat(sc) && !Free(true, stale) && stale[11] == 64 && Plain(name) && |name| <= 13 && v.Sound()
    requires a.room > 0 && forall f :: a.store(f) == Success
    ensures s == Success && Scan(sc, a, out, 0, Clean(), []) == Err(IoError)
  {
    var x := StaleThird(stale);
    assert x[0] == ZeroEntry() && x[1] == ZeroEntry() && End(x, 0) == 0;
    FirstAlias(x, name);
    assert RunAt(true, x, 0, 2);
    RunThere(true, x, x, 0, 2, v.per, v.more);
    ghost var grown;
    var f;
    s, out, grown, f := Create(a, x, [], name, false, v, sc, []);
    assert RunAt(true, grown, 0, 2);
    BackToLife(sc, a, stale, grown, out, f);
  }

  lemma CrowdedTakes(sc: Scanner<Lfn>, a: Answers, title: Entry, x: seq<Entry>, name: Text, v: Supply)
    requires Fat(sc) && !Free(true, title) && title[0] != 70 && title[11] == 8 && x == Crowded(title)
    requires Plain(name) && |name| <= 13 && a.room > 0
    ensures Scan(sc, a, x, 0, Clean(), []) == Ok([]) && Verdict(a.room, x, [], name, false, v) == Success
  {
    CrowdedRun(sc, a, title, x);
    FirstAlias(x, name);
    RunThere(true, x, x, LIMIT - 2, 2, v.per, v.more);
  }

  lemma CrowdedFilled(sc: Scanner<Lfn>, a: Answers, title: Entry, x: seq<Entry>, grown: seq<Entry>, out: seq<Entry>,
                      f: File)
    requires Fat(sc) && !Free(true, title) && title[11] == 8 && x == Crowded(title)
    requires Made(sc, a, x, [], grown, out, f) && a.store(f) == Success && f.slots == 2
    ensures Scan(sc, a, out, 0, Clean(), []) == Err(Overflow)
  {
    CrowdedRun(sc, a, title, grown);
    FirstRunOnce(grown, f.slot, LIMIT - 2, 2);
    LastSlots(sc, a, title, grown, out, f);
  }

  lemma FirstRunOnce(x: seq<Entry>, p: nat, q: nat, n: nat)
    requires FirstRun(true, x, p, n) && FirstRun(true, x, q, n)
    ensures p == q
  {
  }

  /** A `create` that succeeds and fills the directory up to the limit. */
  method CreateAndFill(a: Answers, title: Entry, x: seq<Entry>, name: Text, v: Supply, ghost sc: Scanner<Lfn>)
    returns (s: Status, out: seq<Entry>)
    requires Fat(sc) && !Free(true, title) && title[0] != 70 && title[11] == 8 && Plain(name) && |name| <= 13
    requires v.Sound()
    requires x == Crowded(title) && a.room > 0 && forall f :: a.store(f) == Success
    ensures s == Success && Scan(sc, a, out, 0, Clean(), []) == Err(Overflow)
  {
    CrowdedTakes(sc, a, title, x, name, v);
    ghost var grown;
    var f;
    s, out, grown, f := Create(a, x, [], name, false, v, sc, []);
    CrowdedFilled(sc, a, title, x, grown, out, f);
  }
}
