/**
 `create` on an exFAT directory (src/fs/fat_fs.cpp): the place of a new entry set,
 and when the next scan of the directory finds it.
 */
module ExfatCreation {
  import opened Outcomes
  import opened FatLabels
  import opened FatScanning
  import opened ExfatNames
  import opened Seals

  /** What a new entry set at a free run of the directory `x` does to the scan of it. */
  lemma Shown(sc: Scanner<()>, root: bool, a: Answers, x: seq<Entry>, y: seq<Entry>, f: File, files: seq<File>)
    requires Exfat(sc, root) && RunAt(false, x, f.slot, f.slots) && Filled(x, y, f.slot, f.slots) && SetAt(y, f)
    requires Scan(sc, a, x, 0, (), []) == Ok(files) && Fresh(a, files, f)
    ensures Joins(Scan(sc, a, y, 0, (), []), files, f) <==> Visible(sc, x, f.slot, f.slots)
  {
    ExfatLawful(sc, root);
    forall st: (), seen ensures Reads(sc, a, y, f.slot, st, seen, f) {
      RoundTrip(sc, root, a, y, f, st, seen);
    }
    ShownIff(sc, a, x, y, f, files);
  }

  /** What was written, and where. */
  ghost predicate Put(x: seq<Entry>, y: seq<Entry>, f: File) {
    FirstRun(false, x, f.slot, f.slots) && Filled(x, y, f.slot, f.slots) && SetAt(y, f)
  }

  lemma {:induction false} JoinedIs(y: seq<Entry>, slot: nat, n: nat, b: seq<byte>)
    requires slot + n <= |y| && n * 32 <= |b| && forall k :: 0 <= k < n ==> y[slot + k] == b[k * 32..k * 32 + 32]
    ensures Joined(y, slot, n) == b[..n * 32]
  {
    if n > 0 {
      JoinedIs(y, slot, n - 1, b);
      assert b[..n * 32] == b[..(n - 1) * 32] + b[(n - 1) * 32..(n - 1) * 32 + 32];
    }
  }

  lemma {:induction false} InUse(b: seq<byte>, f: File, k: nat)
    requires IsSet(b, f) && k < f.slots
    ensures b[k * 32] != 0
  {
    if k > 1 {
      var i := (k - 2) * 15;
      assert i < |f.names.name| && i / 15 == k - 2;
      assert b[64 + i / 15 * 32] == 0xc1;
    }
  }

  /** The loop that puts the entries of a set, last first. */
  method PutSet(x: seq<Entry>, b: seq<byte>, f: File) returns (y: seq<Entry>)
    requires IsSet(b, f) && FirstRun(false, x, f.slot, f.slots)
    ensures Put(x, y, f) && forall i :: f.slot <= i < f.slot + f.slots ==> y[i][0] != 0
  {
    y := x;
    for i := f.slots downto 0
      invariant |y| == |x| && forall k :: 0 <= k < |x| && !(f.slot + i <= k < f.slot + f.slots) ==> y[k] == x[k]
      invariant forall k :: i <= k < f.slots ==> y[f.slot + k] == b[k * 32..k * 32 + 32]
    {
      y := y[f.slot + i := b[i * 32..i * 32 + 32]];
    }
    SetPut(y, b, f);
  }

  lemma SetPut(y: seq<Entry>, b: seq<byte>, f: File)
    requires IsSet(b, f) && f.slot + f.slots <= |y|
    requires forall k :: 0 <= k < f.slots ==> y[f.slot + k] == b[k * 32..k * 32 + 32]
    ensures SetAt(y, f) && forall i :: f.slot <= i < f.slot + f.slots ==> y[i][0] != 0
  {
    JoinedIs(y, f.slot, f.slots, b);
    assert b[..f.slots * 32] == b;
    forall i | f.slot <= i < f.slot + f.slots ensures y[i][0] != 0 {
      assert y[f.slot + (i - f.slot)] == b[(i - f.slot) * 32..(i - f.slot) * 32 + 32];
      InUse(b, f, i - f.slot);
    }
  }

  lemma NewDistinct(a: Answers, files: seq<File>, f: File)
    requires Accepted(a, files) && f.names.alias == [] && !Matched(files, f.names.name)
    ensures Distinct(files + [f])
  {
    assert Opened(AcceptSeal, 0);
    DistinctMore(files, f);
  }

  lemma CreatedShown(sc: Scanner<()>, root: bool, a: Answers, x: seq<Entry>, y: seq<Entry>, f: File, files: seq<File>)
    requires Exfat(sc, root) && Put(x, y, f) && Scan(sc, a, x, 0, (), []) == Ok(files) && |files| < a.room
    requires NameValid(f.names.name) && f.names.alias == [] && f.start.valid <= f.start.size
    requires !Matched(files, f.names.name)
    ensures a.store(f) == Success ==>
              Fresh(a, files, f) && (Joins(Scan(sc, a, y, 0, (), []), files, f) <==> Visible(sc, x, f.slot, f.slots))
    ensures Distinct(files + [f])
  {
    assert Accepted(a, []);
    ScanSound(sc, a, x, 0, (), []);
    NewDistinct(a, files, f);
    if a.store(f) == Success {
      Shown(sc, root, a, x, y, f, files);
    }
  }

  lemma CreatedTidy(sc: Scanner<()>, entries: seq<Entry>, x: seq<Entry>, y: seq<Entry>, f: File)
    requires Lawful(sc) && !sc.fat32 && Put(x, y, f) && forall i :: f.slot <= i < f.slot + f.slots ==> y[i][0] != 0
    requires Grew(entries, x)
    ensures Tidy(false, entries) ==>
              Tidy(false, x) && (End(x, f.slot + f.slots) < LIMIT ==> Visible(sc, x, f.slot, f.slots) && Tidy(false, y))
  {
    if Tidy(false, entries) {
      TidyGrown(false, entries, x);
      if End(x, f.slot + f.slots) < LIMIT {
        TidyVisible(sc, x, f.slot, f.slots);
        TidyFilled(false, x, y, f.slot, f.slots);
      }
    }
  }

  /** What becomes of a `create`, in the order of its checks. */
  ghost function Verdict(room: nat, entries: seq<Entry>, files: seq<File>, name: Text, directory: bool,
                         v: Supply): Status {
    if !NameValid(name) then InvalidArgument
    else if Matched(files, name) then AlreadyExists
    else if |files| >= room then NoMemory
    else if !HasRun(false, entries, Slots(|name|), v.per, v.more) then NoRun(entries, v.per, v.more, v.refusal)
    else if directory && v.cluster.Err? then v.cluster.status
    else Success
  }

  /** What a successful `create` leaves in a directory that shows the files `shown`. */
  ghost predicate Made(sc: Scanner<()>, a: Answers, entries: seq<Entry>, shown: seq<File>, grown: seq<Entry>,
                       out: seq<Entry>, f: File) {
    && Grew(entries, grown) && Put(grown, out, f) && Distinct(shown + [f])
    && (a.store(f) == Success ==>
          && Fresh(a, shown, f)
          && (Joins(Scan(sc, a, out, 0, (), []), shown, f) <==> Visible(sc, grown, f.slot, f.slots)))
    && (Tidy(false, entries) ==>
          && Tidy(false, grown)
          && (End(grown, f.slot + f.slots) < LIMIT ==> Visible(sc, grown, f.slot, f.slots) && Tidy(false, out)))
  }

  /**
   `create`, from the checks on the name on, as for FAT32 but without an alias: the
   next scan finds the new file besides the old ones exactly when the run is visible.
   */
  method Create(a: Answers, entries: seq<Entry>, files: seq<File>, name: Text, directory: bool, v: Supply,
                clusterBytes: nat, root: bool, ghost sc: Scanner<()>, ghost shown: seq<File>)
    returns (s: Status, out: seq<Entry>, ghost grown: seq<Entry>, f: File)
    requires Exfat(sc, root) && Scan(sc, a, entries, 0, (), []) == Ok(shown) && multiset(files) == multiset(shown)
    requires v.Sound() && clusterBytes < 0x1_0000_0000
    ensures s == Verdict(a.room, entries, shown, name, directory, v)
    ensures s == Success ==> f.names == Label(name, []) && f.directory == directory && |grown| == |out|
    ensures s == Success ==> Made(sc, a, entries, shown, grown, out, f)
    ensures s != Success ==> Grew(entries, out) && Scan(sc, a, out, 0, (), []) == Ok(shown)
    ensures |out| <= |Largest(entries, v.per, v.more)|
  {
    out, grown, f := entries, entries, File(Label(name, []), 0, 0, Start(0, 0, 0, false), directory, false);
    SameTaken(files, shown);
    if !NameValid(name) {
      return InvalidArgument, out, grown, f;
    }
    var known, at := Lookup(files, name);
    if known {
      return AlreadyExists, out, grown, f;
    }
    if |files| >= a.room {
      return NoMemory, out, grown, f;
    }
    ExfatLawful(sc, root);
    var slots := Slots(|name|);
    var place, clusters;
    place, out, clusters := FreeSlots(false, entries, slots, v.per, v.more, v.refusal);
    GrewWithin(entries, out, clusters, v.per, v.more);
    ScanGrown(sc, a, entries, out, 0, (), [], shown);
    grown := out;
    if place.Err? {
      return place.status, out, grown, f;
    }
    if directory && v.cluster.Err? {
      return v.cluster.status, out, grown, f;
    }
    var start := if directory then Start(v.cluster.value, clusterBytes, clusterBytes, false) else Start(0, 0, 0, false);
    f := File(Label(name, []), place.value, slots, start, directory, false);
    var set_ := EncodeSet(f);
    out := PutSet(out, set_, f);
    CreatedShown(sc, root, a, grown, out, f, shown);
    CreatedTidy(sc, entries, grown, out, f);
    return Success, out, grown, f;
  }
}
