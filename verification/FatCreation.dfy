/**
 `create` on a FAT32 directory (src/fs/fat_fs.cpp): the place and the alias of a
 new entry set, and when the next scan of the directory finds it.
 */
module FatCreation {
  import opened Outcomes
  import opened FatLabels
  import opened FatScanning
  import opened FatLongNames
  import opened Seals

  const MAX_SERIAL: nat := 99999

  // ---------------------------------------------------------------------
  // The alias

  /** A short entry that the directory shows has these eleven bytes. */
  ghost predicate RawTaken(entries: seq<Entry>, raw: seq<byte>) {
    exists i :: 0 <= i < End(entries, 0) && i < LIMIT && RawAt(entries[i], raw)
  }

  predicate RawAt(e: Entry, raw: seq<byte>) { e[0] != 0xe5 && e[11] != 15 && e[..11] == raw }

  /** A serial number whose alias is no name in the directory, in memory or on disk, nor the new name itself. */
  ghost predicate AliasFree(entries: seq<Entry>, files: seq<File>, name: Text, serial: nat) {
    && Fold(name) != Fold(Alias(serial)) && !Matched(files, Alias(serial)) && !RawTaken(entries, AliasBytes(serial))
  }

  ghost predicate NoAlias(entries: seq<Entry>, files: seq<File>, name: Text) {
    forall q :: Opened(ShowSeal, q) ==> forall k :: 0 < k <= MAX_SERIAL ==> !AliasFree(entries, files, name, k)
  }

  /** The inner loop: compares a made-up alias with the short entries of the directory. */
  method CompareRaw(entries: seq<Entry>, e: Entry) returns (unique: bool)
    ensures unique <==> !RawTaken(entries, e[..11])
  {
    for i := 0 to LIMIT
      invariant i <= End(entries, 0) && forall k :: 0 <= k < i ==> !RawAt(entries[k], e[..11])
    {
      if i >= |entries| || entries[i][0] == 0 {
        assert i == End(entries, 0);
        return true;
      }
      if entries[i][0] == 0xe5 || entries[i][11] == 15 {
        continue;
      }
      if entries[i][..11] == e[..11] {
        assert RawAt(entries[i], e[..11]);
        return false;
      }
    }
    return true;
  }

  /** The alias search: the least serial number that is free, if any of the first 99999 is. */
  method FindAlias(entries: seq<Entry>, files: seq<File>, name: Text) returns (r: Result<nat>, alias: Entry)
    ensures r.Ok? ==> 0 < r.value <= MAX_SERIAL && AliasFree(entries, files, name, r.value)
    ensures r.Ok? ==> forall k :: 0 < k < r.value ==> !AliasFree(entries, files, name, k)
    ensures r.Ok? ==> alias[..11] == AliasBytes(r.value) && alias[12] == 0
    ensures r.Err? ==> r.status == Overflow && NoAlias(entries, files, name)
  {
    alias := ZeroEntry();
    for serial := 1 to MAX_SERIAL + 1
      invariant forall k :: 0 < k < serial ==> !AliasFree(entries, files, name, k)
    {
      var free;
      free, alias := TryAlias(entries, files, name, serial);
      if free {
        return Ok(serial), alias;
      }
    }
    return Err(Overflow), alias;
  }

  /** One turn of that loop. */
  method TryAlias(entries: seq<Entry>, files: seq<File>, name: Text, serial: nat) returns (free: bool, alias: Entry)
    ensures free <==> AliasFree(entries, files, name, serial)
    ensures alias[..11] == AliasBytes(serial) && alias[12] == 0
  {
    alias := PutAlias(serial);
    AliasRead(alias, serial);
    var text := ShortName(alias).value;
    var same := Same(name, text);
    if same {
      return false, alias;
    }
    var known, at := Lookup(files, text);
    if known {
      return false, alias;
    }
    free := CompareRaw(entries, alias);
  }

  // ---------------------------------------------------------------------
  // Creation

  /** What a new entry set at a free run of the directory `x` does to the scan of it. */
  lemma Shown(sc: Scanner<Lfn>, a: Answers, x: seq<Entry>, y: seq<Entry>, f: File, files: seq<File>)
    requires Fat(sc) && RunAt(true, x, f.slot, f.slots) && Filled(x, y, f.slot, f.slots) && Encodes(y, f)
    requires Scan(sc, a, x, 0, Clean(), []) == Ok(files) && Fresh(a, files, f)
    ensures Joins(Scan(sc, a, y, 0, Clean(), []), files, f) <==> Visible(sc, x, f.slot, f.slots)
  {
    FatLawful(sc);
    forall st: Lfn, seen ensures Reads(sc, a, y, f.slot, st, seen, f) {
      RoundTrip(sc, a, y, f, st, seen);
    }
    ShownIff(sc, a, x, y, f, files);
  }

  /** The names a new file gets are nobody else's. */
  lemma NewFresh(a: Answers, entries: seq<Entry>, files: seq<File>, name: Text, serial: nat, f: File)
    requires Accepted(a, files) && |files| < a.room && NameValid(name) && !Matched(files, name)
    requires AliasFree(entries, files, name, serial) && f.names == Label(name, Alias(serial))
    requires f.start.valid <= f.start.size && a.store(f) == Success
    ensures Fresh(a, files, f)
  {
  }

  lemma NewDistinct(a: Answers, files: seq<File>, f: File)
    requires Accepted(a, files) && !Matched(files, f.names.name) && !Matched(files, f.names.alias)
    ensures Distinct(files + [f])
  {
    assert Opened(AcceptSeal, 0);
    DistinctMore(files, f);
  }

  /** What was written, and where. */
  ghost predicate Put(x: seq<Entry>, y: seq<Entry>, f: File) {
    FirstRun(true, x, f.slot, f.slots) && Filled(x, y, f.slot, f.slots) && Encodes(y, f)
  }

  /** The loop that puts the entries of a set. */
  method PutEntries(x: seq<Entry>, set_: seq<Entry>, f: File) returns (y: seq<Entry>)
    requires IsSet(set_, f) && FirstRun(true, x, f.slot, f.slots)
    ensures Put(x, y, f) && forall i :: f.slot <= i < f.slot + f.slots ==> y[i][0] != 0
  {
    y := x;
    for i := 0 to f.slots
      invariant |y| == |x| && forall k :: 0 <= k < |x| && !(f.slot <= k < f.slot + i) ==> y[k] == x[k]
      invariant forall k :: 0 <= k < i ==> y[f.slot + k] == set_[k]
    {
      y := y[f.slot + i := set_[i]];
    }
    PutEncodes(y, set_, f);
  }

  lemma CreatedShown(sc: Scanner<Lfn>, a: Answers, x: seq<Entry>, y: seq<Entry>, f: File, files: seq<File>, serial: nat)
    requires Fat(sc) && Put(x, y, f) && Scan(sc, a, x, 0, Clean(), []) == Ok(files) && |files| < a.room
    requires NameValid(f.names.name) && !Matched(files, f.names.name) && f.start.valid <= f.start.size
    requires AliasFree(x, files, f.names.name, serial) && f.names.alias == Alias(serial)
    ensures a.store(f) == Success ==>
              Fresh(a, files, f) && (Joins(Scan(sc, a, y, 0, Clean(), []), files, f) <==>
                  Visible(sc, x, f.slot, f.slots))
    ensures Distinct(files + [f])
  {
    assert Accepted(a, []);
    ScanSound(sc, a, x, 0, Clean(), []);
    NewDistinct(a, files, f);
    if a.store(f) == Success {
      NewFresh(a, x, files, f.names.name, serial, f);
      Shown(sc, a, x, y, f, files);
    }
  }

  lemma CreatedTidy(sc: Scanner<Lfn>, entries: seq<Entry>, x: seq<Entry>, y: seq<Entry>, f: File)
    requires Lawful(sc) && sc.fat32 && Put(x, y, f) && forall i :: f.slot <= i < f.slot + f.slots ==> y[i][0] != 0
    requires Grew(entries, x)
    ensures Tidy(true, entries) ==>
              Tidy(true, x) && (End(x, f.slot + f.slots) < LIMIT ==> Visible(sc, x, f.slot, f.slots) && Tidy(true, y))
  {
    if Tidy(true, entries) {
      TidyGrown(true, entries, x);
      if End(x, f.slot + f.slots) < LIMIT {
        TidyVisible(sc, x, f.slot, f.slots);
        TidyFilled(true, x, y, f.slot, f.slots);
      }
    }
  }

  // ---------------------------------------------------------------------
  // The whole operation

  /** What becomes of a `create`, in the order of its checks. */
  ghost function Verdict(room: nat, entries: seq<Entry>, files: seq<File>, name: Text, directory: bool,
                         v: Supply): Status {
    if !NameValid(name) then InvalidArgument
    else if Matched(files, name) then AlreadyExists
    else if |files| >= room then NoMemory
    else if !HasRun(true, entries, Parts(|name|) + 1, v.per, v.more) then NoRun(entries, v.per, v.more, v.refusal)
    else if directory && v.cluster.Err? then v.cluster.status
    else if NoAlias(entries, files, name) then Overflow
    else Success
  }

  /** More zeroed slots and another order of the files change no alias. */
  lemma AliasGrown(entries: seq<Entry>, out: seq<Entry>, files: seq<File>, shown: seq<File>, name: Text)
    requires Grew(entries, out) && Taken(files) == Taken(shown)
    ensures forall k: nat :: AliasFree(out, files, name, k) <==> AliasFree(entries, shown, name, k)
    ensures NoAlias(out, files, name) <==> NoAlias(entries, shown, name)
  {
    assert Opened(ShowSeal, 0);
    EndGrew(entries, out);
    forall raw: seq<byte> ensures RawTaken(out, raw) <==> RawTaken(entries, raw) {
      assert forall i :: 0 <= i < End(entries, 0) ==> out[i] == entries[i];
      if RawTaken(out, raw) {
        var i :| 0 <= i < End(out, 0) && i < LIMIT && RawAt(out[i], raw);
        assert RawAt(entries[i], raw);
      }
      if RawTaken(entries, raw) {
        var i :| 0 <= i < End(entries, 0) && i < LIMIT && RawAt(entries[i], raw);
        assert RawAt(out[i], raw);
      }
    }
  }

  /** What a successful `create` leaves in a directory that shows the files `shown`. */
  ghost predicate Made(sc: Scanner<Lfn>, a: Answers, entries: seq<Entry>, shown: seq<File>, grown: seq<Entry>,
                       out: seq<Entry>, f: File) {
    && Grew(entries, grown) && Put(grown, out, f) && Distinct(shown + [f])
    && (a.store(f) == Success ==>
          && Fresh(a, shown, f)
          && (Joins(Scan(sc, a, out, 0, Clean(), []), shown, f) <==> Visible(sc, grown, f.slot, f.slots)))
    && (Tidy(true, entries) ==>
          && Tidy(true, grown)
          && (End(grown, f.slot + f.slots) < LIMIT ==> Visible(sc, grown, f.slot, f.slots) && Tidy(true, out)))
  }

  /**
   `create`, from the checks on the name on, in a directory whose entries show the files
   `shown`, which the provider keeps as `files`. The set goes to the first free run of
   the directory `grown`, and the next scan finds the new file besides the old ones
   exactly when that run is visible; a refused create leaves the scan as it was.
   */
  method Create(a: Answers, entries: seq<Entry>, files: seq<File>, name: Text, directory: bool, v: Supply,
                ghost sc: Scanner<Lfn>, ghost shown: seq<File>)
    returns (s: Status, out: seq<Entry>, ghost grown: seq<Entry>, f: File)
    requires Fat(sc) && Scan(sc, a, entries, 0, Clean(), []) == Ok(shown) && multiset(files) == multiset(shown)
    requires v.Sound()
    ensures s == Verdict(a.room, entries, shown, name, directory, v)
    ensures s == Success ==> f.names.name == name && f.directory == directory && |grown| == |out|
    ensures s == Success ==> Made(sc, a, entries, shown, grown, out, f)
    ensures s != Success ==> Grew(entries, out) && Scan(sc, a, out, 0, Clean(), []) == Ok(shown)
    ensures |out| <= |Largest(entries, v.per, v.more)|
  {
    out, grown, f := entries, entries, File(Label(name, []), 0, 0, Start(0, 0, 0, false), directory, false);
    SameTaken(files, shown);
    if !NameValid(name) {
      return InvalidArgument, out, grown, f;
    }
    var known, at := Lookup(files, name);
    if known {
      return AlreadyExists, out, grown, f;
    }
    if |files| >= a.room {
      return NoMemory, out, grown, f;
    }
    FatLawful(sc);
    var slots := Parts(|name|) + 1;
    var place, clusters;
    place, out, clusters := FreeSlots(true, entries, slots, v.per, v.more, v.refusal);
    GrewWithin(entries, out, clusters, v.per, v.more);
    ScanGrown(sc, a, entries, out, 0, Clean(), [], shown);
    grown := out;
    if place.Err? {
      return place.status, out, grown, f;
    }
    s, out, f := PutNew(a, entries, out, files, name, directory, place.value, v, sc, shown);
  }

  /** `create` once a place is found: the cluster of a directory, the alias and the entries. */
  method PutNew(a: Answers, ghost entries: seq<Entry>, x: seq<Entry>, files: seq<File>, name: Text, directory: bool,
                place: nat, v: Supply, ghost sc: Scanner<Lfn>, ghost shown: seq<File>)
    returns (s: Status, y: seq<Entry>, f: File)
    requires Fat(sc) && v.Sound() && Grew(entries, x) && Scan(sc, a, x, 0, Clean(), []) == Ok(shown)
    requires Taken(files) == Taken(shown) && NameValid(name) && !Matched(shown, name) && |shown| < a.room
    requires FirstRun(true, x, place, Parts(|name|) + 1)
    ensures s == if directory && v.cluster.Err? then v.cluster.status
                 else if NoAlias(entries, shown, name) then Overflow else Success
    ensures s == Success ==> Made(sc, a, entries, shown, x, y, f) && f.names.name == name && f.directory == directory
    ensures |y| == |x| && (s != Success ==> y == x)
  {
    y, f := x, File(Label(name, []), 0, 0, Start(0, 0, 0, false), directory, false);
    if directory && v.cluster.Err? {
      return v.cluster.status, y, f;
    }
    var serial, alias := FindAlias(x, files, name);
    if serial.Err? {
      AliasGrown(entries, x, files, shown, name);
      return Overflow, y, f;
    }
    f := File(Label(name, Alias(serial.value)), place, Parts(|name|) + 1,
              Start(if directory then v.cluster.value else 0, 0, 0, false), directory, false);
    assert FirstRun(true, x, f.slot, f.slots);
    y := PutFile(x, f, serial.value, alias);
    MadeBy(sc, a, entries, x, y, f, files, shown, serial.value);
    return Success, y, f;
  }

  lemma MadeBy(sc: Scanner<Lfn>, a: Answers, entries: seq<Entry>, x: seq<Entry>, y: seq<Entry>, f: File,
               files: seq<File>, shown: seq<File>, serial: nat)
    requires Fat(sc) && Put(x, y, f) && Scan(sc, a, x, 0, Clean(), []) == Ok(shown) && |shown| < a.room
    requires Grew(entries, x) && forall i :: f.slot <= i < f.slot + f.slots ==> y[i][0] != 0
    requires NameValid(f.names.name) && !Matched(shown, f.names.name) && f.start.valid <= f.start.size
    requires 0 < serial <= MAX_SERIAL && AliasFree(x, files, f.names.name, serial) && f.names.alias == Alias(serial)
    requires Taken(files) == Taken(shown)
    ensures Made(sc, a, entries, shown, x, y, f) && !NoAlias(entries, shown, f.names.name)
  {
    FatLawful(sc);
    assert Opened(ShowSeal, 0);
    AliasGrown(entries, x, files, shown, f.names.name);
    AliasGrown(x, x, files, shown, f.names.name);
    CreatedShown(sc, a, x, y, f, shown, serial);
    CreatedTidy(sc, entries, x, y, f);
  }

  /** The entries of a new, empty file. */
  method PutFile(x: seq<Entry>, f: File, serial: nat, alias: Entry) returns (y: seq<Entry>)
    requires FirstRun(true, x, f.slot, f.slots) && NameValid(f.names.name) && f.slots == Parts(|f.names.name|) + 1
    requires alias[..11] == AliasBytes(serial) && alias[12] == 0 && f.names.alias == Alias(serial)
    requires f.start == Start(f.start.cluster, 0, 0, false) && f.start.cluster < 0x1_0000_0000 && !f.readonly
    ensures Put(x, y, f) && forall i :: f.slot <= i < f.slot + f.slots ==> y[i][0] != 0
  {
    PartsBound(f);
    var short := PutShort(alias, serial, f);
    var set_ := Encode(short, f);
    y := PutEntries(x, set_, f);
  }
}
