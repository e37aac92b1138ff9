/**
 A FAT32 directory over its whole life (src/fs/fat_fs.cpp): made by `create`,
 changed by any run of creations and removals, and always read back in full.
 */
module FatDirectories {
  import opened Outcomes
  import opened FatLabels
  import opened FatScanning
  import opened FatLongNames
  import opened FatErasure
  import opened Seals
  import FatCreation
  import FatRemoval

  /** The storage checks of `add` are left to the volume; here it is names and slots that decide. */
  function Names(room: nat): Answers { Answers(room, f => Success) }

  datatype Op =
    | Make(name: Text, directory: bool, supply: Supply)
    | Unmake(name: Text, directory: bool, busy: bool)

  /** What came of an operation. */
  datatype Change = Came(file: File) | Went(file: File) | Refused(status: Status)

  /** The change is one that the operation may bring about. */
  predicate Fits(op: Op, c: Change) {
    && (c.Came? ==> op.Make? && c.file.names.name == op.name && c.file.directory == op.directory)
    && (c.Went? ==> op.Unmake? && Fold(op.name) in Takes(c.file.names) && c.file.directory == op.directory)
  }

  function Changed(files: multiset<File>, c: Change): multiset<File> {
    match c
    case Came(f) => files + multiset{f}
    case Went(f) => files - multiset{f}
    case Refused(s) => files
  }

  function Replay(files: multiset<File>, log: seq<Change>): multiset<File> {
    if log == [] then files else Changed(Replay(files, log[..|log| - 1]), log[|log| - 1])
  }

  lemma ReplayMore(files: multiset<File>, log: seq<Change>, c: Change)
    ensures Replay(files, log + [c]) == Changed(Replay(files, log), c)
  {
    assert (log + [c])[..|log|] == log;
  }

  lemma WithoutOne(files: seq<File>, k: nat)
    requires k < |files|
    ensures multiset(Without(files, k)) == multiset(files) - multiset{files[k]}
  {
    assert files == files[..k] + [files[k]] + files[k + 1..];
  }

  lemma JoinedOne(r: Result<seq<File>>, files: seq<File>, f: File)
    requires Joins(r, files, f)
    ensures multiset(r.value) == multiset(files) + multiset{f}
  {
    var k :| 0 <= k <= |files| && r.value == files[..k] + [f] + files[k..];
    assert files == files[..k] + files[k..];
  }

  class FatDirectory {
    const room: nat
    const capacity: nat
    ghost const sc: Scanner<Lfn>
    var entries: seq<Entry>
    var files: seq<File>
    ghost var shown: seq<File>

    /** A scan of the entries shows just the files that the provider keeps, and nothing stale is left. */
    ghost predicate Valid()
      reads this
    {
      && Fat(sc) && Scan(sc, Names(room), entries, 0, Clean(), []) == Ok(shown) && multiset(files) == multiset(shown)
      && Tidy(true, entries) && |entries| <= capacity < LIMIT
    }

    /** A new directory. */
    constructor (room: nat, capacity: nat, self: nat, parent: nat, per: nat, ghost sc: Scanner<Lfn>)
      requires Fat(sc) && 2 <= per <= capacity < LIMIT && self < 0x1_0000_0000 && parent < 0x1_0000_0000
      ensures Valid() && files == [] && |entries| == per
      ensures this.room == room && this.capacity == capacity
    {
      var made := FatRemoval.PutDirectory(self, parent, per, sc);
      this.room, this.capacity, this.sc := room, capacity, sc;
      entries, files, shown := made, [], [];
    }

    /** A new file is found besides all the others, and nothing else changes. */
    method Create(name: Text, directory: bool, v: Supply) returns (s: Status, f: File)
      requires Valid() && v.Sound() && |Largest(entries, v.per, v.more)| <= capacity
      modifies this
      ensures Valid()
      ensures s == old(FatCreation.Verdict(room, entries, shown, name, directory, v))
      ensures s == Success ==>
              && f.names.name == name && f.directory == directory && Joins(Ok(shown), old(shown), f)
              && files == old(files) + [f] && multiset(shown) == old(multiset(shown)) + multiset{f}
      ensures s != Success ==> shown == old(shown) && files == old(files)
    {
      var out;
      ghost var grown;
      s, out, grown, f := FatCreation.Create(Names(room), entries, files, name, directory, v, sc, shown);
      if s == Success {
        entries := out;
        files := files + [f];
        JoinedOne(Scan(sc, Names(room), out, 0, Clean(), []), shown, f);
        shown := Scan(sc, Names(room), out, 0, Clean(), []).value;
      } else {
        TidyGrown(true, entries, out);
        entries := out;
      }
    }

    /** A file is gone, and nothing else changes. */
    method Remove(name: Text, directory: bool, busy: bool) returns (s: Status, f: File)
      requires Valid()
      modifies this
      ensures Valid()
      ensures s == NotFound <==> !Dots(name) && !old(Matched(shown, name))
      ensures s == Success ==>
              && f in old(shown) && Fold(name) in Takes(f.names) &&
                   multiset(shown) == old(multiset(shown)) - multiset{f}
              && Objection(f, directory, busy) == Success && !Matched(shown, name)
      ensures s != Success ==> shown == old(shown) && files == old(files)
    {
      var out, index;
      ghost var k;
      s, out, index, k := FatRemoval.Remove(Names(room), entries, files, name, directory, busy, sc, shown);
      f := File(Label([], []), 0, 0, Start(0, 0, 0, false), false, false);
      if s == Success {
        f := files[index];
        WithoutOne(files, index);
        WithoutOne(shown, k);
        Unmatched(sc, Names(room), entries, shown, k, name);
        entries := out;
        files := Without(files, index);
        shown := Without(shown, k);
      }
    }

    /** Any run of creations and removals: what the directory then shows is what they have made and not removed. */
    method Run(ops: seq<Op>) returns (log: seq<Change>)
      requires Valid() && forall i :: 0 <= i < |ops| && ops[i].Make? ==> ops[i].supply.Sound()
      modifies this
      ensures Valid() && |log| == |ops| && forall i :: 0 <= i < |ops| ==> Fits(ops[i], log[i])
      ensures multiset(shown) == Replay(old(multiset(shown)), log)
    {
      log := [];
      for i := 0 to |ops|
        invariant Valid() && |log| == i && forall k :: 0 <= k < i ==> Fits(ops[k], log[k])
        invariant multiset(shown) == Replay(old(multiset(shown)), log)
      {
        var c := Apply(ops[i]);
        ReplayMore(old(multiset(shown)), log, c);
        log := log + [c];
      }
    }

    /** One of them; a directory at its capacity does not grow. */
    method Apply(op: Op) returns (c: Change)
      requires Valid() && (op.Make? ==> op.supply.Sound())
      modifies this
      ensures Valid()
      ensures Fits(op, c) && (c.Came? ==> Joins(Ok(shown), old(shown), c.file)) && (c.Went? ==> c.file in old(shown))
      ensures multiset(shown) == Changed(old(multiset(shown)), c)
    {
      match op
      case Make(name, directory, v) =>
        var w := if |Largest(entries, v.per, v.more)| <= capacity then v else v.(more := 0);
        var s, f := Create(name, directory, w);
        c := if s == Success then Came(f) else Refused(s);
      case Unmake(name, directory, busy) =>
        var s, f := Remove(name, directory, busy);
        c := if s == Success then Went(f) else Refused(s);
    }
  }

  /** No other file goes by the name of the one that is gone. */
  lemma Unmatched(sc: Scanner<Lfn>, a: Answers, x: seq<Entry>, shown: seq<File>, k: nat, name: Text)
    requires Scan(sc, a, x, 0, Clean(), []) == Ok(shown) && k < |shown| && Fold(name) in Takes(shown[k].names)
    ensures !Matched(Without(shown, k), name)
  {
    assert Distinct(shown) by {
      assert Accepted(a, []);
      ScanSound(sc, a, x, 0, Clean(), []);
      assert Opened(AcceptSeal, 0);
    }
    var rest := Without(shown, k);
    TakenAt(rest, Fold(name));
    forall i | 0 <= i < |rest| ensures Fold(name) !in Takes(rest[i].names) {
      var j := if i < k then i else i + 1;
      assert rest[i] == shown[j];
      assert Takes(shown[j].names) !! Takes(shown[k].names);
    }
  }
}
