/**
 Names in FAT and exFAT directories (src/fs/fat_fs.cpp): which are valid, when two
 of them are the same name, and what `lookup` and `add` make of them.
 */
module FatLabels {
  import opened Outcomes

  const MAX_SEGMENT: nat := 32

  type Text = seq<byte>

  /** `name_valid`: printable ASCII without the characters FAT forbids. */
  predicate NameValid(n: Text) {
    && 0 < |n| < MAX_SEGMENT && !Dots(n) && n[|n| - 1] != 46 && n[|n| - 1] != 32
    && forall i :: 0 <= i < |n| ==> CharValid(n[i])
  }

  predicate CharValid(c: byte) { 32 <= c <= 126 && c !in {47, 92, 58, 42, 63, 34, 60, 62, 124} }

  /** The names of a directory itself and of its parent. */
  predicate Dots(n: Text) { n == [46] || n == [46, 46] }

  function Upper(c: byte): byte { if 97 <= c <= 122 then c - 32 else c }

  function Fold(t: Text): (u: Text)
    ensures |u| == |t|
  {
    seq(|t|, i requires 0 <= i < |t| => Upper(t[i]))
  }

  /** `same`: equal but for the case of letters. */
  method Same(a: Text, b: Text) returns (same: bool)
    ensures same <==> Fold(a) == Fold(b)
  {
    if |a| != |b| {
      return false;
    }
    for i := 0 to |a|
      invariant forall k :: 0 <= k < i ==> Upper(a[k]) == Upper(b[k])
    {
      if Upper(a[i]) != Upper(b[i]) {
        assert Fold(a)[i] != Fold(b)[i];
        return false;
      }
    }
    assert Fold(a) == Fold(b);
    return true;
  }

  /** A file goes by its name and, where it has one, by its short alias. */
  datatype Label = Label(name: Text, alias: Text)

  datatype Start = Start(cluster: nat, size: nat, valid: nat, contiguous: bool)

  /** A directory entry as the provider keeps it. */
  datatype File = File(names: Label, slot: nat, slots: nat, start: Start, directory: bool, readonly: bool)

  /** The names a file takes up, whatever their case. */
  function Takes(l: Label): set<Text> { {Fold(l.name)} + (if l.alias == [] then {} else {Fold(l.alias)}) }

  function Taken(files: seq<File>): set<Text> {
    if files == [] then {} else Taken(files[..|files| - 1]) + Takes(files[|files| - 1].names)
  }

  lemma TakenMore(files: seq<File>, f: File)
    ensures Taken(files + [f]) == Taken(files) + Takes(f.names)
  {
    assert (files + [f])[..|files|] == files;
  }

  lemma {:induction false} TakenAt(files: seq<File>, x: Text)
    ensures x in Taken(files) <==> exists i :: 0 <= i < |files| && x in Takes(files[i].names)
  {
    if files != [] {
      var front := files[..|files| - 1];
      TakenAt(front, x);
      if x in Taken(front) {
        var i :| 0 <= i < |front| && x in Takes(front[i].names);
        assert files[i] == front[i];
      }
      if i :| 0 <= i < |files| && x in Takes(files[i].names) {
        assert i < |front| ==> front[i] == files[i];
      }
    }
  }

  /** `lookup`: does the name stand for anything in this directory, and if so for which file? */
  method Lookup(files: seq<File>, name: Text) returns (found: bool, index: nat)
    ensures found <==> Dots(name) || Matched(files, name)
    ensures found && !Dots(name) ==> index < |files| && Fold(name) in Takes(files[index].names)
  {
    if Dots(name) {
      return true, 0;
    }
    for i := 0 to |files|
      invariant !Matched(files[..i], name)
    {
      assert files[..i + 1] == files[..i] + [files[i]];
      TakenMore(files[..i], files[i]);
      var same := Same(name, files[i].names.name);
      if !same && files[i].names.alias != [] {
        same := Same(name, files[i].names.alias);
      }
      if same {
        TakenPrefix(files, i + 1, Fold(name));
        return true, i;
      }
    }
    assert files[..|files|] == files;
    return false, 0;
  }

  predicate Matched(files: seq<File>, name: Text) { Fold(name) in Taken(files) }

  lemma TakenPrefix(files: seq<File>, n: nat, x: Text)
    requires n <= |files| && x in Taken(files[..n])
    ensures x in Taken(files)
  {
    TakenAt(files[..n], x);
    var i :| 0 <= i < n && x in Takes(files[..n][i].names);
    assert files[i] == files[..n][i];
    TakenAt(files, x);
  }

  /** In whatever order files are kept, they take up the same names. */
  lemma SameTaken(files: seq<File>, shown: seq<File>)
    requires multiset(files) == multiset(shown)
    ensures Taken(files) == Taken(shown) && |files| == |shown|
  {
    assert |multiset(files)| == |multiset(shown)|;
    TakenWithin(files, shown);
    TakenWithin(shown, files);
  }

  lemma TakenWithin(files: seq<File>, shown: seq<File>)
    requires multiset(files) == multiset(shown)
    ensures Taken(files) <= Taken(shown)
  {
    forall x | x in Taken(files) ensures x in Taken(shown) {
      TakenAt(files, x);
      var i :| 0 <= i < |files| && x in Takes(files[i].names);
      assert files[i] in multiset(shown);
      TakenAt(shown, x);
    }
  }

  /** No two files share a name or an alias, or one's name the other's alias. */
  ghost predicate Distinct(files: seq<File>) {
    forall i, j :: 0 <= i < j < |files| ==> Takes(files[i].names) !! Takes(files[j].names)
  }

  // ---------------------------------------------------------------------
  // Admission

  /** How many nodes there is room for, and what the storage checks of `add` say of a file. */
  datatype Answers = Answers(room: nat, store: File -> Status)

  /** What decides over a file besides the names of the others. */
  predicate Acceptable(a: Answers, f: File) {
    !Dots(f.names.alias) && NameValid(f.names.name) && f.start.valid <= f.start.size && a.store(f) == Success
  }

  /** What the scanners and `add` say of a file found after the files `seen`. */
  function Admit(a: Answers, seen: seq<File>, f: File): Status {
    if Dots(f.names.alias) || Matched(seen, f.names.alias) then IoError
    else if !NameValid(f.names.name) || f.start.valid > f.start.size || |seen| >= a.room ||
        Matched(seen, f.names.name) then
      IoError
    else a.store(f)
  }

  /** Names are not empty, so the empty alias matches nothing. */
  lemma {:induction false} EmptyUntaken(files: seq<File>)
    requires forall i :: 0 <= i < |files| ==> files[i].names.name != []
    ensures [] !in Taken(files)
  {
    if files != [] {
      EmptyUntaken(files[..|files| - 1]);
      assert files[|files| - 1].names.name != [];
    }
  }

  /** A file is admitted just when it is acceptable, there is room, and its names are still free. */
  lemma AdmitIff(a: Answers, seen: seq<File>, f: File)
    requires forall i :: 0 <= i < |seen| ==> NameValid(seen[i].names.name)
    ensures Admit(a, seen, f) == Success <==> Acceptable(a, f) && |seen| < a.room && Takes(f.names) !! Taken(seen)
  {
    EmptyUntaken(seen);
    if f.names.alias == [] {
      assert Fold(f.names.alias) == [];
    }
  }
}
