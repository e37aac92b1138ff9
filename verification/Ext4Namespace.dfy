/**
 The directory tree of the ext4 provider (src/fs/ext4_fs.cpp): creation, hard
 links, rename and removal, over the link counts and `..` entries of the inodes
 and the name bindings of the directories.
 */
module Ext4Namespace {
  import opened Outcomes
  import opened Seals

  const ROOT: nat := 2
  const LINK_LIMIT: nat := 65535
  const MAX_SEGMENT: nat := 32

  type Name = string

  /** A directory's `up` is its `..` entry; a regular file has none. */
  datatype Record = Record(directory: bool, links: nat, up: nat)

  datatype Entry = Entry(dir: nat, name: Name)

  datatype Space = Space(records: map<nat, Record>, entries: map<Entry, nat>)

  predicate ValidName(name: Name) {
    && 0 < |name| < MAX_SEGMENT && name != "." && name != ".."
    && '/' !in name && '\0' !in name
  }

  predicate DirectoryAt(records: map<nat, Record>, c: nat) { c in records && records[c].directory }

  /** The names of an inode, wherever they are. */
  function Names(entries: map<Entry, nat>, c: nat): set<Entry> { set e | e in entries && entries[e] == c }

  /** The entries of directory `d` that are directories. */
  function Subdirectories(sp: Space, d: nat): set<Entry> {
    set e | e in sp.entries && e.dir == d && DirectoryAt(sp.records, sp.entries[e])
  }

  predicate EmptyDirectory(sp: Space, d: nat) { forall e :: e in sp.entries ==> e.dir != d }

  /** The inode `n` steps of `..` above `d`. */
  function Climb(records: map<nat, Record>, d: nat, n: nat): nat
    decreases n
  {
    if n == 0 || d !in records then d else Climb(records, records[d].up, n - 1)
  }

  ghost predicate Reaches(records: map<nat, Record>, d: nat, a: nat) { exists n: nat :: Climb(records, d, n) == a }

  predicate LiveDirectory(sp: Space, d: nat) { d in sp.records && sp.records[d].directory && sp.records[d].links > 0 }

  // ---------------------------------------------------------------------
  // The invariant

  predicate EntrySound(sp: Space, e: Entry)
    requires e in sp.entries
  {
    && LiveDirectory(sp, e.dir) && ValidName(e.name)
    && sp.entries[e] in sp.records && sp.entries[e] != ROOT
    && (sp.records[sp.entries[e]].directory ==> sp.records[sp.entries[e]].up == e.dir)
  }

  /** Link counts are exact; a directory other than the root is unlinked just when it has no name. */
  predicate CountSound(sp: Space, c: nat)
    requires c in sp.records
  {
    Counted(sp.records[c], c == ROOT, |Names(sp.entries, c)|, |Subdirectories(sp, c)|)
  }

  predicate Counted(r: Record, root: bool, names: nat, subdirectories: nat) {
    if !r.directory then r.links == names
    else if root || names > 0 then r.links == 2 + subdirectories
    else r.links == 0
  }

  ghost predicate EntriesSound(sp: Space) {
    forall k :: Opened(EntrySeal, k) ==> forall e :: e in sp.entries ==> EntrySound(sp, e)
  }

  /** No directory has two names. */
  ghost predicate OneName(sp: Space) {
    forall k :: Opened(NameSeal, k) ==>
      forall e, f :: e in sp.entries && f in sp.entries && sp.entries[e] == sp.entries[f] ==>
        e == f || sp.entries[e] !in sp.records || !sp.records[sp.entries[e]].directory
  }

  ghost predicate CountsSound(sp: Space) {
    forall k :: Opened(CountSeal, k) ==> forall c :: c in sp.records ==> CountSound(sp, c)
  }

  /** Every live directory reaches the root through `..`. */
  ghost predicate Rooted(sp: Space) {
    forall k :: Opened(RootSeal, k) ==> forall d :: LiveDirectory(sp, d) ==> Reaches(sp.records, d, ROOT)
  }

  ghost predicate Tree(sp: Space) {
    && ROOT in sp.records && sp.records[ROOT].directory && sp.records[ROOT].up == ROOT
    && EntriesSound(sp) && OneName(sp) && CountsSound(sp) && Rooted(sp)
  }

  lemma EntryAt(sp: Space, e: Entry)
    requires EntriesSound(sp) && e in sp.entries
    ensures EntrySound(sp, e)
  {
    assert Opened(EntrySeal, 0);
  }

  lemma CountAt(sp: Space, c: nat)
    requires CountsSound(sp) && c in sp.records
    ensures CountSound(sp, c)
  {
    assert Opened(CountSeal, 0);
  }

  /** The root is live, and so is the `..` of every other live directory. */
  lemma LiveAbove(sp: Space, d: nat)
    requires Tree(sp) && LiveDirectory(sp, d)
    ensures LiveDirectory(sp, ROOT) && LiveDirectory(sp, sp.records[d].up)
    ensures d != ROOT ==> exists e :: e in sp.entries && sp.entries[e] == d && e.dir == sp.records[d].up
  {
    CountAt(sp, d);
    CountAt(sp, ROOT);
    if d != ROOT {
      var e :| e in Names(sp.entries, d);
      EntryAt(sp, e);
    }
  }

  // ---------------------------------------------------------------------
  // Climbing

  lemma {:induction false} ClimbAdds(records: map<nat, Record>, d: nat, m: nat, n: nat)
    ensures Climb(records, d, m + n) == Climb(records, Climb(records, d, m), n)
    decreases m
  {
    if m > 0 && d in records {
      ClimbAdds(records, records[d].up, m - 1, n);
    }
  }

  /** Every step up from a live directory is a live directory. */
  lemma {:induction false} ClimbLive(sp: Space, d: nat, n: nat)
    requires Tree(sp) && LiveDirectory(sp, d)
    ensures LiveDirectory(sp, Climb(sp.records, d, n))
    decreases n
  {
    LiveAbove(sp, d);
    if n > 0 {
      ClimbLive(sp, sp.records[d].up, n - 1);
    }
  }

  /** Climbs agree where the live directories keep their `..`. */
  lemma {:induction false} SameClimb(sp: Space, t: Space, d: nat, n: nat)
    requires Tree(sp) && LiveDirectory(sp, d)
    requires forall y :: LiveDirectory(sp, y) ==> y in t.records && t.records[y].up == sp.records[y].up
    ensures Climb(t.records, d, n) == Climb(sp.records, d, n)
    decreases n
  {
    if n > 0 {
      LiveAbove(sp, d);
      SameClimb(sp, t, sp.records[d].up, n - 1);
    }
  }

  lemma StillRooted(sp: Space, t: Space)
    requires Tree(sp)
    requires forall y :: LiveDirectory(sp, y) ==> y in t.records && t.records[y].up == sp.records[y].up
    requires forall y :: LiveDirectory(t, y) ==> LiveDirectory(sp, y)
    ensures Rooted(t)
  {
    forall x | LiveDirectory(t, x) ensures Reaches(t.records, x, ROOT) {
      assert Opened(RootSeal, 0);
      var n: nat :| Climb(sp.records, x, n) == ROOT;
      SameClimb(sp, t, x, n);
    }
  }

  // ---------------------------------------------------------------------
  // One binding more or less

  lemma NamesBound(entries: map<Entry, nat>, e: Entry, c: nat, x: nat)
    requires e !in entries
    ensures Names(entries[e := c], x) == if x == c then Names(entries, x) + {e} else Names(entries, x)
  {
  }

  lemma NamesErased(entries: map<Entry, nat>, e: Entry, x: nat)
    requires e in entries
    ensures Names(entries - {e}, x) == if x == entries[e] then Names(entries, x) - {e} else Names(entries, x)
    ensures x == entries[e] ==> e in Names(entries, x)
  {
  }

  lemma SubdirectoriesBound(sp: Space, t: Space, e: Entry, c: nat, x: nat)
    requires e !in sp.entries && t.entries == sp.entries[e := c]
    requires EntriesSound(sp) && (c !in sp.records || DirectoryAt(sp.records, c) == DirectoryAt(t.records, c))
    requires forall y :: y in sp.records ==> y in t.records && t.records[y].directory == sp.records[y].directory
    ensures Subdirectories(t, x) ==
            if x == e.dir && DirectoryAt(t.records, c) then Subdirectories(sp, x) + {e} else Subdirectories(sp, x)
  {
    forall f | f in sp.entries ensures sp.entries[f] in sp.records {
      EntryAt(sp, f);
    }
  }

  /** An inode without a record has neither names nor entries. */
  lemma NothingBelow(sp: Space, c: nat)
    requires EntriesSound(sp) && c !in sp.records
    ensures Names(sp.entries, c) == {} && Subdirectories(sp, c) == {}
  {
    forall f | f in sp.entries ensures sp.entries[f] != c && f.dir != c {
      EntryAt(sp, f);
    }
  }

  // ---------------------------------------------------------------------
  // Creation

  function Created(sp: Space, d: nat, name: Name, c: nat, directory: bool): Space
    requires d in sp.records
  {
    var parent := if directory then sp.records[d].(links := sp.records[d].links + 1) else sp.records[d];
    Space(sp.records[d := parent][c := Record(directory, if directory then 2 else 1, d)],
          sp.entries[Entry(d, name) := c])
  }

  lemma CreatedEntries(sp: Space, d: nat, name: Name, c: nat, directory: bool)
    requires EntriesSound(sp) && OneName(sp) && ROOT in sp.records
    requires LiveDirectory(sp, d) && ValidName(name) && Entry(d, name) !in sp.entries && c !in sp.records
    ensures EntriesSound(Created(sp, d, name, c, directory)) && OneName(Created(sp, d, name, c, directory))
  {
    assert Opened(NameSeal, 0);
    var t := Created(sp, d, name, c, directory);
    forall e | e in t.entries
      ensures EntrySound(t, e)
      ensures e in sp.entries ==> t.entries[e] != c && t.entries[e] in sp.records
    {
      if e in sp.entries {
        EntryAt(sp, e);
      }
    }
  }

  lemma CreatedCounts(sp: Space, d: nat, name: Name, c: nat, directory: bool)
    requires EntriesSound(sp) && CountsSound(sp) && ROOT in sp.records
    requires LiveDirectory(sp, d) && Entry(d, name) !in sp.entries && c !in sp.records
    ensures CountsSound(Created(sp, d, name, c, directory))
  {
    var t := Created(sp, d, name, c, directory);
    forall x | x in t.records ensures CountSound(t, x) {
      CreatedCount(sp, d, name, c, directory, x);
    }
  }

  lemma CreatedCount(sp: Space, d: nat, name: Name, c: nat, directory: bool, x: nat)
    requires EntriesSound(sp) && CountsSound(sp) && ROOT in sp.records
    requires LiveDirectory(sp, d) && Entry(d, name) !in sp.entries && c !in sp.records
    requires x in Created(sp, d, name, c, directory).records
    ensures CountSound(Created(sp, d, name, c, directory), x)
  {
    var t := Created(sp, d, name, c, directory);
    var e := Entry(d, name);
    NamesBound(sp.entries, e, c, x);
    SubdirectoriesBound(sp, t, e, c, x);
    NothingBelow(sp, c);
    if x in sp.records {
      CountAt(sp, x);
    }
  }

  /** Creating a file or a directory keeps the tree. */
  lemma CreatedTree(sp: Space, d: nat, name: Name, c: nat, directory: bool)
    requires Tree(sp) && LiveDirectory(sp, d) && ValidName(name) && Entry(d, name) !in sp.entries && c !in sp.records
    ensures Tree(Created(sp, d, name, c, directory))
  {
    var t := Created(sp, d, name, c, directory);
    CreatedEntries(sp, d, name, c, directory);
    CreatedCounts(sp, d, name, c, directory);
    forall x | LiveDirectory(t, x) ensures Reaches(t.records, x, ROOT) {
      var y := if x == c then d else x;
      assert Opened(RootSeal, 0);
      assert LiveDirectory(sp, y);
      var n: nat :| Climb(sp.records, y, n) == ROOT;
      SameClimb(sp, t, y, n);
      assert Climb(t.records, y, n) == ROOT;
      assert x == c ==> Climb(t.records, x, n + 1) == Climb(t.records, d, n);
    }
  }

  // ---------------------------------------------------------------------
  // Hard links

  function Linked(sp: Space, e: Entry, c: nat): Space
    requires c in sp.records
  {
    Space(sp.records[c := sp.records[c].(links := sp.records[c].links + 1)], sp.entries[e := c])
  }

  lemma LinkedCounts(sp: Space, e: Entry, c: nat)
    requires EntriesSound(sp) && CountsSound(sp) && e !in sp.entries && c in sp.records && !sp.records[c].directory
    ensures CountsSound(Linked(sp, e, c))
  {
    var t := Linked(sp, e, c);
    forall x | x in t.records ensures CountSound(t, x) {
      LinkedCount(sp, t, e, c, x);
    }
  }

  lemma LinkedCount(sp: Space, t: Space, e: Entry, c: nat, x: nat)
    requires EntriesSound(sp) && CountsSound(sp) && e !in sp.entries && c in sp.records && !sp.records[c].directory
    requires t == Linked(sp, e, c) && x in sp.records
    ensures CountSound(t, x)
  {
    CountAt(sp, x);
    NamesBound(sp.entries, e, c, x);
    SubdirectoriesBound(sp, t, e, c, x);
  }

  /** Another name for a file keeps the tree. */
  lemma LinkedTree(sp: Space, e: Entry, c: nat)
    requires Tree(sp) && LiveDirectory(sp, e.dir) && ValidName(e.name) && e !in sp.entries
    requires c in sp.records && !sp.records[c].directory
    ensures Tree(Linked(sp, e, c))
  {
    var t := Linked(sp, e, c);
    LinkedEntries(sp, e, c);
    LinkedCounts(sp, e, c);
    StillRooted(sp, t);
  }

  lemma LinkedEntries(sp: Space, e: Entry, c: nat)
    requires EntriesSound(sp) && OneName(sp) && ROOT in sp.records && sp.records[ROOT].directory
    requires LiveDirectory(sp, e.dir) && ValidName(e.name) && e !in sp.entries
    requires c in sp.records && !sp.records[c].directory
    ensures EntriesSound(Linked(sp, e, c)) && OneName(Linked(sp, e, c))
  {
    assert Opened(NameSeal, 0);
    var t := Linked(sp, e, c);
    forall f | f in t.entries ensures EntrySound(t, f) {
      if f in sp.entries {
        EntryAt(sp, f);
      }
    }
  }

  // ---------------------------------------------------------------------
  // Removal

  function Removed(sp: Space, e: Entry): Space
    requires EntriesSound(sp) && e in sp.entries
  {
    EntryAt(sp, e);
    var c := sp.entries[e];
    var directory := sp.records[c].directory;
    var victim := sp.records[c].(links := if directory || sp.records[c].links == 0 then 0 else sp.records[c].links - 1);
    var parent := if directory && sp.records[e.dir].links > 0
        then sp.records[e.dir].(links := sp.records[e.dir].links - 1)
                  else sp.records[e.dir];
    Space(sp.records[e.dir := parent][c := victim], sp.entries - {e})
  }

  /** A removed directory must be empty; it is then not its own parent, and its parent keeps two links. */
  lemma RemovedParts(sp: Space, e: Entry)
    requires Tree(sp) && e in sp.entries
    requires DirectoryAt(sp.records, sp.entries[e]) ==> EmptyDirectory(sp, sp.entries[e])
    ensures sp.entries[e] in sp.records && sp.records[sp.entries[e]].links > 0 && sp.entries[e] != e.dir
    ensures e.dir in sp.records
    ensures sp.records[sp.entries[e]].directory ==> sp.records[sp.entries[e]].links == 2 && sp.records[e.dir].links >= 3
  {
    EntryAt(sp, e);
    var c := sp.entries[e];
    CountAt(sp, c);
    CountAt(sp, e.dir);
    assert e in Names(sp.entries, c);
    if sp.records[c].directory {
      assert Subdirectories(sp, c) == {};
      assert e in Subdirectories(sp, e.dir);
      LiveAbove(sp, e.dir);
    }
  }

  lemma RemovedEntries(sp: Space, e: Entry)
    requires Tree(sp) && e in sp.entries
    requires DirectoryAt(sp.records, sp.entries[e]) ==> EmptyDirectory(sp, sp.entries[e])
    ensures EntriesSound(Removed(sp, e)) && OneName(Removed(sp, e))
  {
    RemovedParts(sp, e);
    var t := Removed(sp, e);
    forall f | f in t.entries ensures EntrySound(t, f) {
      EntryAt(sp, f);
    }
    NamesLeft(sp, t, e);
  }

  lemma NamesLeft(sp: Space, t: Space, e: Entry)
    requires EntriesSound(sp) && OneName(sp) && e in sp.entries && t.entries == sp.entries - {e}
    requires forall y :: y in sp.records ==> y in t.records && t.records[y].directory == sp.records[y].directory
    ensures OneName(t)
  {
    assert Opened(NameSeal, 0);
    forall f | f in t.entries ensures t.entries[f] == sp.entries[f] && sp.entries[f] in sp.records {
      EntryAt(sp, f);
    }
  }

  lemma SubdirectoriesErased(sp: Space, t: Space, e: Entry, x: nat)
    requires EntriesSound(sp) && e in sp.entries && t.entries == sp.entries - {e}
    requires forall y :: y in sp.records ==> y in t.records && t.records[y].directory == sp.records[y].directory
    ensures Subdirectories(t, x) ==
            if x == e.dir && DirectoryAt(sp.records, sp.entries[e]) then Subdirectories(sp, x) - {e}
                else Subdirectories(sp, x)
    ensures x == e.dir && DirectoryAt(sp.records, sp.entries[e]) ==> e in Subdirectories(sp, x)
  {
    forall f | f in sp.entries ensures sp.entries[f] in sp.records {
      EntryAt(sp, f);
    }
  }

  /** With one name per directory, erasing a directory's name leaves it none. */
  lemma LastName(sp: Space, e: Entry)
    requires OneName(sp) && e in sp.entries && DirectoryAt(sp.records, sp.entries[e])
    ensures Names(sp.entries, sp.entries[e]) == {e}
  {
    assert Opened(NameSeal, 0);
  }

  lemma RemovedCount(sp: Space, e: Entry, x: nat)
    requires Tree(sp) && e in sp.entries && x in Removed(sp, e).records
    requires DirectoryAt(sp.records, sp.entries[e]) ==> EmptyDirectory(sp, sp.entries[e])
    ensures CountSound(Removed(sp, e), x)
  {
    var t, c := Removed(sp, e), sp.entries[e];
    RemovedParts(sp, e);
    EntryAt(sp, e);
    CountAt(sp, x);
    NamesErased(sp.entries, e, x);
    SubdirectoriesErased(sp, t, e, x);
    var names, below := |Names(sp.entries, x)|, |Subdirectories(sp, x)|;
    if x == c {
      assert |Names(t.entries, x)| == names - 1;
      if sp.records[c].directory {
        LastName(sp, e);
      }
    } else if x == e.dir && sp.records[c].directory {
      assert |Subdirectories(t, x)| == below - 1 && |Names(t.entries, x)| == names;
      assert t.records[x] == sp.records[x].(links := sp.records[x].links - 1);
    } else {
      assert |Subdirectories(t, x)| == below && |Names(t.entries, x)| == names && t.records[x] == sp.records[x];
    }
  }

  lemma RemovedCounts(sp: Space, e: Entry)
    requires Tree(sp) && e in sp.entries
    requires DirectoryAt(sp.records, sp.entries[e]) ==> EmptyDirectory(sp, sp.entries[e])
    ensures CountsSound(Removed(sp, e))
  {
    forall x | x in Removed(sp, e).records ensures CountSound(Removed(sp, e), x) {
      RemovedCount(sp, e, x);
    }
  }

  /** Removing a file's name, or an empty directory, keeps the tree. */
  lemma RemovedTree(sp: Space, e: Entry)
    requires Tree(sp) && e in sp.entries
    requires DirectoryAt(sp.records, sp.entries[e]) ==> EmptyDirectory(sp, sp.entries[e])
    ensures Tree(Removed(sp, e))
  {
    var t := Removed(sp, e);
    RemovedParts(sp, e);
    EntryAt(sp, e);
    RemovedEntries(sp, e);
    RemovedCounts(sp, e);
    StillRooted(sp, t);
  }

  // ---------------------------------------------------------------------
  // Destruction

  function Destroyed(sp: Space, c: nat): Space { sp.(records := sp.records - {c}) }

  /** An unlinked inode is not the root; no entry names it, none is in it, and no live directory has it above. */
  lemma UnlinkedAlone(sp: Space, c: nat)
    requires Tree(sp) && c in sp.records && sp.records[c].links == 0
    ensures c != ROOT
    ensures forall e :: e in sp.entries ==> sp.entries[e] != c && e.dir != c
    ensures forall d :: LiveDirectory(sp, d) ==> d != c && sp.records[d].up != c
  {
    CountAt(sp, c);
    assert Names(sp.entries, c) == {};
    forall e | e in sp.entries ensures sp.entries[e] != c && e.dir != c {
      EntryAt(sp, e);
      assert sp.entries[e] == c ==> e in Names(sp.entries, c);
    }
    forall d | LiveDirectory(sp, d) ensures sp.records[d].up != c {
      LiveAbove(sp, d);
    }
  }

  lemma DestroyedCounts(sp: Space, c: nat)
    requires Tree(sp) && c in sp.records && sp.records[c].links == 0
    ensures CountsSound(Destroyed(sp, c))
  {
    UnlinkedAlone(sp, c);
    var t := Destroyed(sp, c);
    forall x | x in t.records ensures CountSound(t, x) {
      CountAt(sp, x);
      assert Subdirectories(t, x) == Subdirectories(sp, x);
    }
  }

  /** Releasing the number of an unlinked inode keeps the tree. */
  lemma DestroyedTree(sp: Space, c: nat)
    requires Tree(sp) && c in sp.records && sp.records[c].links == 0
    ensures Tree(Destroyed(sp, c))
  {
    UnlinkedAlone(sp, c);
    var t := Destroyed(sp, c);
    forall e | e in t.entries ensures EntrySound(t, e) {
      EntryAt(sp, e);
    }
    assert OneName(t) by {
      assert Opened(NameSeal, 0);
    }
    DestroyedCounts(sp, c);
    StillRooted(sp, t);
  }

  // ---------------------------------------------------------------------
  // Moves

  /** Entry `e` becomes entry `f`, which is not taken. */
  function Moved(sp: Space, e: Entry, f: Entry): Space
    requires e in sp.entries && sp.entries[e] in sp.records && e.dir in sp.records && f.dir in sp.records
  {
    var c := sp.entries[e];
    var entries := (sp.entries - {e})[f := c];
    if !sp.records[c].directory then Space(sp.records, entries)
    else if e.dir == f.dir then Space(sp.records, entries)
    else
      var from := sp.records[e.dir];
      var to := sp.records[f.dir];
      Space(sp.records[e.dir := from.(links := if from.links > 0 then from.links - 1 else 0)]
                      [f.dir := to.(links := to.links + 1)]
                      [c := sp.records[c].(up := f.dir)], entries)
  }

  lemma MovedKeys(sp: Space, e: Entry, f: Entry)
    requires e in sp.entries && sp.entries[e] in sp.records && e.dir in sp.records && f.dir in sp.records
    ensures Moved(sp, e, f).records.Keys == sp.records.Keys
  {
  }

  /** The moved directory is neither the old nor the new parent. */
  lemma MovedParts(sp: Space, e: Entry, f: Entry)
    requires Tree(sp) && e in sp.entries && LiveDirectory(sp, f.dir)
    requires DirectoryAt(sp.records, sp.entries[e]) ==> !Reaches(sp.records, f.dir, sp.entries[e])
    ensures LiveDirectory(sp, e.dir) && sp.entries[e] in sp.records && sp.entries[e] != ROOT
    ensures DirectoryAt(sp.records, sp.entries[e]) ==> sp.entries[e] != f.dir && sp.entries[e] != e.dir
    ensures DirectoryAt(sp.records, sp.entries[e]) ==>
            sp.records[e.dir].links >= 3 && sp.records[sp.entries[e]].up == e.dir
  {
    EntryAt(sp, e);
    CountAt(sp, e.dir);
    var c := sp.entries[e];
    if sp.records[c].directory {
      assert Climb(sp.records, f.dir, 0) == f.dir;
      assert e in Subdirectories(sp, e.dir);
      LiveAbove(sp, e.dir);
      if c == e.dir {
        assert Opened(RootSeal, 0);
        var n: nat :| Climb(sp.records, c, n) == ROOT;
        Stuck(sp.records, c, n);
      }
    }
  }

  lemma {:induction false} Stuck(records: map<nat, Record>, d: nat, n: nat)
    requires d in records && records[d].up == d
    ensures Climb(records, d, n) == d
  {
    if n > 0 {
      Stuck(records, d, n - 1);
    }
  }

  ghost predicate Movable(sp: Space, e: Entry, f: Entry) {
    && Tree(sp) && e in sp.entries && f !in sp.entries && LiveDirectory(sp, f.dir) && ValidName(f.name)
    && (DirectoryAt(sp.records, sp.entries[e]) ==> !Reaches(sp.records, f.dir, sp.entries[e]))
  }

  lemma MovedEntries(sp: Space, e: Entry, f: Entry)
    requires Movable(sp, e, f)
    ensures LiveDirectory(sp, e.dir) && sp.entries[e] in sp.records
    ensures EntriesSound(Moved(sp, e, f)) && OneName(Moved(sp, e, f))
  {
    MovedParts(sp, e, f);
    var t := Moved(sp, e, f);
    var c := sp.entries[e];
    if sp.records[c].directory {
      LastName(sp, e);
    }
    forall g | g in t.entries ensures EntrySound(t, g) {
      if g != f {
        EntryAt(sp, g);
        assert sp.entries[g] == c && sp.records[c].directory ==> g in Names(sp.entries, c);
      }
    }
    MovedNames(sp, t, e, f);
  }

  lemma MovedNames(sp: Space, t: Space, e: Entry, f: Entry)
    requires EntriesSound(sp) && OneName(sp) && e in sp.entries && t.entries == (sp.entries - {e})[f := sp.entries[e]]
    requires forall y :: y in sp.records ==> y in t.records && t.records[y].directory == sp.records[y].directory
    requires f !in sp.entries
    ensures OneName(t)
  {
    assert Opened(NameSeal, 0);
    forall g | g in sp.entries ensures sp.entries[g] in sp.records {
      EntryAt(sp, g);
    }
  }

  lemma MovedNamesCount(entries: map<Entry, nat>, e: Entry, f: Entry, x: nat)
    requires e in entries && f !in entries
    ensures |Names((entries - {e})[f := entries[e]], x)| == |Names(entries, x)|
  {
    NamesErased(entries, e, x);
    NamesBound(entries - {e}, f, entries[e], x);
  }

  lemma MovedCount(sp: Space, e: Entry, f: Entry, x: nat)
    requires Movable(sp, e, f) && x in sp.records
    ensures LiveDirectory(sp, e.dir) && sp.entries[e] in sp.records && x in Moved(sp, e, f).records
    ensures CountSound(Moved(sp, e, f), x)
  {
    MovedParts(sp, e, f);
    CountAt(sp, x);
    CountAt(sp, e.dir);
    CountAt(sp, f.dir);
    MovedNamesCount(sp.entries, e, f, x);
    MovedSubdirectories(sp, Moved(sp, e, f), e, f, x);
  }

  lemma MovedSubdirectories(sp: Space, t: Space, e: Entry, f: Entry, x: nat)
    requires EntriesSound(sp) && e in sp.entries && t.entries == (sp.entries - {e})[f := sp.entries[e]]
    requires f !in sp.entries
    requires forall y :: y in sp.records ==> y in t.records && t.records[y].directory == sp.records[y].directory
    ensures |Subdirectories(t, x)| == |Subdirectories(sp, x)|
             - (if x == e.dir && DirectoryAt(sp.records, sp.entries[e]) then 1 else 0)
             + (if x == f.dir && DirectoryAt(sp.records, sp.entries[e]) then 1 else 0)
  {
    forall g | g in sp.entries ensures sp.entries[g] in sp.records {
      EntryAt(sp, g);
    }
    var kept := Subdirectories(sp, x) - {e};
    assert Subdirectories(t, x) == if x == f.dir && DirectoryAt(sp.records, sp.entries[e]) then kept + {f} else kept;
  }

  /** The climb to the root goes on through the new parent once it meets the moved directory. */
  lemma {:induction false} MovedReach(sp: Space, e: Entry, f: Entry, d: nat, n: nat)
    requires Movable(sp, e, f) && LiveDirectory(sp, d) && Climb(sp.records, d, n) == ROOT
    ensures LiveDirectory(sp, e.dir) && sp.entries[e] in sp.records && Reaches(Moved(sp, e, f).records, d, ROOT)
    decreases n
  {
    MovedParts(sp, e, f);
    var t := Moved(sp, e, f);
    if n == 0 {
      assert Climb(t.records, d, 0) == ROOT;
    } else if d == sp.entries[e] && e.dir != f.dir {
      MovedAbove(sp, e, f);
      var m: nat :| Climb(t.records, f.dir, m) == ROOT;
      assert Climb(t.records, d, m + 1) == ROOT;
    } else {
      LiveAbove(sp, d);
      MovedReach(sp, e, f, sp.records[d].up, n - 1);
      var m: nat :| Climb(t.records, sp.records[d].up, m) == ROOT;
      assert Climb(t.records, d, m + 1) == ROOT;
    }
  }

  /** The new parent's own climb does not meet the moved directory, so it is as before. */
  lemma MovedAbove(sp: Space, e: Entry, f: Entry)
    requires Movable(sp, e, f) && DirectoryAt(sp.records, sp.entries[e])
    ensures LiveDirectory(sp, e.dir) && Reaches(Moved(sp, e, f).records, f.dir, ROOT)
  {
    MovedParts(sp, e, f);
    assert Opened(RootSeal, 0);
    var n: nat :| Climb(sp.records, f.dir, n) == ROOT;
    MovedClimb(sp, e, f, n);
  }

  lemma {:induction false} MovedClimb(sp: Space, e: Entry, f: Entry, n: nat)
    requires Movable(sp, e, f) && DirectoryAt(sp.records, sp.entries[e])
    ensures LiveDirectory(sp, e.dir) && Climb(Moved(sp, e, f).records, f.dir, n) == Climb(sp.records, f.dir, n)
  {
    MovedParts(sp, e, f);
    if n > 0 {
      MovedClimb(sp, e, f, n - 1);
      ClimbAdds(sp.records, f.dir, n - 1, 1);
      ClimbAdds(Moved(sp, e, f).records, f.dir, n - 1, 1);
      ClimbLive(sp, f.dir, n - 1);
      var x := Climb(sp.records, f.dir, n - 1);
      assert x != sp.entries[e];
      assert Climb(sp.records, x, 1) == sp.records[x].up;
    }
  }

  /** A move to a free name outside the moved directory keeps the tree. */
  lemma MovedTree(sp: Space, e: Entry, f: Entry)
    requires Movable(sp, e, f)
    ensures LiveDirectory(sp, e.dir) && sp.entries[e] in sp.records && Tree(Moved(sp, e, f))
  {
    MovedParts(sp, e, f);
    MovedEntries(sp, e, f);
    var t := Moved(sp, e, f);
    forall x | x in t.records ensures CountSound(t, x) {
      MovedCount(sp, e, f, x);
    }
    forall x | LiveDirectory(t, x) ensures Reaches(t.records, x, ROOT) {
      assert Opened(RootSeal, 0);
      assert LiveDirectory(sp, x);
      var n: nat :| Climb(sp.records, x, n) == ROOT;
      MovedReach(sp, e, f, x, n);
    }
  }

  // ---------------------------------------------------------------------
  // The height of a directory

  /** The root is first met `n` steps above `d`. */
  ghost predicate First(records: map<nat, Record>, d: nat, n: nat) {
    Climb(records, d, n) == ROOT && forall m: nat :: m < n ==> Climb(records, d, m) != ROOT
  }

  lemma {:induction false} FirstExists(records: map<nat, Record>, d: nat, n: nat) returns (k: nat)
    requires Climb(records, d, n) == ROOT
    ensures k <= n && First(records, d, k)
    decreases n
  {
    if m: nat :| m < n && Climb(records, d, m) == ROOT {
      k := FirstExists(records, d, m);
    } else {
      k := n;
    }
  }

  /** Directories on the way up are all different, so there are at least as many inodes as steps. */
  lemma {:induction false} Levels(sp: Space, d: nat, n: nat) returns (levels: set<nat>)
    requires Tree(sp) && LiveDirectory(sp, d) && First(sp.records, d, n)
    ensures |levels| == n + 1 && levels <= sp.records.Keys
    ensures forall x :: x in levels ==> exists k: nat :: k <= n && First(sp.records, x, k)
    decreases n
  {
    if n == 0 {
      levels := {d};
    } else {
      LiveAbove(sp, d);
      var up := sp.records[d].up;
      assert Climb(sp.records, d, 0) == d;
      forall m: nat | m < n - 1 ensures Climb(sp.records, up, m) != ROOT {
        assert Climb(sp.records, d, m + 1) == Climb(sp.records, up, m);
      }
      var above := Levels(sp, up, n - 1);
      levels := above + {d};
    }
  }

  lemma {:induction false} AtMost(s: set<nat>, limit: nat)
    requires forall x :: x in s ==> 1 <= x <= limit
    ensures |s| <= limit
  {
    if limit > 0 {
      AtMost(s - {limit}, limit - 1);
      assert s == (if limit in s then {limit} else {}) + (s - {limit});
    } else {
      assert s == {};
    }
  }

  lemma SubsetSize(a: set<nat>, b: set<nat>)
    requires a <= b
    ensures |a| <= |b|
  {
    assert b == a + (b - a);
  }

  /** Fewer steps than inodes lead to the root. */
  lemma HeightBelow(sp: Space, d: nat, limit: nat) returns (n: nat)
    requires Tree(sp) && LiveDirectory(sp, d) && forall x :: x in sp.records ==> 1 <= x <= limit
    ensures n < limit && First(sp.records, d, n)
  {
    assert Opened(RootSeal, 0);
    var k: nat :| Climb(sp.records, d, k) == ROOT;
    n := FirstExists(sp.records, d, k);
    var levels := Levels(sp, d, n);
    SubsetSize(levels, sp.records.Keys);
    AtMost(sp.records.Keys, limit);
  }

  /** Above the root there is only the root. */
  lemma AboveRoot(sp: Space, d: nat, n: nat, source: nat)
    requires Tree(sp) && Climb(sp.records, d, n) == ROOT && source != ROOT
    requires forall m: nat :: m < n ==> Climb(sp.records, d, m) != source
    ensures !Reaches(sp.records, d, source)
  {
    forall m: nat ensures Climb(sp.records, d, m) != source {
      if m >= n {
        ClimbAdds(sp.records, d, n, m - n);
        Stuck(sp.records, ROOT, m - n);
      }
    }
  }

  /**
   What the namespace asks of the rest of the volume: what `writable` says of an inode's
   record, whether a node slot is had for an entry to be removed, and whether there is room
   for a new entry.
   */
  datatype Answers = Answers(writable: nat -> Status, slot: Status, room: Status)

  /** The names and link counts of a mounted volume with inodes numbered 1 to `capacity`. */
  class Namespace {
    const capacity: nat
    var records: map<nat, Record>
    var entries: map<Entry, nat>

    function Now(): Space
      reads this
    {
      Space(records, entries)
    }

    ghost predicate Valid()
      reads this
    {
      Tree(Now()) && forall c :: c in records ==> 1 <= c <= capacity
    }

    /**
     `validate_move`: walks `..` from the destination, and refuses exactly when it
     meets the source. The step bound never cuts a walk short.
     */
    method ValidateMove(source: nat, destination: nat) returns (s: Status)
      requires Valid() && LiveDirectory(Now(), destination)
      ensures s == if Reaches(records, destination, source) then InvalidArgument else Success
    {
      ghost var n := HeightBelow(Now(), destination, capacity);
      var current := destination;
      for steps := 0 to capacity
        invariant steps <= n && current == Climb(records, destination, steps)
        invariant forall m: nat :: m < steps ==> Climb(records, destination, m) != source
      {
        if current == source {
          return InvalidArgument;
        }
        if current == ROOT {
          AboveRoot(Now(), destination, steps, source);
          return Success;
        }
        ClimbLive(Now(), destination, steps);
        LiveAbove(Now(), current);
        var next := records[current].up;
        ClimbAdds(records, destination, steps, 1);
        assert Climb(records, current, 1) == next;
        if next == current {
          Stuck(records, current, n - steps);
          ClimbAdds(records, destination, steps, n - steps);
          return IoError;
        }
        current := next;
      }
      return IoError;
    }

    constructor (capacity: nat, image: Space)
      requires Tree(image) && forall c :: c in image.records ==> 1 <= c <= capacity
      ensures Valid() && Now() == image
    {
      this.capacity := capacity;
      records, entries := image.records, image.entries;
    }

    /** `create_active`; `number` is what the inode allocator answers. */
    method Create(d: nat, name: Name, directory: bool, number: Result<nat>, a: Answers) returns (s: Status)
      requires Valid() && d in records
      requires number.Ok? ==> number.value !in records && 1 <= number.value <= capacity
      requires number.Err? ==> number.status != Success
      modifies this
      ensures Valid()
      ensures s == Success <==>
              && ValidName(name) && old(LiveDirectory(Now(), d)) && Entry(d, name) !in old(entries)
              && a.writable(d) == Success
              && (directory ==> old(records[d].links) != LINK_LIMIT) && number.Ok?
      ensures s == Success ==> Now() == Created(old(Now()), d, name, number.value, directory)
      ensures s != Success ==> Now() == old(Now())
    {
      if !ValidName(name) {
        return InvalidArgument;
      }
      if !records[d].directory {
        return NotDirectory;
      }
      if a.writable(d) != Success {
        return a.writable(d);
      }
      if records[d].links == 0 {
        return NotFound;
      }
      if Entry(d, name) in entries {
        return AlreadyExists;
      }
      if directory && records[d].links == LINK_LIMIT {
        return LinkLimit;
      }
      if number.Err? {
        return number.status;
      }
      var c := number.value;
      CreatedTree(Now(), d, name, c, directory);
      records := records[c := Record(directory, if directory then 2 else 1, d)];
      entries := entries[Entry(d, name) := c];
      if directory {
        records := records[d := records[d].(links := records[d].links + 1)];
      }
      assert records == Created(old(Now()), d, name, c, directory).records;
      return Success;
    }

    /** `insert`: a directory entry counts as a link to its parent. */
    method Insert(e: Entry, c: nat)
      requires e.dir in records && c in records
      modifies this
      ensures entries == old(entries)[e := c]
      ensures records == if old(records[c].directory)
                         then old(records)[e.dir := old(records[e.dir]).(links := old(records[e.dir].links) + 1)]
                         else old(records)
    {
      entries := entries[e := c];
      if records[c].directory {
        records := records[e.dir := records[e.dir].(links := records[e.dir].links + 1)];
      }
    }

    /** `link_active`. */
    method Link(d: nat, name: Name, c: nat, a: Answers) returns (s: Status)
      requires Valid() && d in records && c in records
      modifies this
      ensures Valid()
      ensures s == Success <==>
              && ValidName(name) && old(LiveDirectory(Now(), d)) && old(!records[c].directory)
              && 0 < old(records[c].links) != LINK_LIMIT && Entry(d, name) !in old(entries)
              && a.writable(d) == Success && a.writable(c) == Success && a.room == Success
      ensures s == Success ==> Now() == Linked(old(Now()), Entry(d, name), c)
      ensures s != Success ==> Now() == old(Now())
    {
      if !ValidName(name) {
        return InvalidArgument;
      }
      if !records[d].directory {
        return NotDirectory;
      }
      if records[c].directory {
        return Denied;
      }
      if a.writable(d) != Success {
        return a.writable(d);
      }
      if a.writable(c) != Success {
        return a.writable(c);
      }
      var links := records[c].links;
      if links == 0 || records[d].links == 0 {
        return NotFound;
      }
      if links == LINK_LIMIT {
        return LinkLimit;
      }
      if Entry(d, name) in entries {
        return AlreadyExists;
      }
      if a.room != Success {
        return a.room;
      }
      LinkedTree(Now(), Entry(d, name), c);
      Insert(Entry(d, name), c);
      records := records[c := records[c].(links := links + 1)];
      return Success;
    }

    /** `remove_active`. */
    method Remove(d: nat, name: Name, directory: bool, a: Answers) returns (s: Status)
      requires Valid() && d in records
      modifies this
      ensures Valid()
      ensures s == Success <==>
              && ValidName(name) && Entry(d, name) in old(entries)
              && a.writable(d) == Success && a.slot == Success && a.writable(old(entries)[Entry(d, name)]) == Success
              && DirectoryAt(old(records), old(entries)[Entry(d, name)]) == directory
              && (directory ==> EmptyDirectory(old(Now()), old(entries)[Entry(d, name)]))
      ensures s == Success ==> EntriesSound(old(Now())) && Now() == Removed(old(Now()), Entry(d, name))
      ensures s != Success ==> Now() == old(Now())
    {
      if !ValidName(name) {
        return InvalidArgument;
      }
      if a.writable(d) != Success {
        return a.writable(d);
      }
      if !records[d].directory {
        NoEntries(Now(), d);
        return InvalidArgument;
      }
      var e := Entry(d, name);
      if e !in entries {
        return NotFound;
      }
      if a.slot != Success {
        return a.slot;
      }
      EntryAt(Now(), e);
      var c := entries[e];
      if a.writable(c) != Success {
        return a.writable(c);
      }
      if records[c].directory != directory {
        return InvalidArgument;
      }
      if directory && !EmptyDirectory(Now(), c) {
        return Busy;
      }
      RemovedParts(Now(), e);
      RemovedTree(Now(), e);
      var links := records[c].links;
      if links == 0 || (directory && (links != 2 || records[d].links < 3)) {
        return IoError;
      }
      entries := entries - {e};
      records := records[c := records[c].(links := if directory then 0 else links - 1)];
      if directory {
        records := records[d := records[d].(links := records[d].links - 1)];
      }
      assert records == Removed(old(Now()), e).records;
      return Success;
    }

    /** What `destroy` leaves of an inode: a linked one is corruption, an unlinked one gives its number back. */
    method Destroy(c: nat) returns (s: Status)
      requires Valid() && c in records
      modifies this
      ensures Valid()
      ensures s == if old(records[c].links) == 0 then Success else IoError
      ensures s == Success ==> c != ROOT && Now() == Destroyed(old(Now()), c)
      ensures s != Success ==> Now() == old(Now())
    {
      if records[c].links != 0 {
        return IoError;
      }
      UnlinkedAlone(Now(), c);
      DestroyedTree(Now(), c);
      records := records - {c};
      return Success;
    }

    /** `rename_active`. */
    method Rename(d: nat, name: Name, to: nat, newName: Name, a: Answers) returns (s: Status)
      requires Valid() && d in records && to in records
      modifies this
      ensures Valid()
      ensures s != Success ==> Now() == old(Now())
      ensures s == Success <==> MayRename(old(Now()), Entry(d, name), Entry(to, newName), a)
      ensures SameFile(old(Now()), Entry(d, name), Entry(to, newName)) ==> Now() == old(Now())
      ensures s == Success && !SameFile(old(Now()), Entry(d, name), Entry(to, newName)) ==>
                Tree(old(Now())) && Now() == Renamed(old(Now()), Entry(d, name), Entry(to, newName))
    {
      var e, f := Entry(d, name), Entry(to, newName);
      s := CheckRename(e, f, a);
      if s != Success || (f in entries && entries[f] == entries[e]) {
        return;
      }
      RenamedTree(Now(), e, f);
      if f in entries {
        RelinkOver(e, f);
      } else {
        RelinkFree(e, f);
      }
    }

    /** Everything `rename_active` checks before it changes anything. */
    method CheckRename(e: Entry, f: Entry, a: Answers) returns (s: Status)
      requires Valid() && e.dir in records && f.dir in records
      ensures s == Success <==> MayRename(Now(), e, f, a)
    {
      if !ValidName(e.name) || !ValidName(f.name) {
        NotRenamable(Now(), e, f);
        return InvalidArgument;
      }
      if !records[e.dir].directory || !records[f.dir].directory {
        NotRenamable(Now(), e, f);
        return NotDirectory;
      }
      if a.writable(e.dir) != Success {
        return a.writable(e.dir);
      }
      if a.writable(f.dir) != Success {
        return a.writable(f.dir);
      }
      if records[e.dir].links == 0 || records[f.dir].links == 0 {
        NotRenamable(Now(), e, f);
        return NotFound;
      }
      if e !in entries {
        return NotFound;
      }
      EntryAt(Now(), e);
      if entries[e] == ROOT {
        return Busy;
      }
      if a.writable(entries[e]) != Success {
        return a.writable(entries[e]);
      }
      CountAt(Now(), entries[e]);
      assert e in Names(entries, entries[e]);
      if records[entries[e]].links == 0 {
        return IoError;
      }
      if f in entries {
        if entries[f] == entries[e] {
          return Success;
        }
        s := CheckTarget(e, f, a);
        if s != Success {
          return;
        }
      }
      if records[entries[e]].directory {
        s := CheckDirectory(e, f);
        if s != Success {
          return;
        }
      }
      return if f !in entries then a.room else Success;
    }

    /** The checks on an entry that a rename replaces; on a sound volume none of them finds corruption. */
    method CheckTarget(e: Entry, f: Entry, a: Answers) returns (s: Status)
      requires Valid() && e in entries && f in entries
      ensures s == Success <==>
              && DirectoryAt(records, entries[f]) == DirectoryAt(records, entries[e])
              && (DirectoryAt(records, entries[f]) ==> EmptyDirectory(Now(), entries[f]))
              && a.writable(entries[f]) == Success && a.slot == Success
      ensures s == IoError ==> a.writable(entries[f]) == IoError || a.slot == IoError
    {
      EntryAt(Now(), e);
      EntryAt(Now(), f);
      var v, directory := entries[f], records[entries[e]].directory;
      if directory && !records[v].directory {
        return NotDirectory;
      }
      if !directory && records[v].directory {
        return IsDirectory;
      }
      if a.writable(v) != Success {
        return a.writable(v);
      }
      if directory && !EmptyDirectory(Now(), v) {
        return NotEmpty;
      }
      RemovedParts(Now(), f);
      if records[v].links == 0 || (directory &&
          (records[v].up != f.dir || records[v].links != 2 || records[f.dir].links < 3)) {
        return IoError;
      }
      return a.slot;
    }

    /** The checks on a directory that a rename moves. */
    method CheckDirectory(e: Entry, f: Entry) returns (s: Status)
      requires Valid() && e in entries && DirectoryAt(records, entries[e]) && LiveDirectory(Now(), f.dir)
      ensures s == Success <==>
              !Reaches(records, f.dir, entries[e]) && (f in entries || records[f.dir].links != LINK_LIMIT)
      ensures s != IoError
    {
      var c := entries[e];
      EntryAt(Now(), e);
      CountAt(Now(), c);
      CountAt(Now(), e.dir);
      LiveAbove(Now(), e.dir);
      assert e in Names(entries, c) && e in Subdirectories(Now(), e.dir);
      assert e.dir != ROOT ==> Names(entries, e.dir) != {};
      if records[c].up != e.dir || records[c].links < 2 || records[e.dir].links < 3 {
        return IoError;
      }
      s := ValidateMove(c, f.dir);
      if s == Success && f !in entries && records[f.dir].links == LINK_LIMIT {
        return LinkLimit;
      }
    }

    /** The updates of a rename over another entry, in the order they are written. */
    method RelinkOver(e: Entry, f: Entry)
      requires Tree(Now()) && Renamable(Now(), e, f) && f in entries
      modifies this
      ensures EntriesSound(old(Now())) && Now() == Renamed(old(Now()), e, f)
    {
      EntryAt(Now(), e);
      var c := entries[e];
      var directory := records[c].directory;
      var victim := entries[f];
      EntryAt(Now(), f);
      RemovedParts(Now(), f);
      MovedParts(Now(), e, f);
      entries := entries[f := c];
      entries := entries - {e};
      if directory {
        if e.dir != f.dir {
          records := records[c := records[c].(up := f.dir)];
        }
        records := records[e.dir := records[e.dir].(links := records[e.dir].links - 1)];
      }
      records := records[victim := records[victim].(links := if directory then 0 else records[victim].links - 1)];
      assert records == Renamed(old(Now()), e, f).records;
      assert entries == Renamed(old(Now()), e, f).entries;
    }

    /** The same to a free name. */
    method RelinkFree(e: Entry, f: Entry)
      requires Tree(Now()) && Renamable(Now(), e, f) && f !in entries
      modifies this
      ensures EntriesSound(old(Now())) && Now() == Renamed(old(Now()), e, f)
    {
      EntryAt(Now(), e);
      var c := entries[e];
      var directory := records[c].directory;
      MovedParts(Now(), e, f);
      Insert(f, c);
      entries := entries - {e};
      if directory {
        if e.dir != f.dir {
          records := records[c := records[c].(up := f.dir)];
        }
        records := records[e.dir := records[e.dir].(links := records[e.dir].links - 1)];
      }
      assert records == Renamed(old(Now()), e, f).records;
      assert entries == Renamed(old(Now()), e, f).entries;
    }
  }

  // ---------------------------------------------------------------------
  // Rename

  /** What a rename to another inode's name or a free name leaves: the target is removed, then the source moved. */
  ghost function Renamed(sp: Space, e: Entry, f: Entry): Space
    requires EntriesSound(sp) && e in sp.entries && f.dir in sp.records
    requires f in sp.entries ==> sp.entries[f] != sp.entries[e]
  {
    EntryAt(sp, e);
    if f !in sp.entries then Moved(sp, e, f)
    else
      EntryAt(sp, f);
      Moved(Removed(sp, f), e, f)
  }

  /** When a rename may go ahead. */
  ghost predicate Renamable(sp: Space, e: Entry, f: Entry) {
    && e in sp.entries && LiveDirectory(sp, f.dir) && ValidName(f.name)
    && (DirectoryAt(sp.records, sp.entries[e]) ==> !Reaches(sp.records, f.dir, sp.entries[e]))
    && (f in sp.entries ==>
          && sp.entries[f] != sp.entries[e]
          && DirectoryAt(sp.records, sp.entries[f]) == DirectoryAt(sp.records, sp.entries[e])
          && (DirectoryAt(sp.records, sp.entries[f]) ==> EmptyDirectory(sp, sp.entries[f])))
  }

  /** Both names are of one inode, which makes a rename a success that does nothing. */
  ghost predicate SameFile(sp: Space, e: Entry, f: Entry) {
    e in sp.entries && f in sp.entries && sp.entries[e] == sp.entries[f]
  }

  /**
   When a rename succeeds: the records it touches are writable, and to a free name there is room for the
   entry and, for a directory, one more link of its new parent; over another name its inode has a node.
   */
  ghost predicate MayRename(sp: Space, e: Entry, f: Entry, a: Answers) {
    && e in sp.entries && a.writable(e.dir) == Success && a.writable(f.dir) == Success
    && a.writable(sp.entries[e]) == Success
    && (|| SameFile(sp, e, f)
        || (Renamable(sp, e, f) &&
            if f in sp.entries then a.writable(sp.entries[f]) == Success && a.slot == Success
            else a.room == Success && (DirectoryAt(sp.records, sp.entries[e]) ==>
                sp.records[f.dir].links != LINK_LIMIT)))
  }

  /** Clearing the target leaves the destination live and outside the moved directory. */
  lemma ClearedMovable(sp: Space, e: Entry, f: Entry)
    requires Tree(sp) && Renamable(sp, e, f) && f in sp.entries
    ensures Movable(Removed(sp, f), e, f)
  {
    RemovedTree(sp, f);
    RemovedParts(sp, f);
    EntryAt(sp, e);
    EntryAt(sp, f);
    var t := Removed(sp, f);
    if DirectoryAt(sp.records, sp.entries[e]) {
      forall n: nat ensures Climb(t.records, f.dir, n) != sp.entries[e] {
        SameClimb(sp, t, f.dir, n);
      }
    }
  }

  /** A rename keeps the tree and changes exactly the two bindings. */
  lemma RenamedTree(sp: Space, e: Entry, f: Entry)
    requires Tree(sp) && Renamable(sp, e, f)
    ensures Tree(Renamed(sp, e, f))
    ensures Renamed(sp, e, f).entries == (sp.entries - {e})[f := sp.entries[e]]
    ensures Renamed(sp, e, f).records.Keys == sp.records.Keys
  {
    EntryAt(sp, e);
    if f in sp.entries {
      ClearedMovable(sp, e, f);
      EntryAt(sp, f);
      MovedTree(Removed(sp, f), e, f);
      assert Removed(sp, f).records.Keys == sp.records.Keys;
      MovedKeys(Removed(sp, f), e, f);
    } else {
      MovedTree(sp, e, f);
      MovedKeys(sp, e, f);
    }
  }

  lemma NoEntries(sp: Space, d: nat)
    requires EntriesSound(sp) && !LiveDirectory(sp, d)
    ensures EmptyDirectory(sp, d)
  {
    assert Opened(EntrySeal, 0);
  }

  lemma NotRenamable(sp: Space, e: Entry, f: Entry)
    requires EntriesSound(sp)
    requires !LiveDirectory(sp, e.dir) || !ValidName(e.name) || !LiveDirectory(sp, f.dir) || !ValidName(f.name)
    ensures !Renamable(sp, e, f) && !SameFile(sp, e, f)
  {
    if e in sp.entries {
      EntryAt(sp, e);
    }
    if f in sp.entries {
      EntryAt(sp, f);
    }
  }
}
