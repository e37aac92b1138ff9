/**
 The page cache of one file (src/fs/page_cache.cpp): a sorted array of page
 entries, shifted in place and searched by halving, over frames whose descriptors
 hold the page state. It refines a finite map from page index to page.
 */
module PageCache {
  import opened Outcomes
  import opened Seals

  const MAX_PINS: nat := 65535

  datatype Descriptor = Descriptor(uptodate: bool, dirty: bool, pins: nat)

  datatype Entry = Entry(index: nat, frame: nat)

  datatype Page = Page(frame: nat, state: Descriptor) {
    predicate Held() { state.pins > 0 || state.dirty }
  }

  predicate Sorted(es: seq<Entry>) { forall i, j :: 0 <= i < j < |es| ==> es[i].index < es[j].index }

  predicate FramesDistinct(es: seq<Entry>) { forall i, j :: 0 <= i < j < |es| ==> es[i].frame != es[j].frame }

  /** The entries are in order, and each owns a live frame of its own whose state is sound. */
  ghost predicate Sound(es: seq<Entry>, frames: map<nat, Descriptor>) {
    forall k :: Opened(PageSeal, k) ==>
      && Sorted(es) && FramesDistinct(es)
      && forall i :: 0 <= i < |es| ==>
           es[i].frame in frames && (frames[es[i].frame].dirty ==> frames[es[i].frame].uptodate)
  }

  /** `pages` is the map that the entries spell out. */
  ghost predicate Shows(es: seq<Entry>, frames: map<nat, Descriptor>, pages: map<nat, Page>) {
    forall k :: Opened(ShowSeal, k) ==>
      && (forall i :: 0 <= i < |es| ==> es[i].index in pages && es[i].frame in frames &&
                                        pages[es[i].index] == Page(es[i].frame, frames[es[i].frame]))
      && (forall p :: p in pages ==> exists i :: 0 <= i < |es| && es[i].index == p)
  }

  lemma SoundAt(es: seq<Entry>, frames: map<nat, Descriptor>, i: nat)
    requires Sound(es, frames) && i < |es|
    ensures es[i].frame in frames && (frames[es[i].frame].dirty ==> frames[es[i].frame].uptodate)
    ensures forall j :: 0 <= j < i ==> es[j].index < es[i].index
    ensures forall j :: i < j < |es| ==> es[i].index < es[j].index
  {
    assert Opened(PageSeal, 0);
  }

  lemma ShowsAt(es: seq<Entry>, frames: map<nat, Descriptor>, pages: map<nat, Page>, i: nat)
    requires Shows(es, frames, pages) && i < |es|
    ensures es[i].index in pages && es[i].frame in frames
    ensures pages[es[i].index] == Page(es[i].frame, frames[es[i].frame])
  {
    assert Opened(ShowSeal, 0);
  }

  lemma ShowsKey(es: seq<Entry>, frames: map<nat, Descriptor>, pages: map<nat, Page>, p: nat) returns (i: nat)
    requires Shows(es, frames, pages) && p in pages
    ensures i < |es| && es[i].index == p
  {
    assert Opened(ShowSeal, 0);
    i :| 0 <= i < |es| && es[i].index == p;
  }

  // ---------------------------------------------------------------------
  // A page put in at its place

  function Inserted(es: seq<Entry>, at: nat, e: Entry): (more: seq<Entry>)
    requires at <= |es|
    ensures |more| == |es| + 1
    ensures forall i :: 0 <= i < |more| ==> more[i] == if i < at then es[i] else if i == at then e else es[i - 1]
  {
    es[..at] + [e] + es[at..]
  }

  /** The place of an index that is not there. */
  predicate Between(es: seq<Entry>, at: nat, index: nat) {
    at <= |es| && forall i :: 0 <= i < |es| ==> if i < at then es[i].index < index else index < es[i].index
  }

  lemma InsertedSound(es: seq<Entry>, frames: map<nat, Descriptor>, at: nat, e: Entry, d: Descriptor)
    requires Sound(es, frames) && e.frame !in frames && (d.dirty ==> d.uptodate) && Between(es, at, e.index)
    ensures Sound(Inserted(es, at, e), frames[e.frame := d])
  {
    assert Opened(PageSeal, 0);
  }

  lemma InsertedShows(es: seq<Entry>, frames: map<nat, Descriptor>, pages: map<nat, Page>, at: nat, e: Entry,
                      d: Descriptor)
    requires Shows(es, frames, pages) && at <= |es| && e.frame !in frames
    requires forall i :: 0 <= i < |es| ==> es[i].index != e.index
    ensures Shows(Inserted(es, at, e), frames[e.frame := d], pages[e.index := Page(e.frame, d)])
  {
    var more, t, w := Inserted(es, at, e), frames[e.frame := d], pages[e.index := Page(e.frame, d)];
    forall i: nat | i < |more|
      ensures more[i].index in w && more[i].frame in t && w[more[i].index] == Page(more[i].frame, t[more[i].frame])
    {
      if i != at {
        ShowsAt(es, frames, pages, if i < at then i else i - 1);
      }
    }
    forall p | p in w ensures exists i :: 0 <= i < |more| && more[i].index == p {
      if p == e.index {
        assert more[at].index == p;
      } else {
        var i := ShowsKey(es, frames, pages, p);
        assert more[if i < at then i else i + 1].index == p;
      }
    }
  }

  // ---------------------------------------------------------------------
  // A page taken out

  function Without(es: seq<Entry>, at: nat): (less: seq<Entry>)
    requires at < |es|
    ensures |less| == |es| - 1
    ensures forall i :: 0 <= i < |less| ==> less[i] == if i < at then es[i] else es[i + 1]
  {
    es[..at] + es[at + 1..]
  }

  lemma WithoutSound(es: seq<Entry>, frames: map<nat, Descriptor>, at: nat)
    requires Sound(es, frames) && at < |es|
    ensures Sound(Without(es, at), frames - {es[at].frame})
  {
    assert Opened(PageSeal, 0);
  }

  lemma WithoutShows(es: seq<Entry>, frames: map<nat, Descriptor>, pages: map<nat, Page>, at: nat)
    requires Sound(es, frames) && Shows(es, frames, pages) && at < |es|
    ensures Shows(Without(es, at), frames - {es[at].frame}, pages - {es[at].index})
  {
    assert Opened(PageSeal, 0);
    var less, t, w := Without(es, at), frames - {es[at].frame}, pages - {es[at].index};
    forall i: nat | i < |less|
      ensures less[i].index in w && less[i].frame in t && w[less[i].index] == Page(less[i].frame, t[less[i].frame])
    {
      ShowsAt(es, frames, pages, if i < at then i else i + 1);
    }
    forall p | p in w ensures exists i :: 0 <= i < |less| && less[i].index == p {
      var i := ShowsKey(es, frames, pages, p);
      assert less[if i < at then i else i - 1].index == p;
    }
  }

  // ---------------------------------------------------------------------
  // A page whose state changes

  lemma TouchedSound(es: seq<Entry>, frames: map<nat, Descriptor>, at: nat, d: Descriptor)
    requires Sound(es, frames) && at < |es| && (d.dirty ==> d.uptodate)
    ensures Sound(es, frames[es[at].frame := d])
  {
    assert Opened(PageSeal, 0);
  }

  lemma TouchedShows(es: seq<Entry>, frames: map<nat, Descriptor>, pages: map<nat, Page>, at: nat, d: Descriptor)
    requires Sound(es, frames) && Shows(es, frames, pages) && at < |es|
    ensures Shows(es, frames[es[at].frame := d], pages[es[at].index := Page(es[at].frame, d)])
  {
    assert Opened(PageSeal, 0);
    var t, w := frames[es[at].frame := d], pages[es[at].index := Page(es[at].frame, d)];
    forall i: nat | i < |es|
      ensures es[i].index in w && es[i].frame in t && w[es[i].index] == Page(es[i].frame, t[es[i].frame])
    {
      ShowsAt(es, frames, pages, i);
    }
    forall p | p in w ensures exists i :: 0 <= i < |es| && es[i].index == p {
      if p != es[at].index {
        var i := ShowsKey(es, frames, pages, p);
      }
    }
  }

  /** `position`: the first entry at or past an index. */
  method Position(es: array<Entry>, count: nat, ghost frames: map<nat, Descriptor>, index: nat) returns (at: nat)
    requires count <= es.Length && Sound(es[..count], frames)
    ensures at <= count
    ensures forall i :: 0 <= i < at ==> es[i].index < index
    ensures forall i :: at <= i < count ==> index <= es[i].index
  {
    var low, high := 0, count;
    while low < high
      invariant 0 <= low <= high <= count
      invariant forall i :: 0 <= i < low ==> es[i].index < index
      invariant forall i :: high <= i < count ==> index <= es[i].index
    {
      var middle := low + (high - low) / 2;
      SoundAt(es[..count], frames, middle);
      if es[middle].index < index {
        assert forall i :: 0 <= i < middle ==> es[..count][i].index < es[..count][middle].index;
        low := middle + 1;
      } else {
        assert forall i :: middle < i < count ==> es[..count][middle].index < es[..count][i].index;
        high := middle;
      }
    }
    return low;
  }

  /** Makes room at `at` and puts the entry there. */
  method ShiftUp(es: array<Entry>, count: nat, at: nat, e: Entry)
    requires at <= count < es.Length
    modifies es
    ensures es[..count + 1] == Inserted(old(es[..count]), at, e)
  {
    var i := count;
    while i > at
      invariant at <= i <= count
      invariant forall j :: 0 <= j < i ==> es[j] == old(es[j])
      invariant forall j :: i < j <= count ==> es[j] == old(es[j - 1])
    {
      es[i] := es[i - 1];
      i := i - 1;
    }
    es[at] := e;
  }

  /** Closes the gap of a removed entry. */
  method ShiftDown(es: array<Entry>, count: nat, at: nat)
    requires at < count <= es.Length
    modifies es
    ensures es[..count - 1] == Without(old(es[..count]), at)
  {
    ghost var before := es[..count];
    ghost var less := Without(before, at);
    for i := at + 1 to count
      invariant forall j :: 0 <= j < i - 1 ==> es[j] == less[j]
      invariant forall j :: i <= j < count ==> es[j] == before[j]
    {
      es[i - 1] := es[i];
    }
    assert es[..count - 1] == less;
  }

  // ---------------------------------------------------------------------
  // Frames

  /** The frames in use are those of the entries and `rest`, which keeps its state. */
  ghost predicate Accounted(es: seq<Entry>, frames: map<nat, Descriptor>, rest: map<nat, Descriptor>) {
    forall k :: Opened(FramesSeal, k) ==>
      && (forall f :: f in frames ==> f in rest || OwnedBy(es, f))
      && (forall f :: f in rest ==> f in frames && frames[f] == rest[f] && !OwnedBy(es, f))
  }

  ghost predicate OwnedBy(es: seq<Entry>, f: nat) { exists i :: 0 <= i < |es| && es[i].frame == f }

  lemma InsertedAccounted(es: seq<Entry>, frames: map<nat, Descriptor>, rest: map<nat, Descriptor>, at: nat, e: Entry,
                          d: Descriptor)
    requires Accounted(es, frames, rest) && at <= |es| && e.frame !in frames
    ensures Accounted(Inserted(es, at, e), frames[e.frame := d], rest)
  {
    assert Opened(FramesSeal, 0);
    var more := Inserted(es, at, e);
    forall f ensures OwnedBy(more, f) <==> f == e.frame || OwnedBy(es, f) {
      if i :| 0 <= i < |es| && es[i].frame == f {
        assert more[if i < at then i else i + 1].frame == f;
      }
      assert more[at] == e;
    }
  }

  lemma WithoutAccounted(es: seq<Entry>, frames: map<nat, Descriptor>, rest: map<nat, Descriptor>, at: nat)
    requires Accounted(es, frames, rest) && Sound(es, frames) && at < |es|
    ensures Accounted(Without(es, at), frames - {es[at].frame}, rest)
  {
    assert Opened(FramesSeal, 0) && Opened(PageSeal, 0);
    var less := Without(es, at);
    assert forall i :: 0 <= i < |less| ==> less[i] == es[if i < at then i else i + 1];
    forall f | f != es[at].frame ensures OwnedBy(less, f) <==> OwnedBy(es, f) {
      if i :| 0 <= i < |es| && es[i].frame == f {
        assert less[if i < at then i else i - 1].frame == f;
      }
    }
    assert OwnedBy(es, es[at].frame);
  }

  lemma TouchedAccounted(es: seq<Entry>, frames: map<nat, Descriptor>, rest: map<nat, Descriptor>, at: nat,
                         d: Descriptor)
    requires Accounted(es, frames, rest) && at < |es|
    ensures Accounted(es, frames[es[at].frame := d], rest)
  {
    assert Opened(FramesSeal, 0);
    assert OwnedBy(es, es[at].frame);
  }

  /** The cache, the frame descriptors it works on, and the map it stands for. */
  class FilePageCache {
    var entries: array<Entry>
    var count: nat
    var frames: map<nat, Descriptor>
    ghost var pages: map<nat, Page>
    /** The frames of everybody else. */
    ghost const rest: map<nat, Descriptor>

    ghost predicate Valid()
      reads this, entries
    {
      && count <= entries.Length && Sound(entries[..count], frames) && Shows(entries[..count], frames, pages)
      && Accounted(entries[..count], frames, rest)
    }

    /** No frame is leaked or lost: those in use are the pages' own and everybody else's, which are as they were. */
    lemma FramesConserved(f: nat)
      requires Valid()
      ensures f in frames <==> f in rest || exists p :: p in pages && pages[p].frame == f
      ensures f in rest ==> f in frames && frames[f] == rest[f] && forall p :: p in pages ==> pages[p].frame != f
    {
      assert Opened(FramesSeal, 0);
      var es := entries[..count];
      if i :| 0 <= i < |es| && es[i].frame == f {
        ShowsAt(es, frames, pages, i);
        assert pages[es[i].index].frame == f;
      }
      forall p | p in pages ensures OwnedBy(es, pages[p].frame) && pages[p].frame in frames {
        var i := ShowsKey(es, frames, pages, p);
        ShowsAt(es, frames, pages, i);
      }
    }

    constructor (frames: map<nat, Descriptor>)
      ensures Valid() && pages == map[] && this.frames == frames && rest == frames && fresh(entries)
    {
      entries := new Entry[0];
      count := 0;
      this.frames, rest := frames, frames;
      pages := map[];
    }

    /** Where an index is cached, if it is. */
    method Find(index: nat) returns (found: bool, at: nat)
      requires Valid()
      ensures found <==> index in pages
      ensures at <= count && (found ==> at < count && entries[at].index == index)
      ensures found ==>
              entries[at].frame in frames && pages[index] == Page(entries[at].frame, frames[entries[at].frame])
      ensures forall i :: 0 <= i < at ==> entries[i].index < index
      ensures forall i :: at <= i < count ==> index <= entries[i].index
      ensures !found ==> Between(entries[..count], at, index)
    {
      at := Position(entries, count, frames, index);
      found := at < count && entries[at].index == index;
      if found {
        ShowsAt(entries[..count], frames, pages, at);
      } else {
        NotShown(entries[..count], frames, pages, at, index);
      }
    }

    /** `lookup`. */
    method Lookup(index: nat) returns (r: Result<nat>)
      requires Valid()
      ensures r == if index in pages then Ok(pages[index].frame) else Err(NotFound)
    {
      var found, at := Find(index);
      return if found then Ok(entries[at].frame) else Err(NotFound);
    }

    /** `grow`: twice the room, same entries. */
    method Grow()
      requires Valid()
      modifies this`entries
      ensures Valid() && fresh(entries) && entries.Length > count && entries[..count] == old(entries[..count])
    {
      var bigger := new Entry[if entries.Length == 0 then 8 else entries.Length * 2];
      for i := 0 to count
        invariant entries == old(entries) && entries[..count] == old(entries[..count])
        invariant forall j :: 0 <= j < i ==> bigger[j] == entries[j]
      {
        bigger[i] := entries[i];
      }
      assert bigger[..count] == entries[..count];
      entries := bigger;
    }

    /** `obtain`; `frame` is what the frame allocator answers, `room` the object allocator. */
    method Obtain(index: nat, room: Status, frame: Result<nat>) returns (r: Result<nat>)
      requires Valid() && (frame.Ok? ==> frame.value !in frames)
      modifies this, entries
      ensures Valid()
      ensures index in old(pages) ==> r == Ok(old(pages)[index].frame) && pages == old(pages) && frames == old(frames)
      ensures index !in old(pages) && r.Ok? ==>
              && frame == r && pages == old(pages)[index := Page(r.value, Descriptor(false, false, 0))]
              && frames == old(frames)[r.value := Descriptor(false, false, 0)]
      ensures r.Err? ==> pages == old(pages) && frames == old(frames)
      ensures index !in old(pages) && room == Success ==> r == frame
    {
      var found, at := Find(index);
      if found {
        return Ok(entries[at].frame);
      }
      if count == entries.Length {
        if room != Success {
          return Err(room);
        }
        Grow();
      }
      if frame.Err? {
        return frame;
      }
      Place(at, Entry(index, frame.value));
      return frame;
    }

    method Place(at: nat, e: Entry)
      requires Valid() && at <= count < entries.Length && e.frame !in frames
      requires Between(entries[..count], at, e.index)
      modifies this, entries
      ensures Valid() && entries == old(entries)
      ensures pages == old(pages)[e.index := Page(e.frame, Descriptor(false, false, 0))]
      ensures frames == old(frames)[e.frame := Descriptor(false, false, 0)]
    {
      ghost var es := entries[..count];
      InsertedSound(es, frames, at, e, Descriptor(false, false, 0));
      InsertedShows(es, frames, pages, at, e, Descriptor(false, false, 0));
      InsertedAccounted(es, frames, rest, at, e, Descriptor(false, false, 0));
      frames := frames[e.frame := Descriptor(false, false, 0)];
      ShiftUp(entries, count, at, e);
      count := count + 1;
      pages := pages[e.index := Page(e.frame, Descriptor(false, false, 0))];
    }

    /** Replaces the state of the page at `at`. */
    method Touch(at: nat, d: Descriptor)
      requires Valid() && at < count && (d.dirty ==> d.uptodate)
      modifies this`frames, this`pages
      ensures Valid()
      ensures frames == old(frames)[entries[at].frame := d]
      ensures pages == old(pages)[entries[at].index := Page(entries[at].frame, d)]
    {
      TouchedSound(entries[..count], frames, at, d);
      TouchedShows(entries[..count], frames, pages, at, d);
      TouchedAccounted(entries[..count], frames, rest, at, d);
      frames := frames[entries[at].frame := d];
      pages := pages[entries[at].index := Page(entries[at].frame, d)];
    }

    /** `mark_uptodate`. */
    method MarkUptodate(index: nat) returns (s: Status)
      requires Valid()
      modifies this`frames, this`pages
      ensures Valid()
      ensures s == if index in old(pages) then Success else NotFound
      ensures pages == if s == Success then Changed(old(pages), index, old(pages)[index].state.(uptodate := true))
              else old(pages)
    {
      var found, at := Find(index);
      if !found {
        return NotFound;
      }
      Touch(at, frames[entries[at].frame].(uptodate := true));
      return Success;
    }

    /** `mark_dirty`: only an uptodate page can become dirty. */
    method MarkDirty(index: nat) returns (s: Status)
      requires Valid()
      modifies this`frames, this`pages
      ensures Valid()
      ensures s == if index !in old(pages) then NotFound else if old(pages)[index].state.uptodate then Success
              else InvalidArgument
      ensures pages == if s == Success then Changed(old(pages), index, old(pages)[index].state.(dirty := true))
              else old(pages)
    {
      var found, at := Find(index);
      if !found {
        return NotFound;
      }
      if !frames[entries[at].frame].uptodate {
        return InvalidArgument;
      }
      Touch(at, frames[entries[at].frame].(dirty := true));
      return Success;
    }

    /** `mark_clean`. */
    method MarkClean(index: nat) returns (s: Status)
      requires Valid()
      modifies this`frames, this`pages
      ensures Valid()
      ensures s == if index in old(pages) then Success else NotFound
      ensures pages == if s == Success then Changed(old(pages), index, old(pages)[index].state.(dirty := false))
              else old(pages)
    {
      var found, at := Find(index);
      if !found {
        return NotFound;
      }
      Touch(at, frames[entries[at].frame].(dirty := false));
      return Success;
    }

    /** `pin`. */
    method Pin(index: nat) returns (s: Status)
      requires Valid()
      modifies this`frames, this`pages
      ensures Valid()
      ensures s == if index !in old(pages) then NotFound
              else if old(pages)[index].state.pins == MAX_PINS then Overflow else Success
      ensures pages == if s == Success then Changed(old(pages), index,
              old(pages)[index].state.(pins := old(pages)[index].state.pins + 1))
                       else old(pages)
    {
      var found, at := Find(index);
      if !found {
        return NotFound;
      }
      var d := frames[entries[at].frame];
      if d.pins == MAX_PINS {
        return Overflow;
      }
      SoundAt(entries[..count], frames, at);
      Touch(at, d.(pins := d.pins + 1));
      return Success;
    }

    /** `unpin`. */
    method Unpin(index: nat) returns (s: Status)
      requires Valid()
      modifies this`frames, this`pages
      ensures Valid()
      ensures s == if index !in old(pages) then NotFound
              else if old(pages)[index].state.pins == 0 then InvalidArgument else Success
      ensures pages == if s == Success then Changed(old(pages), index,
              old(pages)[index].state.(pins := old(pages)[index].state.pins - 1))
                       else old(pages)
    {
      var found, at := Find(index);
      if !found {
        return NotFound;
      }
      var d := frames[entries[at].frame];
      if d.pins == 0 {
        return InvalidArgument;
      }
      SoundAt(entries[..count], frames, at);
      Touch(at, d.(pins := d.pins - 1));
      return Success;
    }

    /** `next_dirty`: the least dirty page at or after an index. */
    method NextDirty(from: nat) returns (r: Result<nat>)
      requires Valid()
      ensures r.Ok? ==> from <= r.value && r.value in pages && pages[r.value].state.dirty
      ensures r.Ok? ==> forall p :: p in pages && from <= p < r.value ==> !pages[p].state.dirty
      ensures r.Err? ==> r.status == NotFound && forall p :: p in pages && from <= p ==> !pages[p].state.dirty
    {
      var at := Position(entries, count, frames, from);
      ghost var es := entries[..count];
      ghost var start := at;
      while at < count
        invariant start <= at <= count
        invariant forall i :: start <= i < at ==> es[i].index in pages && !pages[es[i].index].state.dirty
      {
        ShowsAt(es, frames, pages, at);
        if frames[entries[at].frame].dirty {
          CleanBefore(es, frames, pages, start, at, from);
          return Ok(entries[at].index);
        }
        at := at + 1;
      }
      CleanBefore(es, frames, pages, start, at, from);
      return Err(NotFound);
    }

    /** `remove_at`: the entry goes, and its frame with it. */
    method RemoveAt(at: nat)
      requires Valid() && at < count
      modifies this, entries
      ensures Valid() && entries == old(entries) && count == old(count) - 1
      ensures entries[..count] == Without(old(entries[..count]), at)
      ensures pages == old(pages) - {old(entries[at].index)} && frames == old(frames) - {old(entries[at].frame)}
    {
      ghost var es := entries[..count];
      WithoutSound(es, frames, at);
      WithoutShows(es, frames, pages, at);
      WithoutAccounted(es, frames, rest, at);
      pages := pages - {entries[at].index};
      frames := frames - {entries[at].frame};
      ShiftDown(entries, count, at);
      count := count - 1;
    }

    /** `evict_clean`: exactly the unpinned clean pages go. */
    method EvictClean() returns (evicted: nat)
      requires Valid()
      modifies this, entries
      ensures Valid()
      ensures pages == old(pages) - Unheld(old(pages)) && evicted == |Unheld(old(pages))|
    {
      ghost var es, before := entries[..count], pages;
      var at: nat := count;
      evicted := 0;
      assert before - Clean(es, before, at) == before;
      while at > 0
        invariant Valid() && at <= count && entries == old(entries) && Starts(entries[..count], es, at)
        invariant pages == before - Clean(es, before, at) && evicted == |Clean(es, before, at)|
      {
        at := at - 1;
        CleanNext(es, old(frames), before, at);
        var gone := EvictAt(at, es, before);
        evicted := if gone then evicted + 1 else evicted;
      }
      CleanAll(es, old(frames), before);
    }

    /** One turn of `evict_clean`. */
    method EvictAt(at: nat, ghost es: seq<Entry>, ghost before: map<nat, Page>) returns (gone: bool)
      requires Valid() && at < count && Starts(entries[..count], es, at + 1)
      requires pages == before - Clean(es, before, at + 1) && es[at].index !in Clean(es, before, at + 1)
      requires es[at].index in before
      modifies this, entries
      ensures Valid() && at <= count && entries == old(entries) && Starts(entries[..count], es, at)
      ensures pages == before - Clean(es, before, at) && (gone <==> !before[es[at].index].Held())
    {
      ShowsAt(entries[..count], frames, pages, at);
      assert entries[..count][at] == es[at];
      var d := frames[entries[at].frame];
      if d.pins > 0 || d.dirty {
        return false;
      }
      RemoveAt(at);
      assert pages == before - (Clean(es, before, at + 1) + {es[at].index});
      return true;
    }

    /** `truncate`: nothing if a page past the cut is pinned, else exactly the pages past it go. */
    method Truncate(first: nat) returns (s: Status)
      requires Valid()
      modifies this, entries
      ensures Valid()
      ensures s == if exists p :: p in old(pages) && first <= p && old(pages)[p].state.pins > 0 then Busy else Success
      ensures pages == if s == Success then old(pages) - (set p | p in old(pages) && first <= p) else old(pages)
    {
      ghost var es := entries[..count];
      var start := Position(entries, count, frames, first);
      var at := start;
      while at < count
        invariant start <= at <= count && pages == old(pages) && frames == old(frames) && count == old(count)
        invariant entries == old(entries)
        invariant Valid() && entries[..count] == es
        invariant forall i :: start <= i < at ==> es[i].index in pages && pages[es[i].index].state.pins == 0
      {
        ShowsAt(es, frames, pages, at);
        if frames[entries[at].frame].pins > 0 {
          return Busy;
        }
        at := at + 1;
      }
      UnpinnedPast(es, frames, pages, start, first);
      DropFrom(start);
      TailAll(es, old(frames), old(pages), start, first);
      return Success;
    }

    /** Removes the entries from `start` on, last first. */
    method DropFrom(start: nat)
      requires Valid() && start <= count
      modifies this, entries
      ensures Valid() && count == start && pages == old(pages) - Tail(old(entries[..count]), start)
    {
      ghost var es := entries[..count];
      assert pages - Tail(es, count) == pages;
      while count > start
        invariant Valid() && start <= count <= |es| && entries == old(entries)
        invariant entries[..count] == es[..count] && pages == old(pages) - Tail(es, count)
      {
        ghost var n := count - 1;
        assert es[..n + 1][..n] == es[..n] && es[..n + 1][n] == es[n];
        assert Without(entries[..count], n) == es[..n];
        RemoveAt(count - 1);
      }
    }

    /** `clear`: nothing if a page is pinned or dirty, else everything. */
    method Clear() returns (s: Status)
      requires Valid()
      modifies this, entries
      ensures Valid()
      ensures s == if exists p :: p in old(pages) && old(pages)[p].Held() then Busy else Success
      ensures pages == if s == Success then map[] else old(pages)
    {
      ghost var es := entries[..count];
      var at := 0;
      while at < count
        invariant at <= count && pages == old(pages) && frames == old(frames) && count == old(count)
        invariant entries == old(entries)
        invariant Valid() && entries[..count] == es
        invariant forall i :: 0 <= i < at ==> es[i].index in pages && !pages[es[i].index].Held()
      {
        ShowsAt(es, frames, pages, at);
        if frames[entries[at].frame].pins > 0 || frames[entries[at].frame].dirty {
          return Busy;
        }
        at := at + 1;
      }
      forall p | p in pages ensures !pages[p].Held() {
        var i := ShowsKey(es, frames, pages, p);
      }
      DropFrom(0);
      TailAll(es, old(frames), old(pages), 0, 0);
      return Success;
    }
  }

  lemma NotShown(es: seq<Entry>, frames: map<nat, Descriptor>, pages: map<nat, Page>, at: nat, index: nat)
    requires Sound(es, frames) && Shows(es, frames, pages) && at <= |es|
    requires forall i :: 0 <= i < at ==> es[i].index < index
    requires forall i :: at <= i < |es| ==> index <= es[i].index
    requires at < |es| ==> es[at].index != index
    ensures index !in pages && Between(es, at, index)
  {
    assert Opened(PageSeal, 0) && Opened(ShowSeal, 0);
  }

  /** One page in another state. */
  ghost function Changed(pages: map<nat, Page>, index: nat, d: Descriptor): map<nat, Page>
    requires index in pages
  {
    pages[index := Page(pages[index].frame, d)]
  }

  lemma CleanBefore(es: seq<Entry>, frames: map<nat, Descriptor>, pages: map<nat, Page>, start: nat, at: nat, from: nat)
    requires Sound(es, frames) && Shows(es, frames, pages) && start <= at <= |es|
    requires forall i :: 0 <= i < start ==> es[i].index < from
    requires forall i :: start <= i < at ==> es[i].index in pages && !pages[es[i].index].state.dirty
    ensures forall p :: p in pages && from <= p && (at < |es| ==> p < es[at].index) ==> !pages[p].state.dirty
  {
    forall p | p in pages && from <= p && (at < |es| ==> p < es[at].index) ensures !pages[p].state.dirty {
      var i := ShowsKey(es, frames, pages, p);
      SoundAt(es, frames, i);
      assert i >= start;
    }
  }

  predicate Starts(a: seq<Entry>, b: seq<Entry>, n: nat) {
    n <= |a| && n <= |b| && forall i :: 0 <= i < n ==> a[i] == b[i]
  }

  ghost function Unheld(pages: map<nat, Page>): set<nat> { set p | p in pages && !pages[p].Held() }

  /** The indices of the unheld pages among the entries from `at` on. */
  ghost function Clean(es: seq<Entry>, pages: map<nat, Page>, at: nat): set<nat>
    requires at <= |es|
    decreases |es| - at
  {
    if at == |es| then {}
    else Clean(es, pages, at + 1) + (if es[at].index in pages && !pages[es[at].index].Held() then {es[at].index}
        else {})
  }

  lemma {:induction false} CleanIn(es: seq<Entry>, pages: map<nat, Page>, at: nat, p: nat)
    requires at <= |es|
    ensures p in Clean(es, pages, at) <==>
            p in pages && !pages[p].Held() && exists i :: at <= i < |es| && es[i].index == p
    decreases |es| - at
  {
    if at < |es| {
      CleanIn(es, pages, at + 1, p);
    }
  }

  /** The entry at `at` is not yet among those behind it. */
  lemma CleanNext(es: seq<Entry>, frames: map<nat, Descriptor>, pages: map<nat, Page>, at: nat)
    requires Sound(es, frames) && Shows(es, frames, pages) && at < |es|
    ensures es[at].index !in Clean(es, pages, at + 1) && es[at].index in pages
  {
    CleanIn(es, pages, at + 1, es[at].index);
    SoundAt(es, frames, at);
    ShowsAt(es, frames, pages, at);
  }

  lemma CleanAll(es: seq<Entry>, frames: map<nat, Descriptor>, pages: map<nat, Page>)
    requires Shows(es, frames, pages)
    ensures Clean(es, pages, 0) == Unheld(pages)
  {
    forall p ensures p in Clean(es, pages, 0) <==> p in pages && !pages[p].Held() {
      CleanIn(es, pages, 0, p);
      if p in pages {
        var i := ShowsKey(es, frames, pages, p);
      }
    }
  }

  /** The indices of the entries from `at` on. */
  ghost function Tail(es: seq<Entry>, at: nat): set<nat>
    requires at <= |es|
    decreases |es| - at
  {
    if at == |es| then {} else Tail(es, at + 1) + {es[at].index}
  }

  lemma {:induction false} TailIn(es: seq<Entry>, at: nat, p: nat)
    requires at <= |es|
    ensures p in Tail(es, at) <==> exists i :: at <= i < |es| && es[i].index == p
    decreases |es| - at
  {
    if at < |es| {
      TailIn(es, at + 1, p);
    }
  }

  lemma TailAll(es: seq<Entry>, frames: map<nat, Descriptor>, pages: map<nat, Page>, start: nat, first: nat)
    requires Shows(es, frames, pages) && start <= |es|
    requires forall i :: 0 <= i < start ==> es[i].index < first
    requires forall i :: start <= i < |es| ==> first <= es[i].index
    ensures pages - Tail(es, start) == pages - (set p | p in pages && first <= p)
  {
    forall p | p in pages ensures p in Tail(es, start) <==> first <= p {
      TailIn(es, start, p);
      var i := ShowsKey(es, frames, pages, p);
    }
  }

  lemma UnpinnedPast(es: seq<Entry>, frames: map<nat, Descriptor>, pages: map<nat, Page>, start: nat, first: nat)
    requires Shows(es, frames, pages) && start <= |es|
    requires forall i :: 0 <= i < start ==> es[i].index < first
    requires forall i :: start <= i < |es| ==> es[i].index in pages && pages[es[i].index].state.pins == 0
    ensures forall p :: p in pages && first <= p ==> pages[p].state.pins == 0
  {
    forall p | p in pages && first <= p ensures pages[p].state.pins == 0 {
      var i := ShowsKey(es, frames, pages, p);
    }
  }
}
