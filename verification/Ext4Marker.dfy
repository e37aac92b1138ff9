/**
 The clean/dirty marker of the ext4 provider (`write_block`, `sync_active` and
 `restore_dirty_marker` in src/fs/ext4_fs.cpp) over a device with a volatile cache.

 The superblock's first sector carries the state word: 1 means clean. Every disk
 that a crash may leave at any moment, device errors included, either has a state
 word other than 1 or is the complete file system as of the last flush.
 */
module Ext4Marker {
  import opened Outcomes
  import opened Arithmetic
  import opened BlockDevices
  import opened Seals

  const MARK: nat := 2
  const CLEAN: nat := 1

  predicate Shaped(s: Sector) { |s| == 512 }

  function Word(s: Sector): nat
    requires Shaped(s)
  {
    (s[58] as int) + 256 * (s[59] as int)
  }

  /** `w16(super + 58, v)` for the two values the marker takes. */
  function Marked(s: Sector, v: nat): (r: Sector)
    requires Shaped(s) && v < 256
    ensures Shaped(r) && Word(r) == v
    ensures forall k :: 0 <= k < 512 && k != 58 && k != 59 ==> r[k] == s[k]
    ensures Word(s) == v ==> r == s
  {
    s[58 := v][59 := 0]
  }

  ghost predicate ShapedDisk(disk: seq<Sector>) {
    MARK + 1 < |disk| && forall s :: 0 <= s < |disk| ==> Shaped(disk[s])
  }

  ghost predicate ShapedDevice(d: Device) {
    && d.Valid()
    && ShapedDisk(d.durable) && ShapedDisk(d.flushed)
    && forall w :: w in d.pending ==> Shaped(w.data)
  }

  /** Equal but for the state word. */
  ghost predicate SameBody(a: Sector, b: Sector) {
    && Shaped(a) && Shaped(b)
    && Marked(a, 0) == Marked(b, 0)
  }

  /** `image` is the file system as of the last flush, up to the state word. */
  ghost predicate IsFlushed(d: Device, image: seq<Sector>) {
    && |image| == |d.flushed| && MARK < |image|
    && (forall s :: 0 <= s < |image| && s != MARK ==> image[s] == d.flushed[s])
    && SameBody(image[MARK], d.flushed[MARK])
  }

  /**
   Whatever a crash leaves, if it says clean then it is the flushed file system,
   and no write accepted since is missing from it.
   */
  ghost predicate CrashSafe(d: Device) {
    forall image :: CrashImage(d, image) && MARK < |image| && Shaped(image[MARK]) && Word(image[MARK]) == CLEAN ==>
      && IsFlushed(d, image)
      && |d.Current()| == |image|
      && forall s :: 0 <= s < |image| && s != MARK ==> image[s] == d.Current()[s]
  }

  // ---------------------------------------------------------------------
  // The three states of the protocol

  /** No sector but the marker is in doubt, and the marker only as to its state word. */
  ghost predicate Settled(d: Device)
    requires ShapedDevice(d)
  {
    && (forall s: nat, v :: MayHold(d, s, v) && s != MARK ==> v == d.flushed[s])
    && (forall v :: MayHold(d, MARK, v) ==> SameBody(v, d.flushed[MARK]))
  }

  /** No crash can leave the clean word. */
  ghost predicate NeverClean(d: Device) {
    forall v :: MayHold(d, MARK, v) ==> Shaped(v) && Word(v) == 0
  }

  ghost predicate Quiet(d: Device) {
    d.pending == [] && d.durable == d.flushed
  }

  /** A device in doubt about the marker alone is crash safe. */
  lemma SettledSafe(d: Device)
    requires ShapedDevice(d) && Settled(d)
    ensures CrashSafe(d)
  {
    forall image | CrashImage(d, image) && MARK < |image| && Shaped(image[MARK]) && Word(image[MARK]) == CLEAN
      ensures IsFlushed(d, image)
      ensures |d.Current()| == |image|
      ensures forall s :: 0 <= s < |image| && s != MARK ==> image[s] == d.Current()[s]
    {
      CrashHolds(d, image, MARK);
      forall s | 0 <= s < |image| && s != MARK ensures image[s] == d.flushed[s] == d.Current()[s] {
        CrashHolds(d, image, s);
        CurrentHolds(d, s);
      }
    }
  }

  /** A device that can never look clean is crash safe. */
  lemma NeverCleanSafe(d: Device)
    requires ShapedDevice(d) && NeverClean(d)
    ensures CrashSafe(d)
  {
    forall image | CrashImage(d, image) && MARK < |image| && Shaped(image[MARK]) ensures Word(image[MARK]) != CLEAN {
      CrashHolds(d, image, MARK);
    }
  }

  lemma QuietSettled(d: Device)
    requires ShapedDevice(d) && Quiet(d)
    ensures Settled(d)
  {
  }

  // ---------------------------------------------------------------------
  // Requests keep the states

  /** Rewriting the marker sectors with nothing new but the state word keeps a settled device settled. */
  lemma MarkerCached(d: Device, e: Device, mark: Sector, rest: Sector, ok: bool)
    requires ShapedDevice(d) && Settled(d) && Cached(d, e, MARK, [mark, rest], ok) && e.Valid()
    requires SameBody(mark, d.flushed[MARK]) && rest == d.flushed[MARK + 1]
    ensures ShapedDevice(e) && Settled(e)
  {
    ShapedCached(d, e, MARK, [mark, rest], ok);
    forall s: nat, v | MayHold(e, s, v)
      ensures s != MARK ==> v == e.flushed[s]
      ensures s == MARK ==> SameBody(v, e.flushed[MARK])
    {
      CachedHolds(d, e, MARK, [mark, rest], ok, s, v);
    }
  }

  lemma ShapedCached(d: Device, e: Device, first: nat, data: seq<Sector>, ok: bool)
    requires ShapedDevice(d) && Cached(d, e, first, data, ok) && e.Valid()
    requires forall i :: 0 <= i < |data| ==> Shaped(data[i])
    ensures ShapedDevice(e)
  {
    forall w | w in e.pending ensures Shaped(w.data) {
      CachedHolds(d, e, first, data, ok, w.sector, w.data);
      assert Write(w.sector, w.data) == w;
    }
  }

  /** Writing anything keeps a device that cannot look clean so, as long as the state word stays 0. */
  lemma DirtyCached(d: Device, e: Device, first: nat, data: seq<Sector>, ok: bool)
    requires ShapedDevice(d) && NeverClean(d) && Cached(d, e, first, data, ok) && e.Valid()
    requires forall i :: 0 <= i < |data| ==> Shaped(data[i])
    requires first <= MARK < first + |data| ==> Word(data[MARK - first]) == 0
    ensures ShapedDevice(e) && NeverClean(e)
  {
    ShapedCached(d, e, first, data, ok);
    forall v | MayHold(e, MARK, v) ensures Shaped(v) && Word(v) == 0 {
      CachedHolds(d, e, first, data, ok, MARK, v);
    }
  }

  lemma ShapedFlush(d: Device, e: Device, ok: bool)
    requires ShapedDevice(d) && Flushed(d, e, ok) && e.Valid()
    ensures ShapedDevice(e)
  {
    forall s: nat | s < |d.durable| ensures Shaped(d.Current()[s]) {
      CurrentHolds(d, s);
    }
    if !ok {
      forall s: nat, v | MayHold(e, s, v) ensures MayHold(d, s, v) {
        FailedFlushHolds(d, e, s, v);
      }
      forall s: nat | s < |e.durable| ensures Shaped(e.durable[s]) {
        assert MayHold(e, s, e.durable[s]);
      }
      forall w | w in e.pending ensures Shaped(w.data) {
        assert Write(w.sector, w.data) == w;
        assert MayHold(e, w.sector, w.data);
      }
    }
  }

  /** A failed flush leaves a settled device settled. */
  lemma SettledFailed(d: Device, e: Device)
    requires ShapedDevice(d) && Settled(d) && Flushed(d, e, false) && e.Valid()
    ensures ShapedDevice(e) && Settled(e)
  {
    ShapedFlush(d, e, false);
    forall s: nat, v | MayHold(e, s, v)
      ensures s != MARK ==> v == e.flushed[s]
      ensures s == MARK ==> SameBody(v, e.flushed[MARK])
    {
      FailedFlushHolds(d, e, s, v);
    }
  }

  /** A flush, failed or not, leaves a device that cannot look clean so. */
  lemma DirtyFlush(d: Device, e: Device, ok: bool)
    requires ShapedDevice(d) && NeverClean(d) && Flushed(d, e, ok) && e.Valid()
    ensures ShapedDevice(e) && NeverClean(e)
  {
    ShapedFlush(d, e, ok);
    CurrentHolds(d, MARK);
    forall v | MayHold(e, MARK, v) ensures Shaped(v) && Word(v) == 0 {
      if !ok {
        FailedFlushHolds(d, e, MARK, v);
      }
    }
  }

  /** After a successful flush of a settled device nothing is in doubt. */
  lemma SettledFlush(d: Device, e: Device)
    requires ShapedDevice(d) && Settled(d) && Flushed(d, e, true) && e.Valid()
    ensures ShapedDevice(e) && Quiet(e)
    ensures forall s :: 0 <= s < |e.durable| && s != MARK ==> e.durable[s] == d.flushed[s]
    ensures SameBody(e.durable[MARK], d.flushed[MARK])
  {
    ShapedFlush(d, e, true);
    CurrentHolds(d, MARK);
    forall s: nat | s < |e.durable| && s != MARK ensures e.durable[s] == d.flushed[s] {
      CurrentHolds(d, s);
    }
  }

  // ---------------------------------------------------------------------
  // The protocol's phases

  datatype Phase = Synced | Marking | Writing | Lost

  /** What is known of the device in each phase. */
  ghost predicate Behaves(d: Device, phase: Phase) {
    forall k :: Opened(MarkerSeal, k) ==>
      && ShapedDevice(d)
      && match phase
         case Synced => Quiet(d)
         case Marking => Settled(d)
         case Writing => NeverClean(d)
         case Lost => Settled(d) || NeverClean(d)
  }

  ghost predicate SafeLog(log: seq<Device>) {
    forall k :: Opened(MarkerSeal, k) ==> forall i :: 0 <= i < |log| ==> CrashSafe(log[i])
  }

  /** The state word that reads see. */
  ghost function StateWord(d: Device): nat {
    if MARK < |d.Current()| && Shaped(d.Current()[MARK]) then Word(d.Current()[MARK]) else 0
  }

  /** `super` is the flushed superblock, up to the state word. */
  ghost predicate Super(d: Device, super: seq<Sector>) {
    && |super| == 2 && Shaped(super[0]) && Shaped(super[1])
    && forall k :: Opened(MarkerSeal, k) ==>
         && ShapedDevice(d)
         && SameBody(super[0], d.flushed[MARK]) && super[1] == d.flushed[MARK + 1]
  }

  /** Reads see the same sectors, but for the state word. */
  ghost predicate Moved(d: Device, e: Device) {
    forall k :: Opened(MarkerSeal, k) ==>
      && |e.Current()| == |d.Current()| && MARK < |d.Current()|
      && (forall s :: 0 <= s < |d.Current()| && s != MARK ==> e.Current()[s] == d.Current()[s])
      && SameBody(e.Current()[MARK], d.Current()[MARK])
  }

  /** Reads see `data` at `first` and everything else as before, but for the state word. */
  ghost predicate Stored(d: Device, e: Device, first: nat, data: seq<Sector>) {
    forall k :: Opened(MarkerSeal, k) ==>
      && |e.Current()| == |d.Current()| && first + |data| <= |d.Current()| && MARK < |d.Current()|
      && (forall s :: first <= s < first + |data| && s != MARK ==> e.Current()[s] == data[s - first])
      && (forall s :: 0 <= s < |d.Current()| && !(first <= s < first + |data|) && s != MARK ==>
           e.Current()[s] == d.Current()[s])
      && SameBody(e.Current()[MARK], if first <= MARK < first + |data| then data[MARK - first] else d.Current()[MARK])
  }

  /** In every phase a crash is safe. */
  lemma LogGrows(log: seq<Device>, d: Device, phase: Phase)
    requires SafeLog(log) && Behaves(d, phase)
    ensures SafeLog(log + [d])
  {
    assert Opened(MarkerSeal, 0);
    if phase == Synced {
      QuietSettled(d);
    }
    if phase == Writing || (phase == Lost && NeverClean(d)) {
      NeverCleanSafe(d);
    } else {
      SettledSafe(d);
    }
  }

  /** Any phase may be given up, and a synced device may be marked or, when its word says dirty, written. */
  lemma Demoted(d: Device, phase: Phase)
    requires Behaves(d, phase)
    ensures Behaves(d, Lost)
    ensures phase == Synced ==> Behaves(d, Marking)
    ensures phase == Synced && StateWord(d) == 0 ==> Behaves(d, Writing)
  {
    assert Opened(MarkerSeal, 0);
    if phase == Synced {
      QuietSettled(d);
    }
  }

  lemma ReadSuper(d: Device)
    requires Behaves(d, Synced)
    ensures MARK + 2 <= |d.Current()| == |d.durable| && Super(d, d.Current()[MARK..MARK + 2])
  {
    assert Opened(MarkerSeal, 0);
  }

  lemma MovedSelf(d: Device, phase: Phase)
    requires Behaves(d, phase)
    ensures Moved(d, d)
  {
    assert Opened(MarkerSeal, 0);
    CurrentHolds(d, MARK);
  }

  lemma MovedTwice(a: Device, b: Device, c: Device)
    requires Moved(a, b) && Moved(b, c)
    ensures Moved(a, c)
  {
    assert Opened(MarkerSeal, 0);
  }

  /** Writing the superblock back with another state word, as far as the device obliges. */
  lemma MarkWritten(d: Device, e: Device, super: seq<Sector>, word: nat, ok: bool)
    requires Behaves(d, Marking) && e.Valid() && Super(d, super) && word < 256
    requires Cached(d, e, MARK, [Marked(super[0], word), super[1]], ok)
    ensures Behaves(e, Marking) && Super(e, [Marked(super[0], word), super[1]])
    ensures ok ==> Moved(d, e) && StateWord(e) == word
  {
    assert Opened(MarkerSeal, 0);
    MarkerCached(d, e, Marked(super[0], word), super[1], ok);
    if ok {
      CachedReads(d, e, MARK, [Marked(super[0], word), super[1]]);
      CurrentHolds(d, MARK);
      CurrentHolds(d, MARK + 1);
    }
  }

  /** The flush after it: done, or still in doubt about the state word alone. */
  lemma MarkFlushed(d: Device, e: Device, super: seq<Sector>, ok: bool)
    requires Behaves(d, Marking) && e.Valid() && Flushed(d, e, ok) && Super(d, super)
    ensures Behaves(e, if ok then Synced else Marking)
    ensures ok ==> Moved(d, e) && StateWord(e) == StateWord(d)
    ensures !ok ==> Super(e, super)
  {
    assert Opened(MarkerSeal, 0);
    if ok {
      SettledFlush(d, e);
    } else {
      SettledFailed(d, e);
    }
  }

  /** The flush at the start of a sync. */
  lemma SyncFlushed(d: Device, e: Device, phase: Phase, ok: bool)
    requires phase == Synced || phase == Writing
    requires Behaves(d, phase) && e.Valid() && Flushed(d, e, ok)
    ensures Behaves(e, Lost)
    ensures ok ==> Behaves(e, phase) && Behaves(e, Synced) && Moved(d, e)
    ensures ok && phase == Writing ==> StateWord(e) == 0
  {
    assert Opened(MarkerSeal, 0);
    CurrentHolds(d, MARK);
    if phase == Writing {
      DirtyFlush(d, e, ok);
    } else {
      QuietSettled(d);
      if ok {
        SettledFlush(d, e);
        QuietSettled(e);
      } else {
        SettledFailed(d, e);
      }
    }
  }

  /** A block write while the volume says dirty. */
  lemma BlockWritten(start: Device, d: Device, e: Device, first: nat, data: seq<Sector>, sent: seq<Sector>, ok: bool)
    requires Behaves(d, Writing) && e.Valid() && Moved(start, d) && Cached(d, e, first, sent, ok)
    requires first + |data| <= |d.durable| && |sent| == |data|
    requires forall i :: 0 <= i < |data| ==> Shaped(data[i])
    requires first <= MARK < first + |data| ==> sent == data[MARK - first := Marked(data[MARK - first], 0)]
    requires !(first <= MARK < first + |data|) ==> sent == data
    ensures Behaves(e, Writing)
    ensures ok ==> Stored(start, e, first, data)
  {
    assert Opened(MarkerSeal, 0);
    DirtyCached(d, e, first, sent, ok);
    if ok {
      CachedReads(d, e, first, sent);
      SentStored(start, d, e, first, data, sent);
    }
  }

  lemma SentStored(start: Device, d: Device, e: Device, first: nat, data: seq<Sector>, sent: seq<Sector>)
    requires Moved(start, d) && first + |data| <= |d.Current()| && |sent| == |data|
    requires e.Current() == d.Current()[..first] + sent + d.Current()[first + |data|..]
    requires forall i :: 0 <= i < |data| ==> Shaped(data[i])
    requires first <= MARK < first + |data| ==> sent == data[MARK - first := Marked(data[MARK - first], 0)]
    requires !(first <= MARK < first + |data|) ==> sent == data
    ensures Stored(start, e, first, data)
  {
    assert Opened(MarkerSeal, 0);
    var c, b := d.Current(), e.Current();
    assert forall s :: 0 <= s < first ==> b[s] == c[s];
    assert forall s :: first <= s < first + |data| ==> b[s] == sent[s - first];
    assert forall s :: first + |data| <= s < |c| ==> b[s] == c[s];
  }

  /** Where the marker sector lies: in the superblock's block and in no other. */
  lemma MarkPlace(block: nat, blockSectors: nat)
    requires blockSectors in {2, 4, 8}
    ensures Times(block, blockSectors) <= MARK < Times(block, blockSectors) + blockSectors <==>
            block == if blockSectors == 2 then 1 else 0
  {
    if block > 1 {
      TimesMono(2, block, blockSectors);
    }
    assert Times(0, blockSectors) == 0 && Times(1, blockSectors) == blockSectors &&
        Times(2, blockSectors) == 2 * blockSectors;
  }

  /** The part of the provider that decides when the device is written and flushed. */
  class MarkedVolume {
    const device: CachedDevice
    const blockSectors: nat
    const blocks: nat
    const writable: bool
    var failed: bool
    var dirty: bool

    /** Where the protocol stands, and that every state the device has been in was crash safe. */
    ghost predicate Valid()
      reads this, device
    {
      && Serving()
      && Behaves(device.state, if failed then Lost else if dirty then Writing else Synced)
    }

    ghost predicate Serving()
      reads this, device
    {
      && blockSectors in {2, 4, 8}
      && device.Valid() && SafeLog(device.log)
      && MARK + 2 <= |device.state.durable| && Times(blocks, blockSectors) <= |device.state.durable|
    }

    /** A writable mount of a clean volume has just flushed the device. */
    constructor (device: CachedDevice, blockSectors: nat, blocks: nat, writable: bool)
      requires blockSectors in {2, 4, 8}
      requires device.Valid() && ShapedDevice(device.state) && Quiet(device.state) && device.log == [device.state]
      requires Times(blocks, blockSectors) <= |device.state.durable|
      ensures Valid() && !failed && !dirty && this.device == device && this.writable == writable
    {
      this.device := device;
      this.blockSectors := blockSectors;
      this.blocks := blocks;
      this.writable := writable;
      failed, dirty := false, false;
      assert Opened(MarkerSeal, 0);
      LogGrows([], device.state, Synced);
      assert [] + [device.state] == device.log;
    }

    function SuperBlock(): nat { if blockSectors == 2 then 1 else 0 }

    /** Every disk a crash may leave now, or could have left at any earlier moment of the session, is safe. */
    lemma AlwaysCrashSafe(d: Device, image: seq<Sector>)
      requires Valid() && d in device.log
      requires CrashImage(d, image) && MARK < |image| && Shaped(image[MARK]) && Word(image[MARK]) == CLEAN
      ensures IsFlushed(d, image)
      ensures forall s :: 0 <= s < |image| && s != MARK ==> s < |d.Current()| && image[s] == d.Current()[s]
    {
      assert Opened(MarkerSeal, 0);
      var i :| 0 <= i < |device.log| && device.log[i] == d;
      assert CrashSafe(device.log[i]);
    }

    /** One write of the superblock with another state word, and the flush that makes it durable. */
    method WriteMark(super: seq<Sector>, word: nat) returns (ok: bool)
      requires Serving() && Behaves(device.state, Marking) && Super(device.state, super) && word < 256
      modifies device
      ensures Serving() && Behaves(device.state, Marking)
      ensures ok ==>
              Behaves(device.state, Synced) && Moved(old(device.state), device.state) && StateWord(device.state) == word
      ensures !ok ==> Super(device.state, [Marked(super[0], word), super[1]])
    {
      ghost var d := device.state;
      var marked := [Marked(super[0], word), super[1]];
      ok := device.WriteSectors(MARK, marked);
      ghost var e := device.state;
      MarkWritten(d, e, super, word, ok);
      LogGrows(old(device.log), e, Marking);
      if ok {
        ok := device.Flush();
        MarkFlushed(e, device.state, marked, ok);
        LogGrows(old(device.log) + [e], device.state, if ok then Synced else Marking);
        if ok {
          MovedTwice(d, e, device.state);
          Demoted(device.state, Synced);
        }
      }
    }

    /** The marker write that precedes the first block write after a clean state. */
    method MarkDirty() returns (s: Status)
      requires Valid() && !failed && !dirty
      modifies this, device
      ensures Valid()
      ensures s == Success ==> !failed && dirty && Moved(old(device.state), device.state)
      ensures s != Success ==> failed
    {
      Demoted(device.state, Synced);
      ReadSuper(device.state);
      var ok, super := device.ReadSectors(MARK, 2);
      if ok {
        ok := WriteMark(super, 0);
        Demoted(device.state, if ok then Synced else Marking);
      }
      if !ok {
        failed := true;
        return IoError;
      }
      dirty := true;
      return Success;
    }

    /** `write_block`: nothing is written once failed; the marker goes down before the first block does. */
    method WriteBlock(block: nat, data: seq<Sector>) returns (s: Status)
      requires Valid() && |data| == blockSectors && forall i :: 0 <= i < |data| ==> Shaped(data[i])
      modifies this, device
      ensures Valid()
      ensures old(failed) || !writable ==> s != Success && device.state == old(device.state)
      ensures s == Success ==> !failed && dirty && block < blocks
      ensures s == Success ==> Stored(old(device.state), device.state, Times(block, blockSectors), data)
      ensures s != Success ==> failed || !writable
    {
      if failed {
        return IoError;
      }
      if !writable {
        return Denied;
      }
      if block >= blocks {
        failed := true;
        Demoted(device.state, if dirty then Writing else Synced);
        return IoError;
      }
      MovedSelf(device.state, if dirty then Writing else Synced);
      if !dirty {
        s := MarkDirty();
        if s != Success {
          return;
        }
      }
      s := WriteDirty(block, data, old(device.state));
    }

    /** The block write itself, with the state word of the superblock forced to dirty. */
    method WriteDirty(block: nat, data: seq<Sector>, ghost start: Device) returns (s: Status)
      requires Valid() && !failed && dirty && block < blocks && Moved(start, device.state)
      requires |data| == blockSectors && forall i :: 0 <= i < |data| ==> Shaped(data[i])
      modifies this, device
      ensures Valid()
      ensures s == Success ==> !failed && dirty && Stored(start, device.state, Times(block, blockSectors), data)
      ensures s != Success ==> failed
    {
      ghost var d := device.state;
      var first := Times(block, blockSectors);
      TimesMono(block + 1, blocks, blockSectors);
      MarkPlace(block, blockSectors);
      var updated := data;
      if block == SuperBlock() {
        updated := data[MARK - first := Marked(data[MARK - first], 0)];
      }
      var ok := device.WriteSectors(first, updated);
      BlockWritten(start, d, device.state, first, data, updated, ok);
      LogGrows(old(device.log), device.state, Writing);
      if !ok {
        failed := true;
        Demoted(device.state, Writing);
        return IoError;
      }
      return Success;
    }

    /** `restore_dirty_marker`: a best-effort rewrite of the dirty marker, after which nothing is written again. */
    method RestoreDirtyMarker(super: seq<Sector>)
      requires Serving() && Behaves(device.state, Marking) && Super(device.state, super)
      modifies this, device
      ensures Valid() && failed && dirty
    {
      failed, dirty := true, true;
      ghost var d := device.state;
      var ok := device.WriteSectors(MARK, [Marked(super[0], 0), super[1]]);
      ghost var e := device.state;
      MarkWritten(d, e, super, 0, ok);
      LogGrows(old(device.log), e, Marking);
      ok := device.Flush();
      MarkFlushed(e, device.state, [Marked(super[0], 0), super[1]], ok);
      LogGrows(old(device.log) + [e], device.state, if ok then Synced else Marking);
      Demoted(device.state, if ok then Synced else Marking);
    }

    /**
     `sync_active` once the detached inodes are drained: what was written becomes
     durable, and only then, with no detached inode left, does the volume say clean.
     */
    method SyncActive(detached: bool) returns (s: Status)
      requires Valid()
      modifies this, device
      ensures Valid()
      ensures old(failed) ==> s == IoError && device.state == old(device.state)
      ensures s != Success ==> failed
      ensures s == Success ==> !failed && Behaves(device.state, Synced) && Moved(old(device.state), device.state)
      ensures s == Success ==> dirty == (old(dirty) && detached)
      ensures s == Success && old(dirty) ==> StateWord(device.state) == if detached then 0 else CLEAN
    {
      if failed {
        return IoError;
      }
      ghost var d := device.state;
      ghost var phase := if dirty then Writing else Synced;
      var ok := device.Flush();
      SyncFlushed(d, device.state, phase, ok);
      LogGrows(old(device.log), device.state, Lost);
      if !ok {
        failed := true;
        return IoError;
      }
      if !dirty {
        return Success;
      }
      if detached {
        return Success;
      }
      ghost var e := device.state;
      s := Clean();
      if s == Success {
        MovedTwice(d, e, device.state);
      }
    }

    /** Writes the clean marker over a flushed volume. */
    method Clean() returns (s: Status)
      requires Valid() && !failed && dirty && Behaves(device.state, Synced)
      modifies this, device
      ensures Valid()
      ensures s != Success ==> failed
      ensures s == Success ==> !failed && !dirty && Behaves(device.state, Synced)
      ensures s == Success ==> Moved(old(device.state), device.state) && StateWord(device.state) == CLEAN
    {
      Demoted(device.state, Synced);
      ReadSuper(device.state);
      var ok, super := device.ReadSectors(MARK, 2);
      if !ok {
        failed := true;
        return IoError;
      }
      ok := WriteMark(super, CLEAN);
      if !ok {
        RestoreDirtyMarker([Marked(super[0], CLEAN), super[1]]);
        return IoError;
      }
      dirty := false;
      return Success;
    }
  }
}
