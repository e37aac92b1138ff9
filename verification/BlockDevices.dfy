/**
 A block device with a volatile write cache. Until a flush succeeds, a crash may
 keep any subset of the sector writes made since the last one; a write that
 fails may still have reached the cache in part, and a flush that fails may have
 made part of the cache durable and lost part of it.
 */
module BlockDevices {
  import opened Outcomes
  import opened Seals

  type Sector = seq<byte>

  datatype Write = Write(sector: nat, data: Sector)

  /** `flushed` is the content as of the last successful flush. */
  datatype Device = Device(durable: seq<Sector>, pending: seq<Write>, flushed: seq<Sector>) {
    /** What reads return: every cached write applied. */
    function Current(): seq<Sector> { Replay(durable, pending) }

    ghost predicate Valid() {
      && |flushed| == |durable|
      && forall w :: w in pending ==> w.sector < |durable|
    }
  }

  function Replay(disk: seq<Sector>, writes: seq<Write>): (r: seq<Sector>)
    ensures |r| == |disk|
    decreases |writes|
  {
    if writes == [] then disk
    else
      var w := writes[0];
      Replay(if w.sector < |disk| then disk[w.sector := w.data] else disk, writes[1..])
  }

  /** The writes whose mask bit is set, in order. */
  function Kept(writes: seq<Write>, mask: seq<bool>): seq<Write>
    requires |mask| == |writes|
  {
    if writes == [] then []
    else (if mask[0] then [writes[0]] else []) + Kept(writes[1..], mask[1..])
  }

  /** The sector writes of one request. */
  function Request(first: nat, data: seq<Sector>): seq<Write> {
    seq(|data|, i requires 0 <= i < |data| => Write(first + i, data[i]))
  }

  /** A disk that a crash in state `d` may leave. */
  ghost predicate CrashImage(d: Device, image: seq<Sector>) {
    exists mask: seq<bool> :: |mask| == |d.pending| && image == Replay(d.durable, Kept(d.pending, mask))
  }

  /** A value that sector `s` may hold, now or after a crash. */
  ghost predicate MayHold(d: Device, s: nat, v: Sector) {
    s < |d.durable| && (d.durable[s] == v || Write(s, v) in d.pending)
  }

  lemma {:induction false} KeptIn(writes: seq<Write>, mask: seq<bool>)
    requires |mask| == |writes|
    ensures forall w :: w in Kept(writes, mask) ==> w in writes
  {
    if writes != [] {
      KeptIn(writes[1..], mask[1..]);
    }
  }

  lemma {:induction false} ReplayAt(disk: seq<Sector>, writes: seq<Write>, s: nat)
    requires s < |disk|
    ensures Replay(disk, writes)[s] == disk[s] || Write(s, Replay(disk, writes)[s]) in writes
    decreases |writes|
  {
    if writes != [] {
      var w := writes[0];
      ReplayAt(if w.sector < |disk| then disk[w.sector := w.data] else disk, writes[1..], s);
    }
  }

  /** After a crash each sector holds a value it may hold; so it does for reads. */
  lemma CrashHolds(d: Device, image: seq<Sector>, s: nat)
    requires CrashImage(d, image) && s < |d.durable|
    ensures |image| == |d.durable| && MayHold(d, s, image[s])
  {
    var mask: seq<bool> :| |mask| == |d.pending| && image == Replay(d.durable, Kept(d.pending, mask));
    ReplayAt(d.durable, Kept(d.pending, mask), s);
    KeptIn(d.pending, mask);
  }

  lemma CurrentHolds(d: Device, s: nat)
    requires s < |d.durable|
    ensures MayHold(d, s, d.Current()[s])
  {
    ReplayAt(d.durable, d.pending, s);
  }

  // ---------------------------------------------------------------------
  // Requests

  /** A write request: all of it reaches the cache, or, when it fails, some of it. */
  ghost predicate Cached(d: Device, e: Device, first: nat, data: seq<Sector>, ok: bool) {
    && e.durable == d.durable && e.flushed == d.flushed
    && forall k :: Opened(DeviceSeal, k) ==> exists mask: seq<bool> ::
         && |mask| == |data|
         && (ok ==> forall i :: 0 <= i < |mask| ==> mask[i])
         && e.pending == d.pending + Kept(Request(first, data), mask)
  }

  /** A flush: everything durable, or, when it fails, some of the cache written out and some of it lost. */
  ghost predicate Flushed(d: Device, e: Device, ok: bool) {
    if ok then e == Device(d.Current(), [], d.Current())
    else
      && e.flushed == d.flushed && |e.durable| == |d.durable|
      && forall k :: Opened(DeviceSeal, k) ==> exists out: seq<bool>, left: seq<bool> ::
           && |out| == |left| == |d.pending|
           && e.durable == Replay(d.durable, Kept(d.pending, out))
           && e.pending == Kept(d.pending, left)
  }

  /** A write request adds only its own values to what sectors may hold. */
  lemma CachedHolds(d: Device, e: Device, first: nat, data: seq<Sector>, ok: bool, s: nat, v: Sector)
    requires Cached(d, e, first, data, ok) && MayHold(e, s, v)
    ensures MayHold(d, s, v) || (first <= s < first + |data| && v == data[s - first])
  {
    assert Opened(DeviceSeal, 0);
    var mask: seq<bool> :| |mask| == |data| && e.pending == d.pending + Kept(Request(first, data), mask);
    KeptIn(Request(first, data), mask);
    if Write(s, v) in Kept(Request(first, data), mask) {
      var i :| 0 <= i < |data| && Request(first, data)[i] == Write(s, v);
    }
  }

  /** A failed flush adds nothing to what sectors may hold. */
  lemma FailedFlushHolds(d: Device, e: Device, s: nat, v: Sector)
    requires Flushed(d, e, false) && MayHold(e, s, v)
    ensures MayHold(d, s, v)
  {
    assert Opened(DeviceSeal, 0);
    var out: seq<bool>, left: seq<bool> :|
      && |out| == |left| == |d.pending|
      && e.durable == Replay(d.durable, Kept(d.pending, out))
      && e.pending == Kept(d.pending, left);
    KeptIn(d.pending, out);
    KeptIn(d.pending, left);
    ReplayAt(d.durable, Kept(d.pending, out), s);
  }

  lemma {:induction false} KeptAll(writes: seq<Write>, mask: seq<bool>)
    requires |mask| == |writes| && forall i :: 0 <= i < |mask| ==> mask[i]
    ensures Kept(writes, mask) == writes
  {
    if writes != [] {
      KeptAll(writes[1..], mask[1..]);
    }
  }

  lemma {:induction false} ReplayConcat(disk: seq<Sector>, a: seq<Write>, b: seq<Write>)
    ensures Replay(disk, a + b) == Replay(Replay(disk, a), b)
    decreases |a|
  {
    if a == [] {
      assert a + b == b;
    } else {
      var w := a[0];
      assert (a + b)[1..] == a[1..] + b;
      ReplayConcat(if w.sector < |disk| then disk[w.sector := w.data] else disk, a[1..], b);
    }
  }

  /** Reads after a successful write see it, and everything else as before. */
  lemma CachedReads(d: Device, e: Device, first: nat, data: seq<Sector>)
    requires Cached(d, e, first, data, true) && first + |data| <= |d.durable|
    ensures e.Current() == d.Current()[..first] + data + d.Current()[first + |data|..]
  {
    assert Opened(DeviceSeal, 0);
    var mask: seq<bool> :|
      && |mask| == |data| && (forall i :: 0 <= i < |mask| ==> mask[i])
      && e.pending == d.pending + Kept(Request(first, data), mask);
    KeptAll(Request(first, data), mask);
    ReplayConcat(d.durable, d.pending, Request(first, data));
    ReplayRequest(d.Current(), first, data);
  }

  lemma {:induction false} ReplayRequest(disk: seq<Sector>, first: nat, data: seq<Sector>)
    requires first + |data| <= |disk|
    ensures Replay(disk, Request(first, data)) == disk[..first] + data + disk[first + |data|..]
    decreases |data|
  {
    if data == [] {
      assert Request(first, data) == [];
    } else {
      assert Request(first, data)[0] == Write(first, data[0]);
      assert Request(first, data)[1..] == Request(first + 1, data[1..]);
      ReplayRequest(disk[first := data[0]], first + 1, data[1..]);
    }
  }

  /** The device as the file system drives it. `log` holds every state it has been in. */
  class CachedDevice {
    var state: Device
    ghost var log: seq<Device>

    ghost predicate Valid()
      reads this
    {
      state.Valid() && log != [] && log[|log| - 1] == state
    }

    method ReadSectors(first: nat, count: nat) returns (ok: bool, data: seq<Sector>)
      requires Valid() && first + count <= |state.durable|
      ensures ok ==> data == state.Current()[first..first + count]
    {
      ok := *;
      data := if ok then state.Current()[first..first + count] else [];
    }

    method WriteSectors(first: nat, data: seq<Sector>) returns (ok: bool)
      requires Valid() && first + |data| <= |state.durable|
      modifies this
      ensures Valid() && log == old(log) + [state]
      ensures Cached(old(state), state, first, data, ok)
    {
      ok := *;
      assert |seq(|data|, _ => true)| == |data|;
      var mask: seq<bool> :| |mask| == |data| && (ok ==> forall i :: 0 <= i < |mask| ==> mask[i]);
      KeptIn(Request(first, data), mask);
      state := state.(pending := state.pending + Kept(Request(first, data), mask));
      log := log + [state];
    }

    method Flush() returns (ok: bool)
      requires Valid()
      modifies this
      ensures Valid() && log == old(log) + [state]
      ensures Flushed(old(state), state, ok)
    {
      ok := *;
      if ok {
        state := Device(state.Current(), [], state.Current());
      } else {
        assert |seq(|state.pending|, _ => true)| == |state.pending|;
        var out: seq<bool> :| |out| == |state.pending|;
        var left: seq<bool> :| |left| == |state.pending|;
        KeptIn(state.pending, left);
        state := state.(durable := Replay(state.durable, Kept(state.pending, out)),
            pending := Kept(state.pending, left));
      }
      log := log + [state];
    }
  }
}
