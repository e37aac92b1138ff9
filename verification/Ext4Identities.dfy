/**
 The life cycle of ext4 node identities (src/fs/ext4_fs.cpp) under any
 interleaving. Every critical section of `identity_lock_` is one step; the holder
 of `operation_active_` is the only one to take the steps of an operation, while
 any other thread may retain, expose and release nodes between them.
 */
module Ext4Identities {
  import opened Outcomes

  datatype Option<+T> = None | Some(value: T)

  const MAX_REFERENCES: nat := 0xffff_ffff

  datatype Phase = Vacant | Linked | Detached | Retiring | Tombstone

  datatype Slot = Slot(phase: Phase, ino: nat, refs: nat, exposed: bool) {
    /** The identity may still be retained, exposed or operated on. */
    predicate Live() { phase == Linked || (phase == Detached && refs > 0) }

    /** An orphan: unlinked, and held by nobody. */
    predicate Ready() { phase == Detached && refs == 0 }

    predicate Reusable() { phase == Vacant && !exposed && refs == 0 }

    predicate Evictable() { phase == Linked && refs == 0 && !exposed }

    /** The slot stands for an inode that exists on disk. */
    predicate Stands() { phase == Linked || phase == Detached || phase == Retiring }
  }

  /** `stored`: inode numbers in use on disk; `named`: those a directory lookup may yield. */
  datatype State = State(slots: seq<Slot>, active: bool, failed: bool, named: set<nat>, stored: set<nat>)

  datatype Step =
    | Retain(i: nat) | Expose(i: nat) | Release(i: nat) | Begin
    | Evict(i: nat) | Assign(i: nat, ino: nat) | Publish(i: nat, ino: nat, retained: bool)
    | Detach(i: nat) | Retire(i: nat) | Bury(i: nat) | Quarantine | Finish
  {
    /** Steps that any thread may take at any time. */
    predicate Touches() { Retain? || Expose? || Release? }
  }

  predicate NoneReady(slots: seq<Slot>) { forall i :: 0 <= i < |slots| ==> !slots[i].Ready() }

  predicate Enabled(s: State, step: Step) {
    match step
    case Retain(i) => i < |s.slots| && s.slots[i].Live() && s.slots[i].refs < MAX_REFERENCES
    case Expose(i) => i < |s.slots| && s.slots[i].Live()
    case Release(i) => i < |s.slots| && s.slots[i].refs > 0
    case Begin => !s.active
    case Evict(i) => s.active && 0 < i < |s.slots| && s.slots[i].Evictable()
    case Assign(i, ino) =>
      && s.active && i < |s.slots| && s.slots[i].Reusable() && ino in s.named
      && forall j :: 0 <= j < |s.slots| ==> !(s.slots[j].ino == ino && s.slots[j].phase == Linked)
    case Publish(i, ino, _) => s.active && i < |s.slots| && s.slots[i].Reusable() && ino > 0 && ino !in s.stored
    case Detach(i) => s.active && i < |s.slots| && s.slots[i].phase == Linked
    case Retire(i) => s.active && i < |s.slots| && s.slots[i].Ready()
    case Bury(i) => s.active && i < |s.slots| && s.slots[i].phase == Retiring
    case Quarantine => s.active
    case Finish => s.active && (s.failed || NoneReady(s.slots))
  }

  function After(s: State, step: Step): State
    requires Enabled(s, step)
  {
    match step
    case Retain(i) => s.(slots := s.slots[i := s.slots[i].(refs := s.slots[i].refs + 1)])
    case Expose(i) => s.(slots := s.slots[i := s.slots[i].(exposed := true)])
    case Release(i) =>
      var slot := s.slots[i].(refs := s.slots[i].refs - 1);
      s.(slots := s.slots[i := slot], active := s.active || slot.Ready())
    case Begin => s.(active := true)
    case Evict(i) => s.(slots := s.slots[i := Slot(Vacant, 0, 0, false)])
    case Assign(i, ino) => s.(slots := s.slots[i := Slot(Linked, ino, 0, false)])
    case Publish(i, ino, retained) =>
      s.(slots := s.slots[i := Slot(Linked, ino, if retained then 1 else 0, !retained)],
         named := s.named + {ino}, stored := s.stored + {ino})
    case Detach(i) => s.(slots := s.slots[i := s.slots[i].(phase := Detached)], named := s.named - {s.slots[i].ino})
    case Retire(i) => s.(slots := s.slots[i := s.slots[i].(phase := Retiring)])
    case Bury(i) =>
      var slot := s.slots[i];
      s.(slots := s.slots[i := if slot.exposed then slot.(phase := Tombstone) else slot.(phase := Vacant, ino := 0)],
         stored := s.stored - {slot.ino})
    case Quarantine => s.(failed := true)
    case Finish => s.(active := false)
  }

  ghost predicate Next(s: State, t: State) { exists step :: Enabled(s, step) && t == After(s, step) }

  // ---------------------------------------------------------------------
  // The invariant

  predicate SlotSound(s: State, slot: Slot) {
    && (slot.phase == Vacant ==> slot.ino == 0 && !slot.exposed)
    && (slot.Stands() ==> slot.ino > 0 && slot.ino in s.stored)
    && (slot.phase == Linked ==> slot.ino in s.named)
    && (slot.phase == Detached || slot.phase == Retiring ==> slot.ino !in s.named)
    && (slot.refs > 0 ==> slot.phase == Linked || slot.phase == Detached)
    && (slot.phase == Tombstone ==> slot.exposed)
  }

  ghost predicate Distinct(slots: seq<Slot>) {
    forall i, j :: 0 <= i < j < |slots| && slots[i].Stands() && slots[j].Stands() ==> slots[i].ino != slots[j].ino
  }

  ghost predicate Inv(s: State) {
    && s.named <= s.stored && 0 !in s.stored
    && (forall i :: 0 <= i < |s.slots| ==> SlotSound(s, s.slots[i]))
    && Distinct(s.slots)
    && (s.active || s.failed || NoneReady(s.slots))
  }

  /** Every step of every thread keeps the invariant. */
  lemma InvKept(s: State, step: Step)
    requires Inv(s) && Enabled(s, step)
    ensures Inv(After(s, step))
  {
    var t := After(s, step);
    forall i | 0 <= i < |t.slots| ensures SlotSound(t, t.slots[i]) {
      SlotKept(s, step, i);
    }
    forall i, j | 0 <= i < j < |t.slots| && t.slots[i].Stands() && t.slots[j].Stands()
      ensures t.slots[i].ino != t.slots[j].ino
    {
      PairKept(s, step, i, j);
    }
    assert t.active || t.failed || NoneReady(t.slots) by {
      NoneLeft(s, step);
    }
  }

  lemma SlotKept(s: State, step: Step, i: nat)
    requires Inv(s) && Enabled(s, step) && i < |s.slots|
    ensures |After(s, step).slots| == |s.slots| && SlotSound(After(s, step), After(s, step).slots[i])
  {
    assert SlotSound(s, s.slots[i]);
    if step.Detach? || step.Bury? {
      assert SlotSound(s, s.slots[step.i]);
      assert i != step.i && s.slots[i].Stands() ==> s.slots[i].ino != s.slots[step.i].ino;
    }
  }

  lemma PairKept(s: State, step: Step, i: nat, j: nat)
    requires Inv(s) && Enabled(s, step) && i < j < |s.slots|
    ensures var t := After(s, step);
            |t.slots| == |s.slots| && (t.slots[i].Stands() && t.slots[j].Stands() ==> t.slots[i].ino != t.slots[j].ino)
  {
    assert SlotSound(s, s.slots[i]) && SlotSound(s, s.slots[j]);
  }

  lemma NoneLeft(s: State, step: Step)
    requires Inv(s) && Enabled(s, step)
    ensures var t := After(s, step); t.active || t.failed || NoneReady(t.slots)
  {
  }

  /** A step leaves the inode number of a referenced or exposed slot alone, and an exposed slot exposed. */
  lemma StepKeepsIdentity(s: State, step: Step, i: nat)
    requires Inv(s) && Enabled(s, step) && i < |s.slots| && (s.slots[i].refs > 0 || s.slots[i].exposed)
    ensures After(s, step).slots[i].ino == s.slots[i].ino
    ensures s.slots[i].exposed ==> After(s, step).slots[i].exposed
  {
    assert SlotSound(s, s.slots[i]);
  }

  // ---------------------------------------------------------------------
  // Whole runs

  ghost predicate StepAt(run: seq<State>, k: nat) { k + 1 < |run| && Next(run[k], run[k + 1]) }

  ghost predicate IsRun(run: seq<State>) {
    && run != [] && Inv(run[0])
    && forall k :: 0 <= k < |run| - 1 ==> StepAt(run, k)
  }

  lemma {:induction false} Reachable(run: seq<State>, k: nat)
    requires IsRun(run) && k < |run|
    ensures Inv(run[k]) && |run[k].slots| == |run[0].slots|
  {
    if k > 0 {
      Reachable(run, k - 1);
      assert StepAt(run, k - 1);
      var step :| Enabled(run[k - 1], step) && run[k] == After(run[k - 1], step);
      InvKept(run[k - 1], step);
    }
  }

  /** No stranded orphan: with no operation active on a sound mount, no detached node is without references. */
  lemma NoStrandedOrphan(run: seq<State>, k: nat, i: nat)
    requires IsRun(run) && k < |run| && i < |run[k].slots|
    requires !run[k].active && !run[k].failed
    ensures !(run[k].slots[i].phase == Detached && run[k].slots[i].refs == 0)
  {
    Reachable(run, k);
  }

  /** A held node keeps its inode: it stays allocated, and no other identity stands for it. */
  lemma HeldInodeStays(run: seq<State>, k: nat, i: nat)
    requires IsRun(run) && k < |run| && i < |run[k].slots| && run[k].slots[i].refs > 0
    ensures run[k].slots[i].ino in run[k].stored
    ensures forall j :: 0 <= j < |run[k].slots| && j != i && run[k].slots[j].Stands() ==>
                          run[k].slots[j].ino != run[k].slots[i].ino
  {
    Reachable(run, k);
    assert SlotSound(run[k], run[k].slots[i]);
  }

  lemma RunKeepsIdentity(run: seq<State>, k: nat, i: nat)
    requires IsRun(run) && k + 1 < |run| && i < |run[0].slots|
    ensures i < |run[k].slots| && i < |run[k + 1].slots|
    ensures run[k].slots[i].refs > 0 || run[k].slots[i].exposed ==> run[k + 1].slots[i].ino == run[k].slots[i].ino
    ensures run[k].slots[i].exposed ==> run[k + 1].slots[i].exposed
  {
    Reachable(run, k);
    Reachable(run, k + 1);
    assert StepAt(run, k);
    var step :| Enabled(run[k], step) && run[k + 1] == After(run[k], step);
    if run[k].slots[i].refs > 0 || run[k].slots[i].exposed {
      StepKeepsIdentity(run[k], step, i);
    }
  }

  /** A slot that stays referenced or exposed from `a` to `b` names the same inode at both. */
  lemma {:induction false} IdentityStable(run: seq<State>, a: nat, b: nat, i: nat)
    requires IsRun(run) && a <= b < |run| && i < |run[0].slots|
    requires forall k :: a <= k < b ==> i < |run[k].slots| && (run[k].slots[i].refs > 0 || run[k].slots[i].exposed)
    ensures i < |run[a].slots| && i < |run[b].slots| && run[b].slots[i].ino == run[a].slots[i].ino
  {
    if a < b {
      IdentityStable(run, a, b - 1, i);
      RunKeepsIdentity(run, b - 1, i);
    } else {
      Reachable(run, a);
    }
  }

  /** Once handed out raw, a slot names the same inode for ever. */
  lemma {:induction false} ExposedForever(run: seq<State>, a: nat, b: nat, i: nat)
    requires IsRun(run) && a <= b < |run| && i < |run[a].slots| && run[a].slots[i].exposed
    ensures i < |run[b].slots| && run[b].slots[i].exposed && run[b].slots[i].ino == run[a].slots[i].ino
  {
    if a < b {
      ExposedForever(run, a, b - 1, i);
      Reachable(run, a);
      RunKeepsIdentity(run, b - 1, i);
    }
  }

  lemma RunGrows(run: seq<State>, step: Step)
    requires IsRun(run) && Enabled(run[|run| - 1], step)
    ensures IsRun(run + [After(run[|run| - 1], step)])
  {
    var more := run + [After(run[|run| - 1], step)];
    forall k | 0 <= k < |more| - 1 ensures StepAt(more, k) {
      assert k < |run| - 1 ==> StepAt(run, k);
      assert Next(more[k], more[k + 1]);
    }
  }

  // ---------------------------------------------------------------------
  // What other threads may do while an operation is active

  ghost predicate SlotMeanwhile(a: Slot, b: Slot) {
    && b.phase == a.phase && b.ino == a.ino && (a.exposed ==> b.exposed)
    && (!a.Live() ==> b == a)
  }

  /** Only references and exposure move, and only of live nodes: an orphan stays an orphan. */
  ghost predicate Meanwhile(s: State, t: State) {
    && t == s.(slots := t.slots) && |t.slots| == |s.slots|
    && forall i :: 0 <= i < |s.slots| ==> SlotMeanwhile(s.slots[i], t.slots[i])
  }

  lemma MeanwhileOnce(s: State, t: State, step: Step)
    requires Meanwhile(s, t) && Inv(t) && t.active && Enabled(t, step) && step.Touches()
    ensures Meanwhile(s, After(t, step))
  {
    var u := After(t, step);
    forall i | 0 <= i < |s.slots| ensures SlotMeanwhile(s.slots[i], u.slots[i]) {
      assert SlotMeanwhile(s.slots[i], t.slots[i]) && SlotSound(t, t.slots[i]);
    }
  }

  /** The number of detached slots; it bounds the work left to a drain. */
  function Orphans(slots: seq<Slot>): nat {
    if slots == [] then 0 else (if slots[0].phase == Detached then 1 else 0) + Orphans(slots[1..])
  }

  lemma {:induction false} OrphansSame(a: seq<Slot>, b: seq<Slot>)
    requires |a| == |b| && forall i :: 0 <= i < |a| ==> (a[i].phase == Detached <==> b[i].phase == Detached)
    ensures Orphans(a) == Orphans(b)
  {
    if a != [] {
      OrphansSame(a[1..], b[1..]);
    }
  }

  lemma {:induction false} OrphansDrop(a: seq<Slot>, i: nat, slot: Slot)
    requires i < |a| && a[i].phase == Detached && slot.phase != Detached
    ensures Orphans(a[i := slot]) == Orphans(a) - 1
  {
    if i > 0 {
      assert a[i := slot][1..] == a[1..][i - 1 := slot];
      OrphansDrop(a[1..], i - 1, slot);
    }
  }

  /** The identity table of a mount. `named` and `stored` are what the disk says. */
  class Identities {
    const firstInode: nat
    var slots: seq<Slot>
    var active: bool
    var failed: bool
    var named: set<nat>
    var stored: set<nat>
    ghost var run: seq<State>

    function Now(): State
      reads this
    {
      State(slots, active, failed, named, stored)
    }

    /** What happened so far is a run of the step system. */
    ghost predicate Valid()
      reads this
    {
      IsRun(run) && run[|run| - 1] == Now()
    }

    /** A mount publishes the root alone. */
    constructor (firstInode: nat, capacity: nat, named: set<nat>, stored: set<nat>)
      requires 2 in named && named <= stored && 0 !in stored && capacity > 0
      ensures Valid() && !active && !failed && |slots| == capacity && slots[0] == Slot(Linked, 2, 0, false)
    {
      this.firstInode := firstInode;
      slots := seq(capacity, i => if i == 0 then Slot(Linked, 2, 0, false) else Slot(Vacant, 0, 0, false));
      active, failed := false, false;
      this.named, this.stored := named, stored;
      new;
      run := [Now()];
    }

    /** One critical section. */
    method Take(step: Step)
      requires Valid() && Enabled(Now(), step)
      modifies this
      ensures Valid() && Now() == After(old(Now()), step) && run == old(run) + [Now()]
      ensures |slots| == old(|slots|)
    {
      RunGrows(run, step);
      var next := After(Now(), step);
      slots, active, failed, named, stored := next.slots, next.active, next.failed, next.named, next.stored;
      run := run + [next];
    }

    lemma Sound()
      requires Valid()
      ensures Inv(Now())
    {
      Reachable(run, |run| - 1);
    }

    // -------------------------------------------------------------------
    // Steps of any thread

    /** `retain_locked`. */
    method RetainLocked(i: nat) returns (s: Status)
      requires Valid() && i < |slots|
      modifies this
      ensures Valid()
      ensures s == Success <==> old(slots[i].Live() && slots[i].refs < MAX_REFERENCES)
      ensures s == Success ==> slots == old(slots)[i := old(slots[i]).(refs := old(slots[i].refs) + 1)]
      ensures s == Success ==> Now() == old(Now()).(slots := slots)
      ensures s != Success ==> Now() == old(Now())
      ensures s == NotFound <==> !old(slots[i].Live())
    {
      if slots[i].phase != Linked && !(slots[i].phase == Detached && slots[i].refs > 0) {
        return NotFound;
      }
      if slots[i].refs >= MAX_REFERENCES {
        return Overflow;
      }
      Take(Retain(i));
      return Success;
    }

    /** `expose_locked`. */
    method ExposeLocked(i: nat) returns (s: Status)
      requires Valid() && i < |slots|
      modifies this
      ensures Valid()
      ensures s == Success <==> old(slots[i].Live())
      ensures s == Success ==> Now() == old(Now()).(slots := old(slots)[i := old(slots[i]).(exposed := true)])
      ensures s != Success ==> Now() == old(Now())
    {
      if slots[i].phase != Linked && !(slots[i].phase == Detached && slots[i].refs > 0) {
        return NotFound;
      }
      Take(Expose(i));
      return Success;
    }

    /** The critical section of `release`; `adopted` when the caller must clean up. */
    method ReleaseLocked(i: nat) returns (s: Status, adopted: bool)
      requires Valid() && i < |slots|
      modifies this
      ensures Valid()
      ensures s == Success <==> old(slots[i].refs) > 0
      ensures s == Success ==> slots == old(slots)[i := old(slots[i]).(refs := old(slots[i].refs) - 1)]
      ensures s == Success ==> Now() == After(old(Now()), Release(i))
      ensures s == Success || s == InvalidArgument
      ensures s != Success ==> Now() == old(Now()) && !adopted
      ensures adopted <==> LastOfOrphan(old(Now()), i)
      ensures adopted ==> slots[i].Ready()
    {
      if slots[i].refs == 0 {
        return InvalidArgument, false;
      }
      var was := active;
      Take(Release(i));
      return Success, !(slots[i].refs > 0 || slots[i].phase != Detached || was);
    }

    /** Other threads get the lock between two critical sections of an operation. */
    method Interfere()
      requires Valid() && active
      modifies this
      ensures Valid() && Meanwhile(old(Now()), Now())
    {
      var turns: nat := *;
      while turns > 0
        invariant Valid() && active && Meanwhile(old(Now()), Now())
      {
        var step: Step := *;
        if step.Touches() && Enabled(Now(), step) {
          Sound();
          MeanwhileOnce(old(Now()), Now(), step);
          Take(step);
        }
        turns := turns - 1;
      }
    }

    /** With no operation of one's own, other threads may do anything. */
    method Elsewhere()
      requires Valid()
      modifies this
      ensures Valid() && |slots| == old(|slots|)
    {
      var turns: nat := *;
      while turns > 0
        invariant Valid() && |slots| == old(|slots|)
      {
        var step: Step := *;
        if Enabled(Now(), step) {
          Take(step);
        }
        turns := turns - 1;
      }
    }

    // -------------------------------------------------------------------
    // Operations

    /** `begin_operation` of a mounted file system; `i` is the node operated on, if any. */
    method BeginOperation(node: Option<nat>) returns (s: Status)
      requires Valid() && (node.Some? ==> node.value < |slots|)
      modifies this
      ensures Valid() && |slots| == old(|slots|)
      ensures s in {Success, Busy, NotFound}
      ensures s == Success ==> active && (node.Some? ==> slots[node.value].Live())
      ensures s == Busy ==> active
      ensures s == NotFound ==> !active && node.Some? && !slots[node.value].Live()
    {
      Elsewhere();
      if active {
        return Busy;
      }
      if node.Some? {
        var slot := slots[node.value];
        if slot.phase != Linked && !(slot.phase == Detached && slot.refs > 0) {
          return NotFound;
        }
      }
      Take(Begin);
      return Success;
    }

    /** The number of the first orphan, or 0. */
    method FirstReady() returns (number: nat)
      requires Valid()
      ensures number == 0 <==> NoneReady(slots)
      ensures number > 0 ==> exists i :: 0 <= i < |slots| && slots[i].Ready() && slots[i].ino == number
    {
      Sound();
      for i := 0 to |slots|
        invariant forall j :: 0 <= j < i ==> !slots[j].Ready()
      {
        if slots[i].phase == Detached && slots[i].refs == 0 {
          assert SlotSound(Now(), slots[i]);
          return slots[i].ino;
        }
      }
      return 0;
    }

    /** The first detached slot with this number, or none. */
    method FindDetached(ino: nat) returns (victim: nat)
      requires Valid()
      ensures victim <= |slots|
      ensures victim < |slots| ==> slots[victim].phase == Detached && slots[victim].ino == ino
      ensures victim == |slots| ==> forall j :: 0 <= j < |slots| ==>
              !(slots[j].ino == ino && slots[j].phase == Detached)
    {
      for i := 0 to |slots|
        invariant forall j :: 0 <= j < i ==> !(slots[j].ino == ino && slots[j].phase == Detached)
      {
        if slots[i].ino == ino && slots[i].phase == Detached {
          return i;
        }
      }
      return |slots|;
    }

    /**
     `destroy`: retires the orphan, releases its inode on disk, and buries the slot.
     On success the number is free again and one slot less is detached.
     */
    method Destroy(ino: nat) returns (s: Status)
      requires Valid() && active && ino > 0
      modifies this
      ensures Valid() && active && |slots| == old(|slots|)
      ensures Orphans(slots) <= old(Orphans(slots))
      ensures s == Success ==> Orphans(slots) < old(Orphans(slots)) && ino !in stored
      ensures s == Success ==> ino >= firstInode
    {
      ghost var before := slots;
      Interfere();
      OrphansSame(before, slots);
      if !active || ino < firstInode {
        return Busy;
      }
      var victim := FindDetached(ino);
      if victim == |slots| {
        return NotFound;
      }
      if slots[victim].refs > 0 {
        return Busy;
      }
      OrphansDrop(slots, victim, slots[victim].(phase := Retiring));
      Take(Retire(victim));
      ghost var retired := slots;
      var reclaimed: bool := *;
      if !reclaimed {
        return IoError;
      }
      Interfere();
      OrphansSame(retired, slots);
      assert SlotMeanwhile(retired[victim], slots[victim]);
      ghost var waiting := slots;
      Take(Bury(victim));
      OrphansSame(waiting, slots);
      return Success;
    }

    /** `drain_detached`: destroys orphans until it sees none, or fails and quarantines the mount. */
    method DrainDetached() returns (s: Status)
      requires Valid() && active
      modifies this
      ensures Valid() && active && |slots| == old(|slots|)
      ensures Orphans(slots) <= old(Orphans(slots))
      ensures s == Success && !old(NoneReady(slots)) ==> Orphans(slots) < old(Orphans(slots))
      ensures s != Success ==> failed
    {
      ghost var start := Now();
      while true
        invariant Valid() && active && |slots| == |start.slots|
        invariant Orphans(slots) <= Orphans(start.slots)
        invariant Orphans(slots) < Orphans(start.slots) || Now() == start
        decreases Orphans(slots)
      {
        ghost var before := Now();
        Interfere();
        OrphansSame(before.slots, slots);
        ReadyStays(before, Now());
        if !active {
          return Fault;
        }
        var number := FirstReady();
        if number == 0 {
          return Success;
        }
        if failed {
          return IoError;
        }
        s := Destroy(number);
        if s != Success {
          ghost var left := slots;
          Interfere();
          OrphansSame(left, slots);
          Take(Quarantine);
          return;
        }
      }
    }

    /**
     `finish_operation`: gives up the admission only when no orphan is left behind,
     checking and clearing under one lock, or with the mount failed.
     */
    method FinishOperation() returns (s: Status)
      requires Valid() && active
      modifies this
      ensures Valid() && !active && |slots| == old(|slots|)
      ensures s == Success ==> NoneReady(slots)
      ensures s != Success ==> failed
    {
      ghost var again := false;
      while true
        invariant Valid() && active && |slots| == old(|slots|)
        invariant again ==> !NoneReady(slots)
        decreases 2 * Orphans(slots) - (if again then 1 else 0)
      {
        ghost var before := slots;
        s := DrainDetached();
        ghost var drained := slots;
        Interfere();
        OrphansSame(drained, slots);
        if s != Success {
          Take(Finish);
          return;
        }
        var number := FirstReady();
        if number != 0 {
          again := true;
          continue;
        }
        Take(Finish);
        return Success;
      }
    }

    /**
     `release`, which finds the state `found`: the last release of a detached node
     takes the admission and cleans up, unless an operation is there to do it.
     */
    method ReleaseNode(i: nat) returns (s: Status, ghost found: State)
      requires Valid() && i < |slots|
      modifies this
      ensures Valid() && |slots| == old(|slots|) == |found.slots|
      ensures found.slots[i].refs == 0 ==> s == InvalidArgument && Now() == found
      ensures found.slots[i].refs > 0 && !LastOfOrphan(found, i) ==> s == Success && Now() == After(found, Release(i))
      ensures LastOfOrphan(found, i) ==> !active && if s == Success then NoneReady(slots) else failed
    {
      Elsewhere();
      found := Now();
      var adopted;
      s, adopted := ReleaseLocked(i);
      if s != Success || !adopted {
        return;
      }
      s := FinishOperation();
    }

    /** `detach`, for a node found earlier in the same operation whose last name is gone. */
    method DetachNode(i: nat)
      requires Valid() && active && i < |slots| && slots[i].phase == Linked
      modifies this
      ensures Valid() && active && |slots| == old(|slots|)
      ensures slots[i].phase == Detached && slots[i].ino == old(slots[i].ino) && slots[i].ino !in named
    {
      ghost var before := slots;
      Interfere();
      assert SlotMeanwhile(before[i], slots[i]);
      Take(Detach(i));
    }

    /** `evict_locked`: empties a slot that nothing can reach; never the root's. */
    method EvictLocked() returns (slot: nat)
      requires Valid() && active && |slots| > 0
      modifies this
      ensures Valid() && active && |slots| == old(|slots|) && named == old(named) && stored == old(stored)
      ensures slot <= |slots|
      ensures slot < |slots| ==>
              slot > 0 && old(slots[slot].Evictable()) && slots == old(slots)[slot := Slot(Vacant, 0, 0, false)]
      ensures slot == |slots| ==> Now() == old(Now()) && forall j :: 0 < j < |slots| ==> !slots[j].Evictable()
    {
      for i := 1 to |slots|
        invariant Now() == old(Now()) && run == old(run)
        invariant forall j :: 0 < j < i ==> !slots[j].Evictable()
      {
        if slots[i].phase != Linked || slots[i].refs > 0 || slots[i].exposed {
          continue;
        }
        Take(Evict(i));
        return i;
      }
      return |slots|;
    }

    /** A slot for a new identity: a vacant one, else an evicted one. */
    method Reserve() returns (slot: nat)
      requires Valid() && active && |slots| > 0
      modifies this
      ensures Valid() && active && |slots| == old(|slots|) && named == old(named) && stored == old(stored)
      ensures slot <= |slots|
      ensures slot < |slots| ==>
              slots[slot].Reusable() && (forall j :: 0 <= j < |slots| && j != slot ==> slots[j] == old(slots)[j])
      ensures slot < |slots| ==> old(slots[slot].Reusable() || (slot > 0 && slots[slot].Evictable()))
      ensures slot == |slots| ==> Now() == old(Now()) && forall j :: 0 < j < |slots| ==>
              !slots[j].Reusable() && !slots[j].Evictable()
    {
      for i := 0 to |slots|
        invariant forall j :: 0 <= j < i ==> !slots[j].Reusable()
      {
        if slots[i].phase == Vacant && !slots[i].exposed && slots[i].refs == 0 {
          return i;
        }
      }
      slot := EvictLocked();
    }

    /** `node`: the one linked identity of a number that a directory names. */
    method Node(ino: nat) returns (slot: nat)
      requires Valid() && active && |slots| > 0 && ino in named
      modifies this
      ensures Valid() && active && |slots| == old(|slots|) && slot <= |slots|
      ensures slot < |slots| ==> slots[slot].phase == Linked && slots[slot].ino == ino
      ensures slot < |slots| ==> forall j :: 0 <= j < |slots| && j != slot && slots[j].Stands() ==> slots[j].ino != ino
      ensures slot == |slots| ==> forall j :: 0 < j < |slots| ==> !slots[j].Reusable() && !slots[j].Evictable()
    {
      Interfere();
      for i := 0 to |slots|
        invariant forall j :: 0 <= j < i ==> !(slots[j].ino == ino && slots[j].phase == Linked)
      {
        if slots[i].ino == ino && slots[i].phase == Linked {
          Sound();
          return i;
        }
      }
      slot := Reserve();
      if slot == |slots| {
        return;
      }
      Take(Assign(slot, ino));
      Sound();
    }

    /** The last section of `create_active`: a reserved slot becomes the new inode's identity. */
    method PublishNode(slot: nat, ino: nat, retained: bool)
      requires Valid() && active && slot < |slots| && slots[slot].Reusable() && ino > 0 && ino !in stored
      modifies this
      ensures Valid() && active && |slots| == old(|slots|)
      ensures slots[slot] == Slot(Linked, ino, if retained then 1 else 0, !retained)
      ensures forall j :: 0 <= j < |slots| && j != slot && slots[j].Stands() ==> slots[j].ino != ino
    {
      ghost var before := slots;
      Interfere();
      assert SlotMeanwhile(before[slot], slots[slot]);
      Take(Publish(slot, ino, retained));
      Sound();
    }
  }

  /** Releasing slot `i` makes an orphan that no operation is there to reclaim. */
  ghost predicate LastOfOrphan(s: State, i: nat) {
    i < |s.slots| && s.slots[i].refs == 1 && s.slots[i].phase == Detached && !s.active
  }

  /** Nothing another thread does can rescue an orphan or make one retainable. */
  lemma ReadyStays(s: State, t: State)
    requires Meanwhile(s, t)
    ensures !NoneReady(s.slots) ==> !NoneReady(t.slots)
  {
    if !NoneReady(s.slots) {
      var i :| 0 <= i < |s.slots| && s.slots[i].Ready();
      assert SlotMeanwhile(s.slots[i], t.slots[i]);
      assert t.slots[i].Ready();
    }
  }
}
