/**
 The console receive ring (src/interrupt/console_ring.hpp) between a UART and the
 kernel loop: bytes come out in the order they arrived, none lost or duplicated,
 and no byte is left with neither an interrupt nor an event to fetch it.
 */
module ConsoleRing {
  import opened Outcomes
  import opened Arithmetic

  /** `usize` has 64 bits; the counters wrap. */
  const MODULUS: nat := 0x1_0000_0000_0000_0000

  /** When the capacity divides the counter's range, wrapping does not move a slot. */
  lemma {:induction false} WrapKeepsSlot(x: nat, c: nat, k: nat)
    requires c > 0 && Times(k, c) == MODULUS
    ensures Remainder(x % MODULUS, c) == Remainder(x, c)
    decreases x
  {
    if x < MODULUS {
      Small(x);
    } else {
      var y := x - MODULUS;
      Small(x);
      WrapKeepsSlot(y, c, k);
      RemainderAdds(y, k, c);
    }
  }

  lemma Small(x: nat)
    ensures x % MODULUS == if x < MODULUS then x else (x - MODULUS) % MODULUS
  {
  }

  /** Counters less than a capacity apart have different slots. */
  lemma SlotsDiffer(a: nat, b: nat, c: nat)
    requires c > 0 && a < b < a + c
    ensures Remainder(a, c) != Remainder(b, c)
  {
    QuotientBounds(a, c);
    QuotientBounds(b, c);
    QuotientMono(a, b, c);
    if Quotient(a, c) < Quotient(b, c) {
      TimesMono(Quotient(a, c) + 1, Quotient(b, c), c);
    }
  }

  /** The bytes in the ring, oldest first. */
  ghost function Held(bytes: seq<byte>, t: nat, h: nat): seq<byte>
    requires |bytes| > 0 && t <= h
  {
    seq(h - t, k requires 0 <= k < h - t => bytes[Remainder(t + k, |bytes|)])
  }

  /** A byte stored at the head joins the end of the queue. */
  lemma Stored(bytes: seq<byte>, t: nat, h: nat, b: byte)
    requires |bytes| > 0 && t <= h < t + |bytes|
    ensures Held(bytes[Remainder(h, |bytes|) := b], t, h + 1) == Held(bytes, t, h) + [b]
  {
    var after := bytes[Remainder(h, |bytes|) := b];
    var x, y := Held(after, t, h + 1), Held(bytes, t, h) + [b];
    forall k | 0 <= k < |x| ensures x[k] == y[k] {
      if k < h - t {
        SlotsDiffer(t + k, h, |bytes|);
      }
    }
  }

  lemma Taken(bytes: seq<byte>, t: nat, h: nat)
    requires |bytes| > 0 && t < h
    ensures Held(bytes, t, h) == [bytes[Remainder(t, |bytes|)]] + Held(bytes, t + 1, h)
  {
    var x, y := Held(bytes, t, h), [bytes[Remainder(t, |bytes|)]] + Held(bytes, t + 1, h);
    forall k | 0 <= k < |x| ensures x[k] == y[k] {
      assert k > 0 ==> (t + 1) + (k - 1) == t + k;
    }
  }

  /** Counters a capacity apart at most are told apart after wrapping. */
  lemma DistanceIs(t: nat, h: nat)
    requires t <= h < t + MODULUS
    ensures (h % MODULUS + MODULUS - t % MODULUS) % MODULUS == h - t
    ensures h % MODULUS == t % MODULUS <==> h == t
  {
  }

  /** The ring, its UART, and the two signals that wake a reader. */
  class Ring {
    /** The UART's receive interrupt is level triggered and can be turned off. */
    const level: bool
    const bytes: array<byte>
    /** How often the ring turns before the counters wrap. */
    ghost const turns: nat
    var head: nat
    var tail: nat
    var backlog: bool
    var quiet: bool
    /** The kernel loop serves the console by events. */
    var driven: bool
    var posted: bool
    var interrupt: bool
    var fifo: seq<byte>
    /** The counters without wrapping, and everything that arrived and was taken. */
    ghost var h: nat
    ghost var t: nat
    ghost var arrived: seq<byte>
    ghost var taken: seq<byte>

    ghost predicate Counts()
      reads this, bytes
    {
      && bytes.Length > 0 && turns >= 2 && Times(turns, bytes.Length) == MODULUS
      && head == h % MODULUS && tail == t % MODULUS && t <= h <= t + bytes.Length < t + MODULUS
    }

    /** First in, first out: nothing lost, nothing twice, nothing out of order. */
    ghost predicate Fifo()
      reads this, bytes
    {
      Counts() && arrived == taken + Held(bytes[..], t, h) + fifo
    }

    /** Whatever the posted event is, the bytes that are left can be reached. */
    ghost predicate Reachable()
      reads this, bytes
    {
      && Fifo()
      && (driven ==> fifo != [] ==> interrupt || backlog)
      && (!driven ==> h == t && !backlog && !quiet && !interrupt)
      && (level && quiet ==> backlog && !interrupt)
    }

    /** Once the console is driven, a byte in the ring or a backlog has an event. */
    ghost predicate Valid()
      reads this, bytes
    {
      Reachable() && (driven && (h != t || backlog) ==> posted)
    }

    constructor (level: bool, capacity: nat, ghost turns: nat)
      requires turns >= 2 && Times(turns, capacity) == MODULUS && 0 < capacity < MODULUS
      ensures Valid() && fresh(bytes) && arrived == [] && taken == [] && !driven
    {
      this.level, this.turns := level, turns;
      bytes := new byte[capacity];
      head, tail, h, t := 0, 0, 0, 0;
      backlog, quiet, driven, posted, interrupt := false, false, false, false, false;
      fifo, arrived, taken := [], [], [];
    }

    /** No lost wakeup: a driven console with a byte left has an event to serve or an interrupt to handle. */
    lemma NoLostWakeup()
      requires Valid() && driven && taken != arrived
      ensures posted || interrupt
    {
      Prefix(bytes[..], t, h, fifo, taken, arrived);
    }

    /** A byte comes in. An edge line fires only for the first waiting byte; a level line unless it was turned off. */
    method Arrive(b: byte)
      requires Valid()
      modifies this
      ensures Valid() && arrived == old(arrived) + [b] && taken == old(taken) && driven == old(driven)
    {
      if driven && (if level then !quiet else fifo == []) {
        interrupt := true;
      }
      fifo := fifo + [b];
      arrived := arrived + [b];
      assert arrived == taken + Held(bytes[..], t, h) + fifo;
    }

    /** The line is bound and the console driven; enabling the receive interrupt raises it for bytes that wait. */
    method Drive()
      requires Valid()
      modifies this
      ensures Valid() && driven && arrived == old(arrived) && taken == old(taken)
    {
      if !driven && fifo != [] {
        interrupt := true;
      }
      driven := true;
    }

    /** One byte from the UART into the ring. */
    method Move()
      requires Fifo() && fifo != [] && h < t + bytes.Length
      modifies this`head, this`h, this`fifo, bytes
      ensures Fifo() && h == old(h) + 1 && fifo == old(fifo)[1..]
    {
      var slot := Remainder(head, bytes.Length);
      WrapKeepsSlot(h, bytes.Length, turns);
      Moved(bytes[..], t, h, slot, fifo, taken, arrived);
      Next(h);
      ghost var before := bytes[..];
      bytes[slot] := fifo[0];
      assert bytes[..] == before[slot := fifo[0]];
      fifo := fifo[1..];
      head := (head + 1) % MODULUS;
      h := h + 1;
    }

    /** `refill`: moves bytes over until the UART is empty or the ring full. */
    method Refill()
      requires Fifo()
      modifies this`backlog, this`head, this`h, this`fifo, bytes
      ensures Fifo()
      ensures if backlog then h == t + bytes.Length else fifo == []
    {
      backlog := true;
      while (head + MODULUS - tail) % MODULUS < bytes.Length
        invariant Fifo() && backlog
        decreases |fifo|
      {
        DistanceIs(t, h);
        if fifo == [] {
          backlog := false;
          return;
        }
        Move();
      }
      DistanceIs(t, h);
    }

    /** `fill`, from the interrupt handler, which runs only while the interrupt is on. */
    method Fill()
      requires Valid() && driven && !(level && quiet)
      modifies this, bytes
      ensures Valid() && driven && !interrupt && arrived == old(arrived) && taken == old(taken)
      ensures fifo != [] ==> backlog && h == t + bytes.Length
      ensures backlog ==> quiet
    {
      interrupt := false;
      Refill();
      if backlog && !quiet {
        quiet := true;
      }
      DistanceIs(t, h);
      if head != tail {
        posted := true;
      }
    }

    /**
     `take_event`: a driven source is served after a post only, any other on every pass; either way
     the post is used up.
     */
    method TakeEvent() returns (serve: bool)
      requires Valid()
      modifies this`posted
      ensures Reachable() && !posted && serve == (!driven || old(posted))
    {
      serve := !driven || posted;
      posted := false;
    }

    /** `take`, called once the event has been used up: it posts the next one while anything is left. */
    method Take() returns (value: int)
      requires Reachable()
      modifies this, bytes
      ensures Valid() && arrived == old(arrived) && driven == old(driven) && interrupt == old(interrupt)
      ensures value == -1 || 0 <= value < 256
      ensures 0 <= value < 256 ==> taken == old(taken) + [value]
      ensures value == -1 ==> taken == old(taken) && h == t && (driven ==> !backlog) && (!interrupt ==> fifo == [])
    {
      DistanceIs(t, h);
      if head == tail {
        if !driven {
          value := ReadDirect();
          return;
        }
        if !backlog {
          return -1;
        }
        Fetch();
        if head == tail {
          return -1;
        }
      }
      value := Pop();
      DistanceIs(t, h);
      if head != tail || backlog {
        posted := true;
      }
    }

    /** One pass of the kernel loop: pending interrupts first, then the console if it has to be served. */
    method Pass() returns (value: int)
      requires Valid()
      modifies this, bytes
      ensures Valid() && arrived == old(arrived) && driven == old(driven)
      ensures value == if old(taken) == old(arrived) then -1 else old(arrived)[|old(taken)|] as int
      ensures taken == if value == -1 then old(taken) else old(taken) + [old(arrived)[|old(taken)|]]
    {
      if interrupt {
        Fill();
      }
      Prefix(bytes[..], t, h, fifo, taken, arrived);
      var serve := TakeEvent();
      if !serve {
        return -1;
      }
      value := Take();
      Prefix(bytes[..], t, h, fifo, taken, arrived);
      assert value != -1 ==> arrived[|old(taken)|] == taken[|old(taken)|];
    }

    /** Bytes arrive, interrupts are handled, passes are made, and at some point the console is driven. */
    method Interleave()
      requires Valid()
      modifies this, bytes
      ensures Valid() && old(arrived) <= arrived && old(taken) <= taken
    {
      var turns: nat := *;
      while turns > 0
        invariant Valid() && old(arrived) <= arrived && old(taken) <= taken
      {
        var arrive, drive, handle: bool := *, *, *;
        if arrive {
          var b: byte := *;
          Arrive(b);
        } else if drive {
          Drive();
        } else if handle && interrupt {
          Fill();
        } else {
          var value := Pass();
        }
        turns := turns - 1;
      }
    }

    /** After any history, as many passes as bytes are left deliver them all, in the order in which they arrived. */
    method Drain() returns (values: seq<byte>)
      requires Valid()
      modifies this, bytes
      ensures Valid() && arrived == old(arrived) == old(taken) + values && taken == arrived
    {
      values := [];
      while true
        invariant Valid() && arrived == old(arrived) && taken == old(taken) + values
        decreases |arrived| - |taken|
      {
        Prefix(bytes[..], t, h, fifo, taken, arrived);
        var value := Pass();
        if value == -1 {
          return;
        }
        values := values + [value];
      }
    }

    /**
     An empty ring with a backlog takes the rest from the UART, and turns its interrupt back on once
     that is empty.
     */
    method Fetch()
      requires Fifo() && (level && quiet ==> backlog)
      modifies this`backlog, this`head, this`h, this`fifo, this`quiet, bytes
      ensures Fifo() && (fifo != [] ==> backlog) && (level && quiet ==> backlog)
      ensures head == tail <==> h == t
      ensures backlog ==> h == t + bytes.Length
      ensures quiet ==> old(quiet)
    {
      Refill();
      if !backlog && quiet {
        quiet := false;
      }
      DistanceIs(t, h);
    }

    /** The oldest byte of the ring. */
    method Pop() returns (value: byte)
      requires Fifo() && t < h
      modifies this`tail, this`t, this`taken
      ensures Fifo() && taken == old(taken) + [value] && t == old(t) + 1
    {
      var slot := Remainder(tail, bytes.Length);
      WrapKeepsSlot(t, bytes.Length, turns);
      value := bytes[slot];
      Popped(bytes[..], t, h, slot, fifo, taken, arrived);
      Next(t);
      tail := (tail + 1) % MODULUS;
      t := t + 1;
      taken := taken + [value];
    }

    /** Before the console is driven an empty ring is bypassed. */
    method ReadDirect() returns (value: int)
      requires Fifo() && h == t
      modifies this`fifo, this`taken
      ensures Fifo() && (value == -1 || 0 <= value < 256)
      ensures value == -1 ==> taken == old(taken) && fifo == old(fifo) == []
      ensures value != -1 ==> taken == old(taken) + [value] && |fifo| < old(|fifo|)
    {
      if fifo == [] {
        return -1;
      }
      Bypassed(bytes[..], t, h, fifo, taken, arrived);
      value := fifo[0];
      taken := taken + [fifo[0]];
      fifo := fifo[1..];
    }
  }

  lemma Next(x: nat)
    ensures (x + 1) % MODULUS == (x % MODULUS + 1) % MODULUS
  {
  }

  /** A byte moved from the front of the UART to the end of the ring. */
  lemma Moved(bytes: seq<byte>, t: nat, h: nat, slot: nat, fifo: seq<byte>, taken: seq<byte>, arrived: seq<byte>)
    requires |bytes| > 0 && t <= h < t + |bytes| && slot == Remainder(h, |bytes|) && fifo != []
    requires arrived == taken + Held(bytes, t, h) + fifo
    ensures arrived == taken + Held(bytes[slot := fifo[0]], t, h + 1) + fifo[1..]
  {
    Stored(bytes, t, h, fifo[0]);
    assert fifo == [fifo[0]] + fifo[1..];
  }

  /** A byte taken from the front of the ring. */
  lemma Popped(bytes: seq<byte>, t: nat, h: nat, slot: nat, fifo: seq<byte>, taken: seq<byte>, arrived: seq<byte>)
    requires |bytes| > 0 && t < h && slot == Remainder(t, |bytes|) && arrived == taken + Held(bytes, t, h) + fifo
    ensures arrived == taken + [bytes[slot]] + Held(bytes, t + 1, h) + fifo
  {
    Taken(bytes, t, h);
  }

  /** What was taken is a prefix of what arrived, and all of it just when nothing is left anywhere. */
  lemma Prefix(bytes: seq<byte>, t: nat, h: nat, fifo: seq<byte>, taken: seq<byte>, arrived: seq<byte>)
    requires |bytes| > 0 && t <= h && arrived == taken + Held(bytes, t, h) + fifo
    ensures taken <= arrived && (taken == arrived <==> h == t && fifo == [])
  {
    assert |Held(bytes, t, h)| == h - t;
  }

  /** A byte taken from the UART while the ring is empty. */
  lemma Bypassed(bytes: seq<byte>, t: nat, h: nat, fifo: seq<byte>, taken: seq<byte>, arrived: seq<byte>)
    requires |bytes| > 0 && t == h && fifo != [] && arrived == taken + Held(bytes, t, h) + fifo
    ensures arrived == taken + [fifo[0]] + Held(bytes, t, h) + fifo[1..]
  {
    assert fifo == [fifo[0]] + fifo[1..] && Held(bytes, t, h) == [];
  }
}
