/**
 The conversion of a hardware counter to nanoseconds (src/arch/clock_counter.hpp):
 however often it is sampled, the clock shows the ticks so far in nanoseconds,
 rounded down, and no 64-bit intermediate value overflows.
 */
module CounterClock {
  import opened Outcomes
  import opened Arithmetic

  const MAX: nat := 0xffff_ffff_ffff_ffff
  const NANOS: nat := 1_000_000_000

  type u64 = x: nat | x <= MAX

  /** Multiplying before or after taking nanoseconds. */
  lemma {:induction false} TimesNanos(k: nat, d: nat)
    ensures Times(NANOS * k, d) == NANOS * Times(k, d)
  {
    if k > 0 {
      TimesNanos(k - 1, d);
      TimesAdd(NANOS * (k - 1), NANOS, d);
      TimesIsProduct(NANOS, d);
      assert NANOS * (k - 1) + NANOS == NANOS * k;
    }
  }

  /** The whole conversion of one sample, without bounds. */
  lemma Converted(total: nat, elapsed: nat, remainder: nat, f: nat, delta: nat)
    requires f > 0 && remainder < f && Times(elapsed, f) + remainder == NANOS * total
    ensures var fraction := NANOS * Remainder(delta, f) + remainder;
            var after := elapsed + NANOS * Quotient(delta, f) + Quotient(fraction, f);
            && Times(after, f) + Remainder(fraction, f) == NANOS * (total + delta)
            && after == Quotient(NANOS * (total + delta), f)
  {
    var seconds, rest := Quotient(delta, f), Remainder(delta, f);
    var fraction := NANOS * rest + remainder;
    ConvertedSum(elapsed, seconds, rest, remainder, f, delta, Quotient(fraction, f), Remainder(fraction, f));
    QuotientBounds(fraction, f);
    QuotientIs(NANOS * (total + delta), f, elapsed + NANOS * seconds + Quotient(fraction, f), Remainder(fraction, f));
  }

  lemma ConvertedSum(elapsed: nat, seconds: nat, rest: nat, remainder: nat, f: nat, delta: nat, partial: nat, left: nat)
    requires f > 0 && seconds == Quotient(delta, f) && rest == Remainder(delta, f)
    requires partial == Quotient(NANOS * rest + remainder, f) && left == Remainder(NANOS * rest + remainder, f)
    ensures Times(elapsed + NANOS * seconds + partial, f) + left == Times(elapsed, f) + remainder + NANOS * delta
  {
    QuotientBounds(delta, f);
    QuotientBounds(NANOS * rest + remainder, f);
    TimesNanos(seconds, f);
    TimesAdd(elapsed, NANOS * seconds, f);
    TimesAdd(elapsed + NANOS * seconds, partial, f);
  }

  /** What `seconds > (max - elapsed) / nanoseconds` decides. */
  lemma WholeFits(seconds: nat, room: nat)
    ensures seconds > Quotient(room, NANOS) <==> NANOS * seconds > room
  {
    QuotientBounds(room, NANOS);
    TimesIsProduct(Quotient(room, NANOS), NANOS);
    TimesIsProduct(Quotient(room, NANOS) + 1, NANOS);
  }

  /** The arithmetic of a sample, every intermediate value in 64 bits. */
  method Convert(elapsed: u64, remainder: u64, f: u64, delta: u64, ghost total: nat)
    returns (fits: bool, after: u64, rest: u64)
    requires 0 < f && (NANOS + 1) * f <= MAX && remainder < f && Times(elapsed, f) + remainder == NANOS * total
    ensures fits <==> Quotient(NANOS * (total + delta), f) <= MAX
    ensures fits ==>
            after == Quotient(NANOS * (total + delta), f) && rest < f &&
                Times(after, f) + rest == NANOS * (total + delta)
  {
    QuotientAtMost(delta, f);
    var seconds: u64 := Quotient(delta, f);
    var product: u64 := NANOS * Remainder(delta, f);
    var fraction: u64 := product + remainder;
    QuotientAtMost(fraction, f);
    var partial: u64 := Quotient(fraction, f);
    Converted(total, elapsed, remainder, f, delta);
    WholeFits(seconds, MAX - elapsed);
    if seconds > Quotient(MAX - elapsed, NANOS) {
      return false, 0, 0;
    }
    var whole: u64 := NANOS * seconds;
    if partial > MAX - elapsed - whole {
      return false, 0, 0;
    }
    return true, elapsed + (whole + partial), Remainder(fraction, f);
  }

  class Clock {
    var frequency: u64
    var previous: u64
    var elapsed: u64
    var remainder: u64
    var width: nat
    /** The ticks since initialization. */
    ghost var total: nat

    /** One more than the mask. */
    function Span(): nat
      reads this
    {
      if width == 32 then 0x1_0000_0000 else MAX + 1
    }

    ghost predicate Valid()
      reads this
    {
      && (frequency == 0 ==> elapsed == 0 && remainder == 0)
      && (frequency != 0 ==>
            && (width == 32 || width == 64) && previous < Span()
            && (NANOS + 1) * frequency <= MAX && remainder < frequency
            && Times(elapsed, frequency) + remainder == NANOS * total)
    }

    constructor ()
      ensures Valid() && frequency == 0
    {
      frequency, previous, elapsed, remainder, width, total := 0, 0, 0, 0, 0, 0;
    }

    /** `initialize`. */
    method Initialize(hertz: u64, counter: u64, bits: nat) returns (s: Status)
      requires Valid()
      modifies this
      ensures Valid()
      ensures old(frequency) != 0 ==>
              s == Success && frequency == old(frequency) && elapsed == old(elapsed) && total == old(total)
      ensures old(frequency) == 0 ==>
              (s == Success <==> hertz != 0 && (NANOS + 1) * hertz <= MAX && (bits == 32 || bits == 64))
      ensures old(frequency) == 0 && s == Success ==> frequency == hertz && width == bits && total == 0 && elapsed == 0
      ensures old(frequency) == 0 && s == Success ==> previous == counter % Span()
      ensures old(frequency) != 0 ==> previous == old(previous) && width == old(width)
      ensures s == Success || (s == InvalidArgument && frequency == 0)
    {
      if frequency != 0 {
        return Success;
      }
      if hertz == 0 || hertz > MAX / (NANOS + 1) || (bits != 32 && bits != 64) {
        return InvalidArgument;
      }
      width := bits;
      previous := counter % Span();
      frequency := hertz;
      total := 0;
      return Success;
    }

    /**
     `sample`, taken `ticks` after the one before, with the counter wrapped at most
     once: the value is exact, and overflow is reported exactly when the exact value
     does not fit, with nothing changed.
     */
    method Sample(counter: u64, ghost ticks: nat) returns (r: Result<u64>)
      requires Valid()
      requires frequency != 0 ==> ticks < Span() && counter % Span() == (previous + ticks) % Span()
      modifies this
      ensures Valid()
      ensures r == Err(NotInitialized) <==> old(frequency) == 0
      ensures old(frequency) != 0 ==>
              var exact := Quotient(NANOS * (old(total) + ticks), old(frequency));
              r == if exact > MAX then Err(Overflow) else Ok(exact)
      ensures r.Ok? ==> total == old(total) + ticks && previous == counter % Span()
      ensures frequency == old(frequency) && width == old(width)
      ensures r.Err? ==>
              total == old(total) && elapsed == old(elapsed) && remainder == old(remainder) && previous == old(previous)
    {
      if frequency == 0 {
        return Err(NotInitialized);
      }
      var current: u64 := counter % Span();
      var delta: u64 := (current + Span() - previous) % Span();
      DeltaIsTicks(current, previous, ticks, Span());
      var fits, after, rest := Convert(elapsed, remainder, frequency, delta, total);
      if !fits {
        return Err(Overflow);
      }
      elapsed := after;
      remainder := rest;
      previous := current;
      total := total + ticks;
      return Ok(elapsed);
    }
  }

  lemma {:induction false} QuotientAtMost(i: nat, d: nat)
    requires d > 0
    ensures Quotient(i, d) <= i
  {
    if i >= d {
      QuotientAtMost(i - d, d);
    }
  }

  /** The masked difference is the number of ticks. */
  lemma DeltaIsTicks(current: nat, previous: nat, ticks: nat, span: nat)
    requires span == 0x1_0000_0000 || span == MAX + 1
    requires previous < span && ticks < span && current == (previous + ticks) % span
    ensures (current + span - previous) % span == ticks
  {
  }
}
