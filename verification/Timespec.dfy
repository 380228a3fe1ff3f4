/** The timespec arithmetic of timing_mach.h and udp_ts_seq_reply.cpp. */
module Timespec {

  const GIGA: int := 1_000_000_000

  /** A value of `struct timespec`. */
  datatype Time = Time(sec: int, nsec: int) {
    predicate Normal() {
      0 <= nsec < GIGA
    }

    /** Normal, or one whole second kept in the nanoseconds. */
    predicate NearlyNormal() {
      0 <= nsec <= GIGA
    }

    /** The time in nanoseconds. */
    function Nanos(): int {
      sec * GIGA + nsec
    }
  }

  /** Normal times are determined by their nanoseconds. */
  lemma NormalUnique(a: Time, b: Time)
    requires a.Normal() && b.Normal() && a.Nanos() == b.Nanos()
    ensures a == b
  {
  }

  /** A `struct timespec` in memory. */
  class Timespec {
    var sec: int
    var nsec: int

    constructor (t: Time)
      ensures Get() == t
    {
      sec, nsec := t.sec, t.nsec;
    }

    function Get(): Time
      reads this
    {
      Time(sec, nsec)
    }

    /** timespec_monodiff_lmr: this minus `b`, or zero. */
    method MonoDiffLmr(b: Timespec)
      modifies this
      ensures Get() == MonoDiff(old(Get()), old(b.Get()))
    {
      sec, nsec := sec - b.sec, nsec - b.nsec;
      Saturate();
    }

    /** timespec_monodiff_rml: `b` minus this, or zero. */
    method MonoDiffRml(b: Timespec)
      modifies this
      ensures Get() == MonoDiff(old(b.Get()), old(Get()))
    {
      sec, nsec := b.sec - sec, b.nsec - nsec;
      Saturate();
    }

    /** The branches both differences end with. */
    method Saturate()
      modifies this
      ensures Get() == Saturated(old(Get()))
    {
      if sec < 0 {
        sec, nsec := 0, 0;
      } else if nsec < 0 {
        if sec == 0 {
          sec, nsec := 0, 0;
        } else {
          sec := sec - 1;
          nsec := nsec + GIGA;
        }
      }
    }

    /** timespec_monoadd; adding a time to itself is allowed. */
    method MonoAdd(b: Timespec)
      modifies this
      ensures Get() == Sum(old(Get()), old(b.Get()))
    {
      sec := sec + b.sec;
      nsec := nsec + b.nsec;
      if nsec >= GIGA {
        sec := sec + 1;
        nsec := nsec - GIGA;
      }
    }
  }

  function Saturated(d: Time): Time {
    if d.sec < 0 || (d.sec == 0 && d.nsec < 0) then Time(0, 0)
    else if d.nsec < 0 then Time(d.sec - 1, d.nsec + GIGA)
    else d
  }

  function MonoDiff(a: Time, b: Time): Time {
    Saturated(Time(a.sec - b.sec, a.nsec - b.nsec))
  }

  function Sum(a: Time, b: Time): Time {
    var n := a.nsec + b.nsec;
    if n >= GIGA then Time(a.sec + b.sec + 1, n - GIGA) else Time(a.sec + b.sec, n)
  }

  /** timespec_diff: the signed difference `stop` minus `start`. */
  function Diff(start: Time, stop: Time): Time {
    if stop.nsec - start.nsec < 0 then
      Time(stop.sec - start.sec - 1, stop.nsec - start.nsec + GIGA)
    else
      Time(stop.sec - start.sec, stop.nsec - start.nsec)
  }

  /** timespec_milli. The C division truncates; it is applied to nanoseconds, which are not negative. */
  function Milli(t: Time): int {
    1000 * t.sec + Quot(Quot(t.nsec, 1000), 1000)
  }

  /** Division as in C. */
  function Quot(a: int, b: int): int
    requires b > 0
  {
    if a >= 0 then a / b else -(-a / b)
  }

  /** On normal times the addition is exact and stays normal. */
  lemma SumExact(a: Time, b: Time)
    requires a.Normal() && b.Normal()
    ensures Sum(a, b).Normal() && Sum(a, b).Nanos() == a.Nanos() + b.Nanos()
  {
  }

  /** On normal times the saturating difference is exactly max(0, a - b), and normal. */
  lemma MonoDiffExact(a: Time, b: Time)
    requires a.Normal() && b.Normal()
    ensures MonoDiff(a, b).Normal()
    ensures MonoDiff(a, b).Nanos() == if a.Nanos() >= b.Nanos() then a.Nanos() - b.Nanos() else 0
  {
  }

  /** Adding back what was subtracted gives the later time. */
  lemma SumOfDiff(a: Time, b: Time)
    requires a.Normal() && b.Normal() && a.Nanos() >= b.Nanos()
    ensures Sum(b, MonoDiff(a, b)) == a
  {
    MonoDiffExact(a, b);
    SumExact(b, MonoDiff(a, b));
    NormalUnique(Sum(b, MonoDiff(a, b)), a);
  }

  /** The signed difference is exact always, and normal if `stop` is and `start` nearly is. */
  lemma DiffExact(start: Time, stop: Time)
    ensures Diff(start, stop).Nanos() == stop.Nanos() - start.Nanos()
    ensures start.NearlyNormal() && stop.Normal() ==> Diff(start, stop).Normal()
  {
  }

  /** Milliseconds are rounded down, also before the epoch. */
  lemma MilliFloor(t: Time)
    requires t.Normal()
    ensures Milli(t) == t.Nanos() / 1_000_000
  {
    assert t.nsec / 1000 / 1000 == t.nsec / 1_000_000;
  }
}
