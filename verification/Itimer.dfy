/** The absolute-deadline timer of timing_mach.c over a clock and a sleep that may fail. */
module Itimer {
  import opened Timespec

  /** What the system does at a call: it fails with a code, or succeeds after some nanoseconds. */
  datatype Answer = Fails(code: int) | After(nanos: nat)

  /** The monotonic clock. Calls are answered in the order of `answers`, in full and at once when
      none is left; time never runs backwards and a sleep that succeeds is never too short. */
  class Clock {
    var now: Time
    var answers: seq<Answer>

    ghost predicate Valid()
      reads this
    {
      now.Normal() && forall a :: a in answers && a.Fails? ==> a.code != 0
    }

    method Next() returns (a: Answer)
      requires Valid()
      modifies this`answers
      ensures Valid() && (a.Fails? ==> a.code != 0)
      ensures old(answers) == [] ==> a == After(0) && answers == []
    {
      if answers == [] {
        return After(0);
      }
      a := answers[0];
      answers := answers[1..];
    }

    method GetTime(t: Timespec) returns (ret: int)
      requires Valid()
      modifies this, t
      ensures Valid() && now.Nanos() >= old(now).Nanos()
      ensures ret == 0 ==> t.Get() == now
      ensures ret != 0 ==> t.Get() == old(t.Get())
      ensures old(answers) == [] ==> ret == 0 && answers == [] && now.Nanos() == old(now).Nanos()
    {
      var a := Next();
      match a
      case Fails(code) => ret := code;
      case After(nanos) =>
        now := Later(now, nanos);
        t.sec, t.nsec := now.sec, now.nsec;
        ret := 0;
    }

    /** nanosleep: at least `delta`, unless it fails. */
    method Nanosleep(delta: Time) returns (ret: int)
      requires Valid() && delta.Normal() && delta.sec >= 0
      modifies this
      ensures Valid() && now.Nanos() >= old(now).Nanos()
      ensures ret == 0 ==> now.Nanos() >= old(now).Nanos() + delta.Nanos()
      ensures old(answers) == [] ==>
                ret == 0 && answers == [] && now.Nanos() == old(now).Nanos() + delta.Nanos()
    {
      var a := Next();
      match a
      case Fails(code) => ret := code;
      case After(nanos) =>
        now := Later(now, delta.Nanos() + nanos);
        ret := 0;
    }
  }

  function Later(t: Time, nanos: nat): (r: Time)
    requires t.Normal()
    ensures r.Normal() && r.Nanos() == t.Nanos() + nanos
  {
    Time((t.Nanos() + nanos) / GIGA, (t.Nanos() + nanos) % GIGA)
  }

  /** clock_nanosleep_abstime as timing_mach.h emulates it: the difference to the clock is slept. If
      all calls are answered at once, the sleep ends right at the requested time, or at once if that
      has passed. */
  method SleepUntil(clock: Clock, req: Timespec) returns (ret: int)
    requires clock.Valid() && req.Get().Normal()
    modifies clock
    ensures clock.Valid() && clock.now.Nanos() >= old(clock.now).Nanos()
    ensures req.Get() == old(req.Get())
    ensures ret == 0 ==> clock.now.Nanos() >= req.Get().Nanos()
    ensures old(clock.answers) == [] ==>
              ret == 0 && clock.answers == [] &&
              clock.now.Nanos() == Max(old(clock.now).Nanos(), req.Get().Nanos())
  {
    var delta := new Timespec(Time(0, 0));
    ret := clock.GetTime(delta);
    if ret == 0 {
      MonoDiffExact(req.Get(), clock.now);
      delta.MonoDiffRml(req);
      ret := clock.Nanosleep(delta.Get());
    }
  }

  function Max(a: int, b: int): int {
    if a < b then b else a
  }

  /** itimer_start: the target is one step after the current time. */
  method Start(clock: Clock, target: Timespec, step: Timespec) returns (ret: int)
    requires clock.Valid() && step.Get().Normal() && target != step
    modifies clock, target
    ensures clock.Valid() && clock.now.Nanos() >= old(clock.now).Nanos()
    ensures step.Get() == old(step.Get())
    ensures ret == 0 ==> target.Get() == Sum(clock.now, step.Get())
    ensures ret != 0 ==> target.Get() == old(target.Get())
  {
    ret := clock.GetTime(target);
    if ret == 0 {
      target.MonoAdd(step);
    }
  }

  /** itimer_step: sleep until the target, then move it on by one step. If the sleep fails the
      target stays. */
  method Step(clock: Clock, target: Timespec, step: Timespec) returns (ret: int)
    requires clock.Valid() && target.Get().Normal() && step.Get().Normal() && target != step
    modifies clock, target
    ensures clock.Valid() && clock.now.Nanos() >= old(clock.now).Nanos()
    ensures step.Get() == old(step.Get())
    ensures ret == 0 ==> clock.now.Nanos() >= old(target.Get()).Nanos()
    ensures old(clock.answers) == [] ==>
              ret == 0 && clock.now.Nanos() == Max(old(clock.now).Nanos(), old(target.Get()).Nanos())
    ensures target.Get() == Stepped(old(target.Get()), step.Get(), ret)
  {
    ret := SleepUntil(clock, target);
    if ret == 0 {
      target.MonoAdd(step);
    }
  }

  function Stepped(target: Time, step: Time, ret: int): Time {
    if ret == 0 then Sum(target, step) else target
  }

  /** The target after a series of calls that returned `rets`. */
  function Target(start: Time, step: Time, rets: seq<int>): Time {
    if rets == [] then start else Stepped(Target(start, step, rets[..|rets| - 1]), step, rets[|rets| - 1])
  }

  function Successes(rets: seq<int>): nat {
    if rets == [] then 0 else Successes(rets[..|rets| - 1]) + if rets[|rets| - 1] == 0 then 1 else 0
  }

  /** No drift: after any series of calls, failed ones included, the target is normal and exactly
      as many steps after its start as there were successes, whatever the wake-up delays were. */
  lemma {:induction false} NoDrift(start: Time, step: Time, rets: seq<int>)
    requires start.Normal() && step.Normal()
    ensures Target(start, step, rets).Normal()
    ensures Target(start, step, rets).Nanos() == start.Nanos() + Successes(rets) * step.Nanos()
  {
    if rets != [] {
      var before := rets[..|rets| - 1];
      NoDrift(start, step, before);
      SumExact(Target(start, step, before), step);
      assert (Successes(before) + 1) * step.Nanos() == Successes(before) * step.Nanos() + step.Nanos();
    }
  }
}
