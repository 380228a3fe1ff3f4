/** The sending side of udp_ts_seq_reply.cpp and its pacing. */
module UdpProbe {
  import opened Numbers
  import opened Timespec
  import opened UdpServer
  import opened UdpWire

  /** The delay between packets in microseconds, by which main accepts the settings. */
  function DelayMicros(packetSize: nat, kbps: nat, overhead: int): int
    requires kbps > 0
  {
    Quot((packetSize + overhead) * 8000, kbps)
  }

  predicate Accepted(packetSize: nat, kbps: nat, overhead: int) {
    24 <= packetSize <= 65536 && kbps >= 1 && DelayMicros(packetSize, kbps, overhead) <= 1_000_000
  }

  /** The delay in nanoseconds, as probe computes it. */
  function DelayNanos(packetSize: nat, kbps: nat, overhead: int): int
    requires kbps > 0
  {
    Quot((packetSize + overhead) * 8000, kbps) * 1000
  }

  /** Settings that main accepts give a delay of at most a second, and a positive one exactly when
      sending a packet takes a microsecond at least. */
  lemma DelayBound(packetSize: nat, kbps: nat, overhead: int)
    requires Accepted(packetSize, kbps, overhead)
    ensures DelayNanos(packetSize, kbps, overhead) <= GIGA
    ensures DelayNanos(packetSize, kbps, overhead) > 0 <==> (packetSize + overhead) * 8000 >= kbps
  {
    QuotPositive((packetSize + overhead) * 8000, kbps);
  }

  lemma QuotPositive(a: int, b: nat)
    requires b > 0
    ensures Quot(a, b) > 0 <==> a >= b
  {
    if a >= 0 {
      assert a == a / b * b + a % b;
      if a / b <= 0 {
        assert a < b;
      } else {
        assert a / b * b >= b;
      }
    } else {
      assert -a / b >= 0;
    }
  }

  /** The pace: the delay is the time a packet's bits take at `kbps` thousand bits a second, cut to
      whole microseconds, and main refuses what would take a second and a microsecond or more. */
  lemma PaceMeansKbps(packetSize: nat, kbps: nat, overhead: int)
    requires kbps > 0 && packetSize + overhead >= 0
    ensures var delay, bits := DelayNanos(packetSize, kbps, overhead), 8 * (packetSize + overhead);
            delay * kbps <= bits * 1_000_000 < (delay + 1000) * kbps
    ensures Accepted(packetSize, kbps, overhead) <==>
            24 <= packetSize <= 65536 && (packetSize + overhead) * 8000 < 1_000_001 * kbps
  {
    var n: nat := (packetSize + overhead) * 8000;
    AtMost(n, kbps, 1_000_000);
    Thousands(n / kbps, kbps);
    Thousands(n / kbps + 1, kbps);
    Around(n, kbps);
  }

  lemma Around(n: nat, k: nat)
    requires k > 0
    ensures n / k * k <= n < (n / k + 1) * k
  {
    assert n == n / k * k + n % k;
  }

  lemma Thousands(q: nat, k: nat)
    ensures q * 1000 * k == 1000 * (q * k)
  {
  }

  lemma AtMost(n: nat, k: nat, limit: nat)
    requires k > 0
    ensures n / k <= limit <==> n < (limit + 1) * k
  {
    Around(n, k);
    if n / k <= limit {
      assert (n / k + 1) * k <= (limit + 1) * k;
    } else {
      assert (limit + 1) * k <= n / k * k;
    }
  }

  /** The next deadline; the carry leaves a full second of nanoseconds alone. */
  function Advance(t: Time, delay: nat): Time {
    var n := t.nsec + delay;
    if n > GIGA then Time(t.sec + 1, n - GIGA) else Time(t.sec, n)
  }

  function Deadline(start: Time, delay: nat, k: nat): Time {
    if k == 0 then start else Advance(Deadline(start, delay, k - 1), delay)
  }

  /** Pacing: after `k` packets the deadline is exactly k delays after the start, with nanoseconds
      from 1 to a full second. */
  lemma {:induction false} Pacing(start: Time, delay: nat, k: nat)
    requires start.Normal() && 0 < delay <= GIGA
    ensures var t := Deadline(start, delay, k);
            t.Nanos() == start.Nanos() + k * delay && t.NearlyNormal() && (k > 0 ==> t.nsec > 0)
  {
    if k > 0 {
      Pacing(start, delay, k - 1);
      assert k * delay == (k - 1) * delay + delay;
    }
  }

  lemma WholeSecond(t: Time)
    requires 0 < t.nsec <= GIGA
    ensures t.nsec == GIGA <==> t.Nanos() % GIGA == 0
  {
    assert t.Nanos() == t.sec * GIGA + t.nsec;
    if t.nsec == GIGA {
      assert t.Nanos() == (t.sec + 1) * GIGA;
    } else {
      assert t.Nanos() % GIGA == t.nsec;
    }
  }

  /** The deadline handed to clock_nanosleep is malformed, so that the sleep is refused, exactly
      when it falls on a whole second. */
  lemma RefusedSleep(start: Time, delay: nat, k: nat)
    requires start.Normal() && 0 < delay <= GIGA && k > 0
    ensures !Deadline(start, delay, k).Normal() <==> (start.Nanos() + k * delay) % GIGA == 0
  {
    Pacing(start, delay, k);
    WholeSecond(Deadline(start, delay, k));
  }

  /** Packets of 125 bytes at one kilobit a second are a second apart: started on a whole second, the
      very first sleep is refused. */
  lemma RefusedSleepExample()
    ensures Accepted(125, 1, 0) && DelayNanos(125, 1, 0) == GIGA
    ensures !Deadline(Time(7, 0), GIGA, 1).Normal()
  {
    assert Deadline(Time(7, 0), GIGA, 1) == Advance(Time(7, 0), GIGA);
  }

  /** The warm-up: so many packets are sent short. */
  function WarmUp(delay: nat): nat
    requires delay > 0
  {
    GIGA / delay * 5
  }

  /** The short packets are those of the first five seconds, up to five packets less. */
  lemma WarmUpMeans(delay: nat)
    requires delay > 0
    ensures WarmUp(delay) * delay <= 5 * GIGA < (WarmUp(delay) + 5) * delay
  {
    var q := GIGA / delay;
    assert GIGA == q * delay + GIGA % delay;
    assert q * 5 * delay == 5 * (q * delay);
    assert (q * 5 + 5) * delay == 5 * (q * delay) + 5 * delay;
  }

  /** The sending loop; `turns` counts its rounds. */
  class Prober {
    const id: Id
    const packetSize: nat
    const delay: nat
    var number: Word
    var next: Time
    ghost const start: Time
    ghost var turns: nat

    ghost predicate Valid()
      reads this
    {
      delay > 0 && packetSize >= 24 && number == turns % WORD && next == Deadline(start, delay, turns)
    }

    constructor (id: Id, packetSize: nat, delay: nat, now: Time)
      requires delay > 0 && packetSize >= 24
      ensures Valid() && turns == 0 && start == now
      ensures this.id == id && this.packetSize == packetSize && this.delay == delay
    {
      this.id, this.packetSize, this.delay := id, packetSize, delay;
      number, next := 0, now;
      start, turns := now, 0;
    }

    /** One round: the packet sent at `now`; `next` is then the deadline to sleep until. */
    method Turn(now: Time) returns (packet: seq<Byte>)
      requires Valid()
      modifies this
      ensures Valid() && turns == old(turns) + 1
      ensures packet == Ping(id, now, old(turns) % WORD, if old(turns) % WORD < WarmUp(delay) then 24 else packetSize)
    {
      var len := if number < WarmUp(delay) then 24 else packetSize;
      packet := Ping(id, now, number, len);
      NextWord(turns);
      number := (number + 1) % WORD;
      var nsec := next.nsec + delay;
      if nsec > GIGA {
        next := Time(next.sec + 1, nsec - GIGA);
      } else {
        next := Time(next.sec, nsec);
      }
      turns := turns + 1;
    }
  }
}
