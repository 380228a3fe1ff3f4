/** The measuring loop of udp_ts_seq_reply.cpp: its columns, and what the delay columns mean. */
module UdpMeasure {
  import opened Numbers
  import opened Timespec

  /** One reply: sent at ts1, at the server at ts2, back at ts3, with the numbers it carries. */
  datatype Sample = Sample(ts1: Time, ts2: Time, ts3: Time, seq1: nat, seq2: nat) {
    predicate Normal() {
      ts1.Normal() && ts2.Normal() && ts3.Normal()
    }
  }

  /** The first five columns of an output line. */
  datatype Columns = Columns(time: int, lossThere: int, delayThere: int, lossBack: int, delayBack: int)

  /** The variables of the loop. */
  datatype Meter = Meter(seq3: nat, minRtt: nat, base: Time)

  const FIRST := Meter(0, 0xFFFF_FFFF, Time(0, 0))

  /** The round-trip time in milliseconds. */
  function Rtt(x: Sample): int {
    Milli(Diff(x.ts1, x.ts3))
  }

  /** basets2 for a sample: the start shifted by the sample's clock difference. */
  function BaseFor(start: Time, x: Sample): Time {
    var d := Diff(x.ts1, x.ts2);
    var n := start.nsec + d.nsec;
    if n > GIGA then Time(start.sec + d.sec + 1, n - GIGA) else Time(start.sec + d.sec, n)
  }

  function NextMeter(m: Meter, start: Time, x: Sample): Meter {
    var seq3 := (m.seq3 + 1) % WORD;
    if m.minRtt > Rtt(x) then Meter(seq3, Rtt(x) % WORD, BaseFor(start, x)) else m.(seq3 := seq3)
  }

  /** The server's delay against the base, by which the round trip is split. */
  function RemoteDelay(start: Time, base: Time, x: Sample): int {
    Milli(Diff(Diff(start, x.ts1), Diff(base, x.ts2)))
  }

  /** The columns printed for a sample: `m` are the variables when it arrives. */
  function Printed(m: Meter, start: Time, x: Sample): Columns {
    var next := NextMeter(m, start, x);
    var remote := RemoteDelay(start, next.base, x);
    Columns(Milli(Diff(start, x.ts1)),
            (x.seq1 - m.seq3) - (x.seq2 - m.seq3), remote + next.minRtt / 2,
            x.seq2 - m.seq3, Rtt(x) - remote - next.minRtt / 2)
  }

  lemma PrintedMeaning(m: Meter, start: Time, x: Sample)
    ensures var next, c := NextMeter(m, start, x), Printed(m, start, x);
            next.seq3 == (m.seq3 + 1) % WORD &&
            c.lossThere == x.seq1 - x.seq2 && c.lossBack == x.seq2 - m.seq3 &&
            c.delayThere + c.delayBack == Rtt(x) &&
            (start.Normal() && x.ts1.Normal() ==> c.time == (x.ts1.Nanos() - start.Nanos()) / 1_000_000) &&
            (x.Normal() ==>
               var rtt := Trip(x) / 1_000_000;
               Rtt(x) == rtt && next.minRtt == if m.minRtt > rtt then rtt % WORD else m.minRtt)
  {
    if start.Normal() && x.ts1.Normal() {
      MilliDiff(start, x.ts1);
    }
    if x.Normal() {
      RttExact(x);
    }
    hide Rtt, RemoteDelay, Milli, Diff, BaseFor, Trip, Time.Normal;
  }

  class Measurer {
    const start: Time
    var seq3: nat
    var minRtt: nat
    var base: Time

    constructor (start: Time)
      ensures State() == FIRST && this.start == start
    {
      this.start := start;
      seq3, minRtt, base := 0, 0xFFFF_FFFF, Time(0, 0);
    }

    ghost function State(): Meter
      reads this
    {
      Meter(seq3, minRtt, base)
    }

    /** One turn of the loop for a reply that arrived. */
    method Handle(x: Sample) returns (c: Columns)
      modifies this
      ensures State() == NextMeter(old(State()), start, x) && c == Printed(old(State()), start, x)
      ensures seq3 == (old(seq3) + 1) % WORD
      ensures c.lossThere == x.seq1 - x.seq2 && c.lossBack == x.seq2 - old(seq3)
      ensures start.Normal() && x.Normal() ==>
                var rtt := Trip(x) / 1_000_000;
                minRtt == (if old(minRtt) > rtt then rtt % WORD else old(minRtt)) &&
                c.time == (x.ts1.Nanos() - start.Nanos()) / 1_000_000 && c.delayThere + c.delayBack == rtt
    {
      ghost var m := State();
      PrintedMeaning(m, start, x);
      hide Milli, Diff, RemoteDelay, Rtt, Time.Normal, Trip;
      var lossLoc := x.seq1 - seq3;
      var lossRem := x.seq2 - seq3;
      var rtt := Rtt(x);
      if minRtt > rtt {
        minRtt := rtt % WORD;
        var d := Diff(x.ts1, x.ts2);
        base := Time(start.sec + d.sec, start.nsec + d.nsec);
        if base.nsec > GIGA {
          base := Time(base.sec + 1, base.nsec - GIGA);
        }
      }
      var remote := RemoteDelay(start, base, x);
      c := Columns(Milli(Diff(start, x.ts1)), lossLoc - lossRem, remote + minRtt / 2, lossRem,
                   rtt - remote - minRtt / 2);
      seq3 := (seq3 + 1) % WORD;
    }
  }

  /** The loop's variables after a series of replies. */
  function MeterAfter(start: Time, xs: seq<Sample>): Meter {
    if xs == [] then FIRST else NextMeter(MeterAfter(start, xs[..|xs| - 1]), start, xs[|xs| - 1])
  }

  /** The line printed for the last of a series of replies, and its delay columns. */
  function LastLine(start: Time, xs: seq<Sample>): Columns
    requires xs != []
  {
    Printed(MeterAfter(start, xs[..|xs| - 1]), start, xs[|xs| - 1])
  }

  function Delays(start: Time, xs: seq<Sample>): (int, int)
    requires xs != []
  {
    (LastLine(start, xs).delayThere, LastLine(start, xs).delayBack)
  }

  // ---------- what they mean ----------

  predicate AllNormal(xs: seq<Sample>) {
    forall i :: 0 <= i < |xs| ==> xs[i].Normal()
  }

  /** The server's clock minus the client's, as one sample shows it. */
  function ClockGap(x: Sample): int {
    x.ts2.Nanos() - x.ts1.Nanos()
  }

  /** How long a sample was under way, by the client's clock. */
  function Trip(x: Sample): int {
    x.ts3.Nanos() - x.ts1.Nanos()
  }

  lemma MilliDiff(from: Time, to: Time)
    requires from.Normal() && to.Normal()
    ensures Milli(Diff(from, to)) == (to.Nanos() - from.Nanos()) / 1_000_000
  {
    hide Milli, Diff;
    DiffExact(from, to);
    MilliFloor(Diff(from, to));
  }

  /** The round-trip time is the whole milliseconds between sending and return. */
  lemma RttExact(x: Sample)
    requires x.Normal()
    ensures Rtt(x) == Trip(x) / 1_000_000
  {
    hide Milli, Diff;
    MilliDiff(x.ts1, x.ts3);
  }

  /** The meter counts the replies. */
  lemma {:induction false} CountsReplies(start: Time, xs: seq<Sample>)
    ensures MeterAfter(start, xs).seq3 == |xs| % WORD
  {
    hide Rtt, BaseFor;
    if xs != [] {
      CountsReplies(start, xs[..|xs| - 1]);
      NextWord(|xs| - 1);
    }
  }

  /** The other columns of the line of the n-th reply. */
  lemma LineMeaning(start: Time, xs: seq<Sample>)
    requires xs != []
    ensures var x, c := xs[|xs| - 1], LastLine(start, xs);
            c.lossThere == x.seq1 - x.seq2 && c.lossBack == x.seq2 - (|xs| - 1) % WORD &&
            (start.Normal() && x.ts1.Normal() ==> c.time == (x.ts1.Nanos() - start.Nanos()) / 1_000_000)
  {
    CountsReplies(start, xs[..|xs| - 1]);
    PrintedMeaning(MeterAfter(start, xs[..|xs| - 1]), start, xs[|xs| - 1]);
    hide Printed, NextMeter, MeterAfter;
  }

  datatype Reference = None | Reference(gap: int)

  /** The clock gap of the last sample that lowered the least round-trip time. */
  function LastReference(start: Time, xs: seq<Sample>): Reference {
    if xs == [] then None
    else
      var before := xs[..|xs| - 1];
      if MeterAfter(start, before).minRtt > Rtt(xs[|xs| - 1]) then Reference(ClockGap(xs[|xs| - 1]))
      else LastReference(start, before)
  }

  lemma BaseForExact(start: Time, x: Sample)
    requires start.Normal() && x.Normal()
    ensures BaseFor(start, x).NearlyNormal()
    ensures BaseFor(start, x).Nanos() == start.Nanos() + ClockGap(x)
  {
    DiffExact(x.ts1, x.ts2);
  }

  lemma {:induction false} BaseFollowsReference(start: Time, xs: seq<Sample>)
    requires start.Normal() && AllNormal(xs)
    ensures var m, r := MeterAfter(start, xs), LastReference(start, xs);
            m.base.NearlyNormal() &&
            m.base.Nanos() == if r.Reference? then start.Nanos() + r.gap else 0
  {
    if xs != [] {
      BaseFollowsReference(start, xs[..|xs| - 1]);
      BaseForExact(start, xs[|xs| - 1]);
    }
  }

  lemma RemoteDelayExact(start: Time, base: Time, x: Sample)
    requires start.Normal() && base.NearlyNormal() && x.Normal()
    ensures RemoteDelay(start, base, x)
         == ((x.ts2.Nanos() - base.Nanos()) - (x.ts1.Nanos() - start.Nanos())) / 1_000_000
  {
    var t, remote := Diff(start, x.ts1), Diff(base, x.ts2);
    DiffExact(start, x.ts1);
    DiffExact(base, x.ts2);
    DiffExact(t, remote);
    MilliFloor(Diff(t, remote));
  }

  lemma DelaysAre(start: Time, xs: seq<Sample>)
    requires xs != []
    ensures var m, x := MeterAfter(start, xs), xs[|xs| - 1];
            var remote := RemoteDelay(start, m.base, x);
            Delays(start, xs) == (remote + m.minRtt / 2, Rtt(x) - remote - m.minRtt / 2)
  {
    hide RemoteDelay, Rtt, BaseFor, Diff, Milli;
  }

  /** The delay columns: once some reply has lowered the least round-trip time, they compare the
      clock gap with that reply's, despite the carry that may leave a full second of nanoseconds in
      the base; until then the server's clock is taken for one that started with the client. */
  lemma DelayMeaning(start: Time, xs: seq<Sample>)
    requires start.Normal() && AllNormal(xs) && xs != []
    ensures var x, r, half := xs[|xs| - 1], LastReference(start, xs), MeterAfter(start, xs).minRtt / 2;
            var excess := if r.Reference? then ClockGap(x) - r.gap else ClockGap(x) + start.Nanos();
            Delays(start, xs) == (excess / 1_000_000 + half, Trip(x) / 1_000_000 - excess / 1_000_000 - half)
  {
    hide RemoteDelay, Rtt, BaseFor, Delays, MeterAfter, LastReference, Trip;
    DelaysAre(start, xs);
    RttExact(xs[|xs| - 1]);
    BaseFollowsReference(start, xs);
    RemoteDelayExact(start, MeterAfter(start, xs).base, xs[|xs| - 1]);
  }

  /** The same replies as a server with another clock would have stamped them. */
  function Shifted(x: Sample, offset: int): Sample {
    var n := x.ts2.Nanos() + offset;
    x.(ts2 := Time(n / GIGA, n % GIGA))
  }

  function ShiftedAll(xs: seq<Sample>, offset: int): (r: seq<Sample>)
    ensures |r| == |xs|
    ensures forall i :: 0 <= i < |xs| ==> r[i] == Shifted(xs[i], offset)
  {
    seq(|xs|, i requires 0 <= i < |xs| => Shifted(xs[i], offset))
  }

  lemma ShiftedNormal(x: Sample, offset: int)
    requires x.Normal()
    ensures Shifted(x, offset).Normal() && ClockGap(Shifted(x, offset)) == ClockGap(x) + offset
    ensures Rtt(Shifted(x, offset)) == Rtt(x) && Trip(Shifted(x, offset)) == Trip(x)
  {
  }

  lemma {:induction false} ShiftedMeter(start: Time, xs: seq<Sample>, offset: int)
    requires start.Normal() && AllNormal(xs)
    ensures var ys := ShiftedAll(xs, offset);
            AllNormal(ys) && MeterAfter(start, ys).minRtt == MeterAfter(start, xs).minRtt &&
            var r := LastReference(start, xs);
            LastReference(start, ys) == if r.Reference? then Reference(r.gap + offset) else None
  {
    var ys := ShiftedAll(xs, offset);
    if xs != [] {
      var n := |xs| - 1;
      assert ys[..n] == ShiftedAll(xs[..n], offset);
      ShiftedMeter(start, xs[..n], offset);
      ShiftedNormal(xs[n], offset);
    }
    forall i | 0 <= i < |ys| ensures ys[i].Normal() {
      ShiftedNormal(xs[i], offset);
    }
  }

  /** A reply that was under way for less than 2^32 - 1 milliseconds. */
  ghost predicate SomeQuick(xs: seq<Sample>) {
    exists i :: 0 <= i < |xs| && Trip(xs[i]) < 0xFFFF_FFFF * 1_000_000
  }

  /** The same by the program's own measure, which also covers times that are not normal. */
  ghost predicate SomeRttBelow(xs: seq<Sample>) {
    exists i :: 0 <= i < |xs| && Rtt(xs[i]) < 0xFFFF_FFFF
  }

  lemma QuickRtt(xs: seq<Sample>)
    requires AllNormal(xs)
    ensures SomeRttBelow(xs) <==> SomeQuick(xs)
  {
    hide Rtt, Trip;
    forall i | 0 <= i < |xs| ensures Rtt(xs[i]) < 0xFFFF_FFFF <==> Trip(xs[i]) < 0xFFFF_FFFF * 1_000_000 {
      RttExact(xs[i]);
    }
  }

  /** A reference exists as soon as there was such a reply; until then minrtt keeps its first value. */
  lemma {:induction false} ReferenceFound(start: Time, xs: seq<Sample>)
    ensures LastReference(start, xs).Reference? <==> SomeRttBelow(xs)
    ensures AllNormal(xs) ==> (LastReference(start, xs).Reference? <==> SomeQuick(xs))
    ensures LastReference(start, xs).None? ==> MeterAfter(start, xs).minRtt == 0xFFFF_FFFF
  {
    hide Rtt, BaseFor;
    if xs != [] {
      var n := |xs| - 1;
      ReferenceFound(start, xs[..n]);
      if SomeRttBelow(xs[..n]) {
        var i :| 0 <= i < n && Rtt(xs[..n][i]) < 0xFFFF_FFFF;
        assert Rtt(xs[i]) < 0xFFFF_FFFF;
      } else {
        assert forall i :: 0 <= i < n ==> xs[i] == xs[..n][i];
      }
    }
    if AllNormal(xs) {
      QuickRtt(xs);
    }
  }

  /** Clock-offset independence: the delay columns of a reply are the same for every offset of the
      server's clock exactly when some reply up to it took less than 2^32 - 1 milliseconds. */
  lemma OffsetIndependence(start: Time, xs: seq<Sample>)
    requires start.Normal() && AllNormal(xs) && xs != []
    ensures (forall offset: int :: Delays(start, ShiftedAll(xs, offset)) == Delays(start, xs)) <==> SomeQuick(xs)
  {
    hide Delays, ShiftedAll, SomeQuick, LastReference;
    ReferenceFound(start, xs);
    if LastReference(start, xs).Reference? {
      forall offset: int ensures Delays(start, ShiftedAll(xs, offset)) == Delays(start, xs) {
        OffsetCancels(start, xs, offset);
      }
    } else {
      OffsetShows(start, xs);
      assert Delays(start, ShiftedAll(xs, 1_000_000)) != Delays(start, xs);
    }
  }

  /** A reply after exactly 2^32 - 1 milliseconds, from a server whose clock agrees. */
  const LATE := Sample(Time(0, 0), Time(0, 0), Time(4_294_967, 295_000_000), 0, 0)

  lemma LateRtt()
    ensures Rtt(LATE) == 0xFFFF_FFFF && LATE.Normal()
  {
    hide Milli, Quot, Diff;
    LateDiff();
    LateMilli();
  }

  lemma LateDiff()
    ensures Diff(Time(0, 0), Time(4_294_967, 295_000_000)) == Time(4_294_967, 295_000_000)
  {
  }

  lemma LateMilli()
    ensures Milli(Time(4_294_967, 295_000_000)) == 0xFFFF_FFFF
  {
    assert Quot(295_000_000, 1000) == 295_000;
    assert Quot(295_000, 1000) == 295;
  }

  lemma LateShifted()
    ensures ShiftedAll([LATE], 1_000_000) == [LATE.(ts2 := Time(0, 1_000_000))]
  {
    assert LATE.ts2.Nanos() + 1_000_000 == 1_000_000;
    assert Shifted(LATE, 1_000_000) == LATE.(ts2 := Time(0, 1_000_000));
  }

  /** With that as the first reply, a server's clock that is a millisecond ahead shows. */
  lemma OffsetShowsExample()
    ensures Delays(Time(0, 0), [LATE.(ts2 := Time(0, 1_000_000))]).0 == Delays(Time(0, 0), [LATE]).0 + 1
  {
    hide Delays, Rtt, ShiftedAll, MeterAfter, LastReference, Sample.Normal;
    LateRtt();
    LateShifted();
    ReferenceFound(Time(0, 0), [LATE]);
    OffsetShows(Time(0, 0), [LATE]);
  }

  lemma OffsetCancels(start: Time, xs: seq<Sample>, offset: int)
    requires start.Normal() && AllNormal(xs) && xs != [] && LastReference(start, xs).Reference?
    ensures Delays(start, ShiftedAll(xs, offset)) == Delays(start, xs)
  {
    hide Delays, RemoteDelay, Diff, ShiftedAll, Shifted, Trip, MeterAfter, LastReference, Sample.Normal;
    ShiftedMeter(start, xs, offset);
    ShiftedNormal(xs[|xs| - 1], offset);
    DelayMeaning(start, xs);
    DelayMeaning(start, ShiftedAll(xs, offset));
  }

  /** A server clock a millisecond ahead moves the columns by one as long as there is no reference. */
  lemma OffsetShows(start: Time, xs: seq<Sample>)
    requires start.Normal() && AllNormal(xs) && xs != [] && LastReference(start, xs).None?
    ensures Delays(start, ShiftedAll(xs, 1_000_000)).0 == Delays(start, xs).0 + 1
  {
    hide Delays, RemoteDelay, Diff, ShiftedAll, Shifted, Trip, MeterAfter, LastReference, Sample.Normal;
    ShiftedMeter(start, xs, 1_000_000);
    ShiftedNormal(xs[|xs| - 1], 1_000_000);
    DelayMeaning(start, xs);
    DelayMeaning(start, ShiftedAll(xs, 1_000_000));
    OneMore(ClockGap(xs[|xs| - 1]) + start.Nanos());
  }

  lemma OneMore(n: int)
    ensures (n + 1_000_000) / 1_000_000 == n / 1_000_000 + 1
  {
  }

  /** For replies that do not arrive before they were sent, minrtt is the least of the round-trip
      times and of its first value. */
  lemma {:induction false} MinRttIsLeast(start: Time, xs: seq<Sample>)
    requires forall i :: 0 <= i < |xs| ==> Rtt(xs[i]) >= 0
    ensures var least := MeterAfter(start, xs).minRtt;
            least <= 0xFFFF_FFFF && (forall i :: 0 <= i < |xs| ==> least <= Rtt(xs[i])) &&
            (least == 0xFFFF_FFFF || exists i :: 0 <= i < |xs| && least == Rtt(xs[i]))
    ensures AllNormal(xs) ==>
              var least := MeterAfter(start, xs).minRtt;
              (forall i :: 0 <= i < |xs| ==> least <= Trip(xs[i]) / 1_000_000) &&
              (least == 0xFFFF_FFFF || exists i :: 0 <= i < |xs| && least == Trip(xs[i]) / 1_000_000)
  {
    hide Rtt, BaseFor;
    if xs != [] {
      var n, least := |xs| - 1, MeterAfter(start, xs).minRtt;
      MinRttIsLeast(start, xs[..n]);
      var before := MeterAfter(start, xs[..n]).minRtt;
      assert least == if before > Rtt(xs[n]) then Rtt(xs[n]) else before;
      forall i | 0 <= i < |xs| ensures least <= Rtt(xs[i]) {
        assert i < n ==> xs[..n][i] == xs[i];
      }
    }
    if AllNormal(xs) {
      forall i | 0 <= i < |xs| ensures Rtt(xs[i]) == Trip(xs[i]) / 1_000_000 {
        RttExact(xs[i]);
      }
    }
  }

  /** A sample by true times: the server's clock is `offset` ahead of the client's, and the packet
      was at the server neither before it was sent nor after its reply was back. */
  ghost predicate Causal(x: Sample, offset: int) {
    x.Normal() && 0 <= There(x, offset) <= Trip(x)
  }

  /** The true delay of a packet on its way to the server. */
  function There(x: Sample, offset: int): int {
    ClockGap(x) - offset
  }

  /** The reference packet's true delay is at most its round-trip time, which is the least one. */
  lemma {:induction false} ReferenceDelay(start: Time, xs: seq<Sample>, offset: int)
    requires forall i :: 0 <= i < |xs| ==> Causal(xs[i], offset)
    ensures var r := LastReference(start, xs);
            r.Reference? ==> 0 <= r.gap - offset < (MeterAfter(start, xs).minRtt + 1) * 1_000_000
  {
    hide Rtt, BaseFor, Trip;
    if xs != [] {
      var x := xs[|xs| - 1];
      assert Causal(x, offset);
      RttExact(x);
      MinRttIsLeastCausal(start, xs[..|xs| - 1], offset);
      ReferenceDelay(start, xs[..|xs| - 1], offset);
    }
  }

  lemma MinRttIsLeastCausal(start: Time, xs: seq<Sample>, offset: int)
    requires forall i :: 0 <= i < |xs| ==> Causal(xs[i], offset)
    ensures MeterAfter(start, xs).minRtt <= 0xFFFF_FFFF
  {
    hide Rtt, BaseFor, Trip;
    forall i | 0 <= i < |xs| ensures Rtt(xs[i]) >= 0 {
      assert Causal(xs[i], offset);
      RttExact(xs[i]);
    }
    MinRttIsLeast(start, xs);
  }

  /** How good the delay columns are: once there is a reference they miss the true one-way delays, in
      nanoseconds, by half of the least round-trip time and three milliseconds at most, whatever the
      offset of the server's clock and however the round trips divide. */
  lemma DelayAccuracy(start: Time, xs: seq<Sample>, offset: int)
    requires start.Normal() && xs != [] && forall i :: 0 <= i < |xs| ==> Causal(xs[i], offset)
    requires SomeQuick(xs)
    ensures var x, half := xs[|xs| - 1], MeterAfter(start, xs).minRtt / 2;
            var (there, back) := Delays(start, xs);
            -(half + 3) * 1_000_000 < there * 1_000_000 - There(x, offset) <= half * 1_000_000 &&
            -(half + 1) * 1_000_000 < back * 1_000_000 - (Trip(x) - There(x, offset)) < (half + 3) * 1_000_000
  {
    assert AllNormal(xs) by {
      forall i | 0 <= i < |xs| ensures xs[i].Normal() {
        assert Causal(xs[i], offset);
      }
    }
    hide Delays, MeterAfter, LastReference, Trip, ClockGap, SomeQuick, AllNormal, Causal;
    ReferenceFound(start, xs);
    DelayMeaning(start, xs);
    ReferenceDelay(start, xs, offset);
  }

  /** The same about the line printed, with any round trip so far in place of the least one. */
  lemma LineDelays(start: Time, xs: seq<Sample>, offset: int)
    requires start.Normal() && xs != [] && forall i :: 0 <= i < |xs| ==> Causal(xs[i], offset)
    ensures var x, c := xs[|xs| - 1], LastLine(start, xs);
            c.time == (x.ts1.Nanos() - start.Nanos()) / 1_000_000 &&
            c.delayThere + c.delayBack == Trip(x) / 1_000_000
    ensures SomeQuick(xs) ==>
              var x, c := xs[|xs| - 1], LastLine(start, xs);
              forall i :: 0 <= i < |xs| ==>
                var t := Trip(xs[i]);
                -t - 6_000_000 < 2 * (c.delayThere * 1_000_000 - There(x, offset)) <= t &&
                -t - 2_000_000 < 2 * (c.delayBack * 1_000_000 - (Trip(x) - There(x, offset))) < t + 6_000_000
  {
    var n := |xs| - 1;
    forall i | 0 <= i < |xs| ensures xs[i].Normal() && Rtt(xs[i]) == Trip(xs[i]) / 1_000_000 && Rtt(xs[i]) >= 0 {
      assert Causal(xs[i], offset);
      RttExact(xs[i]);
    }
    LineMeaning(start, xs);
    PrintedMeaning(MeterAfter(start, xs[..n]), start, xs[n]);
    MinRttIsLeast(start, xs);
    hide LastLine, MeterAfter, Trip, There, Rtt, Causal, SomeQuick;
    if SomeQuick(xs) {
      DelayAccuracy(start, xs, offset);
      var c := LastLine(start, xs);
      assert Delays(start, xs) == (c.delayThere, c.delayBack);
    }
  }
}
