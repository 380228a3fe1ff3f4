/** The probe, the server and the measuring side of udp_ts_seq_reply.cpp over lossy channels in
    both directions, as a transition system on packets of bytes, and what the two loss columns mean. */
module UdpLoss {
  import opened Numbers
  import opened Timespec
  import opened UdpServer
  import opened UdpWire
  import opened LossyChannel
  import opened UdpMeasure

  /** The k-th reply of the server to our client: to which packet, and its bytes. */
  datatype Pong = Pong(n: nat, reply: seq<Byte>) {
    /** What measure reads out of it. */
    function Read(): Info {
      if |reply| >= 46 then Decode(reply, true) else Info([0, 0, 0, 0], Time(0, 0), Time(0, 0), 0, 0, [], 0)
    }

    function Arrived(at: Time): Sample {
      Sample(Read().ts1, Read().ts2, at, Read().seq1, Read().seq2)
    }
  }

  /** An output line: for which reply, and its columns. */
  datatype Row = Row(k: nat, columns: Columns)

  /** `seqWord`, `maps` and `meter` are the variables of the three programs; `start` is when measure
      was started. The rest is the network and the record of what happened: the packets and when they
      were sent, all arrivals at the server, the arrival times of our packets, the replies, what
      measure read from those that came back and when, the lines printed. The channels carry the
      packets by their place in that record. */
  datatype Net = Net(
    seqWord: Word, pings: seq<seq<Byte>>, sends: seq<Time>, there: Channel,
    maps: Maps, history: seq<Arrival>, times: seq<Time>, pongs: seq<Pong>, back: Channel,
    start: Time, meter: Meter, samples: seq<Sample>, backs: seq<Time>, rows: seq<Row>)

  function Begun(start: Time): Net {
    Net(0, [], [], LossyChannel.EMPTY, UdpServer.EMPTY, [], [], [], LossyChannel.EMPTY, start, FIRST, [], [], [])
  }

  datatype Event =
    | Send(at: Time, extra: nat)           // the probe sends a packet of 24 bytes and some more
    | LoseThere(i: nat)                    // the i-th packet in flight to the server is lost
    | Serve(at: Time, peer: Peer)          // the next one arrives there, and is answered
    | Foreign(packet: seq<Byte>, at: Time) // a packet of another client arrives there
    | LoseBack(i: nat)                     // the i-th reply in flight is lost
    | Receive(at: Time)                    // the next reply arrives and a line is printed

  /** What an event does; one that is not possible does nothing. */
  function Next(s: Net, me: Id, e: Event): Net {
    match e
    case Send(at, extra) =>
      s.(seqWord := (s.seqWord + 1) % WORD,
         pings := s.pings + [Ping(me, at, s.seqWord, 24 + extra)], sends := s.sends + [at],
         there := LossyChannel.Send(s.there))
    case LoseThere(i) => s.(there := Lose(s.there, i))
    case Serve(at, peer) =>
      if peer.Valid() && s.there.queue != [] && s.there.queue[0] < |s.pings| then Answer(s, at, peer) else s
    case Foreign(packet, at) =>
      var id := IdOf(Clipped(packet));
      if id == me then s
      else s.(maps := Served(s.maps, id, at), history := s.history + [Arrival(id, at)])
    case LoseBack(i) => s.(back := Lose(s.back, i))
    case Receive(at) => if s.back.queue != [] && s.back.queue[0] < |s.pongs| then Print(s, at) else s
  }

  function Answer(s: Net, at: Time, peer: Peer): Net
    requires peer.Valid() && s.there.queue != [] && s.there.queue[0] < |s.pings|
  {
    var n := s.there.queue[0];
    var packet := Clipped(s.pings[n]);
    var id := IdOf(packet);
    s.(there := Deliver(s.there),
       maps := Served(s.maps, id, at), history := s.history + [Arrival(id, at)], times := s.times + [at],
       pongs := s.pongs + [Pong(n, Reply(packet, peer, at, Number(s.maps, id, at) % WORD))],
       back := LossyChannel.Send(s.back))
  }

  function Print(s: Net, at: Time): Net
    requires s.back.queue != [] && s.back.queue[0] < |s.pongs|
  {
    var k := s.back.queue[0];
    var x := s.pongs[k].Arrived(at);
    s.(back := Deliver(s.back), meter := NextMeter(s.meter, s.start, x),
       samples := s.samples + [x], backs := s.backs + [at],
       rows := s.rows + [Row(k, Printed(s.meter, s.start, x))])
  }

  function Run(me: Id, start: Time, events: seq<Event>): Net {
    if events == [] then Begun(start) else Next(Run(me, start, events[..|events| - 1]), me, events[|events| - 1])
  }

  // ---------- the invariant ----------

  /** Our packets up to the k-th arrival that came before the run the k-th belongs to. */
  function Skipped(times: seq<Time>, k: nat): nat {
    if k < |times| then k + 1 - RunLength(times[..k + 1]) else 0
  }

  ghost predicate PingsOk(s: Net, me: Id) {
    Consistent(s.there) && s.seqWord == s.there.sent % WORD && |s.pings| == |s.sends| == s.there.sent &&
    forall n :: 0 <= n < |s.pings| ==> IsPing(s.pings[n], me, s.sends[n], n % WORD)
  }

  ghost predicate MapsOk(s: Net, me: Id) {
    s.maps == ServedAll(s.history) && s.times == Times(s.history, me)
  }

  ghost predicate PongOk(s: Net, k: nat)
    requires k < |s.pongs|
  {
    var p := s.pongs[k];
    p.n < s.there.floor && |LostBefore(s.there, p.n)| + k == p.n &&
    p.Read().seq1 == p.n % WORD && p.Read().seq2 == (k - Skipped(s.times, k)) % WORD &&
    p.n < |s.sends| && k < |s.times| &&
    (Sendable(s.sends[p.n]) ==> p.Read().ts1 == s.sends[p.n]) &&
    (Sendable(s.times[k]) ==> p.Read().ts2 == s.times[k])
  }

  ghost predicate PongsOk(s: Net) {
    |s.pongs| == |s.times| == s.there.delivered == s.back.sent &&
    (forall k :: 0 <= k < |s.pongs| ==> PongOk(s, k)) &&
    (forall j, k :: 0 <= j < k < |s.pongs| ==> s.pongs[j].n < s.pongs[k].n)
  }

  ghost predicate RowOk(s: Net, m: nat)
    requires m < |s.rows| <= |s.samples| && |s.rows| <= |s.backs|
  {
    var r := s.rows[m];
    r.k < s.back.floor && r.k < |s.pongs| && |LostBefore(s.back, r.k)| + m == r.k &&
    s.samples[m] == s.pongs[r.k].Arrived(s.backs[m]) && r.columns == LastLine(s.start, s.samples[..m + 1])
  }

  ghost predicate RowsOk(s: Net) {
    Consistent(s.back) && |s.rows| == s.back.delivered && |s.samples| == |s.backs| == |s.rows| &&
    s.meter == MeterAfter(s.start, s.samples) &&
    (forall m :: 0 <= m < |s.rows| ==> RowOk(s, m)) &&
    (forall l, m :: 0 <= l < m < |s.rows| ==> s.rows[l].k < s.rows[m].k)
  }

  ghost predicate Inv(s: Net, me: Id) {
    PingsOk(s, me) && MapsOk(s, me) && PongsOk(s) && RowsOk(s)
  }

  lemma SendInv(s: Net, me: Id, at: Time, extra: nat)
    requires Inv(s, me)
    ensures Inv(Next(s, me, Send(at, extra)), me)
  {
    hide Skipped, ServedAll, Times, Consistent, LostBefore, Pong.Read, Ping, IsPing;
    var t := Next(s, me, Send(at, extra));
    NextWord(s.there.sent);
    SendConsistent(s.there);
    PingIs(me, at, s.seqWord, 24 + extra);
    forall k | 0 <= k < |t.pongs| ensures PongOk(t, k) {
      assert PongOk(s, k);
      LostBeforeStable(s.there, 0, s.pongs[k].n);
    }
    assert forall m :: 0 <= m < |s.rows| ==> RowOk(t, m) == RowOk(s, m);
  }

  lemma LoseThereInv(s: Net, me: Id, i: nat)
    requires Inv(s, me)
    ensures Inv(Next(s, me, LoseThere(i)), me)
  {
    hide Skipped, ServedAll, Times, Consistent, LostBefore, Pong.Read, IsPing;
    var t := Next(s, me, LoseThere(i));
    LoseConsistent(s.there, i);
    forall k | 0 <= k < |t.pongs| ensures PongOk(t, k) {
      assert PongOk(s, k);
      LostBeforeStable(s.there, i, s.pongs[k].n);
    }
    assert forall m :: 0 <= m < |s.rows| ==> RowOk(t, m) == RowOk(s, m);
  }

  lemma ForeignInv(s: Net, me: Id, packet: seq<Byte>, at: Time)
    requires Inv(s, me)
    ensures Inv(Next(s, me, Foreign(packet, at)), me)
  {
    hide Skipped, Consistent, LostBefore, Pong.Read, IsPing, IdOf, Clipped;
    var id := IdOf(Clipped(packet));
    var t := Next(s, me, Foreign(packet, at));
    if id != me {
      assert (s.history + [Arrival(id, at)])[..|s.history|] == s.history;
    }
    assert forall k :: 0 <= k < |s.pongs| ==> PongOk(t, k) == PongOk(s, k);
    assert forall m :: 0 <= m < |s.rows| ==> RowOk(t, m) == RowOk(s, m);
  }

  lemma LoseBackInv(s: Net, me: Id, i: nat)
    requires Inv(s, me)
    ensures Inv(Next(s, me, LoseBack(i)), me)
  {
    hide Skipped, ServedAll, Times, Consistent, LostBefore, Pong.Read, IsPing;
    var t := Next(s, me, LoseBack(i));
    LoseConsistent(s.back, i);
    assert forall k :: 0 <= k < |s.pongs| ==> PongOk(t, k) == PongOk(s, k);
    forall m | 0 <= m < |t.rows| ensures RowOk(t, m) {
      assert RowOk(s, m);
      LostBeforeStable(s.back, i, s.rows[m].k);
    }
  }

  /** The number the server gives our next packet. */
  lemma AnswerNumber(s: Net, me: Id, at: Time)
    requires MapsOk(s, me)
    ensures MapsOk(s.(maps := Served(s.maps, me, at), history := s.history + [Arrival(me, at)],
                      times := s.times + [at]), me)
    ensures Number(s.maps, me, at) == (|s.times| - Skipped(s.times + [at], |s.times|)) % WORD
    ensures forall k :: 0 <= k < |s.times| ==> Skipped(s.times + [at], k) == Skipped(s.times, k)
  {
    hide Number, Served, RunLength;
    NumbersRefineHistory(s.history, me, at);
    assert (s.history + [Arrival(me, at)])[..|s.history|] == s.history;
    var times := s.times + [at];
    assert times[..|s.times| + 1] == times;
    forall k | 0 <= k < |s.times| ensures Skipped(times, k) == Skipped(s.times, k) {
      assert times[..k + 1] == s.times[..k + 1];
    }
  }

  /** The bytes of an answer: filed under our id, and read back with both numbers. */
  lemma AnswerBytes(s: Net, me: Id, at: Time, peer: Peer)
    requires PingsOk(s, me) && MapsOk(s, me) && |s.pongs| == |s.times|
    requires peer.Valid() && s.there.queue != [] && s.there.queue[0] < |s.pings|
    ensures var n, k := s.there.queue[0], |s.pongs|;
            IdOf(Clipped(s.pings[n])) == me &&
            var p := Answer(s, at, peer).pongs[k];
            p.n == n && p.Read().seq1 == n % WORD && p.Read().seq2 == (k - Skipped(s.times + [at], k)) % WORD &&
            (Sendable(s.sends[n]) ==> p.Read().ts1 == s.sends[n]) && (Sendable(at) ==> p.Read().ts2 == at)
  {
    hide Number, Served, Skipped, ServedAll, Times, Reply, Decode, IsPing, Clipped, IdOf;
    var n := s.there.queue[0];
    AnswerNumber(s, me, at);
    PacketRoundTrip(s.pings[n], me, s.sends[n], n % WORD, peer, at, Number(s.maps, me, at) % WORD, true);
  }

  lemma AnswerPongs(s: Net, me: Id, at: Time, peer: Peer)
    requires Inv(s, me) && peer.Valid() && s.there.queue != [] && s.there.queue[0] < |s.pings|
    ensures PongsOk(Answer(s, at, peer))
  {
    hide Number, Served, RunLength, Skipped, ServedAll, Times, LostBefore, Reply, Pong.Read, IsPing;
    var t := Answer(s, at, peer);
    AnswerNumber(s, me, at);
    AnswerBytes(s, me, at, peer);
    DeliverConsistent(s.there);
    forall k | 0 <= k < |t.pongs| ensures PongOk(t, k) {
      if k < |s.pongs| {
        assert PongOk(s, k);
        LostBeforeStable(s.there, 0, s.pongs[k].n);
      } else {
        DeliveredLost(s.there);
      }
    }
    forall j | 0 <= j < |s.pongs| ensures s.pongs[j].n < t.pongs[|s.pongs|].n {
      assert PongOk(s, j);
    }
  }

  lemma DeliveredLost(c: Channel)
    requires Consistent(c) && c.queue != []
    ensures |LostBefore(Deliver(c), c.queue[0])| + c.delivered == c.queue[0]
  {
    DeliverConsistent(c);
    assert LostBefore(Deliver(c), c.queue[0]) == LostBefore(c, c.queue[0]);
  }

  lemma ServeInv(s: Net, me: Id, at: Time, peer: Peer)
    requires Inv(s, me)
    ensures Inv(Next(s, me, Serve(at, peer)), me)
  {
    hide Number, Served, RunLength, Skipped, ServedAll, Times, Consistent, LostBefore, PongOk, Reply, IsPing,
         Pong.Read;
    if peer.Valid() && s.there.queue != [] && s.there.queue[0] < |s.pings| {
      var t := Answer(s, at, peer);
      AnswerNumber(s, me, at);
      AnswerBytes(s, me, at, peer);
      AnswerPongs(s, me, at, peer);
      DeliverConsistent(s.there);
      SendConsistent(s.back);
      forall m | 0 <= m < |t.rows| ensures RowOk(t, m) {
        assert RowOk(s, m);
        LostBeforeStable(s.back, 0, s.rows[m].k);
      }
    }
  }

  /** A printed line stays what it was when more replies arrive. */
  lemma SampleAppended(start: Time, xs: seq<Sample>, x: Sample)
    ensures MeterAfter(start, xs + [x]) == NextMeter(MeterAfter(start, xs), start, x)
    ensures LastLine(start, xs + [x]) == Printed(MeterAfter(start, xs), start, x)
  {
    hide NextMeter, Printed;
    assert (xs + [x])[..|xs|] == xs;
  }

  lemma ReceiveInv(s: Net, me: Id, at: Time)
    requires Inv(s, me)
    ensures Inv(Next(s, me, Receive(at)), me)
  {
    hide Skipped, ServedAll, Times, LostBefore, Pong.Read, IsPing, NextMeter, Printed, MeterAfter, LastLine;
    if s.back.queue != [] && s.back.queue[0] < |s.pongs| {
      var t := Print(s, at);
      var x := t.samples[|s.samples|];
      SampleAppended(s.start, s.samples, x);
      DeliverConsistent(s.back);
      assert forall k :: 0 <= k < |s.pongs| ==> PongOk(t, k) == PongOk(s, k);
      forall m | 0 <= m < |t.rows| ensures RowOk(t, m) {
        if m < |s.rows| {
          assert RowOk(s, m);
          assert t.samples[..m + 1] == s.samples[..m + 1];
          LostBeforeStable(s.back, 0, s.rows[m].k);
        } else {
          assert t.samples[..m + 1] == s.samples + [x];
          DeliveredLost(s.back);
        }
      }
      forall l | 0 <= l < |s.rows| ensures s.rows[l].k < t.rows[|s.rows|].k {
        assert RowOk(s, l);
      }
    }
  }

  /** Every reachable state satisfies the invariant. */
  lemma {:induction false} Reachable(me: Id, start: Time, events: seq<Event>)
    ensures Inv(Run(me, start, events), me)
  {
    if events == [] {
      EmptyConsistent();
    } else {
      hide Inv, Next;
      var s, e := Run(me, start, events[..|events| - 1]), events[|events| - 1];
      Reachable(me, start, events[..|events| - 1]);
      match e
      case Send(at, extra) => SendInv(s, me, at, extra);
      case LoseThere(i) => LoseThereInv(s, me, i);
      case Serve(at, peer) => ServeInv(s, me, at, peer);
      case Foreign(packet, at) => ForeignInv(s, me, packet, at);
      case LoseBack(i) => LoseBackInv(s, me, i);
      case Receive(at) => ReceiveInv(s, me, at);
    }
  }

  // ---------- the columns ----------

  /** The true losses behind line `m`: packets lost on the way there before the one it reports, and
      replies lost on the way back before the one it reports. */
  ghost function TrueLosses(s: Net, m: nat): (nat, nat)
    requires m < |s.rows| && s.rows[m].k < |s.pongs|
  {
    (|LostBefore(s.there, s.pongs[s.rows[m].k].n)|, |LostBefore(s.back, s.rows[m].k)|)
  }

  lemma SkippedNothing(times: seq<Time>, k: nat)
    requires k < |times|
    ensures Skipped(times, k) <= k
    ensures Skipped(times, k) == 0 <==> NoGapSince(times[..k + 1], 0)
  {
    RunLengthMeans(times[..k + 1], k + 1);
  }

  lemma Congruent(a: int, b: int)
    requires a >= 0 && b >= 0
    ensures (a % WORD - b % WORD - (a - b)) % WORD == 0
    ensures a < WORD && b < WORD ==> a % WORD - b % WORD == a - b
  {
    var q := b / WORD - a / WORD;
    assert a % WORD - b % WORD - (a - b) == q * WORD;
  }

  /** The loss columns of a line are those of the reply it is about. */
  lemma RowLosses(s: Net, m: nat)
    requires RowsOk(s) && m < |s.rows|
    ensures var r := s.rows[m];
            r.k < |s.pongs| &&
            r.columns.lossThere == s.pongs[r.k].Read().seq1 - s.pongs[r.k].Read().seq2 &&
            r.columns.lossBack == s.pongs[r.k].Read().seq2 - m % WORD
  {
    hide Consistent, LostBefore, LastLine, MeterAfter, Pong.Read;
    assert RowOk(s, m);
    LineMeaning(s.start, s.samples[..m + 1]);
  }

  /** Loss attribution, over all runs: modulo 2^32 the first column is the packets lost on the way
      there plus those that came before the server's last renumbering, the second the replies lost
      on the way back less those. With at most 2^32 packets the columns are exactly that. */
  lemma LossAttribution(me: Id, start: Time, events: seq<Event>, m: nat)
    requires m < |Run(me, start, events).rows|
    ensures var s := Run(me, start, events);
            var k := s.rows[m].k;
            k < |s.pongs| && k < |s.times| &&
            var (there, back) := TrueLosses(s, m);
            var skipped := Skipped(s.times, k);
            (s.rows[m].columns.lossThere - (there + skipped)) % WORD == 0 &&
            (s.rows[m].columns.lossBack - (back - skipped)) % WORD == 0 &&
            (s.there.sent <= WORD ==>
               s.rows[m].columns.lossThere == there + skipped && s.rows[m].columns.lossBack == back - skipped)
  {
    hide Run, Skipped, Times, ServedAll, Consistent, LostBefore, Pong.Read, IsPing, LastLine, MeterAfter;
    Reachable(me, start, events);
    var s := Run(me, start, events);
    RowLosses(s, m);
    assert RowOk(s, m);
    var k := s.rows[m].k;
    assert PongOk(s, k);
    var n, given := s.pongs[k].n, k - Skipped(s.times, k);
    SkippedNothing(s.times, k);
    Congruent(n, given);
    Congruent(given, m);
    FloorBound(s.there);
  }

  lemma FloorBound(c: Channel)
    requires Consistent(c)
    ensures c.floor <= c.sent
  {
  }

  /** For fewer than 2^32 packets a line's columns are the true losses exactly when the server saw
      no gap between our packets up to that line. */
  lemma ColumnsExact(me: Id, start: Time, events: seq<Event>, m: nat)
    requires m < |Run(me, start, events).rows| && Run(me, start, events).there.sent <= WORD
    ensures var s := Run(me, start, events);
            var k := s.rows[m].k;
            k < |s.pongs| && k < |s.times| &&
            var c := s.rows[m].columns;
            ((c.lossThere, c.lossBack) == TrueLosses(s, m) <==> NoGapSince(s.times[..k + 1], 0))
  {
    hide Run, Skipped, LostBefore;
    LossAttribution(me, start, events, m);
    var s := Run(me, start, events);
    SkippedNothing(s.times, s.rows[m].k);
  }

  /** One packet that is answered at once, and its answer received, with nothing else in flight. */
  lemma Answered(s: Net, me: Id, at: Time, peer: Peer)
    requires Inv(s, me) && peer.Valid() && s.there.queue == [] && s.back.queue == []
    ensures var t := Next(Next(Next(s, me, Send(at, 0)), me, Serve(at, peer)), me, Receive(at));
            t.there.queue == [] && t.there.lost == s.there.lost && t.there.sent == s.there.sent + 1 &&
            t.back.queue == [] && t.back.lost == s.back.lost &&
            t.times == s.times + [at] && |t.pongs| == |s.pongs| + 1 &&
            |t.rows| == |s.rows| + 1 && t.rows[|s.rows|].k == |s.pongs|
  {
    hide Served, Number, Reply, Ping, IsPing, LostBefore, Pong.Read, Skipped, RowOk, PongOk;
  }

  lemma RunThree(me: Id, start: Time, prefix: seq<Event>, at: Time, peer: Peer)
    ensures Run(me, start, prefix + [Send(at, 0), Serve(at, peer), Receive(at)])
         == Next(Next(Next(Run(me, start, prefix), me, Send(at, 0)), me, Serve(at, peer)), me, Receive(at))
  {
    hide Next;
    var one := prefix + [Send(at, 0)];
    var two := one + [Serve(at, peer)];
    var all := two + [Receive(at)];
    assert all == prefix + [Send(at, 0), Serve(at, peer), Receive(at)];
    assert all[..|all| - 1] == two && two[..|two| - 1] == one && one[..|one| - 1] == prefix;
    assert Run(me, start, one) == Next(Run(me, start, prefix), me, Send(at, 0));
    assert Run(me, start, two) == Next(Run(me, start, one), me, Serve(at, peer));
  }

  /** Two arrivals, at least 61 seconds apart: the second number starts at 0 again. */
  lemma SecondSkips(times: seq<Time>)
    requires |times| == 2 && Gap(times[0], times[1])
    ensures Skipped(times, 1) == 1
  {
    assert times[..2] == times;
  }

  /** Packet, answer and receipt, twice, 61 seconds apart and without a loss. */
  function AfterAMinute(peer: Peer): seq<Event> {
    [Send(Time(0, 0), 0), Serve(Time(0, 0), peer), Receive(Time(0, 0))] +
    [Send(Time(61, 0), 0), Serve(Time(61, 0), peer), Receive(Time(61, 0))]
  }

  lemma AfterAMinuteRun(me: Id, start: Time, peer: Peer)
    requires peer.Valid()
    ensures var s := Run(me, start, AfterAMinute(peer));
            |s.rows| == 2 && s.rows[1].k == 1 && s.there.sent == 2 && s.times == [Time(0, 0), Time(61, 0)] &&
            s.there.lost == {} && s.back.lost == {}
  {
    var once := [Send(Time(0, 0), 0), Serve(Time(0, 0), peer), Receive(Time(0, 0))];
    RunThree(me, start, [], Time(0, 0), peer);
    RunThree(me, start, once, Time(61, 0), peer);
    assert [] + once == once;
    assert Run(me, start, []) == Begun(start);
    hide Run, Next, Inv;
    Reachable(me, start, []);
    Reachable(me, start, once);
    Answered(Begun(start), me, Time(0, 0), peer);
    Answered(Run(me, start, once), me, Time(61, 0), peer);
  }

  /** The condition of ColumnsExact does fail: nothing is lost here, and yet the second line claims
      a loss on the way there and one too few on the way back. */
  lemma ColumnsExample(me: Id, start: Time, peer: Peer)
    requires peer.Valid()
    ensures var s := Run(me, start, AfterAMinute(peer));
            |s.rows| == 2 && s.there.lost == {} && s.back.lost == {} &&
            s.rows[1].columns.lossThere == 1 && s.rows[1].columns.lossBack == -1
  {
    hide Run, AfterAMinute, Skipped;
    AfterAMinuteRun(me, start, peer);
    LossAttribution(me, start, AfterAMinute(peer), 1);
    SecondSkips([Time(0, 0), Time(61, 0)]);
  }

  /** What a run skips before its k-th arrival never becomes less. */
  lemma {:induction false} SkippedMono(times: seq<Time>, j: nat, k: nat)
    requires j <= k < |times|
    ensures Skipped(times, j) <= Skipped(times, k)
  {
    if j < k {
      SkippedMono(times, j, k - 1);
      assert times[..k + 1][..k] == times[..k];
      SkippedNothing(times, k - 1);
    }
  }

  /** The first column never decreases, and the second one decreases only where the server has
      renumbered. */
  lemma ColumnsMonotone(me: Id, start: Time, events: seq<Event>, l: nat, m: nat)
    requires l < m < |Run(me, start, events).rows| && Run(me, start, events).there.sent <= WORD
    ensures var s := Run(me, start, events);
            s.rows[l].columns.lossThere <= s.rows[m].columns.lossThere &&
            (Skipped(s.times, s.rows[l].k) == Skipped(s.times, s.rows[m].k) ==>
               s.rows[l].columns.lossBack <= s.rows[m].columns.lossBack)
  {
    hide Run, Skipped, Times, ServedAll, Consistent, LostBefore, Pong.Read, IsPing;
    Reachable(me, start, events);
    LossAttribution(me, start, events, l);
    LossAttribution(me, start, events, m);
    var s := Run(me, start, events);
    var j, k := s.rows[l].k, s.rows[m].k;
    assert j < k && s.pongs[j].n < s.pongs[k].n;
    LostBeforeMono(s.there, s.pongs[j].n, s.pongs[k].n);
    LostBeforeMono(s.back, j, k);
    SkippedMono(s.times, j, k);
  }

  // ---------- the delays ----------

  ghost predicate Recorded(s: Net, m: nat) {
    m < |s.rows| && m < |s.backs| && s.rows[m].k < |s.pongs| && s.rows[m].k < |s.times| &&
    s.pongs[s.rows[m].k].n < |s.sends|
  }

  /** When the packet behind line `m` was really sent, served, and back. */
  ghost function Journey(s: Net, m: nat): Sample
    requires Recorded(s, m)
  {
    var k := s.rows[m].k;
    Sample(s.sends[s.pongs[k].n], s.times[k], s.backs[m], 0, 0)
  }

  /** The journeys make sense for a server whose clock is `offset` ahead, and fit the wire. */
  ghost predicate Sensible(s: Net, offset: int) {
    forall m :: 0 <= m < |s.rows| && Recorded(s, m) ==>
      var j := Journey(s, m);
      Causal(j, offset) && Fits64(j.ts1.sec) && Fits64(j.ts2.sec)
  }

  lemma SampleIsJourney(s: Net, me: Id, m: nat)
    requires Inv(s, me) && m < |s.rows|
    ensures Recorded(s, m)
    ensures var j := Journey(s, m);
            m < |s.samples| && s.samples[m].ts3 == j.ts3 &&
            (Sendable(j.ts1) ==> s.samples[m].ts1 == j.ts1) && (Sendable(j.ts2) ==> s.samples[m].ts2 == j.ts2)
  {
    hide Skipped, Times, ServedAll, Consistent, LostBefore, Pong.Read, IsPing, LastLine, MeterAfter, Sendable;
    assert RowOk(s, m);
    assert PongOk(s, s.rows[m].k);
  }

  lemma SampleCausal(s: Net, me: Id, m: nat, offset: int)
    requires Inv(s, me) && m < |s.rows| && Sensible(s, offset)
    ensures Recorded(s, m) && m < |s.samples| && Causal(s.samples[m], offset)
    ensures Trip(s.samples[m]) == Trip(Journey(s, m))
    ensures There(s.samples[m], offset) == There(Journey(s, m), offset)
  {
    hide Inv;
    SampleIsJourney(s, me, m);
    var j := Journey(s, m);
    assert Causal(j, offset) && Sendable(j.ts1) && Sendable(j.ts2);
  }

  /** Delay attribution, over all runs, from the bytes: the two delay columns of a line sum up to the
      whole milliseconds of the round trip, and once some reply was quick enough to be a reference they
      miss the true one-way delays by half of any round trip so far, and three milliseconds, at most. */
  lemma DelayAttribution(me: Id, start: Time, events: seq<Event>, m: nat, offset: int)
    requires var s := Run(me, start, events);
             start.Normal() && m < |s.rows| && Sensible(s, offset)
    ensures var s := Run(me, start, events);
            forall i :: 0 <= i <= m ==> Recorded(s, i)
    ensures var s := Run(me, start, events);
            var c, j := s.rows[m].columns, Journey(s, m);
            c.delayThere + c.delayBack == Trip(j) / 1_000_000 &&
            c.time == (j.ts1.Nanos() - start.Nanos()) / 1_000_000
    ensures var s := Run(me, start, events);
            var c, j := s.rows[m].columns, Journey(s, m);
            (exists i :: 0 <= i <= m && Trip(Journey(s, i)) < 0xFFFF_FFFF * 1_000_000) ==>
            forall i :: 0 <= i <= m ==>
              var t := Trip(Journey(s, i));
              -t - 6_000_000 < 2 * (c.delayThere * 1_000_000 - There(j, offset)) <= t &&
              -t - 2_000_000 < 2 * (c.delayBack * 1_000_000 - (Trip(j) - There(j, offset))) < t + 6_000_000
  {
    var s := Run(me, start, events);
    Reachable(me, start, events);
    RunStart(me, start, events);
    assert RowOk(s, m);
    var xs := s.samples[..m + 1];
    hide Run, Inv, Journey, LastLine, MeterAfter, Trip, There;
    forall i | 0 <= i <= m
      ensures Recorded(s, i) && Causal(xs[i], offset)
      ensures Trip(xs[i]) == Trip(Journey(s, i)) && There(xs[i], offset) == There(Journey(s, i), offset)
    {
      SampleCausal(s, me, i, offset);
    }
    LineDelays(start, xs, offset);
    SampleIsJourney(s, me, m);
  }

  lemma {:induction false} RunStart(me: Id, start: Time, events: seq<Event>)
    ensures Run(me, start, events).start == start
  {
    if events != [] {
      RunStart(me, start, events[..|events| - 1]);
    }
  }
}
