/** The per-client numbering of the server in udp_ts_seq_reply.cpp. */
module UdpServer {
  import opened Numbers
  import opened Timespec

  /** The first four payload bytes, as they came. */
  type Id = s: seq<Byte> | |s| == 4 witness [0, 0, 0, 0]

  /** The two maps of the server; entries are never deleted. */
  datatype Maps = Maps(seqs: map<Id, nat>, lastseens: map<Id, Time>)

  const EMPTY := Maps(map[], map[])

  /** The server's test for a client that was away too long. */
  predicate Gap(before: Time, now: Time) {
    Diff(before, now).sec > 60
  }

  /** It compares whole seconds: the gap must be 61 seconds at least. */
  lemma GapMeans(before: Time, now: Time)
    requires before.Normal() && now.Normal()
    ensures Gap(before, now) <==> now.Nanos() - before.Nanos() >= 61 * GIGA
  {
  }

  /** The number a packet gets, and the maps after it. */
  function Number(m: Maps, id: Id, now: Time): nat {
    if id in m.lastseens && !Gap(m.lastseens[id], now) && id in m.seqs then m.seqs[id] else 0
  }

  function Served(m: Maps, id: Id, now: Time): Maps {
    Maps(m.seqs[id := (Number(m, id, now) + 1) % WORD], m.lastseens[id := now])
  }

  datatype Arrival = Arrival(id: Id, at: Time)

  function ServedAll(history: seq<Arrival>): Maps {
    if history == [] then EMPTY
    else
      var last := history[|history| - 1];
      Served(ServedAll(history[..|history| - 1]), last.id, last.at)
  }

  /** The arrival times of one client. */
  function Times(history: seq<Arrival>, id: Id): seq<Time> {
    if history == [] then []
    else
      var rest := Times(history[..|history| - 1], id);
      var last := history[|history| - 1];
      if last.id == id then rest + [last.at] else rest
  }

  /** How many arrivals there are since the most recent gap. */
  function RunLength(times: seq<Time>): (n: nat)
    ensures n <= |times| && (times != [] ==> n > 0)
  {
    if times == [] then 0
    else if |times| > 1 && Gap(times[|times| - 2], times[|times| - 1]) then 1
    else RunLength(times[..|times| - 1]) + 1
  }

  /** No gap between arrivals `from` to the last. */
  ghost predicate NoGapSince(times: seq<Time>, from: nat) {
    forall k :: from < k < |times| ==> !Gap(times[k - 1], times[k])
  }

  /** What the run length means: no gap inside the run, and a gap right before it, if anything. */
  lemma {:induction false} RunLengthMeans(times: seq<Time>, n: nat)
    requires times != [] && 0 < n <= |times|
    ensures n == RunLength(times) <==>
            NoGapSince(times, |times| - n) &&
            (n < |times| ==> Gap(times[|times| - n - 1], times[|times| - n]))
  {
    var front := times[..|times| - 1];
    if |times| > 1 && Gap(times[|times| - 2], times[|times| - 1]) {
      if n > 1 {
        assert !NoGapSince(times, |times| - n);
      }
    } else if |times| > 1 {
      assert times[|times| - 1 - 1] == front[|front| - 1];
      if n > 1 {
        RunLengthMeans(front, n - 1);
        assert NoGapSince(times, |times| - n) <==> NoGapSince(front, |front| - (n - 1));
      }
    }
  }

  /** The server's maps know exactly the clients of the history, with their last arrival and the
      length of their current run. */
  lemma {:induction false} MapsRefineHistory(history: seq<Arrival>, id: Id)
    ensures var m, times := ServedAll(history), Times(history, id);
            m.seqs.Keys == m.lastseens.Keys &&
            (id in m.seqs <==> times != []) &&
            (times != [] ==> m.lastseens[id] == times[|times| - 1] && m.seqs[id] == RunLength(times) % WORD)
  {
    if history != [] {
      var front, last := history[..|history| - 1], history[|history| - 1];
      MapsRefineHistory(front, id);
      MapsRefineHistory(front, last.id);
      if last.id == id {
        NumberIsRun(ServedAll(front), Times(front, id), id, last.at);
      }
    }
  }

  lemma RunLengthAppend(times: seq<Time>, now: Time)
    ensures RunLength(times + [now])
         == if times != [] && !Gap(times[|times| - 1], now) then RunLength(times) + 1 else 1
  {
    assert (times + [now])[..|times|] == times;
  }

  lemma NumberIsRun(m: Maps, times: seq<Time>, id: Id, now: Time)
    requires (id in m.seqs <==> times != []) && (id in m.lastseens <==> times != [])
    requires times != [] ==> m.lastseens[id] == times[|times| - 1] && m.seqs[id] == RunLength(times) % WORD
    ensures Number(m, id, now) == (RunLength(times + [now]) - 1) % WORD
    ensures (Number(m, id, now) + 1) % WORD == RunLength(times + [now]) % WORD
  {
    var run := RunLength(times + [now]);
    RunLengthAppend(times, now);
    if times != [] && !Gap(times[|times| - 1], now) {
      assert Number(m, id, now) == (run - 1) % WORD;
    } else {
      assert Number(m, id, now) == 0 && run == 1;
    }
    NextWord(run - 1);
  }

  /** Numbers refine history: over any interleaving of clients a packet gets, in 32 bits, the count
      of its own client's packets since that client's last gap; no other client matters. */
  lemma NumbersRefineHistory(history: seq<Arrival>, id: Id, now: Time)
    ensures Number(ServedAll(history), id, now) == (RunLength(Times(history, id) + [now]) - 1) % WORD
  {
    MapsRefineHistory(history, id);
    NumberIsRun(ServedAll(history), Times(history, id), id, now);
  }
}
