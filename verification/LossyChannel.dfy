/** A one-way channel that keeps the order of packets, may lose any of them and duplicates none. */
module LossyChannel {

  /** The packets are numbered by the sender. `queue` is in flight; `floor` is just past the last
      packet delivered. */
  datatype Channel = Channel(sent: nat, queue: seq<nat>, delivered: nat, lost: set<nat>, floor: nat)

  const EMPTY := Channel(0, [], 0, {}, 0)

  function Send(c: Channel): Channel {
    c.(sent := c.sent + 1, queue := c.queue + [c.sent])
  }

  function Lose(c: Channel, i: nat): Channel {
    if i >= |c.queue| then c
    else c.(queue := c.queue[..i] + c.queue[i + 1..], lost := c.lost + {c.queue[i]})
  }

  function Deliver(c: Channel): Channel {
    if c.queue == [] then c
    else c.(queue := c.queue[1..], delivered := c.delivered + 1, floor := c.queue[0] + 1)
  }

  /** The lost packets that were sent before packet `n`. */
  function LostBefore(c: Channel, n: nat): set<nat> {
    set x | x in c.lost && x < n
  }

  /** Everything before a packet in flight was delivered, is in flight ahead of it, or is lost. */
  ghost predicate Consistent(c: Channel) {
    (forall i :: 0 <= i < |c.queue| ==> c.floor <= c.queue[i] < c.sent) &&
    (forall i, j :: 0 <= i < j < |c.queue| ==> c.queue[i] < c.queue[j]) &&
    (forall x :: x in c.lost ==> x < c.sent && x !in c.queue) &&
    c.floor <= c.sent &&
    |c.lost| + c.delivered + |c.queue| == c.sent &&
    (forall i :: 0 <= i < |c.queue| ==> |LostBefore(c, c.queue[i])| + c.delivered + i == c.queue[i])
  }

  lemma EmptyConsistent()
    ensures Consistent(EMPTY)
  {
  }

  lemma LostBeforeAll(c: Channel, n: nat)
    requires forall x :: x in c.lost ==> x < n
    ensures LostBefore(c, n) == c.lost
  {
  }

  lemma SendConsistent(c: Channel)
    requires Consistent(c)
    ensures Consistent(Send(c))
  {
    var d := Send(c);
    LostBeforeAll(d, c.sent);
    forall i | 0 <= i < |d.queue| ensures |LostBefore(d, d.queue[i])| + d.delivered + i == d.queue[i] {
      if i < |c.queue| {
        assert LostBefore(d, d.queue[i]) == LostBefore(c, c.queue[i]);
      }
    }
  }

  lemma LostBeforeLose(c: Channel, i: nat, n: nat)
    requires Consistent(c) && i < |c.queue|
    ensures n <= c.queue[i] ==> LostBefore(Lose(c, i), n) == LostBefore(c, n)
    ensures n > c.queue[i] ==> |LostBefore(Lose(c, i), n)| == |LostBefore(c, n)| + 1
  {
    var x := c.queue[i];
    if n > x {
      assert LostBefore(Lose(c, i), n) == LostBefore(c, n) + {x};
      assert x !in LostBefore(c, n);
    } else {
      assert LostBefore(Lose(c, i), n) == LostBefore(c, n);
    }
  }

  /** What stays in flight, and the size of what is lost. */
  lemma LoseOrder(c: Channel, i: nat)
    requires Consistent(c) && i < |c.queue|
    ensures var d := Lose(c, i);
            (forall j :: 0 <= j < |d.queue| ==> d.queue[j] == c.queue[if j < i then j else j + 1]) &&
            c.queue[i] !in d.queue && |d.lost| == |c.lost| + 1
  {
    hide LostBefore;
    assert c.queue[i] in c.queue;
  }

  lemma LoseConsistent(c: Channel, i: nat)
    requires Consistent(c)
    ensures Consistent(Lose(c, i))
  {
    hide LostBefore;
    if i < |c.queue| {
      var d := Lose(c, i);
      LoseOrder(c, i);
      forall j | 0 <= j < |d.queue| ensures |LostBefore(d, d.queue[j])| + d.delivered + j == d.queue[j] {
        LostBeforeLose(c, i, d.queue[j]);
      }
    }
  }

  /** The packet delivered has exactly as many losses before it as its number exceeds the count of
      deliveries before it. */
  lemma DeliverConsistent(c: Channel)
    requires Consistent(c)
    ensures Consistent(Deliver(c))
    ensures c.queue != [] ==> |LostBefore(c, c.queue[0])| + c.delivered == c.queue[0]
  {
    if c.queue != [] {
      var d := Deliver(c);
      forall j | 0 <= j < |d.queue| ensures |LostBefore(d, d.queue[j])| + d.delivered + j == d.queue[j] {
        assert d.queue[j] == c.queue[j + 1];
        assert LostBefore(d, d.queue[j]) == LostBefore(c, c.queue[j + 1]);
      }
    }
  }

  /** Nothing that happens later changes what was lost before a packet already delivered. */
  lemma LostBeforeStable(c: Channel, i: nat, n: nat)
    requires Consistent(c) && n <= c.floor
    ensures LostBefore(Send(c), n) == LostBefore(c, n)
    ensures LostBefore(Lose(c, i), n) == LostBefore(c, n)
    ensures LostBefore(Deliver(c), n) == LostBefore(c, n)
  {
    if i < |c.queue| {
      LostBeforeLose(c, i, n);
    }
  }

  lemma LostBeforeMono(c: Channel, a: nat, b: nat)
    requires a <= b
    ensures |LostBefore(c, a)| <= |LostBefore(c, b)|
  {
    SubsetSize(LostBefore(c, a), LostBefore(c, b));
  }

  lemma {:induction false} SubsetSize(a: set<nat>, b: set<nat>)
    requires a <= b
    ensures |a| <= |b|
  {
    if a != {} {
      var x :| x in a;
      SubsetSize(a - {x}, b - {x});
    }
  }
}
