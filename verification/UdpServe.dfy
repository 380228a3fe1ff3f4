/** serve1 of udp_ts_seq_reply.cpp: one packet in, one reply out, in one buffer. */
module UdpServe {
  import opened Numbers
  import opened Timespec
  import opened UdpServer
  import opened UdpWire

  const BUFSIZE: nat := 65536

  /** memcpy of a few bytes into the buffer. */
  method Put(buf: array<Byte>, at: nat, bytes: seq<Byte>)
    requires at + |bytes| <= buf.Length
    modifies buf
    ensures buf[..at + |bytes|] == old(buf[..at]) + bytes
    ensures forall i :: at + |bytes| <= i < buf.Length ==> buf[i] == old(buf[i])
  {
    forall i | 0 <= i < |bytes| {
      buf[at + i] := bytes[i];
    }
  }

  /** memmove of the first `len` bytes to `to`. */
  method Memmove(buf: array<Byte>, to: nat, len: nat)
    requires to + len <= buf.Length
    modifies buf
    ensures buf[to..][..len] == old(buf[..len])
  {
    forall i | 0 <= i < len {
      buf[to + i] := buf[i];
    }
  }

  /** The loop that masks `bytes` into the buffer. */
  method PutMasked(buf: array<Byte>, at: nat, bytes: seq<Byte>, mask: seq<Byte>)
    requires |bytes| == |mask| && at + |bytes| <= buf.Length
    modifies buf
    ensures buf[..at + |bytes|] == old(buf[..at]) + Masked(bytes, mask)
    ensures forall i :: at + |bytes| <= i < buf.Length ==> buf[i] == old(buf[i])
  {
    var i := 0;
    while i < |bytes|
      invariant 0 <= i <= |bytes|
      invariant buf[..at + i] == old(buf[..at]) + Masked(bytes, mask)[..i]
      invariant forall j :: at + i <= j < buf.Length ==> buf[j] == old(buf[j])
    {
      buf[at + i] := XorByte(bytes[i], mask[i]);
      i := i + 1;
    }
  }

  /** Writes the fields in front of the packet. */
  method PutFields(buf: array<Byte>, now: Time, number: Word)
    requires buf.Length >= 16
    modifies buf
    ensures buf[..16] == PutTime(now) + Put32(number)
    ensures buf[16..] == old(buf[16..])
  {
    Put(buf, 0, Put32(Pattern(now.sec) / WORD));
    Put(buf, 4, Put32(Pattern(now.sec) % WORD));
    Put(buf, 8, Put32(now.nsec % WORD));
    Put(buf, 12, Put32(number));
    assert buf[16..] == old(buf[16..]);
  }

  method PutPeerAt16(buf: array<Byte>, peer: Peer)
    requires buf.Length >= 22 && peer.Valid()
    modifies buf
    ensures buf[..22] == old(buf[..16]) + PutPeer(peer)
    ensures buf[22..] == old(buf[22..])
  {
    match peer
    case Inet(addr, port) =>
      PutMasked(buf, 16, addr, IP_MASK);
      PutMasked(buf, 20, port, PORT_MASK);
    case Other =>
      Put(buf, 16, IP_MASK);
      Put(buf, 20, PORT_MASK);
  }

  class Server {
    var seqs: map<Id, nat>
    var lastseens: map<Id, Time>

    constructor ()
      ensures State() == EMPTY
    {
      seqs, lastseens := map[], map[];
    }

    ghost function State(): Maps
      reads this
    {
      Maps(seqs, lastseens)
    }

    /** All numbers fit 32 bits, and both maps know the same clients. */
    ghost predicate Valid()
      reads this
    {
      seqs.Keys == lastseens.Keys && forall id :: id in seqs ==> seqs[id] < WORD
    }

    /** A packet, of which at most 65514 bytes are taken from what arrived, is filed under its id and
        sent back with the fields in front. */
    method Serve1(arrived: seq<Byte>, peer: Peer, now: Time) returns (reply: seq<Byte>)
      requires Valid() && peer.Valid()
      modifies this
      ensures Valid()
      ensures var packet := if |arrived| > 65514 then arrived[..65514] else arrived;
              var id := if |packet| >= 4 then packet[..4] else [0, 0, 0, 0];
              var number := Number(old(State()), id, now);
              packet == Clipped(arrived) && id == IdOf(packet) &&
              State() == Served(old(State()), id, now) && number < WORD &&
              reply == Reply(packet, peer, now, number) && IsReply(reply, packet, peer, now, number)
    {
      hide Reply, Diff, IsReply, Clipped, IdOf;
      var packet := Clipped(arrived);
      var id := IdOf(packet);
      if id in lastseens {
        if Diff(lastseens[id], now).sec > 60 {
          seqs := seqs[id := 0];
        }
      } else {
        seqs := seqs[id := 0];
      }
      reply := BuildReply(packet, peer, now, seqs[id]);
      seqs := seqs[id := (seqs[id] + 1) % WORD];
      lastseens := lastseens[id := now];
      Filed(arrived);
    }
  }

  /** How much of what arrived is taken, and under which id it is filed. */
  lemma Filed(arrived: seq<Byte>)
    ensures var packet := if |arrived| > 65514 then arrived[..65514] else arrived;
            packet == Clipped(arrived) && IdOf(packet) == if |packet| >= 4 then packet[..4] else [0, 0, 0, 0]
  {
  }

  /** What the server puts in front of a packet. */
  function Front(now: Time, number: Word, peer: Peer, alsoPutIpPort: bool): (r: seq<Byte>)
    requires peer.Valid()
    ensures |r| == if alsoPutIpPort then 22 else 16
  {
    PutTime(now) + Put32(number) + if alsoPutIpPort then PutPeer(peer) else []
  }

  method PutFront(buf: array<Byte>, now: Time, number: Word, peer: Peer, alsoPutIpPort: bool)
    requires buf.Length >= 22 && peer.Valid()
    modifies buf
    ensures var n := if alsoPutIpPort then 22 else 16;
            buf[..n] == Front(now, number, peer, alsoPutIpPort) && buf[n..] == old(buf[n..])
  {
    hide PutTime, Put32, PutPeer;
    ghost var tail := buf[22..];
    PutFields(buf, now, number);
    assert buf[22..] == buf[16..][6..] == tail;
    if alsoPutIpPort {
      PutPeerAt16(buf, peer);
    }
  }

  /** The buffer work of serve1. */
  method BuildReply(packet: seq<Byte>, peer: Peer, now: Time, number: Word) returns (reply: seq<Byte>)
    requires |packet| <= MAX_PACKET && peer.Valid()
    ensures reply == Reply(packet, peer, now, number)
    ensures IsReply(reply, packet, peer, now, number)
  {
    ReplyMeans(packet, peer, now, number);
    var buf := new Byte[BUFSIZE](_ => 0);
    Put(buf, 0, packet);
    assert buf[..|packet|] == packet;
    var alsoPutIpPort := WantsPeer(packet);
    assert Reply(packet, peer, now, number) == Front(now, number, peer, alsoPutIpPort) + packet;
    hide Reply, Front, WantsPeer, IsReply;
    var front := if alsoPutIpPort then 22 else 16;
    Memmove(buf, front, |packet|);
    PutFront(buf, now, number, peer, alsoPutIpPort);
    reply := buf[..front + |packet|];
    Assemble(buf[..], front, |packet|);
  }

  lemma Assemble(s: seq<Byte>, front: nat, n: nat)
    requires front + n <= |s|
    ensures s[..front + n] == s[..front] + s[front..][..n]
  {
  }
}
