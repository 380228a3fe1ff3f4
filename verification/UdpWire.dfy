/** The byte layout shared by the probe, the server and the measuring side of
    udp_ts_seq_reply.cpp. */
module UdpWire {
  import opened Numbers
  import opened Timespec
  import opened UdpServer

  const IP_MASK: seq<Byte> := [0x44, 0x55, 0x66, 0x77]
  const PORT_MASK: seq<Byte> := [0x88, 0x99]
  const SIGNATURE: seq<Byte> := [110, 85, 84, 115]   // "nUTs"
  const LONGWORD: int := 0x1_0000_0000_0000_0000

  type Word = n: int | 0 <= n < 0x1_0000_0000

  // ---------- numbers in network byte order ----------

  function Put32(n: Word): (r: seq<Byte>)
    ensures |r| == 4
  {
    [n / 0x100_0000, n / 0x1_0000 % 256, n / 0x100 % 256, n % 256]
  }

  function Get32(s: seq<Byte>): Word
    requires |s| == 4
  {
    s[0] as int * 0x100_0000 + s[1] as int * 0x1_0000 + s[2] as int * 0x100 + s[3]
  }

  lemma Get32Put32(n: Word)
    ensures Get32(Put32(n)) == n
  {
    assert n / 0x1_0000 == n / 0x100_0000 * 256 + n / 0x1_0000 % 256;
    assert n / 0x100 == n / 0x1_0000 * 256 + n / 0x100 % 256;
    assert n == n / 0x100 * 256 + n % 256;
  }

  /** Network byte order: the most significant byte comes first. */
  lemma Put32Digits(n: Word)
    ensures BigEndian(Put32(n)) == n
  {
    FourDigits(Put32(n));
    hide BigEndian;
    Get32Put32(n);
  }

  /** The two's-complement pattern of a 64-bit number, and the number of a pattern. */
  function Pattern(sec: int): (r: nat)
    ensures r < LONGWORD
  {
    sec % LONGWORD
  }

  function Signed(p: nat): int {
    if p >= LONGWORD / 2 then p - LONGWORD else p
  }

  predicate Fits64(sec: int) {
    -(LONGWORD / 2) <= sec < LONGWORD / 2
  }

  lemma SignedPattern(sec: int)
    requires Fits64(sec)
    ensures Signed(Pattern(sec)) == sec
  {
    if sec < 0 {
      assert Pattern(sec) == sec + LONGWORD;
    }
  }

  /** A time as the senders write it: high word, low word, nanoseconds. */
  function PutTime(t: Time): (r: seq<Byte>)
    ensures |r| == 12
  {
    Put32(Pattern(t.sec) / WORD) + Put32(Pattern(t.sec) % WORD) + Put32(t.nsec % WORD)
  }

  function GetTime(s: seq<Byte>): Time
    requires |s| == 12
  {
    Time(Signed(Get32(s[0..4]) * WORD + Get32(s[4..8])), Get32(s[8..12]))
  }

  lemma GetTimePutTime(t: Time)
    requires Fits64(t.sec) && 0 <= t.nsec < WORD
    ensures GetTime(PutTime(t)) == t
  {
    hide Get32, Put32, Pattern, Signed;
    var s, p := PutTime(t), Pattern(t.sec);
    assert s[0..4] == Put32(p / WORD) && s[4..8] == Put32(p % WORD) && s[8..12] == Put32(t.nsec % WORD);
    Get32Put32(p / WORD);
    Get32Put32(p % WORD);
    Get32Put32(t.nsec % WORD);
    SignedPattern(t.sec);
  }

  /** The bytes `s` are a time as the protocol has it: 64 bits of seconds, high word first, then 32
      bits of nanoseconds. */
  ghost predicate IsTime(s: seq<Byte>, t: Time) {
    |s| == 12 &&
    BigEndian(s[0..4]) * 0x1_0000_0000 + BigEndian(s[4..8]) == t.sec % 0x1_0000_0000_0000_0000 &&
    BigEndian(s[8..12]) == t.nsec % 0x1_0000_0000
  }

  lemma PutTimeDigits(t: Time)
    ensures IsTime(PutTime(t), t)
  {
    hide BigEndian, Put32, Pattern;
    var s, p := PutTime(t), Pattern(t.sec);
    assert s[0..4] == Put32(p / WORD) && s[4..8] == Put32(p % WORD) && s[8..12] == Put32(t.nsec % WORD);
    Put32Digits(p / WORD);
    Put32Digits(p % WORD);
    Put32Digits(t.nsec % WORD);
    PatternIs(t.sec);
  }

  lemma PatternIs(sec: int)
    ensures Pattern(sec) == sec % 0x1_0000_0000_0000_0000
  {
  }

  // ---------- masked address and port ----------

  /** XOR of the low `bits` bits. */
  function XorBits(a: nat, b: nat, bits: nat): nat {
    if bits == 0 then 0 else (a + b) % 2 + 2 * XorBits(a / 2, b / 2, bits - 1)
  }

  lemma {:induction false} XorBitsTwice(a: nat, b: nat, bits: nat)
    requires a < Pow2(bits)
    ensures XorBits(a, b, bits) < Pow2(bits)
    ensures XorBits(XorBits(a, b, bits), b, bits) == a
  {
    if bits != 0 {
      XorBitsTwice(a / 2, b / 2, bits - 1);
      var x, rest := XorBits(a, b, bits), XorBits(a / 2, b / 2, bits - 1);
      Halves(a, b, rest, x);
    }
  }

  lemma Halves(a: nat, b: nat, rest: nat, x: nat)
    requires x == (a + b) % 2 + 2 * rest
    ensures x / 2 == rest && (x + b) % 2 == a % 2 && a == a % 2 + 2 * (a / 2)
  {
  }

  function XorByte(a: Byte, b: Byte): Byte {
    assert Pow2(8) == 256 by {
      assert Pow2(4) == 16;
    }
    XorBitsTwice(a, b, 8);
    XorBits(a, b, 8)
  }

  lemma XorByteTwice(a: Byte, b: Byte)
    ensures XorByte(XorByte(a, b), b) == a
  {
    assert Pow2(8) == 256 by {
      assert Pow2(4) == 16;
    }
    XorBitsTwice(a, b, 8);
  }

  /** The i-th bit of a number. */
  function BitOf(n: nat, i: nat): nat {
    if i == 0 then n % 2 else BitOf(n / 2, i - 1)
  }

  lemma LowBit(a: nat, b: nat, rest: nat)
    ensures ((a + b) % 2 + 2 * rest) / 2 == rest
    ensures ((a + b) % 2 + 2 * rest) % 2 == (a % 2 + b % 2) % 2
  {
  }

  lemma {:induction false} XorBitsAre(a: nat, b: nat, bits: nat, i: nat)
    requires i < bits
    ensures BitOf(XorBits(a, b, bits), i) == (BitOf(a, i) + BitOf(b, i)) % 2
  {
    var x, rest := XorBits(a, b, bits), XorBits(a / 2, b / 2, bits - 1);
    assert x == (a + b) % 2 + 2 * rest;
    LowBit(a, b, rest);
    hide XorBits;
    if i > 0 {
      XorBitsAre(a / 2, b / 2, bits - 1, i - 1);
      assert BitOf(x, i) == BitOf(rest, i - 1);
    }
  }

  /** The exclusive or, bit by bit. */
  lemma XorByteBits(a: Byte, b: Byte, i: nat)
    requires i < 8
    ensures BitOf(XorByte(a, b), i) == (BitOf(a, i) + BitOf(b, i)) % 2
  {
    XorBitsAre(a, b, 8, i);
  }

  lemma XorByteZero(b: Byte)
    ensures XorByte(b, b) == 0
  {
    XorByteTwice(0, b);
    XorZero(b, 8);
  }

  lemma {:induction false} XorZero(b: nat, bits: nat)
    requires b < Pow2(bits)
    ensures XorBits(0, b, bits) == b
  {
    if bits != 0 {
      XorZero(b / 2, bits - 1);
    }
  }

  /** Where a packet came from: an IPv4 address and port, both in network byte order, or something
      else. */
  datatype Peer = Inet(addr: seq<Byte>, port: seq<Byte>) | Other {
    predicate Valid() {
      Inet? ==> |addr| == 4 && |port| == 2
    }
  }

  function Masked(s: seq<Byte>, mask: seq<Byte>): (r: seq<Byte>)
    requires |s| == |mask|
    ensures |r| == |s|
  {
    seq(|s|, i requires 0 <= i < |s| => XorByte(s[i], mask[i]))
  }

  lemma MaskedTwice(s: seq<Byte>, mask: seq<Byte>)
    requires |s| == |mask|
    ensures Masked(Masked(s, mask), mask) == s
  {
    forall i | 0 <= i < |s| ensures XorByte(XorByte(s[i], mask[i]), mask[i]) == s[i] {
      XorByteTwice(s[i], mask[i]);
    }
  }

  function PutPeer(peer: Peer): (r: seq<Byte>)
    requires peer.Valid()
    ensures |r| == 6
  {
    match peer
    case Inet(addr, port) => Masked(addr, IP_MASK) + Masked(port, PORT_MASK)
    case Other => IP_MASK + PORT_MASK
  }

  /** The bytes `s` are the peer as the protocol has it: address and port, or zeros, each bit turned
      where the mask 44 55 66 77 88 99 has one. */
  ghost predicate IsPeer(s: seq<Byte>, peer: Peer) {
    var plain: seq<Byte> := if peer.Inet? then peer.addr + peer.port else [0, 0, 0, 0, 0, 0];
    var mask: seq<Byte> := [0x44, 0x55, 0x66, 0x77, 0x88, 0x99];
    |s| == |plain| == 6 &&
    forall i, j: nat :: 0 <= i < 6 && j < 8 ==> BitOf(s[i], j) == (BitOf(plain[i], j) + BitOf(mask[i], j)) % 2
  }

  lemma {:induction false} BitOfZero(j: nat)
    ensures BitOf(0, j) == 0
  {
    if j > 0 {
      BitOfZero(j - 1);
    }
  }

  lemma {:induction false} BitOfBit(n: nat, j: nat)
    ensures BitOf(n, j) < 2
  {
    if j > 0 {
      BitOfBit(n / 2, j - 1);
    }
  }

  lemma PutPeerBits(peer: Peer)
    requires peer.Valid()
    ensures IsPeer(PutPeer(peer), peer)
  {
    var s := PutPeer(peer);
    var mask: seq<Byte> := [0x44, 0x55, 0x66, 0x77, 0x88, 0x99];
    var plain: seq<Byte> := if peer.Inet? then peer.addr + peer.port else [0, 0, 0, 0, 0, 0];
    assert mask == IP_MASK + PORT_MASK;
    assert peer.Inet? ==> forall i :: 0 <= i < 6 ==> s[i] == XorByte(plain[i], mask[i]);
    hide BitOf, PutPeer, XorByte;
    forall i, j: nat | 0 <= i < 6 && j < 8
      ensures BitOf(s[i], j) == (BitOf(plain[i], j) + BitOf(mask[i], j)) % 2
    {
      if peer.Inet? {
        XorByteBits(plain[i], mask[i], j);
      } else {
        BitOfZero(j);
        BitOfBit(mask[i], j);
      }
    }
  }

  // ---------- packets ----------

  /** The packet of the probe: id, signature, send time, number, and zeros up to its length. */
  function Ping(id: Id, at: Time, number: Word, len: nat): (r: seq<Byte>)
    requires len >= 24
    ensures |r| == len
  {
    id + SIGNATURE + PutTime(at) + Put32(number) + seq(len - 24, _ => 0)
  }

  /** Packets of the new kind carry the signature after the id. */
  predicate WantsPeer(packet: seq<Byte>) {
    |packet| >= 8 && packet[4..8] == SIGNATURE
  }

  /** The id the server files a packet under; all short packets share one. */
  function IdOf(packet: seq<Byte>): Id {
    if |packet| >= 4 then packet[..4] else [0, 0, 0, 0]
  }

  /** The server's reply: its time, the client's number, the masked peer if asked for, the packet. */
  function Reply(packet: seq<Byte>, peer: Peer, now: Time, number: Word): seq<Byte>
    requires peer.Valid()
  {
    PutTime(now) + Put32(number) + (if WantsPeer(packet) then PutPeer(peer) else []) + packet
  }

  /** A packet of the probe, field by field. */
  lemma PingLayout(id: Id, at: Time, number: Word, len: nat)
    requires len >= 24
    ensures var s := Ping(id, at, number, len);
            s[0..4] == id && s[4..8] == [110, 85, 84, 115] && IsTime(s[8..20], at) &&
            BigEndian(s[20..24]) == number && forall i :: 24 <= i < len ==> s[i] == 0
  {
    hide IsTime, BigEndian, Put32, PutTime;
    var s := Ping(id, at, number, len);
    assert s[8..20] == PutTime(at) && s[20..24] == Put32(number);
    PutTimeDigits(at);
    Put32Digits(number);
  }

  /** A reply, field by field, to any packet: the server's time and number, then, only if the packet
      has the signature "nUTs" after its id, the masked peer, and then the packet as it came. */
  ghost predicate IsReply(s: seq<Byte>, packet: seq<Byte>, peer: Peer, now: Time, number: nat) {
    var asked := |packet| >= 8 && packet[4..8] == [110, 85, 84, 115];
    |s| == |packet| + (if asked then 22 else 16) && IsTime(s[0..12], now) && BigEndian(s[12..16]) == number &&
    s[|s| - |packet|..] == packet && (asked ==> IsPeer(s[16..22], peer))
  }

  lemma ReplyMeans(packet: seq<Byte>, peer: Peer, now: Time, number: Word)
    requires peer.Valid()
    ensures IsReply(Reply(packet, peer, now, number), packet, peer, now, number)
  {
    hide IsTime, BigEndian, Put32, PutTime, IsPeer, PutPeer;
    var s := Reply(packet, peer, now, number);
    assert s[0..12] == PutTime(now) && s[12..16] == Put32(number);
    assert WantsPeer(packet) ==> s[16..22] == PutPeer(peer);
    PutTimeDigits(now);
    Put32Digits(number);
    PutPeerBits(peer);
  }

  /** The bytes of one packet. */
  lemma PingExample()
    ensures Ping([1, 2, 3, 4], Time(0x1_0000_0002, 3), 0x0A0B_0C0D, 26)
         == [1, 2, 3, 4, 110, 85, 84, 115, 0, 0, 0, 1, 0, 0, 0, 2, 0, 0, 0, 3, 10, 11, 12, 13, 0, 0]
  {
  }

  lemma FrontExample()
    ensures PutTime(Time(7, 8)) + Put32(9) == [0, 0, 0, 0, 0, 0, 0, 7, 0, 0, 0, 8, 0, 0, 0, 9]
  {
    assert Put32(0) == [0, 0, 0, 0] && Put32(7) == [0, 0, 0, 7] && Put32(8) == [0, 0, 0, 8];
    assert Pattern(7) == 7 && Put32(9) == [0, 0, 0, 9];
    hide Put32, Pattern;
  }

  lemma PeerExample()
    ensures PutPeer(Inet([0x44, 0, 0x66, 0], [0x88, 0])) == [0, 0x55, 0, 0x77, 0, 0x99]
  {
    XorByteZero(0x44);
    XorByteZero(0x66);
    XorByteZero(0x88);
    XorWithZero(0x55);
    XorWithZero(0x77);
    XorWithZero(0x99);
    hide XorByte;
  }

  lemma XorWithZero(b: Byte)
    ensures XorByte(0, b) == b
  {
    assert Pow2(8) == 256 by {
      assert Pow2(4) == 16;
    }
    XorZero(b, 8);
  }

  /** The bytes of two replies from 7 seconds and 8 nanoseconds with number 9 to 68.0.102.0, port 34816:
      to a packet that asks for the address, and to one that does not. */
  lemma ReplyExample()
    ensures var peer, now := Inet([0x44, 0, 0x66, 0], [0x88, 0]), Time(7, 8);
            Reply([1, 2, 3, 4, 110, 85, 84, 115], peer, now, 9)
              == [0, 0, 0, 0, 0, 0, 0, 7, 0, 0, 0, 8, 0, 0, 0, 9] + [0, 0x55, 0, 0x77, 0, 0x99] +
                 [1, 2, 3, 4, 110, 85, 84, 115] &&
            Reply([1, 2, 3, 4, 5, 6, 7, 8], peer, now, 9)
              == [0, 0, 0, 0, 0, 0, 0, 7, 0, 0, 0, 8, 0, 0, 0, 9] + [1, 2, 3, 4, 5, 6, 7, 8]
  {
    var asking, plain: seq<Byte> := [1, 2, 3, 4, 110, 85, 84, 115], [1, 2, 3, 4, 5, 6, 7, 8];
    assert asking[4..8] == SIGNATURE;
    assert plain[4..8][0] == 5;
    assert WantsPeer(asking) && !WantsPeer(plain);
    FrontExample();
    PeerExample();
    hide WantsPeer, PutTime, Put32, PutPeer;
  }

  /** What the measuring side reads out of a reply. `port` is computed from chars, which may be
      signed. */
  datatype Info = Info(id: Id, ts1: Time, ts2: Time, seq1: Word, seq2: Word, ip: seq<Byte>, port: nat)

  /** A byte after the integer promotion of a char. */
  function Promoted(b: Byte, signedChar: bool): int {
    if signedChar && b >= 128 then b - 256 else b
  }

  /** The cast to unsigned short. */
  function Short(n: int): nat {
    n % 0x1_0000
  }

  function PortOf(high: Byte, low: Byte, signedChar: bool): nat {
    Short(Short(Promoted(XorByte(high, PORT_MASK[0]), signedChar)) * 256 +
          Short(Promoted(XorByte(low, PORT_MASK[1]), signedChar)))
  }

  function Decode(s: seq<Byte>, signedChar: bool): Info
    requires |s| >= 46
  {
    Info(s[22..26], GetTime(s[30..42]), GetTime(s[0..12]), Get32(s[42..46]), Get32(s[12..16]),
         Masked(s[16..20], IP_MASK), PortOf(s[20], s[21], signedChar))
  }

  /** The numbers a time may have on the wire. */
  predicate Sendable(t: Time) {
    Fits64(t.sec) && 0 <= t.nsec < WORD
  }

  /** The places of the fields in a reply to a probe. */
  lemma ReplyLayout(id: Id, sent: Time, seq1: Word, len: nat, peer: Peer, now: Time, seq2: Word)
    requires len >= 24 && peer.Valid()
    ensures var s := Reply(Ping(id, sent, seq1, len), peer, now, seq2);
            |s| == len + 22 &&
            s[0..12] == PutTime(now) && s[12..16] == Put32(seq2) && s[16..22] == PutPeer(peer) &&
            s[22..26] == id && s[30..42] == PutTime(sent) && s[42..46] == Put32(seq1)
  {
    var ping := Ping(id, sent, seq1, len);
    assert ping[4..8] == SIGNATURE;
    assert ping[0..4] == id && ping[8..20] == PutTime(sent) && ping[20..24] == Put32(seq1);
    assert WantsPeer(ping);
    hide Ping, WantsPeer, PutTime, Put32, PutPeer;
    var s := Reply(ping, peer, now, seq2);
    assert s == PutTime(now) + Put32(seq2) + PutPeer(peer) + ping;
    assert s[0..12] == PutTime(now) && s[12..16] == Put32(seq2) && s[16..22] == PutPeer(peer);
    assert s[22..] == ping;
    assert s[22..26] == s[22..][0..4] && s[30..42] == s[22..][8..20] && s[42..46] == s[22..][20..24];
  }

  /** The wire round trip: everything the three parties write comes back as it was, for all times,
      numbers and ids. */
  lemma WireRoundTrip(id: Id, sent: Time, seq1: Word, len: nat, peer: Peer, now: Time, seq2: Word,
                      signedChar: bool)
    requires len >= 24 && peer.Valid() && Sendable(sent) && Sendable(now)
    ensures var i := Decode(Reply(Ping(id, sent, seq1, len), peer, now, seq2), signedChar);
            i.id == id && i.ts1 == sent && i.ts2 == now && i.seq1 == seq1 && i.seq2 == seq2 &&
            i.ip == if peer.Inet? then peer.addr else [0, 0, 0, 0]
  {
    ReplyLayout(id, sent, seq1, len, peer, now, seq2);
    GetTimePutTime(sent);
    GetTimePutTime(now);
    Get32Put32(seq1);
    Get32Put32(seq2);
    var s := Reply(Ping(id, sent, seq1, len), peer, now, seq2);
    assert s[16..20] == s[16..22][0..4];
    match peer
    case Inet(addr, port) =>
      assert PutPeer(peer)[0..4] == Masked(addr, IP_MASK);
      MaskedTwice(addr, IP_MASK);
    case Other =>
      assert PutPeer(peer)[0..4] == IP_MASK;
      forall i | 0 <= i < 4 ensures XorByte(IP_MASK[i], IP_MASK[i]) == 0 {
        XorByteZero(IP_MASK[i]);
      }
  }

  /** The port in network byte order. */
  function Port(s: seq<Byte>): nat
    requires |s| == 2
  {
    s[0] as int * 256 + s[1]
  }

  /** The port comes back exact, except that with signed chars it is 256 too small, modulo 2^16,
      when its low byte is 128 or more. */
  lemma PortRoundTrip(id: Id, sent: Time, seq1: Word, len: nat, addr: seq<Byte>, port: seq<Byte>, now: Time,
                      seq2: Word, signedChar: bool)
    requires len >= 24 && |addr| == 4 && |port| == 2
    ensures Decode(Reply(Ping(id, sent, seq1, len), Inet(addr, port), now, seq2), signedChar).port
         == if signedChar && port[1] >= 128 then Short(Port(port) - 256) else Port(port)
  {
    hide PutTime, Put32, Reply, Ping, Short, Promoted, GetTime, Get32, XorByte;
    var peer := Inet(addr, port);
    ReplyLayout(id, sent, seq1, len, peer, now, seq2);
    var s := Reply(Ping(id, sent, seq1, len), peer, now, seq2);
    assert s[20] == s[16..22][4] && s[21] == s[16..22][5];
    XorByteTwice(port[0], PORT_MASK[0]);
    XorByteTwice(port[1], PORT_MASK[1]);
    ShortPort(port[0], port[1], signedChar);
  }

  lemma ShortPromoted(b: Byte, signedChar: bool)
    ensures Short(Promoted(b, signedChar)) == if signedChar && b >= 128 then b as int + 0xFF00 else b as int
  {
    var n := Promoted(b, signedChar);
    if n < 0 {
      assert Short(n) == n + 0x1_0000;
    }
  }

  lemma ShortSum(high: Byte, low: Byte, a: nat, b: nat)
    requires a == high as int || a == high as int + 0xFF00
    ensures b == low as int ==> Short(a * 256 + b) == high as int * 256 + low
    ensures b == low as int + 0xFF00 ==> Short(a * 256 + b) == Short(high as int * 256 + low - 256)
  {
    var base := high as int * 256 + b;
    var k := if a == high as int then 0 else 0xFF;
    assert a * 256 + b == base + k * 0x1_0000;
    ShortMore(base, k);
    if b == low as int + 0xFF00 {
      ShortMore(high as int * 256 + low - 256, 1);
    }
  }

  lemma ShortMore(n: int, k: nat)
    ensures Short(n + k * 0x1_0000) == Short(n)
  {
  }

  lemma ShortPort(high: Byte, low: Byte, signedChar: bool)
    ensures Short(Short(Promoted(high, signedChar)) * 256 + Short(Promoted(low, signedChar)))
         == if signedChar && low >= 128 then Short(high as int * 256 + low - 256) else high as int * 256 + low
  {
    hide Short, Promoted;
    ShortPromoted(high, signedChar);
    ShortPromoted(low, signedChar);
    ShortSum(high, low, Short(Promoted(high, signedChar)), Short(Promoted(low, signedChar)));
  }

  /** With signed chars port 8080 is reported as 7824. */
  lemma PortExample(id: Id, sent: Time, addr: seq<Byte>, now: Time)
    requires |addr| == 4
    ensures Port([0x1F, 0x90]) == 8080
    ensures Decode(Reply(Ping(id, sent, 0, 24), Inet(addr, [0x1F, 0x90]), now, 0), true).port == 7824
  {
    var port := [0x1F, 0x90];
    assert Port(port) == 8080 && Short(Port(port) - 256) == 7824;
    hide Decode, Reply, Ping, Port, Short;
    PortRoundTrip(id, sent, 0, 24, addr, port, now, 0, true);
  }

  // ---------- the fields of a packet, whatever else is in it ----------

  /** What recvfrom leaves room for. */
  const MAX_PACKET: nat := 65514

  function Clipped(arrived: seq<Byte>): (packet: seq<Byte>)
    ensures |packet| <= MAX_PACKET
  {
    if |arrived| > MAX_PACKET then arrived[..MAX_PACKET] else arrived
  }

  /** A packet of the probe with this id, send time and number. */
  predicate IsPing(packet: seq<Byte>, id: Id, at: Time, number: Word) {
    |packet| >= 24 && packet[0..4] == id && packet[4..8] == SIGNATURE && packet[8..20] == PutTime(at) &&
    packet[20..24] == Put32(number)
  }

  lemma PingIs(id: Id, at: Time, number: Word, len: nat)
    requires len >= 24
    ensures IsPing(Ping(id, at, number, len), id, at, number)
  {
    hide PutTime, Put32;
  }

  /** The server files such a packet under its id, even if it has cut it, and its reply gives the
      measuring side id, both numbers and, as far as they fit the wire, both times. */
  lemma PacketRoundTrip(packet: seq<Byte>, id: Id, sent: Time, seq1: Word, peer: Peer, now: Time, seq2: Word,
                        signedChar: bool)
    requires IsPing(packet, id, sent, seq1) && peer.Valid()
    ensures IdOf(Clipped(packet)) == id
    ensures var s := Reply(Clipped(packet), peer, now, seq2);
            |s| >= 46 &&
            var i := Decode(s, signedChar);
            i.id == id && i.seq1 == seq1 && i.seq2 == seq2 &&
            (Sendable(sent) ==> i.ts1 == sent) && (Sendable(now) ==> i.ts2 == now)
  {
    hide PutTime, Put32, PutPeer, Get32, GetTime, PortOf, Masked;
    var p := Clipped(packet);
    assert IsPing(p, id, sent, seq1);
    var s := Reply(p, peer, now, seq2);
    assert s[0..12] == PutTime(now) && s[12..16] == Put32(seq2);
    assert s[22..] == p;
    assert s[22..26] == s[22..][0..4] && s[30..42] == s[22..][8..20] && s[42..46] == s[22..][20..24];
    Get32Put32(seq1);
    Get32Put32(seq2);
    if Sendable(sent) {
      GetTimePutTime(sent);
    }
    if Sendable(now) {
      GetTimePutTime(now);
    }
  }
}
