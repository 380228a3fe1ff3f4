/** The imperative part of bpg2hevc.c: reading lengths from the input and building the unit. */
module Bpg2hevc {
  import opened Numbers
  import opened Escape

  class Stdin {
    var data: seq<Byte>

    /** fgetc; -1 stands for EOF. */
    method Getc() returns (c: int)
      modifies this
      ensures if old(data) == [] then c == -1 && data == [] else c == old(data)[0] && data == old(data)[1..]
    {
      if data == [] {
        return -1;
      }
      c := data[0];
      data := data[1..];
    }
  }

  // ---------- ue7(32) ----------

  /** At most `left` bytes of seven bits, the high bit meaning that more follow, on top of the bits
      `acc` read so far: the number, in 32 bits, and the bytes left. */
  function Ue7(acc: nat, left: nat, s: seq<Byte>): (nat, seq<Byte>)
    decreases left
  {
    if left == 0 || s == [] then (acc, s)
    else
      var acc' := acc * 128 % WORD + s[0] % 128;
      if s[0] < 128 then (acc', s[1..]) else Ue7(acc', left - 1, s[1..])
  }

  method ReadUe7(input: Stdin) returns (n: nat)
    modifies input
    ensures (n, input.data) == Ue7(0, 5, old(input.data))
  {
    n := 0;
    var i := 0;
    while i < 5
      invariant 0 <= i <= 5
      invariant Ue7(n, 5 - i, input.data) == Ue7(0, 5, old(input.data))
    {
      var c := input.Getc();
      if c == -1 {
        return n;
      }
      n := n * 128 % WORD + c % 128;
      if c < 128 {
        return n;
      }
      i := i + 1;
    }
  }

  /** The number whose base-128 digits are the low seven bits of the bytes. */
  function Digits(s: seq<Byte>): nat {
    if s == [] then 0 else Digits(s[..|s| - 1]) * 128 + s[|s| - 1] % 128
  }

  lemma DigitInWord(n: nat, digit: nat)
    requires digit < 128
    ensures n % WORD * 128 % WORD + digit == (n * 128 + digit) % WORD
  {
    var r, half := n % WORD, WORD / 128;
    assert n == n / WORD * WORD + r;
    assert r == r / half * half + r % half;
    var low := r % half * 128 + digit;
    assert r * 128 == r / half * WORD + r % half * 128;
    assert n * 128 + digit == (n / WORD * 128 + r / half) * WORD + low;
    Remainder(r * 128, r / half, r % half * 128);
    Remainder(n * 128 + digit, n / WORD * 128 + r / half, low);
  }

  lemma Remainder(n: nat, q: nat, r: nat)
    requires n == q * WORD + r && r < WORD
    ensures n % WORD == r
  {
  }

  /** Where a number ends: at the first byte that is not marked, after five, or with the input. */
  ghost predicate Ends(s: seq<Byte>, k: nat, left: nat) {
    k <= left && k <= |s| && (forall i :: 0 <= i < k - 1 ==> s[i] >= 128) &&
    (k == left || k == |s| || (k > 0 && s[k - 1] < 128))
  }

  lemma EndsLater(s: seq<Byte>, k: nat, left: nat)
    requires s != [] && s[0] >= 128 && left > 0 && Ends(s[1..], k, left - 1)
    ensures Ends(s, k + 1, left)
  {
    assert forall i :: 1 <= i < |s| ==> s[i] == s[1..][i - 1];
  }

  lemma {:induction false} Ue7Takes(seen: seq<Byte>, left: nat, s: seq<Byte>)
    ensures var (n, rest) := Ue7(Digits(seen) % WORD, left, s);
            |rest| <= |s| &&
            var k := |s| - |rest|;
            rest == s[k..] && Ends(s, k, left) && n == Digits(seen + s[..k]) % WORD
    decreases left
  {
    if left == 0 || s == [] {
      assert seen + s[..0] == seen;
    } else {
      var more := seen + [s[0]];
      assert more[..|seen|] == seen;
      assert Digits(more) == Digits(seen) * 128 + s[0] % 128;
      DigitInWord(Digits(seen), s[0] % 128);
      if s[0] < 128 {
        assert s[..1] == [s[0]];
        assert Ends(s, 1, left);
      } else {
        hide Digits, Ends;
        Ue7Takes(more, left - 1, s[1..]);
        var k := |s[1..]| - |Ue7(Digits(more) % WORD, left - 1, s[1..]).1|;
        EndsLater(s, k, left);
        assert more + s[1..][..k] == seen + s[..k + 1];
        assert s[1..][k..] == s[k + 1..];
      }
    }
  }

  /** What a number is for every input, well-formed or not: at most `left` bytes, all but the last
      one marked, are taken from the front, and their digits count modulo 2^32. */
  lemma Ue7Meaning(left: nat, s: seq<Byte>)
    ensures var (n, rest) := Ue7(0, left, s);
            |rest| <= |s| &&
            var k := |s| - |rest|;
            rest == s[k..] && Ends(s, k, left) && n == Digits(s[..k]) % WORD
  {
    Ue7Takes([], left, s);
    assert Digits([]) % WORD == 0;
    hide Digits, Ends;
    var k := |s| - |Ue7(0, left, s).1|;
    assert [] + s[..k] == s[..k];
  }

  /** The shortest encoding of a number, all bytes but the last one marked. */
  function Ue7Bytes(n: nat): seq<Byte> {
    if n < 128 then [n] else Marked(n / 128) + [n % 128]
  }

  function Marked(n: nat): seq<Byte> {
    if n == 0 then [] else Marked(n / 128) + [128 + n % 128]
  }

  function Groups(n: nat): nat {
    if n == 0 then 0 else Groups(n / 128) + 1
  }

  lemma {:induction false} MarkedRead(n: nat, left: nat, tail: seq<Byte>)
    requires n < WORD && Groups(n) <= left
    ensures Ue7(0, left, Marked(n) + tail) == Ue7(n, left - Groups(n), tail)
  {
    if n == 0 {
      assert Marked(n) + tail == tail;
    } else {
      var next := [128 + n % 128] + tail;
      assert Marked(n) + tail == Marked(n / 128) + next;
      MarkedRead(n / 128, left, next);
      OneMarked(n / 128, n % 128, left - Groups(n / 128), tail);
    }
  }

  lemma OneMarked(acc: nat, digit: nat, left: nat, tail: seq<Byte>)
    requires digit < 128 && acc * 128 + digit < WORD && left > 0
    ensures Ue7(acc, left, [128 + digit] + tail) == Ue7(acc * 128 + digit, left - 1, tail)
  {
    var s := [128 + digit] + tail;
    assert s[1..] == tail && s[0] % 128 == digit;
    assert acc * 128 % WORD == acc * 128;
  }

  lemma LastOne(acc: nat, digit: nat, left: nat, tail: seq<Byte>)
    requires digit < 128 && acc * 128 + digit < WORD && left > 0
    ensures Ue7(acc, left, [digit] + tail) == (acc * 128 + digit, tail)
  {
    assert ([digit] + tail)[1..] == tail;
  }

  lemma FewGroups(n: nat)
    requires n < WORD / 128
    ensures Groups(n) <= 4
  {
    assert n / 128 / 128 / 128 / 128 == 0;
    assert Groups(n) <= 1 + Groups(n / 128);
    assert Groups(n / 128) <= 1 + Groups(n / 128 / 128);
    assert Groups(n / 128 / 128) <= 1 + Groups(n / 128 / 128 / 128);
    assert Groups(n / 128 / 128 / 128) <= 1 + Groups(n / 128 / 128 / 128 / 128);
  }

  /** Every 32-bit number is read back from its encoding, and nothing after it is consumed. */
  lemma Ue7RoundTrip(n: nat, rest: seq<Byte>)
    requires n < WORD
    ensures Ue7(0, 5, Ue7Bytes(n) + rest) == (n, rest)
  {
    if n < 128 {
      LastOne(0, n, 5, rest);
    } else {
      FewGroups(n / 128);
      MarkedRead(n / 128, 5, [n % 128] + rest);
      LastOne(n / 128, n % 128, 5 - Groups(n / 128), rest);
      assert Ue7Bytes(n) + rest == Marked(n / 128) + ([n % 128] + rest);
    }
  }

  // ---------- build_msps ----------

  /** The ten bytes put before the SPS data. */
  function Fields(width: nat, height: nat, chroma: Byte, depth: Byte): (r: seq<Byte>)
    ensures |r| == 10
  {
    [chroma,
     width / 0x100_0000 % 256, width / 0x1_0000 % 256, width / 0x100 % 256, width % 256,
     height / 0x100_0000 % 256, height / 0x1_0000 % 256, height / 0x100 % 256, height % 256,
     depth]
  }

  /** The picture size can be read back from the fields. */
  lemma FieldsReadBack(width: nat, height: nat, chroma: Byte, depth: Byte)
    requires width < WORD && height < WORD
    ensures var f := Fields(width, height, chroma, depth);
            f[0] == chroma && BigEndian(f[1..5]) == width && BigEndian(f[5..9]) == height && f[9] == depth
  {
    var f := Fields(width, height, chroma, depth);
    FourBytes(f[1..5], width);
    FourBytes(f[5..9], height);
  }

  lemma FourBytes(s: seq<Byte>, n: nat)
    requires n < WORD
    requires s == [n / 0x100_0000 % 256, n / 0x1_0000 % 256, n / 0x100 % 256, n % 256]
    ensures BigEndian(s) == n
  {
    FourDigits(s);
    hide BigEndian;
    assert n == n / 0x100 * 256 + n % 256;
    assert n / 0x100 == n / 0x1_0000 * 256 + n / 0x100 % 256;
    assert n / 0x1_0000 == n / 0x100_0000 * 256 + n / 0x1_0000 % 256;
  }

  /** fread into the buffer from `at` on; what the input lacks is left as it was. */
  method Fread(input: Stdin, buf: array<Byte>, at: nat, len: nat) returns (got: nat)
    requires at + len <= buf.Length
    modifies input, buf
    ensures got == if |old(input.data)| < len then |old(input.data)| else len
    ensures input.data == old(input.data)[got..]
    ensures buf[..] == old(buf[..at]) + old(input.data)[..got] + old(buf[at + got..])
  {
    got := if |input.data| < len then |input.data| else len;
    forall k | 0 <= k < got {
      buf[at + k] := input.data[k];
    }
    input.data := input.data[got..];
  }

  lemma EscapedPair(front: seq<Byte>, s: seq<Byte>, i: nat, all: seq<Byte>)
    requires i + 1 < |s| && s[i] == 0 && s[i + 1] == 0 && front + Escaped(s[i..]) == all
    ensures front + [0, 0, 3] + Escaped(s[i + 2..]) == all
  {
    assert s[i..][2..] == s[i + 2..];
    assert front + [0, 0, 3] + Escaped(s[i + 2..]) == front + ([0, 0, 3] + Escaped(s[i + 2..]));
  }

  lemma EscapedOne(front: seq<Byte>, s: seq<Byte>, i: nat, all: seq<Byte>)
    requires i < |s| && front + Escaped(s[i..]) == all
    requires !(i + 1 < |s| && s[i] == 0 && s[i + 1] == 0)
    ensures front + [s[i]] + Escaped(s[i + 1..]) == all
  {
    assert s[i..][1..] == s[i + 1..];
    assert front + [s[i]] + Escaped(s[i + 1..]) == front + ([s[i]] + Escaped(s[i + 1..]));
  }

  /** The loop that escapes `src` into `buf` from `start` on. */
  method EscapeInto(src: array<Byte>, buf: array<Byte>, start: nat, ghost s: seq<Byte>) returns (idx: nat)
    requires src != buf && buf.Length == start + 2 * src.Length && src[..] == s
    modifies buf
    ensures start <= idx <= buf.Length
    ensures buf[..idx] == old(buf[..start]) + Escaped(s)
  {
    idx := start;
    var i := 0;
    ghost var all := buf[..start] + Escaped(s);
    assert s[0..] == s;
    while i < src.Length
      invariant 0 <= i <= src.Length && start <= idx <= start + 2 * i
      invariant src[..] == s
      invariant buf[..idx] + Escaped(s[i..]) == all
    {
      ghost var before := buf[..idx];
      if i + 1 < src.Length && src[i] == 0 && src[i + 1] == 0 {
        EscapedPair(before, s, i, all);
        buf[idx], buf[idx + 1], buf[idx + 2] := 0, 0, 3;
        idx, i := idx + 3, i + 2;
        assert buf[..idx] == before + [0, 0, 3];
      } else {
        EscapedOne(before, s, i, all);
        buf[idx] := src[i];
        idx, i := idx + 1, i + 1;
        assert buf[..idx] == before + [s[i - 1]];
      }
    }
    assert Escaped(s[i..]) == [];
  }

  /** The unit of a payload in a buffer of its own. */
  method WriteUnit(src: array<Byte>, ghost s: seq<Byte>) returns (buf: array<Byte>, idx: nat)
    requires src[..] == s && |s| > 0
    ensures fresh(buf) && idx <= buf.Length && buf[..idx] == HEADER + Body(s)
  {
    buf := new Byte[6 + 2 * src.Length];
    forall k | 0 <= k < 6 {
      buf[k] := HEADER[k];
    }
    assert buf[..6] == HEADER;
    idx := EscapeInto(src, buf, 6, s);
    EscapedLength(s);
    assert |buf[..idx]| == 6 + |Escaped(s)|;
    ghost var unit := buf[..idx];
    LastOfAppend(HEADER, Escaped(s));
    assert EndsInZero(unit) <==> buf[idx - 1] == 0;
    if buf[idx - 1] == 0x00 {
      buf[idx] := 0x80;
      idx := idx + 1;
      assert buf[..idx] == unit + [0x80];
    }
    assert HEADER + Escaped(s) + [0x80] == HEADER + (Escaped(s) + [0x80]);
  }

  /** Reads the SPS data and returns the unit: header, escaped payload, closing byte if needed. The
      payload is whatever msps_buf holds, its first ten bytes being the fields; if the input is cut
      short, what there is of the SPS data comes next, and nothing is left of the input. */
  method BuildMsps(input: Stdin, width: nat, height: nat, chroma: Byte, depth: Byte)
    returns (buf: array<Byte>, idx: nat, ghost msps: seq<Byte>)
    modifies input
    ensures var (len, rest) := Ue7(0, 5, old(input.data));
            var got := if |rest| < len then |rest| else len;
            |msps| == 10 + len && msps[..10] == Fields(width, height, chroma, depth) &&
            msps[10..][..got] == rest[..got] && input.data == rest[got..]
    ensures fresh(buf) && idx <= buf.Length && buf[..idx] == HEADER + Body(msps)
  {
    var len := ReadUe7(input);
    var mspsBuf := new Byte[10 + len];
    var fields := Fields(width, height, chroma, depth);
    forall k | 0 <= k < 10 {
      mspsBuf[k] := fields[k];
    }
    var got := Fread(input, mspsBuf, 10, len);
    msps := mspsBuf[..];
    buf, idx := WriteUnit(mspsBuf, msps);
  }

  /** The end of main: the rest of the input is copied byte by byte. */
  method CopyRest(input: Stdin, written: seq<Byte>) returns (out: seq<Byte>)
    modifies input
    ensures out == written + old(input.data) && input.data == []
  {
    out := written;
    while true
      invariant out + input.data == written + old(input.data)
      decreases |input.data|
    {
      var c := input.Getc();
      if c == -1 {
        break;
      }
      out := out + [c];
    }
  }

  /** main after its checks: three numbers, the unit, the next start code, the rest. Whatever the
      input holds after the SPS data ends the output, unchanged. */
  method Convert(input: Stdin, pixfmt: Byte, bitDepth: nat) returns (out: seq<Byte>, ghost msps: seq<Byte>)
    requires 8 <= bitDepth < 264
    modifies input
    ensures input.data == []
    ensures var (width, in1) := Ue7(0, 5, old(input.data));
            var (height, in2) := Ue7(0, 5, in1);
            var (_, in3) := Ue7(0, 5, in2);
            var (len, in4) := Ue7(0, 5, in3);
            var got := if |in4| < len then |in4| else len;
            |msps| == 10 + len && msps[..10] == Fields(width, height, pixfmt, bitDepth - 8) &&
            msps[10..][..got] == in4[..got] && out == Output(msps, in4[got..]) &&
            |out| >= |in4| - got && out[|out| - (|in4| - got)..] == in4[got..]
  {
    hide Body, Fields;
    var width := ReadUe7(input);
    var height := ReadUe7(input);
    var datalen := ReadUe7(input);
    var buf, idx;
    buf, idx, msps := BuildMsps(input, width, height, pixfmt, bitDepth - 8);
    ghost var rest := input.data;
    out := CopyRest(input, buf[..idx] + START);
    assert out == Output(msps, rest);
    assert out[|out| - |rest|..] == rest;
  }
}
