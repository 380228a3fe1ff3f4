/** The escaping of bpg2hevc.c: a NAL unit holding the modified SPS, and its reader. */
module Escape {
  import opened Numbers

  const HEADER: seq<Byte> := [0, 0, 0, 1, 96, 1]
  const START: seq<Byte> := [0, 0, 0, 1]

  // ---------- what the loop of build_msps computes ----------

  predicate ZeroPair(s: seq<Byte>) {
    |s| >= 2 && s[0] == 0 && s[1] == 0
  }

  /** Every pair of zero bytes, taken from the left, is followed by a 3. */
  function Escaped(s: seq<Byte>): seq<Byte> {
    if s == [] then []
    else if ZeroPair(s) then [0, 0, 3] + Escaped(s[2..])
    else [s[0]] + Escaped(s[1..])
  }

  /** The bytes after the NAL header: escaped, and closed so that the last one is not zero. */
  function Body(s: seq<Byte>): seq<Byte> {
    Escaped(s) + if EndsInZero(Escaped(s)) then [0x80] else []
  }

  predicate EndsInZero(s: seq<Byte>) {
    s != [] && s[|s| - 1] == 0
  }

  // ---------- the reader of section 7.3.1.1 of ITU-T H.265 ----------

  predicate EscapeCode(s: seq<Byte>) {
    |s| >= 3 && s[0] == 0 && s[1] == 0 && s[2] == 3
  }

  /** The raw bytes of a NAL unit: the 3 of each 0, 0, 3 is dropped. */
  function Unescaped(s: seq<Byte>): seq<Byte> {
    if s == [] then []
    else if EscapeCode(s) then [0, 0] + Unescaped(s[3..])
    else [s[0]] + Unescaped(s[1..])
  }

  lemma EscapedFirst(s: seq<Byte>)
    requires s != []
    ensures Escaped(s) != [] && Escaped(s)[0] == s[0]
  {
  }

  lemma Assoc(a: seq<Byte>, b: seq<Byte>, c: seq<Byte>)
    ensures a + b + c == a + (b + c)
  {
  }

  lemma UnescapePair(t: seq<Byte>)
    ensures Unescaped([0, 0, 3] + t) == [0, 0] + Unescaped(t)
  {
    assert ([0, 0, 3] + t)[3..] == t;
  }

  lemma UnescapeOne(c: Byte, t: seq<Byte>)
    requires !EscapeCode([c] + t)
    ensures Unescaped([c] + t) == [c] + Unescaped(t)
  {
    assert ([c] + t)[1..] == t;
  }

  lemma UnescapeAfterPair(s: seq<Byte>, tail: seq<Byte>)
    requires ZeroPair(s) && Unescaped(Escaped(s[2..]) + tail) == s[2..] + tail
    ensures Unescaped(Escaped(s) + tail) == s + tail
  {
    var e := Escaped(s[2..]);
    UnescapePair(e + tail);
    Assoc([0, 0, 3], e, tail);
    assert s == [0, 0] + s[2..];
    Assoc([0, 0], s[2..], tail);
  }

  lemma UnescapeAfterOne(s: seq<Byte>, tail: seq<Byte>)
    requires s != [] && !ZeroPair(s) && Unescaped(Escaped(s[1..]) + tail) == s[1..] + tail
    requires tail == [] || tail == [0x80]
    ensures Unescaped(Escaped(s) + tail) == s + tail
  {
    var e := Escaped(s[1..]);
    assert !EscapeCode([s[0]] + (e + tail)) by {
      if |s| > 1 {
        EscapedFirst(s[1..]);
      }
    }
    UnescapeOne(s[0], e + tail);
    Assoc([s[0]], e, tail);
    assert s == [s[0]] + s[1..];
    Assoc([s[0]], s[1..], tail);
  }

  /** Unescaping undoes escaping, with or without the closing byte. */
  lemma {:induction false} UnescapeEscaped(s: seq<Byte>, tail: seq<Byte>)
    requires tail == [] || tail == [0x80]
    ensures Unescaped(Escaped(s) + tail) == s + tail
  {
    if s == [] {
      UnescapeShort(tail);
      assert Escaped(s) + tail == tail && s + tail == tail;
    } else if ZeroPair(s) {
      UnescapeEscaped(s[2..], tail);
      UnescapeAfterPair(s, tail);
    } else {
      UnescapeEscaped(s[1..], tail);
      UnescapeAfterOne(s, tail);
    }
  }

  lemma UnescapeShort(s: seq<Byte>)
    requires |s| <= 1
    ensures Unescaped(s) == s
  {
    if s != [] {
      assert s[1..] == [];
    }
  }

  /** The round trip: the reader gets the payload back, followed by 0x80 exactly when the escaped
      form ended in a zero byte. */
  lemma RoundTrip(s: seq<Byte>)
    ensures Unescaped(Body(s)) == s + if EndsInZero(Escaped(s)) then [0x80] else []
  {
    UnescapeEscaped(s, if EndsInZero(Escaped(s)) then [0x80] else []);
  }

  // ---------- when the closing byte is added ----------

  /** The zero bytes a payload ends with. */
  function TrailingZeros(s: seq<Byte>): (n: nat)
    ensures n <= |s|
  {
    if EndsInZero(s) then TrailingZeros(s[..|s| - 1]) + 1 else 0
  }

  lemma {:induction false} TrailingZerosCons(c: Byte, s: seq<Byte>)
    ensures TrailingZeros([c] + s) == TrailingZeros(s) + if c == 0 && TrailingZeros(s) == |s| then 1 else 0
  {
    if s == [] {
      assert [c] + s == [c];
      assert [c][..0] == [];
    } else {
      assert ([c] + s)[..|s|] == [c] + s[..|s| - 1];
      TrailingZerosCons(c, s[..|s| - 1]);
    }
  }

  lemma AllTrailing(s: seq<Byte>)
    requires s != [] && TrailingZeros(s) == |s|
    ensures s[0] == 0
  {
    if |s| > 1 {
      AllTrailing(s[..|s| - 1]);
    }
  }

  lemma ClosedAfterPair(s: seq<Byte>)
    requires ZeroPair(s)
    ensures TrailingZeros(s) % 2 == TrailingZeros(s[2..]) % 2
    ensures EndsInZero(Escaped(s)) <==> EndsInZero(Escaped(s[2..]))
  {
    assert s == [s[0]] + s[1..] && s[1..] == [s[1]] + s[2..];
    TrailingZerosCons(s[0], s[1..]);
    TrailingZerosCons(s[1], s[2..]);
    LastOfAppend([0, 0, 3], Escaped(s[2..]));
  }

  lemma ClosedAfterOne(s: seq<Byte>)
    requires |s| > 1 && !ZeroPair(s)
    ensures TrailingZeros(s) == TrailingZeros(s[1..])
    ensures EndsInZero(Escaped(s)) <==> EndsInZero(Escaped(s[1..]))
  {
    assert s == [s[0]] + s[1..];
    TrailingZerosCons(s[0], s[1..]);
    if TrailingZeros(s[1..]) == |s| - 1 {
      AllTrailing(s[1..]);
    }
    EscapedFirst(s[1..]);
    LastOfAppend([s[0]], Escaped(s[1..]));
  }

  /** The closing byte is added exactly when the payload ends in an odd number of zero bytes. */
  lemma {:induction false} ClosedWhenOdd(s: seq<Byte>)
    ensures EndsInZero(Escaped(s)) <==> TrailingZeros(s) % 2 == 1
  {
    if ZeroPair(s) {
      ClosedWhenOdd(s[2..]);
      ClosedAfterPair(s);
    } else if |s| > 1 {
      ClosedWhenOdd(s[1..]);
      ClosedAfterOne(s);
    } else if |s| == 1 {
      assert s[1..] == [] && s[..0] == [];
    }
  }

  lemma LastOfAppend(a: seq<Byte>, b: seq<Byte>)
    ensures EndsInZero(a + b) <==> if b == [] then EndsInZero(a) else EndsInZero(b)
  {
    if b == [] {
      assert a + b == a;
    }
  }

  // ---------- framing ----------

  /** Any two zero bytes in a row are followed by a 3. */
  ghost predicate Guarded(s: seq<Byte>) {
    forall i :: 0 <= i && i + 1 < |s| && s[i] == 0 && s[i + 1] == 0 ==> i + 2 < |s| && s[i + 2] == 3
  }

  lemma {:induction false} EscapedGuarded(s: seq<Byte>)
    ensures Guarded(Escaped(s))
  {
    if s != [] {
      if ZeroPair(s) {
        EscapedGuarded(s[2..]);
        var e, t := Escaped(s), Escaped(s[2..]);
        assert forall i :: 3 <= i < |e| ==> e[i] == t[i - 3];
      } else {
        EscapedGuarded(s[1..]);
        var e, t := Escaped(s), Escaped(s[1..]);
        assert forall i :: 1 <= i < |e| ==> e[i] == t[i - 1];
        if |s| > 1 {
          EscapedFirst(s[1..]);
        }
      }
    }
  }

  /** The body holds no two zero bytes that are not followed by a 3, and does not end in zero: no
      start code, and no 0, 0, 2 either. */
  lemma BodyGuarded(s: seq<Byte>)
    ensures Guarded(Body(s)) && !EndsInZero(Body(s))
  {
    EscapedGuarded(s);
  }

  /** The escaped form is longer by at most half, so the buffer of 6 + 2n bytes is large enough. */
  lemma {:induction false} EscapedLength(s: seq<Byte>)
    ensures |s| <= |Escaped(s)| <= |s| + |s| / 2
  {
    if s != [] {
      EscapedLength(if ZeroPair(s) then s[2..] else s[1..]);
    }
  }

  lemma BodyFits(s: seq<Byte>)
    ensures |HEADER + Body(s)| <= 6 + |s| + |s| / 2 + 1
    ensures |HEADER + Body(s)| <= 6 + 2 * |s|
  {
    EscapedLength(s);
  }

  /** The program's output: the unit, the next start code, and the rest of the input as it is. */
  function Output(s: seq<Byte>, rest: seq<Byte>): seq<Byte> {
    HEADER + Body(s) + START + rest
  }

  predicate StartsAt(stream: seq<Byte>, i: nat) {
    i + 3 <= |stream| && stream[i] == 0 && stream[i + 1] == 0 && stream[i + 2] == 1
  }

  /** The first place from `from` on where 0, 0, 1 stands, or the length if there is none. */
  function NextStart(stream: seq<Byte>, from: nat): (i: nat)
    requires from <= |stream|
    ensures from <= i <= |stream|
    decreases |stream| - from
  {
    if from == |stream| || StartsAt(stream, from) then from else NextStart(stream, from + 1)
  }

  lemma {:induction false} NextStartIs(stream: seq<Byte>, from: nat, i: nat)
    requires from <= i <= |stream| && StartsAt(stream, i)
    requires forall j :: from <= j < i ==> !StartsAt(stream, j)
    ensures NextStart(stream, from) == i
    decreases i - from
  {
    if from < i {
      NextStartIs(stream, from + 1, i);
    }
  }

  lemma OutputByte(s: seq<Byte>, rest: seq<Byte>, i: nat)
    requires i < 10 + |Body(s)|
    ensures Output(s, rest)[i] == if i < 6 then HEADER[i] else if i < 6 + |Body(s)| then Body(s)[i - 6]
                                  else START[i - 6 - |Body(s)|]
  {
  }

  lemma NoEarlyStart(s: seq<Byte>, rest: seq<Byte>, i: nat)
    requires 3 <= i <= 6 + |Body(s)|
    ensures !StartsAt(Output(s, rest), i)
  {
    BodyGuarded(s);
    OutputByte(s, rest, i);
    OutputByte(s, rest, i + 1);
    OutputByte(s, rest, i + 2);
  }

  /** After the leading start code the next one is the program's own, right after the unit. */
  lemma NextStartAfterUnit(s: seq<Byte>, rest: seq<Byte>)
    ensures NextStart(Output(s, rest), 4) == 6 + |Body(s)| + 1
  {
    var n := 6 + |Body(s)|;
    OutputByte(s, rest, n + 1);
    OutputByte(s, rest, n + 2);
    OutputByte(s, rest, n + 3);
    forall j | 4 <= j < n + 1 ensures !StartsAt(Output(s, rest), j) {
      NoEarlyStart(s, rest, j);
    }
    NextStartIs(Output(s, rest), 4, n + 1);
  }

  /** A reader of the byte stream: the unit reaches from the leading start code to the next one,
      whose first zero byte is not part of it, and its first two bytes are the header. */
  function ReadUnit(stream: seq<Byte>): seq<Byte>
    requires |stream| >= 7
  {
    var end := NextStart(stream, 4);
    if end < 7 then [] else Unescaped(stream[6..end - 1])
  }

  /** Reading the program's output gives the payload back, for every payload and every rest. */
  lemma StreamRoundTrip(s: seq<Byte>, rest: seq<Byte>)
    ensures ReadUnit(Output(s, rest)) == s + if TrailingZeros(s) % 2 == 1 then [0x80] else []
  {
    NextStartAfterUnit(s, rest);
    assert Output(s, rest)[6..6 + |Body(s)|] == Body(s);
    RoundTrip(s);
    ClosedWhenOdd(s);
  }

  /** A reader of the rest: everything after the next start code. */
  function ReadRest(stream: seq<Byte>): seq<Byte>
    requires |stream| >= 7
  {
    var end := NextStart(stream, 4);
    if end + 3 <= |stream| then stream[end + 3..] else []
  }

  /** What follows the unit's end is a start code of four bytes and then, byte by byte, what the
      program copied: nothing is dropped or added. */
  lemma RestFollows(s: seq<Byte>, rest: seq<Byte>)
    ensures var stream := Output(s, rest);
            var end := NextStart(stream, 4);
            |stream| == 6 + |Body(s)| + 4 + |rest| && stream[..4] == [0, 0, 0, 1] &&
            end + 3 <= |stream| && stream[end - 1..end + 3] == [0, 0, 0, 1] && ReadRest(stream) == rest
  {
    NextStartAfterUnit(s, rest);
    hide Body, NextStart;
    var stream := Output(s, rest);
    assert stream[..4] == [0, 0, 0, 1];
    assert stream == (HEADER + Body(s)) + (START + rest);
    assert stream[6 + |Body(s)|..] == START + rest;
    assert stream[6 + |Body(s)| + 4..] == rest;
  }

  /** The unit's two header bytes, by section 7.3.1.2 of ITU-T H.265: forbidden bit 0, unit type 48,
      layer 0, temporal id plus one 1. */
  lemma UnitHeader(s: seq<Byte>, rest: seq<Byte>)
    ensures var stream := Output(s, rest);
            var (a, b) := (stream[4], stream[5]);
            a / 128 == 0 && a / 2 % 64 == 48 && a % 2 * 32 + b / 8 == 0 && b % 8 == 1
  {
    OutputByte(s, rest, 4);
    OutputByte(s, rest, 5);
  }

  /** One whole output, byte by byte. */
  lemma OutputExample()
    ensures Output([5, 0, 0, 0], [7, 8])
         == [0, 0, 0, 1, 96, 1, 5, 0, 0, 3, 0, 0x80, 0, 0, 0, 1, 7, 8]
  {
    var s: seq<Byte> := [5, 0, 0, 0];
    assert s[1..] == [0, 0, 0] && s[1..][2..] == [0] && s[1..][2..][1..] == [];
    assert Escaped([0]) == [0] + Escaped([]);
    assert Escaped([0, 0, 0]) == [0, 0, 3] + Escaped([0]);
    assert Escaped(s) == [5] + Escaped([0, 0, 0]);
    assert Escaped(s) == [5, 0, 0, 3, 0];
  }
}
