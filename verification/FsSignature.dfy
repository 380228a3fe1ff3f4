/** The nine-word XOR signature of fstest.c and its algebra.

    Word k, for k below 8, is the XOR of the bytes whose position has bit k set;
    word 8 is the XOR of all of them. */
module FsSignature {
  import Numbers

  /** A byte, as the bits that XOR works on. */
  type Bits = bv8

  const WORDS: nat := 9

  type Words = w: seq<Bits> | |w| == WORDS witness [0, 0, 0, 0, 0, 0, 0, 0, 0]

  const ZERO: Words := [0, 0, 0, 0, 0, 0, 0, 0, 0]

  /** The test `pos & (1 << i)`. */
  predicate Bit(pos: nat, i: nat) {
    pos / Numbers.Pow2(i) % 2 == 1
  }

  /** What a byte `v` at `pos` adds to word `i`. */
  function Share(i: nat, v: Bits, pos: nat): Bits {
    if i >= 8 || Bit(pos, i) then v else 0
  }

  /** Word `i` of the bytes `s` laid out from position `base` on. */
  function Word(i: nat, s: seq<Bits>, base: nat): Bits {
    if s == [] then 0
    else Word(i, s[..|s| - 1], base) ^ Share(i, s[|s| - 1], base + |s| - 1)
  }

  function Xor(a: seq<Bits>, b: seq<Bits>): (r: seq<Bits>)
    requires |a| == |b|
    ensures |r| == |a|
    ensures forall k :: 0 <= k < |a| ==> r[k] == a[k] ^ b[k]
  {
    seq(|a|, k requires 0 <= k < |a| => a[k] ^ b[k])
  }

  function Sig(s: seq<Bits>, base: nat): (r: Words)
    ensures forall i :: 0 <= i < WORDS ==> r[i] == Word(i, s, base)
  {
    seq(WORDS, i requires 0 <= i < WORDS => Word(i, s, base))
  }

  lemma {:induction false} WordAppend(i: nat, s: seq<Bits>, v: Bits, base: nat)
    ensures Word(i, s + [v], base) == Word(i, s, base) ^ Share(i, v, base + |s|)
  {
    assert (s + [v])[..|s|] == s;
  }

  lemma {:induction false} WordZero(i: nat, s: seq<Bits>, base: nat)
    requires forall k :: 0 <= k < |s| ==> s[k] == 0
    ensures Word(i, s, base) == 0
  {
    if s != [] {
      WordZero(i, s[..|s| - 1], base);
    }
  }

  lemma {:induction false} WordConcat(i: nat, a: seq<Bits>, b: seq<Bits>, base: nat)
    ensures Word(i, a + b, base) == Word(i, a, base) ^ Word(i, b, base + |a|)
  {
    if b == [] {
      assert a + b == a;
    } else {
      var n := |b| - 1;
      assert a + b == (a + b[..n]) + [b[n]];
      WordAppend(i, a + b[..n], b[n], base);
      WordConcat(i, a, b[..n], base);
    }
  }

  /** The signature is linear. */
  lemma {:induction false} WordLinear(i: nat, a: seq<Bits>, b: seq<Bits>, base: nat)
    requires |a| == |b|
    ensures Word(i, Xor(a, b), base) == Word(i, a, base) ^ Word(i, b, base)
  {
    if a != [] {
      var n := |a| - 1;
      assert Xor(a, b)[..n] == Xor(a[..n], b[..n]);
      WordLinear(i, a[..n], b[..n], base);
    }
  }

  /** `d` placed at `pos` in `size` bytes that are zero everywhere else. */
  function Embed(d: seq<Bits>, pos: nat, size: nat): (r: seq<Bits>)
    requires pos + |d| <= size
    ensures |r| == size
    ensures forall k :: 0 <= k < size ==> r[k] == if pos <= k < pos + |d| then d[k - pos] else 0
  {
    seq(size, k requires 0 <= k < size => if pos <= k < pos + |d| then d[k - pos] else 0)
  }

  lemma {:induction false} WordEmbed(i: nat, d: seq<Bits>, pos: nat, size: nat)
    requires pos + |d| <= size
    ensures Word(i, Embed(d, pos, size), 0) == Word(i, d, pos)
  {
    var before := seq(pos, _ => 0 as Bits);
    var after := seq(size - pos - |d|, _ => 0 as Bits);
    assert Embed(d, pos, size) == (before + d) + after;
    WordConcat(i, before + d, after, 0);
    WordConcat(i, before, d, 0);
    WordZero(i, before, 0);
    WordZero(i, after, pos + |d|);
  }

  /** The program's checker state: `struct state`. */
  class State {
    const xors: array<Bits>

    constructor ()
      ensures fresh(xors) && xors.Length == WORDS && xors[..] == ZERO
    {
      xors := new Bits[WORDS](_ => 0);
    }

    method UpdateXor(v: Bits, pos: nat)
      requires xors.Length == WORDS
      modifies xors
      ensures forall i :: 0 <= i < WORDS ==> xors[i] == old(xors[i]) ^ Share(i, v, pos)
    {
      var i := 0;
      while i < 8
        invariant 0 <= i <= 8
        invariant forall j :: 0 <= j < i ==> xors[j] == old(xors[j]) ^ Share(j, v, pos)
        invariant forall j :: i <= j < WORDS ==> xors[j] == old(xors[j])
      {
        var vv := if Bit(pos, i) then v else 0;
        xors[i] := xors[i] ^ vv;
        i := i + 1;
      }
      xors[8] := xors[8] ^ v;
    }
  }
}
