/** Bytes, numbers in network byte order, 32-bit words and powers of two. */
module Numbers {

  type Byte = b: int | 0 <= b < 256

  const WORD: nat := 0x1_0000_0000

  function Pow2(i: nat): (r: nat)
    ensures r > 0
  {
    if i == 0 then 1 else 2 * Pow2(i - 1)
  }

  /** Counting on in 32 bits keeps up with counting. */
  lemma NextWord(n: nat)
    ensures (n % WORD + 1) % WORD == (n + 1) % WORD
  {
  }

  /** The number whose base-256 digits are the bytes. */
  function BigEndian(s: seq<Byte>): nat {
    if s == [] then 0 else BigEndian(s[..|s| - 1]) * 256 + s[|s| - 1]
  }

  lemma FourDigits(s: seq<Byte>)
    requires |s| == 4
    ensures BigEndian(s) == s[0] as int * 0x100_0000 + s[1] as int * 0x1_0000 + s[2] as int * 0x100 + s[3]
  {
    assert s[..3][..2] == s[..2] && s[..2][..1] == s[..1] && s[..1][..0] == [];
    assert BigEndian(s[..1]) == s[0];
    assert BigEndian(s[..2]) == BigEndian(s[..1]) * 256 + s[1];
    assert BigEndian(s[..3]) == BigEndian(s[..2]) * 256 + s[2];
  }
}
