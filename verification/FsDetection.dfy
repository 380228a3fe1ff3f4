/** Which alterations of the store the final verdict of fstest.c can see. */
module FsDetection {
  import opened FsSignature
  import opened FsStore
  import opened FsTrace
  import opened FsRun
  import Numbers

  lemma MulMono(a: nat, b: nat, c: nat)
    requires a <= b
    ensures a * c <= b * c
  {
  }

  lemma ModUnique(x: nat, q: nat, r: nat, d: nat)
    requires r < d && x == q * d + r
    ensures x % d == r
  {
    assert x == x / d * d + x % d;
    if q < x / d {
      MulMono(q + 1, x / d, d);
    } else if q > x / d {
      MulMono(x / d + 1, q, d);
    }
  }

  lemma ModSplit(p: nat, m: nat)
    requires m > 0
    ensures p % (2 * m) == p % m + p / m % 2 * m
  {
    var a := p / m;
    assert p == a * m + p % m;
    assert a * m == (a / 2 * 2) * m + (a % 2) * m;
    assert (a / 2 * 2) * m == a / 2 * (2 * m);
    ModUnique(p, a / 2, p % m + a % 2 * m, 2 * m);
  }

  /** Positions that agree in their low `n` bits are congruent modulo 2^n, and conversely. */
  lemma {:induction false} LowBits(p: nat, q: nat, n: nat)
    ensures p % Numbers.Pow2(n) == q % Numbers.Pow2(n) <==> forall i :: 0 <= i < n ==> (Bit(p, i) <==> Bit(q, i))
  {
    if n != 0 {
      LowBits(p, q, n - 1);
      var m := Numbers.Pow2(n - 1);
      ModSplit(p, m);
      ModSplit(q, m);
      LowBitStep(p % m, p / m % 2, q % m, q / m % 2, m);
      assert Bit(p, n - 1) == Bit(q, n - 1) <==> p / m % 2 == q / m % 2;
    }
  }

  lemma LowBitStep(r: nat, a: nat, s: nat, b: nat, m: nat)
    requires r < m && s < m && a < 2 && b < 2
    ensures r + a * m == s + b * m <==> r == s && a == b
  {
  }

  /** The byte `x` at `p` and the byte `y` at `q`, all else zero. */
  lemma {:induction false} WordOfTwo(i: nat, d: seq<Bits>, p: nat, q: nat)
    requires p < q < |d|
    requires forall k :: 0 <= k < |d| && k != p && k != q ==> d[k] == 0
    ensures Word(i, d, 0) == Share(i, d[p], p) ^ Share(i, d[q], q)
  {
    hide Share;
    assert d == Xor(Embed([d[p]], p, |d|), Embed([d[q]], q, |d|));
    WordLinear(i, Embed([d[p]], p, |d|), Embed([d[q]], q, |d|), 0);
    WordEmbed(i, [d[p]], p, |d|);
    WordEmbed(i, [d[q]], q, |d|);
    WordAppend(i, [], d[p], p);
    WordAppend(i, [], d[q], q);
  }

  /** Detection power: damage at no more than two positions escapes exactly when it is the same
      XOR difference at two positions that agree modulo 256. */
  lemma TwoPositions(d: seq<Bits>, p: nat, q: nat)
    requires p < q < |d| && (d[p] != 0 || d[q] != 0)
    requires forall k :: 0 <= k < |d| && k != p && k != q ==> d[k] == 0
    ensures Passes(Sig(d, 0)) <==> d[p] == d[q] && p % 256 == q % 256
  {
    assert Numbers.Pow2(8) == 256 by {
      assert Numbers.Pow2(4) == 16;
    }
    LowBits(p, q, 8);
    forall i | 0 <= i < WORDS
      ensures Sig(d, 0)[i] == Share(i, d[p], p) ^ Share(i, d[q], q)
    {
      WordOfTwo(i, d, p, q);
    }
    if Passes(Sig(d, 0)) {
      assert Sig(d, 0)[8] == 0;
      forall i | 0 <= i < 8 ensures Bit(p, i) == Bit(q, i) {
        assert Sig(d, 0)[i] == 0;
      }
    }
  }

  /** The verdict of a run whose store was altered, in sum, at two positions only. */
  lemma DetectionPower(p: Params, file: seq<Bits>, draws: nat -> Draw, rounds: nat, ops: seq<Op>,
                       a: nat, b: nat)
    requires p.Valid() && a < b < p.Span()
    requires Program(ops) == RunOps(p, p.Prereads(|file|), draws, rounds)
    requires var d := RunDrift(p, file, p.Prereads(|file|), ops);
             (d[a] != 0 || d[b] != 0) &&
             forall k :: 0 <= k < p.Span() && k != a && k != b ==> d[k] == 0
    ensures var d := RunDrift(p, file, p.Prereads(|file|), ops);
            Passes(Exec(Sys(ZERO, file), ops).xors) <==> d[a] == d[b] && a % 256 == b % 256
  {
    VerdictOnDrift(p, file, draws, rounds, ops);
    TwoPositions(RunDrift(p, file, p.Prereads(|file|), ops), a, b);
  }

  /** A run whose store changes to `content` once, after the operations `early` and before the
      operations `late` of its chains. */
  function AlteredRun(p: Params, file: seq<Bits>, early: seq<Op>, content: seq<Bits>, late: seq<Op>): seq<Op>
    requires p.Valid()
  {
    (ReadOps(p.maxBlocksize, p.Prereads(|file|)) + early) + [Alter(content)]
    + (late + ReadOps(p.maxBlocksize, p.Blocks()))
  }

  /** The file just before that change. */
  function FileBefore(p: Params, file: seq<Bits>, early: seq<Op>): seq<Bits>
    requires p.Valid()
  {
    Exec(Sys(ZERO, file), ReadOps(p.maxBlocksize, p.Prereads(|file|)) + early).file
  }

  /** The positions whose bytes are part of the signature then. */
  function CoveredThen(p: Params, early: seq<Op>): set<nat>
    requires p.Valid()
  {
    CoverAll(Range(0, p.Span()), early)
  }

  /** These are all positions of the span but those of a block between its read and its write. */
  lemma CoveredThenIs(p: Params, draws: nat -> Draw, rounds: nat, early: seq<Op>, late: seq<Op>)
    requires p.Valid() && early + late == RoundsOps(p, draws, rounds)
    ensures CoveredThen(p, early) == Range(0, p.Span()) - InProgress(early)
  {
    hide Paired, RoundsOps, CoverAll, InProgress, Range;
    RoundsPaired(p, draws, rounds);
    PairedCovers(early + late, p.Span(), |early|);
    assert (early + late)[..|early|] == early;
  }

  lemma AlteredRunHonest(p: Params, file: seq<Bits>, draws: nat -> Draw, rounds: nat,
                         early: seq<Op>, late: seq<Op>)
    requires p.Valid() && early + late == RoundsOps(p, draws, rounds)
    ensures Honest(ReadOps(p.maxBlocksize, p.Prereads(|file|)) + early)
    ensures Honest(late + ReadOps(p.maxBlocksize, p.Blocks()))
  {
    hide Honest, ReadOps, RoundsOps;
    RoundsKeep(p, draws, rounds);
    HonestConcat(early, late);
    ReadsHonest(p.maxBlocksize, p.Prereads(|file|));
    ReadsHonest(p.maxBlocksize, p.Blocks());
    HonestConcat(ReadOps(p.maxBlocksize, p.Prereads(|file|)), early);
    HonestConcat(late, ReadOps(p.maxBlocksize, p.Blocks()));
  }

  lemma Regroup(a: seq<Op>, b: seq<Op>, c: seq<Op>, d: seq<Op>)
    ensures (a + b) + (c + d) == a + (b + c) + d
  {
  }

  lemma AlteredRunProgram(p: Params, file: seq<Bits>, draws: nat -> Draw, rounds: nat,
                          early: seq<Op>, content: seq<Bits>, late: seq<Op>)
    requires p.Valid() && early + late == RoundsOps(p, draws, rounds)
    ensures Program(AlteredRun(p, file, early, content, late)) == RunOps(p, p.Prereads(|file|), draws, rounds)
  {
    hide Program, Honest, ReadOps, RoundsOps;
    var pre, post := ReadOps(p.maxBlocksize, p.Prereads(|file|)), ReadOps(p.maxBlocksize, p.Blocks());
    AlteredRunHonest(p, file, draws, rounds, early, late);
    ProgramOfAltered(pre + early, content, late + post);
    Regroup(pre, early, late, post);
  }

  lemma EarlyCovers(p: Params, file: seq<Bits>, early: seq<Op>)
    requires p.Valid()
    ensures CoverAll(Range(Bytes(p.Prereads(|file|), p.maxBlocksize), p.Span()),
                     ReadOps(p.maxBlocksize, p.Prereads(|file|)) + early) == CoveredThen(p, early)
  {
    hide CoverAll, ReadOps, Range, Params.Prereads, Bytes;
    var n := p.Prereads(|file|);
    PrereadSuffices(p, file, 0);
    BytesMono(n, p.Blocks(), p.maxBlocksize);
    ReadOpsCover(Range(Bytes(n, p.maxBlocksize), p.Span()), p.maxBlocksize, n, p.Span());
    ToggleAll(Bytes(n, p.maxBlocksize), p.Span());
    CoverAllConcat(Range(Bytes(n, p.maxBlocksize), p.Span()), ReadOps(p.maxBlocksize, n), early);
  }

  /** A change of the store between two operations of the chains drifts by what it does to the bytes
      covered then, even where later writes cover it up. */
  lemma AlteredRunDrift(p: Params, file: seq<Bits>, draws: nat -> Draw, rounds: nat,
                        early: seq<Op>, content: seq<Bits>, late: seq<Op>)
    requires p.Valid() && early + late == RoundsOps(p, draws, rounds)
    ensures RunDrift(p, file, p.Prereads(|file|), AlteredRun(p, file, early, content, late))
         == Damage(FileBefore(p, file, early), CoveredThen(p, early), Alter(content), p.Span())
  {
    hide Drift, Damage, CoverAll, Exec, ReadOps, RoundsOps, Honest, Bytes, Range;
    AlteredRunHonest(p, file, draws, rounds, early, late);
    EarlyCovers(p, file, early);
    OneAlteration(Sys(ZERO, file), Range(Bytes(p.Prereads(|file|), p.maxBlocksize), p.Span()),
                  ReadOps(p.maxBlocksize, p.Prereads(|file|)) + early, content,
                  late + ReadOps(p.maxBlocksize, p.Blocks()), p.Span());
  }

  lemma AlteredRunVerdict(p: Params, file: seq<Bits>, draws: nat -> Draw, rounds: nat,
                          early: seq<Op>, content: seq<Bits>, late: seq<Op>)
    requires p.Valid() && early + late == RoundsOps(p, draws, rounds)
    ensures Passes(Exec(Sys(ZERO, file), AlteredRun(p, file, early, content, late)).xors)
       <==> Passes(Sig(Damage(FileBefore(p, file, early), CoveredThen(p, early), Alter(content), p.Span()), 0))
  {
    hide Exec, AlteredRun, RunDrift, Damage, Sig, RunOps, Program;
    AlteredRunProgram(p, file, draws, rounds, early, content, late);
    AlteredRunDrift(p, file, draws, rounds, early, content, late);
    VerdictOnDrift(p, file, draws, rounds, AlteredRun(p, file, early, content, late));
  }

  /** Contents that differ at one byte damage a run exactly where that byte is covered. */
  lemma OneByte(f: seq<Bits>, g: seq<Bits>, covered: set<nat>, size: nat, a: nat)
    requires a < size && size > 1
    requires forall k :: 0 <= k < size ==> (At(f, k) == At(g, k) <==> k != a)
    ensures Passes(Sig(Damage(f, covered, Alter(g), size), 0)) <==> a !in covered
  {
    var d := Damage(f, covered, Alter(g), size);
    forall k | 0 <= k < size ensures d[k] == 0 <==> k != a || k !in covered {
      DamageAt(f, g, covered, size, k);
    }
    if a in covered {
      TwoPositions(d, 0, if a == 0 then 1 else a);
    } else {
      NoDamage(d);
    }
  }

  lemma NoDamage(d: seq<Bits>)
    requires forall k :: 0 <= k < |d| ==> d[k] == 0
    ensures Passes(Sig(d, 0))
  {
    forall i | 0 <= i < WORDS ensures Sig(d, 0)[i] == 0 {
      WordZero(i, d, 0);
    }
  }

  lemma DistinctXor(v: Bits, w: Bits)
    ensures v ^ w == w ^ v && (v ^ w == 0 <==> v == w)
  {
  }

  lemma DamageAt(f: seq<Bits>, g: seq<Bits>, covered: set<nat>, size: nat, k: nat)
    requires k < size
    ensures Damage(f, covered, Alter(g), size)[k] == 0 <==> At(f, k) == At(g, k) || k !in covered
  {
    DistinctXor(At(f, k), At(g, k));
  }

  lemma SwappedBytes(f: seq<Bits>, g: seq<Bits>, covered: set<nat>, size: nat, a: nat, b: nat)
    requires a < b < size && At(f, a) == At(g, b) && At(f, b) == At(g, a)
    requires forall k :: 0 <= k < size && k != a && k != b ==> At(f, k) == At(g, k)
    ensures Passes(Sig(Damage(f, covered, Alter(g), size), 0)) <==>
            At(f, a) == At(f, b) || (a !in covered && b !in covered) ||
            (a in covered && b in covered && a % 256 == b % 256)
  {
    hide Sig, Passes, Damage, At;
    var d := Damage(f, covered, Alter(g), size);
    forall k | 0 <= k < size && k != a && k != b ensures d[k] == 0 {
      DamageAt(f, g, covered, size, k);
    }
    DamageAt(f, g, covered, size, a);
    DamageAt(f, g, covered, size, b);
    SameDamage(f, g, covered, size, a, b);
    if d[a] == 0 && d[b] == 0 {
      NoDamage(d);
    } else {
      TwoPositions(d, a, b);
    }
  }

  lemma SameDamage(f: seq<Bits>, g: seq<Bits>, covered: set<nat>, size: nat, a: nat, b: nat)
    requires a < size && b < size && At(f, a) == At(g, b) && At(f, b) == At(g, a)
    ensures a in covered && b in covered ==>
              Damage(f, covered, Alter(g), size)[a] == Damage(f, covered, Alter(g), size)[b]
  {
    DistinctXor(At(f, a), At(f, b));
  }

  /** Changing one byte below the span between two operations of the chains fails the run, unless
      it happens between the read and the write of a block that the byte is in. */
  lemma OneByteIsSeen(p: Params, file: seq<Bits>, draws: nat -> Draw, rounds: nat,
                      early: seq<Op>, content: seq<Bits>, late: seq<Op>, a: nat)
    requires p.Valid() && early + late == RoundsOps(p, draws, rounds) && a < p.Span()
    requires forall k :: 0 <= k < p.Span() ==>
               (At(FileBefore(p, file, early), k) == At(content, k) <==> k != a)
    ensures Passes(Exec(Sys(ZERO, file), AlteredRun(p, file, early, content, late)).xors)
       <==> a !in CoveredThen(p, early)
  {
    hide Exec, AlteredRun, Sig, Passes, CoveredThen;
    AlteredRunVerdict(p, file, draws, rounds, early, content, late);
    SpanBounds(p);
    OneByte(FileBefore(p, file, early), content, CoveredThen(p, early), p.Span(), a);
  }

  /** Swapping two bytes goes unseen exactly when they are equal, or both in a block between its read
      and its write, or both outside such a block at positions that agree modulo 256. */
  lemma SwapIsSeen(p: Params, file: seq<Bits>, draws: nat -> Draw, rounds: nat,
                   early: seq<Op>, content: seq<Bits>, late: seq<Op>, a: nat, b: nat)
    requires p.Valid() && early + late == RoundsOps(p, draws, rounds) && a < b < p.Span()
    requires var f := FileBefore(p, file, early);
             At(f, a) == At(content, b) && At(f, b) == At(content, a) &&
             forall k :: 0 <= k < p.Span() && k != a && k != b ==> At(f, k) == At(content, k)
    ensures var f, covered := FileBefore(p, file, early), CoveredThen(p, early);
            Passes(Exec(Sys(ZERO, file), AlteredRun(p, file, early, content, late)).xors) <==>
            At(f, a) == At(f, b) || (a !in covered && b !in covered) ||
            (a in covered && b in covered && a % 256 == b % 256)
  {
    hide Exec, AlteredRun, Sig, Passes, CoveredThen;
    AlteredRunVerdict(p, file, draws, rounds, early, content, late);
    SwappedBytes(FileBefore(p, file, early), content, CoveredThen(p, early), p.Span(), a, b);
  }

  lemma {:induction false} ReadsChangeNothing(s: Sys, blocksize: nat, n: nat)
    ensures Exec(s, ReadOps(blocksize, n)).file == s.file
  {
    if n != 0 {
      var ops := ReadOps(blocksize, n);
      ReadsChangeNothing(s, blocksize, n - 1);
      assert ops[..n - 1] == ReadOps(blocksize, n - 1);
    }
  }

  /** A file whose bytes 0 and 256 differ, and the same with these two swapped. */
  const HEAVY_HEAD: seq<Bits> := [1]
  const HEAVY_TAIL: seq<Bits> := Zeros(256) + [1]

  /** Damage that escapes: these two bytes are swapped right after the first read. */
  lemma SwapExample(draws: nat -> Draw)
    ensures var p := Params(256, 0, 256, 1, 0);
            At(HEAVY_HEAD, 0) != At(HEAVY_TAIL, 0) &&
            Passes(Exec(Sys(ZERO, HEAVY_HEAD), AlteredRun(p, HEAVY_HEAD, [], HEAVY_TAIL, [])).xors)
  {
    var p := Params(256, 0, 256, 1, 0);
    assert RoundsOps(p, draws, 0) == [];
    SpanBounds(p);
    NothingEarly(p, HEAVY_HEAD);
    hide Exec, AlteredRun, Passes, CoveredThen, FileBefore, RoundsOps, Params.Span;
    SwapIsSeen(p, HEAVY_HEAD, draws, 0, [], HEAVY_TAIL, [], 0, 256);
  }

  /** One byte is missed: it changes after its block is read and before the block is written. */
  lemma OneByteExample(bytes: nat -> Bits, sync: nat -> Random)
    ensures var p := Params(2, 1, 2, 1, 0);
            var data := Drawn(0, 0, 1, 0, bytes, sync).Block(1);
            var early, late := [ReadBlock(0, 1)], [PutBlock(0, data)];
            early + late == RoundsOps(p, (_: nat) => Drawn(0, 0, 1, 0, bytes, sync), 1) &&
            Passes(Exec(Sys(ZERO, []), AlteredRun(p, [], early, [1], late)).xors)
  {
    var p := Params(2, 1, 2, 1, 0);
    var d := Drawn(0, 0, 1, 0, bytes, sync);
    var draws := (_: nat) => d;
    var early, late := [ReadBlock(0, 1)], [PutBlock(0, d.Block(1))];
    assert RoundsOps(p, draws, 0) == [];
    OneBlock(p, d);
    SpanBounds(p);
    CoveredThenIs(p, draws, 1, early, late);
    ReadsChangeNothing(Sys(ZERO, []), 2, p.Prereads(0));
    ExecConcat(Sys(ZERO, []), ReadOps(2, p.Prereads(0)), early);
    assert early[..0] == [];
    assert FileBefore(p, [], early) == [];
    hide Exec, AlteredRun, Passes, CoveredThen, FileBefore, RoundsOps, Params.Span;
    OneByteIsSeen(p, [], draws, 1, early, [1], late, 0);
  }

  /** A chain of one block of one byte at the start. */
  lemma OneBlock(p: Params, d: Draw)
    requires p.Valid() && p.maxBlocksize == 2 && p.maxChainlen == 1
    requires d.Drawn? && d.offset == 0 && d.length == 1 && d.repetitions == 0
    ensures RoundOps(p, d) == [ReadBlock(0, 1), PutBlock(0, d.Block(1))]
  {
    var spots := RoundSpots(p, d);
    assert spots == [0] && spots[..0] == [];
    assert ChainOps(spots, d.Block(1)) == [] + BlockOps(0, d.Block(1));
  }

  lemma NothingEarly(p: Params, file: seq<Bits>)
    requires p.Valid()
    ensures FileBefore(p, file, []) == file && CoveredThen(p, []) == Range(0, p.Span())
  {
    hide Exec;
    ReadsChangeNothing(Sys(ZERO, file), p.maxBlocksize, p.Prereads(|file|));
    var pre := ReadOps(p.maxBlocksize, p.Prereads(|file|));
    assert pre + [] == pre;
  }
}
