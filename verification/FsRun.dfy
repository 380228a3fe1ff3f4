/** The block operations of a whole run of fstest.c, as a function of its parameters and random
    draws, and what the signature says at the end of it. */
module FsRun {
  import opened FsSignature
  import opened FsStore
  import opened FsTrace

  /** The length of `n` blocks. */
  function Bytes(n: nat, blocksize: nat): nat {
    if n == 0 then 0 else Bytes(n - 1, blocksize) + blocksize
  }

  lemma {:induction false} BytesIsProduct(n: nat, blocksize: nat)
    ensures Bytes(n, blocksize) == n * blocksize
  {
    if n != 0 {
      BytesIsProduct(n - 1, blocksize);
      assert n * blocksize == (n - 1) * blocksize + blocksize;
    }
  }

  lemma {:induction false} BytesMono(n: nat, m: nat, blocksize: nat)
    requires n <= m
    ensures Bytes(n, blocksize) <= Bytes(m, blocksize)
  {
    if n < m {
      BytesMono(n, m - 1, blocksize);
    }
  }

  /** `size / blocksize` is the last block that starts at or below `size`. */
  lemma BytesAround(size: nat, blocksize: nat)
    requires blocksize > 0
    ensures Bytes(size / blocksize, blocksize) <= size < Bytes(size / blocksize + 1, blocksize)
  {
    BytesIsProduct(size / blocksize, blocksize);
    assert size == size / blocksize * blocksize + size % blocksize;
  }

  lemma BlocksMono(a: nat, b: nat, blocksize: nat)
    requires a <= b && blocksize > 0
    ensures a / blocksize <= b / blocksize
  {
    BytesAround(a, blocksize);
    BytesAround(b, blocksize);
    if b / blocksize < a / blocksize {
      BytesMono(b / blocksize + 1, a / blocksize, blocksize);
    }
  }

  const MAX_FSYNC_PART: nat := 1_000_000

  /** `struct params`. The program divides by size, maxBlocksize and maxChainlen. */
  datatype Params = Params(size: nat, numIterations: nat, maxBlocksize: nat, maxChainlen: nat, syncPart: nat) {
    predicate Valid() {
      size > 0 && maxBlocksize > 0 && maxChainlen > 0
    }

    /** Blocks of the final read-out, which covers the positions below Span(). */
    function Blocks(): nat
      requires maxBlocksize > 0
    {
      size / maxBlocksize + 1
    }

    function Span(): nat
      requires maxBlocksize > 0
    {
      Bytes(Blocks(), maxBlocksize)
    }

    /** Blocks of the first read of a file of `length` bytes. */
    function Prereads(length: nat): nat
      requires maxBlocksize > 0
    {
      (if size < length + maxBlocksize then size else length + maxBlocksize) / maxBlocksize + 1
    }
  }

  /** A random number, or the failure to get one. */
  datatype Random = Value(v: nat) | Exhausted

  /** The random numbers of one chain: those of insert_chain, the mode and the bytes that
      generate_block draws, and one for each decision to sync; or the failure to get the first ones. */
  datatype Draw =
    | Drawn(offset: int, repetitions: nat, length: nat, mode: nat, bytes: nat -> Bits, sync: nat -> Random)
    | NoRandom
  {
    /** Byte `i` of the generated block: random, one byte repeated, or four bytes repeated. */
    function Generated(i: nat): Bits
      requires Drawn?
    {
      match mode % 4
      case 2 => bytes(0)
      case 3 => bytes(i % 4)
      case _ => bytes(i)
    }

    function Block(n: nat): (r: seq<Bits>)
      requires Drawn?
      ensures |r| == n
    {
      seq(n, i requires 0 <= i => Generated(i))
    }

    ghost predicate Complete() {
      Drawn? && forall n :: sync(n).Value?
    }
  }

  function ReadOps(blocksize: nat, n: nat): (r: seq<Op>)
    ensures |r| == n
  {
    if n == 0 then [] else ReadOps(blocksize, n - 1) + [ReadBlock(Bytes(n - 1, blocksize), blocksize)]
  }

  /** The offsets of a chain's blocks: ascending, but a block that would pass `size` goes to the
      start and is the last. */
  function Spots(size: nat, offset: nat, length: nat, repetitions: nat): seq<nat>
    decreases repetitions
  {
    if repetitions == 0 then []
    else if offset + length > size then [0]
    else [offset] + Spots(size, offset + length, length, repetitions - 1)
  }

  /** A block is read, then written. */
  function BlockOps(pos: nat, data: seq<Bits>): seq<Op> {
    [ReadBlock(pos, |data|), PutBlock(pos, data)]
  }

  function ChainOps(spots: seq<nat>, data: seq<Bits>): seq<Op> {
    if spots == [] then [] else ChainOps(spots[..|spots| - 1], data) + BlockOps(spots[|spots| - 1], data)
  }

  /** How many of the blocks fit between `offset` and `size`; empty ones always do. */
  function Fitting(size: nat, offset: nat, length: nat, repetitions: nat): nat {
    if offset > size then 0 else if length == 0 then repetitions else (size - offset) / length
  }

  /** A chain in closed form: as many blocks as asked for go side by side as far as they fit; if
      they do not all fit, one more goes to the start of the file and ends the chain. */
  lemma {:induction false} SpotsShape(size: nat, offset: nat, length: nat, repetitions: nat)
    ensures var spots, fit := Spots(size, offset, length, repetitions), Fitting(size, offset, length, repetitions);
            |spots| == (if repetitions <= fit then repetitions else fit + 1) &&
            forall j :: 0 <= j < |spots| ==> spots[j] == if j < fit then offset + Bytes(j, length) else 0
    decreases repetitions
  {
    if repetitions != 0 {
      FittingNext(size, offset, length, repetitions);
      if offset + length <= size {
        var spots := Spots(size, offset, length, repetitions);
        var rest := Spots(size, offset + length, length, repetitions - 1);
        SpotsShape(size, offset + length, length, repetitions - 1);
        forall j | 0 <= j < |spots|
          ensures spots[j] == if j < Fitting(size, offset, length, repetitions) then offset + Bytes(j, length) else 0
        {
          if j > 0 {
            assert spots[j] == rest[j - 1];
            assert Bytes(j, length) == Bytes(j - 1, length) + length;
          }
        }
      }
    }
  }

  lemma FittingNext(size: nat, offset: nat, length: nat, repetitions: nat)
    requires repetitions > 0
    ensures offset + length > size ==> Fitting(size, offset, length, repetitions) == 0
    ensures offset + length <= size ==>
              Fitting(size, offset, length, repetitions) == Fitting(size, offset + length, length, repetitions - 1) + 1
  {
    if length > 0 && offset + length <= size {
      DivStep(size - offset, length);
    }
  }

  lemma DivStep(a: nat, b: nat)
    requires 0 < b <= a
    ensures a / b == (a - b) / b + 1
  {
    var q := (a - b) / b;
    BytesAround(a - b, b);
    BytesAround(a, b);
    if a / b < q + 1 {
      BytesMono(a / b + 1, q + 1, b);
    } else if a / b > q + 1 {
      BytesMono(q + 2, a / b, b);
    }
  }

  function Abs(x: int): nat {
    if x < 0 then -x else x
  }

  /** The offsets of the blocks of one chain. */
  function RoundSpots(p: Params, d: Draw): seq<nat>
    requires p.Valid() && d.Drawn?
  {
    Spots(p.size, Abs(d.offset) % p.size, d.length % p.maxBlocksize, d.repetitions % p.maxChainlen + 1)
  }

  function RoundOps(p: Params, d: Draw): seq<Op>
    requires p.Valid()
  {
    if d.NoRandom? then [] else ChainOps(RoundSpots(p, d), d.Block(d.length % p.maxBlocksize))
  }

  function RoundsOps(p: Params, draws: nat -> Draw, n: nat): seq<Op>
    requires p.Valid()
  {
    if n == 0 then [] else RoundsOps(p, draws, n - 1) + RoundOps(p, draws(n - 1))
  }

  /** A run that pre-reads `prereads` blocks, makes `rounds` chains and reads everything out. */
  function RunOps(p: Params, prereads: nat, draws: nat -> Draw, rounds: nat): seq<Op>
    requires p.Valid()
  {
    ReadOps(p.maxBlocksize, prereads) + RoundsOps(p, draws, rounds) + ReadOps(p.maxBlocksize, p.Blocks())
  }

  // ---------- what one draw means ----------

  /** The position drawn for a chain. */
  ghost function Start(p: Params, d: Draw): nat
    requires p.Valid() && d.Drawn?
  {
    (if d.offset < 0 then -d.offset else d.offset) % p.size
  }

  /** The operations of the chain drawn by `d`, from the draw itself. There are `n` blocks of length
      mod max_blocksize bytes, all alike, each read and then written. They lie side by side from
      |offset| mod size on. A block that would end past `size` lies at 0 instead and is the last one;
      without such a block there are repetitions mod max_chainlen + 1. */
  ghost predicate IsChain(p: Params, d: Draw, ops: seq<Op>)
    requires p.Valid() && d.Drawn?
  {
    var len, n := d.length % p.maxBlocksize, |ops| / 2;
    |ops| % 2 == 0 && 1 <= n <= d.repetitions % p.maxChainlen + 1 &&
    (forall j :: 0 <= j < n ==> IsChainBlock(p, d, ops, j)) &&
    (n > 1 ==> Start(p, d) + (n - 1) * len <= p.size) &&
    (n <= d.repetitions % p.maxChainlen ==> Start(p, d) + n * len > p.size)
  }

  ghost predicate IsChainBlock(p: Params, d: Draw, ops: seq<Op>, j: nat)
    requires p.Valid() && d.Drawn? && 2 * j + 1 < |ops|
  {
    var len := d.length % p.maxBlocksize;
    var at := if Start(p, d) + (j + 1) * len <= p.size then Start(p, d) + j * len else 0;
    ops[2 * j] == ReadBlock(at, len) && ops[2 * j + 1] == PutBlock(at, d.Block(len))
  }

  /** `fit` blocks fit, the next one does not. */
  lemma FittingIs(size: nat, offset: nat, length: nat, repetitions: nat, j: nat)
    requires offset <= size && (length == 0 ==> j < repetitions)
    ensures j < Fitting(size, offset, length, repetitions) <==> offset + (j + 1) * length <= size
  {
    if length > 0 {
      var q := (size - offset) / length;
      BytesAround(size - offset, length);
      BytesIsProduct(j + 1, length);
      if j < q {
        BytesMono(j + 1, q, length);
      } else {
        BytesMono(q + 1, j + 1, length);
      }
    }
  }

  lemma {:induction false} ChainOpsAt(spots: seq<nat>, data: seq<Bits>, j: nat)
    requires j < |spots|
    ensures |ChainOps(spots, data)| == 2 * |spots|
    ensures ChainOps(spots, data)[2 * j] == ReadBlock(spots[j], |data|)
    ensures ChainOps(spots, data)[2 * j + 1] == PutBlock(spots[j], data)
  {
    var n := |spots| - 1;
    if n > 0 {
      ChainOpsAt(spots[..n], data, if j < n then j else 0);
    }
  }

  /** The closed form of SpotsShape, with products. */
  lemma SpotsOfDraw(size: nat, offset: nat, length: nat, repetitions: nat, j: nat)
    requires offset < size && repetitions > 0
    ensures var spots := Spots(size, offset, length, repetitions);
            1 <= |spots| <= repetitions &&
            (j < |spots| ==> spots[j] == if offset + (j + 1) * length <= size then offset + j * length else 0) &&
            (j < |spots| - 1 ==> offset + (j + 1) * length <= size) &&
            (|spots| < repetitions ==> offset + |spots| * length > size)
  {
    SpotsShape(size, offset, length, repetitions);
    hide Spots, Fitting;
    var spots := Spots(size, offset, length, repetitions);
    if j < |spots| {
      FittingIs(size, offset, length, repetitions, j);
      BytesIsProduct(j, length);
    }
    FittingIs(size, offset, length, repetitions, |spots| - 1);
  }

  /** Where a chain goes, what it writes and how long it is, for every draw. */
  lemma RoundOpsMean(p: Params, d: Draw)
    requires p.Valid() && d.Drawn?
    ensures IsChain(p, d, RoundOps(p, d))
  {
    var len, reps := d.length % p.maxBlocksize, d.repetitions % p.maxChainlen + 1;
    var spots, ops := Spots(p.size, Start(p, d), len, reps), RoundOps(p, d);
    assert ops == ChainOps(spots, d.Block(len));
    SpotsOfDraw(p.size, Start(p, d), len, reps, 0);
    ChainOpsAt(spots, d.Block(len), 0);
    forall j | 0 <= j < |spots| ensures IsChainBlock(p, d, ops, j) {
      hide Spots, ChainOps, RoundOps, Draw.Block, Start;
      SpotsOfDraw(p.size, Start(p, d), len, reps, j);
      ChainOpsAt(spots, d.Block(len), j);
    }
    hide Spots, ChainOps, RoundOps, Draw.Block, Start, IsChainBlock;
    if |spots| > 1 {
      SpotsOfDraw(p.size, Start(p, d), len, reps, |spots| - 2);
    }
  }

  /** The fill modes: the bytes drawn, the first of them again and again, or the first four. */
  lemma BlockMeans(d: Draw, n: nat)
    requires d.Drawn?
    ensures |d.Block(n)| == n
    ensures forall i :: 0 <= i < n && (i == 0 || (i < 4 && d.mode % 4 != 2)) ==> d.Block(n)[i] == d.bytes(i)
    ensures d.mode % 4 < 2 ==> forall i :: 0 <= i < n ==> d.Block(n)[i] == d.bytes(i)
    ensures d.mode % 4 == 2 ==> forall i :: 0 < i < n ==> d.Block(n)[i] == d.Block(n)[i - 1]
    ensures d.mode % 4 == 3 ==> forall i :: 4 <= i < n ==> d.Block(n)[i] == d.Block(n)[i - 4]
  {
    forall i | 0 <= i < n
      ensures d.Block(n)[i] == d.Generated(i)
      ensures i == 0 || (i < 4 && d.mode % 4 != 2) ==> d.Generated(i) == d.bytes(i)
      ensures d.mode % 4 < 2 ==> d.Generated(i) == d.bytes(i)
      ensures d.mode % 4 == 2 && i > 0 ==> d.Generated(i) == d.Generated(i - 1)
      ensures d.mode % 4 == 3 && i >= 4 ==> d.Generated(i) == d.Generated(i - 4)
    {
    }
    hide Draw.Generated, Draw.Block;
  }

  /** The k-th chain of a run's rounds is that of the k-th draw, right after the chains before it. */
  lemma {:induction false} EveryRound(p: Params, draws: nat -> Draw, n: nat, k: nat)
    requires p.Valid() && k < n && draws(k).Drawn?
    ensures var all, before, upTo := RoundsOps(p, draws, n), |RoundsOps(p, draws, k)|, |RoundsOps(p, draws, k + 1)|;
            before <= upTo <= |all| && IsChain(p, draws(k), all[before..upTo])
  {
    hide IsChain, RoundOps;
    if k == n - 1 {
      RoundOpsMean(p, draws(k));
      var all, front := RoundsOps(p, draws, n), RoundsOps(p, draws, k);
      assert all[|front|..|all|] == RoundOps(p, draws(k));
    } else {
      EveryRound(p, draws, n - 1, k);
      var before, upTo := |RoundsOps(p, draws, k)|, |RoundsOps(p, draws, k + 1)|;
      assert RoundsOps(p, draws, n)[before..upTo] == RoundsOps(p, draws, n - 1)[before..upTo];
    }
  }

  /** Operations that read block after block from the start of the file. */
  ghost predicate ReadsInOrder(ops: seq<Op>, blocksize: nat) {
    forall i :: 0 <= i < |ops| ==> ops[i] == ReadBlock(i * blocksize, blocksize)
  }

  lemma {:induction false} ReadOpsInOrder(blocksize: nat, n: nat)
    ensures ReadsInOrder(ReadOps(blocksize, n), blocksize)
  {
    if n > 0 {
      ReadOpsInOrder(blocksize, n - 1);
      BytesIsProduct(n - 1, blocksize);
    }
  }

  lemma Parts(a: seq<Op>, b: seq<Op>, c: seq<Op>)
    ensures var all := a + b + c;
            all[..|a|] == a && all[|a|..|a| + |b|] == b && all[|a| + |b|..] == c
  {
  }

  /** A whole run: blocks read one after the other from the start of the file, then the chains of the
      draws in their order, then all blocks of the span read again. */
  lemma RunMeans(p: Params, prereads: nat, draws: nat -> Draw, rounds: nat)
    requires p.Valid()
    ensures var ops, n := RunOps(p, prereads, draws, rounds), p.size / p.maxBlocksize + 1;
            |ops| >= prereads + n && ReadsInOrder(ops[..prereads], p.maxBlocksize) &&
            ReadsInOrder(ops[|ops| - n..], p.maxBlocksize) &&
            var chains := ops[prereads..|ops| - n];
            |chains| == |RoundsOps(p, draws, rounds)| &&
            forall k :: 0 <= k < rounds && draws(k).Drawn? ==>
              var lo, hi := |RoundsOps(p, draws, k)|, |RoundsOps(p, draws, k + 1)|;
              lo <= hi <= |chains| && IsChain(p, draws(k), chains[lo..hi])
  {
    var b := p.maxBlocksize;
    var pre, mid, post := ReadOps(b, prereads), RoundsOps(p, draws, rounds), ReadOps(b, p.Blocks());
    ReadOpsInOrder(b, prereads);
    ReadOpsInOrder(b, p.Blocks());
    Parts(pre, mid, post);
    hide IsChain, RoundsOps, ReadOps, ReadsInOrder;
    forall k | 0 <= k < rounds && draws(k).Drawn?
      ensures var lo, hi := |RoundsOps(p, draws, k)|, |RoundsOps(p, draws, k + 1)|;
              lo <= hi <= |mid| && IsChain(p, draws(k), mid[lo..hi])
    {
      EveryRound(p, draws, rounds, k);
    }
  }

  /** The first read reads the least number of blocks that pass the smaller of `size` and the file's
      end plus a block, the last read the least number that pass `size`. */
  lemma ReadLengths(p: Params, length: nat)
    requires p.Valid()
    ensures var b, n := p.maxBlocksize, p.Prereads(length);
            var limit := if p.size < length + b then p.size else length + b;
            n >= 1 && (n - 1) * b <= limit < n * b
    ensures p.Blocks() >= 1 && (p.Blocks() - 1) * p.maxBlocksize <= p.size < p.Span() == p.Blocks() * p.maxBlocksize
  {
    var b := p.maxBlocksize;
    var limit := if p.size < length + b then p.size else length + b;
    BytesAround(limit, b);
    BytesAround(p.size, b);
    BytesIsProduct(limit / b, b);
    BytesIsProduct(limit / b + 1, b);
    BytesIsProduct(p.size / b, b);
    BytesIsProduct(p.size / b + 1, b);
  }

  // ---------- coverage over a run ----------

  /** Reading the first `n` blocks toggles the coverage of exactly their positions. */
  lemma {:induction false} ReadOpsCover(covered: set<nat>, blocksize: nat, n: nat, size: nat)
    requires Bytes(n, blocksize) <= size
    ensures AllFit(covered, ReadOps(blocksize, n), size)
    ensures CoverAll(covered, ReadOps(blocksize, n)) == Toggle(covered, Range(0, Bytes(n, blocksize)))
  {
    hide Toggle;
    if n == 0 {
      ToggleNothing(covered);
    } else {
      var ops, lo := ReadOps(blocksize, n), Bytes(n - 1, blocksize);
      assert ops[..n - 1] == ReadOps(blocksize, n - 1);
      ReadOpsCover(covered, blocksize, n - 1, size);
      ToggleMore(covered, lo, blocksize);
    }
  }

  lemma ToggleNothing(covered: set<nat>)
    ensures Toggle(covered, Range(0, 0)) == covered
  {
    assert Range(0, 0) == {};
  }

  lemma ToggleMore(covered: set<nat>, lo: nat, n: nat)
    ensures Toggle(Toggle(covered, Range(0, lo)), Range(lo, lo + n)) == Toggle(covered, Range(0, lo + n))
  {
  }

  lemma SpanBounds(p: Params)
    requires p.Valid()
    ensures p.size < p.Span() && p.maxBlocksize <= p.Span() <= p.size + p.maxBlocksize
  {
    BytesAround(p.size, p.maxBlocksize);
  }

  /** Every block of a chain ends inside the span, wherever the chain starts or wraps. */
  lemma {:induction false} SpotsBelow(size: nat, offset: nat, length: nat, repetitions: nat, span: nat)
    requires size <= span && length <= span
    ensures forall j :: 0 <= j < |Spots(size, offset, length, repetitions)| ==>
              Spots(size, offset, length, repetitions)[j] + length <= span
    decreases repetitions
  {
    if repetitions != 0 && offset + length <= size {
      SpotsBelow(size, offset + length, length, repetitions - 1, span);
    }
  }

  /** Operations of the program that fit into `size` bytes, all of them covered, and leave them so. */
  ghost predicate Keeps(ops: seq<Op>, size: nat) {
    AllFit(Range(0, size), ops, size) && CoverAll(Range(0, size), ops) == Range(0, size) && Honest(ops)
  }

  lemma KeepsNothing(size: nat)
    ensures Keeps([], size)
  {
  }

  lemma KeepsConcat(a: seq<Op>, b: seq<Op>, size: nat)
    requires Keeps(a, size) && Keeps(b, size)
    ensures Keeps(a + b, size)
  {
    hide AllFit, CoverAll, Honest;
    AllFitConcat(Range(0, size), a, b, size);
    CoverAllConcat(Range(0, size), a, b);
    HonestConcat(a, b);
  }

  lemma BlockKeeps(pos: nat, data: seq<Bits>, size: nat)
    requires pos + |data| <= size
    ensures Keeps(BlockOps(pos, data), size)
  {
    var all, block := Range(0, size), Range(pos, pos + |data|);
    var ops, read := BlockOps(pos, data), [ReadBlock(pos, |data|)];
    assert read[..0] == [] && ops[..1] == read;
    assert CoverAll(all, read) == all - block && AllFit(all, read, size);
    assert (all - block) + block == all;
  }

  lemma {:induction false} ChainKeeps(spots: seq<nat>, data: seq<Bits>, size: nat)
    requires forall j :: 0 <= j < |spots| ==> spots[j] + |data| <= size
    ensures Keeps(ChainOps(spots, data), size)
  {
    hide Keeps;
    if spots == [] {
      KeepsNothing(size);
    } else {
      var front := spots[..|spots| - 1];
      ChainKeeps(front, data, size);
      BlockKeeps(spots[|spots| - 1], data, size);
      KeepsConcat(ChainOps(front, data), BlockOps(spots[|spots| - 1], data), size);
    }
  }

  lemma RoundSpotsBelow(p: Params, d: Draw)
    requires p.Valid() && d.Drawn?
    ensures forall j :: 0 <= j < |RoundSpots(p, d)| ==>
              RoundSpots(p, d)[j] + d.length % p.maxBlocksize <= p.Span()
  {
    SpanBounds(p);
    SpotsBelow(p.size, Abs(d.offset) % p.size, d.length % p.maxBlocksize,
               d.repetitions % p.maxChainlen + 1, p.Span());
  }

  /** Every chain keeps to the span, for every draw. */
  lemma RoundKeeps(p: Params, d: Draw)
    requires p.Valid()
    ensures Keeps(RoundOps(p, d), p.Span())
  {
    hide Keeps;
    if d.NoRandom? {
      KeepsNothing(p.Span());
    } else {
      RoundSpotsBelow(p, d);
      ChainKeeps(RoundSpots(p, d), d.Block(d.length % p.maxBlocksize), p.Span());
    }
  }

  lemma {:induction false} RoundsKeep(p: Params, draws: nat -> Draw, n: nat)
    requires p.Valid()
    ensures Keeps(RoundsOps(p, draws, n), p.Span())
  {
    hide Keeps, RoundOps;
    if n == 0 {
      KeepsNothing(p.Span());
    } else {
      RoundsKeep(p, draws, n - 1);
      RoundKeeps(p, draws(n - 1));
      KeepsConcat(RoundsOps(p, draws, n - 1), RoundOps(p, draws(n - 1)), p.Span());
    }
  }

  /** Reads and writes alternate, each write going where the read before it was. */
  predicate Paired(ops: seq<Op>, size: nat) {
    |ops| % 2 == 0 && forall i :: 0 <= i < |ops| ==> PairedAt(ops, size, i)
  }

  predicate PairedAt(ops: seq<Op>, size: nat, i: nat)
    requires i < |ops|
  {
    if i % 2 == 0 then ops[i].ReadBlock? && ops[i].pos + ops[i].len <= size
    else ops[i].PutBlock? && ops[i - 1] == ReadBlock(ops[i].pos, |ops[i].data|)
  }

  lemma PairedConcat(a: seq<Op>, b: seq<Op>, size: nat)
    requires Paired(a, size) && Paired(b, size)
    ensures Paired(a + b, size)
  {
    var ops := a + b;
    forall i | 0 <= i < |ops| ensures PairedAt(ops, size, i) {
      if i < |a| {
        assert PairedAt(a, size, i);
      } else {
        assert PairedAt(b, size, i - |a|);
        assert (i - |a|) % 2 == i % 2;
      }
    }
  }

  lemma {:induction false} ChainPaired(spots: seq<nat>, data: seq<Bits>, size: nat)
    requires forall j :: 0 <= j < |spots| ==> spots[j] + |data| <= size
    ensures Paired(ChainOps(spots, data), size)
  {
    if spots != [] {
      ChainPaired(spots[..|spots| - 1], data, size);
      PairedConcat(ChainOps(spots[..|spots| - 1], data), BlockOps(spots[|spots| - 1], data), size);
    }
  }

  lemma {:induction false} RoundsPaired(p: Params, draws: nat -> Draw, n: nat)
    requires p.Valid()
    ensures Paired(RoundsOps(p, draws, n), p.Span())
  {
    hide Paired, ChainOps;
    if n == 0 {
      NothingPaired(p.Span());
    } else {
      var d := draws(n - 1);
      RoundsPaired(p, draws, n - 1);
      if d.Drawn? {
        RoundSpotsBelow(p, d);
        ChainPaired(RoundSpots(p, d), d.Block(d.length % p.maxBlocksize), p.Span());
      } else {
        NothingPaired(p.Span());
      }
      PairedConcat(RoundsOps(p, draws, n - 1), RoundOps(p, d), p.Span());
    }
  }

  lemma NothingPaired(size: nat)
    ensures Paired([], size)
  {
  }

  /** The positions of a block that was read last and not yet written. */
  function InProgress(ops: seq<Op>): set<nat> {
    if |ops| % 2 == 1 && ops[|ops| - 1].ReadBlock? then
      Range(ops[|ops| - 1].pos, ops[|ops| - 1].pos + ops[|ops| - 1].len)
    else {}
  }

  lemma PairedCover(all: set<nat>, read: Op, put: Op)
    requires read.ReadBlock? && put.PutBlock? && read == ReadBlock(put.pos, |put.data|)
    requires Range(read.pos, read.pos + read.len) <= all
    ensures Cover(all, read) == all - Range(read.pos, read.pos + read.len)
    ensures Cover(all - Range(read.pos, read.pos + read.len), put) == all
  {
  }

  lemma PairOf(ops: seq<Op>, size: nat, i: nat)
    requires Paired(ops, size) && i < |ops| && i % 2 == 0
    ensures i + 1 < |ops| && ops[i].ReadBlock? && ops[i + 1].PutBlock?
    ensures ops[i] == ReadBlock(ops[i + 1].pos, |ops[i + 1].data|)
    ensures Range(ops[i].pos, ops[i].pos + ops[i].len) <= Range(0, size)
  {
    assert PairedAt(ops, size, i) && PairedAt(ops, size, i + 1);
  }

  /** What is covered after `i` operations: everything, except a block between its read and its
      write. */
  lemma {:induction false} PairedCovers(ops: seq<Op>, size: nat, i: nat)
    requires Paired(ops, size) && i <= |ops|
    ensures CoverAll(Range(0, size), ops[..i]) == Range(0, size) - InProgress(ops[..i])
  {
    hide Paired, Cover;
    if i == 0 {
      assert ops[..0] == [];
    } else {
      var part, all := ops[..i], Range(0, size);
      assert all - {} == all;
      PairedCovers(ops, size, i - 1);
      assert part[..i - 1] == ops[..i - 1] && part[i - 1] == ops[i - 1];
      var read := if i % 2 == 1 then i - 1 else i - 2;
      PairOf(ops, size, read);
      PairedCover(Range(0, size), ops[read], ops[read + 1]);
      assert i % 2 == 0 ==> ops[..i - 1][i - 2] == ops[read];
    }
  }

  /** No chain changes the discrepancy between the signature and the file below the span. */
  lemma ChainConserves(p: Params, d: Draw, s: Sys, i: nat)
    requires p.Valid() && i < WORDS
    ensures Discrepancy(i, Exec(s, RoundOps(p, d)), Range(0, p.Span()), p.Span())
         == Discrepancy(i, s, Range(0, p.Span()), p.Span())
  {
    hide Discrepancy, RoundOps, AllFit, Exec;
    var all, ops := Range(0, p.Span()), RoundOps(p, d);
    RoundKeeps(p, d);
    DriftConserved(i, s, all, ops, p.Span());
    NoDrift(s, all, ops, p.Span());
    WordZero(i, Drift(s, all, ops, p.Span()), 0);
  }

  /** A run uncovers everything it covered: it starts with the positions it does not pre-read
      counted as covered and ends with none covered. */
  lemma RunCovers(p: Params, prereads: nat, draws: nat -> Draw, rounds: nat)
    requires p.Valid() && prereads <= p.Blocks()
    ensures var ops := RunOps(p, prereads, draws, rounds);
            var unread := Range(Bytes(prereads, p.maxBlocksize), p.Span());
            AllFit(unread, ops, p.Span()) && CoverAll(unread, ops) == {}
  {
    hide AllFit, Honest, CoverAll, ReadOps, RoundsOps;
    var span, all := p.Span(), Range(0, p.Span());
    var unread := Range(Bytes(prereads, p.maxBlocksize), span);
    var pre, mid := ReadOps(p.maxBlocksize, prereads), RoundsOps(p, draws, rounds);
    var post := ReadOps(p.maxBlocksize, p.Blocks());
    BytesMono(prereads, p.Blocks(), p.maxBlocksize);
    ToggleAll(Bytes(prereads, p.maxBlocksize), span);
    ReadOpsCover(unread, p.maxBlocksize, prereads, span);
    RoundsKeep(p, draws, rounds);
    ReadOpsCover(all, p.maxBlocksize, p.Blocks(), span);
    AllFitConcat(unread, pre, mid, span);
    CoverAllConcat(unread, pre, mid);
    AllFitConcat(unread, pre + mid, post, span);
    CoverAllConcat(unread, pre + mid, post);
  }

  lemma ToggleAll(n: nat, size: nat)
    requires n <= size
    ensures Toggle(Range(n, size), Range(0, n)) == Range(0, size)
    ensures Toggle(Range(0, size), Range(0, size)) == {}
  {
  }

  lemma SameCoverage(covered: set<nat>, ops: seq<Op>, program: seq<Op>, size: nat)
    requires Program(ops) == program && AllFit(covered, program, size)
    ensures AllFit(covered, ops, size) && CoverAll(covered, ops) == CoverAll(covered, program)
  {
    ProgramFits(covered, ops, size);
  }

  /** The same for a run interleaved with alterations of the store. */
  lemma TraceCovers(p: Params, prereads: nat, draws: nat -> Draw, rounds: nat, ops: seq<Op>)
    requires p.Valid() && prereads <= p.Blocks()
    requires Program(ops) == RunOps(p, prereads, draws, rounds)
    ensures AllFit(Range(Bytes(prereads, p.maxBlocksize), p.Span()), ops, p.Span())
    ensures CoverAll(Range(Bytes(prereads, p.maxBlocksize), p.Span()), ops) == {}
  {
    RunCovers(p, prereads, draws, rounds);
    SameCoverage(Range(Bytes(prereads, p.maxBlocksize), p.Span()), ops, RunOps(p, prereads, draws, rounds), p.Span());
  }

  // ---------- the whole-run theorems ----------

  /** The bytes of the initial file that the first read did not reach. */
  function Unread(p: Params, file: seq<Bits>, prereads: nat): (r: seq<Bits>)
    requires p.Valid()
    ensures |r| == p.Span()
  {
    Masked(file, Range(Bytes(prereads, p.maxBlocksize), p.Span()), p.Span())
  }

  /** What the store did behind the program's back to positions below the span. Alterations of a
      position count from its first read on, or from the start if the first read does not reach it,
      and until its final read. */
  function RunDrift(p: Params, file: seq<Bits>, prereads: nat, ops: seq<Op>): (r: seq<Bits>)
    requires p.Valid()
    ensures |r| == p.Span()
  {
    Drift(Sys(ZERO, file), Range(Bytes(prereads, p.maxBlocksize), p.Span()), ops, p.Span())
  }

  /** For every interleaving of a run with arbitrary alterations of the store, the final words are
      the signature of the drift, plus that of whatever the first read missed. */
  lemma FinalSignature(p: Params, file: seq<Bits>, prereads: nat, draws: nat -> Draw, rounds: nat,
                       ops: seq<Op>, i: nat)
    requires p.Valid() && prereads <= p.Blocks() && i < WORDS
    requires Program(ops) == RunOps(p, prereads, draws, rounds)
    ensures Exec(Sys(ZERO, file), ops).xors[i]
         == Word(i, Unread(p, file, prereads), 0) ^ Word(i, RunDrift(p, file, prereads, ops), 0)
  {
    TraceCovers(p, prereads, draws, rounds, ops);
    ClosedTrace(i, Sys(ZERO, file), Range(Bytes(prereads, p.maxBlocksize), p.Span()), ops, p.Span());
  }

  /** Pre-reading one block past the end of the file, but not past the span, misses nothing. */
  lemma PrereadSuffices(p: Params, file: seq<Bits>, i: nat)
    requires p.Valid()
    ensures p.Prereads(|file|) <= p.Blocks()
    ensures Word(i, Unread(p, file, p.Prereads(|file|)), 0) == 0
  {
    var b := p.maxBlocksize;
    var limit := if p.size < |file| + b then p.size else |file| + b;
    BlocksMono(limit, p.size, b);
    var n := p.Prereads(|file|);
    BytesAround(limit, b);
    if limit == p.size {
      assert Range(Bytes(n, b), p.Span()) == {};
    }
    WordZero(i, Unread(p, file, n), 0);
  }

  /** The verdict "OK". */
  predicate Passes(xors: Words) {
    forall i :: 0 <= i < WORDS ==> xors[i] == 0
  }

  /** If the first read is cut short, which the program ignores, an honest store passes exactly
      when the signature of the missed part of the file happens to be zero. */
  lemma ShortPreread(p: Params, file: seq<Bits>, prereads: nat, draws: nat -> Draw, rounds: nat)
    requires p.Valid() && prereads <= p.Blocks()
    ensures Passes(Exec(Sys(ZERO, file), RunOps(p, prereads, draws, rounds)).xors)
       <==> Passes(Sig(Unread(p, file, prereads), 0))
  {
    var ops := RunOps(p, prereads, draws, rounds);
    NoAlterations(p, prereads, draws, rounds);
    NoDrift(Sys(ZERO, file), Range(Bytes(prereads, p.maxBlocksize), p.Span()), ops, p.Span());
    forall i | 0 <= i < WORDS
      ensures Exec(Sys(ZERO, file), ops).xors[i] == Sig(Unread(p, file, prereads), 0)[i]
    {
      FinalSignature(p, file, prereads, draws, rounds, ops, i);
      WordZero(i, RunDrift(p, file, prereads, ops), 0);
    }
  }

  /** Such a run can fail although nothing was altered: a file of one byte that is not zero, and a
      first read that fails at once. */
  lemma ShortPrereadExample(p: Params, v: Bits, draws: nat -> Draw, rounds: nat)
    requires p.Valid() && v != 0
    ensures !Passes(Exec(Sys(ZERO, [v]), RunOps(p, 0, draws, rounds)).xors)
  {
    hide Exec, RunOps;
    ShortPreread(p, [v], 0, draws, rounds);
    BytesAround(p.size, p.maxBlocksize);
    var unread := Unread(p, [v], 0);
    assert unread == Embed([v], 0, p.Span());
    WordEmbed(8, [v], 0, p.Span());
    WordAppend(8, [], v, 0);
  }

  /** No false alarm: a store that keeps what is written always passes. */
  lemma NoFalseAlarm(p: Params, file: seq<Bits>, draws: nat -> Draw, rounds: nat)
    requires p.Valid()
    ensures Passes(Exec(Sys(ZERO, file), RunOps(p, p.Prereads(|file|), draws, rounds)).xors)
  {
    forall i | 0 <= i < WORDS ensures Sig(Unread(p, file, p.Prereads(|file|)), 0)[i] == 0 {
      PrereadSuffices(p, file, i);
    }
    PrereadSuffices(p, file, 0);
    ShortPreread(p, file, p.Prereads(|file|), draws, rounds);
  }

  /** The verdict of any run: what the first read missed and the drift have, together, a zero
      signature. */
  lemma FinalVerdict(p: Params, file: seq<Bits>, prereads: nat, draws: nat -> Draw, rounds: nat, ops: seq<Op>)
    requires p.Valid() && prereads <= p.Blocks()
    requires Program(ops) == RunOps(p, prereads, draws, rounds)
    ensures Passes(Exec(Sys(ZERO, file), ops).xors)
       <==> Passes(Sig(Xor(Unread(p, file, prereads), RunDrift(p, file, prereads, ops)), 0))
  {
    hide Exec, Unread, RunDrift, RunOps, Program, Xor;
    forall i | 0 <= i < WORDS
      ensures Exec(Sys(ZERO, file), ops).xors[i]
           == Sig(Xor(Unread(p, file, prereads), RunDrift(p, file, prereads, ops)), 0)[i]
    {
      FinalSignature(p, file, prereads, draws, rounds, ops, i);
      WordLinear(i, Unread(p, file, prereads), RunDrift(p, file, prereads, ops), 0);
    }
  }

  /** With alterations, the verdict is "OK" exactly when their drift has a zero signature. */
  lemma VerdictOnDrift(p: Params, file: seq<Bits>, draws: nat -> Draw, rounds: nat, ops: seq<Op>)
    requires p.Valid()
    requires Program(ops) == RunOps(p, p.Prereads(|file|), draws, rounds)
    ensures Passes(Exec(Sys(ZERO, file), ops).xors)
       <==> Passes(Sig(RunDrift(p, file, p.Prereads(|file|), ops), 0))
  {
    var n := p.Prereads(|file|);
    forall i | 0 <= i < WORDS
      ensures Exec(Sys(ZERO, file), ops).xors[i] == Sig(RunDrift(p, file, n, ops), 0)[i]
    {
      PrereadSuffices(p, file, i);
      FinalSignature(p, file, n, draws, rounds, ops, i);
    }
  }

  lemma {:induction false} ReadsHonest(blocksize: nat, n: nat)
    ensures Honest(ReadOps(blocksize, n))
  {
    if n != 0 {
      ReadsHonest(blocksize, n - 1);
    }
  }

  lemma NoAlterations(p: Params, prereads: nat, draws: nat -> Draw, rounds: nat)
    requires p.Valid()
    ensures Honest(RunOps(p, prereads, draws, rounds))
    ensures Program(RunOps(p, prereads, draws, rounds)) == RunOps(p, prereads, draws, rounds)
  {
    var pre, mid := ReadOps(p.maxBlocksize, prereads), RoundsOps(p, draws, rounds);
    ReadsHonest(p.maxBlocksize, prereads);
    ReadsHonest(p.maxBlocksize, p.Blocks());
    RoundsKeep(p, draws, rounds);
    HonestConcat(pre, mid);
    HonestConcat(pre + mid, ReadOps(p.maxBlocksize, p.Blocks()));
    HonestProgram(RunOps(p, prereads, draws, rounds));
  }
}
