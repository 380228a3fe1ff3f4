/** The program fstest.c: its loops over the file and its checker state. The store may change by
    itself before every transfer. */
module Fstest {
  import opened FsSignature
  import opened FsStore
  import opened FsTrace
  import opened FsRun

  datatype Mode = Normal | JustRead | NoSync

  ghost function Snapshot(st: State, k: Kernel): Sys
    requires st.xors.Length == WORDS
    reads st.xors, k
  {
    Sys(st.xors[..], k.file)
  }

  /** The loop over a block that adds it to the checker state, or takes it out again. */
  method Register(st: State, data: array<Bits>, len: nat, pos: nat)
    requires st.xors.Length == WORDS && len <= data.Length && data != st.xors
    modifies st.xors
    ensures st.xors[..] == Xor(old(st.xors[..]), Sig(data[..len], pos))
  {
    var i := 0;
    while i < len
      invariant 0 <= i <= len
      invariant forall j :: 0 <= j < WORDS ==> st.xors[j] == old(st.xors[j]) ^ Word(j, data[..i], pos)
    {
      assert data[..i + 1] == data[..i] + [data[i]];
      forall j | 0 <= j < WORDS
        ensures Word(j, data[..i + 1], pos) == Word(j, data[..i], pos) ^ Share(j, data[i], pos + i)
      {
        WordAppend(j, data[..i], data[i], pos);
      }
      st.UpdateXor(data[i], pos + i);
      i := i + 1;
    }
  }

  /** What may have happened to the store since the last transfer. */
  method Meanwhile(st: State, k: Kernel) returns (ghost ops: seq<Op>)
    requires st.xors.Length == WORDS
    modifies k`file, k`whims
    ensures Performs(old(Snapshot(st, k)), Snapshot(st, k), ops, [], old(k.whims) == [])
    ensures old(k.whims) == [] ==> k.whims == [] && k.file == old(k.file)
  {
    ghost var s, changes := Snapshot(st, k), k.whims != [] && k.whims[0].Changes?;
    k.Meddle();
    if changes {
      ops := [Alter(k.file)];
      PerformsAlter(s, k.file);
    } else {
      ops := [];
      PerformsNothing(s, old(k.whims) == []);
    }
  }

  /** A block is read and taken into the checker state, or out of it. A failure leaves both as they
      were. */
  method ReadIn(st: State, k: Kernel, pos: nat, len: nat, buf: array<Bits>) returns (failed: bool, ghost ops: seq<Op>)
    requires st.xors.Length == WORDS && len <= buf.Length && st.xors != buf
    modifies st.xors, k, buf
    ensures Performs(old(Snapshot(st, k)), Snapshot(st, k), ops, if failed then [] else [ReadBlock(pos, len)],
                     old(k.whims) == [])
    ensures old(k.whims) == [] ==> k.whims == [] && k.file == old(k.file)
    ensures HardErrors(old(k.schedule)) == HardErrors(k.schedule) + if failed then 1 else 0
  {
    hide Performs, Xor, Sig;
    ghost var s, quiet := Snapshot(st, k), k.whims == [];
    ops := Meanwhile(st, k);
    ghost var t, moved := Snapshot(st, k), 0;
    failed, moved := SafeFileop(PRead, k, pos, len, buf);
    if !failed {
      assert buf[..len] == Window(k.file, pos, len);
      Register(st, buf, len, pos);
      PerformsOne(t, ReadBlock(pos, len), quiet);
      PerformsThen(s, t, Snapshot(st, k), ops, [ReadBlock(pos, len)], [], [ReadBlock(pos, len)], quiet, quiet);
      ops := ops + [ReadBlock(pos, len)];
      assert [] + [ReadBlock(pos, len)] == [ReadBlock(pos, len)];
    }
  }

  /** A block is written and taken into the checker state; nothing at or after its end is touched. */
  method WriteOut(st: State, k: Kernel, pos: nat, len: nat, data: array<Bits>, ghost block: seq<Bits>)
    returns (failed: bool, ghost ops: seq<Op>)
    requires st.xors.Length == WORDS && len <= data.Length && st.xors != data && data[..len] == block
    modifies st.xors, k, data
    ensures data[..len] == block
    ensures !failed ==>
              Performs(old(Snapshot(st, k)), Snapshot(st, k), ops, [PutBlock(pos, block)], old(k.whims) == [])
    ensures old(k.whims) == [] ==> k.whims == [] && Tail(k.file, pos + len) == Tail(old(k.file), pos + len)
    ensures HardErrors(old(k.schedule)) == HardErrors(k.schedule) + if failed then 1 else 0
  {
    hide Performs, Xor, Sig, Overwrite, Tail;
    ghost var s, quiet := Snapshot(st, k), k.whims == [];
    ops := Meanwhile(st, k);
    ghost var t, moved := Snapshot(st, k), 0;
    failed, moved := SafeFileop(PWrite, k, pos, len, data);
    OverwriteTail(t.file, pos, data[..][..moved], pos + len);
    assert data[..][..len] == data[..len];
    if !failed {
      Register(st, data, len, pos);
      PerformsOne(t, PutBlock(pos, block), quiet);
      PerformsThen(s, t, Snapshot(st, k), ops, [PutBlock(pos, block)], [], [PutBlock(pos, block)], quiet, quiet);
      ops := ops + [PutBlock(pos, block)];
      assert [] + [PutBlock(pos, block)] == [PutBlock(pos, block)];
    }
  }

  /** The operations a call of insert_block stands for. */
  function InsertOps(mode: Mode, pos: nat, len: nat, block: seq<Bits>): seq<Op> {
    if mode.JustRead? then [ReadBlock(pos, len)] else BlockOps(pos, block)
  }

  /** Takes the block out of the checker state and, unless it only reads, writes the new block and
      adds that. When only reading, a failure leaves the words as they were; fsync changes nothing. */
  method InsertBlock(st: State, k: Kernel, pos: nat, len: nat, buf: array<Bits>, newdata: array<Bits>, mode: Mode,
                     ghost block: seq<Bits>)
    returns (failed: bool, ghost ops: seq<Op>)
    requires st.xors.Length == WORDS && len <= buf.Length && len <= newdata.Length
    requires st.xors != buf && st.xors != newdata && buf != newdata
    requires newdata[..len] == block
    modifies st.xors, k, buf, newdata
    ensures newdata[..len] == block
    ensures !failed ==>
              Performs(old(Snapshot(st, k)), Snapshot(st, k), ops, InsertOps(mode, pos, len, block), old(k.whims) == [])
    ensures failed && mode.JustRead? ==>
              Performs(old(Snapshot(st, k)), Snapshot(st, k), ops, [], old(k.whims) == [])
    ensures old(k.whims) == [] ==> k.whims == [] && Tail(k.file, pos + len) == Tail(old(k.file), pos + len)
    ensures old(k.whims) == [] && mode.JustRead? ==> k.file == old(k.file)
    ensures HardErrors(old(k.schedule)) == HardErrors(k.schedule) + if failed then 1 else 0
  {
    hide Performs, Tail;
    ghost var s, quiet := Snapshot(st, k), k.whims == [];
    failed, ops := ReadIn(st, k, pos, len, buf);
    if failed || mode.JustRead? {
      return;
    }
    ghost var t, quietNow, put := Snapshot(st, k), k.whims == [], [];
    failed, put := WriteOut(st, k, pos, len, newdata, block);
    if !failed {
      PerformsThen(s, t, Snapshot(st, k), ops, put, [ReadBlock(pos, len)], [PutBlock(pos, block)],
                   quiet, quietNow);
      ops := ops + put;
      assert [ReadBlock(pos, len)] + [PutBlock(pos, block)] == BlockOps(pos, block);
    }
  }

  /** The block of a chain: random bytes, one random byte repeated, or four repeated. */
  method GenerateBlock(d: Draw, len: nat, buf: array<Bits>)
    requires d.Drawn? && len <= buf.Length
    modifies buf
    ensures buf[..len] == d.Block(len)
  {
    var mode := d.mode % 4;
    var i := 0;
    if mode == 2 {
      var c := d.bytes(0);
      while i < len
        invariant 0 <= i <= len && forall j :: 0 <= j < i ==> buf[j] == d.Generated(j)
      {
        buf[i] := c;
        i := i + 1;
      }
    } else if mode == 3 {
      var c := [d.bytes(0), d.bytes(1), d.bytes(2), d.bytes(3)];
      while i < len
        invariant 0 <= i <= len && forall j :: 0 <= j < i ==> buf[j] == d.Generated(j)
      {
        buf[i] := c[i % 4];
        i := i + 1;
      }
    } else {
      while i < len
        invariant 0 <= i <= len && forall j :: 0 <= j < i ==> buf[j] == d.Generated(j)
      {
        buf[i] := d.bytes(i);
        i := i + 1;
      }
    }
  }

  lemma BelowQuotient(v: nat, n: nat, d: nat)
    requires d > 0
    ensures v < n / d <==> (v + 1) * d <= n
  {
    assert n == n / d * d + n % d;
    if v < n / d {
      assert (v + 1) * d <= n / d * d;
    } else {
      assert n / d * d <= v * d;
      assert (v + 1) * d == v * d + d;
    }
  }

  /** Whether to sync after a block, so that of 2^32 random numbers the part in `syncPart` says yes;
      without a random number the run stops. */
  method ChooseSync(p: Params, drawn: Random) returns (sync: bool, stop: bool)
    ensures stop <==> p.syncPart !in {0, 1_000_000} && drawn.Exhausted?
    ensures p.syncPart == 0 ==> !sync
    ensures p.syncPart == 1_000_000 ==> sync
    ensures p.syncPart !in {0, 1_000_000} && drawn.Value? ==>
              (sync <==> (drawn.v + 1) * 1_000_000 <= p.syncPart * 0x1_0000_0000)
  {
    if drawn.Value? {
      BelowQuotient(drawn.v, p.syncPart * 0x1_0000_0000, MAX_FSYNC_PART);
    }
    if p.syncPart == MAX_FSYNC_PART {
      return true, false;
    } else if p.syncPart == 0 {
      return false, false;
    }
    match drawn
    case Exhausted => return false, true;
    case Value(v) => return v < p.syncPart * 0x1_0000_0000 / MAX_FSYNC_PART, false;
  }

  /** A chain goes on from the spots done so far. */
  lemma SpotsNext(done: seq<nat>, size: nat, offset: nat, length: nat, repetitions: nat, at: nat, left: nat,
                  all: seq<nat>)
    requires repetitions > 0 && done + Spots(size, offset, length, repetitions) == all
    requires if offset + length > size then at == 0 && left == 0 else at == offset && left == repetitions - 1
    ensures done + [at] + Spots(size, at + length, length, left) == all
  {
    assert Spots(size, offset, length, repetitions) == [at] + Spots(size, at + length, length, left);
  }

  lemma ChainOpsNext(done: seq<nat>, at: nat, block: seq<Bits>)
    ensures ChainOps(done + [at], block) == ChainOps(done, block) + BlockOps(at, block)
  {
    assert (done + [at])[..|done|] == done;
  }

  /** One turn of the loop of insert_chain: the block at `offset`, or at the start of the file if it
      would pass the end there, in which case it is the last one. `starved` says that the turn failed
      for want of a random number. */
  method ChainBlock(st: State, p: Params, k: Kernel, offset: nat, length: nat, repetitions: nat, d: Draw,
                    buf1: array<Bits>, buf2: array<Bits>, ghost block: seq<Bits>)
    returns (failed: bool, at: nat, left: nat, ghost ops: seq<Op>, ghost starved: bool)
    requires p.Valid() && st.xors.Length == WORDS && length < p.maxBlocksize && d.Drawn? && repetitions > 0
    requires p.maxBlocksize <= buf1.Length && p.maxBlocksize <= buf2.Length
    requires st.xors != buf1 && st.xors != buf2 && buf1 != buf2
    requires buf2[..length] == block
    modifies st.xors, k, buf1, buf2
    ensures buf2[..length] == block
    ensures if offset + length > p.size then at == 0 && left == 0 else at == offset && left == repetitions - 1
    ensures !failed ==>
              Performs(old(Snapshot(st, k)), Snapshot(st, k), ops, BlockOps(at, block), old(k.whims) == [])
    ensures old(k.whims) == [] ==> k.whims == [] && Tail(k.file, p.Span()) == Tail(old(k.file), p.Span())
    ensures starved ==> failed && !d.Complete() && Snapshot(st, k) == old(Snapshot(st, k))
    ensures HardErrors(old(k.schedule)) == HardErrors(k.schedule) + if failed && !starved then 1 else 0
  {
    SpanBounds(p);
    hide Performs, Tail, Params.Span, HardErrors, BlockOps, Draw.Complete;
    at, left, ops, starved := offset, repetitions, [], false;
    if offset + length > p.size {
      at := 0;
      left := 1;
    }
    var sync, stop := ChooseSync(p, d.sync(left));
    left := left - 1;
    if stop {
      Incomplete(d, left + 1);
      return true, at, left, [], true;
    }
    ghost var file, quiet := k.file, k.whims == [];
    failed, ops := InsertBlock(st, k, at, length, buf1, buf2, if sync then Normal else NoSync, block);
    if quiet {
      TailOfTail(k.file, file, at + length, p.Span());
    }
  }

  /** The loop of insert_chain over its blocks, whose bytes are in buf2. */
  method WriteChain(st: State, p: Params, k: Kernel, start: nat, length: nat, count: nat, d: Draw,
                    buf1: array<Bits>, buf2: array<Bits>, ghost block: seq<Bits>)
    returns (failed: bool, ghost ops: seq<Op>, ghost starved: bool)
    requires p.Valid() && st.xors.Length == WORDS && length < p.maxBlocksize && d.Drawn?
    requires p.maxBlocksize <= buf1.Length && p.maxBlocksize <= buf2.Length
    requires st.xors != buf1 && st.xors != buf2 && buf1 != buf2
    requires buf2[..length] == block
    modifies st.xors, k, buf1, buf2
    ensures !failed ==> Performs(old(Snapshot(st, k)), Snapshot(st, k), ops,
                                 ChainOps(Spots(p.size, start, length, count), block), old(k.whims) == [])
    ensures old(k.whims) == [] ==> k.whims == [] && Tail(k.file, p.Span()) == Tail(old(k.file), p.Span())
    ensures starved ==> failed && !d.Complete()
    ensures HardErrors(old(k.schedule)) == HardErrors(k.schedule) + if failed && !starved then 1 else 0
  {
    var offset: nat, repetitions: nat := start, count;
    ghost var s, quiet, done: seq<nat> := Snapshot(st, k), k.whims == [], [];
    ops, starved, failed := [], false, false;
    PerformsNothing(s, quiet);
    assert done + Spots(p.size, start, length, count) == Spots(p.size, start, length, count);
    assert ChainOps(done, block) == [];
    hide Performs, Tail, Spots, Params.Span, HardErrors, BlockOps, ChainOps, Draw.Complete;
    ghost var all := Spots(p.size, start, length, count);
    while repetitions != 0
      invariant buf2[..length] == block
      invariant done + Spots(p.size, offset, length, repetitions) == all
      invariant Performs(s, Snapshot(st, k), ops, ChainOps(done, block), quiet)
      invariant quiet ==> k.whims == [] && Tail(k.file, p.Span()) == Tail(s.file, p.Span())
      invariant HardErrors(k.schedule) == HardErrors(old(k.schedule)) && !starved && !failed
      decreases repetitions
    {
      ghost var t, quietNow, more := Snapshot(st, k), k.whims == [], [];
      var at: nat, left: nat;
      failed, at, left, more, starved := ChainBlock(st, p, k, offset, length, repetitions, d, buf1, buf2, block);
      if failed {
        return;
      }
      PerformsThen(s, t, Snapshot(st, k), ops, more, ChainOps(done, block), BlockOps(at, block), quiet, quietNow);
      ChainOpsNext(done, at, block);
      SpotsNext(done, p.size, offset, length, repetitions, at, left, all);
      ops, done := ops + more, done + [at];
      offset, repetitions := at + length, left;
    }
    SpotsNone(p.size, offset, length);
    assert done + [] == done;
  }

  lemma Incomplete(d: Draw, n: nat)
    requires d.Drawn? && d.sync(n).Exhausted?
    ensures !d.Complete()
  {
  }

  lemma SpotsNone(size: nat, offset: nat, length: nat)
    ensures Spots(size, offset, length, 0) == []
  {
  }

  /** One chain of equal blocks: those of its draw, at the places IsChain tells. */
  method InsertChain(st: State, p: Params, k: Kernel, d: Draw, buf1: array<Bits>, buf2: array<Bits>)
    returns (failed: bool, ghost ops: seq<Op>, ghost starved: bool)
    requires p.Valid() && st.xors.Length == WORDS
    requires p.maxBlocksize <= buf1.Length && p.maxBlocksize <= buf2.Length
    requires st.xors != buf1 && st.xors != buf2 && buf1 != buf2
    modifies st.xors, k, buf1, buf2
    ensures !failed ==> Performs(old(Snapshot(st, k)), Snapshot(st, k), ops, RoundOps(p, d), old(k.whims) == [])
    ensures !failed ==> d.Drawn? && IsChain(p, d, Program(ops))
    ensures old(k.whims) == [] ==> k.whims == [] && Tail(k.file, p.Span()) == Tail(old(k.file), p.Span())
    ensures starved ==> failed && !d.Complete()
    ensures HardErrors(old(k.schedule)) == HardErrors(k.schedule) + if failed && !starved then 1 else 0
  {
    if d.NoRandom? {
      return true, [], true;
    }
    RoundOpsMean(p, d);
    ghost var s := Snapshot(st, k);
    hide Tail, ChainOps, Spots, IsChain, Program, Exec;
    var offset: nat := Abs(d.offset) % p.size;
    var length: nat := d.length % p.maxBlocksize;
    var repetitions: nat := d.repetitions % p.maxChainlen + 1;
    GenerateBlock(d, length, buf2);
    failed, ops, starved := WriteChain(st, p, k, offset, length, repetitions, d, buf1, buf2, d.Block(length));
  }

  lemma ReadOpsNext(blocksize: nat, n: nat)
    ensures ReadOps(blocksize, n) + [ReadBlock(Bytes(n, blocksize), blocksize)] == ReadOps(blocksize, n + 1)
  {
  }

  /** The loop of cleanup: blocks are read as long as they start at or below `size`. */
  method ReadUpTo(st: State, k: Kernel, size: nat, blocksize: nat, buf1: array<Bits>, buf2: array<Bits>)
    returns (failed: bool, ghost ops: seq<Op>, ghost blocks: nat)
    requires blocksize > 0 && st.xors.Length == WORDS
    requires blocksize <= buf1.Length && blocksize <= buf2.Length
    requires st.xors != buf1 && st.xors != buf2 && buf1 != buf2
    modifies st.xors, k, buf1, buf2
    ensures Performs(old(Snapshot(st, k)), Snapshot(st, k), ops, ReadOps(blocksize, blocks), old(k.whims) == [])
    ensures old(k.whims) == [] ==> k.whims == [] && k.file == old(k.file)
    ensures blocks == 0 || Bytes(blocks - 1, blocksize) <= size
    ensures !failed ==> Bytes(blocks, blocksize) > size
    ensures HardErrors(old(k.schedule)) == HardErrors(k.schedule) + if failed then 1 else 0
  {
    hide Performs, Tail, HardErrors;
    ghost var s, quiet := Snapshot(st, k), k.whims == [];
    var off := 0;
    ops, blocks, failed := [], 0, false;
    PerformsNothing(s, quiet);
    while off <= size
      invariant off == Bytes(blocks, blocksize) && (blocks == 0 || Bytes(blocks - 1, blocksize) <= size)
      invariant Performs(s, Snapshot(st, k), ops, ReadOps(blocksize, blocks), quiet)
      invariant quiet ==> k.whims == [] && k.file == s.file
      invariant HardErrors(k.schedule) == HardErrors(old(k.schedule)) && !failed
      decreases size - off
    {
      ghost var t, quietNow, more := Snapshot(st, k), k.whims == [], [];
      failed, more := InsertBlock(st, k, off, blocksize, buf1, buf2, JustRead, buf2[..blocksize]);
      ghost var read := if failed then [] else [ReadBlock(off, blocksize)];
      PerformsThen(s, t, Snapshot(st, k), ops, more, ReadOps(blocksize, blocks), read, quiet, quietNow);
      ops := ops + more;
      if failed {
        assert ReadOps(blocksize, blocks) + [] == ReadOps(blocksize, blocks);
        return;
      }
      ReadOpsNext(blocksize, blocks);
      off := off + blocksize;
      blocks := blocks + 1;
    }
  }

  /** Reads the file block by block, up to `size` or, in the first pass, up to one block past the
      file's end. It never writes. `blocks` is the number of blocks it got through. */
  method Cleanup(st: State, p: Params, k: Kernel, buf1: array<Bits>, buf2: array<Bits>, first: bool)
    returns (failed: bool, ghost ops: seq<Op>, ghost blocks: nat)
    requires p.Valid() && st.xors.Length == WORDS
    requires p.maxBlocksize <= buf1.Length && p.maxBlocksize <= buf2.Length
    requires st.xors != buf1 && st.xors != buf2 && buf1 != buf2
    modifies st.xors, k, buf1, buf2
    ensures Performs(old(Snapshot(st, k)), Snapshot(st, k), ops, ReadOps(p.maxBlocksize, blocks), old(k.whims) == [])
    ensures old(k.whims) == [] ==> k.whims == [] && k.file == old(k.file)
    ensures blocks <= if first then p.Prereads(|old(k.file)|) else p.Blocks()
    ensures !failed ==> blocks == if first then p.Prereads(|old(k.file)|) else p.Blocks()
    ensures HardErrors(old(k.schedule)) == HardErrors(k.schedule) + if failed then 1 else 0
  {
    hide Performs;
    ClearRest(buf2, 0, p.maxBlocksize);
    var size := p.size;
    if first {
      size := |k.file| + p.maxBlocksize;
      if p.size < size {
        size := p.size;
      }
    }
    failed, ops, blocks := ReadUpTo(st, k, size, p.maxBlocksize, buf1, buf2);
    BlocksBetween(blocks, size, p.maxBlocksize);
  }

  lemma BlocksBetween(n: nat, size: nat, b: nat)
    requires b > 0
    ensures n == 0 || Bytes(n - 1, b) <= size ==> n <= size / b + 1
    ensures Bytes(n, b) > size ==> n > size / b
  {
    BytesAround(size, b);
    if size / b + 1 < n {
      BytesMono(size / b + 1, n - 1, b);
    } else if n <= size / b {
      BytesMono(n, size / b, b);
    }
  }

  datatype Exit = OK | Fail | Aborted

  /** The verdict: the first nonzero word fails the run. */
  method Verdict(st: State) returns (exit: Exit)
    requires st.xors.Length == WORDS
    ensures exit == if Passes(st.xors[..]) then OK else Fail
  {
    var i := 0;
    while i < 9
      invariant 0 <= i <= 9
      invariant forall j :: 0 <= j < i ==> st.xors[j] == 0
    {
      if st.xors[i] != 0 {
        assert st.xors[..][i] != 0;
        return Fail;
      }
      i := i + 1;
    }
    return OK;
  }

  /** The chains of a run, until an interrupt is noticed. */
  method Iterate(st: State, p: Params, k: Kernel, draws: nat -> Draw, interruptAt: nat,
                 buf1: array<Bits>, buf2: array<Bits>)
    returns (failed: bool, ghost ops: seq<Op>, ghost rounds: nat)
    requires p.Valid() && st.xors.Length == WORDS
    requires p.maxBlocksize <= buf1.Length && p.maxBlocksize <= buf2.Length
    requires st.xors != buf1 && st.xors != buf2 && buf1 != buf2
    modifies st.xors, k, buf1, buf2
    ensures !failed ==>
              Performs(old(Snapshot(st, k)), Snapshot(st, k), ops, RoundsOps(p, draws, rounds), old(k.whims) == [])
    ensures !failed ==> forall i :: 0 <= i < rounds ==> draws(i).Drawn?
    ensures !failed ==> rounds == if interruptAt < p.numIterations then interruptAt else p.numIterations
    ensures old(k.whims) == [] ==> k.whims == [] && Tail(k.file, p.Span()) == Tail(old(k.file), p.Span())
    ensures HardErrors(old(k.schedule)) == 0 && (forall i: nat :: draws(i).Complete()) ==>
              !failed && HardErrors(k.schedule) == 0
  {
    hide Performs, Tail, RoundOps, HardErrors, Draw.Complete, IsChain, Program;
    ghost var s, quiet := Snapshot(st, k), k.whims == [];
    var i := 0;
    ops, failed := [], false;
    PerformsNothing(s, quiet);
    while i < p.numIterations
      invariant 0 <= i <= interruptAt && i <= p.numIterations && !failed
      invariant Performs(s, Snapshot(st, k), ops, RoundsOps(p, draws, i), quiet)
      invariant quiet ==> k.whims == [] && Tail(k.file, p.Span()) == Tail(s.file, p.Span())
      invariant HardErrors(k.schedule) == HardErrors(old(k.schedule))
      invariant forall j :: 0 <= j < i ==> draws(j).Drawn?
    {
      if i == interruptAt {
        break;
      }
      ghost var t, quietNow, more, starved := Snapshot(st, k), k.whims == [], [], false;
      failed, more, starved := InsertChain(st, p, k, draws(i), buf1, buf2);
      if failed {
        return true, ops, i;
      }
      PerformsThen(s, t, Snapshot(st, k), ops, more, RoundsOps(p, draws, i), RoundOps(p, draws(i)), quiet, quietNow);
      ops := ops + more;
      i := i + 1;
    }
    return false, ops, i;
  }

  /** A whole run over a store that may change by itself before every transfer. `interruptAt` is the
      round at which an interrupt signal is noticed, if it comes before the last one. Unless it is
      aborted, the run does exactly the operations of RunOps, with alterations in between, and the
      verdict is about those alterations and what the first read, whose failure goes unnoticed, has
      missed. On a quiet store a run without hard errors says "OK", and no run changes anything past
      the span. */
  method Run(p: Params, k: Kernel, draws: nat -> Draw, interruptAt: nat)
    returns (exit: Exit, ghost prereads: nat, ghost rounds: nat, ghost ops: seq<Op>)
    requires p.Valid()
    modifies k
    ensures prereads <= p.Blocks()
    ensures HardErrors(old(k.schedule)) == 0 ==> prereads == p.Prereads(|old(k.file)|)
    ensures exit != Aborted ==>
              rounds == if interruptAt < p.numIterations then interruptAt else p.numIterations
    ensures exit != Aborted ==>
              Program(ops) == RunOps(p, prereads, draws, rounds) && (forall i :: 0 <= i < rounds ==> draws(i).Drawn?) &&
              (old(k.whims) == [] ==> ops == RunOps(p, prereads, draws, rounds)) &&
              k.file == Exec(Sys(ZERO, old(k.file)), ops).file
    ensures exit != Aborted ==>
              (exit == OK <==>
               Passes(Sig(Xor(Unread(p, old(k.file), prereads), RunDrift(p, old(k.file), prereads, ops)), 0)))
    ensures exit != Aborted && HardErrors(old(k.schedule)) == 0 ==>
              (exit == OK <==> Passes(Sig(RunDrift(p, old(k.file), prereads, ops), 0)))
    ensures exit != Aborted && old(k.whims) == [] ==>
              (exit == OK <==> Passes(Sig(Unread(p, old(k.file), prereads), 0)))
    ensures old(k.whims) == [] ==> Tail(k.file, p.Span()) == Tail(old(k.file), p.Span())
    ensures HardErrors(old(k.schedule)) == 0 && (forall i: nat :: draws(i).Complete()) ==> exit != Aborted
    ensures HardErrors(old(k.schedule)) == 0 && (forall i: nat :: draws(i).Complete()) && old(k.whims) == [] ==>
              exit == OK
  {
    ghost var file0, quiet := k.file, k.whims == [];
    var st := new State();
    ghost var s0 := Snapshot(st, k);
    PrereadSuffices(p, file0, 0);
    hide Performs, RoundsOps, ReadOps, Exec, Program, Passes, Sig, Xor, Unread, RunDrift, Tail, Draw.Complete;
    var buf1 := new Bits[p.maxBlocksize];
    var buf2 := new Bits[p.maxBlocksize];
    var failed;
    failed, ops, prereads := Cleanup(st, p, k, buf1, buf2, true);
    ghost var s1, q1, mid, post, blocks := Snapshot(st, k), k.whims == [], [], [], 0;
    failed, mid, rounds := Iterate(st, p, k, draws, interruptAt, buf1, buf2);
    if failed {
      return Aborted, prereads, rounds, ops;
    }
    ghost var s2, q2 := Snapshot(st, k), k.whims == [];
    failed, post, blocks := Cleanup(st, p, k, buf1, buf2, false);
    if failed {
      return Aborted, prereads, rounds, ops;
    }
    exit := Verdict(st);
    ghost var end := Snapshot(st, k);
    PerformsThen(s0, s1, s2, ops, mid, ReadOps(p.maxBlocksize, prereads), RoundsOps(p, draws, rounds), quiet, q1);
    PerformsThen(s0, s2, end, ops + mid, post, ReadOps(p.maxBlocksize, prereads) + RoundsOps(p, draws, rounds),
                 ReadOps(p.maxBlocksize, p.Blocks()), quiet, q2);
    ops := ops + mid + post;
    RunVerdict(p, file0, prereads, draws, rounds, ops, end, quiet);
  }

  /** What a completed run says about the store. */
  lemma RunVerdict(p: Params, file: seq<Bits>, prereads: nat, draws: nat -> Draw, rounds: nat, ops: seq<Op>,
                   end: Sys, quiet: bool)
    requires p.Valid() && prereads <= p.Blocks()
    requires Performs(Sys(ZERO, file), end, ops, RunOps(p, prereads, draws, rounds), quiet)
    ensures end == Exec(Sys(ZERO, file), ops) && Program(ops) == RunOps(p, prereads, draws, rounds)
    ensures quiet ==> ops == RunOps(p, prereads, draws, rounds)
    ensures Passes(end.xors) <==>
            Passes(Sig(Xor(Unread(p, file, prereads), RunDrift(p, file, prereads, ops)), 0))
    ensures prereads == p.Prereads(|file|) ==>
              (Passes(end.xors) <==> Passes(Sig(RunDrift(p, file, prereads, ops), 0)))
    ensures quiet ==> (Passes(end.xors) <==> Passes(Sig(Unread(p, file, prereads), 0)))
    ensures quiet && prereads == p.Prereads(|file|) ==> Passes(end.xors)
  {
    hide RunOps, Exec, Program, Passes, Sig, Xor, Unread, RunDrift;
    FinalVerdict(p, file, prereads, draws, rounds, ops);
    if prereads == p.Prereads(|file|) {
      VerdictOnDrift(p, file, draws, rounds, ops);
      NoFalseAlarm(p, file, draws, rounds);
    }
    if quiet {
      ShortPreread(p, file, prereads, draws, rounds);
    }
  }
}
