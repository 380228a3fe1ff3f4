/** What a sequence of block operations does to the signature and the file, with the file
    possibly altered behind the program's back between any two of them. */
module FsTrace {
  import opened FsSignature
  import opened FsStore

  datatype Op =
    | ReadBlock(pos: nat, len: nat)          // a block is read and taken in or out
    | PutBlock(pos: nat, data: seq<Bits>)    // a block is written and taken in
    | Alter(content: seq<Bits>)              // the store changes by itself

  datatype Sys = Sys(xors: Words, file: seq<Bits>)

  function Step(s: Sys, op: Op): Sys {
    match op
    case ReadBlock(pos, len) => s.(xors := Xor(s.xors, Sig(Window(s.file, pos, len), pos)))
    case PutBlock(pos, d) => Sys(Xor(s.xors, Sig(d, pos)), Overwrite(s.file, pos, d))
    case Alter(content) => s.(file := content)
  }

  function Exec(s: Sys, ops: seq<Op>): Sys {
    if ops == [] then s else Step(Exec(s, ops[..|ops| - 1]), ops[|ops| - 1])
  }

  lemma {:induction false} ExecConcat(s: Sys, a: seq<Op>, b: seq<Op>)
    ensures Exec(s, a + b) == Exec(Exec(s, a), b)
  {
    if b == [] {
      assert a + b == a;
    } else {
      assert (a + b)[..|a + b| - 1] == a + b[..|b| - 1];
      ExecConcat(s, a, b[..|b| - 1]);
    }
  }

  /** The trace without the alterations: what the program itself did. */
  function Program(ops: seq<Op>): seq<Op> {
    if ops == [] then []
    else
      var rest := Program(ops[..|ops| - 1]);
      if ops[|ops| - 1].Alter? then rest else rest + [ops[|ops| - 1]]
  }

  /** Nothing happened behind the program's back. */
  predicate Honest(ops: seq<Op>) {
    forall k :: 0 <= k < |ops| ==> !ops[k].Alter?
  }

  lemma HonestConcat(a: seq<Op>, b: seq<Op>)
    ensures Honest(a + b) <==> Honest(a) && Honest(b)
  {
    if Honest(a + b) {
      assert forall k :: 0 <= k < |a| ==> a[k] == (a + b)[k];
      assert forall k :: 0 <= k < |b| ==> b[k] == (a + b)[|a| + k];
    }
  }

  lemma {:induction false} ProgramConcat(a: seq<Op>, b: seq<Op>)
    ensures Program(a + b) == Program(a) + Program(b)
  {
    if b == [] {
      assert a + b == a;
    } else {
      assert (a + b)[..|a + b| - 1] == a + b[..|b| - 1];
      ProgramConcat(a, b[..|b| - 1]);
    }
  }

  lemma {:induction false} HonestProgram(ops: seq<Op>)
    requires Honest(ops)
    ensures Program(ops) == ops
  {
    if ops != [] {
      HonestProgram(ops[..|ops| - 1]);
      assert ops[..|ops| - 1] + [ops[|ops| - 1]] == ops;
    }
  }

  lemma ProgramOfAltered(a: seq<Op>, content: seq<Bits>, b: seq<Op>)
    requires Honest(a) && Honest(b)
    ensures Program(a + [Alter(content)] + b) == a + b
  {
    ProgramConcat(a + [Alter(content)], b);
    ProgramConcat(a, [Alter(content)]);
    HonestProgram(a);
    HonestProgram(b);
    assert [Alter(content)][..0] == [];
  }

  /** `ops` leads from `s` to `t` and is what the program was to do, apart from alterations; on a
      quiet store there are none. */
  ghost predicate Performs(s: Sys, t: Sys, ops: seq<Op>, program: seq<Op>, quiet: bool) {
    t == Exec(s, ops) && Program(ops) == program && (quiet ==> ops == program)
  }

  lemma PerformsThen(s: Sys, t: Sys, u: Sys, a: seq<Op>, b: seq<Op>, p: seq<Op>, q: seq<Op>,
                     quiet: bool, quietLater: bool)
    requires Performs(s, t, a, p, quiet) && Performs(t, u, b, q, quietLater) && (quiet ==> quietLater)
    ensures Performs(s, u, a + b, p + q, quiet)
  {
    ExecConcat(s, a, b);
    ProgramConcat(a, b);
  }

  lemma PerformsNothing(s: Sys, quiet: bool)
    ensures Performs(s, s, [], [], quiet)
  {
  }

  lemma PerformsOne(s: Sys, op: Op, quiet: bool)
    requires !op.Alter?
    ensures Performs(s, Step(s, op), [op], [op], quiet)
  {
    assert [op][..0] == [];
  }

  lemma PerformsAlter(s: Sys, content: seq<Bits>)
    ensures Performs(s, s.(file := content), [Alter(content)], [], false)
  {
    assert [Alter(content)][..0] == [];
  }

  // ---------- coverage: the positions whose current byte is part of the signature ----------

  function Range(lo: nat, hi: nat): (r: set<nat>)
    ensures forall p :: p in r <==> lo <= p < hi
  {
    if lo >= hi then {} else Range(lo, hi - 1) + {hi - 1}
  }

  function Toggle(a: set<nat>, b: set<nat>): set<nat> {
    (a - b) + (b - a)
  }

  /** A read moves its positions into the signature or out of it, a write moves them into it. */
  function Cover(covered: set<nat>, op: Op): set<nat> {
    match op
    case ReadBlock(pos, len) => Toggle(covered, Range(pos, pos + len))
    case PutBlock(pos, d) => covered + Range(pos, pos + |d|)
    case Alter(_) => covered
  }

  function CoverAll(covered: set<nat>, ops: seq<Op>): set<nat> {
    if ops == [] then covered else Cover(CoverAll(covered, ops[..|ops| - 1]), ops[|ops| - 1])
  }

  /** Reads and writes stay below `size`, and writes go to positions that are not covered. */
  predicate Fits(covered: set<nat>, op: Op, size: nat) {
    match op
    case ReadBlock(pos, len) => pos + len <= size
    case PutBlock(pos, d) => pos + |d| <= size && Range(pos, pos + |d|) !! covered
    case Alter(_) => true
  }

  predicate AllFit(covered: set<nat>, ops: seq<Op>, size: nat) {
    ops == [] ||
    (AllFit(covered, ops[..|ops| - 1], size) &&
     Fits(CoverAll(covered, ops[..|ops| - 1]), ops[|ops| - 1], size))
  }

  lemma {:induction false} CoverAllConcat(covered: set<nat>, a: seq<Op>, b: seq<Op>)
    ensures CoverAll(covered, a + b) == CoverAll(CoverAll(covered, a), b)
  {
    if b == [] {
      assert a + b == a;
    } else {
      assert (a + b)[..|a + b| - 1] == a + b[..|b| - 1];
      CoverAllConcat(covered, a, b[..|b| - 1]);
    }
  }

  lemma {:induction false} AllFitConcat(covered: set<nat>, a: seq<Op>, b: seq<Op>, size: nat)
    ensures AllFit(covered, a + b, size) <==>
            AllFit(covered, a, size) && AllFit(CoverAll(covered, a), b, size)
  {
    if b == [] {
      assert a + b == a;
    } else {
      assert (a + b)[..|a + b| - 1] == a + b[..|b| - 1];
      AllFitConcat(covered, a, b[..|b| - 1], size);
      CoverAllConcat(covered, a, b[..|b| - 1]);
    }
  }

  /** Alterations change neither what is covered nor what fits. */
  lemma {:induction false} ProgramFits(covered: set<nat>, ops: seq<Op>, size: nat)
    ensures CoverAll(covered, ops) == CoverAll(covered, Program(ops))
    ensures AllFit(covered, ops, size) <==> AllFit(covered, Program(ops), size)
  {
    if ops != [] {
      var front, last := ops[..|ops| - 1], ops[|ops| - 1];
      ProgramFits(covered, front, size);
      if !last.Alter? {
        assert Program(ops)[..|Program(ops)| - 1] == Program(front);
      }
    }
  }

  // ---------- the law of conservation ----------

  /** The covered part of the file, as `size` bytes that are zero elsewhere. */
  function Masked(f: seq<Bits>, covered: set<nat>, size: nat): (r: seq<Bits>)
    ensures |r| == size
    ensures forall p :: 0 <= p < size ==> r[p] == if p in covered then At(f, p) else 0
  {
    seq(size, p requires 0 <= p < size => if p in covered then At(f, p) else 0)
  }

  /** How one operation falsifies the covered bytes: only an alteration does. */
  function Damage(f: seq<Bits>, covered: set<nat>, op: Op, size: nat): (r: seq<Bits>)
    ensures |r| == size
    ensures forall p :: 0 <= p < size ==>
              r[p] == if op.Alter? && p in covered then At(f, p) ^ At(op.content, p) else 0
  {
    seq(size, p requires 0 <= p < size =>
          if op.Alter? && p in covered then At(f, p) ^ At(op.content, p) else 0)
  }

  /** Bits by byte, the XOR of all alterations of covered bytes along the trace, including the
      ones that a later write of the program wipes out. */
  function Drift(s: Sys, covered: set<nat>, ops: seq<Op>, size: nat): (r: seq<Bits>)
    ensures |r| == size
  {
    if ops == [] then seq(size, _ => 0 as Bits)
    else
      var front := ops[..|ops| - 1];
      Xor(Drift(s, covered, front, size),
          Damage(Exec(s, front).file, CoverAll(covered, front), ops[|ops| - 1], size))
  }

  /** The discrepancy between word `i` and the covered bytes it should describe. */
  function Discrepancy(i: nat, s: Sys, covered: set<nat>, size: nat): Bits
    requires i < WORDS
  {
    s.xors[i] ^ Word(i, Masked(s.file, covered, size), 0)
  }

  lemma ReadConserves(i: nat, s: Sys, covered: set<nat>, op: Op, size: nat)
    requires i < WORDS && op.ReadBlock? && Fits(covered, op, size)
    ensures Discrepancy(i, Step(s, op), Cover(covered, op), size) == Discrepancy(i, s, covered, size)
  {
    hide Word, Sig, Masked, Xor, Embed, Window;
    var before := Masked(s.file, covered, size);
    var window := Window(s.file, op.pos, op.len);
    assert Masked(s.file, Cover(covered, op), size) == Xor(before, Embed(window, op.pos, size));
    WordLinear(i, before, Embed(window, op.pos, size), 0);
    WordEmbed(i, window, op.pos, size);
  }

  lemma PutMaskedAt(f: seq<Bits>, covered: set<nat>, pos: nat, d: seq<Bits>, size: nat, p: nat)
    requires pos + |d| <= size && p < size
    requires pos <= p < pos + |d| ==> p !in covered
    ensures Masked(Overwrite(f, pos, d), covered + Range(pos, pos + |d|), size)[p]
         == Masked(f, covered, size)[p] ^ Embed(d, pos, size)[p]
  {
    OverwriteAt(f, pos, d, p);
  }

  lemma PutMasked(f: seq<Bits>, covered: set<nat>, pos: nat, d: seq<Bits>, size: nat)
    requires Fits(covered, PutBlock(pos, d), size)
    ensures Masked(Overwrite(f, pos, d), covered + Range(pos, pos + |d|), size)
         == Xor(Masked(f, covered, size), Embed(d, pos, size))
  {
    var l, m := Masked(Overwrite(f, pos, d), covered + Range(pos, pos + |d|), size), Masked(f, covered, size);
    forall p | 0 <= p < size ensures l[p] == m[p] ^ Embed(d, pos, size)[p] {
      assert pos <= p < pos + |d| ==> p in Range(pos, pos + |d|);
      PutMaskedAt(f, covered, pos, d, size, p);
    }
    IsXor(l, m, Embed(d, pos, size));
  }

  lemma IsXor(r: seq<Bits>, a: seq<Bits>, b: seq<Bits>)
    requires |r| == |a| == |b| && forall p :: 0 <= p < |r| ==> r[p] == a[p] ^ b[p]
    ensures r == Xor(a, b)
  {
  }

  lemma PutConserves(i: nat, s: Sys, covered: set<nat>, op: Op, size: nat)
    requires i < WORDS && op.PutBlock? && Fits(covered, op, size)
    ensures Discrepancy(i, Step(s, op), Cover(covered, op), size) == Discrepancy(i, s, covered, size)
  {
    hide Overwrite, Embed, Word, Sig, Masked, Xor;
    PutMasked(s.file, covered, op.pos, op.data, size);
    WordLinear(i, Masked(s.file, covered, size), Embed(op.data, op.pos, size), 0);
    WordEmbed(i, op.data, op.pos, size);
  }

  /** One operation changes the discrepancy by exactly the damage it does. */
  lemma StepConserves(i: nat, s: Sys, covered: set<nat>, op: Op, size: nat)
    requires i < WORDS && Fits(covered, op, size)
    ensures Discrepancy(i, Step(s, op), Cover(covered, op), size)
         == Discrepancy(i, s, covered, size) ^ Word(i, Damage(s.file, covered, op, size), 0)
  {
    var damage := Damage(s.file, covered, op, size);
    match op
    case ReadBlock(_, _) =>
      ReadConserves(i, s, covered, op, size);
      WordZero(i, damage, 0);
    case PutBlock(_, _) =>
      PutConserves(i, s, covered, op, size);
      WordZero(i, damage, 0);
    case Alter(content) =>
      assert Masked(content, covered, size) == Xor(Masked(s.file, covered, size), damage);
      WordLinear(i, Masked(s.file, covered, size), damage, 0);
  }

  /** Over any trace the discrepancy moves by the signature of the drift, nothing else. */
  lemma {:induction false} DriftConserved(i: nat, s: Sys, covered: set<nat>, ops: seq<Op>, size: nat)
    requires i < WORDS && AllFit(covered, ops, size)
    ensures Discrepancy(i, Exec(s, ops), CoverAll(covered, ops), size)
         == Discrepancy(i, s, covered, size) ^ Word(i, Drift(s, covered, ops, size), 0)
  {
    if ops == [] {
      WordZero(i, Drift(s, covered, ops, size), 0);
    } else {
      var front, last := ops[..|ops| - 1], ops[|ops| - 1];
      DriftConserved(i, s, covered, front, size);
      var mid, midCovered := Exec(s, front), CoverAll(covered, front);
      StepConserves(i, mid, midCovered, last, size);
      WordLinear(i, Drift(s, covered, front, size), Damage(mid.file, midCovered, last, size), 0);
    }
  }

  /** A trace that leaves nothing covered ends with words that add up what it started with and
      its drift. */
  lemma ClosedTrace(i: nat, s: Sys, covered: set<nat>, ops: seq<Op>, size: nat)
    requires i < WORDS && AllFit(covered, ops, size) && CoverAll(covered, ops) == {}
    ensures Exec(s, ops).xors[i]
         == s.xors[i] ^ Word(i, Masked(s.file, covered, size), 0) ^ Word(i, Drift(s, covered, ops, size), 0)
  {
    DriftConserved(i, s, covered, ops, size);
    WordZero(i, Masked(Exec(s, ops).file, {}, size), 0);
  }

  /** Without alterations there is no drift. */
  lemma {:induction false} NoDrift(s: Sys, covered: set<nat>, ops: seq<Op>, size: nat)
    requires Honest(ops)
    ensures forall p :: 0 <= p < size ==> Drift(s, covered, ops, size)[p] == 0
  {
    if ops != [] {
      NoDrift(s, covered, ops[..|ops| - 1], size);
    }
  }

  lemma XorAssoc(a: seq<Bits>, b: seq<Bits>, c: seq<Bits>)
    requires |a| == |b| == |c|
    ensures Xor(Xor(a, b), c) == Xor(a, Xor(b, c))
  {
    assert forall k :: 0 <= k < |a| ==> (a[k] ^ b[k]) ^ c[k] == a[k] ^ (b[k] ^ c[k]);
  }

  lemma DriftAppend(s: Sys, covered: set<nat>, ops: seq<Op>, op: Op, size: nat)
    ensures Drift(s, covered, ops + [op], size)
         == Xor(Drift(s, covered, ops, size), Damage(Exec(s, ops).file, CoverAll(covered, ops), op, size))
  {
    assert (ops + [op])[..|ops|] == ops;
  }

  lemma {:induction false} DriftConcat(s: Sys, covered: set<nat>, a: seq<Op>, b: seq<Op>, size: nat)
    ensures Drift(s, covered, a + b, size)
         == Xor(Drift(s, covered, a, size), Drift(Exec(s, a), CoverAll(covered, a), b, size))
  {
    if b == [] {
      assert a + b == a;
    } else {
      var mid, midCovered := Exec(s, a), CoverAll(covered, a);
      var front, last := b[..|b| - 1], b[|b| - 1];
      DriftConcat(s, covered, a, front, size);
      DriftLast(s, covered, a, front, last, size);
      assert front + [last] == b;
      assert a + b == (a + front) + [last];
    }
  }

  lemma DriftLast(s: Sys, covered: set<nat>, a: seq<Op>, front: seq<Op>, last: Op, size: nat)
    requires Drift(s, covered, a + front, size)
          == Xor(Drift(s, covered, a, size), Drift(Exec(s, a), CoverAll(covered, a), front, size))
    ensures Drift(s, covered, (a + front) + [last], size)
         == Xor(Drift(s, covered, a, size), Drift(Exec(s, a), CoverAll(covered, a), front + [last], size))
  {
    var mid, midCovered := Exec(s, a), CoverAll(covered, a);
    ExecConcat(s, a, front);
    CoverAllConcat(covered, a, front);
    DriftAppend(s, covered, a + front, last, size);
    DriftAppend(mid, midCovered, front, last, size);
    XorAssoc(Drift(s, covered, a, size), Drift(mid, midCovered, front, size),
             Damage(Exec(mid, front).file, CoverAll(midCovered, front), last, size));
  }

  /** A single alteration drifts by what it does to the covered bytes. */
  lemma OneAlteration(s: Sys, covered: set<nat>, a: seq<Op>, content: seq<Bits>, b: seq<Op>, size: nat)
    requires Honest(a) && Honest(b)
    ensures Drift(s, covered, a + [Alter(content)] + b, size)
         == Damage(Exec(s, a).file, CoverAll(covered, a), Alter(content), size)
  {
    var alter := [Alter(content)];
    var mid := Exec(s, a + alter);
    DriftConcat(s, covered, a + alter, b, size);
    DriftConcat(s, covered, a, alter, size);
    NoDrift(s, covered, a, size);
    NoDrift(mid, CoverAll(covered, a + alter), b, size);
    assert alter[..0] == [];
  }

  /** An alteration between the read and the write of a block counts outside the block, as it is,
      and is lost inside it. */
  lemma MidBlockAlteration(s: Sys, covered: set<nat>, pos: nat, d: seq<Bits>, content: seq<Bits>, size: nat)
    requires Range(pos, pos + |d|) <= covered
    ensures Drift(s, covered, [ReadBlock(pos, |d|)] + [Alter(content)] + [PutBlock(pos, d)], size)
         == Damage(s.file, covered - Range(pos, pos + |d|), Alter(content), size)
  {
    var read := [ReadBlock(pos, |d|)];
    OneAlteration(s, covered, read, content, [PutBlock(pos, d)], size);
    assert read[..0] == [];
    assert CoverAll(covered, read) == covered - Range(pos, pos + |d|);
    assert Exec(s, read).file == s.file;
  }
}
