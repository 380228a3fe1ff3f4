/** The file under test, and the system calls fstest.c reaches it through. */
module FsStore {
  import opened FsSignature

  /** Bits `p` of the file; everything past the end reads as zero. */
  function At(f: seq<Bits>, p: nat): Bits {
    if p < |f| then f[p] else 0
  }

  function Window(f: seq<Bits>, lo: nat, n: nat): (r: seq<Bits>)
    ensures |r| == n
    ensures forall k :: 0 <= k < n ==> r[k] == At(f, lo + k)
  {
    seq(n, k requires 0 <= k < n => At(f, lo + k))
  }

  function Zeros(n: nat): (r: seq<Bits>)
    ensures |r| == n
  {
    seq(n, _ => 0)
  }

  lemma ZerosPastEnd(f: seq<Bits>, lo: nat, n: nat)
    requires |f| <= lo
    ensures Window(f, lo, n) == Zeros(n)
  {
  }

  /** The file after the bytes `d` were written at `pos`; a gap is filled with zeros. */
  function Overwrite(f: seq<Bits>, pos: nat, d: seq<Bits>): (r: seq<Bits>)
    ensures |r| == Extent(f, pos, d)
  {
    seq(Extent(f, pos, d), p requires 0 <= p => if pos <= p < pos + |d| then d[p - pos] else At(f, p))
  }

  function Extent(f: seq<Bits>, pos: nat, d: seq<Bits>): nat {
    if d == [] || pos + |d| <= |f| then |f| else pos + |d|
  }

  lemma OverwriteAt(f: seq<Bits>, pos: nat, d: seq<Bits>, p: nat)
    ensures At(Overwrite(f, pos, d), p) == if pos <= p < pos + |d| then d[p - pos] else At(f, p)
  {
  }

  lemma WindowAppend(f: seq<Bits>, lo: nat, n: nat, m: nat)
    ensures Window(f, lo, n + m) == Window(f, lo, n) + Window(f, lo + n, m)
  {
  }

  lemma SameBytes(f: seq<Bits>, g: seq<Bits>)
    requires |f| == |g| && forall p :: 0 <= p < |f| ==> At(f, p) == At(g, p)
    ensures f == g
  {
    forall p | 0 <= p < |f| ensures f[p] == g[p] {
      assert At(f, p) == At(g, p);
    }
  }

  /** The bytes from `lo` on. */
  function Tail(f: seq<Bits>, lo: nat): seq<Bits> {
    if lo < |f| then f[lo..] else []
  }

  lemma OverwriteTail(f: seq<Bits>, pos: nat, d: seq<Bits>, lo: nat)
    requires pos + |d| <= lo
    ensures Tail(Overwrite(f, pos, d), lo) == Tail(f, lo)
  {
  }

  lemma TailOfTail(f: seq<Bits>, g: seq<Bits>, lo: nat, hi: nat)
    requires lo <= hi && Tail(f, lo) == Tail(g, lo)
    ensures Tail(f, hi) == Tail(g, hi)
  {
    assert forall h: seq<Bits> :: Tail(h, hi) == Tail(Tail(h, lo), hi - lo);
  }

  /** Two writes back to back are one. */
  lemma OverwriteConcat(f: seq<Bits>, pos: nat, a: seq<Bits>, b: seq<Bits>)
    ensures Overwrite(Overwrite(f, pos, a), pos + |a|, b) == Overwrite(f, pos, a + b)
  {
    var g := Overwrite(f, pos, a);
    var l, r := Overwrite(g, pos + |a|, b), Overwrite(f, pos, a + b);
    assert |l| == |r|;
    forall p | 0 <= p < |l| ensures At(l, p) == At(r, p) {
      OverwriteAt(f, pos, a, p);
      OverwriteAt(g, pos + |a|, b, p);
      OverwriteAt(f, pos, a + b, p);
    }
    SameBytes(l, r);
  }

  /** How the system answers one call: it moves some bytes, or it is interrupted, or asks for
      another try, or fails for good. */
  datatype Event = Moves(n: nat) | Interrupted | TryAgain | HardError

  datatype Errno = EINTR | EAGAIN | EIO

  /** The byte count of a call that moves bytes: never none when some are due, never too many. */
  function Granted(n: nat, due: nat): (r: nat)
    ensures r <= due && (r == 0 <==> due == 0)
  {
    if due == 0 then 0 else if n == 0 then 1 else if n < due then n else due
  }

  datatype Func = PRead | PWrite

  /** How many hard errors a schedule still holds. */
  function HardErrors(s: seq<Event>): nat {
    if s == [] then 0 else (if s[0].HardError? then 1 else 0) + HardErrors(s[1..])
  }

  /** What a store may do by itself between two transfers of the program. */
  datatype Whim = Keeps | Changes(content: seq<Bits>)

  /** The operating system: the file, the answers still to come, and the whims of the store still
      to come. Once they run out, every call moves all the bytes it can, and the store is honest. */
  class Kernel {
    var file: seq<Bits>
    var schedule: seq<Event>
    var whims: seq<Whim>

    /** The store does what it likes. */
    method Meddle()
      modifies this`file, this`whims
      ensures old(whims) == [] ==> whims == [] && file == old(file)
      ensures old(whims) != [] ==> whims == old(whims)[1..]
      ensures old(whims) != [] ==> file == if old(whims)[0].Keeps? then old(file) else old(whims)[0].content
    {
      if whims != [] {
        if whims[0].Changes? {
          file := whims[0].content;
        }
        whims := whims[1..];
      }
    }

    method Next(due: nat) returns (ret: int, errno: Errno)
      modifies this`schedule
      ensures ret == -1 <==> old(schedule) != [] && !old(schedule)[0].Moves?
      ensures ret == -1 ==> (errno == EIO <==> old(schedule)[0].HardError?)
      ensures ret != -1 ==> 0 <= ret <= due && (ret == 0 <==> due == 0)
      ensures |schedule| <= |old(schedule)| && (ret == -1 ==> |schedule| < |old(schedule)|)
      ensures HardErrors(old(schedule)) == HardErrors(schedule) + if ret == -1 && errno == EIO then 1 else 0
    {
      if schedule == [] {
        return due, EIO;
      }
      var e := schedule[0];
      schedule := schedule[1..];
      match e
      case Moves(n) => return Granted(n, due), EIO;
      case Interrupted => return -1, EINTR;
      case TryAgain => return -1, EAGAIN;
      case HardError => return -1, EIO;
    }

    method Pread(buf: array<Bits>, at: nat, count: nat, pos: nat) returns (ret: int, errno: Errno)
      requires 0 < count && at + count <= buf.Length
      modifies this`schedule, buf
      ensures -1 <= ret <= count
      ensures ret == 0 ==> |file| <= pos
      ensures ret == -1 ==> buf[..] == old(buf[..])
      ensures ret != -1 ==> buf[..] == old(buf[..])[..at] + Window(file, pos, ret) + old(buf[..])[at + ret..]
      ensures ret == -1 ==> |schedule| < |old(schedule)|
      ensures |schedule| <= |old(schedule)|
      ensures HardErrors(old(schedule)) == HardErrors(schedule) + if ret == -1 && errno == EIO then 1 else 0
    {
      var there := if |file| <= pos then 0 else |file| - pos;
      ret, errno := Next(if there < count then there else count);
      if ret > 0 {
        forall k | 0 <= k < ret {
          buf[at + k] := file[pos + k];
        }
      }
    }

    method Pwrite(buf: array<Bits>, at: nat, count: nat, pos: nat) returns (ret: int, errno: Errno)
      requires 0 < count && at + count <= buf.Length
      modifies this`file, this`schedule
      ensures ret == -1 || 0 < ret <= count
      ensures buf[..] == old(buf[..])
      ensures file == if ret == -1 then old(file) else Overwrite(old(file), pos, buf[..][at..at + ret])
      ensures ret == -1 ==> |schedule| < |old(schedule)|
      ensures |schedule| <= |old(schedule)|
      ensures HardErrors(old(schedule)) == HardErrors(schedule) + if ret == -1 && errno == EIO then 1 else 0
    {
      ret, errno := Next(count);
      if ret != -1 {
        file := Overwrite(file, pos, buf[..][at..at + ret]);
      }
    }
  }

  /** How far a transfer has come after `at` bytes: a read has filled the front of the buffer
      and left the file alone, a write has put the front of the buffer into the file. */
  ghost predicate Done(func: Func, f0: seq<Bits>, buf0: seq<Bits>, pos: nat, at: nat, f: seq<Bits>, buf: seq<Bits>)
    requires at <= |buf0|
  {
    match func
    case PRead => f == f0 && buf == Window(f0, pos, at) + buf0[at..]
    case PWrite => buf == buf0 && f == Overwrite(f0, pos, buf0[..at])
  }

  lemma NothingDone(func: Func, f: seq<Bits>, buf: seq<Bits>, pos: nat)
    ensures Done(func, f, buf, pos, 0, f, buf)
  {
    assert buf[..0] == [];
    assert Overwrite(f, pos, []) == f;
    assert Window(f, pos, 0) + buf[0..] == buf;
  }

  lemma DoneByRead(f: seq<Bits>, buf0: seq<Bits>, pos: nat, at: nat, buf1: seq<Bits>, n: nat)
    requires at + n <= |buf0|
    requires Done(PRead, f, buf0, pos, at, f, buf1)
    ensures Done(PRead, f, buf0, pos, at + n, f, buf1[..at] + Window(f, pos + at, n) + buf1[at + n..])
  {
    WindowAppend(f, pos, at, n);
  }

  lemma DoneAtEnd(f: seq<Bits>, buf0: seq<Bits>, pos: nat, at: nat, rest: nat, buf1: seq<Bits>)
    requires at + rest <= |buf0| && |f| <= pos + at
    requires Done(PRead, f, buf0, pos, at, f, buf1)
    ensures Done(PRead, f, buf0, pos, at + rest, f, buf1[..at] + Zeros(rest) + buf1[at + rest..])
  {
    ZerosPastEnd(f, pos + at, rest);
    DoneByRead(f, buf0, pos, at, buf1, rest);
  }

  lemma DoneByWrite(f0: seq<Bits>, buf: seq<Bits>, pos: nat, at: nat, n: nat, f: seq<Bits>)
    requires at + n <= |buf|
    requires Done(PWrite, f0, buf, pos, at, f, buf)
    ensures Done(PWrite, f0, buf, pos, at + n, Overwrite(f, pos + at, buf[at..at + n]), buf)
  {
    assert buf[..at + n] == buf[..at] + buf[at..at + n];
    OverwriteConcat(f0, pos, buf[..at], buf[at..at + n]);
  }

  /** One call of `func`; `f0` and `buf0` are the file and the buffer before the whole transfer. */
  method Call(func: Func, k: Kernel, buf: array<Bits>, at: nat, rest: nat, pos: nat,
              ghost f0: seq<Bits>, ghost buf0: seq<Bits>)
    returns (ret: int, errno: Errno)
    requires 0 < rest && at + rest <= buf.Length == |buf0|
    requires Done(func, f0, buf0, pos, at, k.file, buf[..])
    modifies k`file, k`schedule, buf
    ensures -1 <= ret <= rest
    ensures Done(func, f0, buf0, pos, if ret == -1 then at else at + ret, k.file, buf[..])
    ensures ret == 0 ==> func.PRead? && |f0| <= pos + at
    ensures |k.schedule| <= |old(k.schedule)| && (ret == -1 ==> |k.schedule| < |old(k.schedule)|)
    ensures HardErrors(old(k.schedule)) == HardErrors(k.schedule) + if ret == -1 && errno == EIO then 1 else 0
  {
    match func {
      case PRead => ret, errno := CallRead(k, buf, at, rest, pos, f0, buf0);
      case PWrite => ret, errno := CallWrite(k, buf, at, rest, pos, f0, buf0);
    }
  }

  method CallRead(k: Kernel, buf: array<Bits>, at: nat, rest: nat, pos: nat,
                  ghost f0: seq<Bits>, ghost buf0: seq<Bits>)
    returns (ret: int, errno: Errno)
    requires 0 < rest && at + rest <= buf.Length == |buf0|
    requires Done(PRead, f0, buf0, pos, at, k.file, buf[..])
    modifies k`file, k`schedule, buf
    ensures -1 <= ret <= rest
    ensures Done(PRead, f0, buf0, pos, if ret == -1 then at else at + ret, k.file, buf[..])
    ensures ret == 0 ==> |f0| <= pos + at
    ensures |k.schedule| <= |old(k.schedule)| && (ret == -1 ==> |k.schedule| < |old(k.schedule)|)
    ensures HardErrors(old(k.schedule)) == HardErrors(k.schedule) + if ret == -1 && errno == EIO then 1 else 0
  {
    ghost var buf1 := buf[..];
    ret, errno := k.Pread(buf, at, rest, pos + at);
    if ret != -1 {
      DoneByRead(f0, buf0, pos, at, buf1, ret);
    }
  }

  method CallWrite(k: Kernel, buf: array<Bits>, at: nat, rest: nat, pos: nat,
                   ghost f0: seq<Bits>, ghost buf0: seq<Bits>)
    returns (ret: int, errno: Errno)
    requires 0 < rest && at + rest <= buf.Length == |buf0|
    requires Done(PWrite, f0, buf0, pos, at, k.file, buf[..])
    modifies k`file, k`schedule, buf
    ensures -1 <= ret <= rest && ret != 0
    ensures Done(PWrite, f0, buf0, pos, if ret == -1 then at else at + ret, k.file, buf[..])
    ensures |k.schedule| <= |old(k.schedule)| && (ret == -1 ==> |k.schedule| < |old(k.schedule)|)
    ensures HardErrors(old(k.schedule)) == HardErrors(k.schedule) + if ret == -1 && errno == EIO then 1 else 0
  {
    ghost var f1 := k.file;
    ret, errno := k.Pwrite(buf, at, rest, pos + at);
    if ret != -1 {
      DoneByWrite(f0, buf0, pos, at, ret, f1);
    }
  }

  /** The inner loop of safe_fileop: at the end of the file the rest of the buffer is cleared. */
  method ClearRest(buf: array<Bits>, at: nat, rest: nat)
    requires at + rest <= buf.Length
    modifies buf
    ensures buf[..] == old(buf[..])[..at] + Zeros(rest) + old(buf[..])[at + rest..]
  {
    var i := 0;
    while i < rest
      invariant 0 <= i <= rest
      invariant forall j :: 0 <= j < buf.Length ==>
                  buf[j] == if at <= j < at + i then 0 else old(buf[j])
    {
      buf[at + i] := 0;
      i := i + 1;
    }
  }

  method ReachEnd(k: Kernel, buf: array<Bits>, at: nat, rest: nat, pos: nat,
                  ghost f0: seq<Bits>, ghost buf0: seq<Bits>)
    requires at + rest <= buf.Length == |buf0| && |f0| <= pos + at
    requires Done(PRead, f0, buf0, pos, at, k.file, buf[..])
    modifies buf
    ensures Done(PRead, f0, buf0, pos, at + rest, k.file, buf[..])
  {
    DoneAtEnd(f0, buf0, pos, at, rest, buf[..]);
    ClearRest(buf, at, rest);
  }

  /** Calls the read or the write again and again until `len` bytes are through. Whatever the
      schedule, a successful read yields the zero-extended slice and a successful write leaves
      exactly the buffer's bytes in place; it fails exactly when it meets a hard error. */
  method SafeFileop(func: Func, k: Kernel, pos: nat, len: nat, buf: array<Bits>)
    returns (failed: bool, ghost moved: nat)
    requires len <= buf.Length
    modifies k`file, k`schedule, buf
    ensures moved <= len && (failed <==> moved < len)
    ensures Done(func, old(k.file), old(buf[..]), pos, moved, k.file, buf[..])
    ensures HardErrors(old(k.schedule)) == HardErrors(k.schedule) + if failed then 1 else 0
  {
    hide Done, HardErrors;
    ghost var file0, buf0 := k.file, buf[..];
    var at: nat, rest: nat := 0, len;
    NothingDone(func, file0, buf0, pos);
    while rest != 0
      invariant at + rest == len
      invariant Done(func, file0, buf0, pos, at, k.file, buf[..])
      invariant HardErrors(k.schedule) == HardErrors(old(k.schedule))
      decreases rest, |k.schedule|
    {
      var ret, errno := Call(func, k, buf, at, rest, pos, file0, buf0);
      if ret == 0 {
        ReachEnd(k, buf, at, rest, pos, file0, buf0);
        return false, len;
      }
      if ret == -1 {
        if errno == EAGAIN || errno == EINTR {
          continue;
        }
        return true, at;
      }
      at, rest := at + ret, rest - ret;
    }
    return false, len;
  }
}
