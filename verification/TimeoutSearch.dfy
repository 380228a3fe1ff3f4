/** The search of udptimeoutchecker.c for the longest timeout a NAT keeps a UDP mapping: doubling,
    then bisection, over answers that may be lost, and the median of three such experiments. */
module TimeoutSearch {

  datatype Attempt = Attempt(seconds: nat, ok: bool)

  /** The network: the n-th attempt ever made, at a given timeout, succeeds or not. */
  class Network {
    const answer: (nat, nat) -> bool
    var log: seq<Attempt>

    constructor (answer: (nat, nat) -> bool)
      ensures log == [] && this.answer == answer
    {
      this.answer := answer;
      log := [];
    }

    method Try(seconds: nat) returns (ok: bool)
      modifies this
      ensures ok == answer(|old(log)|, seconds)
      ensures log == old(log) + [Attempt(seconds, ok)]
    {
      ok := answer(|log|, seconds);
      log := log + [Attempt(seconds, ok)];
    }
  }

  /** The timeouts of the doubling phase, and the gaps of the bisection. */
  predicate PowerOfTwo(n: nat) {
    n == 1 || (n > 1 && n % 2 == 0 && PowerOfTwo(n / 2))
  }

  function Log2(n: nat): nat {
    if n <= 1 then 0 else 1 + Log2(n / 2)
  }

  /** Doubling a power of two never skips over another one. */
  lemma {:induction false} NextPower(n: nat, m: nat)
    requires PowerOfTwo(n) && PowerOfTwo(m) && n < m
    ensures 2 * n <= m && Log2(n) < Log2(m)
  {
    if n != 1 {
      NextPower(n / 2, m / 2);
    } else {
      assert Log2(m) == 1 + Log2(m / 2);
    }
  }

  lemma DoublePower(n: nat)
    requires PowerOfTwo(n)
    ensures PowerOfTwo(2 * n) && Log2(2 * n) == Log2(n) + 1
    ensures n < 512 ==> n <= 256
  {
    Powers();
    if n < 512 {
      NextPower(n, 512);
    }
  }

  lemma Powers()
    ensures PowerOfTwo(512) && Log2(512) == 9
  {
    assert PowerOfTwo(8) && Log2(8) == 3;
    assert PowerOfTwo(64) && Log2(64) == 6;
  }

  /** The answer of an experiment behind a NAT whose mappings live `threshold` seconds, if nothing
      is lost. */
  function Ideal(threshold: int): nat {
    if threshold < 1 then 0
    else if threshold == 1 then 1
    else if threshold >= 512 then 512
    else threshold / 2 * 2
  }

  /** The attempts that decide about the upper end of the search: the last of three failures in a
      row while doubling, and every failure of the bisection. */
  ghost predicate HarmfulDoubling(log: seq<Attempt>, threshold: int) {
    exists i :: 0 <= i && i + 2 < |log| && ThreeFailures(log, i) && log[i].seconds <= threshold
  }

  predicate ThreeFailures(log: seq<Attempt>, i: nat)
    requires i + 2 < |log|
  {
    !log[i].ok && !log[i + 1].ok && !log[i + 2].ok &&
    log[i].seconds == log[i + 1].seconds == log[i + 2].seconds
  }

  ghost predicate HarmfulBisection(log: seq<Attempt>, threshold: int) {
    exists i :: 0 <= i < |log| && !log[i].ok && log[i].seconds <= threshold
  }

  /** No attempt beyond the NAT's threshold ever succeeds. */
  ghost predicate NeverAbove(log: seq<Attempt>, threshold: int) {
    forall i :: 0 <= i < |log| && log[i].ok ==> log[i].seconds <= threshold
  }

  // ---------- doubling ----------

  /** Where the doubling stands: the timeout to try next, and how often it has failed in a row. */
  datatype Climb = Climb(top: nat, fails: nat)

  function Onward(c: Climb, ok: bool): Climb {
    if ok then Climb(2 * c.top, 0) else Climb(c.top, c.fails + 1)
  }

  function Climbed(log: seq<Attempt>): Climb {
    if log == [] then Climb(1, 0) else Onward(Climbed(log[..|log| - 1]), log[|log| - 1].ok)
  }

  /** The records of the doubling phase, complete or not: each attempt is made at the timeout the
      earlier ones lead to, and none after a third failure or a success at 512. */
  predicate Climbs(log: seq<Attempt>) {
    log == [] ||
    (Climbs(log[..|log| - 1]) &&
     var c := Climbed(log[..|log| - 1]);
     c.fails < 3 && c.top <= 512 && log[|log| - 1].seconds == c.top)
  }

  lemma ClimbsOn(log: seq<Attempt>, ok: bool)
    requires Climbs(log) && Climbed(log).fails < 3 && Climbed(log).top <= 512
    ensures var next := log + [Attempt(Climbed(log).top, ok)];
            Climbs(next) && Climbed(next) == Onward(Climbed(log), ok)
  {
    assert (log + [Attempt(Climbed(log).top, ok)])[..|log|] == log;
  }

  /** Phase 1: double the timeout until it fails three times in a row. */
  method Double(net: Network) returns (top: nat, survived: bool, ghost made: seq<Attempt>)
    modifies net
    ensures net.log == old(net.log) + made
    ensures Climbs(made)
    ensures if survived then top == 512 && Climbed(made) == Climb(1024, 0) else Climbed(made) == Climb(top, 3)
  {
    top, survived, made := 1, false, [];
    var fails := 0;
    assert Climbs(made) && Climbed(made) == Climb(1, 0) && PowerOfTwo(1);
    hide Climbs, Climbed, PowerOfTwo;
    while true
      invariant net.log == old(net.log) + made
      invariant Climbs(made) && Climbed(made) == Climb(top, fails) && fails < 3
      invariant PowerOfTwo(top) && top <= 512
      decreases 512 - top, 3 - fails
    {
      var ok := net.Try(top);
      ClimbsOn(made, ok);
      made := made + [Attempt(top, ok)];
      if ok {
        fails := 0;
        if top >= 512 {
          return top, true, made;
        }
        DoublePower(top);
        top := 2 * top;
      } else {
        fails := fails + 1;
        if fails == 3 {
          return top, false, made;
        }
      }
    }
  }

  /** What a record of the doubling phase looks like: the current timeout is a power of two, its
      failures come last, right before them is the success at half of it, no earlier timeout failed
      three times in a row, and no timeout took more than three attempts. */
  ghost predicate ClimbForm(log: seq<Attempt>, c: Climb) {
    PowerOfTwo(c.top) && c.top <= 1024 && c.fails <= 3 && c.fails <= |log| <= 3 * Log2(c.top) + c.fails &&
    (forall i :: |log| - c.fails <= i < |log| ==> log[i] == Attempt(c.top, false)) &&
    (if c.top == 1 then |log| == c.fails
     else |log| > c.fails && log[|log| - c.fails - 1] == Attempt(c.top / 2, true)) &&
    (forall i: nat :: i + 2 < |log| && ThreeFailures(log, i) ==> c.fails == 3 && i == |log| - 3)
  }

  lemma ThreeFailuresOn(log: seq<Attempt>, c: Climb, ok: bool, i: nat)
    requires ClimbForm(log, c) && c.fails < 3
    requires i + 2 <= |log| && ThreeFailures(log + [Attempt(c.top, ok)], i)
    ensures !ok && c.fails == 2 && i == |log| - 2
  {
    var next := log + [Attempt(c.top, ok)];
    if i + 2 < |log| {
      assert ThreeFailures(log, i);
    } else {
      assert next[i + 2] == Attempt(c.top, ok);
      assert c.top > 1 ==> next[|log| - c.fails - 1].ok;
    }
  }

  lemma ClimbFormOn(log: seq<Attempt>, c: Climb, ok: bool)
    requires ClimbForm(log, c) && c.fails < 3 && c.top <= 512
    ensures ClimbForm(log + [Attempt(c.top, ok)], Onward(c, ok))
  {
    hide PowerOfTwo, Log2, ThreeFailures;
    var next, d := log + [Attempt(c.top, ok)], Onward(c, ok);
    DoublePower(c.top);
    assert forall i :: 0 <= i < |log| ==> next[i] == log[i];
    forall i: nat | i + 2 < |next| && ThreeFailures(next, i) ensures d.fails == 3 && i == |next| - 3 {
      ThreeFailuresOn(log, c, ok, i);
    }
  }

  lemma {:induction false} ClimbShape(log: seq<Attempt>)
    requires Climbs(log)
    ensures ClimbForm(log, Climbed(log))
  {
    hide ClimbForm;
    if log == [] {
      ClimbFormStart();
    } else {
      var front, last := log[..|log| - 1], log[|log| - 1];
      ClimbShape(front);
      ClimbFormOn(front, Climbed(front), last.ok);
      assert front + [Attempt(Climbed(front).top, last.ok)] == log;
    }
  }

  lemma ClimbFormStart()
    ensures ClimbForm([], Climb(1, 0))
  {
  }

  // ---------- bisection ----------

  datatype Bracket = Bracket(lo: nat, hi: nat) {
    function Gap(): int {
      hi - lo
    }

    function Mid(): nat {
      (lo + hi) / 2
    }

    function Narrowed(ok: bool): Bracket {
      if ok then Bracket(Mid(), hi) else Bracket(lo, Mid())
    }
  }

  /** The bracket that the answers of a bisection below `max` leave. */
  function Narrow(max: nat, log: seq<Attempt>): Bracket {
    if log == [] then Bracket(max / 2, max) else Narrow(max, log[..|log| - 1]).Narrowed(log[|log| - 1].ok)
  }

  /** The records of a bisection, complete or not: each attempt is made in the middle of the bracket
      the earlier ones leave, and none once its gap is two seconds or less. */
  predicate Bisects(max: nat, log: seq<Attempt>) {
    log == [] ||
    (Bisects(max, log[..|log| - 1]) &&
     var b := Narrow(max, log[..|log| - 1]);
     b.Gap() > 2 && log[|log| - 1].seconds == b.Mid())
  }

  /** Phase 2: halve the gap until it is at most two seconds. */
  method Bisect(net: Network, max: nat) returns (lo: nat, ghost hi: nat, ghost made: seq<Attempt>)
    requires max > 1
    modifies net
    ensures net.log == old(net.log) + made
    ensures Bisects(max, made) && Narrow(max, made) == Bracket(lo, hi) && hi - lo <= 2
  {
    var maxTo, minTo := max, max / 2;
    made := [];
    while maxTo - minTo > 2
      invariant 0 <= minTo < maxTo
      invariant net.log == old(net.log) + made
      invariant Bisects(max, made) && Narrow(max, made) == Bracket(minTo, maxTo)
      decreases maxTo - minTo
    {
      var candidate := (minTo + maxTo) / 2;
      var ok := net.Try(candidate);
      assert (made + [Attempt(candidate, ok)])[..|made|] == made;
      made := made + [Attempt(candidate, ok)];
      if ok {
        minTo := candidate;
      } else {
        maxTo := candidate;
      }
    }
    return minTo, maxTo, made;
  }

  lemma HalfGap(b: Bracket, ok: bool)
    requires b.Gap() > 2 && PowerOfTwo(b.Gap()) && b.lo % 2 == 0
    ensures var c := b.Narrowed(ok);
            c.Gap() >= 2 && PowerOfTwo(c.Gap()) && Log2(c.Gap()) == Log2(b.Gap()) - 1 && c.lo % 2 == 0 &&
            b.lo <= c.lo && c.hi <= b.hi && b.lo < b.Mid() < b.hi
  {
    var gap: nat := b.Gap();
    assert gap % 2 == 0 && PowerOfTwo(gap / 2);
    assert b.Mid() == b.lo + gap / 2;
    assert gap / 2 >= 2 && gap / 2 % 2 == 0;
  }

  /** The gap of a bisection is a power of two at all times, halved by every attempt. */
  lemma {:induction false} GapHalves(max: nat, log: seq<Attempt>)
    requires PowerOfTwo(max) && max > 1 && Bisects(max, log)
    ensures var b := Narrow(max, log);
            b.Gap() >= 1 && PowerOfTwo(b.Gap()) && Log2(b.Gap()) + |log| == Log2(max) - 1 &&
            max / 2 <= b.lo && b.hi <= max &&
            if max == 2 then log == [] else b.Gap() >= 2 && b.lo % 2 == 0
  {
    if log == [] {
      assert PowerOfTwo(max / 2);
    } else {
      var front := log[..|log| - 1];
      GapHalves(max, front);
      HalfGap(Narrow(max, front), log[|log| - 1].ok);
    }
  }

  /** Every answer of a bisection is respected by its bracket: what succeeded is at or below the
      lower end, what failed at or above the upper one, and an end that moved was reached. */
  ghost predicate Respects(max: nat, log: seq<Attempt>, b: Bracket) {
    (forall i :: 0 <= i < |log| ==> max / 2 < log[i].seconds < max) &&
    (forall i :: 0 <= i < |log| ==> if log[i].ok then log[i].seconds <= b.lo else log[i].seconds >= b.hi) &&
    (b.lo == max / 2 || Attempt(b.lo, true) in log) &&
    (b.hi == max || Attempt(b.hi, false) in log)
  }

  lemma {:induction false} BracketRespects(max: nat, log: seq<Attempt>)
    requires PowerOfTwo(max) && max > 1 && Bisects(max, log)
    ensures Respects(max, log, Narrow(max, log))
  {
    if log != [] {
      var front, last := log[..|log| - 1], log[|log| - 1];
      BracketRespects(max, front);
      GapHalves(max, front);
      RespectsMore(max, front, Narrow(max, front), last.ok);
      assert front + [last] == log;
    }
  }

  lemma RespectsMore(max: nat, log: seq<Attempt>, b: Bracket, ok: bool)
    requires Respects(max, log, b) && max / 2 <= b.lo && b.hi <= max && b.Gap() > 2
    ensures Respects(max, log + [Attempt(b.Mid(), ok)], b.Narrowed(ok))
  {
    var next := log + [Attempt(b.Mid(), ok)];
    assert next[|log|] == Attempt(b.Mid(), ok);
    assert forall a :: a in log ==> a in next;
  }

  // ---------- one experiment ----------

  /** The records of one experiment and its answer `r`: a complete doubling and, unless that
      survived 512 seconds or failed at one second, a complete bisection below where it failed. */
  predicate Experiment(r: nat, doubling: seq<Attempt>, bisection: seq<Attempt>) {
    Climbs(doubling) &&
    var c := Climbed(doubling);
    if c.fails < 3 then c.top > 512 && bisection == [] && r == 512
    else if c.top == 1 then bisection == [] && r == 0
    else
      Bisects(c.top, bisection) &&
      var b := Narrow(c.top, bisection);
      b.Gap() <= 2 && r == b.lo
  }

  method OneExperiment(net: Network) returns (r: nat, ghost doubling: seq<Attempt>, ghost bisection: seq<Attempt>)
    modifies net
    ensures net.log == old(net.log) + doubling + bisection
    ensures Experiment(r, doubling, bisection)
  {
    var maxTo, survived;
    maxTo, survived, doubling := Double(net);
    bisection := [];
    if survived {
      return maxTo, doubling, bisection;
    }
    if maxTo == 1 {
      return 0, doubling, bisection;
    }
    ClimbShape(doubling);
    ghost var hi;
    r, hi, bisection := Bisect(net, maxTo);
  }

  /** The failing timeout just above the answer: the upper end of the search, if there is one. */
  function Above(doubling: seq<Attempt>, bisection: seq<Attempt>): nat {
    var c := Climbed(doubling);
    if c.fails < 3 || c.top == 1 then c.top else Narrow(c.top, bisection).hi
  }

  /** The shape of an answer that is neither 0 nor 512. */
  lemma BisectedShape(r: nat, doubling: seq<Attempt>, bisection: seq<Attempt>)
    requires Experiment(r, doubling, bisection) && Climbed(doubling).fails == 3 && Climbed(doubling).top > 1
    ensures var max, above := Climbed(doubling).top, Above(doubling, bisection);
            max <= 512 && max / 2 <= r < above <= max && |doubling| + |bisection| <= 37 &&
            if r == 1 then above == 2 else r % 2 == 0 && above == r + 2
  {
    var max := Climbed(doubling).top;
    ClimbShape(doubling);
    assert max <= 512 by {
      ClimbStops(doubling);
    }
    Powers();
    if max < 512 {
      NextPower(max, 512);
    }
    GapHalves(max, bisection);
  }

  lemma ClimbStops(log: seq<Attempt>)
    requires Climbs(log)
    ensures Climbed(log).fails > 0 ==> Climbed(log).top <= 512
    ensures Climbed(log).fails == 0 && Climbed(log).top > 512 ==> Climbed(log).top == 1024
  {
    ClimbShape(log);
    if log != [] {
      ClimbShape(log[..|log| - 1]);
      Powers();
      var top := Climbed(log[..|log| - 1]).top;
      if top < 512 {
        NextPower(top, 512);
      }
    }
  }

  /** However the network behaves, an experiment takes at most 37 attempts and its answer is 0, 1,
      512, or even and at most 510. */
  lemma ExperimentBounds(r: nat, doubling: seq<Attempt>, bisection: seq<Attempt>)
    requires Experiment(r, doubling, bisection)
    ensures |doubling| + |bisection| <= 37
    ensures r == 0 || r == 1 || r == 512 || (r % 2 == 0 && 2 <= r <= 510)
  {
    ClimbShape(doubling);
    ClimbStops(doubling);
    var c := Climbed(doubling);
    if c.fails == 3 && c.top > 1 {
      BisectedShape(r, doubling, bisection);
    } else if c.fails < 3 {
      Powers();
      assert Log2(1024) == 1 + Log2(512);
    }
  }

  // ---------- bracketing ----------

  datatype Answer = Never | Last(ok: bool)

  /** The most recent answer at a timeout. */
  function LastAnswer(log: seq<Attempt>, seconds: nat): Answer {
    if log == [] then Never
    else if log[|log| - 1].seconds == seconds then Last(log[|log| - 1].ok)
    else LastAnswer(log[..|log| - 1], seconds)
  }

  lemma {:induction false} LastAnswerAt(log: seq<Attempt>, seconds: nat, i: nat)
    requires i < |log| && log[i].seconds == seconds
    requires forall j :: i < j < |log| ==> log[j].seconds != seconds
    ensures LastAnswer(log, seconds) == Last(log[i].ok)
  {
    if i < |log| - 1 {
      LastAnswerAt(log[..|log| - 1], seconds, i);
    }
  }

  lemma {:induction false} LastAnswerConcat(a: seq<Attempt>, b: seq<Attempt>, seconds: nat)
    ensures LastAnswer(a + b, seconds)
         == if LastAnswer(b, seconds).Never? then LastAnswer(a, seconds) else LastAnswer(b, seconds)
  {
    if b == [] {
      assert a + b == a;
    } else {
      assert (a + b)[..|a + b| - 1] == a + b[..|b| - 1];
      LastAnswerConcat(a, b[..|b| - 1], seconds);
    }
  }

  /** In a log where all answers at a timeout agree, so does the last one. */
  lemma {:induction false} LastAnswerIs(log: seq<Attempt>, seconds: nat, ok: bool)
    requires forall i :: 0 <= i < |log| && log[i].seconds == seconds ==> log[i].ok == ok
    ensures LastAnswer(log, seconds) == if Attempt(seconds, ok) in log then Last(ok) else Never
  {
    if log != [] {
      var front, last := log[..|log| - 1], log[|log| - 1];
      LastAnswerIs(front, seconds, ok);
      assert front + [last] == log;
    }
  }

  /** After three failures the last answer at their timeout is a failure, at half of it a success. */
  lemma ClimbBrackets(log: seq<Attempt>)
    requires Climbs(log) && Climbed(log).fails == 3
    ensures LastAnswer(log, Climbed(log).top) == Last(false)
    ensures Climbed(log).top > 1 ==> LastAnswer(log, Climbed(log).top / 2) == Last(true)
  {
    ClimbShape(log);
    var top, n := Climbed(log).top, |log|;
    LastAnswerAt(log, top, n - 1);
    if top > 1 {
      LastAnswerAt(log, top / 2, n - 4);
    }
  }

  lemma Prefix(max: nat, log: seq<Attempt>, i: nat)
    requires Bisects(max, log) && i <= |log|
    ensures Bisects(max, log[..i])
  {
    if i < |log| {
      Prefix(max, log[..|log| - 1], i);
      assert log[..|log| - 1][..i] == log[..i];
    } else {
      assert log[..i] == log;
    }
  }

  /** Bracketing, against any network and at every moment of the bisection: the gap is a power of
      two, the last answer at the lower end was a success and that at the upper end a failure. */
  lemma AlwaysBracketed(r: nat, doubling: seq<Attempt>, bisection: seq<Attempt>, i: nat)
    requires Experiment(r, doubling, bisection) && i <= |bisection|
    requires Climbed(doubling).fails == 3 && Climbed(doubling).top > 1
    ensures var b := Narrow(Climbed(doubling).top, bisection[..i]);
            b.Gap() >= 1 && PowerOfTwo(b.Gap()) &&
            LastAnswer(doubling + bisection[..i], b.lo) == Last(true) &&
            LastAnswer(doubling + bisection[..i], b.hi) == Last(false)
  {
    var max, part := Climbed(doubling).top, bisection[..i];
    var b := Narrow(max, part);
    ClimbShape(doubling);
    ClimbBrackets(doubling);
    Prefix(max, bisection, i);
    GapHalves(max, part);
    BracketRespects(max, part);
    LastAnswerIs(part, b.lo, true);
    LastAnswerIs(part, b.hi, false);
    LastAnswerConcat(doubling, part, b.lo);
    LastAnswerConcat(doubling, part, b.hi);
  }

  /** So is the answer: the last answer at it was a success, unless it is 0, and that at the timeout
      just above it, at most two seconds more, a failure, unless it is 512. */
  lemma ExperimentBrackets(r: nat, doubling: seq<Attempt>, bisection: seq<Attempt>)
    requires Experiment(r, doubling, bisection)
    ensures r > 0 ==> LastAnswer(doubling + bisection, r) == Last(true)
    ensures r < 512 ==>
              var above := Above(doubling, bisection);
              above == (if r < 2 then r + 1 else r + 2) && LastAnswer(doubling + bisection, above) == Last(false)
  {
    ClimbShape(doubling);
    ClimbStops(doubling);
    var c := Climbed(doubling);
    if c.fails < 3 {
      assert doubling + bisection == doubling;
      LastAnswerAt(doubling, 512, |doubling| - 1);
    } else if c.top == 1 {
      assert doubling + bisection == doubling;
      ClimbBrackets(doubling);
    } else {
      BisectedShape(r, doubling, bisection);
      AlwaysBracketed(r, doubling, bisection, |bisection|);
      assert bisection[..|bisection|] == bisection;
    }
  }

  // ---------- losses ----------

  /** An experiment whose decisive failures were all genuine. */
  ghost predicate NoDecisiveLoss(doubling: seq<Attempt>, bisection: seq<Attempt>, threshold: int) {
    !HarmfulDoubling(doubling, threshold) && !HarmfulBisection(bisection, threshold)
  }

  lemma HarmlessDoubling(log: seq<Attempt>, threshold: int)
    requires Climbs(log)
    ensures HarmfulDoubling(log, threshold) <==> Climbed(log).fails == 3 && Climbed(log).top <= threshold
  {
    ClimbShape(log);
    if Climbed(log).fails == 3 {
      assert ThreeFailures(log, |log| - 3);
    }
  }

  lemma HarmlessBisection(max: nat, log: seq<Attempt>, threshold: int)
    requires PowerOfTwo(max) && max > 1 && Bisects(max, log) && threshold < max
    ensures HarmfulBisection(log, threshold) <==> Narrow(max, log).hi <= threshold
  {
    BracketRespects(max, log);
    if Narrow(max, log).hi <= threshold {
      assert Attempt(Narrow(max, log).hi, false) in log;
    }
  }

  lemma HarmlessBracket(r: nat, doubling: seq<Attempt>, bisection: seq<Attempt>, threshold: int)
    requires Experiment(r, doubling, bisection) && r < 512
    ensures NoDecisiveLoss(doubling, bisection, threshold) <==> threshold < Above(doubling, bisection)
  {
    HarmlessDoubling(doubling, threshold);
    ClimbShape(doubling);
    var max := Climbed(doubling).top;
    if max > 1 {
      BisectedShape(r, doubling, bisection);
      if threshold < max {
        HarmlessBisection(max, bisection, threshold);
      }
    }
  }

  lemma AnswerSeen(log: seq<Attempt>, seconds: nat)
    requires LastAnswer(log, seconds) == Last(true)
    ensures Attempt(seconds, true) in log
  {
  }

  /** Behind a NAT with a given threshold, losses only ever make the answer smaller, and the answer
      is exact precisely when no loss was decisive. */
  lemma ExperimentUnderLoss(r: nat, doubling: seq<Attempt>, bisection: seq<Attempt>, threshold: int)
    requires Experiment(r, doubling, bisection)
    requires NeverAbove(doubling + bisection, threshold)
    ensures r <= Ideal(threshold)
    ensures r == Ideal(threshold) <==> NoDecisiveLoss(doubling, bisection, threshold)
  {
    ExperimentBounds(r, doubling, bisection);
    ExperimentBrackets(r, doubling, bisection);
    if r > 0 {
      AnswerSeen(doubling + bisection, r);
      assert r <= threshold;
    }
    if r < 512 {
      HarmlessBracket(r, doubling, bisection, threshold);
    } else {
      ClimbShape(doubling);
      if Climbed(doubling).fails == 3 && Climbed(doubling).top > 1 {
        BisectedShape(r, doubling, bisection);
      }
      HarmlessDoubling(doubling, threshold);
    }
  }

  // ---------- the median of three ----------

  predicate AtLeastTwo(a: bool, b: bool, c: bool) {
    (a && b) || (a && c) || (b && c)
  }

  /** `m` is one of the three and has at least two of them on either side, itself included. */
  predicate Median(m: int, x: int, y: int, z: int) {
    (m == x || m == y || m == z) &&
    AtLeastTwo(x <= m, y <= m, z <= m) && AtLeastTwo(x >= m, y >= m, z >= m)
  }

  /** qsort with numcmp, on the three answers. */
  method Sort3(a: array<int>)
    requires a.Length == 3
    modifies a
    ensures a[0] <= a[1] <= a[2]
    ensures var x, y, z := old(a[0]), old(a[1]), old(a[2]);
            (a[0], a[1], a[2]) in {(x, y, z), (x, z, y), (y, x, z), (y, z, x), (z, x, y), (z, y, x)}
  {
    if a[0] > a[1] {
      a[0], a[1] := a[1], a[0];
    }
    if a[1] > a[2] {
      a[1], a[2] := a[2], a[1];
    }
    if a[0] > a[1] {
      a[0], a[1] := a[1], a[0];
    }
  }

  /** One recorded experiment. */
  datatype Trial = Trial(r: nat, doubling: seq<Attempt>, bisection: seq<Attempt>) {
    predicate Valid() {
      Experiment(r, doubling, bisection)
    }

    function Log(): seq<Attempt> {
      doubling + bisection
    }

    ghost predicate Harmless(threshold: int) {
      NoDecisiveLoss(doubling, bisection, threshold)
    }
  }

  function Logs(trials: seq<Trial>): seq<Attempt> {
    if trials == [] then [] else Logs(trials[..|trials| - 1]) + trials[|trials| - 1].Log()
  }

  /** The loop of probe that fills `exps`. */
  method RunExperiments(net: Network, exps: array<int>) returns (ghost trials: seq<Trial>)
    modifies net, exps
    ensures net.log == old(net.log) + Logs(trials)
    ensures |trials| == exps.Length
    ensures forall j :: 0 <= j < exps.Length ==> trials[j].Valid() && exps[j] == trials[j].r
  {
    hide Experiment;
    trials := [];
    var i := 0;
    while i < exps.Length
      invariant 0 <= i <= exps.Length && |trials| == i
      invariant forall j :: 0 <= j < i ==> trials[j].Valid() && exps[j] == trials[j].r
      invariant net.log == old(net.log) + Logs(trials)
    {
      var r;
      ghost var d, b;
      r, d, b := OneExperiment(net);
      exps[i] := r;
      LogsAppend(trials, Trial(r, d, b));
      trials := trials + [Trial(r, d, b)];
      i := i + 1;
    }
  }

  /** Three experiments; the median answer is printed. */
  method Probe(net: Network) returns (printed: int, ghost trials: seq<Trial>)
    modifies net
    ensures |trials| == 3 && forall i :: 0 <= i < 3 ==> trials[i].Valid()
    ensures net.log == old(net.log) + Logs(trials)
    ensures Median(printed, trials[0].r, trials[1].r, trials[2].r)
  {
    var exps := new int[3];
    trials := RunExperiments(net, exps);
    Sort3(exps);
    printed := exps[1];
  }

  lemma LogsAppend(trials: seq<Trial>, t: Trial)
    ensures Logs(trials + [t]) == Logs(trials) + t.Log()
  {
    assert (trials + [t])[..|trials|] == trials;
  }

  /** Whatever the network does, a probe makes at most 111 attempts. */
  lemma ProbeBounds(trials: seq<Trial>)
    requires |trials| == 3 && forall i :: 0 <= i < 3 ==> trials[i].Valid()
    ensures |Logs(trials)| <= 111
  {
    var t0, t1, t2 := trials[0], trials[1], trials[2];
    ExperimentBounds(t0.r, t0.doubling, t0.bisection);
    ExperimentBounds(t1.r, t1.doubling, t1.bisection);
    ExperimentBounds(t2.r, t2.doubling, t2.bisection);
    LogsAppend([], t0);
    LogsAppend([t0], t1);
    LogsAppend([t0, t1], t2);
    assert trials == [t0, t1] + [t2] && [t0, t1] == [t0] + [t1] && [t0] == [] + [t0];
  }

  lemma MedianBound(m: int, x: int, y: int, z: int, bound: int)
    requires Median(m, x, y, z) && x <= bound && y <= bound && z <= bound
    ensures m <= bound
    ensures m == bound <==> AtLeastTwo(x == bound, y == bound, z == bound)
  {
  }

  /** The printed value never exceeds the ideal answer, and it is the ideal answer exactly when at
      least two of the three experiments suffered no decisive loss. */
  lemma ProbeUnderLoss(m: int, trials: seq<Trial>, threshold: int)
    requires |trials| == 3 && forall i :: 0 <= i < 3 ==> trials[i].Valid()
    requires Median(m, trials[0].r, trials[1].r, trials[2].r)
    requires forall i :: 0 <= i < 3 ==> NeverAbove(trials[i].Log(), threshold)
    ensures m <= Ideal(threshold)
    ensures m == Ideal(threshold) <==>
            AtLeastTwo(trials[0].Harmless(threshold), trials[1].Harmless(threshold), trials[2].Harmless(threshold))
  {
    forall i | 0 <= i < 3
      ensures trials[i].r <= Ideal(threshold)
      ensures trials[i].r == Ideal(threshold) <==> trials[i].Harmless(threshold)
    {
      var t := trials[i];
      ExperimentUnderLoss(t.r, t.doubling, t.bisection, threshold);
    }
    MedianBound(m, trials[0].r, trials[1].r, trials[2].r, Ideal(threshold));
  }
}
