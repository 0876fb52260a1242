/** trim_case of AFL/afl-fuzz.c: shortening a queue entry without changing its trace.

    A run after which the user interrupts, or which reports an error, ends the trimming at
    once, wherever it has got to. */
module Trimmer {
  import opened Deletion
  import opened Machine

  // A run of the target is a deterministic function of the bytes written for it.  The user
  // can interrupt after any run and the target can fail to start; either abandons the
  // trimming between two runs.

  const TRIM_MIN_BYTES: nat := 4
  const TRIM_START_STEPS: nat := 16
  const TRIM_END_STEPS: nat := 1024

  datatype Option<T> = None | Some(value: T)

  datatype Run = Run(error: bool, trace: seq<u8>)

  function Max(a: nat, b: nat): nat { if a > b then a else b }

  /** The first chunk length tried. */
  function StartChunk(s: Input): nat {
    Max(NextP2(|s|) / TRIM_START_STEPS, TRIM_MIN_BYTES)
  }

  /** The chunk length below which trimming an input of this length stops. */
  function EndChunk(s: Input): nat {
    Max(NextP2(|s|) / TRIM_END_STEPS, TRIM_MIN_BYTES)
  }

  /** The result of an undisturbed run: sweeps behind the first chunk, halving it. */
  function Trimmed(same: Oracle, s: Input, chunk: nat): Input
    decreases chunk
  {
    if chunk < EndChunk(s) then s
    else Trimmed(same, DeletePass(same, s, chunk, chunk), chunk / 2)
  }

  /** What every state of the trimming keeps of the entry it started from. */
  ghost predicate Faithful(same: Oracle, s: Input, t: Input) {
    && Subsequence(s, t)
    && (same(s) ==> same(t))
    && 4 <= |t| <= |s|
    && t[..4] == s[..4]
  }

  lemma FaithfulTrans(same: Oracle, s: Input, t: Input, u: Input)
    requires Faithful(same, s, t) && Faithful(same, t, u)
    ensures Faithful(same, s, u)
  {
    SubsequenceTrans(s, t, u);
  }

  lemma SweepIsFaithful(same: Oracle, s: Input, pos: nat, d: nat)
    requires d > 0 && TRIM_MIN_BYTES <= pos <= |s|
    ensures Faithful(same, s, DeletePass(same, s, pos, d))
  {
    DeletePassKeeps(same, s, pos, d);
    var r := DeletePass(same, s, pos, d);
    assert r[..TRIM_MIN_BYTES] == r[..pos][..TRIM_MIN_BYTES];
    assert s[..TRIM_MIN_BYTES] == s[..pos][..TRIM_MIN_BYTES];
  }

  /** Main result: trimming keeps the trace, deletes only, and leaves the first four
      bytes alone, so at least four bytes remain. */
  lemma {:induction false} TrimmedIsFaithful(same: Oracle, s: Input, chunk: nat)
    requires TRIM_MIN_BYTES <= |s| && chunk <= |s|
    ensures Faithful(same, s, Trimmed(same, s, chunk))
    decreases chunk
  {
    if chunk < EndChunk(s) {
      SubsequenceRefl(s);
    } else {
      SweepIsFaithful(same, s, chunk, chunk);
      DeletePassKeeps(same, s, chunk, chunk);
      var t := DeletePass(same, s, chunk, chunk);
      TrimmedIsFaithful(same, t, chunk / 2);
      FaithfulTrans(same, s, t, Trimmed(same, t, chunk / 2));
    }
  }

  lemma StartChunkFits(s: Input)
    requires |s| >= 5
    ensures IsPow2(StartChunk(s)) && StartChunk(s) <= |s|
  {
    NextP2Spec(|s|);
    var p := NextP2(|s|);
    assert p < 2 * |s|;
    assert IsPow2(4) by { assert IsPow2(2); }
    if p / TRIM_START_STEPS > TRIM_MIN_BYTES {
      Pow2Gap(4, p);
      Pow2Quotient(p);
    }
  }

  lemma {:induction false} Pow2Quotient(p: nat)
    requires IsPow2(p) && p >= 16
    ensures IsPow2(p / 16)
  {
    assert IsPow2(p / 2);
    assert IsPow2(p / 2 / 2);
    assert IsPow2(p / 2 / 2 / 2);
    assert IsPow2(p / 2 / 2 / 2 / 2);
  }

  lemma Pow2Double(n: nat)
    requires IsPow2(n)
    ensures IsPow2(2 * n)
  {
  }

  lemma Pow2Times32(n: nat)
    requires IsPow2(n)
    ensures IsPow2(32 * n)
  {
    Pow2Times4(n);
    Pow2Times4(4 * n);
    Pow2Double(16 * n);
  }

  lemma Pow2Times4(n: nat)
    requires IsPow2(n)
    ensures IsPow2(4 * n)
  {
    Pow2Double(n);
    Pow2Double(2 * n);
  }

  /** Main result: a sweep that is allowed to start runs the target at most 1023 times,
      whatever the target answers and however the input shrinks meanwhile. */
  lemma {:induction false} SweepRunsBounded(same: Oracle, s: Input, chunk: nat)
    requires IsPow2(chunk) && EndChunk(s) <= chunk <= |s|
    ensures PassRuns(same, s, chunk, chunk) <= 1023
  {
    NextP2Spec(|s|);
    RoundedLengthBounded(NextP2(|s|), chunk);
    PassRunsExactly(same, s, chunk, chunk);
    QuotientBounded(PassRuns(same, s, chunk, chunk), chunk);
  }

  /** Two powers of two within a factor below 1025 are within a factor of 1024. */
  lemma RoundedLengthBounded(p: nat, chunk: nat)
    requires IsPow2(p) && IsPow2(chunk) && p / TRIM_END_STEPS <= chunk
    ensures p <= 1024 * chunk
  {
    Pow2Times32(chunk);
    Pow2Times32(32 * chunk);
    if p > 1024 * chunk {
      Pow2Gap(32 * (32 * chunk), p);
    }
  }

  lemma QuotientBounded(n: nat, d: nat)
    requires d > 0 && n * d < 1024 * d
    ensures n < 1024
  {
  }

  lemma WithoutAt(s: Input, at: nat, n: nat, k: nat)
    requires at < |s| && at + n <= |s| && n > 0 && k < |s| - n
    ensures |Without(s, at, n)| == |s| - n && Without(s, at, n)[k] == if k < at then s[k] else s[k + n]
  {
  }

  lemma WithoutClipped(s: Input, at: nat, removeLen: nat, n: nat)
    requires at < |s| && removeLen > 0 && n == Min(removeLen, |s| - at)
    ensures Without(s, at, n) == Without(s, at, removeLen)
  {
  }

  // ------------------------------------------------------------- interrupted runs

  /** Does run number n, on these bytes, end the trimming? */
  type Stops = (nat, Input) -> bool

  /** What an undisturbed sweep runs the target on, in order. */
  function SweepLog(same: Oracle, s: Input, pos: nat, d: nat): (log: seq<Input>)
    requires d > 0
    ensures |log| == PassRuns(same, s, pos, d)
    decreases |s| - pos
  {
    if pos >= |s| then []
    else
      var w := Without(s, pos, d);
      [w] + if same(w) then SweepLog(same, w, pos, d) else SweepLog(same, s, pos + d, d)
  }

  /** What undisturbed trimming runs the target on. */
  function TrimLog(same: Oracle, s: Input, chunk: nat): (log: seq<Input>)
    decreases chunk
  {
    if chunk < EndChunk(s) then []
    else SweepLog(same, s, chunk, chunk) + TrimLog(same, DeletePass(same, s, chunk, chunk), chunk / 2)
  }

  function FullLog(same: Oracle, s: Input): seq<Input> {
    TrimLog(same, s, StartChunk(s))
  }

  /** The runs that are made: those up to the first that ends the trimming, the runs being
      counted from `first`. */
  function Made(stops: Stops, first: nat, log: seq<Input>): (r: seq<Input>)
    ensures Ends(stops, first, log) ==> r != []
    ensures |r| <= |log|
    decreases |log|
  {
    if log == [] then []
    else if stops(first, log[0]) then [log[0]]
    else [log[0]] + Made(stops, first + 1, log[1..])
  }

  function Ends(stops: Stops, first: nat, log: seq<Input>): bool
    decreases |log|
  {
    log != [] && (stops(first, log[0]) || Ends(stops, first + 1, log[1..]))
  }

  /** The runs whose outcome was looked at: all but the one that ended the trimming. */
  function Judged(made: seq<Input>, aborted: bool): (r: seq<Input>)
    ensures |r| <= |made|
  {
    if aborted && made != [] then made[..|made| - 1] else made
  }

  /** The first run, from the i-th on, that gave the recorded checksum. */
  function FirstKept(same: Oracle, runs: seq<Input>, i: nat): (r: nat)
    requires i <= |runs|
    ensures i <= r <= |runs|
    decreases |runs| - i
  {
    if i == |runs| || same(runs[i]) then i else FirstKept(same, runs, i + 1)
  }

  /** Its trace. */
  function Clean(same: Oracle, target: Input -> Run, runs: seq<Input>): Option<seq<u8>> {
    var i := FirstKept(same, runs, 0);
    if i < |runs| then Some(target(runs[i]).trace) else None
  }

  lemma {:induction false} FirstKeptNext(same: Oracle, runs: seq<Input>, next: Input, i: nat)
    requires i <= |runs|
    ensures FirstKept(same, runs + [next], i) ==
            if FirstKept(same, runs, i) < |runs| || same(next) then FirstKept(same, runs, i) else |runs| + 1
    decreases |runs| - i
  {
    if i < |runs| && !same(runs[i]) {
      FirstKeptNext(same, runs, next, i + 1);
    }
  }

  lemma CleanNext(same: Oracle, target: Input -> Run, runs: seq<Input>, next: Input)
    ensures Clean(same, target, runs + [next]) ==
            if Clean(same, target, runs).Some? || !same(next) then Clean(same, target, runs)
            else Some(target(next).trace)
  {
    FirstKeptNext(same, runs, next, 0);
  }

  lemma Assoc<T>(a: seq<T>, b: seq<T>, c: seq<T>)
    ensures a + b + c == a + (b + c)
  {
  }

  lemma JudgedAppend(before: seq<Input>, made: seq<Input>, aborted: bool)
    requires aborted ==> made != []
    ensures Judged(before + made, aborted) == before + Judged(made, aborted)
  {
  }

  lemma {:induction false} EndsAppend(stops: Stops, first: nat, a: seq<Input>, b: seq<Input>)
    ensures Ends(stops, first, a + b) == (Ends(stops, first, a) || Ends(stops, first + |a|, b))
    decreases |a|
  {
    if a == [] {
      assert a + b == b;
    } else {
      var n := first + 1;
      EndsAppend(stops, n, a[1..], b);
      assert (a + b)[1..] == a[1..] + b && n + |a[1..]| == first + |a|;
    }
  }

  lemma {:induction false} MadeOfAll(stops: Stops, first: nat, a: seq<Input>)
    ensures !Ends(stops, first, a) ==> Made(stops, first, a) == a
    decreases |a|
  {
    if a != [] {
      var n := first + 1;
      MadeOfAll(stops, n, a[1..]);
    }
  }

  /** A log whose runs were cut short goes no further. */
  lemma {:induction false} MadeCut(stops: Stops, first: nat, a: seq<Input>, b: seq<Input>)
    requires Ends(stops, first, a)
    ensures Made(stops, first, a + b) == Made(stops, first, a)
    decreases |a|
  {
    assert (a + b)[1..] == a[1..] + b;
    if !stops(first, a[0]) {
      MadeCut(stops, first + 1, a[1..], b);
    }
  }

  lemma {:induction false} MadeOn(stops: Stops, first: nat, a: seq<Input>, b: seq<Input>)
    requires !Ends(stops, first, a)
    ensures Made(stops, first, a + b) == a + Made(stops, first + |a|, b)
    decreases |a|
  {
    if a == [] {
      assert a + b == b;
    } else {
      var n := first + 1;
      MadeOn(stops, n, a[1..], b);
      assert (a + b)[1..] == a[1..] + b && n + |a[1..]| == first + |a|;
      Assoc([a[0]], a[1..], Made(stops, first + |a|, b));
      assert a == [a[0]] + a[1..];
    }
  }

  lemma MadeAppend(stops: Stops, first: nat, a: seq<Input>, b: seq<Input>)
    ensures Ends(stops, first, a + b) == (Ends(stops, first, a) || Ends(stops, first + |a|, b))
    ensures Made(stops, first, a + b) ==
            if Ends(stops, first, a) then Made(stops, first, a) else a + Made(stops, first + |a|, b)
    ensures !Ends(stops, first, a) ==> Made(stops, first, a) == a
  {
    EndsAppend(stops, first, a, b);
    MadeOfAll(stops, first, a);
    if Ends(stops, first, a) {
      MadeCut(stops, first, a, b);
    } else {
      MadeOn(stops, first, a, b);
    }
  }

  // What has been run says whether a run ended the trimming after another was kept.

  ghost predicate SomeKept(same: Oracle, runs: seq<Input>) {
    exists i | 0 <= i < |runs| :: same(runs[i])
  }

  /** Run i of the log is the first that ends the trimming. */
  ghost predicate FirstStop(stops: Stops, first: nat, log: seq<Input>, i: nat) {
    i < |log| && stops(first + i, log[i]) && forall j | 0 <= j < i :: !stops(first + j, log[j])
  }

  /** Trimming with this log would be ended by a run after another of its runs was kept. */
  ghost predicate StoppedAfterCut(same: Oracle, stops: Stops, first: nat, log: seq<Input>) {
    exists i: nat :: FirstStop(stops, first, log, i) && SomeKept(same, log[..i])
  }

  lemma {:induction false} FirstIsFirst(same: Oracle, runs: seq<Input>, i: nat)
    requires i <= |runs|
    ensures var r := FirstKept(same, runs, i);
            (r < |runs| ==> same(runs[r])) && forall j | i <= j < r :: !same(runs[j])
    decreases |runs| - i
  {
    if i < |runs| && !same(runs[i]) {
      FirstIsFirst(same, runs, i + 1);
    }
  }

  lemma CleanIsKept(same: Oracle, target: Input -> Run, runs: seq<Input>)
    ensures Clean(same, target, runs).Some? <==> SomeKept(same, runs)
  {
    FirstIsFirst(same, runs, 0);
  }

  lemma {:induction false} MadeSays(stops: Stops, first: nat, log: seq<Input>) returns (i: nat)
    requires Ends(stops, first, log)
    ensures FirstStop(stops, first, log, i) && Made(stops, first, log) == log[..i + 1]
    decreases |log|
  {
    if stops(first, log[0]) {
      i := 0;
    } else {
      var k := MadeSays(stops, first + 1, log[1..]);
      i := k + 1;
      forall j | 0 <= j < i
        ensures !stops(first + j, log[j])
      {
        if j > 0 {
          assert log[1..][j - 1] == log[j] && !stops(first + 1 + (j - 1), log[1..][j - 1]);
        }
      }
      assert log[1..][k] == log[i] && first + 1 + k == first + i;
      assert log[..i + 1] == [log[0]] + log[1..][..k + 1];
    }
  }

  lemma {:induction false} NoEndNoStop(stops: Stops, first: nat, log: seq<Input>, i: nat)
    requires i < |log| && !Ends(stops, first, log)
    ensures !stops(first + i, log[i])
    decreases |log|
  {
    if i > 0 {
      NoEndNoStop(stops, first + 1, log[1..], i - 1);
      assert log[1..][i - 1] == log[i] && first + 1 + (i - 1) == first + i;
    }
  }

  lemma StopsDecide(same: Oracle, stops: Stops, first: nat, log: seq<Input>)
    ensures var aborted := Ends(stops, first, log);
            aborted && SomeKept(same, Judged(Made(stops, first, log), aborted)) <==>
                StoppedAfterCut(same, stops, first, log)
  {
    if Ends(stops, first, log) {
      var n := MadeSays(stops, first, log);
      assert log[..n + 1][..n] == log[..n];
      assert forall i: nat | FirstStop(stops, first, log, i) :: i == n;
    } else {
      forall i: nat | FirstStop(stops, first, log, i)
        ensures false
      {
        NoEndNoStop(stops, first, log, i);
      }
    }
  }

  /** It can happen: nine bytes whose trace nothing changes, and an interruption after the
      second run.  The first run has removed four bytes by then. */
  lemma CutShort(s: Input, same: Oracle, stops: Stops)
    requires |s| == 9 && same == (_ => true) && stops == ((n, _) => n == 2)
    ensures StoppedAfterCut(same, stops, 1, FullLog(same, s))
  {
    NextP2Of9();
    var w := Without(s, 4, 4);
    var log := FullLog(same, s);
    assert |w| == 5 && log[0] == w && SweepLog(same, s, 4, 4)[1] == Without(w, 4, 4);
    assert log[1] == Without(w, 4, 4) && log[..1] == [w];
    assert FirstStop(stops, 1, log, 1) && SomeKept(same, log[..1]);
  }

  lemma NextP2Of9()
    ensures NextP2(9) == 16
  {
    var n := 9;
    assert DoubleUpTo(n, 16) == 16;
    assert DoubleUpTo(n, 8) == 16;
    assert DoubleUpTo(n, 4) == 16;
    assert DoubleUpTo(n, 2) == 16;
  }

  // ------------------------------------------------------------- a sweep, a trimming

  /** Of the runs in all, some are made and those in rest may still be. */
  ghost predicate Ahead(stops: Stops, first: nat, all: seq<Input>, made: seq<Input>, rest: seq<Input>) {
    && Made(stops, first, all) == made + Made(stops, first + |made|, rest)
    && Ends(stops, first, all) == Ends(stops, first + |made|, rest)
  }

  lemma AheadStart(stops: Stops, first: nat, all: seq<Input>, made: seq<Input>)
    requires made == []
    ensures Ahead(stops, first, all, made, all)
  {
    assert made + Made(stops, first, all) == Made(stops, first, all);
  }

  lemma AheadStep(stops: Stops, first: nat, all: seq<Input>, made: seq<Input>, w: Input, rest: seq<Input>)
    requires Ahead(stops, first, all, made, [w] + rest) && !stops(first + |made|, w)
    ensures Ahead(stops, first, all, made + [w], rest)
  {
    assert ([w] + rest)[1..] == rest;
    Assoc(made, [w], Made(stops, first + |made| + 1, rest));
  }

  lemma AheadStop(stops: Stops, first: nat, all: seq<Input>, made: seq<Input>, w: Input, rest: seq<Input>)
    requires Ahead(stops, first, all, made, [w] + rest) && stops(first + |made|, w)
    ensures made + [w] == Made(stops, first, all) && Ends(stops, first, all)
  {
  }

  lemma AheadMany(stops: Stops, first: nat, all: seq<Input>, made: seq<Input>, more: seq<Input>, rest: seq<Input>)
    requires Ahead(stops, first, all, made, more + rest) && !Ends(stops, first + |made|, more)
    ensures Ahead(stops, first, all, made + more, rest)
  {
    var n := first + |made|;
    MadeAppend(stops, n, more, rest);
    Assoc(made, more, Made(stops, n + |more|, rest));
    assert n + |more| == first + |made + more|;
  }

  lemma AheadStopMany(stops: Stops, first: nat, all: seq<Input>, made: seq<Input>, more: seq<Input>, rest: seq<Input>)
    requires Ahead(stops, first, all, made, more + rest) && Ends(stops, first + |made|, more)
    ensures made + Made(stops, first + |made|, more) == Made(stops, first, all) && Ends(stops, first, all)
  {
    MadeAppend(stops, first + |made|, more, rest);
  }

  lemma AheadEnd(stops: Stops, first: nat, all: seq<Input>, made: seq<Input>)
    requires Ahead(stops, first, all, made, [])
    ensures made == Made(stops, first, all) && !Ends(stops, first, all)
  {
  }

  /** A sweep that has come to pos: what it has made of s0, and what is still to be run. */
  ghost predicate MidSweep(same: Oracle, stops: Stops, first: nat, s0: Input, s: Input, pos: nat, d: nat,
                           made: seq<Input>)
    requires d > 0
  {
    && TRIM_MIN_BYTES <= d <= |s| && d <= pos && Faithful(same, s0, s) && (|s| == |s0| ==> s == s0)
    && DeletePass(same, s, pos, d) == DeletePass(same, s0, d, d)
    && Ahead(stops, first, SweepLog(same, s0, d, d), made, SweepLog(same, s, pos, d))
  }

  lemma StartSweep(same: Oracle, stops: Stops, first: nat, s0: Input, d: nat, made: seq<Input>)
    requires TRIM_MIN_BYTES <= d <= |s0| && made == []
    ensures MidSweep(same, stops, first, s0, s0, d, d, made)
  {
    SubsequenceRefl(s0);
    AheadStart(stops, first, SweepLog(same, s0, d, d), made);
  }

  lemma MidSweepCut(same: Oracle, stops: Stops, first: nat, s0: Input, s: Input, pos: nat, d: nat, made: seq<Input>,
                    w: Input)
    requires d > 0 && MidSweep(same, stops, first, s0, s, pos, d, made) && pos < |s|
    requires w == Without(s, pos, d) && !stops(first + |made|, w) && same(w)
    ensures MidSweep(same, stops, first, s0, w, pos, d, made + [w])
  {
    AheadStep(stops, first, SweepLog(same, s0, d, d), made, w, SweepLog(same, w, pos, d));
    GapIsFaithful(same, s0, s, pos, d);
  }

  lemma MidSweepSkip(same: Oracle, stops: Stops, first: nat, s0: Input, s: Input, pos: nat, d: nat, made: seq<Input>,
                     w: Input)
    requires d > 0 && MidSweep(same, stops, first, s0, s, pos, d, made) && pos < |s|
    requires w == Without(s, pos, d) && !stops(first + |made|, w) && !same(w)
    ensures MidSweep(same, stops, first, s0, s, pos + d, d, made + [w])
  {
    AheadStep(stops, first, SweepLog(same, s0, d, d), made, w, SweepLog(same, s, pos + d, d));
  }

  lemma MidSweepNext(same: Oracle, stops: Stops, first: nat, s0: Input, s: Input, pos: nat, d: nat, made: seq<Input>,
                     w: Input, s': Input, pos': nat, n: nat)
    requires d > 0 && MidSweep(same, stops, first, s0, s, pos, d, made) && pos < |s|
    requires n == first + |made| && w == Without(s, pos, d) && !stops(n, w)
    requires if same(w) then s' == w && pos' == pos else s' == s && pos' == pos + d
    ensures MidSweep(same, stops, first, s0, s', pos', d, made + [w])
  {
    if same(w) {
      MidSweepCut(same, stops, first, s0, s, pos, d, made, w);
    } else {
      MidSweepSkip(same, stops, first, s0, s, pos, d, made, w);
    }
  }

  /** A finished sweep. */
  ghost predicate SweepDone(same: Oracle, stops: Stops, first: nat, s0: Input, s: Input, d: nat, made: seq<Input>,
                            aborted: bool)
    requires d > 0
  {
    && Faithful(same, s0, s) && d <= |s| && (|s| == |s0| ==> s == s0)
    && (!aborted ==> s == DeletePass(same, s0, d, d))
    && made == Made(stops, first, SweepLog(same, s0, d, d))
    && aborted == Ends(stops, first, SweepLog(same, s0, d, d))
  }

  lemma MidSweepStop(same: Oracle, stops: Stops, first: nat, s0: Input, s: Input, pos: nat, d: nat, made: seq<Input>,
                     w: Input, n: nat)
    requires d > 0 && MidSweep(same, stops, first, s0, s, pos, d, made) && pos < |s|
    requires n == first + |made| && w == Without(s, pos, d) && stops(n, w)
    ensures SweepDone(same, stops, first, s0, s, d, made + [w], true)
  {
    var rest := if same(w) then SweepLog(same, w, pos, d) else SweepLog(same, s, pos + d, d);
    AheadStop(stops, first, SweepLog(same, s0, d, d), made, w, rest);
  }

  lemma MidSweepEnd(same: Oracle, stops: Stops, first: nat, s0: Input, s: Input, pos: nat, d: nat, made: seq<Input>)
    requires d > 0 && MidSweep(same, stops, first, s0, s, pos, d, made) && pos >= |s|
    ensures SweepDone(same, stops, first, s0, s, d, made, false)
  {
    AheadEnd(stops, first, SweepLog(same, s0, d, d), made);
  }

  /** Trimming that has come to the given chunk length. */
  ghost predicate MidTrim(same: Oracle, stops: Stops, first: nat, s0: Input, s: Input, chunk: nat, made: seq<Input>) {
    && IsPow2(chunk) && chunk <= |s| && Faithful(same, s0, s) && (|s| == |s0| ==> s == s0)
    && Trimmed(same, s0, StartChunk(s0)) == Trimmed(same, s, chunk)
    && Ahead(stops, first, FullLog(same, s0), made, TrimLog(same, s, chunk))
  }

  /** Finished trimming. */
  ghost predicate TrimDone(same: Oracle, stops: Stops, first: nat, s0: Input, s: Input, made: seq<Input>,
                           aborted: bool) {
    && Faithful(same, s0, s) && (|s| == |s0| ==> s == s0)
    && (!aborted ==> s == Trimmed(same, s0, StartChunk(s0)))
    && made == Made(stops, first, FullLog(same, s0))
    && aborted == Ends(stops, first, FullLog(same, s0))
  }

  lemma StartTrim(same: Oracle, stops: Stops, first: nat, s0: Input, made: seq<Input>)
    requires |s0| >= 5 && made == []
    ensures MidTrim(same, stops, first, s0, s0, StartChunk(s0), made)
  {
    StartChunkFits(s0);
    SubsequenceRefl(s0);
    AheadStart(stops, first, FullLog(same, s0), made);
  }

  lemma SweepBound(same: Oracle, stops: Stops, first: nat, s: Input, s': Input, chunk: nat, made: seq<Input>,
                   aborted: bool)
    requires IsPow2(chunk) && EndChunk(s) <= chunk <= |s| && SweepDone(same, stops, first, s, s', chunk, made, aborted)
    ensures |Judged(made, aborted)| <= 1023
  {
    SweepRunsBounded(same, s, chunk);
  }

  lemma MidTrimSweep(same: Oracle, stops: Stops, first: nat, s0: Input, s: Input, s': Input, chunk: nat,
                     before: seq<Input>, made: seq<Input>)
    requires EndChunk(s) <= chunk && MidTrim(same, stops, first, s0, s, chunk, before)
    requires SweepDone(same, stops, first + |before|, s, s', chunk, made, false)
    ensures MidTrim(same, stops, first, s0, s', chunk / 2, before + made)
  {
    var log := SweepLog(same, s, chunk, chunk);
    FaithfulTrans(same, s0, s, s');
    MadeAppend(stops, first + |before|, log, []);
    assert made == log;
    AheadMany(stops, first, FullLog(same, s0), before, made, TrimLog(same, s', chunk / 2));
  }

  lemma MidTrimStop(same: Oracle, stops: Stops, first: nat, s0: Input, s: Input, s': Input, chunk: nat,
                    before: seq<Input>, made: seq<Input>)
    requires EndChunk(s) <= chunk && MidTrim(same, stops, first, s0, s, chunk, before)
    requires SweepDone(same, stops, first + |before|, s, s', chunk, made, true)
    ensures TrimDone(same, stops, first, s0, s', before + made, true)
  {
    FaithfulTrans(same, s0, s, s');
    AheadStopMany(stops, first, FullLog(same, s0), before, SweepLog(same, s, chunk, chunk),
      TrimLog(same, DeletePass(same, s, chunk, chunk), chunk / 2));
  }

  lemma MidTrimNext(same: Oracle, stops: Stops, first: nat, s0: Input, s: Input, s': Input, chunk: nat,
                    before: seq<Input>, more: seq<Input>, made: seq<Input>, aborted: bool, next: nat)
    requires EndChunk(s) <= chunk && MidTrim(same, stops, first, s0, s, chunk, before) && made == before + more
    requires next == first + |before| && SweepDone(same, stops, next, s, s', chunk, more, aborted)
    ensures if aborted then TrimDone(same, stops, first, s0, s', made, true)
            else MidTrim(same, stops, first, s0, s', chunk / 2, made)
  {
    if aborted {
      MidTrimStop(same, stops, first, s0, s, s', chunk, before, more);
    } else {
      MidTrimSweep(same, stops, first, s0, s, s', chunk, before, more);
    }
  }

  lemma MidTrimEnd(same: Oracle, stops: Stops, first: nat, s0: Input, s: Input, chunk: nat, made: seq<Input>)
    requires chunk < EndChunk(s) && MidTrim(same, stops, first, s0, s, chunk, made)
    ensures TrimDone(same, stops, first, s0, s, made, false)
  {
    AheadEnd(stops, first, FullLog(same, s0), made);
  }

  // ---------------------------------------------------------------- the program

  class QueueEntry {
    var len: nat
    const execCksum: int
    var file: Input

    constructor (input: Input, execCksum: int)
      ensures len == |input| && file == input && this.execCksum == execCksum
    {
      len := |input|;
      file := input;
      this.execCksum := execCksum;
    }
  }

  class Trimming {
    const target: Input -> Run
    const hash: seq<u8> -> int
    const stopAfter: nat -> bool          // does the user interrupt after this run?
    const q: QueueEntry
    const inBuf: array<u8>
    var execs: nat
    var needsWrite: bool
    var cleanTrace: seq<u8>
    var traceBits: seq<u8>                // the trace of the last run
    var rescored: bool                    // was update_bitmap_score called?
    ghost var runs: seq<Input>            // what the target was run on
    ghost const same: Oracle              // does an input give the recorded checksum?
    ghost const stops: Stops              // does a run end the trimming?

    ghost predicate Valid()
      reads this, q
    {
      && q.len <= inBuf.Length
      && same == (s => hash(target(s).trace) == q.execCksum)
      && stops == ((n: nat, s: Input) => stopAfter(n) || target(s).error)
    }

    ghost function Current(): Input
      requires Valid()
      reads this, q, inBuf
    {
      inBuf[..q.len]
    }

    /** needsWrite says whether a run gave the recorded checksum, cleanTrace what the first
        such run left. */
    ghost predicate Tracked(judged: seq<Input>)
      reads this
    {
      Clean(same, target, judged) == if needsWrite then Some(cleanTrace) else None
    }

    constructor (target: Input -> Run, hash: seq<u8> -> int, stopAfter: nat -> bool, q: QueueEntry, inBuf: array<u8>)
      requires q.len <= inBuf.Length
      ensures Valid() && !needsWrite && !rescored && runs == [] && execs == 0
      ensures this.target == target && this.hash == hash && this.stopAfter == stopAfter
      ensures this.q == q && this.inBuf == inBuf
    {
      this.target, this.hash, this.stopAfter := target, hash, stopAfter;
      this.q, this.inBuf := q, inBuf;
      execs, needsWrite, cleanTrace, traceBits, rescored := 0, false, [], [], false;
      runs := [];
      same := s => hash(target(s).trace) == q.execCksum;
      stops := (n: nat, s: Input) => stopAfter(n) || target(s).error;
    }

    /** The bytes the target reads: the buffer with a gap. */
    method WriteWithGap(skipAt: nat, skipLen: nat) returns (written: Input)
      requires Valid() && skipAt < q.len && skipAt + skipLen <= q.len && skipLen > 0
      ensures written == Without(Current(), skipAt, skipLen)
    {
      var tailLen := q.len - skipAt - skipLen;
      written := [];
      if skipAt != 0 {
        written := written + inBuf[..skipAt];
      }
      if tailLen != 0 {
        written := written + inBuf[skipAt + skipLen..skipAt + skipLen + tailLen];
      }
    }

    /** Closing the gap in the buffer gives exactly the bytes of the run just made. */
    method CloseGap(at: nat, n: nat)
      requires Valid() && at < q.len && at + n <= q.len && n > 0
      modifies q`len, inBuf
      ensures Valid() && Current() == Without(old(Current()), at, n)
    {
      ghost var s := Current();
      var moveTail := q.len - at - n;
      q.len := q.len - n;
      MemMove(inBuf, at, at + n, moveTail);
      forall k | 0 <= k < q.len
        ensures inBuf[k] == Without(s, at, n)[k]
      {
        WithoutAt(s, at, n, k);
      }
    }

    /** The target is run without the gap; cut says whether it gave the recorded checksum. */
    method RunGap(at: nat, n: nat) returns (aborted: bool, cut: bool)
      requires Valid() && at < q.len && at + n <= q.len && n > 0
      modifies this`execs, this`traceBits, this`runs
      ensures Valid()
      ensures var t := Without(Current(), at, n);
              && runs == old(runs) + [t] && execs == old(execs) + 1 && traceBits == target(t).trace
              && aborted == stops(execs, t) && cut == (!aborted && same(t))
    {
      var written := WriteWithGap(at, n);
      var run := target(written);
      execs, traceBits := execs + 1, run.trace;
      runs := runs + [written];
      aborted := stopAfter(execs) || run.error;
      cut := !aborted && hash(run.trace) == q.execCksum;
    }

    /** One run: on the recorded checksum the gap becomes permanent. */
    method TryGap(at: nat, removeLen: nat) returns (aborted: bool, cut: bool)
      requires Valid() && at < q.len && removeLen > 0 && Tracked(runs)
      modifies this`execs, this`needsWrite, this`cleanTrace, this`traceBits, this`runs, q`len, inBuf
      ensures Valid() && needsWrite == (old(needsWrite) || cut)
      ensures var t := Without(old(Current()), at, removeLen);
              && runs == old(runs) + [t] && execs == old(execs) + 1 && traceBits == target(t).trace
              && aborted == stops(execs, t) && cut == (!aborted && same(t))
              && Current() == if cut then t else old(Current())
      ensures Tracked(if aborted then old(runs) else runs)
    {
      var n := Min(removeLen, q.len - at);
      WithoutClipped(Current(), at, removeLen, n);
      CleanNext(same, target, runs, Without(Current(), at, n));
      aborted, cut := RunGap(at, n);
      if cut {
        CloseGap(at, n);
        if !needsWrite {
          needsWrite, cleanTrace := true, traceBits;
        }
      }
    }

    /** One round of a sweep. */
    method SweepOne(removePos: nat, removeLen: nat, lenP2: nat, ghost s: Input, ghost first: nat, ghost s0: Input,
                    ghost made: seq<Input>)
        returns (aborted: bool, removePos': nat, lenP2': nat, ghost s': Input, ghost w: Input)
      requires Valid() && removeLen > 0 && removePos < |s| && Current() == s && lenP2 == NextP2(|s|)
      requires execs + 1 == first + |made| && Tracked(runs)
      requires MidSweep(same, stops, first, s0, s, removePos, removeLen, made)
      modifies this`execs, this`needsWrite, this`cleanTrace, this`traceBits, this`runs, q`len, inBuf
      ensures Valid() && Current() == s' && lenP2' == NextP2(|s'|)
      ensures runs == old(runs) + [w] && execs == old(execs) + 1 && Tracked(if aborted then old(runs) else runs)
      ensures needsWrite <==> old(needsWrite) || |s'| < |s|
      ensures if aborted then s' == s && SweepDone(same, stops, first, s0, s', removeLen, made + [w], true)
              else MidSweep(same, stops, first, s0, s', removePos', removeLen, made + [w])
      ensures !aborted ==> |s'| < |s| || (s' == s && removePos' > removePos)
    {
      w := Without(s, removePos, removeLen);
      var cut;
      removePos', lenP2', s' := removePos, lenP2, s;
      aborted, cut := TryGap(removePos, removeLen);
      ghost var n := execs;
      if aborted {
        MidSweepStop(same, stops, first, s0, s, removePos, removeLen, made, w, n);
        return;
      }
      if cut {
        s' := w;
        lenP2' := NextP2Loop(q.len);
      } else {
        removePos' := removePos + removeLen;
      }
      MidSweepNext(same, stops, first, s0, s, removePos, removeLen, made, w, s', removePos', n);
    }

    /** One sweep over the buffer; stageCur counts its runs. */
    method Sweep(removeLen: nat, lenP2: nat, ghost first: nat, ghost s0: Input, ghost before: seq<Input>)
        returns (aborted: bool, stageCur: nat, lenP2': nat, ghost made: seq<Input>, ghost s: Input)
      requires Valid() && TRIM_MIN_BYTES <= removeLen <= |s0| && lenP2 == NextP2(|s0|)
      requires Current() == s0 && runs == before && Tracked(before) && execs + 1 == first
      modifies this`execs, this`needsWrite, this`cleanTrace, this`traceBits, this`runs, q`len, inBuf
      ensures Valid() && Current() == s && lenP2' == NextP2(|s|)
      ensures SweepDone(same, stops, first, s0, s, removeLen, made, aborted)
      ensures needsWrite <==> old(needsWrite) || |s| < |s0|
      ensures stageCur == |Judged(made, aborted)|
      ensures runs == before + made && execs == old(execs) + |made| && Tracked(before + Judged(made, aborted))
    {
      var removePos: nat := removeLen;
      aborted, stageCur, lenP2', made, s := false, 0, lenP2, [], s0;
      StartSweep(same, stops, first, s0, removeLen, made);
      assert before + [] == before;
      while removePos < q.len
        invariant Valid() && Current() == s && lenP2' == NextP2(|s|)
        invariant execs + 1 == first + |made| && runs == before + made && Tracked(runs) && stageCur == |made|
        invariant MidSweep(same, stops, first, s0, s, removePos, removeLen, made)
        invariant needsWrite <==> old(needsWrite) || |s| < |s0|
        decreases |s|, |s| - removePos
      {
        ghost var w, done := s, made;
        aborted, removePos, lenP2', s, w := SweepOne(removePos, removeLen, lenP2', s, first, s0, made);
        made := done + [w];
        Assoc(before, done, [w]);
        if aborted {
          return;
        }
        stageCur := stageCur + 1;
      }
      MidSweepEnd(same, stops, first, s0, s, removePos, removeLen, made);
    }

    /** trim_case: the run counts of the sweeps are returned for the record. */
    method TrimCase() returns (aborted: bool, sweeps: seq<nat>)
      requires Valid() && !needsWrite && !rescored && runs == [] && q.file == Current()
      modifies this`execs, this`needsWrite, this`cleanTrace, this`traceBits, this`runs, this`rescored, q, inBuf
      ensures Valid()
      ensures old(q.len) < 5 ==> Current() == old(Current()) && sweeps == [] && !aborted
      ensures old(q.len) >= 5 ==> Faithful(same, old(Current()), Current())
      ensures forall k | 0 <= k < |sweeps| :: sweeps[k] <= 1023
      // which runs are made, and whether one of them ends the trimming
      ensures old(q.len) >= 5 ==> var log := FullLog(same, old(Current()));
          runs == Made(stops, old(execs) + 1, log) && aborted == Ends(stops, old(execs) + 1, log)
      ensures old(q.len) >= 5 && !aborted ==> Current() == Trimmed(same, old(Current()), StartChunk(old(Current())))
      // the file and the entry agree unless a run ends the trimming after a cut
      ensures q.file == if aborted then old(q.file) else Current()
      ensures q.file == Current() <==>
          old(q.len) < 5 || !StoppedAfterCut(same, stops, old(execs) + 1, FullLog(same, old(Current())))
      // the entry is scored again, on the trace of the first run that was kept
      ensures rescored <==> !aborted && Current() != old(Current())
      ensures rescored ==> Clean(same, target, runs) == Some(traceBits)
    {
      aborted, sweeps := false, [];
      if q.len < 5 {
        return;
      }
      ghost var s0, first := Current(), execs + 1;
      ghost var s, made;
      aborted, sweeps, s, made := SweepAll(s0);
      StopsDecide(same, stops, first, FullLog(same, s0));
      CleanIsKept(same, target, Judged(made, aborted));
      if !aborted && needsWrite {
        q.file := inBuf[..q.len];
        traceBits := cleanTrace;
        rescored := true;
      }
    }

    /** One sweep of all. */
    method SweepNext(removeLen: nat, lenP2: nat, ghost first: nat, ghost s0: Input, ghost s: Input,
                     ghost before: seq<Input>)
        returns (aborted: bool, stageCur: nat, lenP2': nat, ghost s': Input, ghost made: seq<Input>)
      requires Valid() && removeLen >= Max(lenP2 / TRIM_END_STEPS, TRIM_MIN_BYTES) && lenP2 == NextP2(|s|)
      requires Current() == s && runs == before && Tracked(before) && execs + 1 == first + |before|
      requires MidTrim(same, stops, first, s0, s, removeLen, before)
      modifies this`execs, this`needsWrite, this`cleanTrace, this`traceBits, this`runs, q`len, inBuf
      ensures Valid() && Current() == s' && lenP2' == NextP2(|s'|) && stageCur <= 1023
      ensures runs == made && execs + 1 == first + |made| && (needsWrite <==> old(needsWrite) || |s'| < |s|)
      ensures if aborted then TrimDone(same, stops, first, s0, s', made, true)
              else MidTrim(same, stops, first, s0, s', removeLen / 2, made)
      ensures Tracked(Judged(made, aborted)) && |s'| <= |s|
    {
      ghost var more, next := [], first + |before|;
      aborted, stageCur, lenP2', more, s' := Sweep(removeLen, lenP2, next, s, before);
      made := before + more;
      JudgedAppend(before, more, aborted);
      SweepBound(same, stops, next, s, s', removeLen, more, aborted);
      MidTrimNext(same, stops, first, s0, s, s', removeLen, before, more, made, aborted, next);
    }

    /** The sweeps, with chunks of half the length each time. */
    method SweepAll(ghost s0: Input) returns (aborted: bool, sweeps: seq<nat>, ghost s: Input, ghost made: seq<Input>)
      requires Valid() && Current() == s0 && |s0| >= 5 && !needsWrite && runs == []
      modifies this`execs, this`needsWrite, this`cleanTrace, this`traceBits, this`runs, q`len, inBuf
      ensures Valid() && Current() == s && runs == made
      ensures TrimDone(same, stops, old(execs) + 1, s0, s, made, aborted)
      ensures Tracked(Judged(made, aborted))
      ensures needsWrite <==> |s| < |s0|
      ensures forall k | 0 <= k < |sweeps| :: sweeps[k] <= 1023
    {
      aborted, sweeps, s, made := false, [], s0, [];
      ghost var first := execs + 1;
      var lenP2 := NextP2Loop(q.len);
      var removeLen: nat := Max(lenP2 / TRIM_START_STEPS, TRIM_MIN_BYTES);
      StartTrim(same, stops, first, s0, made);
      while removeLen >= Max(lenP2 / TRIM_END_STEPS, TRIM_MIN_BYTES)
        invariant Valid() && Current() == s && runs == made && lenP2 == NextP2(|s|)
        invariant Tracked(made) && execs + 1 == first + |made| && |s| <= |s0|
        invariant MidTrim(same, stops, first, s0, s, removeLen, made)
        invariant needsWrite <==> |s| < |s0|
        invariant forall k | 0 <= k < |sweeps| :: sweeps[k] <= 1023
        decreases removeLen
      {
        var stageCur;
        aborted, stageCur, lenP2, s, made := SweepNext(removeLen, lenP2, first, s0, s, made);
        sweeps := sweeps + [stageCur];
        if aborted {
          return;
        }
        removeLen := removeLen / 2;
      }
      MidTrimEnd(same, stops, first, s0, s, removeLen, made);
    }
  }

  lemma GapIsFaithful(same: Oracle, s0: Input, s: Input, at: nat, n: nat)
    requires Faithful(same, s0, s) && TRIM_MIN_BYTES <= at < |s| && n > 0
    requires same(Without(s, at, n))
    ensures Faithful(same, s0, Without(s, at, n)) && at <= |Without(s, at, n)|
  {
    WithoutIsSubsequence(s, at, n);
    SubsequenceTrans(s0, s, Without(s, at, n));
    assert Without(s, at, n)[..TRIM_MIN_BYTES] == s[..TRIM_MIN_BYTES];
  }
}
