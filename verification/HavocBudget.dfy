/** How long an entry is fuzzed at random: calculate_score of AFL/afl-fuzz.c, over the reals, and the
    havoc loop, whose limit moves while it runs. */
module HavocBudget {

  const HAVOC_CYCLES: nat := 256
  const HAVOC_CYCLES_INIT: nat := 1024
  const HAVOC_MAX_MULT: nat := 16
  const HAVOC_MIN: nat := 16
  const SPLICE_HAVOC: nat := 32

  // ------------------------------------------------------------------------- score

  function SpeedScore(execUs: nat, avgExecUs: nat): nat {
    if execUs as real * 0.1 > avgExecUs as real then 10
    else if execUs as real * 0.25 > avgExecUs as real then 25
    else if execUs as real * 0.5 > avgExecUs as real then 50
    else if execUs as real * 0.75 > avgExecUs as real then 75
    else if execUs * 4 < avgExecUs then 300
    else if execUs * 3 < avgExecUs then 200
    else if execUs * 2 < avgExecUs then 150
    else 100
  }

  /** Assigning a scaled score back to an unsigned integer. */
  function Scaled(score: nat, factor: real): nat
    requires factor >= 0.0
  {
    var x := (score as real * factor).Floor;
    if x >= 0 then x else 0
  }

  function BitmapScore(score: nat, size: nat, avgSize: nat): nat {
    if size as real * 0.3 > avgSize as real then score * 3
    else if size as real * 0.5 > avgSize as real then score * 2
    else if size as real * 0.75 > avgSize as real then Scaled(score, 1.5)
    else if size * 3 < avgSize then Scaled(score, 0.25)
    else if size * 2 < avgSize then Scaled(score, 0.5)
    else if size as real * 1.5 < avgSize as real then Scaled(score, 0.75)
    else score
  }

  function HandicapScore(score: nat, handicap: nat): nat {
    if handicap >= 4 then score * 4 else if handicap > 0 then score * 2 else score
  }

  function DepthScore(score: nat, depth: nat): nat {
    if depth <= 3 then score
    else if depth <= 7 then score * 2
    else if depth <= 13 then score * 3
    else if depth <= 25 then score * 4
    else score * 5
  }

  /** The score of an entry, cut off at 1600. */
  function ScoreOf(execUs: nat, avgExecUs: nat, size: nat, avgSize: nat, handicap: nat, depth: nat): nat {
    var raw := DepthScore(HandicapScore(BitmapScore(SpeedScore(execUs, avgExecUs), size, avgSize), handicap), depth);
    if raw > HAVOC_MAX_MULT * 100 then HAVOC_MAX_MULT * 100 else raw
  }

  class QueueEntry {
    var execUs: nat
    var bitmapSize: nat
    var handicap: nat
    var depth: nat
  }

  ghost predicate InScoreRange(score: nat) {
    2 <= score <= HAVOC_MAX_MULT * 100
  }

  /** calculate_score: whatever the entry and the averages, the score lies between 2 and
      1600; the handicap is used up four or one at a time. */
  method CalculateScore(q: QueueEntry, totalCalUs: nat, totalCalCycles: nat, totalBitmapSize: nat,
                        totalBitmapEntries: nat)
    returns (perfScore: nat)
    requires totalCalCycles > 0 && totalBitmapEntries > 0
    modifies q`handicap
    ensures InScoreRange(perfScore)
    ensures q.handicap == if old(q.handicap) >= 4 then old(q.handicap) - 4
                          else if old(q.handicap) > 0 then old(q.handicap) - 1 else 0
    ensures perfScore == ScoreOf(q.execUs, totalCalUs / totalCalCycles, q.bitmapSize,
                                 totalBitmapSize / totalBitmapEntries, old(q.handicap), q.depth)
  {
    var avgExecUs := totalCalUs / totalCalCycles;
    var avgBitmapSize := totalBitmapSize / totalBitmapEntries;
    perfScore := SpeedScore(q.execUs, avgExecUs);
    BitmapKeepsTwo(perfScore, q.bitmapSize, avgBitmapSize);
    perfScore := BitmapScore(perfScore, q.bitmapSize, avgBitmapSize);
    if q.handicap >= 4 {
      perfScore := perfScore * 4;
      q.handicap := q.handicap - 4;
    } else if q.handicap > 0 {
      perfScore := perfScore * 2;
      q.handicap := q.handicap - 1;
    }
    perfScore := DepthScore(perfScore, q.depth);
    if perfScore > HAVOC_MAX_MULT * 100 {
      perfScore := HAVOC_MAX_MULT * 100;
    }
  }

  /** Even the slowest, smallest entry keeps two points when the fraction is cut off. */
  lemma BitmapKeepsTwo(score: nat, size: nat, avgSize: nat)
    requires score >= 10
    ensures BitmapScore(score, size, avgSize) >= 2
  {
  }

  // ------------------------------------------------------------------- havoc budget

  datatype Kind = Havoc(doingDet: bool) | Splice

  function Cycles(kind: Kind): nat {
    match kind
    case Havoc(doingDet) => if doingDet then HAVOC_CYCLES_INIT else HAVOC_CYCLES
    case Splice => SPLICE_HAVOC
  }

  /** stage_max when the stage starts. */
  function FirstLimit(kind: Kind, perf: nat, havocDiv: nat): (m: nat)
    requires InScoreRange(perf) && havocDiv > 0
    ensures Proportionate(m, perf) && m >= HAVOC_MIN
  {
    LimitFits(Cycles(kind), perf, havocDiv);
    var m := Cycles(kind) * perf / havocDiv / 100;
    if m < HAVOC_MIN then HAVOC_MIN else m
  }

  lemma LimitFits(cycles: nat, perf: nat, havocDiv: nat)
    requires InScoreRange(perf) && havocDiv > 0 && cycles <= 1024
    ensures 100 * (cycles * perf / havocDiv / 100) <= 1024 * perf
  {
    MoreCycles(cycles, perf);
    QuotientShrinks(cycles * perf, havocDiv);
    HundredthFits(cycles * perf / havocDiv, perf);
  }

  lemma MoreCycles(cycles: nat, perf: nat)
    requires cycles <= 1024
    ensures cycles * perf <= 1024 * perf
  {
    ProductNonNegative(1024 - cycles, perf);
  }

  lemma HundredthFits(x: nat, perf: nat)
    requires x <= 1024 * perf
    ensures 100 * (x / 100) <= 1024 * perf
  {
  }

  lemma QuotientShrinks(x: nat, d: nat)
    requires d > 0
    ensures x / d <= x
  {
    var q := x / d;
    assert q * d == q + q * (d - 1);
    ProductNonNegative(q, d - 1);
  }

  lemma ProductNonNegative(a: nat, b: nat)
    ensures a * b >= 0
  {
  }

  /** The limit and the score are doubled together, so their proportion never changes. */
  ghost predicate Proportionate(limit: nat, perf: nat) {
    100 * limit <= 1024 * perf && perf <= 3200
  }

  /** The executions of a stage that is not cut short; found(i): did execution i find
      something?  The limit doubles on finds until the score exceeds 1600. */
  function Runs(found: nat -> bool, cur: nat, limit: nat, perf: nat): (n: nat)
    requires Proportionate(limit, perf)
    ensures n <= Max(cur, 32768)
    decreases 32768 - cur
  {
    if cur >= limit then cur
    else if found(cur) && perf <= HAVOC_MAX_MULT * 100 then Runs(found, cur + 1, 2 * limit, 2 * perf)
    else Runs(found, cur + 1, limit, perf)
  }

  function Max(a: int, b: int): int { if a > b then a else b }

  method ChooseLimit(kind: Kind, perfScore: nat, havocDiv: nat) returns (stageMax: nat)
    requires InScoreRange(perfScore) && havocDiv > 0
    ensures stageMax == FirstLimit(kind, perfScore, havocDiv)
  {
    stageMax := Cycles(kind) * perfScore / havocDiv / 100;
    if stageMax < HAVOC_MIN {
      stageMax := HAVOC_MIN;
    }
  }

  /** The loop stands at `cur` and will make `total` executions in all. */
  ghost predicate OnTrack(found: nat -> bool, cur: nat, limit: nat, perf: nat, total: nat) {
    Proportionate(limit, perf) && cur <= limit && Runs(found, cur, limit, perf) == total
  }

  lemma {:induction false} OnTrackStep(found: nat -> bool, cur: nat, limit: nat, perf: nat, total: nat)
    requires OnTrack(found, cur, limit, perf, total) && cur < limit
    ensures cur < total && cur < 32768
    ensures if found(cur) && perf <= HAVOC_MAX_MULT * 100 then OnTrack(found, cur + 1, 2 * limit, 2 * perf, total)
            else OnTrack(found, cur + 1, limit, perf, total)
  {
    RunsGrow(found, cur, limit, perf);
  }

  /** None of the first n executions asks for the stage to be abandoned. */
  ghost predicate GoesOn(abort: nat -> bool, n: nat) {
    forall i: nat | i < n :: !abort(i)
  }

  lemma GoesOnStep(abort: nat -> bool, n: nat)
    requires GoesOn(abort, n)
    ensures GoesOn(abort, n + 1) <==> !abort(n)
  {
  }

  method HavocLoop(stageMax0: nat, perfScore0: nat, found: nat -> bool, abort: nat -> bool, ghost total: nat)
    returns (execs: nat, abandoned: bool)
    requires OnTrack(found, 0, stageMax0, perfScore0, total)
    ensures if abandoned then execs < total && abort(execs) else execs == total
    ensures GoesOn(abort, execs)
  {
    var stageMax: nat, perfScore: nat := stageMax0, perfScore0;
    execs, abandoned := 0, false;
    while execs < stageMax
      invariant OnTrack(found, execs, stageMax, perfScore, total)
      invariant GoesOn(abort, execs)
      decreases 32768 - execs
    {
      OnTrackStep(found, execs, stageMax, perfScore, total);
      GoesOnStep(abort, execs);
      if abort(execs) {
        return execs, true;
      }
      if found(execs) && perfScore <= HAVOC_MAX_MULT * 100 {
        stageMax, perfScore := 2 * stageMax, 2 * perfScore;
      }
      execs := execs + 1;
    }
  }

  /** The havoc stage.  Whatever is found, it ends within 32768 executions. */
  method HavocStage(kind: Kind, origPerf: nat, havocDiv: nat, found: nat -> bool, abort: nat -> bool)
    returns (execs: nat, abandoned: bool)
    requires InScoreRange(origPerf) && havocDiv > 0
    ensures execs <= 32768
    ensures var all := Runs(found, 0, FirstLimit(kind, origPerf, havocDiv), origPerf);
            if abandoned then execs < all && abort(execs) else execs == all
    ensures GoesOn(abort, execs)
  {
    var stageMax := ChooseLimit(kind, origPerf, havocDiv);
    execs, abandoned := HavocLoop(stageMax, origPerf, found, abort, Runs(found, 0, stageMax, origPerf));
  }

  lemma {:induction false} RunsGrow(found: nat -> bool, cur: nat, limit: nat, perf: nat)
    requires Proportionate(limit, perf)
    ensures cur <= Runs(found, cur, limit, perf)
    ensures limit <= Max(cur, Runs(found, cur, limit, perf))
    decreases 32768 - cur
  {
    if cur < limit {
      if found(cur) && perf <= HAVOC_MAX_MULT * 100 {
        RunsGrow(found, cur + 1, 2 * limit, 2 * perf);
      } else {
        RunsGrow(found, cur + 1, limit, perf);
      }
    }
  }

  /** Without finds the limit stays what it was. */
  lemma {:induction false} RunsWithoutFinds(found: nat -> bool, cur: nat, limit: nat, perf: nat)
    requires Proportionate(limit, perf) && cur <= limit && forall i: nat | i >= cur :: !found(i)
    ensures Runs(found, cur, limit, perf) == limit
    decreases 32768 - cur
  {
    if cur < limit {
      RunsWithoutFinds(found, cur + 1, limit, perf);
    }
  }

  /** The bound is reached: the best score, deterministic steps done, one find at once. */
  lemma BoundIsTight()
    ensures Runs((i: nat) => i == 0, 0, FirstLimit(Havoc(true), 1600, 1), 1600) == 32768
  {
    var found := (i: nat) => i == 0;
    RunsWithoutFinds(found, 1, 32768, 3200);
  }
}
