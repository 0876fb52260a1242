/** What calculate_score and the havoc stage of AFL/afl-fuzz.c reward, and how much a stage is given to start with. */
module BudgetLaws {
  import opened HavocBudget

  // ------------------------------------------------------------------------- score

  lemma SpeedCounts(e1: nat, e2: nat, avg: nat)
    requires e1 >= e2
    ensures SpeedScore(e1, avg) <= SpeedScore(e2, avg)
  {
  }

  lemma ScaledGrows(a: nat, b: nat, f: real, g: real)
    requires a <= b && 0.0 <= f <= g
    ensures Scaled(a, f) <= Scaled(b, g)
  {
    ProductGrows(a as real, b as real, f, g);
  }

  lemma ProductGrows(x: real, y: real, f: real, g: real)
    requires 0.0 <= x <= y && 0.0 <= f <= g
    ensures x * f <= y * g
  {
    assert x * f <= x * g;
    assert x * g <= y * g;
  }

  /** How the coverage of an entry compares with the average, as a factor. */
  function BitmapFactor(size: nat, avg: nat): (f: real)
    ensures f > 0.0
  {
    if size as real * 0.3 > avg as real then 3.0
    else if size as real * 0.5 > avg as real then 2.0
    else if size as real * 0.75 > avg as real then 1.5
    else if size * 3 < avg then 0.25
    else if size * 2 < avg then 0.5
    else if size as real * 1.5 < avg as real then 0.75
    else 1.0
  }

  lemma BitmapIsScaled(score: nat, size: nat, avg: nat)
    ensures BitmapScore(score, size, avg) == Scaled(score, BitmapFactor(size, avg))
  {
  }

  lemma FactorGrows(s1: nat, s2: nat, avg: nat)
    requires s1 <= s2
    ensures BitmapFactor(s1, avg) <= BitmapFactor(s2, avg)
  {
  }

  lemma CoverageCounts(a: nat, b: nat, s1: nat, s2: nat, avg: nat)
    requires a <= b && s1 <= s2
    ensures BitmapScore(a, s1, avg) <= BitmapScore(b, s2, avg)
  {
    BitmapIsScaled(a, s1, avg);
    BitmapIsScaled(b, s2, avg);
    FactorGrows(s1, s2, avg);
    ScaledGrows(a, b, BitmapFactor(s1, avg), BitmapFactor(s2, avg));
  }

  lemma LateComersCount(a: nat, b: nat, h1: nat, h2: nat)
    requires a <= b && h1 <= h2
    ensures HandicapScore(a, h1) <= HandicapScore(b, h2)
  {
  }

  lemma DepthCounts(a: nat, b: nat, d1: nat, d2: nat)
    requires a <= b && d1 <= d2
    ensures DepthScore(a, d1) <= DepthScore(b, d2)
  {
  }

  /** Main result: with the averages the same, an entry that is no slower, covers no less, was
      found no earlier and lies no less deep never scores less. */
  lemma BetterNeverScoresLess(e1: nat, e2: nat, avgExec: nat, s1: nat, s2: nat, avgSize: nat, h1: nat, h2: nat,
                              d1: nat, d2: nat)
    requires e1 >= e2 && s1 <= s2 && h1 <= h2 && d1 <= d2
    ensures ScoreOf(e1, avgExec, s1, avgSize, h1, d1) <= ScoreOf(e2, avgExec, s2, avgSize, h2, d2)
  {
    SpeedCounts(e1, e2, avgExec);
    var a, b := SpeedScore(e1, avgExec), SpeedScore(e2, avgExec);
    CoverageCounts(a, b, s1, s2, avgSize);
    var c, d := BitmapScore(a, s1, avgSize), BitmapScore(b, s2, avgSize);
    LateComersCount(c, d, h1, h2);
    DepthCounts(HandicapScore(c, h1), HandicapScore(d, h2), d1, d2);
  }

  /** An average entry of the first generations scores 100. */
  lemma AverageScores100(avgExec: nat, avgSize: nat, depth: nat)
    requires depth <= 3 && avgExec > 0
    ensures ScoreOf(avgExec, avgExec, avgSize, avgSize, 0, depth) == 100
  {
  }

  /** Both ends of the range are reached. */
  lemma RangeIsTight(avg: nat)
    requires avg == 1000
    ensures ScoreOf(11 * avg, avg, 1, avg, 0, 0) == 2
    ensures ScoreOf(1, avg, 10 * avg, avg, 4, 26) == 1600
  {
  }

  // ------------------------------------------------------------------ the first limit

  function StageCycles(kind: Kind): nat {
    match kind
    case Havoc(doingDet) => if doingDet then 1024 else 256
    case Splice => 32
  }

  lemma DividedTwice(x: nat, d: nat, m: nat)
    requires d > 0 && m == x / d / 100
    ensures 100 * m * d <= x < 100 * (m + 1) * d
  {
    var q := x / d;
    assert 100 * m <= q < 100 * (m + 1);
    QuotientOf(x, d, q);
    Ordered(100 * m, q, d);
    Ordered(q + 1, 100 * (m + 1), d);
  }

  lemma QuotientOf(x: nat, d: nat, q: nat)
    requires d > 0 && q == x / d
    ensures q * d <= x < (q + 1) * d
  {
  }

  lemma Ordered(a: nat, b: nat, d: nat)
    requires a <= b
    ensures a * d <= b * d
  {
  }

  /** Main result: a stage starts with the share of its cycles that the score, in percent, and
      the divisor leave, fractions cut off, but with 16 executions at least. */
  lemma FirstLimitExactly(kind: Kind, perf: nat, havocDiv: nat)
    requires InScoreRange(perf) && havocDiv > 0
    ensures var m := FirstLimit(kind, perf, havocDiv);
            && m >= 16 && StageCycles(kind) * perf < 100 * (m + 1) * havocDiv
            && (m > 16 ==> 100 * m * havocDiv <= StageCycles(kind) * perf)
  {
    var x := StageCycles(kind) * perf;
    var m := x / havocDiv / 100;
    DividedTwice(x, havocDiv, m);
    if m < 16 {
      Ordered(100 * (m + 1), 100 * (16 + 1), havocDiv);
    }
  }
}
