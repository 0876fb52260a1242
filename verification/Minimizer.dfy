/** The test-case minimizer of AFL/afl-tmin.c. */
module Minimizer {
  import opened Deletion
  import opened Machine

  // The target is an arbitrary deterministic function from inputs to run outcomes.  The
  // in-place loops are methods of class Minimizer; each equals a recursive reference
  // function below it, which has no skip shortcut, no symbol table and no second buffer.
  // The properties the tool is for are lemmas about the reference functions.

  const ZERO: u8 := 48                 // the character '0'
  const TMIN_SET_MIN_SIZE: nat := 4
  const TMIN_SET_STEPS: nat := 128
  const TRIM_START_STEPS: nat := 16
  const MSAN_ERROR: int := 86

  // ---------------------------------------------------------------- verdicts

  datatype Status = Exited(code: int) | Signaled(signal: int)
  datatype Run = Run(timedOut: bool, status: Status, cksum: int)
  datatype Mode = Mode(exact: bool, exitCrash: bool, crash: bool, origCksum: int)

  predicate Crashed(run: Run, mode: Mode) {
    || run.status.Signaled?
    || run.status.code == MSAN_ERROR
    || (run.status.code != 0 && mode.exitCrash)
  }

  /** run_target's answer on every execution but the first. */
  predicate Keep(run: Run, mode: Mode) {
    && !run.timedOut
    && Crashed(run, mode) == mode.crash
    && ((mode.crash && !mode.exact) || run.cksum == mode.origCksum)
  }

  // ------------------------------------------------- reference: block deletion

  /** All sweeps, halving the block length down to one byte. */
  function DeleteStage(accept: Oracle, s: Input, d: nat): (r: Input)
    requires d > 0
    ensures |r| <= |s|
    ensures r != s ==> |r| < |s|
    decreases d
  {
    var s1 := DeletePass(accept, s, 0, d);
    if d > 1 && |s1| >= 1 then DeleteStage(accept, s1, d / 2) else s1
  }

  function StartBlock(s: Input): (d: nat)
    ensures d > 0
  {
    NextP2(|s| / TRIM_START_STEPS)
  }

  // ------------------------------------------- reference: replacing bytes by '0'

  function ZeroRange(s: Input, at: nat, n: nat): (r: Input)
    requires at + n <= |s|
    ensures |r| == |s|
  {
    seq(|s|, i requires 0 <= i < |s| => if at <= i < at + n then ZERO else s[i])
  }

  function ZeroSymbol(s: Input, c: int): (r: Input)
    ensures |r| == |s|
  {
    seq(|s|, i requires 0 <= i < |s| => if s[i] as int == c then ZERO else s[i])
  }

  /** The input after trying to blank out the block at pos. */
  function NormalizeStep(accept: Oracle, s: Input, pos: nat, block: nat): (r: Input)
    requires pos < |s|
    ensures |r| == |s|
  {
    var t := ZeroRange(s, pos, Min(block, |s| - pos));
    if accept(t) then t else s
  }

  /** Stage 0: try to blank out one block after the other. */
  function NormalizeFrom(accept: Oracle, s: Input, pos: nat, block: nat): (r: Input)
    requires block > 0
    ensures |r| == |s|
    decreases |s| - pos
  {
    if pos >= |s| then s
    else NormalizeFrom(accept, NormalizeStep(accept, s, pos, block), pos + block, block)
  }

  /** Stage 2: try to blank out all occurrences of one symbol after the other. */
  function SymbolsFrom(accept: Oracle, s: Input, c: nat): (r: Input)
    ensures |r| == |s|
    decreases |s| + 256 - c
  {
    if c >= 256 then s
    else
      var t := ZeroSymbol(s, c);
      SymbolsFrom(accept, if accept(t) then t else s, c + 1)
  }

  /** Stage 3: try to blank out one byte after the other. */
  function BytesFrom(accept: Oracle, s: Input, i: nat): (r: Input)
    ensures |r| == |s|
    decreases |s| - i
  {
    if i >= |s| then s
    else
      var t := s[i := ZERO];
      BytesFrom(accept, if accept(t) then t else s, i + 1)
  }

  // ------------------------------------------------------ reference: the whole run

  /** What a pass can still gain: the length plus the number of bytes that are not '0'. */
  function Weight(s: Input): nat { |s| + NonZero(s) }

  function NonZero(s: Input): (n: nat)
    ensures n <= |s|
  {
    if s == [] then 0 else NonZero(s[..|s| - 1]) + (if s[|s| - 1] == ZERO then 0 else 1)
  }

  /** One pass: deletion, then both kinds of blanking. */
  function FullPass(accept: Oracle, s: Input): Input {
    BytesFrom(accept, SymbolsFrom(accept, DeleteStage(accept, s, StartBlock(s)), 0), 0)
  }

  /** Passes from number `pass` on, until one changes nothing. */
  function Passes(accept: Oracle, s: Input, pass: nat): Input
    decreases Weight(s)
  {
    var deleted := DeleteStage(accept, s, StartBlock(s));
    if pass > 1 && deleted == s then s
    else
      var next := FullPass(accept, s);
      PassShrinks(accept, s);
      if next != s then Passes(accept, next, pass + 1) else s
  }

  function SetBlock(s: Input): (block: nat)
    ensures block > 0
  {
    if NextP2(|s| / TMIN_SET_STEPS) < TMIN_SET_MIN_SIZE then TMIN_SET_MIN_SIZE
    else NextP2(|s| / TMIN_SET_STEPS)
  }

  function Minimized(accept: Oracle, s: Input): Input {
    Passes(accept, NormalizeFrom(accept, s, 0, SetBlock(s)), 1)
  }

  // ---------------------------------------------------------------- minimality

  /** No single byte can be removed any more. */
  ghost predicate OneMinimal(accept: Oracle, s: Input) {
    forall k | 0 <= k < |s| :: !accept(Without(s, k, 1))
  }

  /** No block of length d can be removed, wherever the multiples of d cut the input. */
  ghost predicate RejectsBlocks(accept: Oracle, s: Input, d: nat)
    requires d > 0
  {
    forall k | 0 <= k < |s| && k % d == 0 :: !accept(Without(s, k, d))
  }

  /** The block lengths: the powers of two up to the first that reaches a sixteenth of the
      input. */
  ghost predicate IsBlockLength(s: Input, d: nat) {
    IsPow2(d) && (d == 1 || d < 2 * (|s| / 16))
  }

  /** No block of any of these lengths can be removed. */
  ghost predicate BlockMinimal(accept: Oracle, s: Input) {
    forall d: nat | d > 0 && IsBlockLength(s, d) :: RejectsBlocks(accept, s, d)
  }

  lemma StartBlockIsLongest(s: Input, d: nat)
    requires IsPow2(d)
    ensures IsPow2(StartBlock(s)) && (IsBlockLength(s, d) <==> d <= StartBlock(s))
  {
    NextP2Spec(|s| / TRIM_START_STEPS);
    var d0 := StartBlock(s);
    if d0 < d {
      Pow2Gap(d0, d);
    } else if d > 1 {
      assert IsPow2(d / 2);
    }
  }

  lemma WholeBlocks(k: nat, d: nat)
    requires d > 0 && k % d == 0
    ensures k == 0 + k / d * d
  {
  }

  lemma UnchangedPassRejectsBlocks(accept: Oracle, s: Input, d: nat)
    requires d > 0 && DeletePass(accept, s, 0, d) == s
    ensures RejectsBlocks(accept, s, d)
  {
    forall k | 0 <= k < |s| && k % d == 0
      ensures !accept(Without(s, k, d))
    {
      WholeBlocks(k, d);
      UnchangedPassRejects(accept, s, 0, d, k / d, k);
    }
  }

  /** A deletion stage that changes nothing has tried every length from its first one down. */
  lemma {:induction false} UnchangedStageIsMinimal(accept: Oracle, s: Input, first: nat, d: nat)
    requires IsPow2(first) && DeleteStage(accept, s, first) == s && IsPow2(d) && d <= first
    ensures RejectsBlocks(accept, s, d)
    decreases first
  {
    assert DeletePass(accept, s, 0, first) == s;
    if d == first {
      UnchangedPassRejectsBlocks(accept, s, d);
    } else if s != [] {
      Pow2Gap(d, first);
      UnchangedStageIsMinimal(accept, s, first / 2, d);
    }
  }

  lemma UnchangedIsBlockMinimal(accept: Oracle, s: Input)
    requires DeleteStage(accept, s, StartBlock(s)) == s
    ensures BlockMinimal(accept, s)
  {
    forall d: nat | d > 0 && IsBlockLength(s, d)
      ensures RejectsBlocks(accept, s, d)
    {
      StartBlockIsLongest(s, d);
      UnchangedStageIsMinimal(accept, s, StartBlock(s), d);
    }
  }

  lemma {:induction false} PassesAreMinimal(accept: Oracle, s: Input, pass: nat)
    ensures BlockMinimal(accept, Passes(accept, s, pass))
    decreases Weight(s)
  {
    PassShrinks(accept, s);
    var deleted := DeleteStage(accept, s, StartBlock(s));
    if FullPass(accept, s) == s {
      assert |deleted| == |s|;
    }
    if deleted == s && (pass > 1 || FullPass(accept, s) == s) {
      UnchangedIsBlockMinimal(accept, s);
    } else {
      PassesAreMinimal(accept, FullPass(accept, s), pass + 1);
    }
  }

  /** Main result: whatever the target does, no block of the result can be deleted, of any
      of the lengths from one byte to about a sixteenth of it. */
  lemma MinimizedIsBlockMinimal(accept: Oracle, s: Input)
    ensures BlockMinimal(accept, Minimized(accept, s))
  {
    PassesAreMinimal(accept, NormalizeFrom(accept, s, 0, SetBlock(s)), 1);
  }

  /** In particular no single byte can. */
  lemma MinimizedIsOneMinimal(accept: Oracle, s: Input)
    ensures OneMinimal(accept, Minimized(accept, s))
  {
    var r, one := Minimized(accept, s), 1;
    MinimizedIsBlockMinimal(accept, s);
    assert RejectsBlocks(accept, r, one);
    forall k | 0 <= k < |r|
      ensures !accept(Without(r, k, one))
    {
      assert k % one == 0;
    }
  }

  // ------------------------------------------------------------------ termination

  ghost predicate Blanked(s: Input, t: Input) {
    |t| == |s| && forall k | 0 <= k < |s| :: t[k] == s[k] || t[k] == ZERO
  }

  lemma {:induction false} BlankedWeighsLess(s: Input, t: Input)
    requires Blanked(s, t)
    ensures NonZero(t) <= NonZero(s)
    ensures t != s ==> NonZero(t) < NonZero(s)
  {
    if s != [] {
      var n := |s| - 1;
      BlankedWeighsLess(s[..n], t[..n]);
      assert s == s[..n] + [s[n]] && t == t[..n] + [t[n]];
    }
  }

  lemma {:induction false} NormalizeBlanks(accept: Oracle, s: Input, pos: nat, block: nat)
    requires block > 0
    ensures Blanked(s, NormalizeFrom(accept, s, pos, block))
    ensures accept(s) ==> accept(NormalizeFrom(accept, s, pos, block))
    decreases |s| - pos
  {
    if pos < |s| {
      NormalizeBlanks(accept, NormalizeStep(accept, s, pos, block), pos + block, block);
    }
  }

  lemma {:induction false} SymbolsBlank(accept: Oracle, s: Input, c: nat)
    ensures Blanked(s, SymbolsFrom(accept, s, c))
    ensures accept(s) ==> accept(SymbolsFrom(accept, s, c))
    decreases |s| + 256 - c
  {
    if c < 256 {
      var t := ZeroSymbol(s, c);
      SymbolsBlank(accept, if accept(t) then t else s, c + 1);
    }
  }

  lemma {:induction false} BytesBlank(accept: Oracle, s: Input, i: nat)
    ensures Blanked(s, BytesFrom(accept, s, i))
    ensures accept(s) ==> accept(BytesFrom(accept, s, i))
    decreases |s| - i
  {
    if i < |s| {
      var t := s[i := ZERO];
      BytesBlank(accept, if accept(t) then t else s, i + 1);
    }
  }

  lemma {:induction false} NonZeroConcat(a: Input, b: Input)
    ensures NonZero(a + b) == NonZero(a) + NonZero(b)
  {
    if b == [] {
      assert a + b == a;
    } else {
      NonZeroConcat(a, b[..|b| - 1]);
      assert (a + b)[..|a + b| - 1] == a + b[..|b| - 1];
    }
  }

  lemma {:induction false} WithoutWeighsLess(s: Input, p: nat, d: nat)
    requires p < |s| && d > 0
    ensures NonZero(Without(s, p, d)) <= NonZero(s)
  {
    var q := Min(p + d, |s|);
    WithoutSlices(s, p, d);
    assert s == s[..p] + s[p..q] + s[q..];
    NonZeroConcat(s[..p] + s[p..q], s[q..]);
    NonZeroConcat(s[..p], s[p..q]);
    NonZeroConcat(s[..p], s[q..]);
  }

  lemma {:induction false} DeletePassWeighsLess(accept: Oracle, s: Input, pos: nat, d: nat)
    requires d > 0
    ensures NonZero(DeletePass(accept, s, pos, d)) <= NonZero(s)
    decreases |s| - pos
  {
    if pos >= |s| {
    } else if accept(Without(s, pos, d)) {
      WithoutWeighsLess(s, pos, d);
      DeletePassWeighsLess(accept, Without(s, pos, d), pos, d);
    } else {
      DeletePassWeighsLess(accept, s, pos + d, d);
    }
  }

  lemma {:induction false} DeleteStageWeighsLess(accept: Oracle, s: Input, d: nat)
    requires d > 0
    ensures NonZero(DeleteStage(accept, s, d)) <= NonZero(s)
    decreases d
  {
    DeletePassWeighsLess(accept, s, 0, d);
    var s1 := DeletePass(accept, s, 0, d);
    if d > 1 && |s1| >= 1 {
      DeleteStageWeighsLess(accept, s1, d / 2);
    }
  }

  /** Every pass that changes anything lowers the weight, so the run ends. */
  lemma {:induction false} PassShrinks(accept: Oracle, s: Input)
    ensures Weight(FullPass(accept, s)) <= Weight(s)
    ensures FullPass(accept, s) != s ==> Weight(FullPass(accept, s)) < Weight(s)
    ensures FullPass(accept, s) == s ==> DeleteStage(accept, s, StartBlock(s)) == s
  {
    DeleteStageWeighsLess(accept, s, StartBlock(s));
    var s1 := DeleteStage(accept, s, StartBlock(s));
    SymbolsBlank(accept, s1, 0);
    var s2 := SymbolsFrom(accept, s1, 0);
    BlankedWeighsLess(s1, s2);
    BytesBlank(accept, s2, 0);
    BlankedWeighsLess(s2, BytesFrom(accept, s2, 0));
  }

  // ------------------------------------------------------ what blanking leaves over

  ghost predicate Between(s: Input, u: Input, r: Input) {
    Blanked(s, u) && Blanked(u, r)
  }

  /** Stage 0 works on blocks of the least power of two that is 4 or more and reaches a
      128th of the input. */
  lemma SetBlockIsLeast(s: Input)
    ensures IsPow2(SetBlock(s)) && 4 <= SetBlock(s) && |s| / 128 <= SetBlock(s)
    ensures forall d: nat | IsPow2(d) && 4 <= d && |s| / 128 <= d :: SetBlock(s) <= d
  {
    NextP2Spec(|s| / TMIN_SET_STEPS);
    assert IsPow2(2 * 2);
  }

  /** Blanking n bytes at `at` was rejected on some input on the way from s to r. */
  ghost predicate BlockWasRejected(accept: Oracle, s: Input, r: Input, at: nat, n: nat) {
    exists u :: Between(s, u, r) && at + n <= |u| && !accept(ZeroRange(u, at, n))
  }

  lemma BlockTried(accept: Oracle, s: Input, block: nat, at: nat, k: nat, r: Input)
    requires block > 0 && at <= k < at + block && k < |s|
    requires Blanked(NormalizeStep(accept, s, at, block), r) && Blanked(s, r) && r[k] != ZERO
    ensures BlockWasRejected(accept, s, r, at, Min(block, |s| - at))
  {
    var t := ZeroRange(s, at, Min(block, |s| - at));
    assert t[k] == ZERO;
    assert Between(s, s, r);
  }

  /** A byte that survives stage 0 lies in a block that was rejected on some input on the
      way; the blocks are the multiples of the block length. */
  lemma {:induction false} SurvivingBlockWasRejected(accept: Oracle, s: Input, pos: nat, block: nat, m: nat, at: nat,
                                                     k: nat)
    requires block > 0 && at == pos + m * block && at <= k < at + block && k < |s|
    requires NormalizeFrom(accept, s, pos, block)[k] != ZERO
    ensures BlockWasRejected(accept, s, NormalizeFrom(accept, s, pos, block), at, Min(block, |s| - at))
    decreases m, 0
  {
    var r := NormalizeFrom(accept, s, pos, block);
    NormalizeBlanks(accept, s, pos, block);
    if m == 0 {
      NextMultiple(0, block);
      NormalizeBlanks(accept, NormalizeStep(accept, s, pos, block), pos + block, block);
      BlockTried(accept, s, block, at, k, r);
    } else {
      NextMultiple(m - 1, block);
      SurvivesOneStep(accept, s, pos, block, m - 1, at, k, r);
    }
  }

  lemma {:induction false} SurvivesOneStep(accept: Oracle, s: Input, pos: nat, block: nat, m: nat, at: nat, k: nat,
                                           r: Input)
    requires block > 0 && at == pos + block + m * block && at <= k < at + block && k < |s|
    requires r == NormalizeFrom(accept, s, pos, block) && r[k] != ZERO
    ensures BlockWasRejected(accept, s, r, at, Min(block, |s| - at))
    decreases m, 1
  {
    NotBefore(pos + block, m, block);
    var next := NormalizeStep(accept, s, pos, block);
    SurvivingBlockWasRejected(accept, next, pos + block, block, m, at, k);
    StepBlanks(accept, s, pos, block);
    RejectedOnTheWay(accept, s, next, r, at, Min(block, |s| - at));
  }

  lemma NotBefore(from: nat, m: nat, d: nat)
    ensures from <= from + m * d
  {
  }

  lemma StepBlanks(accept: Oracle, s: Input, pos: nat, block: nat)
    requires pos < |s|
    ensures Blanked(s, NormalizeStep(accept, s, pos, block))
  {
  }

  lemma RejectedOnTheWay(accept: Oracle, s: Input, next: Input, r: Input, at: nat, n: nat)
    requires Blanked(s, next) && BlockWasRejected(accept, next, r, at, n)
    ensures BlockWasRejected(accept, s, r, at, n)
  {
    var u :| Between(next, u, r) && at + n <= |u| && !accept(ZeroRange(u, at, n));
    assert Between(s, u, r);
  }

  /** A symbol that survives stage 2 was tried, on some input on the way, and rejected. */
  lemma {:induction false} SurvivingSymbolWasRejected(accept: Oracle, s: Input, c: nat, k: nat)
    requires k < |s|
    requires var r := SymbolsFrom(accept, s, c); r[k] != ZERO && c <= r[k] as int
    ensures var r := SymbolsFrom(accept, s, c);
            exists u :: Between(s, u, r) && !accept(ZeroSymbol(u, r[k] as int))
    decreases |s| + 256 - c
  {
    var r := SymbolsFrom(accept, s, c);
    SymbolsBlank(accept, s, c);
    var t := ZeroSymbol(s, c);
    if r[k] as int == c && !accept(t) {
      assert Between(s, s, r);
    } else {
      var next := if accept(t) then t else s;
      SymbolsBlank(accept, next, c + 1);
      assert r[k] as int != c;
      SurvivingSymbolWasRejected(accept, next, c + 1, k);
      var u :| Between(next, u, r) && !accept(ZeroSymbol(u, r[k] as int));
      assert Between(s, u, r);
    }
  }

  /** Likewise for a byte that survives stage 3. */
  lemma {:induction false} SurvivingByteWasRejected(accept: Oracle, s: Input, i: nat, k: nat)
    requires i <= k < |s| && BytesFrom(accept, s, i)[k] != ZERO
    ensures exists u :: Between(s, u, BytesFrom(accept, s, i)) && !accept(u[k := ZERO])
    decreases |s| - i
  {
    var r := BytesFrom(accept, s, i);
    BytesBlank(accept, s, i);
    var t := s[i := ZERO];
    var next := if accept(t) then t else s;
    BytesBlank(accept, next, i + 1);
    if i == k {
      assert next == s && Between(s, s, r);
    } else {
      SurvivingByteWasRejected(accept, next, i + 1, k);
      var u :| Between(next, u, r) && !accept(u[k := ZERO]);
      assert Between(s, u, r);
    }
  }

  // --------------------------------------------------- what the result is made of

  /** `cur` is `orig` with bytes deleted or replaced by '0'; kept[k] says where the
      byte now at k came from. */
  ghost predicate DerivedBy(orig: Input, cur: Input, kept: seq<nat>) {
    && |kept| == |cur|
    && (forall i, j | 0 <= i < j < |kept| :: kept[i] < kept[j])
    && forall k | 0 <= k < |cur| :: kept[k] < |orig| && (cur[k] == orig[kept[k]] || cur[k] == ZERO)
  }

  ghost predicate Derived(orig: Input, cur: Input) {
    exists kept: seq<nat> :: DerivedBy(orig, cur, kept)
  }

  lemma BlankedIsDerived(orig: Input, s: Input, t: Input)
    requires Derived(orig, s) && Blanked(s, t)
    ensures Derived(orig, t)
  {
    var kept: seq<nat> :| DerivedBy(orig, s, kept);
    assert DerivedBy(orig, t, kept);
  }

  lemma SubsequenceIsDerived(orig: Input, s: Input, t: Input)
    requires Derived(orig, s) && Subsequence(s, t)
    ensures Derived(orig, t)
  {
    var kept: seq<nat> :| DerivedBy(orig, s, kept);
    var more: seq<nat> :| TakenFrom(s, t, more);
    assert DerivedBy(orig, t, seq(|t|, k requires 0 <= k < |t| => kept[more[k]]));
  }

  lemma {:induction false} DeleteStageKeeps(accept: Oracle, orig: Input, s: Input, d: nat)
    requires d > 0 && Derived(orig, s)
    ensures Derived(orig, DeleteStage(accept, s, d))
    ensures accept(s) ==> accept(DeleteStage(accept, s, d))
    decreases d
  {
    DeletePassKeeps(accept, s, 0, d);
    var s1 := DeletePass(accept, s, 0, d);
    SubsequenceIsDerived(orig, s, s1);
    if d > 1 && |s1| >= 1 {
      DeleteStageKeeps(accept, orig, s1, d / 2);
    }
  }

  lemma {:induction false} PassesKeep(accept: Oracle, orig: Input, s: Input, pass: nat)
    requires Derived(orig, s)
    ensures Derived(orig, Passes(accept, s, pass))
    ensures accept(s) ==> accept(Passes(accept, s, pass))
    decreases Weight(s)
  {
    PassShrinks(accept, s);
    DeleteStageKeeps(accept, orig, s, StartBlock(s));
    var s1 := DeleteStage(accept, s, StartBlock(s));
    SymbolsBlank(accept, s1, 0);
    var s2 := SymbolsFrom(accept, s1, 0);
    BlankedIsDerived(orig, s1, s2);
    BytesBlank(accept, s2, 0);
    BlankedIsDerived(orig, s2, BytesFrom(accept, s2, 0));
    if FullPass(accept, s) != s && !(pass > 1 && s1 == s) {
      PassesKeep(accept, orig, FullPass(accept, s), pass + 1);
    }
  }

  /** Main result: the target still accepts the result, and the result is the input with
      bytes deleted or replaced by '0'. */
  lemma {:induction false} MinimizedIsAcceptedAndDerived(accept: Oracle, s: Input)
    ensures Derived(s, Minimized(accept, s))
    ensures accept(s) ==> accept(Minimized(accept, s))
  {
    assert DerivedBy(s, s, seq(|s|, i => i));
    NormalizeBlanks(accept, s, 0, SetBlock(s));
    var t := NormalizeFrom(accept, s, 0, SetBlock(s));
    BlankedIsDerived(s, s, t);
    PassesKeep(accept, s, t, 1);
  }

  // ------------------------------------------------------- the in-place algorithm

  /** The dry run fixes what every later run is compared with; unless it times out, the
      input it was made on is one that later runs accept. */
  method DryRun(target: Input -> Run, input: Input, exact: bool, exitCrash: bool)
    returns (run: Run, mode: Mode)
    ensures run == target(input)
    ensures mode.exact == exact && mode.exitCrash == exitCrash
    ensures mode.crash <==> !run.timedOut && Crashed(run, mode)
    ensures !run.timedOut ==> Accepts(target, mode)(input)
  {
    run := target(input);
    mode := Mode(exact, exitCrash, false, 0);
    if run.timedOut {
      return;
    }
    if Crashed(run, mode) {
      mode := mode.(crash := true);
      if !exact {
        return;
      }
    }
    mode := mode.(origCksum := run.cksum);
  }

  /** The target's verdicts, as the one function the algorithm depends on. */
  function Accepts(target: Input -> Run, mode: Mode): Oracle {
    s => Keep(target(s), mode)
  }

  method ReplaceSymbol(buf: array<u8>, len: nat, c: nat)
    requires len <= buf.Length
    modifies buf
    ensures buf[..len] == ZeroSymbol(old(buf[..len]), c)
  {
    var r := 0;
    while r < len
      invariant r <= len
      invariant forall k | 0 <= k < r :: buf[k] == ZeroSymbol(old(buf[..len]), c)[k]
      invariant forall k | r <= k < len :: buf[k] == old(buf[k])
    {
      if buf[r] as int == c {
        buf[r] := ZERO;
      }
      r := r + 1;
    }
  }

  class Minimizer {
    const target: Input -> Run
    const mode: Mode
    ghost const accept: Oracle
    var inData: array<u8>
    var inLen: nat

    ghost predicate Valid()
      reads this
    {
      inLen <= inData.Length && accept == Accepts(target, mode)
    }

    ghost function Current(): Input
      requires Valid()
      reads this, inData
    {
      inData[..inLen]
    }

    constructor (target: Input -> Run, mode: Mode, input: Input)
      ensures Valid() && fresh(inData)
      ensures this.target == target && this.mode == mode && Current() == input
    {
      this.target := target;
      this.mode := mode;
      accept := Accepts(target, mode);
      inData := new u8[|input|](i requires 0 <= i < |input| => input[i]);
      inLen := |input|;
    }

    /** memcpy of the whole current input into the scratch buffer. */
    method CopyOut(tmp: array<u8>)
      requires Valid() && tmp != inData && inLen <= tmp.Length
      modifies tmp
      ensures tmp[..inLen] == old(Current()) == Current()
    {
      MemCpy(tmp, 0, inData, 0, inLen);
    }

    /** memcpy of an accepted candidate back into the input buffer. */
    method CopyBack(tmp: array<u8>, len: nat)
      requires Valid() && tmp != inData && len <= inLen <= tmp.Length
      modifies this`inLen, inData
      ensures Valid() && inLen == len && Current() == old(tmp[..len])
      ensures tmp[..] == old(tmp[..])
    {
      MemCpy(inData, 0, tmp, 0, len);
      inLen := len;
    }

    method RunTarget(mem: array<u8>, len: nat) returns (res: bool)
      requires Valid() && len <= mem.Length
      ensures res == accept(mem[..len])
    {
      res := Keep(target(mem[..len]), mode);
    }

    /** Would blanking these bytes change nothing? */
    method AlreadyZero(at: nat, n: nat) returns (same: bool)
      requires Valid() && at + n <= inLen
      ensures same <==> ZeroRange(Current(), at, n) == Current()
    {
      var i := at;
      while i < at + n && inData[i] == ZERO
        invariant at <= i <= at + n
        invariant forall k | at <= k < i :: inData[k] == ZERO
      {
        i := i + 1;
      }
      same := i == at + n;
      if !same {
        assert ZeroRange(Current(), at, n)[i] != Current()[i];
      }
    }

    /** One step of stage 0; a block that is blank already needs no run. */
    method NormalizeBlock(tmp: array<u8>, at: nat, setLen: nat)
      requires Valid() && tmp != inData && inLen <= tmp.Length && at < inLen
      modifies inData, tmp
      ensures Current() == NormalizeStep(accept, old(Current()), at, setLen)
    {
      var useLen := Min(setLen, inLen - at);
      var same := AlreadyZero(at, useLen);
      if same {
        return;
      }
      ghost var s := Current();
      CopyOut(tmp);
      MemSet(tmp, at, ZERO, useLen);
      assert tmp[..inLen] == ZeroRange(s, at, useLen);
      var res := RunTarget(tmp, inLen);
      if res {
        MemSet(inData, at, ZERO, useLen);
        assert Current() == ZeroRange(s, at, useLen);
      }
    }

    method ChooseSetLen() returns (setLen: nat)
      requires Valid()
      ensures setLen == SetBlock(Current())
    {
      setLen := NextP2Loop(inLen / TMIN_SET_STEPS);
      if setLen < TMIN_SET_MIN_SIZE {
        setLen := TMIN_SET_MIN_SIZE;
      }
    }

    /** Stage 0. */
    method NormalizeBlocks(tmp: array<u8>)
      requires Valid() && tmp != inData && inLen <= tmp.Length
      modifies inData, tmp
      ensures Current() == NormalizeFrom(accept, old(Current()), 0, SetBlock(old(Current())))
    {
      var setLen := ChooseSetLen();
      var setPos := 0;
      ghost var s := Current();
      ghost var goal := NormalizeFrom(accept, s, 0, setLen);
      while setPos < inLen
        invariant Current() == s
        invariant NormalizeFrom(accept, s, setPos, setLen) == goal
      {
        NormalizeBlock(tmp, setPos, setLen);
        s := NormalizeStep(accept, s, setPos, setLen);
        setPos := setPos + setLen;
      }
    }

    /** The candidate: the head and the tail around the block at delPos. */
    method CopyAround(tmp: array<u8>, delPos: nat, delLen: nat) returns (len: nat)
      requires Valid() && tmp != inData && inLen <= tmp.Length && delPos < inLen && delLen > 0
      modifies tmp
      ensures Current() == old(Current())
      ensures delPos <= len < inLen && tmp[..len] == Without(Current(), delPos, delLen)
    {
      var tailLen := if delPos + delLen < inLen then inLen - delPos - delLen else 0;
      MemCpy(tmp, 0, inData, 0, delPos);
      if tailLen > 0 {
        MemCpy(tmp, delPos, inData, delPos + delLen, tailLen);
      }
      len := delPos + tailLen;
      assert tmp[..delPos] == inData[..delPos] == Current()[..delPos];
      assert tmp[delPos..len] == Current()[Min(delPos + delLen, inLen)..];
      assert tmp[..len] == tmp[..delPos] + tmp[delPos..len];
    }

    method TryDelete(tmp: array<u8>, delPos: nat, delLen: nat) returns (res: bool)
      requires Valid() && tmp != inData && inLen <= tmp.Length && delPos < inLen && delLen > 0
      modifies this`inLen, inData, tmp
      ensures Valid()
      ensures var t := Without(old(Current()), delPos, delLen);
              res == accept(t) && Current() == if res then t else old(Current())
    {
      var len := CopyAround(tmp, delPos, delLen);
      res := RunTarget(tmp, len);
      if res {
        CopyBack(tmp, len);
      }
    }

    /** memcmp of the block at delPos with the one before it. */
    method RepeatsPrevious(delPos: nat, delLen: nat) returns (same: bool)
      requires Valid() && 0 < delLen <= delPos && delPos + delLen <= inLen
      ensures same ==> Without(Current(), delPos, delLen) == Without(Current(), delPos - delLen, delLen)
    {
      same := inData[delPos - delLen..delPos] == inData[delPos..delPos + delLen];
      if same {
        assert Current()[delPos - delLen..delPos] == inData[delPos - delLen..delPos];
        assert Current()[delPos..delPos + delLen] == inData[delPos..delPos + delLen];
        SkipSound(Current(), delPos, delLen);
      }
    }

    /** One sweep of stage 1, with the identical-block shortcut. */
    method DeleteSweep(tmp: array<u8>, delLen: nat) returns (changed: bool)
      requires Valid() && tmp != inData && inLen <= tmp.Length && delLen > 0
      modifies this`inLen, inData, tmp
      ensures Valid() && inLen <= old(inLen)
      ensures Current() == DeletePass(accept, old(Current()), 0, delLen)
      ensures changed <==> Current() != old(Current())
    {
      var delPos := 0;
      var prevDel := true;
      changed := false;
      ghost var s0 := Current();
      ghost var s := s0;
      ghost var goal := DeletePass(accept, s0, 0, delLen);
      while delPos < inLen
        invariant Valid() && Current() == s
        invariant |s| <= |s0| && (changed <==> |s| < |s0|) && (!changed ==> s == s0)
        invariant DeletePass(accept, s, delPos, delLen) == goal
        invariant !prevDel ==> delLen <= delPos < |s| + delLen
        invariant !prevDel ==> !accept(Without(s, delPos - delLen, delLen))
        decreases inLen, inLen - delPos
      {
        var same := false;
        if !prevDel && delPos + delLen < inLen {
          same := RepeatsPrevious(delPos, delLen);
        }
        if same {
          delPos := delPos + delLen;
        } else {
          prevDel := TryDelete(tmp, delPos, delLen);
          if prevDel {
            s := Without(s, delPos, delLen);
            changed := true;
          } else {
            delPos := delPos + delLen;
          }
        }
      }
    }

    /** Stage 1. */
    method DeleteBlocks(tmp: array<u8>) returns (changed: bool)
      requires Valid() && tmp != inData && inLen <= tmp.Length
      modifies this`inLen, inData, tmp
      ensures Valid() && inLen <= old(inLen)
      ensures Current() == DeleteStage(accept, old(Current()), StartBlock(old(Current())))
      ensures changed <==> Current() != old(Current())
    {
      var delLen := NextP2Loop(inLen / TRIM_START_STEPS);
      ghost var goal := DeleteStage(accept, Current(), delLen);
      changed := DeleteSweep(tmp, delLen);
      while delLen > 1 && inLen >= 1
        invariant Valid() && inLen <= old(inLen) && delLen > 0
        invariant changed <==> inLen < old(inLen)
        invariant !changed ==> Current() == old(Current())
        invariant goal == if delLen > 1 && inLen >= 1 then DeleteStage(accept, Current(), delLen / 2) else Current()
        decreases delLen
      {
        delLen := delLen / 2;
        var more := DeleteSweep(tmp, delLen);
        changed := changed || more;
      }
    }

    method TrySymbol(tmp: array<u8>, c: nat) returns (res: bool)
      requires Valid() && tmp != inData && inLen <= tmp.Length
      modifies this`inLen, inData, tmp
      ensures Valid() && inLen == old(inLen)
      ensures var t := ZeroSymbol(old(Current()), c);
              res == accept(t) && Current() == if res then t else old(Current())
    {
      CopyOut(tmp);
      ReplaceSymbol(tmp, inLen, c);
      res := RunTarget(tmp, inLen);
      if res {
        CopyBack(tmp, inLen);
      }
    }

    /** The table of stage 2: which symbols are present, and how often. */
    method CountSymbols() returns (alphaMap: array<nat>)
      requires Valid()
      ensures fresh(alphaMap) && alphaMap.Length == 256
      ensures forall c | 0 <= c < 256 :: alphaMap[c] > 0 <==> HasSymbol(Current(), c)
    {
      alphaMap := new nat[256](_ => 0);
      var i := 0;
      while i < inLen
        invariant i <= inLen
        invariant forall c | 0 <= c < 256 :: alphaMap[c] > 0 <==> HasSymbol(Current()[..i], c)
      {
        var c := inData[i] as int;
        assert Current()[..i + 1] == Current()[..i] + [inData[i]];
        HasSymbolSnoc(Current()[..i], inData[i]);
        alphaMap[c] := alphaMap[c] + 1;
        i := i + 1;
      }
      assert Current()[..inLen] == Current();
    }

    /** Stage 2, driven by the symbols present when the stage starts. */
    method MinimizeAlphabet(tmp: array<u8>) returns (changed: bool)
      requires Valid() && tmp != inData && inLen <= tmp.Length
      modifies this`inLen, inData, tmp
      ensures Valid() && inLen == old(inLen)
      ensures Current() == SymbolsFrom(accept, old(Current()), 0)
      ensures changed <==> Current() != old(Current())
    {
      var alphaMap := CountSymbols();
      changed := false;
      ghost var s0 := Current();
      ghost var s := s0;
      ghost var goal := SymbolsFrom(accept, s0, 0);
      var i := 0;
      while i < 256
        invariant i <= 256 && Valid() && inLen == old(inLen) && Current() == s
        invariant SymbolsFrom(accept, s, i) == goal
        invariant forall c | i <= c < 256 && c != ZERO as int :: alphaMap[c] > 0 <==> HasSymbol(s, c)
        invariant Blanked(s0, s) && (changed <==> s != s0)
      {
        if i != ZERO as int && alphaMap[i] > 0 {
          var res := TrySymbol(tmp, i);
          if res {
            changed := true;
            ZeroSymbolEffect(s0, s, i);
            s := ZeroSymbol(s, i);
          }
        } else {
          assert ZeroSymbol(s, i) == s;
        }
        i := i + 1;
      }
    }

    method TryByte(tmp: array<u8>, i: nat) returns (res: bool)
      requires Valid() && tmp != inData && inLen <= tmp.Length && i < inLen
      requires tmp[..inLen] == Current()
      modifies inData, tmp
      ensures var t := old(Current())[i := ZERO];
              res == accept(t) && Current() == if res then t else old(Current())
      ensures tmp[..inLen] == Current()
    {
      ghost var s := Current();
      var orig := tmp[i];
      tmp[i] := ZERO;
      assert tmp[..inLen] == s[i := ZERO];
      res := RunTarget(tmp, inLen);
      if res {
        inData[i] := ZERO;
        assert Current() == s[i := ZERO];
      } else {
        tmp[i] := orig;
        assert tmp[..inLen] == s;
      }
    }

    /** Stage 3. */
    method MinimizeBytes(tmp: array<u8>) returns (changed: bool)
      requires Valid() && tmp != inData && inLen <= tmp.Length
      modifies inData, tmp
      ensures Current() == BytesFrom(accept, old(Current()), 0)
      ensures changed <==> Current() != old(Current())
    {
      changed := false;
      ghost var s0 := Current();
      ghost var s := s0;
      ghost var goal := BytesFrom(accept, s0, 0);
      CopyOut(tmp);
      var i := 0;
      while i < inLen
        invariant i <= inLen && Current() == s && tmp[..inLen] == s
        invariant BytesFrom(accept, s, i) == goal
        invariant changed ==> NonZero(s) < NonZero(s0)
        invariant !changed ==> s == s0
      {
        assert tmp[i] == s[i];
        if tmp[i] != ZERO {
          var res := TryByte(tmp, i);
          if res {
            changed := true;
            BlankedWeighsLess(s, s[i := ZERO]);
            assert s[i := ZERO][i] != s[i];
            s := s[i := ZERO];
          }
        } else {
          assert s[i := ZERO] == s;
        }
        i := i + 1;
      }
    }

    /** The whole run; the loop stands for the jumps back to next_pass. */
    method Minimize()
      requires Valid()
      modifies this`inLen, inData
      ensures Valid() && inLen <= old(inLen)
      ensures Current() == Minimized(accept, old(Current()))
      ensures BlockMinimal(accept, Current())
    {
      MinimizedIsBlockMinimal(accept, Current());
      var tmp := new u8[inLen];
      NormalizeBlocks(tmp);
      ghost var goal := Passes(accept, Current(), 1);
      var curPass := 0;
      var again := true;
      while again
        invariant Valid() && inLen <= old(inLen) && inLen <= tmp.Length && tmp != inData && fresh(tmp)
        invariant inData == old(inData)
        invariant goal == if again then Passes(accept, Current(), curPass + 1) else Current()
        decreases again, Weight(Current())
      {
        ghost var s := Current();
        PassShrinks(accept, s);
        curPass := curPass + 1;
        var changed := DeleteBlocks(tmp);
        if curPass > 1 && !changed {
          break;
        }
        ghost var s1 := Current();
        var symbols := MinimizeAlphabet(tmp);
        ghost var s2 := Current();
        var bytes := MinimizeBytes(tmp);
        StagesTrackChange(accept, s, s1, s2);
        again := changed || symbols || bytes;
      }
    }
  }

  ghost predicate HasSymbol(s: Input, c: int) {
    exists k | 0 <= k < |s| :: s[k] as int == c
  }

  lemma HasSymbolSnoc(s: Input, b: u8)
    ensures forall c :: HasSymbol(s + [b], c) <==> HasSymbol(s, c) || c == b as int
  {
    forall c
      ensures HasSymbol(s + [b], c) <==> HasSymbol(s, c) || c == b as int
    {
      if HasSymbol(s, c) {
        var k :| 0 <= k < |s| && s[k] as int == c;
        assert (s + [b])[k] as int == c;
      }
      assert (s + [b])[|s|] == b;
    }
  }

  /** Blanking a present symbol is a change, and leaves every other symbol present. */
  lemma ZeroSymbolEffect(s0: Input, s: Input, c: int)
    requires Blanked(s0, s) && c != ZERO as int && HasSymbol(s, c)
    ensures Blanked(s0, ZeroSymbol(s, c)) && ZeroSymbol(s, c) != s0
    ensures forall d | d != c && d != ZERO as int :: HasSymbol(ZeroSymbol(s, c), d) <==> HasSymbol(s, d)
  {
    var k :| 0 <= k < |s| && s[k] as int == c;
    assert ZeroSymbol(s, c)[k] == ZERO;
    forall d | d != c && d != ZERO as int
      ensures HasSymbol(ZeroSymbol(s, c), d) <==> HasSymbol(s, d)
    {
      if HasSymbol(s, d) {
        var j :| 0 <= j < |s| && s[j] as int == d;
        assert ZeroSymbol(s, c)[j] as int == d;
      }
    }
  }

  /** A pass whose three stages report no change is one that changed nothing, and
      conversely: no later stage can undo an earlier change. */
  lemma StagesTrackChange(accept: Oracle, s: Input, s1: Input, s2: Input)
    requires s1 == DeleteStage(accept, s, StartBlock(s)) && s2 == SymbolsFrom(accept, s1, 0)
    ensures FullPass(accept, s) != s <==> s1 != s || s2 != s1 || FullPass(accept, s) != s2
  {
    SymbolsBlank(accept, s1, 0);
    BlankedWeighsLess(s1, s2);
    BytesBlank(accept, s2, 0);
    BlankedWeighsLess(s2, BytesFrom(accept, s2, 0));
  }
}
