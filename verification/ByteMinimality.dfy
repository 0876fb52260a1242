/** How far afl-tmin's result is minimal under replacing single bytes by '0': the last pass
    of minimize in AFL/afl-tmin.c ends before its byte stage. */
module ByteMinimality {
  import opened Deletion
  import opened Machine
  import opened Minimizer

  /** No single byte can be replaced by '0' any more. */
  ghost predicate ByteMinimal(accept: Oracle, r: Input) {
    forall k | 0 <= k < |r| && r[k] != ZERO :: !accept(r[k := ZERO])
  }

  // ------------------------------------------------------- what one byte stage shows

  /** The input at the moment the stage that turns t into r comes to byte k. */
  function Midway(t: Input, r: Input, k: nat): (u: Input)
    requires |t| == |r| && k <= |r|
    ensures |u| == |r|
  {
    r[..k] + t[k..]
  }

  lemma {:induction false} PrefixStays(accept: Oracle, s: Input, i: nat)
    requires i <= |s|
    ensures BytesFrom(accept, s, i)[..i] == s[..i]
    decreases |s| - i
  {
    if i < |s| {
      var next := if accept(s[i := ZERO]) then s[i := ZERO] else s;
      PrefixStays(accept, next, i + 1);
      assert BytesFrom(accept, s, i)[..i] == BytesFrom(accept, next, i + 1)[..i + 1][..i];
    }
  }

  /** A byte that survives was rejected on the input the stage had then. */
  lemma {:induction false} SurvivorWasTried(accept: Oracle, s: Input, i: nat, k: nat)
    requires i <= k < |s| && BytesFrom(accept, s, i)[k] != ZERO
    ensures var r := BytesFrom(accept, s, i); r[k] == s[k] && !accept(Midway(s, r, k)[k := ZERO])
    decreases |s| - i
  {
    var r := BytesFrom(accept, s, i);
    var next := if accept(s[i := ZERO]) then s[i := ZERO] else s;
    if i == k {
      PrefixStays(accept, next, i + 1);
      assert r[k] == r[..k + 1][k] == next[..k + 1][k];
      assert r[..k] == r[..k + 1][..k] == next[..k];
      assert Midway(s, r, k) == s;
    } else {
      SurvivorWasTried(accept, next, i + 1, k);
      assert Midway(s, r, k) == Midway(next, r, k);
    }
  }

  /** A rejection made on the way does not hold for the result: after the stage had
      rejected '0' at k it replaced a later byte, and now '0' at k is accepted. */
  ghost predicate OverturnedAt(accept: Oracle, t: Input, k: nat)
    requires k < |t|
  {
    var r := BytesFrom(accept, t, 0);
    && r[k] != ZERO && (exists j | k < j < |r| :: r[j] != t[j])
    && !accept(Midway(t, r, k)[k := ZERO]) && accept(r[k := ZERO])
  }

  ghost predicate Overturned(accept: Oracle, t: Input) {
    exists k: nat :: k < |t| && OverturnedAt(accept, t, k)
  }

  /** A byte stage leaves a byte-minimal input exactly if it overturns none of its own
      rejections.  That an overturned byte can be replaced is part of what the word means;
      what has to be shown is the other half: a byte that can still be replaced was tried
      and rejected midway, and a later byte was replaced after that.  So every byte behind
      the last one the stage replaced is minimal. */
  lemma StageExactly(accept: Oracle, t: Input)
    ensures ByteMinimal(accept, BytesFrom(accept, t, 0)) <==> !Overturned(accept, t)
  {
    var r := BytesFrom(accept, t, 0);
    forall k: nat | k < |r| && r[k] != ZERO && accept(r[k := ZERO])
      ensures OverturnedAt(accept, t, k)
    {
      SurvivorWasTried(accept, t, 0, k);
      assert Midway(t, r, k) != r;
      MidwayDiffers(t, r, k);
    }
  }

  lemma MidwayDiffers(t: Input, r: Input, k: nat)
    requires |t| == |r| && k < |r| && r[k] == t[k] && Midway(t, r, k) != r
    ensures exists j | k < j < |r| :: r[j] != t[j]
  {
    var j :| 0 <= j < |r| && Midway(t, r, k)[j] != r[j];
  }

  /** Running the stage on r changes nothing exactly if r is byte-minimal. */
  lemma {:induction false} IdleExactly(accept: Oracle, r: Input, i: nat)
    requires i <= |r|
    ensures BytesFrom(accept, r, i) == r <==> forall k | i <= k < |r| && r[k] != ZERO :: !accept(r[k := ZERO])
    decreases |r| - i
  {
    if i < |r| {
      var t := r[i := ZERO];
      if accept(t) && r[i] != ZERO {
        PrefixStays(accept, t, i + 1);
        assert BytesFrom(accept, r, i)[..i + 1][i] == ZERO;
      } else {
        assert r[i] == ZERO ==> t == r;
        IdleExactly(accept, r, i + 1);
      }
    }
  }

  // --------------------------------------------------------------- the whole run

  /** The input of the last byte stage that is run; prev is that of the pass before. */
  function LastInput(accept: Oracle, s: Input, pass: nat, prev: Input): Input
    decreases Weight(s)
  {
    var deleted := DeleteStage(accept, s, StartBlock(s));
    if pass > 1 && deleted == s then prev
    else
      var t := SymbolsFrom(accept, deleted, 0);
      var next := BytesFrom(accept, t, 0);
      PassShrinks(accept, s);
      if next != s then LastInput(accept, next, pass + 1, t) else t
  }

  lemma {:induction false} PassesEndWithBytes(accept: Oracle, s: Input, pass: nat, prev: Input)
    requires pass > 1 ==> s == BytesFrom(accept, prev, 0)
    ensures Passes(accept, s, pass) == BytesFrom(accept, LastInput(accept, s, pass, prev), 0)
    decreases Weight(s)
  {
    PassShrinks(accept, s);
    var deleted := DeleteStage(accept, s, StartBlock(s));
    if !(pass > 1 && deleted == s) {
      var t := SymbolsFrom(accept, deleted, 0);
      if FullPass(accept, s) != s {
        PassesEndWithBytes(accept, FullPass(accept, s), pass + 1, t);
      }
    }
  }

  lemma {:induction false} LastInputIsTried(accept: Oracle, s: Input, pass: nat, prev: Input) returns (x: Input)
    requires pass > 1 ==> exists y :: prev == SymbolsFrom(accept, y, 0)
    ensures LastInput(accept, s, pass, prev) == SymbolsFrom(accept, x, 0)
    decreases Weight(s)
  {
    PassShrinks(accept, s);
    var deleted := DeleteStage(accept, s, StartBlock(s));
    if pass > 1 && deleted == s {
      x :| prev == SymbolsFrom(accept, x, 0);
    } else if FullPass(accept, s) != s {
      x := LastInputIsTried(accept, FullPass(accept, s), pass + 1, SymbolsFrom(accept, deleted, 0));
    } else {
      x := deleted;
    }
  }

  function LastBytesInput(accept: Oracle, s: Input): Input {
    LastInput(accept, NormalizeFrom(accept, s, 0, SetBlock(s)), 1, s)
  }

  /** Main result: the final input is byte-minimal exactly if the last byte stage that ran
      overturned none of its rejections.  The second line says the property once more, as
      the stage which the last pass leaves out having nothing to do.  What can be judged
      beforehand, from input or target, is in QuietFirstPass and
      SteadyTargetsAreByteMinimal. */
  lemma MinimizedBytesExactly(accept: Oracle, s: Input)
    ensures var r := Minimized(accept, s);
            && (ByteMinimal(accept, r) <==> !Overturned(accept, LastBytesInput(accept, s)))
            && (ByteMinimal(accept, r) <==> BytesFrom(accept, r, 0) == r)
  {
    PassesEndWithBytes(accept, NormalizeFrom(accept, s, 0, SetBlock(s)), 1, s);
    StageExactly(accept, LastBytesInput(accept, s));
    IdleExactly(accept, Minimized(accept, s), 0);
  }

  /** Main result: whatever is left other than '0' has been tried.  Blanking all bytes of its
      value was rejected on an input from which blanking alone leads to the result, and so
      was blanking it by itself. */
  lemma SurvivorsWereRejected(accept: Oracle, s: Input, k: nat)
    requires var r := Minimized(accept, s); k < |r| && r[k] != ZERO
    ensures var r := Minimized(accept, s);
            && (exists u :: Blanked(u, r) && !accept(ZeroSymbol(u, r[k] as int)))
            && (exists u :: Blanked(u, r) && !accept(u[k := ZERO]))
  {
    var r, n, t := Minimized(accept, s), NormalizeFrom(accept, s, 0, SetBlock(s)), LastBytesInput(accept, s);
    PassesEndWithBytes(accept, n, 1, s);
    var x := LastInputIsTried(accept, n, 1, s);
    BytesBlank(accept, t, 0);
    assert r[k] == t[k];
    SurvivingByteWasRejected(accept, t, 0, k);
    SurvivingSymbolWasRejected(accept, x, 0, k);
    var u :| Between(x, u, t) && !accept(ZeroSymbol(u, t[k] as int));
    assert Blanked(u, r);
  }

  /** Main result: when the first pass changes nothing, no byte can be replaced. */
  lemma QuietFirstPass(accept: Oracle, s: Input)
    requires var n := NormalizeFrom(accept, s, 0, SetBlock(s)); FullPass(accept, n) == n
    ensures ByteMinimal(accept, Minimized(accept, s))
  {
    var n := NormalizeFrom(accept, s, 0, SetBlock(s));
    var deleted := DeleteStage(accept, n, StartBlock(n));
    var t := SymbolsFrom(accept, deleted, 0);
    PassShrinks(accept, n);
    SymbolsBlank(accept, deleted, 0);
    BlankedWeighsLess(deleted, t);
    BytesBlank(accept, t, 0);
    BlankedWeighsLess(t, n);
    MinimizedBytesExactly(accept, s);
  }

  // ------------------------------------------------------------- steady targets

  /** Accepting '0' at j does not undo the rejection of '0' at an earlier k. */
  ghost predicate SteadyAt(accept: Oracle, u: Input, k: nat, j: nat) {
    k < j < |u| && u[k] != ZERO && u[j] != ZERO && !accept(u[k := ZERO]) && accept(u[j := ZERO]) ==>
    !accept(u[j := ZERO][k := ZERO])
  }

  /** A property of the target alone. */
  ghost predicate Steady(accept: Oracle) {
    forall u, k, j :: SteadyAt(accept, u, k, j)
  }

  lemma {:induction false} RejectionStays(accept: Oracle, u: Input, i: nat, k: nat)
    requires Steady(accept) && k < i <= |u| && u[k] != ZERO && !accept(u[k := ZERO])
    ensures var r := BytesFrom(accept, u, i); r[k] == u[k] && !accept(r[k := ZERO])
    decreases |u| - i
  {
    if i < |u| {
      var t := u[i := ZERO];
      assert u[i] == ZERO ==> t == u;
      assert SteadyAt(accept, u, k, i);
      RejectionStays(accept, if accept(t) then t else u, i + 1, k);
    }
  }

  lemma {:induction false} SteadyStage(accept: Oracle, t: Input, i: nat, k: nat)
    requires Steady(accept) && i <= k < |t|
    ensures var r := BytesFrom(accept, t, i); r[k] != ZERO ==> !accept(r[k := ZERO])
    decreases |t| - i
  {
    var next := if accept(t[i := ZERO]) then t[i := ZERO] else t;
    if i < k {
      SteadyStage(accept, next, i + 1, k);
    } else if next[k] != ZERO {
      RejectionStays(accept, next, i + 1, k);
    } else {
      PrefixStays(accept, next, i + 1);
      assert BytesFrom(accept, next, i + 1)[..k + 1][k] == ZERO;
    }
  }

  /** Main result: on a steady target every run ends byte-minimal. */
  lemma SteadyTargetsAreByteMinimal(accept: Oracle, s: Input)
    requires Steady(accept)
    ensures ByteMinimal(accept, Minimized(accept, s))
  {
    var n := NormalizeFrom(accept, s, 0, SetBlock(s));
    PassesEndWithBytes(accept, n, 1, s);
    var t := LastBytesInput(accept, s);
    forall k | 0 <= k < |t| && BytesFrom(accept, t, 0)[k] != ZERO
      ensures !accept(BytesFrom(accept, t, 0)[k := ZERO])
    {
      SteadyStage(accept, t, 0, k);
    }
  }

  // ------------------------------------------------------------ an unsteady target

  const AABBC: Input := [97, 97, 98, 98, 99]
  const AAB0C: Input := [97, 97, 98, 48, 99]
  const OAB0C: Input := [48, 97, 98, 48, 99]

  predicate Unsteady(s: Input) { s == AABBC || s == AAB0C || s == OAB0C }

  lemma {:induction false} NothingDeleted(s: Input, pos: nat)
    requires |s| == 5
    ensures DeletePass(Unsteady, s, pos, 1) == s
    decreases |s| - pos
  {
    if pos < |s| {
      NothingDeleted(s, pos + 1);
    }
  }

  lemma NextIsOne(n: nat)
    requires n <= 1
    ensures NextP2(n) == 1
  {
  }

  lemma SymbolRejected(s: Input, c: nat)
    requires s == AABBC
    ensures ZeroSymbol(s, c) == s || !Unsteady(ZeroSymbol(s, c))
  {
    var t := ZeroSymbol(s, c);
    if c == 97 {
      assert t[0] == t[1] == ZERO;
    } else if c == 98 {
      assert t[2] == ZERO;
    } else if c == 99 {
      assert t[4] == ZERO;
    } else {
      assert t == s;
    }
  }

  lemma {:induction false} NoSymbolGoes(s: Input, c: nat)
    requires s == AABBC
    ensures SymbolsFrom(Unsteady, s, c) == s
    decreases 256 - c
  {
    if c < 256 {
      SymbolRejected(s, c);
      NoSymbolGoes(s, c + 1);
    }
  }

  lemma Rejected(s: Input, i: nat)
    requires i < |s| && !Unsteady(s[i := ZERO])
    ensures BytesFrom(Unsteady, s, i) == BytesFrom(Unsteady, s, i + 1)
  {
  }

  lemma UnsteadyBytes(s: Input, r: Input)
    requires s == AABBC && r == AAB0C
    ensures BytesFrom(Unsteady, s, 0) == r
  {
    assert s[0 := ZERO][3] == s[3] && s[0 := ZERO][0] == ZERO && s[1 := ZERO][1] == ZERO && s[2 := ZERO][2] == ZERO &&
        r[4 := ZERO][4] == ZERO;
    assert s[3 := ZERO] == r;
    Rejected(s, 0);
    Rejected(s, 1);
    Rejected(s, 2);
    assert BytesFrom(Unsteady, s, 3) == BytesFrom(Unsteady, r, 4);
    Rejected(r, 4);
    assert BytesFrom(Unsteady, r, 5) == r;
  }

  lemma UnsteadyNormalized(s: Input)
    requires s == AABBC
    ensures NormalizeFrom(Unsteady, s, 0, SetBlock(s)) == s
  {
    NextIsOne(|s| / TMIN_SET_STEPS);
    assert ZeroRange(s, 0, 4)[1] == ZERO && ZeroRange(s, 4, 1)[4] == ZERO;
    assert NormalizeFrom(Unsteady, s, 8, 4) == s;
    assert NormalizeFrom(Unsteady, s, 4, 4) == s;
  }

  lemma UnsteadyStage(s: Input)
    requires |s| == 5
    ensures DeleteStage(Unsteady, s, StartBlock(s)) == s
  {
    NextIsOne(|s| / TRIM_START_STEPS);
    NothingDeleted(s, 0);
  }

  lemma {:induction false} TwoPasses(accept: Oracle, s: Input, r: Input)
    requires FullPass(accept, s) == r && r != s && DeleteStage(accept, r, StartBlock(r)) == r
    ensures Passes(accept, s, 1) == r
  {
    PassShrinks(accept, s);
    var second := 2;
    assert Passes(accept, r, second) == r;
  }

  lemma UnsteadyPass(s: Input, r: Input)
    requires s == AABBC && r == AAB0C
    ensures FullPass(Unsteady, s) == r
  {
    UnsteadyStage(s);
    NoSymbolGoes(s, 0);
    UnsteadyBytes(s, r);
  }

  lemma UnsteadyResult(s: Input, r: Input)
    requires s == AABBC && r == AAB0C
    ensures Minimized(Unsteady, s) == r
  {
    UnsteadyNormalized(s);
    UnsteadyPass(s, r);
    UnsteadyStage(r);
    assert s[3] != r[3];
    TwoPasses(Unsteady, s, r);
  }

  lemma NotMinimal(r: Input)
    requires r == AAB0C
    ensures !ByteMinimal(Unsteady, r)
  {
    assert r[0] != ZERO && r[0 := ZERO] == OAB0C;
  }

  /** An accepted input and a target for which the result is not byte-minimal: zeroing the
      fourth byte makes the target accept '0' for the first one, which it had rejected, and
      the second pass ends before it would be tried again. */
  lemma NotAlwaysByteMinimal(s: Input, r: Input)
    requires s == AABBC && r == AAB0C
    ensures Unsteady(s) && Minimized(Unsteady, s) == r
    ensures !ByteMinimal(Unsteady, r) && !Steady(Unsteady)
  {
    UnsteadyResult(s, r);
    NotMinimal(r);
    if Steady(Unsteady) {
      SteadyTargetsAreByteMinimal(Unsteady, s);
    }
  }
}
