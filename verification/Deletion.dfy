/** Removing blocks from an input while a verdict on the remainder stays favourable: the
    step shared by afl-tmin's block deletion and afl-fuzz's trim_case. */
module Deletion {
  import opened Machine

  type Input = seq<u8>
  type Oracle = Input -> bool

  function Min(a: nat, b: nat): nat { if a < b then a else b }

  /** `s` without the (at most) d bytes at position p: what lay beyond them moves up. */
  function Without(s: Input, p: nat, d: nat): (r: Input)
    requires p < |s| && d > 0
    ensures |r| < |s|
  {
    var n := Min(d, |s| - p);
    seq(|s| - n, k requires 0 <= k < |s| - n => if k < p then s[k] else s[k + n])
  }

  lemma WithoutSlices(s: Input, p: nat, d: nat)
    requires p < |s| && d > 0
    ensures Without(s, p, d) == s[..p] + s[Min(p + d, |s|)..]
  {
  }

  /** One sweep with block length d: delete whatever can be deleted. */
  function DeletePass(accept: Oracle, s: Input, pos: nat, d: nat): (r: Input)
    requires d > 0
    ensures |r| <= |s|
    ensures r != s ==> |r| < |s|
    decreases |s| - pos
  {
    if pos >= |s| then s
    else if accept(Without(s, pos, d)) then DeletePass(accept, Without(s, pos, d), pos, d)
    else DeletePass(accept, s, pos + d, d)
  }

  /** The identical-block shortcut is sound: when a block equals the one before it,
      deleting either gives the same input. */
  lemma {:induction false} SkipSound(s: Input, p: nat, d: nat)
    requires 0 < d <= p && p + d <= |s|
    requires s[p - d..p] == s[p..p + d]
    ensures Without(s, p, d) == Without(s, p - d, d)
  {
    forall k | p - d <= k < p
      ensures s[k] == s[k + d]
    {
      assert s[p - d..p][k - (p - d)] == s[p..p + d][k - (p - d)];
    }
  }

  /** A sweep that changes nothing has had each of its blocks rejected. */
  lemma {:induction false} UnchangedPassRejects(accept: Oracle, s: Input, pos: nat, d: nat, m: nat, k: nat)
    requires d > 0 && DeletePass(accept, s, pos, d) == s && k == pos + m * d < |s|
    ensures !accept(Without(s, k, d))
    decreases m
  {
    if m > 0 {
      NextMultiple(m - 1, d);
      assert !accept(Without(s, pos, d));
      UnchangedPassRejects(accept, s, pos + d, d, m - 1, k);
    }
  }

  // -------------------------------------------------------- what a sweep leaves

  /** t consists of the bytes of s at the increasing positions `kept`. */
  ghost predicate TakenFrom(s: Input, t: Input, kept: seq<nat>) {
    && |kept| == |t|
    && (forall i, j | 0 <= i < j < |kept| :: kept[i] < kept[j])
    && forall k | 0 <= k < |t| :: kept[k] < |s| && t[k] == s[kept[k]]
  }

  ghost predicate Subsequence(s: Input, t: Input) {
    exists kept: seq<nat> :: TakenFrom(s, t, kept)
  }

  lemma SubsequenceRefl(s: Input)
    ensures Subsequence(s, s)
  {
    assert TakenFrom(s, s, seq(|s|, i => i));
  }

  lemma SubsequenceTrans(s: Input, t: Input, u: Input)
    requires Subsequence(s, t) && Subsequence(t, u)
    ensures Subsequence(s, u)
  {
    var a: seq<nat> :| TakenFrom(s, t, a);
    var b: seq<nat> :| TakenFrom(t, u, b);
    assert TakenFrom(s, u, seq(|u|, k requires 0 <= k < |u| => a[b[k]]));
  }

  lemma WithoutIsSubsequence(s: Input, p: nat, d: nat)
    requires p < |s| && d > 0
    ensures Subsequence(s, Without(s, p, d))
  {
    var q := Min(p + d, |s|);
    var n := |Without(s, p, d)|;
    assert TakenFrom(s, Without(s, p, d), seq(n, k requires 0 <= k < n => if k < p then k else k - p + q));
  }

  lemma {:induction false} DeletePassTakes(accept: Oracle, s: Input, pos: nat, d: nat)
    requires d > 0
    ensures Subsequence(s, DeletePass(accept, s, pos, d))
    decreases |s| - pos
  {
    if pos >= |s| {
      SubsequenceRefl(s);
    } else if accept(Without(s, pos, d)) {
      var t := Without(s, pos, d);
      DeletePassTakes(accept, t, pos, d);
      WithoutIsSubsequence(s, pos, d);
      SubsequenceTrans(s, t, DeletePass(accept, t, pos, d));
    } else {
      DeletePassTakes(accept, s, pos + d, d);
    }
  }

  lemma {:induction false} DeletePassKeepsStart(accept: Oracle, s: Input, pos: nat, d: nat, n: nat)
    requires d > 0 && n <= pos && n <= |s|
    ensures n <= |DeletePass(accept, s, pos, d)|
    ensures forall k | 0 <= k < n :: DeletePass(accept, s, pos, d)[k] == s[k]
    decreases |s| - pos
  {
    if pos >= |s| {
    } else if accept(Without(s, pos, d)) {
      DeletePassKeepsStart(accept, Without(s, pos, d), pos, d, n);
    } else {
      DeletePassKeepsStart(accept, s, pos + d, d, n);
    }
  }

  lemma {:induction false} DeletePassAccepted(accept: Oracle, s: Input, pos: nat, d: nat)
    requires d > 0 && accept(s)
    ensures accept(DeletePass(accept, s, pos, d))
    decreases |s| - pos
  {
    if pos >= |s| {
    } else if accept(Without(s, pos, d)) {
      DeletePassAccepted(accept, Without(s, pos, d), pos, d);
    } else {
      DeletePassAccepted(accept, s, pos + d, d);
    }
  }

  /** A sweep keeps the verdict, takes bytes away only behind its start, and adds none. */
  lemma {:induction false} DeletePassKeeps(accept: Oracle, s: Input, pos: nat, d: nat)
    requires d > 0
    ensures Subsequence(s, DeletePass(accept, s, pos, d))
    ensures pos <= |s| ==> pos <= |DeletePass(accept, s, pos, d)| && DeletePass(accept, s, pos, d)[..pos] == s[..pos]
    ensures accept(s) ==> accept(DeletePass(accept, s, pos, d))
  {
    DeletePassTakes(accept, s, pos, d);
    if pos <= |s| {
      DeletePassKeepsStart(accept, s, pos, d, pos);
    }
    if accept(s) {
      DeletePassAccepted(accept, s, pos, d);
    }
  }

  /** How many candidates a sweep runs. */
  function PassRuns(accept: Oracle, s: Input, pos: nat, d: nat): nat
    requires d > 0
    decreases |s| - pos
  {
    if pos >= |s| then 0
    else if accept(Without(s, pos, d)) then 1 + PassRuns(accept, Without(s, pos, d), pos, d)
    else 1 + PassRuns(accept, s, pos + d, d)
  }

  lemma NextMultiple(n: nat, d: nat)
    ensures (n + 1) * d == n * d + d
    ensures n == 0 ==> n * d == 0
  {
  }

  /** The step of PassRunsExactly: one more run for one more block. */
  lemma OneMoreBlock(n: nat, d: nat, len: nat, rest: nat)
    requires d > 0 && len > 0 && rest <= n * d < rest + d
    requires if len > d then rest + d == len else rest == 0
    ensures len <= (n + 1) * d < len + d
  {
    NextMultiple(n, d);
    if rest == 0 && n > 0 {
      NextMultiple(n - 1, d);
    }
  }

  /** The number of runs does not depend on the verdicts: it is the number of blocks
      behind the start, the last one possibly short. */
  lemma {:induction false} PassRunsExactly(accept: Oracle, s: Input, pos: nat, d: nat)
    requires d > 0 && pos <= |s|
    ensures |s| - pos <= PassRuns(accept, s, pos, d) * d < |s| - pos + d
    decreases |s| - pos
  {
    if pos < |s| {
      var t := Without(s, pos, d);
      var rest := if |s| - pos > d then |s| - pos - d else 0;
      if accept(t) {
        PassRunsExactly(accept, t, pos, d);
        OneMoreBlock(PassRuns(accept, t, pos, d), d, |s| - pos, rest);
      } else if pos + d <= |s| {
        PassRunsExactly(accept, s, pos + d, d);
        OneMoreBlock(PassRuns(accept, s, pos + d, d), d, |s| - pos, rest);
      } else {
        OneMoreBlock(0, d, |s| - pos, rest);
      }
    } else {
      NextMultiple(0, d);
    }
  }
}
