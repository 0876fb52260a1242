/** The stages of fuzz_one in AFL/afl-fuzz.c that write dictionary tokens over the input.
    At each offset the buffer is not restored between tokens; that this makes no
    difference rests on the tokens coming in order of length. */
module ExtrasOverwrite {
  import opened Machine

  type Buffer = seq<u8>
  type Token = t: seq<u8> | t != [] witness [0]

  const MAX_DET_EXTRAS: nat := 200

  function Overwrite(s: Buffer, i: nat, t: seq<u8>): (r: Buffer)
    requires i + |t| <= |s|
    ensures |r| == |s|
  {
    s[..i] + t + s[i + |t|..]
  }

  ghost predicate Sorted(tokens: seq<Token>) {
    forall a, b | 0 <= a <= b < |tokens| :: |tokens[a]| <= |tokens[b]|
  }

  /** A sequence of runs without those that would repeat the one before; `first` has been
      run already. */
  function NoRepeats(first: Buffer, runs: seq<Buffer>): (r: seq<Buffer>) {
    if runs == [] then []
    else
      var n := |runs| - 1;
      var before := if n == 0 then first else runs[n - 1];
      NoRepeats(first, runs[..n]) + if runs[n] == before then [] else [runs[n]]
  }

  /** What a stage works with: the input, its tokens, the effector map and the numbers the
      random generator will return. */
  datatype Stage = Stage(input: Buffer, tokens: seq<Token>, eff: seq<bool>, draw: (nat, nat) -> nat) {
    ghost predicate Valid() {
      |eff| == (|input| + 7) / 8 && Sorted(tokens)
    }

    predicate Fits(i: nat, j: nat)
      requires i < |input| && j < |tokens|
    {
      |tokens[j]| <= |input| - i
    }

    /** The tests that leave a token out, other than that for redundancy. */
    predicate Eligible(i: nat, j: nat)
      requires |eff| == (|input| + 7) / 8 && i < |input| && j < |tokens|
    {
      && !(|tokens| > MAX_DET_EXTRAS && draw(i, j) % |tokens| >= MAX_DET_EXTRAS)
      && Fits(i, j)
      && exists p | i / 8 <= p <= (i + |tokens[j]| - 1) / 8 :: eff[p]
    }

    /** The buffers the first j tokens call for at offset i: each has one token written
        over the input itself. */
    ghost function Candidates(i: nat, j: nat): (r: seq<Buffer>)
      requires Valid() && i < |input| && j <= |tokens|
    {
      if j == 0 then []
      else if Eligible(i, j - 1) then Candidates(i, j - 1) + [Overwrite(input, i, tokens[j - 1])]
      else Candidates(i, j - 1)
    }

    ghost function Row(i: nat): seq<Buffer>
      requires Valid() && i < |input|
    {
      NoRepeats(input, Candidates(i, |tokens|))
    }

    /** What a stage is to run at its first n offsets. */
    ghost function Log(n: nat): seq<Buffer>
      requires Valid() && n <= |input|
    {
      if n == 0 then [] else Log(n - 1) + Row(n - 1)
    }
  }

  // --------------------------------------------------- writing without restoring

  /** Writing b over a, both at i, is writing b over the input exactly when b reaches as
      far as a or what sticks out is what was there. */
  lemma OverwriteTwice(s: Buffer, i: nat, a: seq<u8>, b: seq<u8>)
    requires i + |a| <= |s| && i + |b| <= |s|
    ensures Overwrite(Overwrite(s, i, a), i, b) == Overwrite(s, i, b) <==>
            |a| <= |b| || a[|b|..] == s[i + |b|..i + |a|]
  {
    var twice, once := Overwrite(Overwrite(s, i, a), i, b), Overwrite(s, i, b);
    if |a| <= |b| {
      assert twice == once;
    } else {
      assert twice[i + |b|..i + |a|] == a[|b|..];
      assert once[i + |b|..i + |a|] == s[i + |b|..i + |a|];
      if a[|b|..] == s[i + |b|..i + |a|] {
        forall k | i + |b| <= k < i + |a|
          ensures a[k - i] == s[k]
        {
          assert a[|b|..][k - i - |b|] == s[i + |b|..i + |a|][k - i - |b|];
        }
        assert twice == once;
      }
    }
  }

  lemma OverwriteNothing(s: Buffer, i: nat)
    requires i <= |s|
    ensures Overwrite(s, i, []) == s
  {
  }

  /** The comparison with the buffer tells whether the write would change anything. */
  lemma RedundantExactly(s: Buffer, i: nat, t: seq<u8>)
    requires i + |t| <= |s|
    ensures s[i..i + |t|] == t <==> Overwrite(s, i, t) == s
  {
    assert s == s[..i] + s[i..i + |t|] + s[i + |t|..];
    assert Overwrite(s, i, t)[i..i + |t|] == t;
  }

  ghost function Latest(first: Buffer, runs: seq<Buffer>): Buffer {
    if runs == [] then first else runs[|runs| - 1]
  }

  lemma NoRepeatsSnoc(first: Buffer, runs: seq<Buffer>, next: Buffer)
    ensures NoRepeats(first, runs + [next]) ==
            NoRepeats(first, runs) + if next == Latest(first, runs) then [] else [next]
  {
    assert (runs + [next])[..|runs|] == runs;
  }

  method WriteToken(buf: array<u8>, i: nat, t: seq<u8>)
    requires i + |t| <= buf.Length
    modifies buf
    ensures buf[..] == Overwrite(old(buf[..]), i, t)
  {
    forall k | 0 <= k < |t| {
      buf[i + k] := t[k];
    }
  }

  /** One eligible token at one offset: run it unless the buffer reads the same already. */
  method TryToken(outBuf: array<u8>, ghost input: Buffer, i: nat, last: seq<u8>, t: Token, abort: Buffer -> bool)
      returns (ran: seq<Buffer>, last': seq<u8>, abandoned: bool)
    requires |last| <= |t| && i + |t| <= |input| == outBuf.Length
    requires outBuf[..] == Overwrite(input, i, last)
    modifies outBuf
    ensures |last'| <= |t| && outBuf[..] == Overwrite(input, i, last') == Overwrite(input, i, t)
    ensures ran == if outBuf[..] == old(outBuf[..]) then [] else [outBuf[..]]
    ensures Heeds(ran, abort, abandoned)
  {
    OverwriteTwice(input, i, last, t);
    RedundantExactly(outBuf[..], i, t);
    ran, last', abandoned := [], last, false;
    if outBuf[i..i + |t|] != t {
      last' := t;
      WriteToken(outBuf, i, t);
      ran := [outBuf[..]];
      abandoned := abort(outBuf[..]);
    }
  }

  predicate Prefix(a: seq<Buffer>, b: seq<Buffer>) {
    a <= b
  }

  lemma {:induction false} CandidatesGrow(st: Stage, i: nat, j: nat, k: nat)
    requires st.Valid() && i < |st.input| && j <= k <= |st.tokens|
    ensures Prefix(NoRepeats(st.input, st.Candidates(i, j)), NoRepeats(st.input, st.Candidates(i, k)))
  {
    if j < k {
      CandidatesGrow(st, i, j, k - 1);
      if st.Eligible(i, k - 1) {
        NoRepeatsSnoc(st.input, st.Candidates(i, k - 1), Overwrite(st.input, i, st.tokens[k - 1]));
      }
    }
  }

  /** Where the work at an offset stands after j tokens: `last` is the token whose bytes
      are in the buffer. */
  ghost predicate Progress(st: Stage, i: nat, j: nat, buf: Buffer, last: seq<u8>, row: seq<Buffer>)
    requires st.Valid()
  {
    && i < |st.input| && j <= |st.tokens| && i + |last| <= |st.input|
    && (forall k | j <= k < |st.tokens| :: |last| <= |st.tokens[k]|)
    && buf == Overwrite(st.input, i, last) == Latest(st.input, st.Candidates(i, j))
    && row == NoRepeats(st.input, st.Candidates(i, j))
  }

  /** One round of the loop over the tokens. */
  method NextToken(outBuf: array<u8>, st: Stage, i: nat, j: nat, last: seq<u8>, row: seq<Buffer>, abort: Buffer -> bool)
      returns (last': seq<u8>, row': seq<Buffer>, abandoned: bool)
    requires st.Valid() && j < |st.tokens| && Progress(st, i, j, outBuf[..], last, row)
    requires Heeds(row, abort, false)
    modifies outBuf
    ensures Progress(st, i, j + 1, outBuf[..], last', row') && Heeds(row', abort, abandoned)
  {
    last', row', abandoned := last, row, false;
    if st.Eligible(i, j) {
      var ran;
      NoRepeatsSnoc(st.input, st.Candidates(i, j), Overwrite(st.input, i, st.tokens[j]));
      ran, last', abandoned := TryToken(outBuf, st.input, i, last, st.tokens[j], abort);
      row' := row + ran;
      HeedsAppend(row, ran, abort, abandoned);
    }
  }

  method Restore(outBuf: array<u8>, input: Buffer, i: nat, last: seq<u8>)
    requires i + |last| <= |input| && outBuf[..] == Overwrite(input, i, last)
    modifies outBuf
    ensures outBuf[..] == input
  {
    var was := input[i..i + |last|];
    OverwriteTwice(input, i, last, was);
    RedundantExactly(input, i, was);
    WriteToken(outBuf, i, was);
  }

  /** All tokens at one offset, then the clobbered bytes are put back. */
  method OverwriteAt(outBuf: array<u8>, st: Stage, i: nat, abort: Buffer -> bool)
      returns (row: seq<Buffer>, abandoned: bool)
    requires st.Valid() && i < |st.input| && outBuf[..] == st.input
    modifies outBuf
    ensures Prefix(row, st.Row(i)) && Heeds(row, abort, abandoned)
    ensures !abandoned ==> row == st.Row(i) && outBuf[..] == st.input
  {
    var last: seq<u8> := [];
    row, abandoned := [], false;
    OverwriteNothing(st.input, i);
    var j := 0;
    ghost var buf := outBuf[..];
    while j < |st.tokens|
      invariant j <= |st.tokens| && buf == outBuf[..] && Progress(st, i, j, buf, last, row)
      invariant Heeds(row, abort, false)
    {
      last, row, abandoned := NextToken(outBuf, st, i, j, last, row, abort);
      j := j + 1;
      buf := outBuf[..];
      if abandoned {
        CandidatesGrow(st, i, j, |st.tokens|);
        return;
      }
    }
    Restore(outBuf, st.input, i, last);
  }

  lemma {:induction false} LogGrows(st: Stage, n: nat, m: nat)
    requires st.Valid() && n <= m <= |st.input|
    ensures Prefix(st.Log(n), st.Log(m))
  {
    if n < m {
      LogGrows(st, n, m - 1);
    }
  }

  lemma RowExtends(st: Stage, i: nat, row: seq<Buffer>)
    requires st.Valid() && i < |st.input| && Prefix(row, st.Row(i))
    ensures Prefix(st.Log(i) + row, st.Log(|st.input|))
  {
    LogGrows(st, i + 1, |st.input|);
  }

  /** One more offset. */
  method OverwriteNext(outBuf: array<u8>, st: Stage, i: nat, log: seq<Buffer>, abort: Buffer -> bool)
      returns (log': seq<Buffer>, abandoned: bool)
    requires st.Valid() && outBuf[..] == st.input && i < |st.input| && log == st.Log(i) && Heeds(log, abort, false)
    modifies outBuf
    ensures Prefix(log', st.Log(|st.input|)) && Heeds(log', abort, abandoned)
    ensures !abandoned ==> log' == st.Log(i + 1) && outBuf[..] == st.input
  {
    var row;
    row, abandoned := OverwriteAt(outBuf, st, i, abort);
    RowExtends(st, i, row);
    HeedsAppend(log, row, abort, abandoned);
    log' := log + row;
  }

  /** A whole stage.  Without restoring the buffer between tokens it runs exactly what a
      stage that started every write from the input would, less immediate repeats; an
      abandoned one has run the first part of that. */
  method OverwriteStage(outBuf: array<u8>, st: Stage, abort: Buffer -> bool)
      returns (log: seq<Buffer>, abandoned: bool)
    requires st.Valid() && outBuf[..] == st.input
    modifies outBuf
    ensures Prefix(log, st.Log(|st.input|)) && Heeds(log, abort, abandoned)
    ensures !abandoned ==> log == st.Log(|st.input|) && outBuf[..] == st.input
  {
    log, abandoned := [], false;
    var i := 0;
    while i < |st.input|
      invariant i <= |st.input| && outBuf[..] == st.input && log == st.Log(i)
      invariant Heeds(log, abort, false)
    {
      log, abandoned := OverwriteNext(outBuf, st, i, log, abort);
      if abandoned {
        return;
      }
      i := i + 1;
    }
  }

  // ------------------------------------------------------------ what a stage runs

  ghost predicate CalledFor(st: Stage, c: Buffer, i: nat, j: nat)
    requires st.Valid()
  {
    i < |st.input| && j < |st.tokens| && st.Eligible(i, j) && c == Overwrite(st.input, i, st.tokens[j])
  }

  lemma {:induction false} NoRepeatsHolds(first: Buffer, runs: seq<Buffer>)
    ensures forall c <- NoRepeats(first, runs) :: c in runs
    ensures forall c <- runs :: c == first || c in NoRepeats(first, runs)
  {
    if runs != [] {
      var n := |runs| - 1;
      NoRepeatsHolds(first, runs[..n]);
      assert runs == runs[..n] + [runs[n]];
      assert n > 0 ==> runs[n - 1] in runs[..n];
    }
  }

  /** No run repeats the one before, nor the first one the input. */
  lemma {:induction false} NoRepeatsAdjacent(first: Buffer, runs: seq<Buffer>)
    ensures var r := NoRepeats(first, runs);
            && (r != [] ==> r[0] != first)
            && (forall k | 0 < k < |r| :: r[k] != r[k - 1])
            && Latest(first, r) == Latest(first, runs)
  {
    if runs != [] {
      var n := |runs| - 1;
      NoRepeatsAdjacent(first, runs[..n]);
    }
  }

  lemma {:induction false} CandidatesHold(st: Stage, i: nat, n: nat, c: Buffer)
    requires st.Valid() && i < |st.input| && n <= |st.tokens|
    ensures c in st.Candidates(i, n) <==> exists j | 0 <= j < n :: CalledFor(st, c, i, j)
  {
    if n > 0 {
      CandidatesHold(st, i, n - 1, c);
      assert CalledFor(st, c, i, n - 1) <==> st.Eligible(i, n - 1) && c == Overwrite(st.input, i, st.tokens[n - 1]);
    }
  }

  /** Every run is the input with exactly one eligible token at one offset, and every such
      buffer is run, unless it is the input itself. */
  lemma {:induction false} LogHolds(st: Stage, n: nat, c: Buffer)
    requires st.Valid() && n <= |st.input|
    ensures c in st.Log(n) ==> exists i, j | 0 <= i < n && 0 <= j < |st.tokens| :: CalledFor(st, c, i, j)
    ensures (exists i, j | 0 <= i < n && 0 <= j < |st.tokens| :: CalledFor(st, c, i, j)) ==>
            c in st.Log(n) || c == st.input
  {
    if n > 0 {
      LogHolds(st, n - 1, c);
      NoRepeatsHolds(st.input, st.Candidates(n - 1, |st.tokens|));
      CandidatesHold(st, n - 1, |st.tokens|, c);
    }
  }
}
