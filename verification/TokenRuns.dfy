/** The search for syntax tokens in the one-bit stage of fuzz_one in AFL/afl-fuzz.c: stretches
    of bytes whose lowest bits all change the path, and all in the same way. */
module TokenRuns {

  const MIN_AUTO_EXTRA: nat := 3
  const MAX_AUTO_EXTRA: nat := 32

  type Bytes = seq<bv8>

  // ------------------------------------------------------------------ runs

  /** Where the stretch of equal sums that holds position i begins. */
  function RunStart(sums: seq<nat>, i: nat): (a: nat)
    requires i < |sums|
    ensures a <= i
  {
    if i > 0 && sums[i - 1] == sums[i] then RunStart(sums, i - 1) else i
  }

  /** A stretch ends before position b. */
  predicate EndsAt(sums: seq<nat>, b: nat) {
    0 < b <= |sums| && (b == |sums| || sums[b] != sums[b - 1])
  }

  /** The stretch is of interest: it changes the path, and is neither too short nor too
      long. */
  predicate Worth(sums: seq<nat>, exec: nat, b: nat)
    requires 0 < b <= |sums|
  {
    sums[b - 1] != exec && MIN_AUTO_EXTRA <= b - RunStart(sums, b - 1) <= MAX_AUTO_EXTRA
  }

  /** The bytes from a up to but not including b. */
  function Piece(bytes: Bytes, a: nat, b: nat): (r: Bytes)
    requires a <= b <= |bytes|
    ensures |r| == b - a
  {
    seq(b - a, k requires 0 <= k < b - a => bytes[a + k])
  }

  lemma PieceIsSlice(bytes: Bytes, a: nat, b: nat)
    requires a <= b <= |bytes|
    ensures Piece(bytes, a, b) == bytes[a..b]
  {
  }

  /** The tokens among the first n bytes, in order. */
  function Tokens(bytes: Bytes, sums: seq<nat>, exec: nat, n: nat): seq<Bytes>
    requires |bytes| == |sums| && n <= |sums|
  {
    if n == 0 then []
    else Tokens(bytes, sums, exec, n - 1) +
         if EndsAt(sums, n) && Worth(sums, exec, n) then [Piece(bytes, RunStart(sums, n - 1), n)] else []
  }

  /** Such a stretch is as long as it can be. */
  lemma {:induction false} RunIsMaximal(sums: seq<nat>, i: nat)
    requires i < |sums|
    ensures var a := RunStart(sums, i);
            (forall k | a <= k <= i :: sums[k] == sums[i]) && (a > 0 ==> sums[a - 1] != sums[i])
  {
    if i > 0 && sums[i - 1] == sums[i] {
      RunIsMaximal(sums, i - 1);
    }
  }

  /** A maximal stretch of equal sums other than the recorded one, of 3 to 32 bytes. */
  ghost predicate IsRun(sums: seq<nat>, exec: nat, a: nat, b: nat) {
    && a < b <= |sums| && sums[a] != exec && 3 <= b - a <= 32
    && (forall k | a <= k < b :: sums[k] == sums[a])
    && (a > 0 ==> sums[a - 1] != sums[a]) && (b < |sums| ==> sums[b] != sums[a])
  }

  lemma {:induction false} StartOf(sums: seq<nat>, a: nat, i: nat)
    requires a <= i < |sums| && (forall k | a <= k <= i :: sums[k] == sums[a]) && (a > 0 ==> sums[a - 1] != sums[a])
    ensures RunStart(sums, i) == a
  {
    if a < i {
      StartOf(sums, a, i - 1);
    }
  }

  lemma {:induction false} RunHasStart(sums: seq<nat>, exec: nat, a: nat, b: nat)
    requires IsRun(sums, exec, a, b)
    ensures RunStart(sums, b - 1) == a && EndsAt(sums, b) && Worth(sums, exec, b)
  {
    StartOf(sums, a, b - 1);
  }

  /** The tokens are exactly these stretches. */
  lemma {:induction false} TokensAreRuns(bytes: Bytes, sums: seq<nat>, exec: nat, n: nat, t: Bytes)
    requires |bytes| == |sums| && n <= |sums|
    ensures t in Tokens(bytes, sums, exec, n) <==>
            exists a, b | 0 <= a < b <= n :: IsRun(sums, exec, a, b) && t == bytes[a..b]
  {
    if n > 0 {
      TokensAreRuns(bytes, sums, exec, n - 1, t);
      if EndsAt(sums, n) && Worth(sums, exec, n) {
        RunIsMaximal(sums, n - 1);
        PieceIsSlice(bytes, RunStart(sums, n - 1), n);
        assert IsRun(sums, exec, RunStart(sums, n - 1), n);
      }
      forall a | 0 <= a < n && IsRun(sums, exec, a, n)
        ensures RunStart(sums, n - 1) == a && EndsAt(sums, n) && Worth(sums, exec, n)
      {
        RunHasStart(sums, exec, a, n);
      }
    }
  }

  /** The token that ends with the last byte, if there is one. */
  function Token(bytes: Bytes, sums: seq<nat>, exec: nat): seq<Bytes>
    requires |bytes| == |sums|
  {
    var n := |sums|;
    if n > 0 && Worth(sums, exec, n) then [Piece(bytes, RunStart(sums, n - 1), n)] else []
  }

  lemma {:induction false} StartStays(sums: seq<nat>, c: nat, i: nat)
    requires i < |sums|
    ensures RunStart(sums + [c], i) == RunStart(sums, i)
  {
    if i > 0 {
      StartStays(sums, c, i - 1);
    }
  }

  lemma {:induction false} TokensStay(bytes: Bytes, sums: seq<nat>, exec: nat, byte: bv8, c: nat, n: nat)
    requires |bytes| == |sums| && n < |sums|
    ensures Tokens(bytes + [byte], sums + [c], exec, n) == Tokens(bytes, sums, exec, n)
  {
    if n > 0 {
      TokensStay(bytes, sums, exec, byte, c, n - 1);
      StartStays(sums, c, n - 1);
      var a := RunStart(sums, n - 1);
      assert Piece(bytes + [byte], a, n) == Piece(bytes, a, n);
    }
  }

  /** One more byte: its sum shows whether the stretch before it has ended. */
  lemma {:induction false} TokensGrow(bytes: Bytes, sums: seq<nat>, exec: nat, byte: bv8, c: nat)
    requires |bytes| == |sums| > 0
    ensures Tokens(bytes + [byte], sums + [c], exec, |sums|) ==
            Tokens(bytes, sums, exec, |sums| - 1) + if c != sums[|sums| - 1] then Token(bytes, sums, exec) else []
  {
    var n := |sums|;
    TokensStay(bytes, sums, exec, byte, c, n - 1);
    StartStays(sums, c, n - 1);
    assert Piece(bytes + [byte], RunStart(sums, n - 1), n) == Piece(bytes, RunStart(sums, n - 1), n);
  }

  lemma LastToken(bytes: Bytes, sums: seq<nat>, exec: nat)
    requires |bytes| == |sums| > 0
    ensures Tokens(bytes, sums, exec, |sums|) == Tokens(bytes, sums, exec, |sums| - 1) + Token(bytes, sums, exec)
  {
  }

  /** The last byte goes on with the stretch before it. */
  lemma LastGoesOn(bytes: Bytes, sums: seq<nat>, exec: nat, byte: bv8, c: nat)
    requires |bytes| == |sums| && c == if sums == [] then exec else sums[|sums| - 1]
    ensures Tokens(bytes + [byte], sums + [c], exec, |sums| + 1) ==
            (if sums == [] then [] else Tokens(bytes, sums, exec, |sums| - 1)) +
            Token(bytes + [byte], sums + [c], exec)
    ensures c != exec ==> RunStart(sums + [c], |sums|) == RunStart(sums, |sums| - 1)
  {
    LastToken(bytes + [byte], sums + [c], exec);
    if sums != [] {
      TokensGrow(bytes, sums, exec, byte, c);
      StartStays(sums, c, |sums| - 1);
    }
  }

  // ------------------------------------------------------------- the collector

  class Collector {
    const exec: nat
    const aCollect: array<bv8>
    var aLen: nat
    var prevCksum: nat
    var tokens: seq<Bytes>            // what has been given to maybe_add_auto

    constructor (exec: nat)
      ensures Holds([], []) && fresh(aCollect) && this.exec == exec
    {
      this.exec := exec;
      aCollect := new bv8[MAX_AUTO_EXTRA];
      aLen, prevCksum, tokens := 0, exec, [];
    }

    ghost predicate Valid()
      reads this
    {
      aCollect.Length == MAX_AUTO_EXTRA
    }

    /** The length of the stretch being collected. */
    ghost function Open(sums: seq<nat>): nat
      reads this
    {
      var i := |sums|;
      if i == 0 || sums[i - 1] == exec then 0 else i - RunStart(sums, i - 1)
    }

    /** The state when these bytes with these sums have been gone through. */
    ghost predicate Holds(bytes: Bytes, sums: seq<nat>)
      reads this, aCollect
    {
      && Valid() && |bytes| == |sums|
      && var i := |sums|;
      && prevCksum == (if i == 0 then exec else sums[i - 1])
      && aLen == Open(sums)
      && (aLen <= MAX_AUTO_EXTRA ==> forall k | 0 <= k < aLen :: aCollect[k] == bytes[i - aLen + k])
      && tokens == if i == 0 then [] else Tokens(bytes, sums, exec, i - 1)
    }

    /** The end of a stretch: hand it on if it is of interest. */
    method Flush(ghost bytes: Bytes, ghost sums: seq<nat>)
      requires Holds(bytes, sums)
      modifies this`tokens
      ensures tokens == old(tokens) + Token(bytes, sums, exec)
    {
      if MIN_AUTO_EXTRA <= aLen <= MAX_AUTO_EXTRA {
        assert aCollect[..aLen] == Piece(bytes, |sums| - aLen, |sums|);
        tokens := tokens + [aCollect[..aLen]];
      }
    }

    /** a_collect takes what it has room for; a_len counts on. */
    method Collect(byte: bv8)
      requires Valid()
      modifies this`aLen, aCollect
      ensures aLen == old(aLen) + 1
      ensures aLen <= MAX_AUTO_EXTRA ==> aCollect[aLen - 1] == byte
      ensures forall k | 0 <= k < old(aLen) && k < MAX_AUTO_EXTRA :: aCollect[k] == old(aCollect[k])
    {
      if aLen < MAX_AUTO_EXTRA {
        aCollect[aLen] := byte;
      }
      aLen := aLen + 1;
    }

    /** A byte with the same sum as the one before. */
    method Continue(byte: bv8, c: nat, ghost bytes: Bytes, ghost sums: seq<nat>)
      requires Holds(bytes, sums) && c == prevCksum
      modifies this`aLen, aCollect
      ensures Holds(bytes + [byte], sums + [c])
    {
      if sums != [] {
        TokensGrow(bytes, sums, exec, byte, c);
        StartStays(sums, c, |sums| - 1);
      }
      if c != exec {
        Collect(byte);
      }
    }

    /** A byte with another sum ends the stretch before it. */
    method Switch(byte: bv8, c: nat, ghost bytes: Bytes, ghost sums: seq<nat>)
      requires Holds(bytes, sums) && c != prevCksum
      modifies this`aLen, this`prevCksum, this`tokens, aCollect
      ensures Holds(bytes + [byte], sums + [c])
    {
      if sums != [] {
        TokensGrow(bytes, sums, exec, byte, c);
      }
      Flush(bytes, sums);
      aLen, prevCksum := 0, c;
      if c != exec {
        Collect(byte);
      }
    }

    /** The last byte, if it goes on with a stretch: the token is handed on at once. */
    method Finish(byte: bv8, c: nat, ghost bytes: Bytes, ghost sums: seq<nat>)
      requires Holds(bytes, sums) && c == prevCksum
      modifies this`aLen, this`tokens, aCollect
      ensures tokens == Tokens(bytes + [byte], sums + [c], exec, |sums| + 1)
    {
      ghost var bytes', sums' := bytes + [byte], sums + [c];
      ghost var start := RunStart(sums', |sums|);
      LastGoesOn(bytes, sums, exec, byte, c);
      Collect(byte);
      if MIN_AUTO_EXTRA <= aLen <= MAX_AUTO_EXTRA {
        assert aCollect[..aLen] == Piece(bytes', start, |sums'|);
        tokens := tokens + [aCollect[..aLen]];
      }
      if c != exec {
        Collect(byte);
      }
    }

    /** What the stage does after each flip of a lowest bit. */
    method Take(byte: bv8, c: nat, last: bool, ghost bytes: Bytes, ghost sums: seq<nat>)
      requires Holds(bytes, sums)
      modifies this`aLen, this`prevCksum, this`tokens, aCollect
      ensures !last ==> Holds(bytes + [byte], sums + [c])
      ensures last ==> tokens == Tokens(bytes + [byte], sums + [c], exec, |sums| + 1)
    {
      if last && c == prevCksum {
        Finish(byte, c, bytes, sums);
      } else if c != prevCksum {
        Switch(byte, c, bytes, sums);
        LastToken(bytes + [byte], sums + [c], exec);
      } else {
        Continue(byte, c, bytes, sums);
      }
    }

    /** The state when i of the bytes have been gone through. */
    ghost predicate Through(bytes: Bytes, sums: seq<nat>, i: nat)
      reads this, aCollect
    {
      && i <= |bytes| == |sums|
      && if i == |bytes| then tokens == Tokens(bytes, sums, exec, i) else Holds(bytes[..i], sums[..i])
    }

    method Next(i: nat, byte: bv8, c: nat, last: bool, ghost bytes: Bytes, ghost sums: seq<nat>)
      requires i < |bytes| == |sums| && byte == bytes[i] && c == sums[i] && (last <==> i == |bytes| - 1)
      requires Through(bytes, sums, i)
      modifies this`aLen, this`prevCksum, this`tokens, aCollect
      ensures Through(bytes, sums, i + 1)
    {
      assert sums[..i + 1] == sums[..i] + [c] && bytes[..i + 1] == bytes[..i] + [byte];
      Take(byte, c, last, bytes[..i], sums[..i]);
      assert bytes[..|bytes|] == bytes && sums[..|bytes|] == sums;
    }

    lemma AtStart(bytes: Bytes, sums: seq<nat>)
      requires Holds([], []) && |bytes| == |sums| > 0
      ensures Through(bytes, sums, 0)
    {
      assert bytes[..0] == [] && sums[..0] == [];
    }
  }
}
