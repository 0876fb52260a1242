/** How far trim_case of AFL/afl-fuzz.c goes: the chunk lengths it tries, from a sixteenth of the rounded length down
    to a 1024th. */
module TrimReach {
  import opened Deletion
  import opened Machine
  import opened Trimmer

  /** A chunk length that trimming an input of this length tries. */
  ghost predicate IsChunkLength(s: Input, d: nat) {
    IsPow2(d) && d >= 4 && NextP2(|s|) / 1024 <= d && (d == 4 || d <= NextP2(|s|) / 16)
  }

  /** No chunk of this length can go, wherever its multiples cut the input behind the first. */
  ghost predicate RejectsChunks(same: Oracle, s: Input, d: nat)
    requires d > 0
  {
    forall k | d <= k < |s| && k % d == 0 :: !same(Without(s, k, d))
  }

  lemma ChunkStarts(k: nat, d: nat)
    requires d > 0 && d <= k && k % d == 0
    ensures k / d >= 1 && k == d + (k / d - 1) * d
  {
    assert k == k / d * d;
    var m := k / d;
    if m > 0 {
      NextMultiple(m - 1, d);
    }
  }

  lemma UnchangedSweepRejects(same: Oracle, s: Input, d: nat)
    requires d > 0 && DeletePass(same, s, d, d) == s
    ensures RejectsChunks(same, s, d)
  {
    forall k | d <= k < |s| && k % d == 0
      ensures !same(Without(s, k, d))
    {
      ChunkStarts(k, d);
      UnchangedPassRejects(same, s, d, d, k / d - 1, k);
    }
  }

  /** Sweeps only shorten, so if all of them together change nothing, none did. */
  lemma {:induction false} TrimmedIsShorter(same: Oracle, s: Input, chunk: nat)
    ensures |Trimmed(same, s, chunk)| <= |s|
    decreases chunk
  {
    if chunk >= EndChunk(s) {
      TrimmedIsShorter(same, DeletePass(same, s, chunk, chunk), chunk / 2);
    }
  }

  lemma {:induction false} UnchangedTrimRejects(same: Oracle, s: Input, chunk: nat, d: nat)
    requires IsPow2(chunk) && Trimmed(same, s, chunk) == s && IsPow2(d) && EndChunk(s) <= d <= chunk
    ensures RejectsChunks(same, s, d)
    decreases chunk
  {
    var t := DeletePass(same, s, chunk, chunk);
    TrimmedIsShorter(same, t, chunk / 2);
    assert t == s;
    if d == chunk {
      UnchangedSweepRejects(same, s, d);
    } else {
      Pow2Gap(d, chunk);
      UnchangedTrimRejects(same, s, chunk / 2, d);
    }
  }

  lemma LengthsInReach(s: Input, d: nat)
    requires |s| >= 5 && IsChunkLength(s, d)
    ensures EndChunk(s) <= d <= StartChunk(s)
  {
  }

  /** Main result: when trimming changes nothing, no chunk of any length it tries can go. */
  lemma UntrimmedRejectsAll(same: Oracle, s: Input, d: nat)
    requires |s| >= 5 && Trimmed(same, s, StartChunk(s)) == s && IsChunkLength(s, d)
    ensures RejectsChunks(same, s, d)
  {
    StartChunkFits(s);
    LengthsInReach(s, d);
    UnchangedTrimRejects(same, s, StartChunk(s), d);
  }

  lemma StartsInReach(s: Input)
    ensures EndChunk(s) <= StartChunk(s)
  {
  }

  /** The last sweep: its chunk length cannot be halved once more for the input it leaves. */
  lemma {:induction false} LastSweep(same: Oracle, s: Input, chunk: nat) returns (u: Input, c: nat)
    requires chunk >= EndChunk(s)
    ensures c >= EndChunk(u) && Trimmed(same, s, chunk) == DeletePass(same, u, c, c)
    ensures c / 2 < EndChunk(Trimmed(same, s, chunk))
    decreases chunk
  {
    var t := DeletePass(same, s, chunk, chunk);
    if chunk / 2 < EndChunk(t) {
      u, c := s, chunk;
    } else {
      u, c := LastSweep(same, t, chunk / 2);
    }
  }

  /** Main result: whatever is cut, the trimming ends with a sweep over chunks so short that
      half their length is below 4, or below a 1024th of what is left, rounded up. */
  lemma SweepsToTheEnd(same: Oracle, s: Input) returns (u: Input, c: nat)
    requires |s| >= 5
    ensures var r := Trimmed(same, s, StartChunk(s));
            c > 0 && r == DeletePass(same, u, c, c) && (c / 2 < 4 || c / 2 < NextP2(|r|) / 1024)
  {
    StartsInReach(s);
    u, c := LastSweep(same, s, StartChunk(s));
  }
}
