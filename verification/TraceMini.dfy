/** minimize_bits of AFL/afl-fuzz.c: a trace squeezed to one bit per map byte. */
module TraceMini {
  import opened Bits

  type Trace = t: seq<bv8> | |t| % 8 == 0

  /** `mini` records exactly which bytes of the trace are hit. */
  ghost predicate Squeezes(mini: seq<bv8>, trace: Trace) {
    && |mini| == |trace| / 8
    && forall i | 0 <= i < |trace| :: BitAt(mini, i) <==> trace[i] != 0
  }

  /** That determines the packed form. */
  lemma {:induction false} SqueezedUnique(m1: seq<bv8>, m2: seq<bv8>, t1: Trace, t2: Trace)
    requires Squeezes(m1, t1) && Squeezes(m2, t2) && |t1| == |t2|
    requires forall i | 0 <= i < |t1| :: t1[i] != 0 <==> t2[i] != 0
    ensures m1 == m2
  {
    forall j | 0 <= j < |m1|
      ensures m1[j] == m2[j]
    {
      forall k | 0 <= k < 8
        ensures BitOf(m1[j], k) <==> BitOf(m2[j], k)
      {
        assert BitAt(m1, 8 * j + k) <==> BitAt(m2, 8 * j + k);
      }
      SameBits(m1[j], m2[j]);
    }
  }

  /** The bitmap after the first n bytes of the trace have been looked at. */
  function SqueezedUpTo(trace: Trace, n: nat): (mini: seq<bv8>)
    requires n <= |trace|
    ensures |mini| == |trace| / 8
  {
    if n == 0 then seq(|trace| / 8, _ => 0)
    else
      var m := SqueezedUpTo(trace, n - 1);
      if trace[n - 1] == 0 then m
      else m[(n - 1) / 8 := m[(n - 1) / 8] | Mask((n - 1) % 8)]
  }

  function Squeezed(trace: Trace): (mini: seq<bv8>)
    ensures |mini| == |trace| / 8
  {
    SqueezedUpTo(trace, |trace|)
  }

  lemma {:induction false} SqueezedUpToBits(trace: Trace, n: nat)
    requires n <= |trace|
    ensures forall i | 0 <= i < |trace| :: BitAt(SqueezedUpTo(trace, n), i) <==> i < n && trace[i] != 0
  {
    if n == 0 {
      forall i | 0 <= i < |trace|
        ensures !BitAt(SqueezedUpTo(trace, n), i)
      {
        AllBits(i % 8);
      }
    } else {
      SqueezedUpToBits(trace, n - 1);
      var m := SqueezedUpTo(trace, n - 1);
      forall i | 0 <= i < |trace| && trace[n - 1] != 0
        ensures BitAt(SqueezedUpTo(trace, n), i) <==> i < n && trace[i] != 0
      {
        SetBit(m[i / 8], (n - 1) % 8, i % 8);
        assert i / 8 == (n - 1) / 8 && i % 8 == (n - 1) % 8 ==> i == n - 1;
        assert BitAt(m, i) <==> i < n - 1 && trace[i] != 0;
      }
    }
  }

  lemma SqueezedSqueezes(trace: Trace)
    ensures Squeezes(Squeezed(trace), trace)
  {
    SqueezedUpToBits(trace, |trace|);
  }

  /** The in-place loop; the destination starts out zeroed. */
  method MinimizeBits(dst: array<bv8>, src: array<bv8>)
    requires dst != src && src.Length % 8 == 0 && dst.Length == src.Length / 8
    requires forall j | 0 <= j < dst.Length :: dst[j] == 0
    modifies dst
    ensures Squeezes(dst[..], src[..])
    ensures dst[..] == Squeezed(src[..])
  {
    ghost var trace := src[..];
    var i := 0;
    while i < src.Length
      invariant i <= src.Length && dst[..] == SqueezedUpTo(trace, i)
    {
      if src[i] != 0 {
        dst[i / 8] := dst[i / 8] | Mask(i % 8);
      }
      i := i + 1;
    }
    SqueezedSqueezes(trace);
  }
}
