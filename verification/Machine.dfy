/** Machine-level notions shared by the C components: bytes, raw buffer copies and
    the power-of-two rounding used by both the minimizer and the trimmer. */
module Machine {

  /** An unsigned byte, for the components that never look at single bits. */
  newtype u8 = x: int | 0 <= x < 0x100

  /** C's memcpy between two distinct buffers. */
  method MemCpy(dst: array<u8>, dstAt: nat, src: array<u8>, srcAt: nat, n: nat)
    requires dst != src
    requires dstAt + n <= dst.Length && srcAt + n <= src.Length
    modifies dst
    ensures forall i | 0 <= i < dst.Length ::
        dst[i] == if dstAt <= i < dstAt + n then src[i - dstAt + srcAt] else old(dst[i])
  {
    forall i | 0 <= i < n {
      dst[dstAt + i] := src[srcAt + i];
    }
  }

  /** C's memmove inside one buffer; the two ranges may overlap. */
  method MemMove(buf: array<u8>, dstAt: nat, srcAt: nat, n: nat)
    requires dstAt + n <= buf.Length && srcAt + n <= buf.Length
    modifies buf
    ensures forall i | 0 <= i < buf.Length ::
        buf[i] == if dstAt <= i < dstAt + n then old(buf[i - dstAt + srcAt]) else old(buf[i])
  {
    forall i | 0 <= i < n {
      buf[dstAt + i] := buf[srcAt + i];
    }
  }

  /** C's memset. */
  method MemSet(dst: array<u8>, at: nat, value: u8, n: nat)
    requires at + n <= dst.Length
    modifies dst
    ensures forall i | 0 <= i < dst.Length :: dst[i] == if at <= i < at + n then value else old(dst[i])
  {
    forall i | 0 <= i < n {
      dst[at + i] := value;
    }
  }

  /** A fuzzing stage gives up right after the first run that asks for it. */
  ghost predicate Heeds<T>(execs: seq<T>, abort: T -> bool, abandoned: bool) {
    if abandoned then execs != [] && abort(execs[|execs| - 1]) && NoAbort(execs[..|execs| - 1], abort)
    else NoAbort(execs, abort)
  }

  lemma NoAbortStep<T>(execs: seq<T>, next: T, abort: T -> bool)
    requires NoAbort(execs, abort)
    ensures if abort(next) then Heeds(execs + [next], abort, true) else NoAbort(execs + [next], abort)
  {
    assert (execs + [next])[..|execs|] == execs;
  }

  ghost predicate NoAbort<T>(execs: seq<T>, abort: T -> bool) {
    forall k | 0 <= k < |execs| :: !abort(execs[k])
  }

  lemma HeedsAppend<T>(a: seq<T>, b: seq<T>, abort: T -> bool, abandoned: bool)
    requires Heeds(a, abort, false) && Heeds(b, abort, abandoned)
    ensures Heeds(a + b, abort, abandoned)
  {
    if abandoned {
      assert (a + b)[..|a + b| - 1] == a + b[..|b| - 1];
    }
  }

  ghost predicate IsPow2(n: nat) {
    n == 1 || (n > 1 && n % 2 == 0 && IsPow2(n / 2))
  }

  /** The value next_p2's loop is heading for when its counter stands at `ret`. */
  function DoubleUpTo(val: nat, ret: nat): (r: nat)
    requires ret > 0
    ensures r > 0
    decreases val - ret
  {
    if val > ret then DoubleUpTo(val, 2 * ret) else ret
  }

  function NextP2(val: nat): (r: nat)
    ensures r > 0
  {
    DoubleUpTo(val, 1)
  }

  /** The first power of two that is not below `val`. */
  lemma {:induction false} NextP2Spec(val: nat)
    ensures IsPow2(NextP2(val)) && val <= NextP2(val)
    ensures forall p: nat | IsPow2(p) && val <= p :: NextP2(val) <= p
  {
    DoubleUpToSpec(val, 1);
  }

  ghost predicate LeastPow2(val: nat, r: nat) {
    IsPow2(r) && val <= r && forall p: nat | IsPow2(p) && val <= p :: r <= p
  }

  lemma {:induction false} DoubleUpToSpec(val: nat, ret: nat)
    requires IsPow2(ret) && (ret == 1 || ret < 2 * val)
    ensures LeastPow2(val, DoubleUpTo(val, ret))
    decreases val - ret
  {
    if val > ret {
      DoubleUpToSpec(val, 2 * ret);
    } else {
      FirstReached(val, ret);
    }
  }

  lemma FirstReached(val: nat, ret: nat)
    requires IsPow2(ret) && val <= ret && (ret == 1 || ret < 2 * val)
    ensures LeastPow2(val, ret)
  {
    forall p: nat | IsPow2(p) && val <= p
      ensures ret <= p
    {
      if p < ret {
        Pow2Gap(p, ret);
      }
    }
  }

  /** Two different powers of two are at least a factor of two apart. */
  lemma {:induction false} Pow2Gap(p: nat, q: nat)
    requires IsPow2(p) && IsPow2(q) && p < q
    ensures 2 * p <= q
  {
    if p > 1 {
      Pow2Gap(p / 2, q / 2);
    }
  }

  method NextP2Loop(val: nat) returns (ret: nat)
    ensures ret == NextP2(val)
  {
    ret := 1;
    while val > ret
      invariant ret > 0 && DoubleUpTo(val, ret) == NextP2(val)
      decreases val - ret
    {
      ret := ret * 2;
    }
  }
}
