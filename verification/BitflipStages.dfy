/** The deterministic bit-flip stages of fuzz_one in AFL/afl-fuzz.c and the 8-bit
    arithmetic stage that leaves out what they have covered already.

    Bits are numbered as FLIP_BIT numbers them, from the top of each byte.  A stage
    returns the buffers it has run, in order. */
module BitflipStages {
  import opened ArithDedup
  import opened Bits
  import opened Machine
  import opened TokenRuns

  type Buffer = seq<bv8>

  // ------------------------------------------------------------------ flipping bits

  /** 128 >> k: bits are numbered from the top of each byte. */
  function FileMask(k: nat): bv8
    requires k < 8
  {
    if k == 0 then 0x80 else if k == 1 then 0x40 else if k == 2 then 0x20 else if k == 3 then 0x10
    else if k == 4 then 0x08 else if k == 5 then 0x04 else if k == 6 then 0x02 else 0x01
  }

  /** FLIP_BIT */
  function FlipBit(s: Buffer, b: nat): (r: Buffer)
    requires b / 8 < |s|
    ensures |r| == |s|
  {
    s[b / 8 := s[b / 8] ^ FileMask(b % 8)]
  }

  /** n adjacent bits, one after the other. */
  function FlipRun(s: Buffer, b: nat, n: nat): (r: Buffer)
    requires b + n <= 8 * |s|
    ensures |r| == |s|
  {
    if n == 0 then s else FlipBit(FlipRun(s, b, n - 1), b + n - 1)
  }

  /** What n flips do to byte i. */
  function RunMask(b: nat, n: nat, i: nat): bv8 {
    if n == 0 then 0
    else if (b + n - 1) / 8 == i then RunMask(b, n - 1, i) ^ FileMask((b + n - 1) % 8)
    else RunMask(b, n - 1, i)
  }

  lemma XorAssoc(x: bv8, y: bv8, z: bv8)
    ensures (x ^ y) ^ z == x ^ (y ^ z)
    ensures x ^ 0 == x
    ensures (x ^ y) ^ y == x
  {
  }

  lemma {:induction false} FlipRunBytes(s: Buffer, b: nat, n: nat, i: nat)
    requires b + n <= 8 * |s| && i < |s|
    ensures FlipRun(s, b, n)[i] == s[i] ^ RunMask(b, n, i)
  {
    if n == 0 {
      XorAssoc(s[i], 0, 0);
    } else {
      FlipRunBytes(s, b, n - 1, i);
      if (b + n - 1) / 8 == i {
        XorAssoc(s[i], RunMask(b, n - 1, i), FileMask((b + n - 1) % 8));
      }
    }
  }

  /** Flipping the same bits again restores the buffer. */
  lemma {:induction false} FlipTwice(s: Buffer, b: nat, n: nat)
    requires b + n <= 8 * |s|
    ensures FlipRun(FlipRun(s, b, n), b, n) == s
  {
    var t := FlipRun(s, b, n);
    forall i | 0 <= i < |s|
      ensures FlipRun(t, b, n)[i] == s[i]
    {
      FlipRunBytes(s, b, n, i);
      FlipRunBytes(t, b, n, i);
      XorAssoc(s[i], RunMask(b, n, i), 0);
    }
  }

  method FlipBitInPlace(buf: array<bv8>, b: nat)
    requires b / 8 < buf.Length
    modifies buf
    ensures buf[..] == FlipBit(old(buf[..]), b)
  {
    buf[b / 8] := buf[b / 8] ^ FileMask(b % 8);
  }

  method FlipInPlace(buf: array<bv8>, b: nat, n: nat)
    requires b + n <= 8 * buf.Length
    modifies buf
    ensures buf[..] == FlipRun(old(buf[..]), b, n)
  {
    ghost var s := buf[..];
    var k := 0;
    while k < n
      invariant k <= n && buf[..] == FlipRun(s, b, k)
    {
      FlipBitInPlace(buf, b + k);
      k := k + 1;
    }
  }

  /** Run b of a walking-bits stage flips the n bits from b on. */
  function Walk(s: Buffer, n: nat, runs: nat): (execs: seq<Buffer>)
    requires runs + n <= 8 * |s| + 1
    ensures |execs| == runs
  {
    seq(runs, b requires 0 <= b < runs => FlipRun(s, b, n))
  }

  ghost predicate Walked(execs: seq<Buffer>, s: Buffer, n: nat) {
    |execs| + n <= 8 * |s| + 1 && execs == Walk(s, n, |execs|)
  }

  lemma WalkedStep(execs: seq<Buffer>, s: Buffer, n: nat, next: Buffer)
    requires Walked(execs, s, n) && |execs| + n <= 8 * |s| && next == FlipRun(s, |execs|, n)
    ensures Walked(execs + [next], s, n)
  {
    forall b | 0 <= b < |execs| + 1
      ensures (execs + [next])[b] == Walk(s, n, |execs| + 1)[b]
    {
      assert b < |execs| ==> execs[b] == Walk(s, n, |execs|)[b];
    }
  }

  /** Flip n bits and run the buffer: stop says whether that asks for the end. */
  method FlipAndRun(outBuf: array<bv8>, n: nat, execs: seq<Buffer>, abort: Buffer -> bool, ghost s: Buffer)
      returns (buf: Buffer, execs': seq<Buffer>, stop: bool)
    requires outBuf[..] == s && Walked(execs, s, n) && |execs| + n <= 8 * |s| && NoAbort(execs, abort)
    modifies outBuf
    ensures outBuf[..] == buf == FlipRun(s, |execs|, n)
    ensures execs' == execs + [buf] && Walked(execs', s, n)
    ensures if stop then Heeds(execs', abort, true) else NoAbort(execs', abort)
  {
    FlipInPlace(outBuf, |execs|, n);
    buf := outBuf[..];
    WalkedStep(execs, s, n, buf);
    NoAbortStep(execs, buf, abort);
    execs', stop := execs + [buf], abort(buf);
  }

  /** Flipping the bits back. */
  method FlipBack(outBuf: array<bv8>, b: nat, n: nat, ghost s: Buffer)
    requires b + n <= 8 * |s| && outBuf[..] == FlipRun(s, b, n)
    modifies outBuf
    ensures outBuf[..] == s
  {
    FlipInPlace(outBuf, b, n);
    FlipTwice(s, b, n);
  }

  /** Walking bits: the stages with 2 and 4 adjacent bits.  execs records the buffers
      run, in order; a run can ask for the entry to be abandoned. */
  method WalkBits(outBuf: array<bv8>, width: nat, abort: Buffer -> bool) returns (execs: seq<Buffer>, abandoned: bool)
    requires 0 < width <= 8 && outBuf.Length > 0
    modifies outBuf
    ensures Walked(execs, old(outBuf[..]), width) && Heeds(execs, abort, abandoned)
    ensures !abandoned ==> outBuf[..] == old(outBuf[..]) && |execs| == 8 * outBuf.Length - (width - 1)
  {
    ghost var s := outBuf[..];
    var stageMax := 8 * outBuf.Length - (width - 1);
    execs, abandoned := [], false;
    var stageCur := 0;
    while stageCur < stageMax
      invariant stageCur <= stageMax && |execs| == stageCur && outBuf[..] == s
      invariant Walked(execs, s, width) && NoAbort(execs, abort)
    {
      var buf, stop;
      buf, execs, stop := FlipAndRun(outBuf, width, execs, abort, s);
      if stop {
        return execs, true;
      }
      FlipBack(outBuf, stageCur, width, s);
      stageCur := stageCur + 1;
    }
  }

  // ------------------------------------------------------- the first stage's tokens

  /** The checksums of the runs that flip the lowest bit of each byte. */
  function Sums(s: Buffer, cksum: Buffer -> nat): (r: seq<nat>)
    ensures |r| == |s|
  {
    seq(|s|, i requires 0 <= i < |s| => cksum(FlipRun(s, 8 * i + 7, 1)))
  }

  function TokensOf(s: Buffer, cksum: Buffer -> nat, exec: nat): seq<Buffer> {
    Tokens(s, Sums(s, cksum), exec, |s|)
  }

  /** What the search for tokens has come to when n bits have been walked. */
  ghost predicate Searched(c: Collector, dumb: bool, s: Buffer, cksum: Buffer -> nat, n: nat)
    reads c, c.aCollect
  {
    if dumb then c.tokens == [] else c.Through(s, Sums(s, cksum), n / 8)
  }

  /** After each bit, unless in dumb mode; only the lowest one of a byte counts. */
  method CollectBit(c: Collector, dumb: bool, stageCur: nat, byte: bv8, sum: nat, stageMax: nat,
                    ghost s: Buffer, ghost cksum: Buffer -> nat)
    requires Searched(c, dumb, s, cksum, stageCur) && stageCur < stageMax == 8 * |s|
    requires byte == s[stageCur / 8] && sum == cksum(FlipRun(s, stageCur, 1))
    modifies c`aLen, c`prevCksum, c`tokens, c.aCollect
    ensures Searched(c, dumb, s, cksum, stageCur + 1)
  {
    ByteOfBit(stageCur, |s|);
    if !dumb && stageCur % 8 == 7 {
      SumAt(s, cksum, stageCur);
      c.Next(stageCur / 8, byte, sum, stageCur == stageMax - 1, s, Sums(s, cksum));
    }
  }

  lemma ByteOfBit(n: nat, len: nat)
    requires n < 8 * len
    ensures n / 8 < len && (n + 1) / 8 == if n % 8 == 7 then n / 8 + 1 else n / 8
    ensures n % 8 == 7 ==> (n == 8 * len - 1 <==> n / 8 == len - 1)
  {
  }

  /** The second half of a round: the bit is flipped back, and unless in dumb mode the
      collector learns the checksum of the run. */
  method EndRound(outBuf: array<bv8>, stageCur: nat, c: Collector, dumb: bool, sum: nat,
                  ghost s: Buffer, ghost cksum: Buffer -> nat)
    requires outBuf != c.aCollect && stageCur < 8 * |s| && outBuf[..] == FlipRun(s, stageCur, 1)
    requires sum == cksum(FlipRun(s, stageCur, 1)) && Searched(c, dumb, s, cksum, stageCur)
    modifies outBuf, c`aLen, c`prevCksum, c`tokens, c.aCollect
    ensures outBuf[..] == s && Searched(c, dumb, s, cksum, stageCur + 1)
  {
    FlipBack(outBuf, stageCur, 1, s);
    CollectBit(c, dumb, stageCur, outBuf[stageCur / 8], sum, 8 * outBuf.Length, s, cksum);
  }

  /** One round. */
  method Round(outBuf: array<bv8>, stageCur: nat, execs: seq<Buffer>, abort: Buffer -> bool, c: Collector, dumb: bool,
               cksum: Buffer -> nat, ghost s: Buffer)
      returns (execs': seq<Buffer>, stop: bool)
    requires outBuf != c.aCollect && outBuf[..] == s && |execs| == stageCur < 8 * |s|
    requires Walked(execs, s, 1) && NoAbort(execs, abort) && Searched(c, dumb, s, cksum, stageCur)
    modifies outBuf, c`aLen, c`prevCksum, c`tokens, c.aCollect
    ensures Walked(execs', s, 1) && |execs'| == stageCur + 1
    ensures if stop then Heeds(execs', abort, true) else NoAbort(execs', abort)
    ensures !stop ==> outBuf[..] == s && Searched(c, dumb, s, cksum, stageCur + 1)
  {
    var buf;
    buf, execs', stop := FlipAndRun(outBuf, 1, execs, abort, s);
    if !stop {
      EndRound(outBuf, stageCur, c, dumb, cksum(buf), s, cksum);
    }
  }

  /** The loop of the one-bit stage. */
  method WalkRounds(outBuf: array<bv8>, abort: Buffer -> bool, c: Collector, dumb: bool, cksum: Buffer -> nat)
      returns (execs: seq<Buffer>, abandoned: bool)
    requires outBuf != c.aCollect && outBuf.Length > 0 && Searched(c, dumb, outBuf[..], cksum, 0)
    modifies outBuf, c`aLen, c`prevCksum, c`tokens, c.aCollect
    ensures Walked(execs, old(outBuf[..]), 1) && Heeds(execs, abort, abandoned)
    ensures !abandoned ==> outBuf[..] == old(outBuf[..]) && |execs| == 8 * outBuf.Length
    ensures !abandoned ==> Searched(c, dumb, outBuf[..], cksum, 8 * outBuf.Length)
  {
    ghost var s := outBuf[..];
    var stageMax := 8 * outBuf.Length;
    execs, abandoned := [], false;
    var stageCur := 0;
    while stageCur < stageMax
      invariant stageCur <= stageMax && |execs| == stageCur && outBuf[..] == s
      invariant Walked(execs, s, 1) && NoAbort(execs, abort) && Searched(c, dumb, s, cksum, stageCur)
    {
      execs, abandoned := Round(outBuf, stageCur, execs, abort, c, dumb, cksum, s);
      if abandoned {
        return;
      }
      stageCur := stageCur + 1;
    }
  }

  /** One walking bit, with the search for tokens: besides the runs it gives those
      stretches of bytes that change the path alike. */
  method WalkSingleBits(outBuf: array<bv8>, abort: Buffer -> bool, dumb: bool, cksum: Buffer -> nat, execCksum: nat)
      returns (execs: seq<Buffer>, abandoned: bool, tokens: seq<Buffer>)
    requires outBuf.Length > 0
    modifies outBuf
    ensures Walked(execs, old(outBuf[..]), 1) && Heeds(execs, abort, abandoned)
    ensures !abandoned ==> outBuf[..] == old(outBuf[..]) && |execs| == 8 * outBuf.Length
    ensures !abandoned ==> tokens == if dumb then [] else TokensOf(outBuf[..], cksum, execCksum)
  {
    var c := new Collector(execCksum);
    c.AtStart(outBuf[..], Sums(outBuf[..], cksum));
    execs, abandoned := WalkRounds(outBuf, abort, c, dumb, cksum);
    tokens := c.tokens;
  }

  lemma SumAt(s: Buffer, cksum: Buffer -> nat, b: nat)
    requires b < 8 * |s|
    ensures b % 8 == 7 ==> Sums(s, cksum)[b / 8] == cksum(FlipRun(s, b, 1))
  {
    assert b % 8 == 7 ==> 8 * (b / 8) + 7 == b;
  }

  function FlipByte(s: Buffer, i: nat): (r: Buffer)
    requires i < |s|
    ensures |r| == |s|
  {
    s[i := s[i] ^ 0xff]
  }

  lemma FlipByteTwice(s: Buffer, i: nat)
    requires i < |s|
    ensures FlipByte(FlipByte(s, i), i) == s
  {
    XorAssoc(s[i], 0xff, 0);
  }

  method FlipByteInPlace(buf: array<bv8>, i: nat)
    requires i < buf.Length
    modifies buf
    ensures buf[..] == FlipByte(old(buf[..]), i)
  {
    buf[i] := buf[i] ^ 0xff;
  }

  // ------------------------------------------------- walking bytes, effector map

  const EFF_MIN_LEN: nat := 128
  const EFF_MAX_PERC: nat := 90

  /** EFF_ALEN: one flag for eight bytes. */
  function EffLen(len: nat): nat {
    (len + 7) / 8
  }

  /** A block is worth further work if it is the first or the last one or holds a byte
      whose full flip, among the first n tried, was seen to matter. */
  ghost predicate Effective(s: Buffer, matters: Buffer -> bool, n: nat, p: nat)
    requires n <= |s|
  {
    p == 0 || p == (|s| - 1) / 8 || HoldsEffector(s, matters, n, p)
  }

  ghost predicate HoldsEffector(s: Buffer, matters: Buffer -> bool, n: nat, p: nat)
    requires n <= |s|
  {
    exists i | 0 <= i < n :: i / 8 == p && matters(FlipByte(s, i))
  }

  ghost predicate Flags(eff: seq<bool>, s: Buffer, matters: Buffer -> bool, n: nat) {
    n <= |s| && |eff| == EffLen(|s|) && forall p | 0 <= p < |eff| :: eff[p] <==> Effective(s, matters, n, p)
  }

  lemma FlagsStep(eff: seq<bool>, eff': seq<bool>, s: Buffer, matters: Buffer -> bool, n: nat)
    requires n < |s| && Flags(eff, s, matters, n)
    requires eff' == eff[n / 8 := eff[n / 8] || matters(FlipByte(s, n))]
    ensures Flags(eff', s, matters, n + 1)
  {
    forall p | 0 <= p < |eff'|
      ensures eff'[p] <==> Effective(s, matters, n + 1, p)
    {
      assert HoldsEffector(s, matters, n + 1, p) <==>
          HoldsEffector(s, matters, n, p) || (n / 8 == p && matters(FlipByte(s, n)));
    }
  }

  method StartEff(len: nat) returns (eff: seq<bool>, effCnt: nat)
    requires len > 0
    ensures |eff| == EffLen(len) && forall p | 0 <= p < |eff| :: eff[p] <==> p == 0 || p == (len - 1) / 8
    ensures effCnt == Count(eff, Flagged)
  {
    var none := seq(EffLen(len), _ => false);
    NoneFlagged(EffLen(len));
    eff, effCnt := none[0 := true], 1;
    CountUpdate(none, 0, true, Flagged);
    var last := (len - 1) / 8;
    if last != 0 {
      CountUpdate(eff, last, true, Flagged);
      eff, effCnt := eff[last := true], effCnt + 1;
    }
  }

  predicate Flagged(b: bool) { b }

  lemma {:induction false} NoneFlagged(n: nat)
    ensures Count(seq(n, _ => false), Flagged) == 0
  {
    if n > 0 {
      NoneFlagged(n - 1);
      assert seq(n, _ => false)[..n - 1] == seq(n - 1, _ => false);
    }
  }

  /** The walking-byte stage, which also draws up the effector map: it holds a flag for
      exactly the effective blocks, or for all of them when more than 90 percent are. */
  method WalkBytes(outBuf: array<bv8>, abort: Buffer -> bool, dumb: bool, pathChanges: Buffer -> bool)
      returns (execs: seq<Buffer>, abandoned: bool, eff: seq<bool>)
    requires outBuf.Length > 0
    modifies outBuf
    ensures |execs| <= outBuf.Length
    ensures forall i | 0 <= i < |execs| :: execs[i] == FlipByte(old(outBuf[..]), i)
    ensures Heeds(execs, abort, abandoned)
    ensures !abandoned ==> outBuf[..] == old(outBuf[..]) && |execs| == outBuf.Length
    ensures !abandoned ==>
        var matters := (b: Buffer) => dumb || |b| < 128 || pathChanges(b);
        exists flags: seq<bool> :: Flags(flags, old(outBuf[..]), matters, outBuf.Length) &&
            eff == if Count(flags, Flagged) * 100 / |flags| > 90 then seq(|flags|, _ => true) else flags
  {
    ghost var s := outBuf[..];
    var matters := (b: Buffer) => dumb || |b| < EFF_MIN_LEN || pathChanges(b);
    var effCnt;
    eff, effCnt := StartEff(outBuf.Length);
    execs, abandoned := [], false;
    var stageCur := 0;
    while stageCur < outBuf.Length
      invariant stageCur <= outBuf.Length && |execs| == stageCur && outBuf[..] == s
      invariant forall i | 0 <= i < |execs| :: execs[i] == FlipByte(s, i)
      invariant NoAbort(execs, abort)
      invariant Flags(eff, s, matters, stageCur) && effCnt == Count(eff, Flagged)
    {
      FlipByteInPlace(outBuf, stageCur);
      execs := execs + [outBuf[..]];
      if abort(outBuf[..]) {
        return execs, true, eff;
      }
      eff, effCnt := FlagByte(s, eff, effCnt, matters, stageCur, matters(outBuf[..]));
      FlipByteInPlace(outBuf, stageCur);
      FlipByteTwice(s, stageCur);
      stageCur := stageCur + 1;
    }
    ghost var flags := eff;
    eff := Densify(eff, effCnt);
    assert Flags(flags, s, matters, outBuf.Length);
  }

  method FlagByte(ghost s: Buffer, eff: seq<bool>, effCnt: nat, ghost matters: Buffer -> bool, at: nat, changed: bool)
      returns (eff': seq<bool>, effCnt': nat)
    requires at < |s| && Flags(eff, s, matters, at) && effCnt == Count(eff, Flagged)
    requires changed == matters(FlipByte(s, at))
    ensures Flags(eff', s, matters, at + 1) && effCnt' == Count(eff', Flagged)
  {
    eff', effCnt' := eff, effCnt;
    if !eff[at / 8] && changed {
      eff', effCnt' := eff[at / 8 := true], effCnt + 1;
      CountUpdate(eff, at / 8, true, Flagged);
    }
    FlagsStep(eff, eff', s, matters, at);
  }

  method Densify(eff: seq<bool>, effCnt: nat) returns (eff': seq<bool>)
    requires |eff| > 0 && effCnt == Count(eff, Flagged)
    ensures eff' == if Count(eff, Flagged) * 100 / |eff| > 90 then seq(|eff|, _ => true) else eff
  {
    eff' := eff;
    if effCnt != |eff| && effCnt * 100 / |eff| > EFF_MAX_PERC {
      eff' := seq(|eff|, _ => true);
    } else if effCnt == |eff| {
      AllFlagged(eff);
    }
  }

  lemma {:induction false} CountAtMost(eff: seq<bool>)
    ensures Count(eff, Flagged) <= |eff|
  {
    if eff != [] {
      CountAtMost(eff[..|eff| - 1]);
    }
  }

  lemma {:induction false} AllFlagged(eff: seq<bool>)
    requires Count(eff, Flagged) == |eff|
    ensures eff == seq(|eff|, _ => true)
  {
    if eff != [] {
      var front := eff[..|eff| - 1];
      CountAtMost(front);
      AllFlagged(front);
      assert eff == front + [eff[|eff| - 1]];
    }
  }

  // ------------------------------------------------------ 8-bit additions and flips

  // What the patterns of could_be_bitflip look like when they fit in one byte.

  lemma OneBit(r: bv8, s: bv32)
    requires RunAt(r as bv32, 1, s)
    ensures r == 0x1 || r == 0x2 || r == 0x4 || r == 0x8 || r == 0x10 || r == 0x20 || r == 0x40 || r == 0x80
  {
  }

  lemma TwoBits(r: bv8, s: bv32)
    requires RunAt(r as bv32, 3, s)
    ensures r == 0x3 || r == 0x6 || r == 0xc || r == 0x18 || r == 0x30 || r == 0x60 || r == 0xc0
  {
  }

  lemma FourBits(r: bv8, s: bv32)
    requires RunAt(r as bv32, 15, s)
    ensures r == 0xf || r == 0x1e || r == 0x3c || r == 0x78 || r == 0xf0
  {
  }

  lemma EightBits(r: bv8, s: bv32)
    requires RunAt(r as bv32, 0xff, s) || RunAt(r as bv32, 0xffff, s) || RunAt(r as bv32, 0xffffffff, s)
    ensures r == 0xff
  {
  }

  ghost predicate InByteRun(r: bv8, c: nat, n: nat) {
    c + n <= 8 && RunMask(c, n, 0) == r
  }

  lemma OneBitRuns(r: bv8)
    requires r == 0x1 || r == 0x2 || r == 0x4 || r == 0x8 || r == 0x10 || r == 0x20 || r == 0x40 || r == 0x80
    ensures exists c: nat :: InByteRun(r, c, 1)
  {
    assert RunMask(7, 1, 0) == 0x1;
    assert RunMask(6, 1, 0) == 0x2;
    assert RunMask(5, 1, 0) == 0x4;
    assert RunMask(4, 1, 0) == 0x8;
    assert RunMask(3, 1, 0) == 0x10;
    assert RunMask(2, 1, 0) == 0x20;
    assert RunMask(1, 1, 0) == 0x40;
    assert RunMask(0, 1, 0) == 0x80;
    assert InByteRun(r, 7, 1) || InByteRun(r, 6, 1) || InByteRun(r, 5, 1) || InByteRun(r, 4, 1) ||
           InByteRun(r, 3, 1) || InByteRun(r, 2, 1) || InByteRun(r, 1, 1) || InByteRun(r, 0, 1);
  }

  lemma TwoBitRuns(r: bv8)
    requires r == 0x3 || r == 0x6 || r == 0xc || r == 0x18 || r == 0x30 || r == 0x60 || r == 0xc0
    ensures exists c: nat :: InByteRun(r, c, 2)
  {
    assert RunMask(6, 2, 0) == 0x3;
    assert RunMask(5, 2, 0) == 0x6;
    assert RunMask(4, 2, 0) == 0xc;
    assert RunMask(3, 2, 0) == 0x18;
    assert RunMask(2, 2, 0) == 0x30;
    assert RunMask(1, 2, 0) == 0x60;
    assert RunMask(0, 2, 0) == 0xc0;
    assert InByteRun(r, 6, 2) || InByteRun(r, 5, 2) || InByteRun(r, 4, 2) || InByteRun(r, 3, 2) ||
           InByteRun(r, 2, 2) || InByteRun(r, 1, 2) || InByteRun(r, 0, 2);
  }

  lemma FourBitRuns(r: bv8)
    requires r == 0xf || r == 0x1e || r == 0x3c || r == 0x78 || r == 0xf0
    ensures exists c: nat :: InByteRun(r, c, 4)
  {
    assert RunMask(4, 4, 0) == 0xf;
    assert RunMask(3, 4, 0) == 0x1e;
    assert RunMask(2, 4, 0) == 0x3c;
    assert RunMask(1, 4, 0) == 0x78;
    assert RunMask(0, 4, 0) == 0xf0;
    assert InByteRun(r, 4, 4) || InByteRun(r, 3, 4) || InByteRun(r, 2, 4) || InByteRun(r, 1, 4) || InByteRun(r, 0, 4);
  }

  /** A byte-sized bit-flip pattern is a run of 1, 2 or 4 bits inside the byte, or all of it. */
  lemma ByteFlipPatterns(r: bv8)
    requires r != 0 && IsBitflip(r as bv32)
    ensures r == 0xff || exists c: nat, n: nat :: (n == 1 || n == 2 || n == 4) && InByteRun(r, c, n)
  {
    var s: bv32 :| FlipPattern(r as bv32, s);
    if RunAt(r as bv32, 1, s) {
      OneBit(r, s);
      OneBitRuns(r);
    } else if RunAt(r as bv32, 3, s) {
      TwoBits(r, s);
      TwoBitRuns(r);
    } else if RunAt(r as bv32, 15, s) {
      FourBits(r, s);
      FourBitRuns(r);
    } else {
      EightBits(r, s);
    }
  }

  lemma {:induction false} RunMaskInByte(i: nat, c: nat, n: nat, k: nat)
    requires c + n <= 8
    ensures RunMask(8 * i + c, n, k) == if k == i then RunMask(c, n, 0) else 0
  {
    if n > 0 {
      RunMaskInByte(i, c, n - 1, k);
      assert (8 * i + c + n - 1) / 8 == i && (8 * i + c + n - 1) % 8 == (c + n - 1) % 8 && (c + n - 1) / 8 == 0;
    }
  }

  lemma OtherByte(s: Buffer, b: nat, n: nat, k: nat)
    requires b + n <= 8 * |s| && k < |s| && RunMask(b, n, k) == 0
    ensures FlipRun(s, b, n)[k] == s[k]
  {
    FlipRunBytes(s, b, n, k);
    XorAssoc(s[k], 0, 0);
  }

  lemma ThisByte(s: Buffer, b: nat, n: nat, k: nat, r: bv8, y: bv8)
    requires b + n <= 8 * |s| && k < |s| && RunMask(b, n, k) == r && s[k] ^ r == y
    ensures FlipRun(s, b, n)[k] == y
  {
    FlipRunBytes(s, b, n, k);
  }

  lemma RunInByte(s: Buffer, i: nat, c: nat, n: nat, r: bv8, y: bv8, k: nat)
    requires i < |s| && InByteRun(r, c, n) && s[i] ^ r == y && k < |s|
    ensures FlipRun(s, 8 * i + c, n)[k] == s[i := y][k]
  {
    RunMaskInByte(i, c, n, k);
    if k == i {
      ThisByte(s, 8 * i + c, n, k, r, y);
    } else {
      OtherByte(s, 8 * i + c, n, k);
    }
  }

  /** Changing one byte by a run inside it is what the walking-bits stage does there. */
  lemma RunCovers(s: Buffer, i: nat, c: nat, n: nat, r: bv8, y: bv8)
    requires i < |s| && InByteRun(r, c, n) && s[i] ^ r == y
    ensures WalkedAt(s[i := y], s, 8 * i + c, n)
  {
    var l, t := FlipRun(s, 8 * i + c, n), s[i := y];
    forall k | 0 <= k < |s|
      ensures l[k] == t[k]
    {
      RunInByte(s, i, c, n, r, y, k);
    }
  }

  ghost predicate WalkedAt(c: Buffer, s: Buffer, b: nat, n: nat) {
    b + n <= 8 * |s| && c == FlipRun(s, b, n)
  }

  /** c is what one of the four byte-sized flip stages executes on s. */
  ghost predicate FlippedAlready(c: Buffer, s: Buffer) {
    RunFlipped(c, s) || exists i: nat :: i < |s| && c == FlipByte(s, i)
  }

  ghost predicate RunFlipped(c: Buffer, s: Buffer) {
    exists b: nat, n: nat :: (n == 1 || n == 2 || n == 4) && WalkedAt(c, s, b, n)
  }

  /** Such a change to a byte was executed by a flip stage. */
  lemma BitflipWasFlipped(s: Buffer, i: nat, r: bv8, y: bv8)
    requires i < |s| && r != 0 && IsBitflip(r as bv32) && s[i] ^ r == y
    ensures FlippedAlready(s[i := y], s)
  {
    ByteFlipPatterns(r);
    if r == 0xff {
      assert s[i := y] == FlipByte(s, i);
    } else {
      var c: nat, n: nat :| (n == 1 || n == 2 || n == 4) && InByteRun(r, c, n);
      RunCovers(s, i, c, n, r, y);
    }
  }

  // The other direction: no flip stage makes a change that could_be_bitflip lets through.

  lemma {:induction false} RunMaskShift(i: nat, c: nat, n: nat, d: nat)
    ensures RunMask(8 * i + c, n, i + d) == RunMask(c, n, d)
  {
    if n > 0 {
      RunMaskShift(i, c, n - 1, d);
      assert (8 * i + c + n - 1) / 8 == i + (c + n - 1) / 8 && (8 * i + c + n - 1) % 8 == (c + n - 1) % 8;
    }
  }

  lemma OneBitPattern(c: nat)
    requires c < 8
    ensures RunMask(c, 1, 0) != 0 && IsBitflip(RunMask(c, 1, 0) as bv32)
  {
    assert RunMask(0, 1, 0) == 0x80 && FlipPattern(0x80, 7);
    assert RunMask(1, 1, 0) == 0x40 && FlipPattern(0x40, 6);
    assert RunMask(2, 1, 0) == 0x20 && FlipPattern(0x20, 5);
    assert RunMask(3, 1, 0) == 0x10 && FlipPattern(0x10, 4);
    assert RunMask(4, 1, 0) == 0x08 && FlipPattern(0x08, 3);
    assert RunMask(5, 1, 0) == 0x04 && FlipPattern(0x04, 2);
    assert RunMask(6, 1, 0) == 0x02 && FlipPattern(0x02, 1);
    assert RunMask(7, 1, 0) == 0x01 && FlipPattern(0x01, 0);
  }

  lemma KnownPattern(x: bv8, s: bv32)
    requires FlipPattern(x as bv32, s)
    ensures IsBitflip(x as bv32)
  {
  }

  lemma TwoBitPattern(c: nat)
    requires c < 8
    ensures RunMask(c, 2, 0) != 0
    ensures if c < 7 then IsBitflip(RunMask(c, 2, 0) as bv32) else RunMask(c, 2, 1) != 0
  {
    if c == 0 {
      assert RunMask(0, 2, 0) == 0xc0;
      KnownPattern(0xc0, 6);
    } else if c == 1 {
      assert RunMask(1, 2, 0) == 0x60;
      KnownPattern(0x60, 5);
    } else if c == 2 {
      assert RunMask(2, 2, 0) == 0x30;
      KnownPattern(0x30, 4);
    } else if c == 3 {
      assert RunMask(3, 2, 0) == 0x18;
      KnownPattern(0x18, 3);
    } else if c == 4 {
      assert RunMask(4, 2, 0) == 0x0c;
      KnownPattern(0x0c, 2);
    } else if c == 5 {
      assert RunMask(5, 2, 0) == 0x06;
      KnownPattern(0x06, 1);
    } else if c == 6 {
      assert RunMask(6, 2, 0) == 0x03;
      KnownPattern(0x03, 0);
    } else {
      assert RunMask(7, 2, 0) == 0x01 && RunMask(7, 2, 1) == 0x80;
    }
  }

  lemma FourBitPattern(c: nat)
    requires c < 8
    ensures RunMask(c, 4, 0) != 0
    ensures if c < 5 then IsBitflip(RunMask(c, 4, 0) as bv32) else RunMask(c, 4, 1) != 0
  {
    if c == 0 {
      assert RunMask(0, 4, 0) == 0xf0;
      KnownPattern(0xf0, 4);
    } else if c == 1 {
      assert RunMask(1, 4, 0) == 0x78;
      KnownPattern(0x78, 3);
    } else if c == 2 {
      assert RunMask(2, 4, 0) == 0x3c;
      KnownPattern(0x3c, 2);
    } else if c == 3 {
      assert RunMask(3, 4, 0) == 0x1e;
      KnownPattern(0x1e, 1);
    } else if c == 4 {
      assert RunMask(4, 4, 0) == 0x0f;
      KnownPattern(0x0f, 0);
    } else if c == 5 {
      assert RunMask(5, 4, 0) == 0x07 && RunMask(5, 4, 1) == 0x80;
    } else if c == 6 {
      assert RunMask(6, 4, 0) == 0x03 && RunMask(6, 4, 1) == 0xc0;
    } else {
      assert RunMask(7, 4, 0) == 0x01 && RunMask(7, 4, 1) == 0xe0;
    }
  }

  lemma ShortRunPattern(c: nat, n: nat)
    requires c < 8 && (n == 1 || n == 2 || n == 4)
    ensures RunMask(c, n, 0) != 0
    ensures if c + n <= 8 then IsBitflip(RunMask(c, n, 0) as bv32) else RunMask(c, n, 1) != 0
  {
    if n == 1 {
      OneBitPattern(c);
    } else if n == 2 {
      TwoBitPattern(c);
    } else {
      FourBitPattern(c);
    }
  }

  /** A run of flips changes the byte it starts in, and if it changes no other then the
      change is one that could_be_bitflip recognises. */
  lemma RunPattern(b: nat, n: nat)
    requires n == 1 || n == 2 || n == 4
    ensures RunMask(b, n, b / 8) != 0
    ensures if b % 8 + n <= 8 then IsBitflip(RunMask(b, n, b / 8) as bv32) else RunMask(b, n, b / 8 + 1) != 0
  {
    var q, c := b / 8, b % 8;
    RunMaskShift(q, c, n, 0);
    RunMaskShift(q, c, n, 1);
    ShortRunPattern(c, n);
  }

  lemma XorInjective(x: bv8, y: bv8, z: bv8)
    requires x ^ y == x ^ z
    ensures y == z
  {
  }

  lemma XorMoves(x: bv8, y: bv8)
    requires y != 0
    ensures x ^ y != x
  {
  }

  lemma MaskMoves(s: Buffer, b: nat, n: nat, k: nat, l: Buffer)
    requires k < |s| && WalkedAt(l, s, b, n) && RunMask(b, n, k) != 0
    ensures l[k] != s[k]
  {
    FlipRunBytes(s, b, n, k);
    XorMoves(s[k], RunMask(b, n, k));
  }

  lemma MaskAt(s: Buffer, b: nat, n: nat, k: nat, l: Buffer, m: bv8, x: bv8)
    requires k < |s| && WalkedAt(l, s, b, n) && m == RunMask(b, n, k) && x == s[k]
    ensures l[k] == x ^ m
  {
    FlipRunBytes(s, b, n, k);
  }

  lemma MaskIs(s: Buffer, b: nat, n: nat, k: nat, x: bv8, r: bv8, y: bv8)
    requires k < |s| && WalkedAt(s[k := y], s, b, n) && s[k] == x && x ^ r == y
    ensures r == RunMask(b, n, k)
  {
    var m := RunMask(b, n, k);
    MaskAt(s, b, n, k, s[k := y], m, x);
    XorInjective(x, m, r);
  }

  /** A run that changes one byte only lies in that byte. */
  lemma RunChangesOneByte(s: Buffer, b: nat, n: nat, i: nat, y: bv8)
    requires n == 1 || n == 2 || n == 4
    requires i < |s| && WalkedAt(s[i := y], s, b, n)
    ensures i == b / 8 && IsBitflip(RunMask(b, n, i) as bv32)
  {
    var q, l := b / 8, s[i := y];
    RunPattern(b, n);
    MaskMoves(s, b, n, q, l);
    if b % 8 + n > 8 {
      MaskMoves(s, b, n, q + 1, l);
    }
  }

  lemma RunIsBitflip(s: Buffer, i: nat, x: bv8, r: bv8, y: bv8)
    requires i < |s| && s[i] == x && x ^ r == y && RunFlipped(s[i := y], s)
    ensures IsBitflip(r as bv32)
  {
    var b: nat, n: nat :| (n == 1 || n == 2 || n == 4) && WalkedAt(s[i := y], s, b, n);
    RunChangesOneByte(s, b, n, i, y);
    MaskIs(s, b, n, i, x, r, y);
  }

  lemma FlippedIsBitflip(s: Buffer, i: nat, r: bv8, y: bv8)
    requires i < |s| && r != 0 && s[i] ^ r == y && FlippedAlready(s[i := y], s)
    ensures IsBitflip(r as bv32)
  {
    if RunFlipped(s[i := y], s) {
      RunIsBitflip(s, i, s[i], r, y);
    } else {
      var k: nat :| k < |s| && s[i := y] == FlipByte(s, k);
      FullFlipOf(s, i, r, y, k);
      assert FlipPattern(0xff, 0);
    }
  }

  lemma FullFlipOf(s: Buffer, i: nat, r: bv8, y: bv8, k: nat)
    requires i < |s| && k < |s| && r != 0 && s[i] ^ r == y && s[i := y] == FlipByte(s, k)
    ensures r == 0xff
  {
    XorMoves(s[i], r);
    assert s[i := y][i] == FlipByte(s, k)[i];
    XorInjective(s[i], r, 0xff);
  }

  /** could_be_bitflip draws the line exactly between the candidates of the 8-bit
      arithmetic stage that the flip stages execute and those they do not. */
  lemma SkippedExactly(s: Buffer, i: nat, r: bv8, y: bv8)
    requires i < |s| && r != 0 && s[i] ^ r == y
    ensures IsBitflip(r as bv32) <==> FlippedAlready(s[i := y], s)
  {
    if IsBitflip(r as bv32) {
      BitflipWasFlipped(s, i, r, y);
    }
    if FlippedAlready(s[i := y], s) {
      FlippedIsBitflip(s, i, r, y);
    }
  }

  // ------------------------------------------------------- the arithmetic stage

  const ARITH_STEPS: bv8 := 35

  /** y is x plus or minus j, wrapping around. */
  predicate Nudged(x: bv8, j: bv8, y: bv8) {
    1 <= j <= ARITH_STEPS && (y == x + j || y == x - j)
  }

  lemma NudgeChanges(x: bv8, j: bv8, y: bv8)
    requires Nudged(x, j, y)
    ensures x ^ y != 0 && x ^ (x ^ y) == y
  {
  }

  /** b is s, but for byte i. */
  ghost predicate Only(b: Buffer, s: Buffer, i: nat) {
    |b| == |s| && forall k | 0 <= k < |s| && k != i :: b[k] == s[k]
  }

  /** Nothing is lost: every nudge of byte i by less than j is among the runs or was
      executed by a flip stage. */
  ghost predicate Settled(execs: seq<Buffer>, s: Buffer, i: nat, j: bv8)
    requires i < |s|
  {
    forall h, y | h < j && Nudged(s[i], h, y) :: s[i := y] in execs || FlippedAlready(s[i := y], s)
  }

  /** Nothing is repeated: c nudges byte i in a way no flip stage does. */
  ghost predicate NewNudge(c: Buffer, s: Buffer, i: nat) {
    !FlippedAlready(c, s) && i < |s| && exists j, y :: Nudged(s[i], j, y) && c == s[i := y]
  }

  /** One candidate: run it unless it could be a bit flip. */
  method TryNudge(outBuf: array<bv8>, ghost s: Buffer, i: nat, orig: bv8, j: bv8, y: bv8, abort: Buffer -> bool)
      returns (ran: seq<Buffer>, abandoned: bool)
    requires i < outBuf.Length && Only(outBuf[..], s, i) && s[i] == orig && Nudged(orig, j, y)
    modifies outBuf
    ensures Only(outBuf[..], s, i)
    ensures ran == if FlippedAlready(s[i := y], s) then [] else [s[i := y]]
    ensures forall c <- ran :: NewNudge(c, s, i)
    ensures Heeds(ran, abort, abandoned)
  {
    ran, abandoned := [], false;
    var r := orig ^ y;
    NudgeChanges(orig, j, y);
    var could := CouldBeBitflip(r as bv32);
    SkippedExactly(s, i, r, y);
    if !could {
      outBuf[i] := y;
      assert outBuf[..] == s[i := y];
      ran := [outBuf[..]];
      abandoned := abort(outBuf[..]);
    }
  }

  ghost predicate SettledAt(execs: seq<Buffer>, s: Buffer, i: nat, j: bv8)
    requires i < |s|
  {
    forall y | Nudged(s[i], j, y) :: s[i := y] in execs || FlippedAlready(s[i := y], s)
  }

  method NudgeBoth(outBuf: array<bv8>, ghost s: Buffer, i: nat, orig: bv8, j: bv8, abort: Buffer -> bool)
      returns (ran: seq<Buffer>, abandoned: bool)
    requires i < outBuf.Length && Only(outBuf[..], s, i) && s[i] == orig && 1 <= j <= ARITH_STEPS
    modifies outBuf
    ensures forall c <- ran :: NewNudge(c, s, i)
    ensures Heeds(ran, abort, abandoned)
    ensures !abandoned ==> outBuf[..] == s && SettledAt(ran, s, i, j)
  {
    var more;
    ran, abandoned := TryNudge(outBuf, s, i, orig, j, orig + j, abort);
    if abandoned {
      return;
    }
    more, abandoned := TryNudge(outBuf, s, i, orig, j, orig - j, abort);
    HeedsAppend(ran, more, abort, abandoned);
    ran := ran + more;
    outBuf[i] := orig;
  }

  method NudgeByte(outBuf: array<bv8>, ghost s: Buffer, i: nat, abort: Buffer -> bool)
      returns (ran: seq<Buffer>, abandoned: bool)
    requires i < outBuf.Length && outBuf[..] == s
    modifies outBuf
    ensures forall c <- ran :: NewNudge(c, s, i)
    ensures Heeds(ran, abort, abandoned)
    ensures !abandoned ==> outBuf[..] == s && Settled(ran, s, i, ARITH_STEPS + 1)
  {
    var orig := outBuf[i];
    ran, abandoned := [], false;
    var j: bv8 := 1;
    while j <= ARITH_STEPS
      invariant 1 <= j <= ARITH_STEPS + 1 && outBuf[..] == s
      invariant Settled(ran, s, i, j)
      invariant forall c <- ran :: NewNudge(c, s, i)
      invariant NoAbort(ran, abort)
      decreases ARITH_STEPS + 1 - j
    {
      var more;
      more, abandoned := NudgeBoth(outBuf, s, i, orig, j, abort);
      if !abandoned {
        SettledStep(ran, more, s, i, j);
      }
      HeedsAppend(ran, more, abort, abandoned);
      ran := ran + more;
      if abandoned {
        return;
      }
      j := j + 1;
    }
  }

  lemma SettledStep(was: seq<Buffer>, more: seq<Buffer>, s: Buffer, i: nat, j: bv8)
    requires i < |s| && Settled(was, s, i, j) && 1 <= j <= ARITH_STEPS && SettledAt(more, s, i, j)
    ensures Settled(was + more, s, i, j + 1)
  {
    forall h, y | h < j + 1 && Nudged(s[i], h, y)
      ensures s[i := y] in was + more || FlippedAlready(s[i := y], s)
    {
      if h < j {
        assert s[i := y] in was || FlippedAlready(s[i := y], s);
      } else {
        BelowNext(h, j);
      }
    }
  }

  lemma BelowNext(h: bv8, j: bv8)
    requires j <= 35 && h < j + 1 && !(h < j)
    ensures h == j
  {
  }

  /** The 8-bit arithmetic stage over all blocks the effector map flags. */
  method Arith8(outBuf: array<bv8>, eff: seq<bool>, abort: Buffer -> bool) returns (execs: seq<Buffer>, abandoned: bool)
    requires |eff| == EffLen(outBuf.Length)
    modifies outBuf
    ensures forall c <- execs :: exists i: nat :: i < outBuf.Length && eff[i / 8] && NewNudge(c, old(outBuf[..]), i)
    ensures Heeds(execs, abort, abandoned)
    ensures !abandoned ==> outBuf[..] == old(outBuf[..])
    ensures !abandoned ==>
        forall i | 0 <= i < outBuf.Length && eff[i / 8] :: Settled(execs, old(outBuf[..]), i, ARITH_STEPS + 1)
  {
    ghost var s := outBuf[..];
    execs, abandoned := [], false;
    var i := 0;
    while i < outBuf.Length
      invariant i <= outBuf.Length && outBuf[..] == s
      invariant forall c <- execs :: exists k: nat :: k < i && eff[k / 8] && NewNudge(c, s, k)
      invariant forall k | 0 <= k < i && eff[k / 8] :: Settled(execs, s, k, ARITH_STEPS + 1)
      invariant NoAbort(execs, abort)
    {
      if eff[i / 8] {
        var ran;
        ran, abandoned := NudgeByte(outBuf, s, i, abort);
        ghost var was := execs;
        HeedsAppend(execs, ran, abort, abandoned);
        execs := execs + ran;
        if abandoned {
          return;
        }
        forall k | 0 <= k < i && eff[k / 8]
          ensures Settled(execs, s, k, ARITH_STEPS + 1)
        {
          SettledGrows(was, ran, s, k);
        }
        SettledGrowsFront(was, ran, s, i);
      }
      i := i + 1;
    }
  }

  lemma SettledGrows(was: seq<Buffer>, more: seq<Buffer>, s: Buffer, i: nat)
    requires i < |s| && Settled(was, s, i, ARITH_STEPS + 1)
    ensures Settled(was + more, s, i, ARITH_STEPS + 1)
  {
  }

  lemma SettledGrowsFront(was: seq<Buffer>, more: seq<Buffer>, s: Buffer, i: nat)
    requires i < |s| && Settled(more, s, i, ARITH_STEPS + 1)
    ensures Settled(was + more, s, i, ARITH_STEPS + 1)
  {
  }

  // ---------------------------------------------------------------- all together

  /** flips lists the buffers the four flip stages run on s, and no others. */
  ghost predicate FlipsOf(flips: seq<Buffer>, s: Buffer) {
    forall c :: FlippedAlready(c, s) <==> c in flips
  }

  /** The four flip stages in order. */
  method FlipStages(outBuf: array<bv8>, abort: Buffer -> bool, dumb: bool, cksum: Buffer -> nat, execCksum: nat)
      returns (flips: seq<Buffer>, abandoned: bool, eff: seq<bool>, tokens: seq<Buffer>)
    requires outBuf.Length > 0
    modifies outBuf
    ensures Heeds(flips, abort, abandoned)
    ensures !abandoned ==> outBuf[..] == old(outBuf[..]) && FlipsOf(flips, outBuf[..]) && |eff| == EffLen(outBuf.Length)
    ensures !abandoned ==> tokens == if dumb then [] else TokensOf(outBuf[..], cksum, execCksum)
  {
    ghost var s := outBuf[..];
    var f1, f2, f4, f8;
    eff := [];
    f1, abandoned, tokens := WalkSingleBits(outBuf, abort, dumb, cksum, execCksum);
    flips := f1;
    if abandoned {
      return;
    }
    f2, abandoned := WalkBits(outBuf, 2, abort);
    HeedsAppend(flips, f2, abort, abandoned);
    flips := flips + f2;
    if abandoned {
      return;
    }
    f4, abandoned := WalkBits(outBuf, 4, abort);
    HeedsAppend(flips, f4, abort, abandoned);
    flips := flips + f4;
    if abandoned {
      return;
    }
    f8, abandoned, eff := WalkBytes(outBuf, abort, dumb, b => cksum(b) != execCksum);
    HeedsAppend(flips, f8, abort, abandoned);
    flips := flips + f8;
    if !abandoned {
      FlipLogs(s, f1, f2, f4, f8, flips);
    }
  }

  /** Every nudge of a byte in a flagged block is among the runs. */
  ghost predicate AllNudgesIn(execs: seq<Buffer>, s: Buffer, eff: seq<bool>) {
    && |eff| == EffLen(|s|)
    && forall i, j, y | 0 <= i < |s| && eff[i / 8] && Nudged(s[i], j, y) :: s[i := y] in execs
  }

  /** The byte-wide deterministic stages in order.  Unless the entry is abandoned, every
      byte in a flagged block has been run with each of 1 to 35 added and subtracted; and
      no run of the arithmetic stage repeats a run of a flip stage. */
  method ByteStages(outBuf: array<bv8>, abort: Buffer -> bool, dumb: bool, cksum: Buffer -> nat, execCksum: nat)
      returns (flips: seq<Buffer>, arith: seq<Buffer>, abandoned: bool, eff: seq<bool>, tokens: seq<Buffer>)
    requires outBuf.Length > 0
    modifies outBuf
    ensures forall c <- arith :: c !in flips
    ensures Heeds(flips + arith, abort, abandoned)
    ensures !abandoned ==> outBuf[..] == old(outBuf[..]) && AllNudgesIn(flips + arith, outBuf[..], eff)
    ensures !abandoned ==> tokens == if dumb then [] else TokensOf(outBuf[..], cksum, execCksum)
  {
    ghost var s := outBuf[..];
    arith := [];
    flips, abandoned, eff, tokens := FlipStages(outBuf, abort, dumb, cksum, execCksum);
    if abandoned {
      assert flips + arith == flips;
      return;
    }
    arith, abandoned := Arith8(outBuf, eff, abort);
    HeedsAppend(flips, arith, abort, abandoned);
    if !abandoned {
      AllSettled(flips, arith, s, eff);
    }
  }

  lemma AllSettled(flips: seq<Buffer>, arith: seq<Buffer>, s: Buffer, eff: seq<bool>)
    requires FlipsOf(flips, s) && |eff| == EffLen(|s|)
    requires forall i | 0 <= i < |s| && eff[i / 8] :: Settled(arith, s, i, ARITH_STEPS + 1)
    ensures AllNudgesIn(flips + arith, s, eff)
  {
    forall i, j, y | 0 <= i < |s| && eff[i / 8] && Nudged(s[i], j, y)
      ensures s[i := y] in flips + arith
    {
      NudgeBound(s[i], j, y);
      assert Settled(arith, s, i, ARITH_STEPS + 1);
    }
  }

  lemma NudgeBound(x: bv8, j: bv8, y: bv8)
    requires Nudged(x, j, y)
    ensures j < ARITH_STEPS + 1
  {
  }

  ghost predicate BitLog(execs: seq<Buffer>, s: Buffer, n: nat) {
    Walked(execs, s, n) && |execs| + n == 8 * |s| + 1
  }

  ghost predicate ByteLog(execs: seq<Buffer>, s: Buffer) {
    |execs| == |s| && forall i | 0 <= i < |execs| :: execs[i] == FlipByte(s, i)
  }

  /** The four logs hold exactly what the flip stages execute. */
  lemma FlipLogs(s: Buffer, f1: seq<Buffer>, f2: seq<Buffer>, f4: seq<Buffer>, f8: seq<Buffer>, flips: seq<Buffer>)
    requires s != [] && BitLog(f1, s, 1) && BitLog(f2, s, 2) && BitLog(f4, s, 4) && ByteLog(f8, s)
    requires flips == f1 + f2 + f4 + f8
    ensures FlipsOf(flips, s)
  {
    forall c
      ensures FlippedAlready(c, s) <==> c in flips
    {
      BitLogHolds(c, f1, s, 1);
      BitLogHolds(c, f2, s, 2);
      BitLogHolds(c, f4, s, 4);
      assert (exists i: nat :: i < |s| && c == FlipByte(s, i)) <==> c in f8;
    }
  }

  ghost predicate RunOf(c: Buffer, s: Buffer, n: nat) {
    exists b: nat :: WalkedAt(c, s, b, n)
  }

  lemma BitLogHolds(c: Buffer, execs: seq<Buffer>, s: Buffer, n: nat)
    requires 0 < n <= 8 && s != [] && BitLog(execs, s, n)
    ensures RunOf(c, s, n) <==> c in execs
  {
    if c in execs {
      var b :| 0 <= b < |execs| && execs[b] == c;
      assert WalkedAt(c, s, b, n);
    }
    if RunOf(c, s, n) {
      var b: nat :| WalkedAt(c, s, b, n);
      assert execs[b] == c;
    }
  }
}
