/** could_be_bitflip and could_be_arith of AFL/afl-fuzz.c: does an earlier stage make this change? */
module ArithDedup {

  const ARITH_MAX: nat := 35

  // ------------------------------------------------------------- could_be_bitflip

  /** x is the pattern p moved up by s bits, with no bit lost. */
  predicate RunAt(x: bv32, p: bv32, s: bv32) {
    s < 32 && x == p << s && x >> s == p
  }

  /** 1, 2 or 4 adjacent bits anywhere, or 8, 16 or 32 bits at a byte boundary. */
  predicate FlipPattern(x: bv32, s: bv32) {
    || RunAt(x, 1, s) || RunAt(x, 3, s) || RunAt(x, 15, s)
    || (s & 7 == 0 && (RunAt(x, 0xff, s) || RunAt(x, 0xffff, s) || RunAt(x, 0xffffffff, s)))
  }

  ghost predicate IsBitflip(x: bv32) {
    x == 0 || exists s: bv32 :: FlipPattern(x, s)
  }

  lemma ShiftStep(x0: bv32, x: bv32, sh: bv32)
    requires RunAt(x0, x, sh) && x != 0 && x & 1 == 0
    ensures RunAt(x0, x >> 1, sh + 1)
  {
    if sh == 31 {
      TopBit(x0, x);
    }
    ShiftOnce(x0, x, sh);
  }

  lemma TopBit(x0: bv32, x: bv32)
    requires x0 == x << 31 && x0 >> 31 == x && x != 0
    ensures x & 1 == 1
  {
  }

  lemma ShiftOnce(x0: bv32, x: bv32, sh: bv32)
    requires sh < 31 && x & 1 == 0 && x0 == x << sh && x0 >> sh == x
    ensures x0 == (x >> 1) << (sh + 1) && x0 >> (sh + 1) == x >> 1
  {
  }

  lemma HalfIsLess(x: bv32)
    requires x != 0 && x & 1 == 0
    ensures x >> 1 != 0 && x >> 1 < x
  {
  }

  /** A number has only one odd part. */
  lemma OddPartUnique(x0: bv32, x: bv32, sh: bv32, p: bv32, s: bv32)
    requires RunAt(x0, x, sh) && RunAt(x0, p, s) && x & 1 == 1 && p & 1 == 1
    ensures sh == s && x == p
  {
  }

  lemma FlipPatternOfOddPart(x0: bv32, x: bv32, sh: bv32, s: bv32)
    requires RunAt(x0, x, sh) && x & 1 == 1 && FlipPattern(x0, s)
    ensures s == sh && (x == 1 || x == 3 || x == 15 || (sh & 7 == 0 && (x == 0xff || x == 0xffff || x == 0xffffffff)))
  {
    if RunAt(x0, 1, s) {
      OddPartUnique(x0, x, sh, 1, s);
    } else if RunAt(x0, 3, s) {
      OddPartUnique(x0, x, sh, 3, s);
    } else if RunAt(x0, 15, s) {
      OddPartUnique(x0, x, sh, 15, s);
    } else if RunAt(x0, 0xff, s) {
      OddPartUnique(x0, x, sh, 0xff, s);
    } else if RunAt(x0, 0xffff, s) {
      OddPartUnique(x0, x, sh, 0xffff, s);
    } else {
      OddPartUnique(x0, x, sh, 0xffffffff, s);
    }
  }

  /** One round of the loop that shifts out trailing zeros. */
  method ShiftOut(xorVal: bv32, x: bv32, sh: bv32) returns (x': bv32, sh': bv32)
    requires RunAt(xorVal, x, sh) && x != 0 && x & 1 == 0
    ensures RunAt(xorVal, x', sh') && x' != 0 && x' < x
  {
    x', sh' := x >> 1, sh + 1;
    ShiftStep(xorVal, x, sh);
    HalfIsLess(x);
  }

  method StripZeros(xorVal: bv32) returns (x: bv32, sh: bv32)
    requires xorVal != 0
    ensures RunAt(xorVal, x, sh) && x & 1 == 1
  {
    x, sh := StartShifting(xorVal);
    while x & 1 == 0
      invariant RunAt(xorVal, x, sh) && x != 0
      decreases x
    {
      x, sh := ShiftOut(xorVal, x, sh);
    }
    OddOrEven(x);
  }

  method StartShifting(xorVal: bv32) returns (x: bv32, sh: bv32)
    ensures x == xorVal && RunAt(xorVal, x, sh)
  {
    x, sh := xorVal, 0;
    NoShift(xorVal, sh);
  }

  lemma NoShift(x: bv32, s: bv32)
    requires s == 0
    ensures x << s == x && x >> s == x
  {
  }

  lemma OddOrEven(x: bv32)
    ensures x & 1 == 0 || x & 1 == 1
  {
  }

  method CouldBeBitflip(xorVal: bv32) returns (could: bool)
    ensures could <==> IsBitflip(xorVal)
  {
    if xorVal == 0 {
      return true;
    }
    var x, sh := StripZeros(xorVal);
    OddPartDecides(xorVal, x, sh);
    if x == 1 || x == 3 || x == 15 {
      return true;
    }
    if sh & 7 != 0 {
      return false;
    }
    return x == 0xff || x == 0xffff || x == 0xffffffff;
  }

  /** Once the trailing zeros are gone, the odd part and their number settle the question. */
  lemma OddPartDecides(x0: bv32, x: bv32, sh: bv32)
    requires RunAt(x0, x, sh) && x & 1 == 1 && x0 != 0
    ensures IsBitflip(x0) <==>
            x == 1 || x == 3 || x == 15 || (sh & 7 == 0 && (x == 0xff || x == 0xffff || x == 0xffffffff))
  {
    if IsBitflip(x0) {
      var s: bv32 :| FlipPattern(x0, s);
      FlipPatternOfOddPart(x0, x, sh, s);
    }
    if x == 1 || x == 3 || x == 15 || (sh & 7 == 0 && (x == 0xff || x == 0xffff || x == 0xffffffff)) {
      assert FlipPattern(x0, sh);
    }
  }

  // --------------------------------------------------------------- could_be_arith

  /** Unsigned arithmetic of one machine width, on a sum or difference of two values. */
  function Wrap(x: int, size: nat): (r: nat)
    requires 0 <= x + size && x < 2 * size
    ensures x == r || x == r - size || x == r + size
    ensures size > 0 ==> r < size
  {
    if x < 0 then x + size else if x >= size then x - size else x
  }

  const BYTE: nat := 0x100
  const WORD: nat := 0x1_0000
  const DWORD: nat := 0x1_0000_0000

  function Swap16(w: nat): (r: nat)
    requires w < WORD
    ensures r < WORD
  {
    w % 0x100 * 0x100 + w / 0x100
  }

  function Swap32(d: nat): (r: nat)
    requires d < DWORD
    ensures r < DWORD
  {
    Swap16(d % WORD) * WORD + Swap16(d / WORD)
  }

  function BytesOf(v: nat, blen: nat): (r: seq<nat>)
    requires v < DWORD && blen <= 4
    ensures |r| == blen && forall k | 0 <= k < |r| :: r[k] < BYTE
  {
    [v % 0x100, v / 0x100 % 0x100, v / 0x1_0000 % 0x100, v / 0x100_0000][..blen]
  }

  function WordsOf(v: nat, blen: nat): (r: seq<nat>)
    requires v < DWORD && blen <= 4
    ensures |r| == blen / 2 && forall k | 0 <= k < |r| :: r[k] < WORD
  {
    [v % WORD, v / WORD][..blen / 2]
  }

  /** b is a plus or minus j, with wrap-around. */
  predicate Step(a: nat, b: nat, j: nat, size: nat) {
    a < size && 1 <= j <= 35 < size && (b == Wrap(a + j, size) || b == Wrap(a - j, size))
  }

  ghost predicate Steps(a: nat, b: nat, size: nat) {
    exists j: nat :: Step(a, b, j, size)
  }

  ghost predicate ByteSteps(a: nat, b: nat) { Steps(a, b, BYTE) }

  /** The step may be taken on the value or on its byte-swapped form. */
  ghost predicate WordSteps(a: nat, b: nat) {
    a < WORD && b < WORD && (Steps(a, b, WORD) || Steps(Swap16(a), Swap16(b), WORD))
  }

  ghost predicate DwordSteps(a: nat, b: nat)
    requires a < DWORD && b < DWORD
  {
    Steps(a, b, DWORD) || Steps(Swap32(a), Swap32(b), DWORD)
  }

  /** Exactly one lane differs, and by a step. */
  ghost predicate OneLaneSteps<T>(step: (T, T) -> bool, old_: seq<T>, new_: seq<T>)
    requires |old_| == |new_|
  {
    exists k: nat :: DifferOnlyAt(old_, new_, k) && step(old_[k], new_[k])
  }

  /** Some arithmetic stage of width at most blen turns the one value into the other. */
  ghost predicate IsArith(old_: nat, new_: nat, blen: nat)
    requires old_ < DWORD && new_ < DWORD && blen <= 4
  {
    || old_ == new_
    || OneLaneSteps(ByteSteps, BytesOf(old_, blen), BytesOf(new_, blen))
    || (blen > 1 && OneLaneSteps(WordSteps, WordsOf(old_, blen), WordsOf(new_, blen)))
    || (blen == 4 && DwordSteps(old_, new_))
  }

  /** The two differ in lane k and nowhere else. */
  ghost predicate DifferOnlyAt<T>(old_: seq<T>, new_: seq<T>, k: nat)
    requires |old_| == |new_|
  {
    k < |old_| && old_[k] != new_[k] && forall i | 0 <= i < |old_| && i != k :: old_[i] == new_[i]
  }

  /** The loops that count differing lanes and remember the last one. */
  method SoleDifference<T(==)>(old_: seq<T>, new_: seq<T>) returns (diffs: nat, at: nat)
    requires |old_| == |new_|
    ensures diffs > 0 ==> at < |old_|
    ensures diffs == 1 ==> DifferOnlyAt(old_, new_, at)
    ensures diffs != 1 ==> forall k: nat :: !DifferOnlyAt(old_, new_, k)
  {
    diffs, at := 0, 0;
    ghost var first := 0;
    var i := 0;
    while i < |old_|
      invariant i <= |old_|
      invariant diffs == 0 ==> forall k | 0 <= k < i :: old_[k] == new_[k]
      invariant diffs > 0 ==> first <= at < i && old_[at] != new_[at] && old_[first] != new_[first]
      invariant diffs == 1 ==> first == at && forall k | 0 <= k < i && k != at :: old_[k] == new_[k]
      invariant diffs > 1 ==> first < at
    {
      if old_[i] != new_[i] {
        diffs := diffs + 1;
        at := i;
        if diffs == 1 {
          first := i;
        }
      }
      i := i + 1;
    }
  }

  /** The test on both differences. */
  predicate Near(a: nat, b: nat, size: nat)
    requires a < size && b < size
  {
    Wrap(a - b, size) <= ARITH_MAX || Wrap(b - a, size) <= ARITH_MAX
  }

  lemma NearSteps(a: nat, b: nat, size: nat)
    requires a < size && b < size && a != b && ARITH_MAX < size
    ensures Near(a, b, size) <==> Steps(a, b, size)
  {
    assert Wrap(a - b, size) <= ARITH_MAX ==> Step(a, b, Wrap(a - b, size), size);
    assert Wrap(b - a, size) <= ARITH_MAX ==> Step(a, b, Wrap(b - a, size), size);
  }

  lemma Swap16Injective(a: nat, b: nat)
    requires a < WORD && b < WORD && Swap16(a) == Swap16(b)
    ensures a == b
  {
  }

  lemma Swap32Injective(a: nat, b: nat)
    requires a < DWORD && b < DWORD && Swap32(a) == Swap32(b)
    ensures a == b
  {
    Swap16Injective(a % WORD, b % WORD);
    Swap16Injective(a / WORD, b / WORD);
  }

  lemma SoleLaneDecides<T>(step: (T, T) -> bool, old_: seq<T>, new_: seq<T>, k: nat)
    requires |old_| == |new_| && DifferOnlyAt(old_, new_, k)
    ensures OneLaneSteps(step, old_, new_) <==> step(old_[k], new_[k])
  {
  }

  /** could_be_arith decides exactly whether the change is a small step of some width, in
      either byte order, on lanes aligned within the value. */
  method CouldBeArith(oldVal: nat, newVal: nat, blen: nat) returns (could: bool)
    requires oldVal < DWORD && newVal < DWORD
    requires blen == 1 || blen == 2 || blen == 4
    ensures could <==> IsArith(oldVal, newVal, blen)
  {
    if oldVal == newVal {
      return true;
    }
    could := ByteCase(BytesOf(oldVal, blen), BytesOf(newVal, blen));
    if could || blen == 1 {
      return;
    }
    could := WordCase(WordsOf(oldVal, blen), WordsOf(newVal, blen));
    if could || blen != 4 {
      return;
    }
    could := DwordCase(oldVal, newVal);
  }

  method ByteCase(old_: seq<nat>, new_: seq<nat>) returns (could: bool)
    requires |old_| == |new_| && forall k | 0 <= k < |old_| :: old_[k] < BYTE && new_[k] < BYTE
    ensures could <==> OneLaneSteps(ByteSteps, old_, new_)
  {
    var diffs, at := SoleDifference(old_, new_);
    could := false;
    if diffs == 1 {
      NearSteps(old_[at], new_[at], BYTE);
      SoleLaneDecides(ByteSteps, old_, new_, at);
      could := Near(old_[at], new_[at], BYTE);
    }
  }

  method WordCase(old_: seq<nat>, new_: seq<nat>) returns (could: bool)
    requires |old_| == |new_| && forall k | 0 <= k < |old_| :: old_[k] < WORD && new_[k] < WORD
    ensures could <==> OneLaneSteps(WordSteps, old_, new_)
  {
    var diffs, at := SoleDifference(old_, new_);
    could := false;
    if diffs == 1 {
      var ov, nv := old_[at], new_[at];
      if Swap16(ov) == Swap16(nv) {
        Swap16Injective(ov, nv);
      }
      NearSteps(ov, nv, WORD);
      NearSteps(Swap16(ov), Swap16(nv), WORD);
      SoleLaneDecides(WordSteps, old_, new_, at);
      could := Near(ov, nv, WORD) || Near(Swap16(ov), Swap16(nv), WORD);
    }
  }

  method DwordCase(old_: nat, new_: nat) returns (could: bool)
    requires old_ < DWORD && new_ < DWORD && old_ != new_
    ensures could <==> DwordSteps(old_, new_)
  {
    if Swap32(old_) == Swap32(new_) {
      Swap32Injective(old_, new_);
    }
    NearSteps(old_, new_, DWORD);
    NearSteps(Swap32(old_), Swap32(new_), DWORD);
    could := Near(old_, new_, DWORD) || Near(Swap32(old_), Swap32(new_), DWORD);
  }
}
