/** has_new_bits and simplify_trace of AFL/afl-fuzz.c: the word-wise code against the
    byte-wise meaning, and the meaning of a virgin map over a whole history of traces. */
module CoverageMap {
  import opened Bits
  import opened Words

  type Map = seq<bv8>

  // ------------------------------------------------------------- byte by byte

  predicate FirstHit(c: bv8, v: bv8) { c != 0 && v == 0xff }

  predicate NewBits(c: bv8, v: bv8) { c & v != 0 }

  function ClearByte(c: bv8, v: bv8): bv8 { v & !c }

  ghost predicate Any(p: (bv8, bv8) -> bool, t: Map, v: Map)
    requires |t| == |v|
  {
    exists i :: 0 <= i < |t| && p(t[i], v[i])
  }

  function Zip(f: (bv8, bv8) -> bv8, t: Map, v: Map): (r: Map)
    requires |t| == |v|
    ensures |r| == |v|
  {
    seq(|v|, i requires 0 <= i < |v| => f(t[i], v[i]))
  }

  /** 2 if some byte is hit that is still pristine, else 1 if some bit of the trace is still
      set in the map, else 0. */
  ghost function Answer(t: Map, v: Map): nat
    requires |t| == |v|
  {
    if Any(FirstHit, t, v) then 2 else if Any(NewBits, t, v) then 1 else 0
  }

  function Cleared(t: Map, v: Map): (r: Map)
    requires |t| == |v|
    ensures |r| == |v|
  {
    Zip(ClearByte, t, v)
  }

  lemma AnyConcat(p: (bv8, bv8) -> bool, t1: Map, v1: Map, t2: Map, v2: Map)
    requires |t1| == |v1| && |t2| == |v2|
    ensures Any(p, t1 + t2, v1 + v2) <==> Any(p, t1, v1) || Any(p, t2, v2)
  {
    var t, v := t1 + t2, v1 + v2;
    if Any(p, t2, v2) {
      var i :| 0 <= i < |t2| && p(t2[i], v2[i]);
      assert p(t[|t1| + i], v[|t1| + i]);
    }
    if Any(p, t1, v1) {
      var i :| 0 <= i < |t1| && p(t1[i], v1[i]);
      assert p(t[i], v[i]);
    }
  }

  lemma ZipConcat(f: (bv8, bv8) -> bv8, t1: Map, v1: Map, t2: Map, v2: Map)
    requires |t1| == |v1| && |t2| == |v2|
    ensures Zip(f, t1 + t2, v1 + v2) == Zip(f, t1, v1) + Zip(f, t2, v2)
  {
  }

  // ------------------------------------------------------------- word by word

  function AnyLane(p: (bv8, bv8) -> bool, c: Lanes, v: Lanes): bool {
    || p(c.b0, v.b0) || p(c.b1, v.b1) || p(c.b2, v.b2) || p(c.b3, v.b3)
    || p(c.b4, v.b4) || p(c.b5, v.b5) || p(c.b6, v.b6) || p(c.b7, v.b7)
  }

  function ZipLanes(f: (bv8, bv8) -> bv8, c: Lanes, v: Lanes): Lanes {
    Lanes(f(c.b0, v.b0), f(c.b1, v.b1), f(c.b2, v.b2), f(c.b3, v.b3),
          f(c.b4, v.b4), f(c.b5, v.b5), f(c.b6, v.b6), f(c.b7, v.b7))
  }

  lemma AnyInLanes(p: (bv8, bv8) -> bool, c: Lanes, v: Lanes)
    ensures Any(p, AsBytes(c), AsBytes(v)) <==> AnyLane(p, c, v)
  {
    var t, m := AsBytes(c), AsBytes(v);
    if AnyLane(p, c, v) {
      assert p(t[0], m[0]) || p(t[1], m[1]) || p(t[2], m[2]) || p(t[3], m[3]) ||
             p(t[4], m[4]) || p(t[5], m[5]) || p(t[6], m[6]) || p(t[7], m[7]);
    }
  }

  lemma ZipInLanes(f: (bv8, bv8) -> bv8, c: Lanes, v: Lanes)
    ensures Zip(f, AsBytes(c), AsBytes(v)) == AsBytes(ZipLanes(f, c, v))
  {
  }

  /** The two shortcut tests on a word are one test on its bytes. */
  lemma WordTests(c: bv64, v: bv64)
    ensures c != 0 && c & v != 0 <==> AnyLane(NewBits, LanesOf(c), LanesOf(v))
  {
    AndIsLanewise(c, v);
    ZeroIsLanewise(c & v);
    assert c == 0 ==> c & v == 0;
    BitsInLanes(LanesOf(c), LanesOf(v));
  }

  lemma CommonBits(a: bv8, b: bv8, x: bv8)
    requires x == a & b
    ensures NewBits(a, b) == (x != 0)
  {
  }

  lemma BitsInLanes(c: Lanes, v: Lanes)
    ensures AnyLane(NewBits, c, v) <==> !ZeroLanes(AndLanes(c, v))
  {
    var x := AndLanes(c, v);
    CommonBits(c.b0, v.b0, x.b0);
    CommonBits(c.b1, v.b1, x.b1);
    CommonBits(c.b2, v.b2, x.b2);
    CommonBits(c.b3, v.b3, x.b3);
    CommonBits(c.b4, v.b4, x.b4);
    CommonBits(c.b5, v.b5, x.b5);
    CommonBits(c.b6, v.b6, x.b6);
    CommonBits(c.b7, v.b7, x.b7);
  }

  /** Without a common bit the update would change nothing, so skipping it is right. */
  lemma NothingToClear(c: bv64, v: bv64)
    ensures c == 0 || c & v == 0 ==> v & !c == v
  {
  }

  lemma ClearedWord(c: bv64, v: bv64)
    ensures LanesOf(v & !c) == ZipLanes(ClearByte, LanesOf(c), LanesOf(v))
  {
    AndIsLanewise(v, !c);
    NotIsLanewise(c);
  }

  lemma FirstHitIsNew(c: Lanes, v: Lanes)
    ensures AnyLane(FirstHit, c, v) ==> AnyLane(NewBits, c, v)
  {
  }

  lemma WordAnswer(c: bv64, v: bv64)
    ensures Answer(Split64(c), Split64(v)) ==
            if c == 0 || c & v == 0 then 0 else if AnyLane(FirstHit, LanesOf(c), LanesOf(v)) then 2 else 1
    ensures Cleared(Split64(c), Split64(v)) == Split64(v & !c)
  {
    WordTests(c, v);
    FirstHitIsNew(LanesOf(c), LanesOf(v));
    AnyInLanes(FirstHit, LanesOf(c), LanesOf(v));
    AnyInLanes(NewBits, LanesOf(c), LanesOf(v));
    ClearedWord(c, v);
    ZipInLanes(ClearByte, LanesOf(c), LanesOf(v));
  }

  lemma AnswerConcat(t1: Map, v1: Map, t2: Map, v2: Map)
    requires |t1| == |v1| && |t2| == |v2|
    ensures Answer(t1 + t2, v1 + v2) == if Answer(t1, v1) > Answer(t2, v2) then Answer(t1, v1) else Answer(t2, v2)
    ensures Cleared(t1 + t2, v1 + v2) == Cleared(t1, v1) + Cleared(t2, v2)
  {
    AnyConcat(FirstHit, t1, v1, t2, v2);
    AnyConcat(NewBits, t1, v1, t2, v2);
    ZipConcat(ClearByte, t1, v1, t2, v2);
  }

  /** One iteration of the loop, on one word of each map. */
  method OneWord(current: bv64, virgin: bv64, ret: nat) returns (ret': nat, virgin': bv64)
    requires ret <= 2
    ensures var answer := Answer(Split64(current), Split64(virgin)); ret' == if ret > answer then ret else answer
    ensures Split64(virgin') == Cleared(Split64(current), Split64(virgin))
  {
    WordAnswer(current, virgin);
    NothingToClear(current, virgin);
    ret', virgin' := ret, virgin;
    if current != 0 && current & virgin != 0 {
      if ret < 2 {
        if AnyLane(FirstHit, LanesOf(current), LanesOf(virgin)) {
          ret' := 2;
        } else {
          ret' := 1;
        }
      }
      virgin' := virgin & !current;
    }
  }

  method HasNewBits(traceBits: array<bv64>, virginMap: array<bv64>) returns (ret: nat)
    requires traceBits != virginMap && traceBits.Length == virginMap.Length
    modifies virginMap
    ensures ret == Answer(Bytes64(traceBits[..]), old(Bytes64(virginMap[..])))
    ensures Bytes64(virginMap[..]) == Cleared(Bytes64(traceBits[..]), old(Bytes64(virginMap[..])))
  {
    ret := 0;
    ghost var t, v := traceBits[..], virginMap[..];
    var i := 0;
    while i < traceBits.Length
      invariant i <= traceBits.Length && ret <= 2
      invariant ret == Answer(Bytes64(t[..i]), Bytes64(v[..i]))
      invariant Bytes64(virginMap[..i]) == Cleared(Bytes64(t[..i]), Bytes64(v[..i]))
      invariant forall j | i <= j < traceBits.Length :: virginMap[j] == v[j]
    {
      ghost var done := virginMap[..i];
      ret, virginMap[i] := OneWord(traceBits[i], virginMap[i], ret);
      BytesSnoc(t, i);
      BytesSnoc(v, i);
      assert virginMap[..i] == done;
      BytesSnoc(virginMap[..], i);
      assert virginMap[..][..i] == done && virginMap[..][..i + 1] == virginMap[..i + 1];
      AnswerConcat(Bytes64(t[..i]), Bytes64(v[..i]), Split64(t[i]), Split64(v[i]));
      i := i + 1;
    }
    assert t[..i] == t && v[..i] == v && virginMap[..i] == virginMap[..];
  }

  // ------------------------------------------------------------- over a history

  /** The map after a history of traces, starting from all ones. */
  function Virgin(ts: seq<Map>, n: nat): (v: Map)
    requires forall t | t in ts :: |t| == n
    ensures |v| == n
  {
    if ts == [] then seq(n, _ => 0xff)
    else Cleared(ts[|ts| - 1], Virgin(ts[..|ts| - 1], n))
  }

  ghost predicate SeenByte(ts: seq<Map>, i: nat) {
    exists j :: 0 <= j < |ts| && i < |ts[j]| && ts[j][i] != 0
  }

  ghost predicate SeenBit(ts: seq<Map>, i: nat, k: nat)
    requires k < 8
  {
    exists j :: 0 <= j < |ts| && i < |ts[j]| && BitOf(ts[j][i], k)
  }

  lemma PristineAfter(v: bv8, t: bv8)
    ensures v & !t == 0xff <==> v == 0xff && t == 0
  {
  }

  lemma SeenSnoc(ts: seq<Map>, t: Map, i: nat)
    requires i < |t|
    ensures SeenByte(ts + [t], i) <==> SeenByte(ts, i) || t[i] != 0
    ensures forall k | 0 <= k < 8 :: SeenBit(ts + [t], i, k) <==> SeenBit(ts, i, k) || BitOf(t[i], k)
  {
    var us := ts + [t];
    assert us[|ts|] == t;
    if SeenByte(ts, i) {
      var j :| 0 <= j < |ts| && i < |ts[j]| && ts[j][i] != 0;
      assert us[j] == ts[j];
    }
    forall k | 0 <= k < 8
      ensures SeenBit(us, i, k) <==> SeenBit(ts, i, k) || BitOf(t[i], k)
    {
      if SeenBit(ts, i, k) {
        var j :| 0 <= j < |ts| && i < |ts[j]| && BitOf(ts[j][i], k);
        assert us[j] == ts[j];
      }
    }
  }

  /** A byte is pristine exactly while no trace has hit it. */
  lemma {:induction false} PristineMeaning(ts: seq<Map>, n: nat, i: nat)
    requires forall t | t in ts :: |t| == n
    requires i < n
    ensures Virgin(ts, n)[i] == 0xff <==> !SeenByte(ts, i)
  {
    if ts != [] {
      var us, t := ts[..|ts| - 1], ts[|ts| - 1];
      PristineMeaning(us, n, i);
      assert ts == us + [t] && Virgin(ts, n)[i] == ClearByte(t[i], Virgin(us, n)[i]);
      SeenSnoc(us, t, i);
      PristineAfter(Virgin(us, n)[i], t[i]);
    }
  }

  /** A bit is set exactly while no trace has had it. */
  lemma {:induction false} VirginMeaning(ts: seq<Map>, n: nat, i: nat, k: nat)
    requires forall t | t in ts :: |t| == n
    requires i < n && k < 8
    ensures BitOf(Virgin(ts, n)[i], k) <==> !SeenBit(ts, i, k)
  {
    if ts == [] {
      AllBits(k);
    } else {
      var us, t := ts[..|ts| - 1], ts[|ts| - 1];
      VirginMeaning(us, n, i, k);
      assert ts == us + [t] && Virgin(ts, n)[i] == ClearByte(t[i], Virgin(us, n)[i]);
      SeenSnoc(us, t, i);
      ClearBits(Virgin(us, n)[i], t[i], k);
    }
  }

  lemma CommonBit(a: bv8, b: bv8)
    ensures a & b != 0 <==> exists k :: 0 <= k < 8 && BitOf(a, k) && BitOf(b, k)
  {
    assert a & b != 0 ==>
        (BitOf(a, 0) && BitOf(b, 0)) || (BitOf(a, 1) && BitOf(b, 1)) ||
        (BitOf(a, 2) && BitOf(b, 2)) || (BitOf(a, 3) && BitOf(b, 3)) ||
        (BitOf(a, 4) && BitOf(b, 4)) || (BitOf(a, 5) && BitOf(b, 5)) ||
        (BitOf(a, 6) && BitOf(b, 6)) || (BitOf(a, 7) && BitOf(b, 7));
  }

  lemma ByteOverHistory(ts: seq<Map>, t: Map, i: nat)
    requires forall u | u in ts :: |u| == |t|
    requires i < |t|
    ensures var v := Virgin(ts, |t|);
            && (FirstHit(t[i], v[i]) <==> t[i] != 0 && !SeenByte(ts, i))
            && (NewBits(t[i], v[i]) <==> exists k :: 0 <= k < 8 && BitOf(t[i], k) && !SeenBit(ts, i, k))
            && (FirstHit(t[i], v[i]) ==> NewBits(t[i], v[i]))
  {
    var v := Virgin(ts, |t|);
    PristineMeaning(ts, |t|, i);
    forall k | 0 <= k < 8
      ensures BitOf(v[i], k) <==> !SeenBit(ts, i, k)
    {
      VirginMeaning(ts, |t|, i, k);
    }
    CommonBit(t[i], v[i]);
    PristineIsNew(t[i], v[i]);
  }

  /** Main result: the answer says what a trace adds to the whole history before it. */
  lemma AnswerOverHistory(ts: seq<Map>, t: Map)
    requires forall u | u in ts :: |u| == |t|
    ensures Answer(t, Virgin(ts, |t|)) == 2 <==> exists i :: 0 <= i < |t| && t[i] != 0 && !SeenByte(ts, i)
    ensures Answer(t, Virgin(ts, |t|)) == 0 <==>
        forall i, k | 0 <= i < |t| && 0 <= k < 8 && BitOf(t[i], k) :: SeenBit(ts, i, k)
    ensures Answer(t, Virgin(ts, |t|)) <= 2
  {
    forall i | 0 <= i < |t|
      ensures var v := Virgin(ts, |t|);
              && (FirstHit(t[i], v[i]) <==> t[i] != 0 && !SeenByte(ts, i))
              && (NewBits(t[i], v[i]) <==> exists k :: 0 <= k < 8 && BitOf(t[i], k) && !SeenBit(ts, i, k))
              && (FirstHit(t[i], v[i]) ==> NewBits(t[i], v[i]))
    {
      ByteOverHistory(ts, t, i);
    }
  }

  lemma PristineIsNew(a: bv8, b: bv8)
    ensures FirstHit(a, b) ==> NewBits(a, b)
  {
  }

  // ------------------------------------------------------- how often it is not 0

  /** How many of a sequence of traces get an answer other than 0. */
  ghost function Finds(ts: seq<Map>, n: nat): nat
    requires forall t | t in ts :: |t| == n
  {
    if ts == [] then 0
    else
      var us, t := ts[..|ts| - 1], ts[|ts| - 1];
      Finds(us, n) + (if Answer(t, Virgin(us, n)) != 0 then 1 else 0)
  }

  function Total(w: bv8 -> nat, v: Map): nat {
    if v == [] then 0 else Total(w, v[..|v| - 1]) + w(v[|v| - 1])
  }

  /** w counts something that clearing never adds to, and a find takes away from, as long
      as trace bytes are of the given kind. */
  ghost predicate Potential(w: bv8 -> nat, kind: bv8 -> bool) {
    forall t: bv8, v: bv8 | kind(t) ::
      w(ClearByte(t, v)) <= w(v) && (NewBits(t, v) ==> w(ClearByte(t, v)) < w(v))
  }

  lemma AnyOfLast(t: Map, v: Map, n: nat)
    requires |t| == |v| == n + 1 && Any(NewBits, t, v)
    ensures NewBits(t[n], v[n]) || Any(NewBits, t[..n], v[..n])
  {
    var i :| 0 <= i < |t| && NewBits(t[i], v[i]);
    if i < n {
      assert NewBits(t[..n][i], v[..n][i]);
    }
  }

  lemma ClearedLast(t: Map, v: Map, n: nat)
    requires |t| == |v| == n + 1
    ensures Cleared(t, v)[..n] == Cleared(t[..n], v[..n]) && Cleared(t, v)[n] == ClearByte(t[n], v[n])
  {
  }

  lemma {:induction false} TotalDrops(w: bv8 -> nat, kind: bv8 -> bool, t: Map, v: Map)
    requires Potential(w, kind) && |t| == |v| && forall i | 0 <= i < |t| :: kind(t[i])
    ensures Total(w, Cleared(t, v)) <= Total(w, v)
    ensures Any(NewBits, t, v) ==> Total(w, Cleared(t, v)) < Total(w, v)
  {
    if t != [] {
      var n := |t| - 1;
      TotalDrops(w, kind, t[..n], v[..n]);
      ClearedLast(t, v, n);
      if Any(NewBits, t, v) {
        AnyOfLast(t, v, n);
      }
    }
  }

  lemma {:induction false} TotalSame(w: bv8 -> nat, v: Map, b: bv8)
    requires forall i | 0 <= i < |v| :: v[i] == b
    ensures Total(w, v) == |v| * w(b)
  {
    if v != [] {
      TotalSame(w, v[..|v| - 1], b);
    }
  }

  /** Every find uses up some of the potential of the pristine map for good. */
  lemma {:induction false} FindsBounded(ts: seq<Map>, n: nat, w: bv8 -> nat, kind: bv8 -> bool)
    requires Potential(w, kind)
    requires forall t | t in ts :: |t| == n && forall i | 0 <= i < n :: kind(t[i])
    ensures Finds(ts, n) + Total(w, Virgin(ts, n)) <= n * w(0xff)
  {
    if ts == [] {
      TotalSame(w, Virgin(ts, n), 0xff);
    } else {
      var us, t := ts[..|ts| - 1], ts[|ts| - 1];
      FindsBounded(us, n, w, kind);
      TotalDrops(w, kind, t, Virgin(us, n));
      AnswerOverHistory(us, t);
    }
  }

  lemma FindsAtMost(ts: seq<Map>, n: nat, w: bv8 -> nat, kind: bv8 -> bool, most: nat)
    requires Potential(w, kind) && w(0xff) == most
    requires forall t | t in ts :: |t| == n && forall i | 0 <= i < n :: kind(t[i])
    ensures Finds(ts, n) <= most * n
  {
    FindsBounded(ts, n, w, kind);
  }

  /** The number of set bits. */
  function Pop(b: bv8): nat {
    (if b & 0x01 != 0 then 1 else 0) + (if b & 0x02 != 0 then 1 else 0) +
    (if b & 0x04 != 0 then 1 else 0) + (if b & 0x08 != 0 then 1 else 0) +
    (if b & 0x10 != 0 then 1 else 0) + (if b & 0x20 != 0 then 1 else 0) +
    (if b & 0x40 != 0 then 1 else 0) + (if b & 0x80 != 0 then 1 else 0)
  }

  lemma PopDrops(t: bv8, v: bv8)
    ensures Pop(ClearByte(t, v)) <= Pop(v)
    ensures NewBits(t, v) ==> Pop(ClearByte(t, v)) < Pop(v)
  {
  }

  predicate AnyByte(b: bv8) { true }

  lemma PopIsPotential()
    ensures Potential(Pop, AnyByte) && Pop(0xff) == 8
  {
    forall t: bv8, v: bv8
      ensures Pop(ClearByte(t, v)) <= Pop(v) && (NewBits(t, v) ==> Pop(ClearByte(t, v)) < Pop(v))
    {
      PopDrops(t, v);
    }
  }

  /** Main result: over any history, at most eight finds per map byte. */
  lemma TotalFinds(ts: seq<Map>, n: nat)
    requires forall t | t in ts :: |t| == n
    ensures Finds(ts, n) <= 8 * n
  {
    PopIsPotential();
    FindsAtMost(ts, n, Pop, AnyByte, 8);
  }

  function SimplifyByte(b: bv8): bv8 { if b == 0 then 1 else 128 }

  predicate SimpleByte(b: bv8) { b == 1 || b == 128 }

  /** The two bits a simplified trace can use. */
  function SimplePop(b: bv8): nat {
    (if b & 0x01 != 0 then 1 else 0) + (if b & 0x80 != 0 then 1 else 0)
  }

  lemma SimplePopDrops(t: bv8, v: bv8)
    requires SimpleByte(t)
    ensures SimplePop(ClearByte(t, v)) <= SimplePop(v)
    ensures NewBits(t, v) ==> SimplePop(ClearByte(t, v)) < SimplePop(v)
  {
  }

  lemma SimplePopIsPotential()
    ensures Potential(SimplePop, SimpleByte) && SimplePop(0xff) == 2
  {
    forall t: bv8, v: bv8 | SimpleByte(t)
      ensures SimplePop(ClearByte(t, v)) <= SimplePop(v)
      ensures NewBits(t, v) ==> SimplePop(ClearByte(t, v)) < SimplePop(v)
    {
      SimplePopDrops(t, v);
    }
  }

  /** Main result: at most two finds per map byte when every trace has gone through
      simplify_trace first. */
  lemma SimplifiedFinds(ts: seq<Map>, n: nat)
    requires forall t | t in ts :: |t| == n && forall i | 0 <= i < n :: SimpleByte(t[i])
    ensures Finds(ts, n) <= 2 * n
  {
    SimplePopIsPotential();
    FindsAtMost(ts, n, SimplePop, SimpleByte, 2);
  }
}
