/** The table-driven and word-wise passes over a trace in AFL/afl-fuzz.c: simplify_trace,
    classify_counts with its 16-bit table, and the counting routines.

    Each equals its byte-by-byte meaning on every map.  A word is taken apart into its
    bytes once, by the identities on bit-vectors below; everything after that is about
    sequences of bytes. */
module MapRoutines {
  import opened CoverageMap
  import opened Words

  function MapBytes(g: bv8 -> bv8, t: Map): (r: Map)
    ensures |r| == |t|
  {
    seq(|t|, i requires 0 <= i < |t| => g(t[i]))
  }

  function MapLanes(g: bv8 -> bv8, x: Lanes): Lanes {
    Lanes(g(x.b0), g(x.b1), g(x.b2), g(x.b3), g(x.b4), g(x.b5), g(x.b6), g(x.b7))
  }

  lemma MapInLanes(g: bv8 -> bv8, x: Lanes)
    ensures MapBytes(g, AsBytes(x)) == AsBytes(MapLanes(g, x))
  {
  }

  function FromLanes(x: Lanes): bv64 {
    (x.b0 as bv64) | (x.b1 as bv64 << 8) | (x.b2 as bv64 << 16) | (x.b3 as bv64 << 24) |
    (x.b4 as bv64 << 32) | (x.b5 as bv64 << 40) | (x.b6 as bv64 << 48) | (x.b7 as bv64 << 56)
  }

  lemma LanesRoundTrip(x: Lanes)
    ensures LanesOf(FromLanes(x)) == x
  {
  }

  lemma MapConcat(g: bv8 -> bv8, a: Map, b: Map)
    ensures MapBytes(g, a + b) == MapBytes(g, a) + MapBytes(g, b)
  {
  }

  /** Replacing one word by the mapped one extends the mapped prefix. */
  lemma MapSnoc(g: bv8 -> bv8, old_: seq<bv64>, new_: seq<bv64>, i: nat)
    requires i < |old_| == |new_|
    requires Bytes64(new_[..i]) == MapBytes(g, Bytes64(old_[..i]))
    requires LanesOf(new_[i]) == MapLanes(g, LanesOf(old_[i]))
    ensures Bytes64(new_[..i + 1]) == MapBytes(g, Bytes64(old_[..i + 1]))
  {
    BytesSnoc(old_, i);
    BytesSnoc(new_, i);
    MapConcat(g, Bytes64(old_[..i]), Split64(old_[i]));
    MapInLanes(g, LanesOf(old_[i]));
  }

  // ------------------------------------------------------------------ simplify_trace

  const UNHIT_WORD: bv64 := 0x0101010101010101

  lemma UnhitWord()
    ensures LanesOf(UNHIT_WORD) == Lanes(1, 1, 1, 1, 1, 1, 1, 1)
  {
  }

  lemma SimplifyZero(w: bv64)
    requires w == 0
    ensures LanesOf(UNHIT_WORD) == MapLanes(SimplifyByte, LanesOf(w))
  {
    ZeroIsLanewise(w);
    UnhitWord();
  }

  method SimplifyTrace(mem: array<bv64>)
    modifies mem
    ensures Bytes64(mem[..]) == MapBytes(SimplifyByte, old(Bytes64(mem[..])))
  {
    ghost var was := mem[..];
    var i := 0;
    while i < mem.Length
      invariant i <= mem.Length
      invariant Bytes64(mem[..i]) == MapBytes(SimplifyByte, Bytes64(was[..i]))
      invariant forall j | i <= j < mem.Length :: mem[j] == was[j]
    {
      ghost var done := mem[..i];
      if mem[i] != 0 {
        var x := LanesOf(mem[i]);
        mem[i] := FromLanes(MapLanes(SimplifyByte, x));
        LanesRoundTrip(MapLanes(SimplifyByte, x));
      } else {
        SimplifyZero(mem[i]);
        mem[i] := UNHIT_WORD;
      }
      assert mem[..i] == done && mem[..][..i] == mem[..i] && mem[..][..i + 1] == mem[..i + 1];
      MapSnoc(SimplifyByte, was, mem[..], i);
      i := i + 1;
    }
    assert mem[..i] == mem[..] && was[..i] == was;
  }

  /** What simplify_trace leaves behind is a trace that can cause at most two finds a byte. */
  lemma SimplifyMakesSimple(t: Map)
    ensures forall i | 0 <= i < |t| :: SimpleByte(MapBytes(SimplifyByte, t)[i])
  {
    assert forall i | 0 <= i < |t| :: MapBytes(SimplifyByte, t)[i] == SimplifyByte(t[i]);
  }

  // ----------------------------------------------------------------- classify_counts

  /** count_class_lookup8: hit counts in powers-of-two buckets. */
  function ClassOf(n: nat): bv8 {
    if n == 0 then 0
    else if n == 1 then 1
    else if n == 2 then 2
    else if n == 3 then 4
    else if n < 8 then 8
    else if n < 16 then 16
    else if n < 32 then 32
    else if n < 128 then 64
    else 128
  }

  function ClassByte(b: bv8): bv8 { ClassOf(b as nat) }

  function Pack16(lo: bv8, hi: bv8): bv16 { (lo as bv16) | (hi as bv16 << 8) }

  function LowByte(h: bv16): bv8 { (h & 0xff) as bv8 }

  function HighByte(h: bv16): bv8 { (h >> 8) as bv8 }

  lemma SplitValue(h: bv16)
    ensures h as nat == 256 * ((h >> 8) as nat) + ((h & 0xff) as nat)
  {
  }

  lemma Narrowed(h: bv16)
    requires h < 256
    ensures (h as bv8) as nat == h as nat
  {
  }

  lemma QuotientRemainder(n: nat, a: nat, b: nat)
    requires n == 256 * a + b && b < 256
    ensures n / 256 == a && n % 256 == b
  {
  }

  /** The value a 16-bit half has as a table index. */
  lemma IndexOfPair(h: bv16)
    ensures h as nat / 256 == HighByte(h) as nat && h as nat % 256 == LowByte(h) as nat
  {
    SplitValue(h);
    Narrowed(h >> 8);
    Narrowed(h & 0xff);
    QuotientRemainder(h as nat, (h >> 8) as nat, (h & 0xff) as nat);
  }

  lemma PairRoundTrip(lo: bv8, hi: bv8)
    ensures LowByte(Pack16(lo, hi)) == lo && HighByte(Pack16(lo, hi)) == hi
  {
  }

  /** The classes of the two bytes of a 16-bit value. */
  function ClassPair(n: nat): bv16 {
    Pack16(ClassOf(n % 256), ClassOf(n / 256))
  }

  lemma PairAt(b1: nat, b2: nat)
    requires b2 < 256
    ensures ClassPair(256 * b1 + b2) == Pack16(ClassOf(b2), ClassOf(b1))
  {
    QuotientRemainder(256 * b1 + b2, b1, b2);
  }

  ghost predicate IsClassTable(table: seq<bv16>) {
    |table| == 65536 && forall n | 0 <= n < 65536 :: table[n] == ClassPair(n)
  }

  /** init_count_class16. */
  method InitCountClass16() returns (table: array<bv16>)
    ensures IsClassTable(table[..]) && fresh(table)
  {
    table := new bv16[65536](_ => 0);
    for b1 := 0 to 256
      invariant forall n | 0 <= n < 256 * b1 :: table[n] == ClassPair(n)
    {
      for b2 := 0 to 256
        invariant forall n | 0 <= n < 256 * b1 + b2 :: table[n] == ClassPair(n)
      {
        PairAt(b1, b2);
        table[256 * b1 + b2] := Pack16(ClassOf(b2), ClassOf(b1));
      }
    }
  }

  /** One lookup classifies two bytes at once. */
  lemma TableLookup(table: seq<bv16>, lo: bv8, hi: bv8)
    requires IsClassTable(table)
    ensures var h := Pack16(lo, hi);
            LowByte(table[h as nat]) == ClassByte(lo) && HighByte(table[h as nat]) == ClassByte(hi)
  {
    var h := Pack16(lo, hi);
    IndexOfPair(h);
    PairRoundTrip(lo, hi);
    PairRoundTrip(ClassByte(lo), ClassByte(hi));
  }

  /** Four lookups on the four 16-bit halves of a word. */
  function ClassifyLanes(table: seq<bv16>, x: Lanes): Lanes
    requires |table| == 65536
  {
    var h0, h1, h2, h3 := table[Pack16(x.b0, x.b1) as nat], table[Pack16(x.b2, x.b3) as nat],
                          table[Pack16(x.b4, x.b5) as nat], table[Pack16(x.b6, x.b7) as nat];
    Lanes(LowByte(h0), HighByte(h0), LowByte(h1), HighByte(h1), LowByte(h2), HighByte(h2), LowByte(h3), HighByte(h3))
  }

  lemma ClassifyWord(table: seq<bv16>, x: Lanes)
    requires IsClassTable(table)
    ensures ClassifyLanes(table, x) == MapLanes(ClassByte, x)
  {
    TableLookup(table, x.b0, x.b1);
    TableLookup(table, x.b2, x.b3);
    TableLookup(table, x.b4, x.b5);
    TableLookup(table, x.b6, x.b7);
  }

  /** Skipping zero words is right because the class of 0 is 0. */
  lemma ZeroStays(w: bv64)
    requires w == 0
    ensures LanesOf(w) == MapLanes(ClassByte, LanesOf(w))
  {
    ZeroIsLanewise(w);
    assert (0 as bv8) as nat == 0;
  }

  method ClassifyCounts(mem: array<bv64>, table: array<bv16>)
    requires IsClassTable(table[..]) && (mem as object) != table
    modifies mem
    ensures Bytes64(mem[..]) == MapBytes(ClassByte, old(Bytes64(mem[..])))
  {
    ghost var was := mem[..];
    ghost var lookup := table[..];
    var i := 0;
    while i < mem.Length
      invariant i <= mem.Length && table[..] == lookup
      invariant Bytes64(mem[..i]) == MapBytes(ClassByte, Bytes64(was[..i]))
      invariant forall j | i <= j < mem.Length :: mem[j] == was[j]
    {
      ghost var done := mem[..i];
      if mem[i] != 0 {
        var x := LanesOf(mem[i]);
        var y := ClassifyLanes(table[..], x);
        ClassifyWord(table[..], x);
        LanesRoundTrip(y);
        mem[i] := FromLanes(y);
      } else {
        ZeroStays(mem[i]);
      }
      assert mem[..i] == done && mem[..][..i] == mem[..i] && mem[..][..i + 1] == mem[..i + 1];
      MapSnoc(ClassByte, was, mem[..], i);
      i := i + 1;
    }
    assert mem[..i] == mem[..] && was[..i] == was;
  }

  // ----------------------------------------------------------------- counting routines

  lemma {:induction false} TotalConcat(w: bv8 -> nat, a: Map, b: Map)
    ensures Total(w, a + b) == Total(w, a) + Total(w, b)
  {
    if b == [] {
      assert a + b == a;
    } else {
      var n := |b| - 1;
      TotalConcat(w, a, b[..n]);
      assert (a + b)[..|a + b| - 1] == a + b[..n];
    }
  }

  lemma TotalOfFour(w: bv8 -> nat, a: bv8, b: bv8, c: bv8, d: bv8)
    ensures Total(w, [a, b, c, d]) == w(a) + w(b) + w(c) + w(d)
  {
    TotalConcat(w, [a, b], [c, d]);
    TotalConcat(w, [a], [b]);
    TotalConcat(w, [c], [d]);
    assert [a, b] + [c, d] == [a, b, c, d] && [a] + [b] == [a, b] && [c] + [d] == [c, d];
    assert forall x: bv8 :: Total(w, [x]) == w(x);
  }

  /** The shift-and-mask population count, up to the point where each byte holds the count
      of its own bits. */
  function SwarCounts(v: bv32): bv32 {
    var v1 := v - ((v >> 1) & 0x55555555);
    var v2 := (v1 & 0x33333333) + ((v1 >> 2) & 0x33333333);
    (v2 + (v2 >> 4)) & 0x0f0f0f0f
  }

  function SwarByte(b: bv8): bv8 {
    var b1 := b - ((b >> 1) & 0x55);
    var b2 := (b1 & 0x33) + ((b1 >> 2) & 0x33);
    (b2 + (b2 >> 4)) & 0x0f
  }

  function WordPop(v: bv32): nat {
    Pop(Byte0(v)) + Pop(Byte1(v)) + Pop(Byte2(v)) + Pop(Byte3(v))
  }

  function Byte0(w: bv32): bv8 { (w & 0xff) as bv8 }
  function Byte1(w: bv32): bv8 { ((w >> 8) & 0xff) as bv8 }
  function Byte2(w: bv32): bv8 { ((w >> 16) & 0xff) as bv8 }
  function Byte3(w: bv32): bv8 { ((w >> 24) & 0xff) as bv8 }

  lemma SwarIsBytewise(v: bv32)
    ensures Byte0(SwarCounts(v)) == SwarByte(Byte0(v)) && Byte1(SwarCounts(v)) == SwarByte(Byte1(v))
    ensures Byte2(SwarCounts(v)) == SwarByte(Byte2(v)) && Byte3(SwarCounts(v)) == SwarByte(Byte3(v))
  {
  }

  lemma SwarByteCounts(b: bv8)
    ensures SwarByte(b) as nat == Pop(b) <= 8
  {
  }

  /** The multiplication adds the four bytes up in the top one. */
  function TopByte(x: bv32): bv32 { (x * 0x01010101) >> 24 }

  lemma SumInTopByte(x: bv32)
    requires x & 0xf0f0f0f0 == 0
    ensures TopByte(x) < 256 && TopByte(x) as bv8 == (Byte0(x) + Byte1(x)) + (Byte2(x) + Byte3(x))
  {
  }

  lemma AddCounts(x: bv8, y: bv8, p: nat, q: nat)
    requires x as nat == p && y as nat == q && p <= 16 && q <= 16
    ensures (x + y) as nat == p + q
  {
  }

  lemma Widened(t: bv32, s: bv8, n: nat)
    requires t < 256 && t as bv8 == s && s as nat == n
    ensures t as nat == n
  {
  }

  lemma SwarStaysSmall(v: bv32)
    ensures SwarCounts(v) & 0xf0f0f0f0 == 0
  {
  }

  /** Each byte of the result counts the bits of one byte. */
  lemma SwarPops(v: bv32)
    ensures Byte0(SwarCounts(v)) as nat == Pop(Byte0(v)) <= 8 && Byte1(SwarCounts(v)) as nat == Pop(Byte1(v)) <= 8
    ensures Byte2(SwarCounts(v)) as nat == Pop(Byte2(v)) <= 8 && Byte3(SwarCounts(v)) as nat == Pop(Byte3(v)) <= 8
  {
    SwarIsBytewise(v);
    SwarByteCounts(Byte0(v));
    SwarByteCounts(Byte1(v));
    SwarByteCounts(Byte2(v));
    SwarByteCounts(Byte3(v));
  }

  lemma WidenedSum(t: bv32, u: bv8, v: bv8, p: nat, q: nat)
    requires t < 256 && t as bv8 == u + v && u as nat == p <= 16 && v as nat == q <= 16
    ensures t as nat == p + q
  {
    AddCounts(u, v, p, q);
    Widened(t, u + v, p + q);
  }

  lemma SumCounts(t: bv32, u: bv8, v: bv8, x: bv8, y: bv8, z: bv8, w: bv8)
    requires t < 256 && t as bv8 == u + v && u == x + y && v == z + w
    requires x as nat <= 8 && y as nat <= 8 && z as nat <= 8 && w as nat <= 8
    ensures t as nat == (x as nat + y as nat) + (z as nat + w as nat)
  {
    AddCounts(x, y, x as nat, y as nat);
    AddCounts(z, w, z as nat, w as nat);
    WidenedSum(t, u, v, x as nat + y as nat, z as nat + w as nat);
  }

  lemma TopByteCounts(x: bv32, a: nat, b: nat, c: nat, d: nat)
    requires x & 0xf0f0f0f0 == 0
    requires Byte0(x) as nat == a <= 8 && Byte1(x) as nat == b <= 8
    requires Byte2(x) as nat == c <= 8 && Byte3(x) as nat == d <= 8
    ensures TopByte(x) as nat == a + b + c + d
  {
    SumInTopByte(x);
    SumCounts(TopByte(x), Byte0(x) + Byte1(x), Byte2(x) + Byte3(x), Byte0(x), Byte1(x), Byte2(x), Byte3(x));
  }

  /** The whole population count of one word. */
  lemma SwarWordCounts(v: bv32)
    ensures TopByte(SwarCounts(v)) as nat == WordPop(v)
  {
    SwarPops(v);
    SwarStaysSmall(v);
    TopByteCounts(SwarCounts(v), Pop(Byte0(v)), Pop(Byte1(v)), Pop(Byte2(v)), Pop(Byte3(v)));
  }

  lemma FullWordCounts()
    ensures WordPop(0xffffffff) == 32
  {
  }

  lemma TotalSnoc(w: bv8 -> nat, ws: seq<bv32>, i: nat)
    requires i < |ws|
    ensures Total(w, Bytes32(ws[..i + 1])) ==
            Total(w, Bytes32(ws[..i])) + w(Byte0(ws[i])) + w(Byte1(ws[i])) + w(Byte2(ws[i])) + w(Byte3(ws[i]))
  {
    assert ws[..i + 1][..i] == ws[..i];
    TotalConcat(w, Bytes32(ws[..i]), Split32(ws[i]));
    TotalOfFour(w, Byte0(ws[i]), Byte1(ws[i]), Byte2(ws[i]), Byte3(ws[i]));
  }

  /** The number of set bits of a map. */
  method CountBits(mem: array<bv32>) returns (ret: nat)
    ensures ret == Total(Pop, Bytes32(mem[..]))
  {
    ret := 0;
    var i := 0;
    while i < mem.Length
      invariant i <= mem.Length && ret == Total(Pop, Bytes32(mem[..i]))
    {
      TotalSnoc(Pop, mem[..], i);
      assert mem[..][..i] == mem[..i] && mem[..][..i + 1] == mem[..i + 1];
      var n := CountWord(mem[i]);
      ret := ret + n;
      i := i + 1;
    }
    assert mem[..i] == mem[..];
  }

  method CountWord(v: bv32) returns (n: nat)
    ensures n == WordPop(v)
  {
    if v == 0xffffffff {
      FullWordCounts();
      n := 32;
    } else {
      SwarWordCounts(v);
      n := TopByte(SwarCounts(v)) as nat;
    }
  }

  function IsHit(b: bv8): nat { if b != 0 then 1 else 0 }

  function IsTouched(b: bv8): nat { if b != 0xff then 1 else 0 }

  /** FF(k) selects byte k of a word. */
  lemma MaskSelects(v: bv32)
    ensures v & 0xff != 0 <==> Byte0(v) != 0
    ensures v & 0xff00 != 0 <==> Byte1(v) != 0
    ensures v & 0xff0000 != 0 <==> Byte2(v) != 0
    ensures v & 0xff000000 != 0 <==> Byte3(v) != 0
  {
  }

  lemma MaskCompares(v: bv32)
    ensures v & 0xff != 0xff <==> Byte0(v) != 0xff
    ensures v & 0xff00 != 0xff00 <==> Byte1(v) != 0xff
    ensures v & 0xff0000 != 0xff0000 <==> Byte2(v) != 0xff
    ensures v & 0xff000000 != 0xff000000 <==> Byte3(v) != 0xff
  {
  }

  lemma ZeroHasNoHits(v: bv32)
    requires v == 0
    ensures Byte0(v) == 0 && Byte1(v) == 0 && Byte2(v) == 0 && Byte3(v) == 0
  {
  }

  lemma FullIsUntouched(v: bv32)
    requires v == 0xffffffff
    ensures Byte0(v) == 0xff && Byte1(v) == 0xff && Byte2(v) == 0xff && Byte3(v) == 0xff
  {
  }

  /** The number of bytes of a map that are not zero. */
  method CountBytes(mem: array<bv32>) returns (ret: nat)
    ensures ret == Total(IsHit, Bytes32(mem[..]))
  {
    ret := 0;
    var i := 0;
    while i < mem.Length
      invariant i <= mem.Length && ret == Total(IsHit, Bytes32(mem[..i]))
    {
      TotalSnoc(IsHit, mem[..], i);
      assert mem[..][..i] == mem[..i] && mem[..][..i + 1] == mem[..i + 1];
      var v := mem[i];
      i := i + 1;
      if v == 0 {
        ZeroHasNoHits(v);
        continue;
      }
      MaskSelects(v);
      if v & 0xff != 0 { ret := ret + 1; }
      if v & 0xff00 != 0 { ret := ret + 1; }
      if v & 0xff0000 != 0 { ret := ret + 1; }
      if v & 0xff000000 != 0 { ret := ret + 1; }
    }
    assert mem[..i] == mem[..];
  }

  /** The number of bytes of a virgin map that some trace has touched. */
  method CountNon255Bytes(mem: array<bv32>) returns (ret: nat)
    ensures ret == Total(IsTouched, Bytes32(mem[..]))
  {
    ret := 0;
    var i := 0;
    while i < mem.Length
      invariant i <= mem.Length && ret == Total(IsTouched, Bytes32(mem[..i]))
    {
      TotalSnoc(IsTouched, mem[..], i);
      assert mem[..][..i] == mem[..i] && mem[..][..i + 1] == mem[..i + 1];
      var v := mem[i];
      i := i + 1;
      if v == 0xffffffff {
        FullIsUntouched(v);
        continue;
      }
      MaskCompares(v);
      if v & 0xff != 0xff { ret := ret + 1; }
      if v & 0xff00 != 0xff00 { ret := ret + 1; }
      if v & 0xff0000 != 0xff0000 { ret := ret + 1; }
      if v & 0xff000000 != 0xff000000 { ret := ret + 1; }
    }
    assert mem[..i] == mem[..];
  }
}
