/** The automatic dictionary of AFL/afl-fuzz.c: maybe_add_auto with the tokens it rejects, its
    two sorts and its random eviction. */
module AutoDict {
  import opened Machine
  import opened ArithDedup

  const MAX_AUTO_EXTRAS: nat := 500
  const USE_AUTO_EXTRAS: nat := 50

  type Token = seq<u8>

  datatype Extra = Extra(data: Token, hits: nat)

  // --------------------------------------------------------- comparing tokens

  /** tolower in the C locale. */
  function ToLower(c: u8): u8 {
    if 65 <= c <= 90 then c + 32 else c
  }

  function Fold(t: Token): (r: Token)
    ensures |r| == |t|
  {
    seq(|t|, i requires 0 <= i < |t| => ToLower(t[i]))
  }

  lemma FoldEqual(a: Token, b: Token)
    requires |a| == |b|
    ensures Fold(a) == Fold(b) <==> forall i | 0 <= i < |a| :: ToLower(a[i]) == ToLower(b[i])
  {
    if Fold(a) == Fold(b) {
      forall i | 0 <= i < |a|
        ensures ToLower(a[i]) == ToLower(b[i])
      {
        assert Fold(a)[i] == Fold(b)[i];
      }
    }
  }

  /** memcmp_nocase; true when the tokens differ. */
  method DifferNoCase(m1: Token, m2: Token) returns (differ: bool)
    requires |m1| == |m2|
    ensures differ <==> Fold(m1) != Fold(m2)
  {
    FoldEqual(m1, m2);
    var i := 0;
    while i < |m1|
      invariant i <= |m1| && forall k | 0 <= k < i :: ToLower(m1[k]) == ToLower(m2[k])
    {
      if ToLower(m1[i]) != ToLower(m2[i]) {
        return true;
      }
      i := i + 1;
    }
    return false;
  }

  // --------------------------------------------------------------- the sorts

  ghost predicate SortedBy(s: seq<Extra>, key: Extra -> int) {
    forall i, j | 0 <= i <= j < |s| :: key(s[i]) <= key(s[j])
  }

  function InsertAt(s: seq<Extra>, i: nat, e: Extra): (r: seq<Extra>)
    requires i <= |s|
    ensures |r| == |s| + 1
  {
    seq(|s| + 1, k requires 0 <= k <= |s| => if k < i then s[k] else if k == i then e else s[k - 1])
  }

  lemma InsertAtSorts(s: seq<Extra>, i: nat, e: Extra, key: Extra -> int)
    requires SortedBy(s, key) && i <= |s|
    requires (forall k | 0 <= k < i :: key(s[k]) < key(e)) && (i < |s| ==> key(e) <= key(s[i]))
    ensures SortedBy(InsertAt(s, i, e), key)
  {
  }

  lemma InsertAtAdds(s: seq<Extra>, i: nat, e: Extra)
    requires i <= |s|
    ensures InsertAt(s, i, e) == s[..i] + [e] + s[i..]
    ensures multiset(InsertAt(s, i, e)) == multiset(s) + multiset{e}
  {
    assert s == s[..i] + s[i..];
    assert InsertAt(s, i, e) == s[..i] + [e] + s[i..];
  }

  method Insert(s: seq<Extra>, e: Extra, key: Extra -> int) returns (r: seq<Extra>)
    requires SortedBy(s, key)
    ensures SortedBy(r, key) && multiset(r) == multiset(s) + multiset{e}
  {
    var i := 0;
    while i < |s| && key(s[i]) < key(e)
      invariant i <= |s| && forall k | 0 <= k < i :: key(s[k]) < key(e)
    {
      i := i + 1;
    }
    InsertAtSorts(s, i, e, key);
    InsertAtAdds(s, i, e);
    r := s[..i] + [e] + s[i..];
  }

  /** qsort: the elements in order of their keys, equal keys in no particular order. */
  method QSort(s: seq<Extra>, key: Extra -> int) returns (r: seq<Extra>)
    ensures SortedBy(r, key) && multiset(r) == multiset(s)
  {
    r := [];
    var i := 0;
    while i < |s|
      invariant i <= |s| && SortedBy(r, key) && multiset(r) == multiset(s[..i])
    {
      assert s[..i + 1] == s[..i] + [s[i]];
      r := Insert(r, s[i], key);
      i := i + 1;
    }
    assert s[..i] == s;
  }

  function ByUse(e: Extra): int { -(e.hits as int) }
  function ByLength(e: Extra): int { |e.data| }

  // ------------------------------------------------------------- the invariant

  /** No two entries are the same token in different case. */
  ghost predicate Distinct(s: seq<Extra>) {
    forall i, j | 0 <= i < j < |s| :: Fold(s[i].data) != Fold(s[j].data)
  }

  function Top(s: seq<Extra>): nat {
    if |s| < 50 then |s| else 50
  }

  /** The part the overwrite stage uses is in order of length and no entry after it has
      been seen more often. */
  ghost predicate Ranked(s: seq<Extra>) {
    && SortedBy(s[..Top(s)], ByLength)
    && forall i, j | 0 <= i < Top(s) <= j < |s| :: s[i].hits >= s[j].hits
  }

  ghost predicate Ok(s: seq<Extra>) {
    |s| <= 500 && Distinct(s) && Ranked(s)
  }

  /** The same, said without reference to positions. */
  ghost predicate DistinctBag(m: multiset<Extra>) {
    && (forall x <- m :: m[x] == 1)
    && (forall x <- m, y <- m :: x != y ==> Fold(x.data) != Fold(y.data))
  }

  lemma OnceEach(s: seq<Extra>, i: nat)
    requires i < |s| && Distinct(s)
    ensures multiset(s)[s[i]] == 1
  {
    assert s == s[..i] + [s[i]] + s[i + 1..];
    assert s[i] !in s[..i] && s[i] !in s[i + 1..];
  }

  lemma TwiceIn(s: seq<Extra>, i: nat, j: nat)
    requires i < j < |s| && s[i] == s[j]
    ensures multiset(s)[s[i]] >= 2
  {
    assert s == s[..j] + s[j..];
    assert s[i] in s[..j] && s[j] in s[j..];
  }

  lemma DistinctIsBag(s: seq<Extra>)
    ensures Distinct(s) <==> DistinctBag(multiset(s))
  {
    if Distinct(s) {
      forall x <- multiset(s)
        ensures multiset(s)[x] == 1
      {
        var i :| 0 <= i < |s| && s[i] == x;
        OnceEach(s, i);
      }
    }
    if DistinctBag(multiset(s)) {
      forall i, j | 0 <= i < j < |s|
        ensures Fold(s[i].data) != Fold(s[j].data)
      {
        if s[i] == s[j] {
          TwiceIn(s, i, j);
        }
      }
    }
  }

  /** A permutation of a list without duplicates has none. */
  lemma PermutedDistinct(s: seq<Extra>, t: seq<Extra>)
    requires Distinct(s) && multiset(s) == multiset(t)
    ensures Distinct(t)
  {
    DistinctIsBag(s);
    DistinctIsBag(t);
  }

  method SortExtras(s: seq<Extra>) returns (r: seq<Extra>)
    ensures multiset(r) == multiset(s) && Ranked(r)
  {
    var used := QSort(s, ByUse);
    var top: nat := if |used| < USE_AUTO_EXTRAS then |used| else USE_AUTO_EXTRAS;
    var front := QSort(used[..top], ByLength);
    r := front + used[top..];
    SortedFront(s, used, front, r);
  }

  lemma SortedFront(s: seq<Extra>, used: seq<Extra>, front: seq<Extra>, r: seq<Extra>)
    requires SortedBy(used, ByUse) && multiset(used) == multiset(s)
    requires SortedBy(front, ByLength) && multiset(front) == multiset(used[..Top(used)])
    requires r == front + used[Top(used)..]
    ensures multiset(r) == multiset(s) && Ranked(r)
  {
    assert used == used[..Top(used)] + used[Top(used)..];
    assert |front| == |multiset(front)| == Top(used);
    assert |r| == |used| && r[..Top(r)] == front;
    forall i, j | 0 <= i < Top(r) <= j < |r|
      ensures r[i].hits >= r[j].hits
    {
      assert r[i] in multiset(front);
      var k :| 0 <= k < Top(used) && used[..Top(used)][k] == r[i];
      assert ByUse(used[k]) <= ByUse(used[j]);
    }
  }

  // ------------------------------------------------------------ the rejections

  /** A run of one byte value. */
  ghost predicate Uniform(mem: Token) {
    |mem| > 0 && forall i | 0 <= i < |mem| :: mem[i] == mem[0]
  }

  method IsUniform(mem: Token) returns (uniform: bool)
    ensures uniform <==> Uniform(mem)
  {
    var i := 1;
    while i < |mem| && mem[0] == mem[i]
      invariant 1 <= i && (|mem| > 0 ==> i <= |mem|) && forall k | 0 <= k < i && k < |mem| :: mem[k] == mem[0]
    {
      i := i + 1;
    }
    uniform := i == |mem|;
  }

  const INTERESTING_8: seq<int> := [-128, -1, 0, 1, 16, 32, 64, 100, 127]
  const INTERESTING_16: seq<int> := INTERESTING_8 + [-32768, -129, 128, 255, 256, 512, 1000, 1024, 4096, 32767]
  const INTERESTING_32: seq<int> :=
    INTERESTING_16 + [-2147483648, -100663046, -32769, 32768, 65535, 65536, 100663045, 2147483647]

  /** Two bytes as a little-endian machine loads them. */
  function Load16(mem: Token): (r: nat)
    requires |mem| == 2
    ensures r < WORD
  {
    mem[0] as int + 0x100 * mem[1] as int
  }

  function Load32(mem: Token): (r: nat)
    requires |mem| == 4
    ensures r < DWORD
  {
    Load16(mem[..2]) + WORD * Load16(mem[2..])
  }

  /** A two-byte value as it lies in memory, low byte first; the reverse is its big-endian
      form. */
  function Little16(v: int): (r: Token)
    ensures |r| == 2
  {
    [(v % WORD % 0x100) as u8, (v % WORD / 0x100) as u8]
  }

  function Little32(v: int): (r: Token)
    ensures |r| == 4
  {
    Little16(v % DWORD % WORD) + Little16(v % DWORD / WORD)
  }

  function Reversed(t: Token): Token {
    seq(|t|, i requires 0 <= i < |t| => t[|t| - 1 - i])
  }

  /** What the rejection is for: the token is a built-in value in one byte order or the
      other. */
  ghost predicate IsValue(mem: Token) {
    || (exists k | 0 <= k < |INTERESTING_16| :: InEitherOrder(mem, Little16(INTERESTING_16[k])))
    || (exists k | 0 <= k < |INTERESTING_32| :: InEitherOrder(mem, Little32(INTERESTING_32[k])))
  }

  ghost predicate InEitherOrder(mem: Token, t: Token) {
    mem == t || mem == Reversed(t)
  }

  /** The 16-bit test widens both sides to int, so its first half is never met by a
      negative value. */
  predicate Meets16(w: nat, v: int) {
    w == v || w == Swap16(v % WORD)
  }

  /** The 32-bit test compares unsigned. */
  predicate Meets32(d: nat, v: int) {
    d == v % DWORD || d == Swap32(v % DWORD)
  }

  /** The loops over the two tables, as C compares. */
  ghost predicate Met(mem: Token) {
    || (|mem| == 2 && exists k | 0 <= k < |INTERESTING_16| :: Meets16(Load16(mem), INTERESTING_16[k]))
    || (|mem| == 4 && exists k | 0 <= k < |INTERESTING_32| :: Meets32(Load32(mem), INTERESTING_32[k]))
  }

  /** The one token the test misses: -128 with its low byte first. */
  const MISSED: Token := [0x80, 0xff]

  /** `w` is what v is in 16 bits. */
  lemma Order16(mem: Token, v: int, w: nat)
    requires |mem| == 2 && w == v % WORD
    ensures mem == Little16(v) <==> Load16(mem) == w
    ensures mem == Reversed(Little16(v)) <==> Load16(mem) == Swap16(w)
  {
    var r := Reversed(Little16(v));
    assert r[0] == Little16(v)[1] && r[1] == Little16(v)[0];
    assert mem == [mem[0], mem[1]] && r == [r[0], r[1]];
  }

  lemma Halves(mem: Token, a: Token, b: Token)
    requires |mem| == 4 && |a| == |b| == 2
    ensures mem == a + b <==> mem[..2] == a && mem[2..] == b
  {
    assert mem == mem[..2] + mem[2..];
    assert (a + b)[..2] == a && (a + b)[2..] == b;
  }

  lemma PairUnique(x: nat, y: nat, a: nat, b: nat)
    requires x < WORD && a < WORD
    ensures x + WORD * y == a + WORD * b <==> x == a && y == b
  {
  }

  lemma ReversedPair(a: Token, b: Token)
    ensures Reversed(a + b) == Reversed(b) + Reversed(a)
  {
  }

  lemma Order32(mem: Token, v: int)
    requires |mem| == 4
    ensures mem == Little32(v) <==> Load32(mem) == v % DWORD
    ensures mem == Reversed(Little32(v)) <==> Load32(mem) == Swap32(v % DWORD)
  {
    var d := v % DWORD;
    var lo, hi := d % WORD, d / WORD;
    Order16(mem[..2], lo, lo);
    Order16(mem[2..], hi, hi);
    Halves(mem, Little16(lo), Little16(hi));
    PairUnique(Load16(mem[..2]), Load16(mem[2..]), lo, hi);
    Order16(mem[..2], hi, hi);
    Order16(mem[2..], lo, lo);
    ReversedPair(Little16(lo), Little16(hi));
    Halves(mem, Reversed(Little16(hi)), Reversed(Little16(lo)));
    PairUnique(Load16(mem[..2]), Load16(mem[2..]), Swap16(hi), Swap16(lo));
  }

  lemma SmallTable(k: nat)
    requires k < |INTERESTING_16|
    ensures var v := INTERESTING_16[k]; v < WORD && (v < 0 ==> v == -128 || v == -1 || v == -32768 || v == -129)
  {
  }

  /** Negative values are met as the big-endian form of another one, but for -128. */
  lemma Counterpart(v: int) returns (j: nat)
    requires v == -1 || v == -32768 || v == -129
    ensures j < |INTERESTING_16| && Meets16(v % WORD, INTERESTING_16[j])
  {
    j := if v == -1 then 1 else if v == -32768 then 11 else 18;
    assert INTERESTING_16[1] == -1 && INTERESTING_16[11] == 128 && INTERESTING_16[18] == 32767;
  }

  lemma OnlyMissed(mem: Token)
    requires mem == Little16(-128)
    ensures mem == MISSED
  {
  }

  lemma MetBy(mem: Token, j: nat)
    requires |mem| == 2 && j < |INTERESTING_16| && Meets16(Load16(mem), INTERESTING_16[j])
    ensures Met(mem)
  {
  }

  /** A two-byte value in memory order is met, but for one. */
  lemma MetInOrder(mem: Token, k: nat)
    requires k < |INTERESTING_16| && mem == Little16(INTERESTING_16[k]) && mem != MISSED
    ensures Met(mem)
  {
    var v := INTERESTING_16[k];
    SmallTable(k);
    Order16(mem, v, v % WORD);
    if v >= 0 {
      MetBy(mem, k);
    } else if v == -128 {
      OnlyMissed(mem);
    } else {
      var j := Counterpart(v);
      MetBy(mem, j);
    }
  }

  lemma NothingMeets(w: nat, k: nat)
    requires w == 0xff80 && k < |INTERESTING_16|
    ensures !Meets16(w, INTERESTING_16[k])
  {
  }

  lemma MissedIsValue()
    ensures IsValue(MISSED)
  {
    OnlyMissed(Little16(-128));
    assert INTERESTING_16[0] == -128 && InEitherOrder(MISSED, Little16(INTERESTING_16[0]));
  }

  lemma MissedIsNotMet()
    ensures IsValue(MISSED) && !Met(MISSED)
  {
    MissedIsValue();
    assert Load16(MISSED) == 0xff80;
    forall k | 0 <= k < |INTERESTING_16|
      ensures !Meets16(Load16(MISSED), INTERESTING_16[k])
    {
      NothingMeets(Load16(MISSED), k);
    }
  }

  /** The test rejects exactly the built-in values in either byte order, but for one. */
  lemma MetExactly(mem: Token)
    ensures Met(mem) <==> IsValue(mem) && mem != MISSED
  {
    MissedIsNotMet();
    if mem != MISSED {
      MetExactly16(mem);
      MetExactly32(mem);
    }
  }

  lemma MetExactly16(mem: Token)
    requires mem != MISSED
    ensures |mem| == 2 ==> (Met(mem) <==> IsValue(mem))
  {
    if |mem| == 2 {
      forall k | 0 <= k < |INTERESTING_16|
        ensures Meets16(Load16(mem), INTERESTING_16[k]) ==> InEitherOrder(mem, Little16(INTERESTING_16[k]))
        ensures InEitherOrder(mem, Little16(INTERESTING_16[k])) ==> Met(mem)
      {
        MetAt16(mem, k);
      }
    }
  }

  lemma MetAt16(mem: Token, k: nat)
    requires |mem| == 2 && mem != MISSED && k < |INTERESTING_16|
    ensures Meets16(Load16(mem), INTERESTING_16[k]) ==> InEitherOrder(mem, Little16(INTERESTING_16[k]))
    ensures InEitherOrder(mem, Little16(INTERESTING_16[k])) ==> Met(mem)
  {
    MetInEitherOrder(mem, INTERESTING_16[k]);
    if mem == Little16(INTERESTING_16[k]) {
      MetInOrder(mem, k);
    }
  }

  lemma MetInEitherOrder(mem: Token, v: int)
    requires |mem| == 2
    ensures Meets16(Load16(mem), v) ==> InEitherOrder(mem, Little16(v))
    ensures mem == Reversed(Little16(v)) ==> Meets16(Load16(mem), v)
  {
    Order16(mem, v, v % WORD);
  }

  lemma MetExactly32(mem: Token)
    ensures |mem| != 2 ==> (Met(mem) <==> IsValue(mem))
  {
    if |mem| == 4 {
      forall k | 0 <= k < |INTERESTING_32|
        ensures Meets32(Load32(mem), INTERESTING_32[k]) <==> InEitherOrder(mem, Little32(INTERESTING_32[k]))
      {
        Order32(mem, INTERESTING_32[k]);
      }
    }
  }

  method IsBuiltin(mem: Token) returns (builtin: bool)
    ensures builtin <==> IsValue(mem) && mem != MISSED
  {
    MetExactly(mem);
    if |mem| == 2 {
      var i: nat := |INTERESTING_16|;
      while i > 0
        invariant i <= |INTERESTING_16|
        invariant forall k | i <= k < |INTERESTING_16| :: !Meets16(Load16(mem), INTERESTING_16[k])
      {
        i := i - 1;
        if Meets16(Load16(mem), INTERESTING_16[i]) {
          return true;
        }
      }
    }
    if |mem| == 4 {
      var i: nat := |INTERESTING_32|;
      while i > 0
        invariant i <= |INTERESTING_32|
        invariant forall k | i <= k < |INTERESTING_32| :: !Meets32(Load32(mem), INTERESTING_32[k])
      {
        i := i - 1;
        if Meets32(Load32(mem), INTERESTING_32[i]) {
          return true;
        }
      }
    }
    return false;
  }

  ghost predicate ByLengthOrder(extras: seq<Token>) {
    forall i, j | 0 <= i <= j < |extras| :: |extras[i]| <= |extras[j]|
  }

  /** Some user-supplied token is the same but for case. */
  ghost predicate Supplied(extras: seq<Token>, mem: Token) {
    exists k | 0 <= k < |extras| :: Fold(extras[k]) == Fold(mem)
  }

  /** The scan starts at the first token that is long enough and ends at the first one
      that is too long; because of the order it misses nothing. */
  method IsSupplied(extras: seq<Token>, mem: Token) returns (found: bool)
    requires ByLengthOrder(extras)
    ensures found <==> Supplied(extras, mem)
  {
    var i := 0;
    while i < |extras| && |extras[i]| < |mem|
      invariant i <= |extras| && forall k | 0 <= k < i :: |extras[k]| < |mem|
    {
      i := i + 1;
    }
    ghost var start := i;
    while i < |extras| && |extras[i]| == |mem|
      invariant start <= i <= |extras| && forall k | start <= k < i :: Fold(extras[k]) != Fold(mem)
    {
      var differ := DifferNoCase(extras[i], mem);
      if !differ {
        return true;
      }
      i := i + 1;
    }
    assert forall k | i <= k < |extras| :: |extras[k]| > |mem| by {
      assert i < |extras| ==> |extras[i]| > |mem|;
    }
    return false;
  }

  ghost predicate Rejected(extras: seq<Token>, mem: Token) {
    Uniform(mem) || (IsValue(mem) && mem != MISSED) || Supplied(extras, mem)
  }

  // ------------------------------------------------------------ the dictionary

  ghost predicate Unused(s: seq<Extra>, mem: Token) {
    forall i | 0 <= i < |s| :: Fold(s[i].data) != Fold(mem)
  }

  /** Entry i is the token but for case; there is none if i is the length. */
  ghost predicate FoundAt(s: seq<Extra>, mem: Token, i: nat) {
    i <= |s| && if i < |s| then Fold(s[i].data) == Fold(mem) else Unused(s, mem)
  }

  /** One more hit for a known token; a new one appended, or put in the place of a victim
      from the lower half of a full list. */
  function WithToken(s: seq<Extra>, mem: Token, i: nat, victim: nat): seq<Extra>
    requires i <= |s| <= MAX_AUTO_EXTRAS && victim < MAX_AUTO_EXTRAS
  {
    if i < |s| then s[i := Extra(s[i].data, s[i].hits + 1)]
    else if |s| < MAX_AUTO_EXTRAS then s + [Extra(mem, 0)]
    else s[victim := Extra(mem, 0)]
  }

  /** These are the entries a call leaves, in some order. */
  ghost predicate Updated(before: seq<Extra>, after: seq<Extra>, mem: Token, victim: nat)
    requires |before| <= MAX_AUTO_EXTRAS && victim < MAX_AUTO_EXTRAS
  {
    exists i: nat :: FoundAt(before, mem, i) && multiset(after) == multiset(WithToken(before, mem, i, victim))
  }

  ghost predicate Keeps(s: seq<Extra>, data: Token) {
    exists e <- s :: e.data == data
  }

  method FindExtra(s: seq<Extra>, mem: Token) returns (i: nat)
    ensures FoundAt(s, mem, i)
  {
    i := 0;
    while i < |s|
      invariant i <= |s| && forall k | 0 <= k < i :: Fold(s[k].data) != Fold(mem)
    {
      if |s[i].data| == |mem| {
        var differ := DifferNoCase(s[i].data, mem);
        if !differ {
          return;
        }
      }
      i := i + 1;
    }
  }

  lemma EntryReplaced(s: seq<Extra>, i: nat, e: Extra)
    requires i < |s| && Distinct(s)
    requires forall k | 0 <= k < |s| && k != i :: Fold(s[k].data) != Fold(e.data)
    ensures Distinct(s[i := e])
  {
  }

  /** At most one entry is the token. */
  lemma StaysDistinct(s: seq<Extra>, mem: Token, i: nat, victim: nat)
    requires |s| <= MAX_AUTO_EXTRAS && Distinct(s) && FoundAt(s, mem, i) && victim < MAX_AUTO_EXTRAS
    ensures Distinct(WithToken(s, mem, i, victim))
  {
    if i < |s| {
      EntryReplaced(s, i, Extra(s[i].data, s[i].hits + 1));
    } else if |s| == MAX_AUTO_EXTRAS {
      EntryReplaced(s, victim, Extra(mem, 0));
    }
  }

  /** What the call does before it sorts. */
  method Enter(s: seq<Extra>, mem: Token, pick: nat) returns (r: seq<Extra>)
    requires |s| <= MAX_AUTO_EXTRAS && Distinct(s) && pick < (MAX_AUTO_EXTRAS + 1) / 2
    ensures |r| <= MAX_AUTO_EXTRAS && Distinct(r) && Updated(s, r, mem, MAX_AUTO_EXTRAS / 2 + pick)
  {
    var i := FindExtra(s, mem);
    StaysDistinct(s, mem, i, MAX_AUTO_EXTRAS / 2 + pick);
    ghost var with := WithToken(s, mem, i, MAX_AUTO_EXTRAS / 2 + pick);
    if i < |s| {
      r := s[i := Extra(s[i].data, s[i].hits + 1)];
    } else if |s| < MAX_AUTO_EXTRAS {
      r := s + [Extra(mem, 0)];
    } else {
      var victim := MAX_AUTO_EXTRAS / 2 + pick;
      r := s[victim := Extra(mem, 0)];
    }
    assert r == with;
  }

  class Dictionary {
    const extras: seq<Token>
    var auto: seq<Extra>
    var autoChanged: bool

    ghost predicate Valid()
      reads this
    {
      ByLengthOrder(extras) && Ok(auto)
    }

    constructor (extras: seq<Token>)
      requires ByLengthOrder(extras)
      ensures Valid() && this.extras == extras && auto == [] && !autoChanged
    {
      this.extras, auto, autoChanged := extras, [], false;
    }

    /** `pick` is the number the random generator returns should there be no room. */
    method MaybeAddAuto(mem: Token, pick: nat)
      requires Valid() && pick < (MAX_AUTO_EXTRAS + 1) / 2
      modifies this
      ensures Valid()
      ensures Rejected(extras, mem) ==> auto == old(auto) && autoChanged == old(autoChanged)
      ensures !Rejected(extras, mem) ==>
                autoChanged && Updated(old(auto), auto, mem, MAX_AUTO_EXTRAS / 2 + pick)
      ensures forall i | 0 <= i < Top(old(auto)) :: Keeps(auto, old(auto)[i].data)
    {
      ghost var before := auto;
      AllKept(auto);
      var reject := IsUniform(mem);
      if reject {
        return;
      }
      reject := IsBuiltin(mem);
      if reject {
        return;
      }
      reject := IsSupplied(extras, mem);
      if reject {
        return;
      }
      autoChanged := true;
      var entered := Enter(auto, mem, pick);
      auto := SortExtras(entered);
      PermutedDistinct(entered, auto);
      SameSize(entered, auto);
      TopStays(before, auto, mem, MAX_AUTO_EXTRAS / 2 + pick);
    }
  }

  lemma SameSize(s: seq<Extra>, t: seq<Extra>)
    requires multiset(s) == multiset(t)
    ensures |s| == |t|
  {
    assert |multiset(s)| == |s| && |multiset(t)| == |t|;
  }

  lemma AllKept(s: seq<Extra>)
    ensures forall i | 0 <= i < |s| :: Keeps(s, s[i].data)
  {
    forall i | 0 <= i < |s|
      ensures Keeps(s, s[i].data)
    {
      assert s[i] in s;
    }
  }

  lemma StaysInBag(mid: seq<Extra>, after: seq<Extra>, i: nat)
    requires i < |mid| && multiset(after) == multiset(mid)
    ensures Keeps(after, mid[i].data)
  {
    assert mid[i] in multiset(mid);
    assert mid[i] in multiset(after);
    assert mid[i] in after;
  }

  lemma OneStays(before: seq<Extra>, after: seq<Extra>, mem: Token, k: nat, victim: nat, i: nat)
    requires MAX_AUTO_EXTRAS / 2 <= victim < MAX_AUTO_EXTRAS && k <= |before| <= MAX_AUTO_EXTRAS && i < Top(before)
    requires multiset(after) == multiset(WithToken(before, mem, k, victim))
    ensures Keeps(after, before[i].data)
  {
    StaysInBag(WithToken(before, mem, k, victim), after, i);
  }

  /** No call drops one of the first 50 tokens. */
  lemma TopStays(before: seq<Extra>, after: seq<Extra>, mem: Token, victim: nat)
    requires MAX_AUTO_EXTRAS / 2 <= victim < MAX_AUTO_EXTRAS && |before| <= MAX_AUTO_EXTRAS
    requires Updated(before, after, mem, victim)
    ensures forall i | 0 <= i < Top(before) :: Keeps(after, before[i].data)
  {
    var k: nat :| FoundAt(before, mem, k) && multiset(after) == multiset(WithToken(before, mem, k, victim));
    forall i | 0 <= i < Top(before)
      ensures Keeps(after, before[i].data)
    {
      OneStays(before, after, mem, k, victim, i);
    }
  }
}
