/** The favoured-queue bookkeeping of AFL/afl-fuzz.c, as functions. */
module Scoreboard {
  import opened Bits
  import opened TraceMini

  // The per-byte winner table kept by update_bitmap_score, the greedy cover chosen by
  // cull_queue, and the pending counters that add_to_queue, cull_queue and the end of
  // fuzz_one maintain.  Queue entries are named by their position in the queue.  The
  // functions here are the specification; FavoredQueue.dfy proves the in-place code
  // equal to them.

  datatype Option<T> = None | Some(value: T)

  datatype Entry = Entry(
    execUs: nat, len: nat, wasFuzzed: bool, favored: bool,
    tcRef: nat, traceMini: Option<seq<bv8>>)

  datatype Board = Board(
    queue: seq<Entry>,
    topRated: seq<Option<nat>>,
    scoreChanged: bool,
    queuedFavored: int, pendingFavored: int, pendingNotFuzzed: int)

  function Factor(e: Entry): nat { e.execUs * e.len }

  /** Every winner is an entry of the queue; the map has whole packed bytes. */
  ghost predicate WellFormed(b: Board) {
    && |b.topRated| % 8 == 0
    && (forall i | 0 <= i < |b.topRated| && b.topRated[i].Some? :: b.topRated[i].value < |b.queue|)
    && (forall e | 0 <= e < |b.queue| && b.queue[e].traceMini.Some? :: |b.queue[e].traceMini.value| == |b.topRated| / 8)
  }

  // ------------------------------------------------------------ update_bitmap_score

  /** The previous winner of slot i loses one reference, and its trace with the last one. */
  function Release(b: Board, i: nat): Board
    requires i < |b.topRated| && b.topRated[i].Some? && b.topRated[i].value < |b.queue|
  {
    var h := b.topRated[i].value;
    var refs := if b.queue[h].tcRef == 0 then 0 else b.queue[h].tcRef - 1;
    b.(queue := b.queue[h := b.queue[h].(tcRef := refs,
                                         traceMini := if refs == 0 then None else b.queue[h].traceMini)])
  }

  function Take(b: Board, i: nat, q: nat, trace: Trace): Board
    requires i < |b.topRated| && q < |b.queue|
  {
    b.(topRated := b.topRated[i := Some(q)],
       queue := b.queue[q := b.queue[q].(tcRef := b.queue[q].tcRef + 1,
                                         traceMini := if b.queue[q].traceMini.None? then Some(Squeezed(trace))
                                             else b.queue[q].traceMini)],
       scoreChanged := true)
  }

  function ScoreSlot(b: Board, i: nat, q: nat, favFactor: nat, trace: Trace): (r: Board)
    requires WellFormed(b) && |trace| == |b.topRated| && i < |trace| && q < |b.queue|
    ensures WellFormed(r) && |r.queue| == |b.queue| && |r.topRated| == |b.topRated|
  {
    if trace[i] == 0 then b
    else if b.topRated[i].Some? then
      if favFactor > Factor(b.queue[b.topRated[i].value]) then b else Take(Release(b, i), i, q, trace)
    else Take(b, i, q, trace)
  }

  /** The first n slots, for an entry whose speed x size factor is computed beforehand. */
  function ScoreUpTo(b: Board, n: nat, q: nat, favFactor: nat, trace: Trace): (r: Board)
    requires WellFormed(b) && |trace| == |b.topRated| && n <= |trace| && q < |b.queue|
    ensures WellFormed(r) && |r.queue| == |b.queue| && |r.topRated| == |b.topRated|
  {
    if n == 0 then b
    else ScoreSlot(ScoreUpTo(b, n - 1, q, favFactor, trace), n - 1, q, favFactor, trace)
  }

  function Score(b: Board, q: nat, trace: Trace): (r: Board)
    requires WellFormed(b) && |trace| == |b.topRated| && q < |b.queue|
    ensures WellFormed(r) && |r.queue| == |b.queue| && |r.topRated| == |b.topRated|
  {
    ScoreUpTo(b, |trace|, q, Factor(b.queue[q]), trace)
  }

  // ------------------------------------------------------------ what the table means

  /** The last submission of an entry: the trace and the factor it was scored with. */
  datatype Submission = Submission(trace: Trace, factor: nat)
  type History = map<nat, Submission>

  predicate Hits(subs: History, e: nat, i: nat) {
    e in subs && i < |subs[e].trace| && subs[e].trace[i] != 0
  }

  /** Slot i is taken exactly if somebody was submitted with byte i hit, and its holder has
      the least factor among all of those. */
  ghost predicate SlotOk(top: Option<nat>, subs: History, i: nat) {
    && (top.Some? <==> exists e: nat :: Hits(subs, e, i))
    && (top.Some? ==>
          && Hits(subs, top.value, i)
          && forall e: nat | Hits(subs, e, i) :: subs[top.value].factor <= subs[e].factor)
  }

  function HeldBy(e: nat): Option<nat> -> bool {
    (t: Option<nat>) => t == Some(e)
  }

  /** The number of slots entry e holds. */
  function Holds(top: seq<Option<nat>>, e: nat): nat {
    Count(top, HeldBy(e))
  }

  /** tc_ref counts the slots an entry holds; its packed trace is kept exactly while it
      holds one, and is the trace it was submitted with. */
  ghost predicate EntryOk(b: Board, subs: History, e: nat)
    requires e < |b.queue|
  {
    && b.queue[e].tcRef == Holds(b.topRated, e)
    && (b.queue[e].traceMini.Some? <==> b.queue[e].tcRef > 0)
    && (b.queue[e].traceMini.Some? ==> e in subs && b.queue[e].traceMini.value == Squeezed(subs[e].trace))
  }

  ghost predicate HistoryOk(b: Board, subs: History) {
    forall e: nat | e in subs :: e < |b.queue| && |subs[e].trace| == |b.topRated|
  }

  /** Entries are compared by the factor they were submitted with. */
  ghost predicate FactorsOk(b: Board, subs: History) {
    forall e: nat | e in subs :: e < |b.queue| && Factor(b.queue[e]) == subs[e].factor
  }

  ghost predicate ScoreInv(b: Board, subs: History) {
    && WellFormed(b) && HistoryOk(b, subs) && FactorsOk(b, subs)
    && SlotsOk(b, subs, 0, |b.topRated|)
    && (forall e | 0 <= e < |b.queue| :: EntryOk(b, subs, e))
  }

  ghost predicate SlotRight(b: Board, subs: History, i: nat) {
    i < |b.topRated| ==> SlotOk(b.topRated[i], subs, i)
  }

  ghost predicate SlotsOk(b: Board, subs: History, lo: nat, hi: nat) {
    forall i | lo <= i < hi :: SlotRight(b, subs, i)
  }

  ghost predicate SameHits(t1: Trace, t2: Trace) {
    |t1| == |t2| && forall i | 0 <= i < |t1| :: t1[i] != 0 <==> t2[i] != 0
  }

  /** An entry may be submitted for the first time, or again with the same hit set and a
      factor that has not grown, as trimming does. */
  ghost predicate MaySubmit(subs: History, q: nat, trace: Trace, factor: nat) {
    q in subs ==> SameHits(trace, subs[q].trace) && factor <= subs[q].factor
  }

  /** The state of the loop after n slots: those are right for the new history, the rest
      still for the old one. */
  ghost predicate Midway(b: Board, old_: History, new_: History, n: nat, q: nat) {
    && WellFormed(b) && HistoryOk(b, new_) && FactorsOk(b, new_)
    && SlotsOk(b, new_, 0, n) && SlotsOk(b, old_, n, |b.topRated|)
    && (forall e | 0 <= e < |b.queue| :: EntryOk(b, new_, e))
  }

  lemma HoldsUpdate(top: seq<Option<nat>>, i: nat, q: nat, e: nat)
    requires i < |top|
    ensures Holds(top[i := Some(q)], e) + (if top[i] == Some(e) then 1 else 0)
            == Holds(top, e) + (if q == e then 1 else 0)
  {
    CountUpdate(top, i, Some(q), HeldBy(e));
  }

  /** Taking a slot, whoever held it, keeps reference counts and packed traces right. */
  lemma TakeKeepsEntries(b: Board, subs: History, i: nat, q: nat, trace: Trace)
    requires WellFormed(b) && |trace| == |b.topRated| && i < |trace| && q < |b.queue|
    requires forall e | 0 <= e < |b.queue| :: EntryOk(b, subs, e)
    requires q in subs && SameHits(trace, subs[q].trace)
    ensures var r := if b.topRated[i].Some? then Take(Release(b, i), i, q, trace) else Take(b, i, q, trace);
            forall e | 0 <= e < |b.queue| :: EntryOk(r, subs, e)
  {
    SqueezedSqueezes(trace);
    SqueezedSqueezes(subs[q].trace);
    SqueezedUnique(Squeezed(trace), Squeezed(subs[q].trace), trace, subs[q].trace);
    var r := if b.topRated[i].Some? then Take(Release(b, i), i, q, trace) else Take(b, i, q, trace);
    if b.topRated[i].Some? {
      CountPositive(b.topRated, i, HeldBy(b.topRated[i].value));
    }
    forall e | 0 <= e < |b.queue|
      ensures EntryOk(r, subs, e)
    {
      HoldsUpdate(b.topRated, i, q, e);
      assert EntryOk(b, subs, e);
    }
  }

  /** The slot just looked at becomes right for the new history. */
  lemma SlotAdvances(top: Option<nat>, r: Option<nat>, old_: History, new_: History, i: nat, q: nat, sub: Submission)
    requires SlotOk(top, old_, i) && i < |sub.trace| && new_ == old_[q := sub]
    requires MaySubmit(old_, q, sub.trace, sub.factor)
    requires r == if sub.trace[i] == 0 then top
                  else if top.Some? && sub.factor > new_[top.value].factor then top
                  else Some(q)
    ensures SlotOk(r, new_, i)
  {
    assert forall e: nat | e != q :: Hits(new_, e, i) <==> Hits(old_, e, i);
    if sub.trace[i] == 0 {
      assert !Hits(new_, q, i) && !Hits(old_, q, i);
    } else {
      assert Hits(new_, q, i);
    }
  }

  lemma ScoreSlotMidway(b: Board, old_: History, new_: History, n: nat, i: nat, q: nat, sub: Submission, r: Board)
    requires n == i + 1 && Midway(b, old_, new_, i, q) && i < |b.topRated| == |sub.trace| && q < |b.queue|
    requires new_ == old_[q := sub] && MaySubmit(old_, q, sub.trace, sub.factor)
    requires r == ScoreSlot(b, i, q, sub.factor, sub.trace)
    ensures Midway(r, old_, new_, n, q)
  {
    assert SlotRight(b, old_, i);
    SlotAdvances(b.topRated[i], r.topRated[i], old_, new_, i, q, sub);
    if r != b {
      TakeKeepsEntries(b, new_, i, q, sub.trace);
    }
    forall j | 0 <= j < n
      ensures SlotRight(r, new_, j)
    {
      assert SlotRight(b, new_, j) || j == i;
    }
    forall j | n <= j < |b.topRated|
      ensures SlotRight(r, old_, j)
    {
      assert SlotRight(b, old_, j);
    }
  }

  lemma {:induction false} ScoreUpToMidway(b: Board, old_: History, new_: History, n: nat, q: nat, sub: Submission)
    returns (r: Board)
    requires Midway(b, old_, new_, 0, q) && n <= |b.topRated| == |sub.trace| && q < |b.queue|
    requires new_ == old_[q := sub] && MaySubmit(old_, q, sub.trace, sub.factor)
    ensures r == ScoreUpTo(b, n, q, sub.factor, sub.trace)
    ensures Midway(r, old_, new_, n, q)
  {
    if n == 0 {
      r := b;
    } else {
      var m := ScoreUpToMidway(b, old_, new_, n - 1, q, sub);
      r := ScoreSlot(m, n - 1, q, sub.factor, sub.trace);
      ScoreSlotMidway(m, old_, new_, n, n - 1, q, sub, r);
    }
  }

  /** The table was right for the history so far; only the entry being submitted may be
      faster or shorter than it was when it was last submitted. */
  ghost predicate ReadyToSubmit(b: Board, subs: History, q: nat, trace: Trace) {
    && WellFormed(b) && HistoryOk(b, subs) && q < |b.queue| && |trace| == |b.topRated|
    && (forall e: nat | e in subs && e != q :: Factor(b.queue[e]) == subs[e].factor)
    && SlotsOk(b, subs, 0, |b.topRated|)
    && (forall e | 0 <= e < |b.queue| :: EntryOk(b, subs, e))
    && MaySubmit(subs, q, trace, Factor(b.queue[q]))
  }

  /** Main result for update_bitmap_score: the table is right again. */
  lemma ScoreKeepsInv(b: Board, subs: History, q: nat, trace: Trace)
    requires ReadyToSubmit(b, subs, q, trace)
    ensures ScoreInv(Score(b, q, trace), subs[q := Submission(trace, Factor(b.queue[q]))])
  {
    var sub := Submission(trace, Factor(b.queue[q]));
    var new_ := subs[q := sub];
    forall e | 0 <= e < |b.queue|
      ensures EntryOk(b, new_, e)
    {
      assert EntryOk(b, subs, e);
      if e == q && b.queue[e].traceMini.Some? {
        SqueezedSqueezes(trace);
        SqueezedSqueezes(subs[q].trace);
        SqueezedUnique(Squeezed(trace), Squeezed(subs[q].trace), trace, subs[q].trace);
      }
    }
    var r := ScoreUpToMidway(b, subs, new_, |trace|, q, sub);
  }

  // --------------------------------------------------------------------- cull_queue

  /** temp_v &= ~trace_mini, byte by byte. */
  function ClearAll(temp: seq<bv8>, mini: seq<bv8>): (r: seq<bv8>)
    requires |temp| == |mini|
    ensures |r| == |temp|
  {
    seq(|temp|, j requires 0 <= j < |temp| => temp[j] & !mini[j])
  }

  lemma ClearAllBits(temp: seq<bv8>, mini: seq<bv8>, i: nat)
    requires |temp| == |mini| && i / 8 < |temp|
    ensures BitAt(ClearAll(temp, mini), i) <==> BitAt(temp, i) && !BitAt(mini, i)
  {
    ClearBits(temp[i / 8], mini[i / 8], i % 8);
  }

  function Unfavor(queue: seq<Entry>): (r: seq<Entry>)
    ensures |r| == |queue|
  {
    seq(|queue|, e requires 0 <= e < |queue| => queue[e].(favored := false))
  }

  function Favor(b: Board, h: nat): Board
    requires h < |b.queue|
  {
    b.(queue := b.queue[h := b.queue[h].(favored := true)],
       queuedFavored := b.queuedFavored + 1,
       pendingFavored := b.pendingFavored + (if b.queue[h].wasFuzzed then 0 else 1))
  }

  function CullSlot(b: Board, temp: seq<bv8>, i: nat): (r: (Board, seq<bv8>))
    requires WellFormed(b) && |temp| == |b.topRated| / 8 && i < |b.topRated|
    ensures WellFormed(r.0) && |r.0.queue| == |b.queue| && r.0.topRated == b.topRated && |r.1| == |temp|
  {
    if b.topRated[i].Some? && BitAt(temp, i) then
      var mini := b.queue[b.topRated[i].value].traceMini;
      (Favor(b, b.topRated[i].value), if mini.Some? then ClearAll(temp, mini.value) else temp)
    else (b, temp)
  }

  function CullUpTo(b: Board, temp: seq<bv8>, n: nat): (r: (Board, seq<bv8>))
    requires WellFormed(b) && |temp| == |b.topRated| / 8 && n <= |b.topRated|
    ensures WellFormed(r.0) && |r.0.queue| == |b.queue| && r.0.topRated == b.topRated && |r.1| == |temp|
  {
    if n == 0 then (b, temp)
    else
      var m := CullUpTo(b, temp, n - 1);
      CullSlot(m.0, m.1, n - 1)
  }

  function CullStart(b: Board): (r: Board)
    requires WellFormed(b)
    ensures WellFormed(r) && |r.queue| == |b.queue| && r.topRated == b.topRated
  {
    b.(queue := Unfavor(b.queue), scoreChanged := false, queuedFavored := 0, pendingFavored := 0)
  }

  function AllOnes(n: nat): (r: seq<bv8>)
    ensures |r| == n
  {
    seq(n, _ => 0xff)
  }

  function Cull(b: Board, dumbMode: bool): (r: Board)
    requires WellFormed(b)
    ensures WellFormed(r) && |r.queue| == |b.queue| && r.topRated == b.topRated
  {
    if dumbMode || !b.scoreChanged then b
    else CullUpTo(CullStart(b), AllOnes(|b.topRated| / 8), |b.topRated|).0
  }

  // -------------------------------------------------------------- counting, covering

  function NumFavored(b: Board): nat { Count(b.queue, (e: Entry) => e.favored) }

  function NumPendingFavored(b: Board): nat { Count(b.queue, (e: Entry) => e.favored && !e.wasFuzzed) }

  function NumNotFuzzed(b: Board): nat { Count(b.queue, (e: Entry) => !e.wasFuzzed) }

  ghost predicate CountersOk(b: Board) {
    b.queuedFavored == NumFavored(b) && b.pendingFavored == NumPendingFavored(b)
  }

  ghost predicate CoveredBy(b: Board, subs: History, i: nat, e: nat) {
    e < |b.queue| && b.queue[e].favored && Hits(subs, e, i)
  }

  ghost predicate Covered(b: Board, subs: History, i: nat) {
    exists e: nat :: CoveredBy(b, subs, i, e)
  }

  /** Some favoured entry hits every byte that anybody hits. */
  ghost predicate AllCovered(b: Board, subs: History) {
    forall i | 0 <= i < |b.topRated| && b.topRated[i].Some? :: Covered(b, subs, i)
  }

  ghost predicate CoveredUpTo(b: Board, subs: History, n: nat) {
    forall i | 0 <= i < n && i < |b.topRated| && b.topRated[i].Some? :: Covered(b, subs, i)
  }

  ghost predicate TempOk(b: Board, temp: seq<bv8>, subs: History) {
    |temp| == |b.topRated| / 8 && |b.topRated| % 8 == 0 &&
    forall i | 0 <= i < |b.topRated| :: BitAt(temp, i) <==> !Covered(b, subs, i)
  }

  /** temp_v holds the bytes that no favoured entry hits; each favoured entry was counted
      once, when its own winning byte was still in there. */
  ghost predicate CullMidway(b: Board, temp: seq<bv8>, subs: History, n: nat) {
    && ScoreInv(b, subs) && |temp| == |b.topRated| / 8
    && CountersOk(b)
    && TempOk(b, temp, subs)
    && CoveredUpTo(b, subs, n)
  }

  /** The winners' claims depend on the winners and the history only. */
  lemma SameWinners(b: Board, r: Board, subs: History)
    requires r.topRated == b.topRated && SlotsOk(b, subs, 0, |b.topRated|)
    ensures SlotsOk(r, subs, 0, |r.topRated|)
  {
    forall i | 0 <= i < |r.topRated|
      ensures SlotRight(r, subs, i)
    {
      assert SlotRight(b, subs, i);
    }
  }

  lemma FavorKeepsScore(b: Board, subs: History, h: nat)
    requires ScoreInv(b, subs) && h < |b.queue|
    ensures ScoreInv(Favor(b, h), subs)
  {
    var r := Favor(b, h);
    SameWinners(b, r, subs);
    forall e | 0 <= e < |r.queue|
      ensures EntryOk(r, subs, e)
    {
      assert EntryOk(b, subs, e);
    }
  }

  lemma FavorCounts(b: Board, h: nat)
    requires h < |b.queue| && !b.queue[h].favored && CountersOk(b)
    ensures CountersOk(Favor(b, h))
  {
    var x := b.queue[h].(favored := true);
    CountUpdate(b.queue, h, x, (e: Entry) => e.favored);
    CountUpdate(b.queue, h, x, (e: Entry) => e.favored && !e.wasFuzzed);
  }

  lemma WinnerHasTrace(b: Board, subs: History, i: nat)
    requires ScoreInv(b, subs) && i < |b.topRated| && b.topRated[i].Some?
    ensures var h := b.topRated[i].value;
            h in subs && b.queue[h].traceMini == Some(Squeezed(subs[h].trace)) && Hits(subs, h, i)
  {
    var h := b.topRated[i].value;
    assert SlotRight(b, subs, i) && EntryOk(b, subs, h);
    CountPositive(b.topRated, i, HeldBy(h));
  }

  /** Clearing the bits of a newly favoured entry keeps temp_v exact. */
  lemma FavorClears(b: Board, temp: seq<bv8>, subs: History, h: nat)
    requires TempOk(b, temp, subs) && h < |b.queue| && h in subs && |subs[h].trace| == |b.topRated|
    ensures TempOk(Favor(b, h), ClearAll(temp, Squeezed(subs[h].trace)), subs)
  {
    var mini := Squeezed(subs[h].trace);
    SqueezedSqueezes(subs[h].trace);
    forall i | 0 <= i < |b.topRated|
      ensures BitAt(ClearAll(temp, mini), i) <==> !Covered(Favor(b, h), subs, i)
    {
      ClearAllBits(temp, mini, i);
      FavorCovers(b, subs, h, i);
      assert BitAt(mini, i) <==> Hits(subs, h, i);
    }
  }

  lemma FavorExtendsCover(b: Board, subs: History, h: nat, n: nat)
    requires h < |b.queue| && CoveredUpTo(b, subs, n) && (n < |b.topRated| ==> Hits(subs, h, n))
    ensures CoveredUpTo(Favor(b, h), subs, n + 1)
  {
    forall i | 0 <= i < n + 1 && i < |b.topRated| && b.topRated[i].Some?
      ensures Covered(Favor(b, h), subs, i)
    {
      FavorCovers(b, subs, h, i);
    }
  }

  lemma CullSlotMidway(b: Board, temp: seq<bv8>, subs: History, n: nat, i: nat, r: (Board, seq<bv8>))
    requires n == i + 1 && CullMidway(b, temp, subs, i) && i < |b.topRated| && r == CullSlot(b, temp, i)
    ensures CullMidway(r.0, r.1, subs, n)
  {
    assert BitAt(temp, i) <==> !Covered(b, subs, i);
    if b.topRated[i].Some? && BitAt(temp, i) {
      var h := b.topRated[i].value;
      WinnerHasTrace(b, subs, i);
      assert !CoveredBy(b, subs, i, h);
      FavorKeepsScore(b, subs, h);
      FavorCounts(b, h);
      FavorClears(b, temp, subs, h);
      FavorExtendsCover(b, subs, h, i);
    }
  }

  lemma FavorCovers(b: Board, subs: History, h: nat, i: nat)
    requires h < |b.queue|
    ensures Covered(Favor(b, h), subs, i) <==> Covered(b, subs, i) || Hits(subs, h, i)
  {
    var r := Favor(b, h);
    if Covered(b, subs, i) {
      var e: nat :| CoveredBy(b, subs, i, e);
      assert CoveredBy(r, subs, i, e);
    }
    if Hits(subs, h, i) {
      assert CoveredBy(r, subs, i, h);
    }
    if Covered(r, subs, i) {
      var e: nat :| CoveredBy(r, subs, i, e);
      assert e == h || CoveredBy(b, subs, i, e);
    }
  }

  lemma {:induction false} CullUpToMidway(b: Board, temp: seq<bv8>, subs: History, n: nat)
    returns (culled: Board, left: seq<bv8>)
    requires CullMidway(b, temp, subs, 0) && n <= |b.topRated|
    ensures (culled, left) == CullUpTo(b, temp, n)
    ensures CullMidway(culled, left, subs, n)
  {
    if n == 0 {
      culled, left := b, temp;
    } else {
      var m, rest := CullUpToMidway(b, temp, subs, n - 1);
      var r := CullSlot(m, rest, n - 1);
      CullSlotMidway(m, rest, subs, n, n - 1, r);
      culled, left := r.0, r.1;
    }
  }

  lemma {:induction false} CountNone<T>(s: seq<T>, p: T -> bool)
    requires forall i | 0 <= i < |s| :: !p(s[i])
    ensures Count(s, p) == 0
  {
    if s != [] {
      CountNone(s[..|s| - 1], p);
    }
  }

  lemma CullStartMidway(b: Board, subs: History)
    requires ScoreInv(b, subs)
    ensures CullMidway(CullStart(b), AllOnes(|b.topRated| / 8), subs, 0)
  {
    var r := CullStart(b);
    SameWinners(b, r, subs);
    forall e | 0 <= e < |r.queue|
      ensures EntryOk(r, subs, e)
    {
      assert EntryOk(b, subs, e);
    }
    CountNone(r.queue, (e: Entry) => e.favored);
    CountNone(r.queue, (e: Entry) => e.favored && !e.wasFuzzed);
    forall i | 0 <= i < |r.topRated|
      ensures BitAt(AllOnes(|b.topRated| / 8), i) && !Covered(r, subs, i)
    {
      AllBits(i % 8);
    }
  }

  /** Main result for cull_queue: when it acts, the favoured entries cover every byte with
      a winner, and both counters are exact. */
  lemma CullCovers(b: Board, subs: History)
    requires ScoreInv(b, subs) && b.scoreChanged
    ensures ScoreInv(Cull(b, false), subs)
    ensures AllCovered(Cull(b, false), subs) && CountersOk(Cull(b, false))
    ensures !Cull(b, false).scoreChanged
  {
    CullStartMidway(b, subs);
    var r, left := CullUpToMidway(CullStart(b), AllOnes(|b.topRated| / 8), subs, |b.topRated|);
    CullUpToFlags(CullStart(b), AllOnes(|b.topRated| / 8), |b.topRated|);
  }

  /** Culling touches nothing but the favoured marks and their two counters. */
  lemma {:induction false} CullUpToFlags(b: Board, temp: seq<bv8>, n: nat)
    requires WellFormed(b) && |temp| == |b.topRated| / 8 && n <= |b.topRated|
    ensures var r := CullUpTo(b, temp, n).0;
            && r.scoreChanged == b.scoreChanged && r.pendingNotFuzzed == b.pendingNotFuzzed
            && forall e | 0 <= e < |b.queue| :: r.queue[e] == b.queue[e].(favored := r.queue[e].favored)
  {
    if n > 0 {
      CullUpToFlags(b, temp, n - 1);
    }
  }

  // ------------------------------------------------------------------ whole sessions

  /** What happens to the queue, in any order: an entry is added, calibrated and scored,
      trimmed and scored again, the queue is culled, or fuzzing an entry comes to its end. */
  datatype Event =
    | Added(len: nat)
    | Calibrated(q: nat, execUs: nat, trace: Trace)
    | Trimmed(q: nat, newLen: nat, trace: Trace)
    | Culled
    | FuzzEnded(q: nat, counts: bool)

  datatype Session = Session(board: Board, subs: History)

  /** Calibration submits an entry once; trimming only shortens an entry that has been
      submitted, and keeps its trace. */
  ghost predicate Possible(s: Session, ev: Event) {
    match ev
    case Added(_) => true
    case Calibrated(q, _, trace) => q < |s.board.queue| && q !in s.subs && |trace| == |s.board.topRated|
    case Trimmed(q, newLen, trace) =>
      && q < |s.board.queue| && q in s.subs && newLen <= s.board.queue[q].len
      && |trace| == |s.board.topRated| && SameHits(trace, s.subs[q].trace)
    case Culled => true
    case FuzzEnded(q, _) => q < |s.board.queue|
  }

  function AddEntry(b: Board, len: nat): Board {
    b.(queue := b.queue + [Entry(0, len, false, false, 0, None)], pendingNotFuzzed := b.pendingNotFuzzed + 1)
  }

  function EndFuzz(b: Board, q: nat): Board
    requires q < |b.queue|
  {
    if b.queue[q].wasFuzzed then b
    else b.(queue := b.queue[q := b.queue[q].(wasFuzzed := true)],
            pendingNotFuzzed := b.pendingNotFuzzed - 1,
            pendingFavored := if b.queue[q].favored then b.pendingFavored - 1 else b.pendingFavored)
  }

  function Submit(s: Session, b: Board, q: nat, trace: Trace): Session
    requires WellFormed(b) && |trace| == |b.topRated| && q < |b.queue|
  {
    Session(Score(b, q, trace), s.subs[q := Submission(trace, Factor(b.queue[q]))])
  }

  ghost function Next(s: Session, ev: Event, dumbMode: bool): Session
    requires WellFormed(s.board) && Possible(s, ev)
  {
    var b := s.board;
    match ev
    case Added(len) => s.(board := AddEntry(b, len))
    case Calibrated(q, execUs, trace) => Submit(s, b.(queue := b.queue[q := b.queue[q].(execUs := execUs)]), q, trace)
    case Trimmed(q, newLen, trace) => Submit(s, b.(queue := b.queue[q := b.queue[q].(len := newLen)]), q, trace)
    case Culled => s.(board := Cull(b, dumbMode))
    case FuzzEnded(q, counts) => if counts then s.(board := EndFuzz(b, q)) else s
  }

  /** What every session keeps. */
  ghost predicate Good(s: Session) {
    && ScoreInv(s.board, s.subs)
    && CountersOk(s.board)
    && s.board.pendingNotFuzzed == NumNotFuzzed(s.board)
    && (!s.board.scoreChanged ==> AllCovered(s.board, s.subs))
  }

  lemma AddKeepsGood(s: Session, len: nat)
    requires Good(s)
    ensures Good(s.(board := AddEntry(s.board, len)))
  {
    var b, r := s.board, AddEntry(s.board, len);
    assert r.queue[..|b.queue|] == b.queue;
    SameWinners(b, r, s.subs);
    forall e | 0 <= e < |r.queue|
      ensures EntryOk(r, s.subs, e)
    {
      if e < |b.queue| {
        assert EntryOk(b, s.subs, e);
      } else {
        CountNone(r.topRated, HeldBy(e));
      }
    }
    StillCovered(b, s.subs, r, s.subs);
  }

  /** A cover survives anything that keeps the winners, the marks and the hit sets. */
  lemma StillCovered(b: Board, subs: History, r: Board, subs': History)
    requires WellFormed(b) && HistoryOk(b, subs)
    requires r.topRated == b.topRated && |b.queue| <= |r.queue|
    requires forall e | 0 <= e < |b.queue| :: r.queue[e].favored == b.queue[e].favored
    requires forall e: nat | e in subs :: e in subs' && SameHits(subs[e].trace, subs'[e].trace)
    ensures AllCovered(b, subs) ==> AllCovered(r, subs')
  {
    if AllCovered(b, subs) {
      forall i | 0 <= i < |r.topRated| && r.topRated[i].Some?
        ensures Covered(r, subs', i)
      {
        assert Covered(b, subs, i);
        var e: nat :| CoveredBy(b, subs, i, e);
        assert CoveredBy(r, subs', i, e);
      }
    }
  }

  /** From b to r only reference counts, packed traces and winners have changed, and a
      change of winners is marked. */
  ghost predicate OnlyScored(b: Board, r: Board) {
    && r.queuedFavored == b.queuedFavored && r.pendingFavored == b.pendingFavored
    && r.pendingNotFuzzed == b.pendingNotFuzzed
    && (b.scoreChanged ==> r.scoreChanged) && (!r.scoreChanged ==> r.topRated == b.topRated)
    && SameBasics(b.queue, r.queue)
  }

  ghost predicate SameBasics(q: seq<Entry>, r: seq<Entry>) {
    && |q| == |r|
    && forall e | 0 <= e < |q| :: r[e] == q[e].(tcRef := r[e].tcRef, traceMini := r[e].traceMini)
  }

  lemma OnlyScoredTransitive(b: Board, m: Board, r: Board)
    requires OnlyScored(b, m) && OnlyScored(m, r)
    ensures OnlyScored(b, r)
  {
  }

  lemma {:induction false} ScoreUpToFlags(b: Board, n: nat, q: nat, fav: nat, trace: Trace)
    requires WellFormed(b) && |trace| == |b.topRated| && n <= |trace| && q < |b.queue|
    ensures OnlyScored(b, ScoreUpTo(b, n, q, fav, trace))
  {
    if n > 0 {
      ScoreUpToFlags(b, n - 1, q, fav, trace);
      var m := ScoreUpTo(b, n - 1, q, fav, trace);
      var r := ScoreSlot(m, n - 1, q, fav, trace);
      ScoreSlotFlags(m, n - 1, q, fav, trace, r);
      OnlyScoredTransitive(b, m, r);
    }
  }

  lemma ScoreSlotFlags(b: Board, i: nat, q: nat, fav: nat, trace: Trace, r: Board)
    requires WellFormed(b) && |trace| == |b.topRated| && i < |trace| && q < |b.queue|
    requires r == ScoreSlot(b, i, q, fav, trace)
    ensures OnlyScored(b, r)
  {
  }

  /** Board b is board a with the speed or the length of entry q set anew. */
  ghost predicate Retimed(a: Board, b: Board, q: nat) {
    q < |a.queue| && exists us: nat, len: nat ::
        b == a.(queue := a.queue[q := a.queue[q].(execUs := us, len := len)])
  }

  lemma RetimedIsReady(a: Board, b: Board, subs: History, q: nat, trace: Trace)
    requires ScoreInv(a, subs) && Retimed(a, b, q) && |trace| == |a.topRated|
    requires MaySubmit(subs, q, trace, Factor(b.queue[q]))
    ensures ReadyToSubmit(b, subs, q, trace)
  {
    forall e | 0 <= e < |b.queue|
      ensures EntryOk(b, subs, e)
    {
      assert EntryOk(a, subs, e);
    }
    SameWinners(a, b, subs);
  }

  lemma RetimedKeepsMarks(a: Board, b: Board, q: nat, trace: Trace)
    requires WellFormed(a) && Retimed(a, b, q) && |trace| == |a.topRated|
    ensures WellFormed(b) && SameCounts(a, Score(b, q, trace))
  {
    ScoreUpToFlags(b, |trace|, q, Factor(b.queue[q]), trace);
    SameMarks(a, Score(b, q, trace));
  }

  lemma RetimedStillCovered(s: Session, b: Board, q: nat, trace: Trace)
    requires ScoreInv(s.board, s.subs) && Retimed(s.board, b, q) && |trace| == |s.board.topRated|
    requires MaySubmit(s.subs, q, trace, Factor(b.queue[q]))
    requires !s.board.scoreChanged ==> AllCovered(s.board, s.subs)
    ensures WellFormed(b)
    ensures var t := Submit(s, b, q, trace); !t.board.scoreChanged ==> AllCovered(t.board, t.subs)
  {
    var t := Submit(s, b, q, trace);
    ScoreUpToFlags(b, |trace|, q, Factor(b.queue[q]), trace);
    if !t.board.scoreChanged {
      StillCovered(s.board, s.subs, t.board, t.subs);
    }
  }

  /** Submitting entry q of board b, whose speed or length has just been set. */
  lemma SubmitKeepsGood(s: Session, b: Board, q: nat, trace: Trace)
    requires Good(s) && Retimed(s.board, b, q) && |trace| == |s.board.topRated|
    requires MaySubmit(s.subs, q, trace, Factor(b.queue[q]))
    ensures WellFormed(b) && Good(Submit(s, b, q, trace))
  {
    RetimedIsReady(s.board, b, s.subs, q, trace);
    ScoreKeepsInv(b, s.subs, q, trace);
    RetimedKeepsMarks(s.board, b, q, trace);
    RetimedStillCovered(s, b, q, trace);
  }

  ghost predicate SameCounts(a: Board, b: Board) {
    && NumFavored(a) == NumFavored(b) && a.queuedFavored == b.queuedFavored
    && NumPendingFavored(a) == NumPendingFavored(b) && a.pendingFavored == b.pendingFavored
    && NumNotFuzzed(a) == NumNotFuzzed(b) && a.pendingNotFuzzed == b.pendingNotFuzzed
  }

  lemma SameMarks(a: Board, b: Board)
    requires |a.queue| == |b.queue|
    requires forall e | 0 <= e < |a.queue| ::
        a.queue[e].favored == b.queue[e].favored && a.queue[e].wasFuzzed == b.queue[e].wasFuzzed
    ensures NumFavored(a) == NumFavored(b) && NumPendingFavored(a) == NumPendingFavored(b)
    ensures NumNotFuzzed(a) == NumNotFuzzed(b)
  {
    CountSame(a.queue, b.queue, (e: Entry) => e.favored);
    CountSame(a.queue, b.queue, (e: Entry) => e.favored && !e.wasFuzzed);
    CountSame(a.queue, b.queue, (e: Entry) => !e.wasFuzzed);
  }

  lemma EndFuzzKeepsCounts(b: Board, q: nat)
    requires q < |b.queue| && CountersOk(b) && b.pendingNotFuzzed == NumNotFuzzed(b)
    ensures var r := EndFuzz(b, q); CountersOk(r) && r.pendingNotFuzzed == NumNotFuzzed(r)
  {
    var x := b.queue[q].(wasFuzzed := true);
    CountUpdate(b.queue, q, x, (e: Entry) => e.favored);
    CountUpdate(b.queue, q, x, (e: Entry) => e.favored && !e.wasFuzzed);
    CountUpdate(b.queue, q, x, (e: Entry) => !e.wasFuzzed);
  }

  lemma EndFuzzKeepsScore(b: Board, subs: History, q: nat)
    requires ScoreInv(b, subs) && q < |b.queue|
    ensures ScoreInv(EndFuzz(b, q), subs)
  {
    var r := EndFuzz(b, q);
    SameWinners(b, r, subs);
    forall e | 0 <= e < |r.queue|
      ensures EntryOk(r, subs, e)
    {
      assert EntryOk(b, subs, e);
    }
  }

  lemma EndFuzzKeepsGood(s: Session, q: nat)
    requires Good(s) && q < |s.board.queue|
    ensures Good(s.(board := EndFuzz(s.board, q)))
  {
    EndFuzzKeepsCounts(s.board, q);
    EndFuzzKeepsScore(s.board, s.subs, q);
    StillCovered(s.board, s.subs, EndFuzz(s.board, q), s.subs);
  }

  lemma CullKeepsGood(s: Session, dumbMode: bool)
    requires Good(s)
    ensures Good(s.(board := Cull(s.board, dumbMode)))
  {
    if !dumbMode && s.board.scoreChanged {
      CullCovers(s.board, s.subs);
      CullUpToFlags(CullStart(s.board), AllOnes(|s.board.topRated| / 8), |s.board.topRated|);
      CountSame(s.board.queue, Cull(s.board, false).queue, (e: Entry) => !e.wasFuzzed);
    }
  }

  lemma NextKeepsGood(s: Session, ev: Event, dumbMode: bool)
    requires Good(s) && Possible(s, ev)
    ensures Good(Next(s, ev, dumbMode))
  {
    var b := s.board;
    match ev
    case Added(len) => AddKeepsGood(s, len);
    case Calibrated(q, execUs, trace) =>
      assert b.queue[q].(execUs := execUs) == b.queue[q].(execUs := execUs, len := b.queue[q].len);
      SubmitKeepsGood(s, b.(queue := b.queue[q := b.queue[q].(execUs := execUs)]), q, trace);
    case Trimmed(q, newLen, trace) =>
      assert b.queue[q].(len := newLen) == b.queue[q].(execUs := b.queue[q].execUs, len := newLen);
      MulMonotone(b.queue[q].execUs, newLen, b.queue[q].len);
      SubmitKeepsGood(s, b.(queue := b.queue[q := b.queue[q].(len := newLen)]), q, trace);
    case Culled => CullKeepsGood(s, dumbMode);
    case FuzzEnded(q, counts) => EndFuzzKeepsGood(s, q);
  }

  lemma MulMonotone(x: nat, a: nat, b: nat)
    requires a <= b
    ensures x * a <= x * b
  {
  }

  ghost predicate IsSession(s: Session, events: seq<Event>, dumbMode: bool)
    decreases |events|
  {
    events == [] ||
    (WellFormed(s.board) && Possible(s, events[0]) && IsSession(Next(s, events[0], dumbMode), events[1..], dumbMode))
  }

  ghost function After(s: Session, events: seq<Event>, dumbMode: bool): Session
    requires IsSession(s, events, dumbMode)
    decreases |events|
  {
    if events == [] then s else After(Next(s, events[0], dumbMode), events[1..], dumbMode)
  }

  lemma {:induction false} SessionKeepsGood(s: Session, events: seq<Event>, dumbMode: bool)
    requires Good(s) && IsSession(s, events, dumbMode)
    ensures Good(After(s, events, dumbMode))
    decreases |events|
  {
    if events != [] {
      NextKeepsGood(s, events[0], dumbMode);
      SessionKeepsGood(Next(s, events[0], dumbMode), events[1..], dumbMode);
    }
  }

  function EmptyBoard(mapSize: nat): Board {
    Board([], seq(mapSize, _ => None), false, 0, 0, 0)
  }

  /** Main result: after any session, the winner table, the reference counts, the packed
      traces and the three counters are right, and the favoured entries cover every winning
      byte whenever no rescoring is outstanding. */
  lemma EverySessionIsGood(mapSize: nat, events: seq<Event>, dumbMode: bool)
    requires mapSize % 8 == 0
    requires IsSession(Session(EmptyBoard(mapSize), map[]), events, dumbMode)
    ensures Good(After(Session(EmptyBoard(mapSize), map[]), events, dumbMode))
  {
    SessionKeepsGood(Session(EmptyBoard(mapSize), map[]), events, dumbMode);
  }
}
