/** Whom cull_queue of AFL/afl-fuzz.c favours and whom update_bitmap_score lets win, without loops and temp_v. */
module GreedyCover {
  import opened Bits
  import opened Scoreboard
  import opened TraceMini

  // ---------------------------------------------------------------- the greedy choice

  /** Byte i is where its winner is picked: no winner picked at an earlier byte hits it. */
  ghost predicate Picked(top: seq<Option<nat>>, subs: History, i: nat)
    decreases i
  {
    i < |top| && top[i].Some? &&
    forall j: nat | j < i && Picked(top, subs, j) :: !Hits(subs, top[j].value, i)
  }

  /** Entry e is picked at one of the first n bytes. */
  ghost predicate PickedFor(top: seq<Option<nat>>, subs: History, e: nat, n: nat) {
    exists i: nat :: i < n && i < |top| && Picked(top, subs, i) && top[i] == Some(e)
  }

  /** After n bytes exactly the entries picked at one of them are favoured. */
  ghost predicate GreedyUpTo(b: Board, subs: History, n: nat) {
    forall e: nat | e < |b.queue| :: b.queue[e].favored <==> PickedFor(b.topRated, subs, e, n)
  }

  /** Exactly the entries picked somewhere are favoured. */
  ghost predicate Greedy(b: Board, subs: History) {
    GreedyUpTo(b, subs, |b.topRated|)
  }

  /** An entry is picked at one byte at most: the other bytes it wins it hits as well. */
  lemma PickedOnce(b: Board, subs: History, i: nat, j: nat)
    requires SlotsOk(b, subs, 0, |b.topRated|) && i <= j
    requires Picked(b.topRated, subs, i) && Picked(b.topRated, subs, j) && b.topRated[i] == b.topRated[j]
    ensures i == j
  {
    assert SlotRight(b, subs, j);
  }

  /** A winner is picked exactly if no favoured entry covers its byte yet. */
  lemma PickedIfUncovered(b: Board, subs: History, n: nat)
    requires WellFormed(b) && GreedyUpTo(b, subs, n) && n < |b.topRated| && b.topRated[n].Some?
    ensures Picked(b.topRated, subs, n) <==> !Covered(b, subs, n)
  {
    if Covered(b, subs, n) {
      var e: nat :| CoveredBy(b, subs, n, e);
      assert PickedFor(b.topRated, subs, e, n);
    }
    if !Picked(b.topRated, subs, n) {
      var j: nat :| j < n && Picked(b.topRated, subs, j) && Hits(subs, b.topRated[j].value, n);
      assert PickedFor(b.topRated, subs, b.topRated[j].value, n);
      assert CoveredBy(b, subs, n, b.topRated[j].value);
    }
  }

  lemma PickedForNext(top: seq<Option<nat>>, subs: History, e: nat, n: nat)
    requires n < |top|
    ensures PickedFor(top, subs, e, n + 1) <==>
            PickedFor(top, subs, e, n) || (Picked(top, subs, n) && top[n] == Some(e))
  {
    if PickedFor(top, subs, e, n + 1) {
      var i: nat :| i < n + 1 && i < |top| && Picked(top, subs, i) && top[i] == Some(e);
      assert i == n || PickedFor(top, subs, e, n);
    }
  }

  lemma SlotIsGreedy(b: Board, temp: seq<bv8>, subs: History, n: nat, i: nat, r: Board)
    requires n == i + 1 && CullMidway(b, temp, subs, i) && GreedyUpTo(b, subs, i) && i < |b.topRated|
    requires r == CullSlot(b, temp, i).0
    ensures GreedyUpTo(r, subs, n)
  {
    assert BitAt(temp, i) <==> !Covered(b, subs, i);
    if b.topRated[i].Some? {
      PickedIfUncovered(b, subs, i);
    }
    forall e: nat | e < |r.queue|
      ensures r.queue[e].favored <==> PickedFor(r.topRated, subs, e, n)
    {
      PickedForNext(b.topRated, subs, e, i);
    }
  }

  lemma {:induction false} UpToIsGreedy(b: Board, temp: seq<bv8>, subs: History, n: nat) returns (r: (Board, seq<bv8>))
    requires CullMidway(b, temp, subs, 0) && GreedyUpTo(b, subs, 0) && n <= |b.topRated|
    ensures r == CullUpTo(b, temp, n)
    ensures CullMidway(r.0, r.1, subs, n) && GreedyUpTo(r.0, subs, n)
  {
    if n == 0 {
      r := (b, temp);
    } else {
      var i := n - 1;
      var m := UpToIsGreedy(b, temp, subs, i);
      r := CullSlot(m.0, m.1, i);
      CullSlotMidway(m.0, m.1, subs, n, i, r);
      SlotIsGreedy(m.0, m.1, subs, n, i, r.0);
    }
  }

  /** Main result for cull_queue: going through the bytes in order it favours the winner of
      each byte that no entry favoured before hits, and nobody else. */
  lemma CullIsGreedy(b: Board, subs: History)
    requires ScoreInv(b, subs) && b.scoreChanged
    ensures Greedy(Cull(b, false), subs)
  {
    CullStartMidway(b, subs);
    var c := CullStart(b);
    assert GreedyUpTo(c, subs, 0);
    var r := UpToIsGreedy(c, AllOnes(|b.topRated| / 8), subs, |b.topRated|);
  }

  // ------------------------------------------------------------------- whole sessions

  ghost predicate GreedyNow(s: Session) {
    !s.board.scoreChanged ==> Greedy(s.board, s.subs)
  }

  /** The picks depend on the winners and on what those hit. */
  lemma {:induction false} PickedSame(b: Board, subs: History, subs': History, i: nat)
    requires SlotsOk(b, subs, 0, |b.topRated|)
    requires forall e: nat | e in subs :: e in subs' && SameHits(subs[e].trace, subs'[e].trace)
    ensures Picked(b.topRated, subs', i) <==> Picked(b.topRated, subs, i)
    decreases i
  {
    forall j: nat | j < i && j < |b.topRated| && b.topRated[j].Some?
      ensures Picked(b.topRated, subs', j) <==> Picked(b.topRated, subs, j)
      ensures Hits(subs', b.topRated[j].value, i) <==> Hits(subs, b.topRated[j].value, i)
    {
      PickedSame(b, subs, subs', j);
      assert SlotRight(b, subs, j);
    }
  }

  /** The choice stands as long as winners, marks and hit sets do. */
  lemma StillGreedy(b: Board, subs: History, r: Board, subs': History)
    requires WellFormed(b) && SlotsOk(b, subs, 0, |b.topRated|) && Greedy(b, subs)
    requires r.topRated == b.topRated && |b.queue| <= |r.queue|
    requires forall e: nat | e < |r.queue| :: r.queue[e].favored <==> e < |b.queue| && b.queue[e].favored
    requires forall e: nat | e in subs :: e in subs' && SameHits(subs[e].trace, subs'[e].trace)
    ensures Greedy(r, subs')
  {
    forall i: nat
      ensures Picked(b.topRated, subs', i) <==> Picked(b.topRated, subs, i)
    {
      PickedSame(b, subs, subs', i);
    }
    forall e: nat | e < |r.queue|
      ensures r.queue[e].favored <==> PickedFor(r.topRated, subs', e, |r.topRated|)
    {
      assert PickedFor(r.topRated, subs', e, |r.topRated|) <==> PickedFor(b.topRated, subs, e, |b.topRated|);
    }
  }

  lemma SubmitKeepsGreedy(s: Session, b: Board, q: nat, trace: Trace)
    requires Good(s) && GreedyNow(s) && Retimed(s.board, b, q) && |trace| == |s.board.topRated|
    requires MaySubmit(s.subs, q, trace, Factor(b.queue[q]))
    ensures WellFormed(b) && GreedyNow(Submit(s, b, q, trace))
  {
    var t := Submit(s, b, q, trace);
    ScoreUpToFlags(b, |trace|, q, Factor(b.queue[q]), trace);
    if !t.board.scoreChanged {
      StillGreedy(s.board, s.subs, t.board, t.subs);
    }
  }

  lemma CullKeepsGreedy(s: Session, dumbMode: bool)
    requires Good(s) && GreedyNow(s)
    ensures GreedyNow(s.(board := Cull(s.board, dumbMode)))
  {
    if !dumbMode && s.board.scoreChanged {
      CullIsGreedy(s.board, s.subs);
    }
  }

  lemma OthersKeepGreedy(s: Session, r: Board)
    requires Good(s) && GreedyNow(s) && r.topRated == s.board.topRated && r.scoreChanged == s.board.scoreChanged
    requires |s.board.queue| <= |r.queue|
    requires forall e: nat | e < |r.queue| :: r.queue[e].favored <==> e < |s.board.queue| && s.board.queue[e].favored
    ensures GreedyNow(s.(board := r))
  {
    if !r.scoreChanged {
      StillGreedy(s.board, s.subs, r, s.subs);
    }
  }

  lemma NextKeepsGreedy(s: Session, ev: Event, dumbMode: bool)
    requires Good(s) && GreedyNow(s) && Possible(s, ev)
    ensures GreedyNow(Next(s, ev, dumbMode))
  {
    var b := s.board;
    match ev
    case Added(len) => OthersKeepGreedy(s, AddEntry(b, len));
    case Calibrated(q, execUs, trace) =>
      assert b.queue[q].(execUs := execUs) == b.queue[q].(execUs := execUs, len := b.queue[q].len);
      SubmitKeepsGreedy(s, b.(queue := b.queue[q := b.queue[q].(execUs := execUs)]), q, trace);
    case Trimmed(q, newLen, trace) =>
      assert b.queue[q].(len := newLen) == b.queue[q].(execUs := b.queue[q].execUs, len := newLen);
      MulMonotone(b.queue[q].execUs, newLen, b.queue[q].len);
      SubmitKeepsGreedy(s, b.(queue := b.queue[q := b.queue[q].(len := newLen)]), q, trace);
    case Culled => CullKeepsGreedy(s, dumbMode);
    case FuzzEnded(q, counts) =>
      if counts {
        OthersKeepGreedy(s, EndFuzz(b, q));
      }
  }

  lemma {:induction false} SessionKeepsGreedy(s: Session, events: seq<Event>, dumbMode: bool)
    requires Good(s) && GreedyNow(s) && IsSession(s, events, dumbMode)
    ensures GreedyNow(After(s, events, dumbMode))
    decreases |events|
  {
    if events != [] {
      NextKeepsGood(s, events[0], dumbMode);
      NextKeepsGreedy(s, events[0], dumbMode);
      SessionKeepsGreedy(Next(s, events[0], dumbMode), events[1..], dumbMode);
    }
  }

  /** Main result: after any session, unless a rescoring is outstanding, exactly the entries
      that the greedy choice picks are favoured. */
  lemma EverySessionIsGreedy(mapSize: nat, events: seq<Event>, dumbMode: bool)
    requires mapSize % 8 == 0
    requires IsSession(Session(EmptyBoard(mapSize), map[]), events, dumbMode)
    ensures GreedyNow(After(Session(EmptyBoard(mapSize), map[]), events, dumbMode))
  {
    SessionKeepsGreedy(Session(EmptyBoard(mapSize), map[]), events, dumbMode);
  }

  // ------------------------------------------------------------- who wins, ties included

  /** The entry takes byte i from the winner in the table. */
  ghost predicate Beats(b: Board, i: nat, factor: nat, trace: Trace)
    requires WellFormed(b) && i < |b.topRated| == |trace|
  {
    trace[i] != 0 && (b.topRated[i].Some? ==> factor <= Factor(b.queue[b.topRated[i].value]))
  }

  /** The first n bytes have been settled. */
  ghost predicate Settled(b: Board, r: Board, n: nat, q: nat, factor: nat, trace: Trace)
    requires WellFormed(b) && |b.topRated| == |trace|
  {
    && |r.topRated| == |trace|
    && (forall i | 0 <= i < |trace| ::
          r.topRated[i] == if i < n && Beats(b, i, factor, trace) then Some(q) else b.topRated[i])
    && (r.scoreChanged <==> b.scoreChanged || exists i | 0 <= i < n && i < |trace| :: Beats(b, i, factor, trace))
  }

  lemma SlotDecides(b: Board, m: Board, i: nat, q: nat, factor: nat, trace: Trace, r: Board)
    requires WellFormed(b) && WellFormed(m) && |trace| == |b.topRated| == |m.topRated| && i < |trace|
    requires q < |b.queue| && OnlyScored(b, m) && m.topRated[i] == b.topRated[i]
    requires r == ScoreSlot(m, i, q, factor, trace)
    ensures r.topRated == if Beats(b, i, factor, trace) then m.topRated[i := Some(q)] else m.topRated
    ensures r.scoreChanged <==> m.scoreChanged || Beats(b, i, factor, trace)
  {
    if b.topRated[i].Some? {
      assert Factor(m.queue[b.topRated[i].value]) == Factor(b.queue[b.topRated[i].value]);
    }
  }

  lemma {:induction false} ScoreUpToDecides(b: Board, n: nat, q: nat, factor: nat, trace: Trace) returns (r: Board)
    requires WellFormed(b) && |trace| == |b.topRated| && n <= |trace| && q < |b.queue|
    ensures r == ScoreUpTo(b, n, q, factor, trace)
    ensures OnlyScored(b, r) && Settled(b, r, n, q, factor, trace)
  {
    if n == 0 {
      r := b;
    } else {
      var i := n - 1;
      var m := ScoreUpToDecides(b, i, q, factor, trace);
      r := ScoreSlot(m, i, q, factor, trace);
      ScoreSlotFlags(m, i, q, factor, trace, r);
      OnlyScoredTransitive(b, m, r);
      SlotDecides(b, m, i, q, factor, trace, r);
      SettledNext(b, m, r, n, i, q, factor, trace);
    }
  }

  lemma SettledNext(b: Board, m: Board, r: Board, n: nat, i: nat, q: nat, factor: nat, trace: Trace)
    requires WellFormed(b) && |b.topRated| == |trace| && n == i + 1 <= |trace| && Settled(b, m, i, q, factor, trace)
    requires r.topRated == if Beats(b, i, factor, trace) then m.topRated[i := Some(q)] else m.topRated
    requires r.scoreChanged <==> m.scoreChanged || Beats(b, i, factor, trace)
    ensures Settled(b, r, n, q, factor, trace)
  {
  }

  /** Main result: an entry submitted takes exactly the bytes it hits whose winner is not
      better than it, the latest of equals winning, and a rescoring is called for if it takes
      any. */
  lemma ScoreDecides(b: Board, q: nat, trace: Trace)
    requires WellFormed(b) && |trace| == |b.topRated| && q < |b.queue|
    ensures var r, factor := Score(b, q, trace), Factor(b.queue[q]);
            && (forall i | 0 <= i < |r.topRated| ::
                  r.topRated[i] == if Beats(b, i, factor, trace) then Some(q) else b.topRated[i])
            && (r.scoreChanged <==> b.scoreChanged || exists i | 0 <= i < |trace| :: Beats(b, i, factor, trace))
  {
    var r := ScoreUpToDecides(b, |trace|, q, Factor(b.queue[q]), trace);
  }
}
