/** The in-place code behind Scoreboard: queue entries are heap objects that the winner
    table and the queue share, and the loops update them one slot at a time. */
module FavoredQueue {
  import opened Bits
  import opened Scoreboard
  import opened TraceMini

  class QueueEntry {
    const id: nat                         // position in the queue; names the object in specifications
    var execUs: nat
    var len: nat
    var wasFuzzed: bool
    var favored: bool
    var tcRef: nat
    var traceMini: Option<seq<bv8>>

    constructor (id: nat, len: nat)
      ensures this.id == id && Value() == Entry(0, len, false, false, 0, None)
    {
      this.id, this.len := id, len;
      execUs, wasFuzzed, favored, tcRef, traceMini := 0, false, false, 0, None;
    }

    function Value(): Entry
      reads this
    {
      Entry(execUs, len, wasFuzzed, favored, tcRef, traceMini)
    }
  }

  class Fuzzer {
    const dumbMode: bool
    const topRated: array<QueueEntry?>
    const traceBits: array<bv8>
    const tempV: array<bv8>
    var queue: seq<QueueEntry>
    var scoreChanged: bool
    var queuedFavored: int
    var pendingFavored: int
    var pendingNotFuzzed: int

    ghost predicate Shape()
    {
      && topRated.Length == traceBits.Length && topRated.Length % 8 == 0
      && tempV.Length == topRated.Length / 8 && tempV != traceBits
      && (topRated as object) != traceBits && (topRated as object) != tempV
    }

    /** Entries carry their position; winners are entries of the queue. */
    ghost predicate Linked()
      reads this, topRated
    {
      && (forall e | 0 <= e < |queue| :: queue[e].id == e)
      && (forall i | 0 <= i < topRated.Length :: topRated[i] != null ==> topRated[i] in queue)
    }

    ghost predicate Valid()
      reads this, topRated, queue
    {
      Shape() && Linked() && WellFormed(Abstract())
    }

    ghost function Abstract(): Board
      reads this, topRated, queue
    {
      Board(seq(|queue|, e requires 0 <= e < |queue| reads this, queue => queue[e].Value()),
            Winners(topRated[..]), scoreChanged, queuedFavored, pendingFavored, pendingNotFuzzed)
    }

    constructor (mapSize: nat, dumbMode: bool)
      requires mapSize % 8 == 0
      ensures Valid() && topRated.Length == mapSize && this.dumbMode == dumbMode
      ensures Abstract() == EmptyBoard(mapSize)
      ensures fresh(topRated) && fresh(traceBits) && fresh(tempV)
    {
      this.dumbMode := dumbMode;
      topRated := new QueueEntry?[mapSize](_ => null);
      traceBits := new bv8[mapSize](_ => 0);
      tempV := new bv8[mapSize / 8](_ => 0);
      queue, scoreChanged := [], false;
      queuedFavored, pendingFavored, pendingNotFuzzed := 0, 0, 0;
    }

    /** add_to_queue, as far as the counters are concerned. */
    method AddToQueue(len: nat) returns (q: QueueEntry)
      requires Valid()
      modifies this`queue, this`pendingNotFuzzed
      ensures Valid() && fresh(q) && queue == old(queue) + [q]
      ensures Abstract() == AddEntry(old(Abstract()), len)
    {
      q := new QueueEntry(|queue|, len);
      queue := queue + [q];
      pendingNotFuzzed := pendingNotFuzzed + 1;
      assert Abstract().queue == old(Abstract()).queue + [Entry(0, len, false, false, 0, None)];
    }

    /** The previous winner of slot i loses a reference. */
    method DropWinner(i: nat)
      requires Valid() && i < topRated.Length && topRated[i] != null
      modifies topRated[i]
      ensures Valid() && Abstract() == Release(old(Abstract()), i)
    {
      var h := topRated[i];
      var e := h.id;
      // The source decrements unconditionally; by Scoreboard.ScoreInv a winner's count is positive.
      h.tcRef := if h.tcRef == 0 then 0 else h.tcRef - 1;
      if h.tcRef == 0 {
        h.traceMini := None;
      }
      assert Abstract().queue == Release(old(Abstract()), i).queue;
    }

    method TakeSlot(i: nat, q: QueueEntry)
      requires Valid() && i < topRated.Length && q in queue
      modifies this`scoreChanged, topRated, q
      ensures Valid() && Abstract() == Take(old(Abstract()), i, q.id, traceBits[..])
      ensures q.execUs == old(q.execUs) && q.len == old(q.len)
    {
      topRated[i] := q;
      q.tcRef := q.tcRef + 1;
      if q.traceMini.None? {
        var mini := new bv8[traceBits.Length / 8](_ => 0);
        MinimizeBits(mini, traceBits);
        q.traceMini := Some(mini[..]);
      }
      scoreChanged := true;
      assert Abstract().topRated == Take(old(Abstract()), i, q.id, traceBits[..]).topRated;
      assert Abstract().queue == Take(old(Abstract()), i, q.id, traceBits[..]).queue;
    }

    /** One iteration of update_bitmap_score. */
    method ScoreOne(i: nat, q: QueueEntry, favFactor: nat)
      requires Valid() && i < topRated.Length && q in queue
      modifies this`scoreChanged, topRated, queue
      ensures Valid()
      ensures Abstract() == ScoreSlot(old(Abstract()), i, q.id, favFactor, traceBits[..])
    {
      if traceBits[i] == 0 {
        return;
      }
      assert topRated[i] != null ==> Abstract().queue[topRated[i].id] == topRated[i].Value();
      if topRated[i] != null {
        if favFactor > topRated[i].execUs * topRated[i].len {
          return;
        }
        DropWinner(i);
      }
      TakeSlot(i, q);
    }

    /** update_bitmap_score. */
    method UpdateBitmapScore(q: QueueEntry)
      requires Valid() && q in queue
      modifies this`scoreChanged, topRated, queue
      ensures Valid() && Abstract() == Score(old(Abstract()), q.id, traceBits[..])
    {
      var favFactor := q.execUs * q.len;
      ghost var b := Abstract();
      ghost var trace: Trace := traceBits[..];
      var i := 0;
      while i < topRated.Length
        invariant i <= topRated.Length && Valid() && q in queue && traceBits[..] == trace
        invariant Abstract() == ScoreUpTo(b, i, q.id, favFactor, trace)
      {
        ScoreOne(i, q, favFactor);
        i := i + 1;
      }
    }

    /** temp_v &= ~trace_mini; bytes without a bit in trace_mini are skipped. */
    method ClearTemp(mini: seq<bv8>)
      requires Shape() && |mini| == tempV.Length
      modifies tempV
      ensures tempV[..] == ClearAll(old(tempV[..]), mini)
    {
      ghost var temp, cleared := tempV[..], ClearAll(tempV[..], mini);
      var j := tempV.Length;
      while j > 0
        invariant 0 <= j <= tempV.Length
        invariant forall k | 0 <= k < j :: tempV[k] == temp[k]
        invariant forall k | j <= k < tempV.Length :: tempV[k] == cleared[k]
      {
        j := j - 1;
        ClearedAt(temp, mini, j);
        if mini[j] != 0 {
          tempV[j] := tempV[j] & !mini[j];
        }
      }
      assert tempV[..] == cleared;
    }

    method FavorEntry(e: QueueEntry)
      requires Valid() && e in queue
      modifies this`queuedFavored, this`pendingFavored, e`favored
      ensures Valid() && Abstract() == Favor(old(Abstract()), e.id)
    {
      e.favored := true;
      queuedFavored := queuedFavored + 1;
      if !e.wasFuzzed {
        pendingFavored := pendingFavored + 1;
      }
      assert Abstract().queue == Favor(old(Abstract()), e.id).queue;
    }

    /** One iteration of cull_queue's choice. */
    method CullOne(i: nat)
      requires Valid() && i < topRated.Length
      modifies this`queuedFavored, this`pendingFavored, tempV, queue
      ensures Valid()
      ensures (Abstract(), tempV[..]) == CullSlot(old(Abstract()), old(tempV[..]), i)
    {
      if topRated[i] != null && tempV[i / 8] & Mask(i % 8) != 0 {
        assert BitAt(tempV[..], i);
        var e := topRated[i];
        assert Abstract().queue[e.id] == e.Value();
        if e.traceMini.Some? {
          ClearTemp(e.traceMini.value);
        }
        FavorEntry(e);
      }
    }

    method ClearMarks()
      requires Valid()
      modifies this`scoreChanged, this`queuedFavored, this`pendingFavored, queue
      ensures Valid() && Abstract() == CullStart(old(Abstract()))
    {
      scoreChanged := false;
      queuedFavored, pendingFavored := 0, 0;
      ghost var b := old(Abstract());
      var k := 0;
      while k < |queue|
        invariant k <= |queue| && Linked() && !scoreChanged && queuedFavored == pendingFavored == 0
        invariant forall e | 0 <= e < |queue| ::
            queue[e].Value() == if e < k then b.queue[e].(favored := false) else b.queue[e]
      {
        queue[k].favored := false;
        k := k + 1;
      }
      assert Abstract().queue == Unfavor(b.queue);
      assert Abstract().topRated == b.topRated;
    }

    /** The loop of cull_queue over the whole map. */
    method CullAll()
      requires Valid()
      modifies this`queuedFavored, this`pendingFavored, tempV, queue
      ensures Valid()
      ensures (Abstract(), tempV[..]) == CullUpTo(old(Abstract()), old(tempV[..]), topRated.Length)
    {
      ghost var b, temp := Abstract(), tempV[..];
      var i := 0;
      assert WellFormed(b) && |temp| == |b.topRated| / 8 && topRated.Length == |b.topRated|;
      while i < topRated.Length
        invariant i <= topRated.Length && Linked()
        invariant (Abstract(), tempV[..]) == CullUpTo(b, temp, i)
      {
        CullOne(i);
        i := i + 1;
      }
    }

    method FillTemp()
      modifies tempV
      ensures tempV[..] == AllOnes(tempV.Length)
    {
      forall j | 0 <= j < tempV.Length {
        tempV[j] := 0xff;
      }
    }

    /** cull_queue. */
    method CullQueue()
      requires Valid()
      modifies this`scoreChanged, this`queuedFavored, this`pendingFavored, tempV, queue
      ensures Valid() && Abstract() == Cull(old(Abstract()), dumbMode)
    {
      if dumbMode || !scoreChanged {
        return;
      }
      FillTemp();
      ClearMarks();
      CullAll();
    }

    /** The end of fuzz_one: an entry counts as fuzzed once, unless the session is being
        stopped or its calibration had failed. */
    method EndOfFuzzing(q: QueueEntry, stopSoon: bool, calFailed: bool)
      requires Valid() && q in queue
      modifies this`pendingNotFuzzed, this`pendingFavored, q`wasFuzzed
      ensures Valid()
      ensures Abstract() == if stopSoon || calFailed then old(Abstract()) else EndFuzz(old(Abstract()), q.id)
    {
      if !stopSoon && !calFailed && !q.wasFuzzed {
        q.wasFuzzed := true;
        pendingNotFuzzed := pendingNotFuzzed - 1;
        if q.favored {
          pendingFavored := pendingFavored - 1;
        }
      }
      assert Abstract().queue ==
        if stopSoon || calFailed then old(Abstract()).queue else EndFuzz(old(Abstract()), q.id).queue;
    }
  }

  lemma ClearedAt(temp: seq<bv8>, mini: seq<bv8>, j: nat)
    requires |temp| == |mini| && j < |temp|
    ensures ClearAll(temp, mini)[j] == if mini[j] != 0 then temp[j] & !mini[j] else temp[j]
  {
  }

  ghost function Winners(top: seq<QueueEntry?>): (r: seq<Option<nat>>)
    ensures |r| == |top|
  {
    seq(|top|, i requires 0 <= i < |top| => if top[i] == null then None else Some(top[i].id))
  }
}
