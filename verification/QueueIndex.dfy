/** The queue as a linked list with a skip pointer every hundred entries: add_to_queue and
    the seek of the splicing stage in AFL/afl-fuzz.c. */
module QueueIndex {

  class QueueEntry {
    ghost const pos: nat                  // position in the queue
    var len: nat
    var next: QueueEntry?
    var next100: QueueEntry?

    constructor (len: nat, ghost pos: nat)
      ensures this.len == len && next == null && next100 == null && this.pos == pos
    {
      this.len, this.pos := len, pos;
      next, next100 := null, null;
    }
  }

  ghost function Hundreds(k: nat): nat { 100 * k }

  lemma EveryHundredth(n: nat, k: nat)
    requires n > 0 ==> Hundreds(k) < n <= Hundreds(k) + 100
    ensures n > 0 ==> (n % 100 == 0 <==> n == Hundreds(k + 1))
  {
  }

  ghost function At(nodes: seq<QueueEntry>, i: nat): QueueEntry? {
    if i < |nodes| then nodes[i] else null
  }

  /** Each entry points to the next. */
  ghost predicate NextsOk(nodes: seq<QueueEntry>, nexts: seq<QueueEntry?>) {
    && |nexts| == |nodes|
    && forall i | 0 <= i < |nodes| :: nexts[i] == At(nodes, i + 1)
  }

  ghost function Extended(nexts: seq<QueueEntry?>, q: QueueEntry): seq<QueueEntry?> {
    (if nexts == [] then [] else nexts[|nexts| - 1 := q]) + [null]
  }

  lemma NextsExtended(nodes: seq<QueueEntry>, nexts: seq<QueueEntry?>, q: QueueEntry)
    requires NextsOk(nodes, nexts)
    ensures NextsOk(nodes + [q], Extended(nexts, q))
  {
  }

  /** Positions divisible by 100 carry skip pointers, each to the entry a hundred steps on
      as soon as there is one; `skips` are the skip pointers of all entries. */
  ghost predicate SkipsOk(nodes: seq<QueueEntry>, skips: seq<QueueEntry?>) {
    && |skips| == |nodes|
    && forall k: nat | Hundreds(k) < |nodes| :: SkipRight(nodes, skips, k)
  }

  ghost predicate SkipRight(nodes: seq<QueueEntry>, skips: seq<QueueEntry?>, k: nat)
    requires Hundreds(k) < |nodes| == |skips|
  {
    skips[Hundreds(k)] == if Hundreds(k) + 100 < |nodes| then nodes[Hundreds(k) + 100] else null
  }

  /** An entry inside a hundred leaves the skip pointers right. */
  lemma NoNewHundred(nodes: seq<QueueEntry>, skips: seq<QueueEntry?>, q: QueueEntry)
    requires SkipsOk(nodes, skips) && (nodes == [] || |nodes| % 100 != 0)
    ensures SkipsOk(nodes + [q], skips + [null])
  {
    forall k: nat | Hundreds(k) < |nodes| + 1
      ensures SkipRight(nodes + [q], skips + [null], k)
    {
      assert Hundreds(k) == |nodes| ==> nodes == [];
      assert Hundreds(k) + 100 != |nodes|;
      if Hundreds(k) < |nodes| {
        assert SkipRight(nodes, skips, k);
      }
    }
  }

  /** An entry that opens a new hundred becomes the target of the last skip pointer. */
  lemma NewHundred(nodes: seq<QueueEntry>, skips: seq<QueueEntry?>, q: QueueEntry, last: nat)
    requires SkipsOk(nodes, skips) && |nodes| == Hundreds(last + 1)
    ensures SkipsOk(nodes + [q], (skips + [null])[Hundreds(last) := q])
  {
    var skips' := (skips + [null])[Hundreds(last) := q];
    forall k: nat | Hundreds(k) < |nodes| + 1
      ensures SkipRight(nodes + [q], skips', k)
    {
      if k < last {
        assert SkipRight(nodes, skips, k);
      }
    }
  }

  /** Entry number Hundreds(last) gets the next skip pointer; `prev` is that entry. */
  ghost predicate AtLast(nodes: seq<QueueEntry>, last: nat, prev: QueueEntry?) {
    nodes != [] ==> Hundreds(last) < |nodes| <= Hundreds(last) + 100 && prev == nodes[Hundreds(last)]
  }

  /** When entry n = |nodes| comes, the last skip pointer is still to be set exactly if n is
      a multiple of 100. */
  lemma PointNew(nodes: seq<QueueEntry>, skips: seq<QueueEntry?>, last: nat, prev: QueueEntry?, q: QueueEntry)
    requires SkipsOk(nodes, skips) && AtLast(nodes, last, prev) && nodes != [] && |nodes| % 100 == 0
    ensures Hundreds(last) < |nodes| && prev == nodes[Hundreds(last)]
    ensures SkipsOk(nodes + [q], (skips + [null])[Hundreds(last) := q]) && AtLast(nodes + [q], last + 1, q)
  {
    EveryHundredth(|nodes|, last);
    NewHundred(nodes, skips, q, last);
  }

  lemma PointNothing(nodes: seq<QueueEntry>, skips: seq<QueueEntry?>, last: nat, prev: QueueEntry?, q: QueueEntry)
    requires SkipsOk(nodes, skips) && AtLast(nodes, last, prev) && (nodes == [] || |nodes| % 100 != 0)
    ensures SkipsOk(nodes + [q], skips + [null])
    ensures AtLast(nodes + [q], if nodes == [] then 0 else last, if nodes == [] then q else prev)
  {
    EveryHundredth(|nodes|, last);
    NoNewHundred(nodes, skips, q);
  }

  class Queue {
    var queue: QueueEntry?
    var queueTop: QueueEntry?
    var qPrev100: QueueEntry?
    var queuedPaths: nat
    ghost var nodes: seq<QueueEntry>
    ghost var nexts: seq<QueueEntry?>
    ghost var skips: seq<QueueEntry?>
    ghost var last: nat                   // which skip pointer is set next

    /** `nodes` is the list reached by next pointers, with its skip pointers. */
    ghost predicate Valid()
      reads this, nodes
    {
      Mirrored() && Chained() && SkipsOk(nodes, skips) && AtLast(nodes, last, qPrev100)
    }

    /** `nexts` and `skips` say what the entries' pointers are. */
    ghost predicate Mirrored()
      reads this, nodes
    {
      && |nexts| == |skips| == |nodes| == queuedPaths
      && forall i | 0 <= i < |nodes| ::
           nodes[i].pos == i && nodes[i].next == nexts[i] && nodes[i].next100 == skips[i]
    }

    ghost predicate Chained()
      reads this`queue, this`queueTop, this`nodes, this`nexts
    {
      && (nodes == [] ==> queue == null && queueTop == null)
      && (nodes != [] ==> queue == nodes[0] && queueTop == nodes[|nodes| - 1])
      && NextsOk(nodes, nexts)
    }

    /** What k plain next steps from the head reach. */
    ghost function Steps(k: nat): (r: QueueEntry?)
      requires Valid() && k < |nodes|
      reads this, nodes
      ensures r == nodes[k]
    {
      if k == 0 then queue else Steps(k - 1).next
    }

    constructor ()
      ensures Valid() && nodes == []
    {
      queue, queueTop, qPrev100, queuedPaths := null, null, null, 0;
      nodes, nexts, skips, last := [], [], [], 0;
    }

    /** The first half of add_to_queue: the plain links. */
    method Append(len: nat) returns (q: QueueEntry)
      requires Mirrored() && Chained()
      modifies this`queue, this`queueTop, this`qPrev100, this`queuedPaths, this`nodes, this`nexts, this`skips
      modifies nodes`next
      ensures fresh(q) && q.len == len
      ensures Mirrored() && Chained()
      ensures nodes == old(nodes) + [q] && skips == old(skips) + [null]
      ensures qPrev100 == if old(nodes) == [] then q else old(qPrev100)
    {
      q := new QueueEntry(len, |nodes|);
      NextsExtended(nodes, nexts, q);
      if queueTop != null {
        queueTop.next := q;
        queueTop := q;
      } else {
        queueTop, queue, qPrev100 := q, q, q;
      }
      queuedPaths := queuedPaths + 1;
      nodes, nexts, skips := nodes + [q], Extended(nexts, q), skips + [null];
    }

    /** The second half: the skip pointers. */
    method PointSkips(q: QueueEntry, ghost before: seq<QueueEntry>, ghost were: seq<QueueEntry?>)
      requires Mirrored() && nodes == before + [q] && skips == were + [null]
      requires SkipsOk(before, were) && AtLast(before, last, qPrev100) && (before == [] ==> qPrev100 == q)
      modifies this`qPrev100, this`skips, this`last, nodes`next100
      ensures Mirrored() && SkipsOk(nodes, skips) && AtLast(nodes, last, qPrev100)
    {
      if (queuedPaths - 1) % 100 == 0 && queuedPaths > 1 {
        PointNew(before, were, last, qPrev100, q);
        assert nodes[Hundreds(last)] == qPrev100;
        qPrev100.next100 := q;
        qPrev100 := q;
        skips, last := skips[Hundreds(last) := q], last + 1;
      } else {
        PointNothing(before, were, last, qPrev100, q);
        last := if queuedPaths == 1 then 0 else last;
      }
    }

    /** add_to_queue, as far as the links are concerned. */
    method AddToQueue(len: nat) returns (q: QueueEntry)
      requires Valid()
      modifies this, nodes`next, nodes`next100
      ensures Valid()
      ensures fresh(q) && q.len == len && nodes == old(nodes) + [q]
    {
      q := Append(len);
      PointSkips(q, old(nodes), old(skips));
    }

    /** The seek: skip pointers first, then single steps.  It lands where plain stepping
        would. */
    method Seek(index: nat) returns (target: QueueEntry)
      requires Valid() && index < queuedPaths
      ensures target == Steps(index)
    {
      var tid: nat := index;
      target := queue;
      ghost var k := 0;
      while tid >= 100
        invariant tid + Hundreds(k) == index && target == nodes[Hundreds(k)]
      {
        assert SkipRight(nodes, skips, k);
        target := target.next100;
        tid := tid - 100;
        k := k + 1;
      }
      ghost var at := Hundreds(k);
      while tid > 0
        invariant tid + at == index && target == nodes[at]
      {
        tid := tid - 1;
        target := target.next;
        at := at + 1;
      }
      assert at == index;
    }

    predicate Suitable(e: QueueEntry, current: QueueEntry)
      reads e
    {
      e.len >= 2 && e != current
    }

    /** Seek, then move on to the first entry that is long enough and not the current one;
        splicingWith counts along. */
    method PickTarget(tid: nat, current: QueueEntry) returns (target: QueueEntry?, splicingWith: nat)
      requires Valid() && tid < queuedPaths
      ensures forall k | tid <= k < splicingWith && k < |nodes| :: !Suitable(nodes[k], current)
      ensures target == null ==> splicingWith == |nodes|
      ensures target != null ==>
          tid <= splicingWith < |nodes| && target == nodes[splicingWith] && Suitable(target, current)
    {
      target := Seek(tid);
      splicingWith := tid;
      while target != null && !Suitable(target, current)
        invariant tid <= splicingWith <= |nodes| && target == At(nodes, splicingWith)
        invariant forall k | tid <= k < splicingWith :: !Suitable(nodes[k], current)
        decreases |nodes| - splicingWith
      {
        target := target.next;
        splicingWith := splicingWith + 1;
      }
    }
  }
}
