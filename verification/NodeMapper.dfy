/** The grammar searches of rsg/node_mapper/main.go: the reversed reference map and the
    breadth-first climb to the nearest top-level rule.

    References are edges between rule names; the map lists each edge once. */
module NodeMapper {

  type Name = string

  datatype Item = Token(value: Name) | Literal(text: string)

  /** Rule name to productions. */
  type Grammar = map<Name, seq<seq<Item>>>

  type ParentMap = map<Name, seq<Name>>

  // -------------------------------------------------------- the reversed map

  /** Rule `parent` has a production that mentions the rule `child`. */
  datatype Edge = Edge(child: Name, parent: Name)

  ghost predicate Mentions(items: seq<Item>, child: Name) {
    Token(child) in items
  }

  ghost predicate Refers(g: Grammar, e: Edge) {
    e.child in g && e.parent in g && exists k | 0 <= k < |g[e.parent]| :: Mentions(g[e.parent][k], e.child)
  }

  function ParentsOf(m: ParentMap, child: Name): seq<Name> {
    if child in m then m[child] else []
  }

  ghost predicate Recorded(m: ParentMap, e: Edge) {
    e.parent in ParentsOf(m, e.child)
  }

  /** The key under which an edge is remembered. */
  function Key(e: Edge): string {
    e.child + ['\0'] + e.parent
  }

  /** No two references share a key. */
  ghost predicate NoCollision(g: Grammar) {
    forall e, f | Refers(g, e) && Refers(g, f) && Key(e) == Key(f) :: e == f
  }

  ghost predicate Exact(m: ParentMap, g: Grammar) {
    forall e :: Recorded(m, e) <==> Refers(g, e)
  }

  ghost predicate NoDuplicates(m: ParentMap) {
    forall c, i, j | c in m && 0 <= i < j < |m[c]| :: m[c][i] != m[c][j]
  }

  /** The state when the edges in `done` have been looked at: one edge of each key is
      recorded, once. */
  ghost predicate Built(m: ParentMap, seen: set<string>, done: set<Edge>) {
    && NoDuplicates(m)
    && (forall e | Recorded(m, e) :: e in done)
    && (forall e <- done :: Key(e) in seen && HasKey(m, Key(e)))
    && (forall k <- seen :: HasKey(m, k))
    && (forall e, f | Recorded(m, e) && Recorded(m, f) && Key(e) == Key(f) :: e == f)
  }

  ghost predicate HasKey(m: ParentMap, k: string) {
    exists e :: Recorded(m, e) && Key(e) == k
  }

  method AddEdge(m: ParentMap, seen: set<string>, e: Edge, ghost done: set<Edge>)
      returns (m': ParentMap, seen': set<string>)
    requires Built(m, seen, done)
    ensures Built(m', seen', done + {e})
  {
    m', seen' := m, seen;
    var key := Key(e);
    if key !in seen {
      seen' := seen + {key};
      m' := m[e.child := ParentsOf(m, e.child) + [e.parent]];
      EdgeAdded(m, m', seen, seen', done, e);
    }
  }

  lemma EdgeAdded(m: ParentMap, m': ParentMap, seen: set<string>, seen': set<string>, done: set<Edge>, e: Edge)
    requires Built(m, seen, done) && Key(e) !in seen && seen' == seen + {Key(e)}
    requires m' == m[e.child := ParentsOf(m, e.child) + [e.parent]]
    ensures Built(m', seen', done + {e})
  {
    assert !Recorded(m, e);
    forall f
      ensures Recorded(m', f) <==> Recorded(m, f) || f == e
    {
    }
    forall k | HasKey(m, k) || k == Key(e)
      ensures HasKey(m', k)
    {
      if k == Key(e) {
        assert Recorded(m', e);
      } else {
        var f :| Recorded(m, f) && Key(f) == k;
        assert Recorded(m', f);
      }
    }
    forall f | Recorded(m, f)
      ensures Key(f) in seen
    {
    }
  }

  ghost function ItemEdges(g: Grammar, items: seq<Item>, rule: Name): set<Edge> {
    set it <- items | it.Token? && it.value in g :: Edge(it.value, rule)
  }

  method AddProduction(g: Grammar, rule: Name, items: seq<Item>, m: ParentMap, seen: set<string>, ghost done: set<Edge>)
      returns (m': ParentMap, seen': set<string>)
    requires Built(m, seen, done)
    ensures Built(m', seen', done + ItemEdges(g, items, rule))
  {
    m', seen' := m, seen;
    ghost var now := done;
    var i := 0;
    NoItems(g, items[..0], rule);
    while i < |items|
      invariant i <= |items| && now == done + ItemEdges(g, items[..i], rule) && Built(m', seen', now)
    {
      MoreItems(g, items, i, rule);
      if items[i].Token? && items[i].value in g {
        m', seen' := AddEdge(m', seen', Edge(items[i].value, rule), now);
        now := now + {Edge(items[i].value, rule)};
      }
      i := i + 1;
    }
    assert items[..i] == items;
  }

  lemma NoItems(g: Grammar, items: seq<Item>, rule: Name)
    requires items == []
    ensures ItemEdges(g, items, rule) == {}
  {
  }

  lemma MoreItems(g: Grammar, items: seq<Item>, i: nat, rule: Name)
    requires i < |items|
    ensures ItemEdges(g, items[..i + 1], rule) == ItemEdges(g, items[..i], rule) +
            if items[i].Token? && items[i].value in g then {Edge(items[i].value, rule)} else {}
  {
    assert items[..i + 1] == items[..i] + [items[i]];
  }

  ghost function RuleEdges(g: Grammar, rule: Name, prods: seq<seq<Item>>): set<Edge> {
    if prods == [] then {} else RuleEdges(g, rule, prods[..|prods| - 1]) + ItemEdges(g, prods[|prods| - 1], rule)
  }

  method AddRule(g: Grammar, rule: Name, m: ParentMap, seen: set<string>, ghost done: set<Edge>)
      returns (m': ParentMap, seen': set<string>)
    requires rule in g && Built(m, seen, done)
    ensures Built(m', seen', done + RuleEdges(g, rule, g[rule]))
  {
    m', seen' := m, seen;
    var prods := g[rule];
    ghost var now := done;
    var i := 0;
    while i < |prods|
      invariant i <= |prods| && now == done + RuleEdges(g, rule, prods[..i]) && Built(m', seen', now)
    {
      m', seen' := AddProduction(g, rule, prods[i], m', seen', now);
      now := now + ItemEdges(g, prods[i], rule);
      assert prods[..i + 1][..i] == prods[..i];
      i := i + 1;
    }
    assert prods[..i] == prods;
  }

  lemma {:induction false} RuleEdgesHold(g: Grammar, rule: Name, prods: seq<seq<Item>>, e: Edge)
    ensures e in RuleEdges(g, rule, prods) <==>
            e.child in g && e.parent == rule && exists k | 0 <= k < |prods| :: Mentions(prods[k], e.child)
  {
    if prods != [] {
      var n := |prods| - 1;
      RuleEdgesHold(g, rule, prods[..n], e);
      assert e in ItemEdges(g, prods[n], rule) <==> e.child in g && e.parent == rule && Mentions(prods[n], e.child);
    }
  }

  /** The map is exact if and only if no two references share a key; each parent is listed
      once.  The rules are visited in no particular order. */
  method BuildChildToParents(g: Grammar) returns (parentOf: ParentMap)
    ensures Exact(parentOf, g) <==> NoCollision(g)
    ensures NoDuplicates(parentOf)
    ensures forall e | Recorded(parentOf, e) :: Refers(g, e)
  {
    parentOf := map[];
    var seen: set<string> := {};
    var rest := g.Keys;
    ghost var done: set<Edge> := {};
    while rest != {}
      invariant rest <= g.Keys && Built(parentOf, seen, done)
      invariant forall e :: e in done <==> Refers(g, e) && e.parent !in rest
      decreases rest
    {
      var rule :| rule in rest;
      parentOf, seen := AddRule(g, rule, parentOf, seen, done);
      forall e
        ensures e in RuleEdges(g, rule, g[rule]) <==> Refers(g, e) && e.parent == rule
      {
        RuleEdgesHold(g, rule, g[rule], e);
      }
      done := done + RuleEdges(g, rule, g[rule]);
      rest := rest - {rule};
    }
    BuiltExact(parentOf, seen, done, g);
  }

  lemma BuiltExact(m: ParentMap, seen: set<string>, done: set<Edge>, g: Grammar)
    requires Built(m, seen, done) && forall e :: e in done <==> Refers(g, e)
    ensures Exact(m, g) <==> NoCollision(g)
  {
    if NoCollision(g) {
      forall e | Refers(g, e)
        ensures Recorded(m, e)
      {
        assert HasKey(m, Key(e));
      }
    }
  }

  ghost predicate NulFree(g: Grammar) {
    forall name <- g.Keys :: '\0' !in name
  }

  lemma KeySplits(e: Edge, k: string)
    requires '\0' !in e.child && k == Key(e)
    ensures |e.child| < |k| && k[|e.child|] == '\0' && forall i | 0 <= i < |e.child| :: k[i] != '\0'
    ensures k[..|e.child|] == e.child && k[|e.child| + 1..] == e.parent
  {
    forall i | 0 <= i < |e.child|
      ensures k[i] != '\0'
    {
      assert k[i] == e.child[i];
    }
  }

  lemma KeyInjective(e: Edge, f: Edge)
    requires '\0' !in e.child && '\0' !in f.child && Key(e) == Key(f)
    ensures e == f
  {
    var k := Key(e);
    KeySplits(e, k);
    KeySplits(f, k);
    assert k[|e.child|] == k[|f.child|] == '\0';
    assert |e.child| == |f.child|;
  }

  /** Rule names as the lexer makes them hold no NUL, so the map is exact. */
  lemma NulFreeIsExact(g: Grammar)
    requires NulFree(g)
    ensures NoCollision(g)
  {
    forall e, f | Refers(g, e) && Refers(g, f) && Key(e) == Key(f)
      ensures e == f
    {
      KeyInjective(e, f);
    }
  }

  /** With NUL in names a reference can be lost. */
  lemma NulCollides() returns (g: Grammar)
    ensures !NoCollision(g)
  {
    var a, b, ab, bc: Name := ['a'], ['b'], ['a', '\0', 'b'], ['b', '\0', 'c'];
    var c: Name := ['c'];
    g := map[a := [], ab := [], bc := [[Token(a)]], c := [[Token(ab)]]];
    var e, f := Edge(a, bc), Edge(ab, c);
    assert g[bc][0] == [Token(a)] && Mentions(g[bc][0], a) && g[c][0] == [Token(ab)] && Mentions(g[c][0], ab);
    assert Refers(g, e) && Refers(g, f);
    assert Key(e) == ['a', '\0', 'b', '\0', 'c'] == Key(f);
    assert |e.child| != |f.child|;
  }

  // --------------------------------------------------- climbing to the top level

  ghost predicate Parent(m: ParentMap, child: Name, parent: Name) {
    parent in ParentsOf(m, child)
  }

  /** n steps from child to parent lead from one rule to the other. */
  ghost predicate Climbs(m: ParentMap, from: Name, to: Name, n: nat)
    decreases n
  {
    if n == 0 then from == to else exists mid :: Climbs(m, from, mid, n - 1) && Parent(m, mid, to)
  }

  /** A top-level rule n > 0 steps up. */
  ghost predicate TopAt(m: ParentMap, top: set<Name>, target: Name, r: Name, n: nat) {
    n > 0 && r in top && Climbs(m, target, r, n)
  }

  /** Every parent of u is known, at most one step further away, and not top-level. */
  ghost predicate Expanded(m: ParentMap, top: set<Name>, dist: map<Name, nat>, u: Name) {
    u in dist && forall p | Parent(m, u, p) :: p in dist && dist[p] <= dist[u] + 1 && p !in top
  }

  /** The distances recorded are those of real climbs. */
  ghost predicate Sound(m: ParentMap, target: Name, dist: map<Name, nat>) {
    target in dist && dist[target] == 0 && forall v <- dist :: Climbs(m, target, v, dist[v])
  }

  /** Waiting rules are in order of distance, within one step of each other. */
  ghost predicate Ordered(queue: seq<Name>, dist: map<Name, nat>, d: nat) {
    && (forall i | 0 <= i < |queue| :: queue[i] in dist && d <= dist[queue[i]] <= d + 1)
    && (forall i, j | 0 <= i <= j < |queue| :: dist[queue[i]] <= dist[queue[j]])
  }

  /** All rules up to d steps away are known, if those nearer than d are expanded. */
  lemma {:induction false} KnownUpTo(m: ParentMap, top: set<Name>, target: Name, dist: map<Name, nat>, d: nat,
                                     u: Name, n: nat)
    requires Sound(m, target, dist) && n <= d && Climbs(m, target, u, n)
    requires forall v <- dist :: dist[v] < d ==> Expanded(m, top, dist, v)
    ensures u in dist && dist[u] <= n
    decreases n
  {
    if n > 0 {
      var mid :| Climbs(m, target, mid, n - 1) && Parent(m, mid, u);
      KnownUpTo(m, top, target, dist, d, mid, n - 1);
    }
  }

  lemma NoTopWithin(m: ParentMap, top: set<Name>, target: Name, dist: map<Name, nat>, d: nat)
    requires Sound(m, target, dist)
    requires forall v <- dist :: dist[v] < d ==> Expanded(m, top, dist, v)
    ensures forall r, n: nat | n <= d :: !TopAt(m, top, target, r, n)
  {
    forall r, n: nat | n <= d
      ensures !TopAt(m, top, target, r, n)
    {
      if TopAt(m, top, target, r, n) {
        var mid :| Climbs(m, target, mid, n - 1) && Parent(m, mid, r);
        KnownUpTo(m, top, target, dist, d, mid, n - 1);
        assert false;
      }
    }
  }

  ghost function Universe(m: ParentMap, target: Name): set<Name> {
    {target} + set c, i | c in m && 0 <= i < |m[c]| :: m[c][i]
  }

  ghost predicate KnownBelow(p: Name, top: set<Name>, dist: map<Name, nat>, d: nat) {
    p in dist && dist[p] <= d && p !in top
  }

  /** Halfway through the parents of cur, which is d steps away. */
  ghost predicate Climbing(m: ParentMap, top: set<Name>, target: Name, dist: map<Name, nat>, queue: seq<Name>,
                           cur: Name, d: nat, i: nat) {
    && Sound(m, target, dist) && Ordered(queue, dist, d)
    && dist.Keys <= Universe(m, target)
    && (forall v <- dist :: dist[v] <= d + 1)
    && cur in dist && dist[cur] == d && i <= |ParentsOf(m, cur)|
    && (forall v <- dist :: v == cur || v in queue || Expanded(m, top, dist, v))
    && (forall k | 0 <= k < i :: KnownBelow(ParentsOf(m, cur)[k], top, dist, d + 1))
  }

  lemma SoundGrows(m: ParentMap, target: Name, dist: map<Name, nat>, cur: Name, p: Name)
    requires Sound(m, target, dist) && cur in dist && Parent(m, cur, p) && p !in dist
    ensures Sound(m, target, dist[p := dist[cur] + 1])
  {
    assert Climbs(m, target, cur, dist[cur]);
    assert Climbs(m, target, p, dist[cur] + 1);
  }

  lemma OrderedGrows(queue: seq<Name>, dist: map<Name, nat>, d: nat, p: Name)
    requires Ordered(queue, dist, d) && p !in dist
    ensures Ordered(queue + [p], dist[p := d + 1], d)
  {
    assert forall i | 0 <= i < |queue| :: queue[i] != p;
  }

  lemma ExpandedGrows(m: ParentMap, top: set<Name>, dist: map<Name, nat>, queue: seq<Name>, cur: Name, p: Name, d: nat)
    requires p !in dist && forall v <- dist :: v == cur || v in queue || Expanded(m, top, dist, v)
    ensures forall v <- dist[p := d] :: v == cur || v in queue + [p] || Expanded(m, top, dist[p := d], v)
  {
    forall v <- dist[p := d]
      ensures v == cur || v in queue + [p] || Expanded(m, top, dist[p := d], v)
    {
      if v != p {
        assert v == cur || v in queue || Expanded(m, top, dist, v);
      }
    }
  }

  lemma InUniverse(m: ParentMap, target: Name, cur: Name, i: nat)
    requires i < |ParentsOf(m, cur)|
    ensures ParentsOf(m, cur)[i] in Universe(m, target)
  {
    assert cur in m && m[cur][i] == ParentsOf(m, cur)[i];
  }

  /** One parent that is not top-level. */
  method Visit(m: ParentMap, top: set<Name>, target: Name, visited: set<Name>, queue: seq<Name>, parent: Name,
               ghost dist: map<Name, nat>, cur: Name, ghost d: nat, ghost i: nat)
      returns (visited': set<Name>, queue': seq<Name>, ghost dist': map<Name, nat>)
    requires Climbing(m, top, target, dist, queue, cur, d, i) && visited == dist.Keys
    requires i < |ParentsOf(m, cur)| && parent == ParentsOf(m, cur)[i] && parent !in top
    ensures Climbing(m, top, target, dist', queue', cur, d, i + 1) && visited' == dist'.Keys
    ensures (visited' == visited && queue' == queue) || visited < visited'
  {
    visited', queue', dist' := visited, queue, dist;
    if parent !in visited {
      visited' := visited + {parent};
      queue' := queue + [parent];
      dist' := dist[parent := d + 1];
      VisitNew(m, top, target, dist, queue, cur, d, i);
    }
  }

  lemma VisitNew(m: ParentMap, top: set<Name>, target: Name, dist: map<Name, nat>, queue: seq<Name>, cur: Name,
                 d: nat, i: nat)
    requires Climbing(m, top, target, dist, queue, cur, d, i) && i < |ParentsOf(m, cur)|
    requires ParentsOf(m, cur)[i] !in top && ParentsOf(m, cur)[i] !in dist
    ensures var p := ParentsOf(m, cur)[i]; Climbing(m, top, target, dist[p := d + 1], queue + [p], cur, d, i + 1)
  {
    var p := ParentsOf(m, cur)[i];
    InUniverse(m, target, cur, i);
    SoundGrows(m, target, dist, cur, p);
    OrderedGrows(queue, dist, d, p);
    ExpandedGrows(m, top, dist, queue, cur, p, d + 1);
    forall k | 0 <= k < i + 1
      ensures KnownBelow(ParentsOf(m, cur)[k], top, dist[p := d + 1], d + 1)
    {
      if k < i {
        assert KnownBelow(ParentsOf(m, cur)[k], top, dist, d + 1);
      }
    }
  }

  /** The loop over the parents of cur: either one of them is top-level, or cur is expanded. */
  method Expand(m: ParentMap, top: set<Name>, target: Name, visited: set<Name>, queue: seq<Name>, cur: Name,
                ghost dist: map<Name, nat>, ghost d: nat)
      returns (visited': set<Name>, queue': seq<Name>, found: bool, r: Name, ghost dist': map<Name, nat>)
    requires Climbing(m, top, target, dist, queue, cur, d, 0) && visited == dist.Keys
    ensures found ==> TopAt(m, top, target, r, d + 1)
    ensures !found ==> Climbing(m, top, target, dist', queue', cur, d, |ParentsOf(m, cur)|) && visited' == dist'.Keys
    ensures !found ==> (visited' == visited && queue' == queue) || visited < visited'
  {
    visited', queue', found, r, dist' := visited, queue, false, "", dist;
    var parents := ParentsOf(m, cur);
    var i := 0;
    while i < |parents|
      invariant i <= |parents| && Climbing(m, top, target, dist', queue', cur, d, i) && visited' == dist'.Keys
      invariant (visited' == visited && queue' == queue) || visited < visited'
    {
      if parents[i] in top {
        assert Parent(m, cur, parents[i]);
        assert Climbs(m, target, cur, d);
        return visited', queue', true, parents[i], dist';
      }
      visited', queue', dist' := Visit(m, top, target, visited', queue', parents[i], dist', cur, d, i);
      i := i + 1;
    }
  }

  /** The search between two rounds. */
  ghost predicate Searching(m: ParentMap, top: set<Name>, target: Name, dist: map<Name, nat>, queue: seq<Name>) {
    && Sound(m, target, dist) && dist.Keys <= Universe(m, target)
    && (forall v <- dist :: v in queue || Expanded(m, top, dist, v))
    && (queue != [] ==>
          && queue[0] in dist && Ordered(queue, dist, dist[queue[0]])
          && forall v <- dist :: dist[v] <= dist[queue[0]] + 1)
  }

  lemma Popped(m: ParentMap, top: set<Name>, target: Name, dist: map<Name, nat>, queue: seq<Name>)
    requires queue != [] && Searching(m, top, target, dist, queue)
    ensures Climbing(m, top, target, dist, queue[1..], queue[0], dist[queue[0]], 0)
  {
    forall v <- dist
      ensures v == queue[0] || v in queue[1..] || Expanded(m, top, dist, v)
    {
      assert v in queue ==> v == queue[0] || v in queue[1..];
    }
  }

  lemma Requeued(m: ParentMap, top: set<Name>, target: Name, dist: map<Name, nat>, queue: seq<Name>, cur: Name, d: nat)
    requires Climbing(m, top, target, dist, queue, cur, d, |ParentsOf(m, cur)|)
    ensures Searching(m, top, target, dist, queue)
  {
    forall p | Parent(m, cur, p)
      ensures KnownBelow(p, top, dist, d + 1)
    {
      var k :| 0 <= k < |ParentsOf(m, cur)| && ParentsOf(m, cur)[k] == p;
    }
    assert Expanded(m, top, dist, cur);
  }

  /** Nothing nearer than the rule in hand was missed. */
  lemma NoneNearer(m: ParentMap, top: set<Name>, target: Name, dist: map<Name, nat>, queue: seq<Name>, cur: Name,
                   d: nat)
    requires Climbing(m, top, target, dist, queue, cur, d, 0)
    ensures forall a, k: nat | k < d + 1 :: !TopAt(m, top, target, a, k)
  {
    forall v <- dist | dist[v] < d
      ensures Expanded(m, top, dist, v)
    {
      assert v !in queue;
    }
    NoTopWithin(m, top, target, dist, d);
  }

  lemma NoneAtAll(m: ParentMap, top: set<Name>, target: Name, dist: map<Name, nat>)
    requires Searching(m, top, target, dist, [])
    ensures forall a, n: nat :: !TopAt(m, top, target, a, n)
  {
    forall a, n: nat
      ensures !TopAt(m, top, target, a, n)
    {
      NoTopWithin(m, top, target, dist, n);
    }
  }

  /** r is top-level, refers to the target through one or more references, and no
      top-level rule does so through fewer. */
  ghost predicate Nearest(m: ParentMap, top: set<Name>, target: Name, r: Name) {
    exists n: nat :: TopAt(m, top, target, r, n) && forall a, k: nat | k < n :: !TopAt(m, top, target, a, k)
  }

  lemma FewerLeft(all: set<Name>, visited: set<Name>, visited': set<Name>)
    requires visited < visited' <= all
    ensures |all - visited'| < |all - visited|
  {
    var v :| v in visited' && v !in visited;
    assert all - visited' <= all - visited - {v};
    Smaller(all - visited', all - visited - {v});
  }

  lemma {:induction false} Smaller(a: set<Name>, b: set<Name>)
    requires a <= b
    ensures |a| <= |b|
  {
    if a != {} {
      var x :| x in a;
      Smaller(a - {x}, b - {x});
    }
  }

  lemma Started(m: ParentMap, top: set<Name>, target: Name)
    ensures Searching(m, top, target, map[target := 0], [target])
  {
  }

  /** What is left to do: rules not seen yet, then rules waiting. */
  ghost function Unseen(m: ParentMap, target: Name, visited: set<Name>): nat {
    |Universe(m, target) - visited|
  }

  /** One round: take the first rule waiting and look at its parents. */
  method Round(m: ParentMap, top: set<Name>, target: Name, visited: set<Name>, queue: seq<Name>,
               ghost dist: map<Name, nat>)
      returns (visited': set<Name>, queue': seq<Name>, found: bool, r: Name, ghost dist': map<Name, nat>)
    requires queue != [] && visited == dist.Keys && Searching(m, top, target, dist, queue)
    ensures found ==> Nearest(m, top, target, r)
    ensures !found ==> visited' == dist'.Keys && Searching(m, top, target, dist', queue')
    ensures !found ==>
            (visited' == visited && |queue'| < |queue|) || Unseen(m, target, visited') < Unseen(m, target, visited)
  {
    var cur, rest := queue[0], queue[1..];
    ghost var d := dist[cur];
    Popped(m, top, target, dist, queue);
    NoneNearer(m, top, target, dist, rest, cur, d);
    visited', queue', found, r, dist' := Expand(m, top, target, visited, rest, cur, dist, d);
    if found {
      assert TopAt(m, top, target, r, d + 1);
    } else {
      Requeued(m, top, target, dist', queue', cur, d);
      if visited < visited' {
        FewerLeft(Universe(m, target), visited, visited');
      }
    }
  }

  /** Returns a nearest top-level rule, or the empty name when no top-level rule refers to
      the target. */
  method FindTopLevelAncestor(parentOf: ParentMap, topLevelSet: set<Name>, targetNode: Name) returns (r: Name)
    ensures Nearest(parentOf, topLevelSet, targetNode, r) ||
            (r == "" && forall a, n: nat :: !TopAt(parentOf, topLevelSet, targetNode, a, n))
  {
    var visited: set<Name> := {targetNode};
    var queue := [targetNode];
    ghost var dist: map<Name, nat> := map[targetNode := 0];
    Started(parentOf, topLevelSet, targetNode);
    while |queue| > 0
      invariant visited == dist.Keys && Searching(parentOf, topLevelSet, targetNode, dist, queue)
      decreases Unseen(parentOf, targetNode, visited), |queue|
    {
      var found;
      visited, queue, found, r, dist := Round(parentOf, topLevelSet, targetNode, visited, queue, dist);
      if found {
        return;
      }
    }
    NoneAtAll(parentOf, topLevelSet, targetNode, dist);
    r := "";
  }

  /** The rule `to` leads to the rule `from` through n references of the grammar. */
  ghost predicate Chain(g: Grammar, from: Name, to: Name, n: nat)
    decreases n
  {
    if n == 0 then from == to else exists mid :: Chain(g, from, mid, n - 1) && Refers(g, Edge(mid, to))
  }

  /** On a grammar whose map is exact, climbing is following references. */
  lemma {:induction false} ClimbsAreChains(g: Grammar, m: ParentMap, from: Name, to: Name, n: nat)
    requires Exact(m, g)
    ensures Climbs(m, from, to, n) <==> Chain(g, from, to, n)
    decreases n
  {
    if n > 0 {
      forall mid
        ensures Climbs(m, from, mid, n - 1) && Parent(m, mid, to) <==>
                Chain(g, from, mid, n - 1) && Refers(g, Edge(mid, to))
      {
        ClimbsAreChains(g, m, from, mid, n - 1);
        assert Recorded(m, Edge(mid, to)) <==> Parent(m, mid, to);
      }
    }
  }

  /** And only on such a grammar: a reference the map has lost is one that cannot be climbed. */
  lemma ClimbsExactly(g: Grammar, m: ParentMap)
    ensures Exact(m, g) <==> forall from, to, n: nat :: Climbs(m, from, to, n) <==> Chain(g, from, to, n)
  {
    if Exact(m, g) {
      forall from, to, n: nat
        ensures Climbs(m, from, to, n) <==> Chain(g, from, to, n)
      {
        ClimbsAreChains(g, m, from, to, n);
      }
    } else {
      var e :| Recorded(m, e) != Refers(g, e);
      OneStep(g, m, e);
    }
  }

  lemma OneStep(g: Grammar, m: ParentMap, e: Edge)
    ensures Climbs(m, e.child, e.parent, 1) <==> Recorded(m, e)
    ensures Chain(g, e.child, e.parent, 1) <==> Refers(g, e)
  {
    assert e == Edge(e.child, e.parent);
    assert Climbs(m, e.child, e.child, 0) && Chain(g, e.child, e.child, 0);
    assert Recorded(m, e) <==> Parent(m, e.child, e.parent);
  }

  /** On any grammar a climb follows references, since the map invents none. */
  lemma {:induction false} ClimbIsChain(g: Grammar, m: ParentMap, from: Name, to: Name, n: nat)
    requires Climbs(m, from, to, n) && forall e | Recorded(m, e) :: Refers(g, e)
    ensures Chain(g, from, to, n)
    decreases n
  {
    if n > 0 {
      var mid :| Climbs(m, from, mid, n - 1) && Parent(m, mid, to);
      ClimbIsChain(g, m, from, mid, n - 1);
      assert Recorded(m, Edge(mid, to));
    }
  }

  ghost predicate Ancestor(g: Grammar, top: set<Name>, target: Name, r: Name, n: nat) {
    n > 0 && r in top && Chain(g, target, r, n)
  }

  ghost predicate NearestAncestor(g: Grammar, top: set<Name>, target: Name, r: Name) {
    exists n: nat :: Ancestor(g, top, target, r, n) && forall a, k: nat | k < n :: !Ancestor(g, top, target, a, k)
  }

  ghost predicate AnswersInGrammar(g: Grammar, top: set<Name>, target: Name, r: Name) {
    NearestAncestor(g, top, target, r) || (r == "" && forall a, n: nat :: !Ancestor(g, top, target, a, n))
  }

  /** An answer read off an exact map is right for the grammar. */
  lemma ExactAnswers(g: Grammar, m: ParentMap, top: set<Name>, target: Name, r: Name)
    requires Exact(m, g)
    requires Nearest(m, top, target, r) || (r == "" && forall a, n: nat :: !TopAt(m, top, target, a, n))
    ensures AnswersInGrammar(g, top, target, r)
  {
    forall a, n: nat
      ensures TopAt(m, top, target, a, n) <==> Ancestor(g, top, target, a, n)
    {
      ClimbsAreChains(g, m, target, a, n);
    }
    if n: nat :| TopAt(m, top, target, r, n) && forall a, k: nat | k < n :: !TopAt(m, top, target, a, k) {
      assert Ancestor(g, top, target, r, n);
    }
  }

  /** The two functions together, as buildDiffSpecs uses them.  Whatever the names, a rule
      returned is an ancestor; when no two references share a key it is a nearest one, and
      the empty name means that there is none. */
  method AncestorInGrammar(g: Grammar, top: set<Name>, target: Name) returns (r: Name)
    ensures r == "" || exists n: nat :: Ancestor(g, top, target, r, n)
    ensures NoCollision(g) ==> AnswersInGrammar(g, top, target, r)
  {
    var parentOf := BuildChildToParents(g);
    r := FindTopLevelAncestor(parentOf, top, target);
    if r != "" {
      ghost var n: nat :| TopAt(parentOf, top, target, r, n);
      ClimbIsChain(g, parentOf, target, r, n);
      assert Ancestor(g, top, target, r, n);
    }
    if NoCollision(g) {
      ExactAnswers(g, parentOf, top, target, r);
    }
  }
}
