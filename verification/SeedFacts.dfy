/** What the seeds of rsg/rsgEntry.go are, and what is true of them: the facts that SeedStore keeps.

    Everything is said of one snapshot, which holds every node of every seed and of the
    current statement. */
module SeedFacts {
  import opened PathTree
  import opened PathNodes

  type Path = seq<PathNode>

  const TRIES: nat := 1000

  /** For a tree's root, what the statement said that the tree was recorded for. */
  type Words = map<PathNode, seq<string>>

  /** The snapshot knows the path's tree; the tree is consistent, its root is no favourite,
      and the words remembered for it are an instance of its outline. */
  ghost predicate PathOk(g: Grammar, s: Snap, w: Words, path: Path, root: string) {
    path != [] && Ok(s, path[0]) && path == NodesOf(s, path[0]) && SeedOk(g, ValueIn(s, path[0]), root)
    && (path[0] in w ==> Fills(g, w[path[0]], Outline(g, ValueIn(s, path[0]), root)))
  }

  ghost predicate SeedOk(g: Grammar, t: Tree, root: string) {
    Consistent(g, t, root) && !t.isFav
  }

  ghost predicate SeedsOk(g: Grammar, s: Snap, w: Words, saved: map<string, seq<Path>>) {
    forall root, i | root in saved && 0 <= i < |saved[root]| :: PathOk(g, s, w, saved[root][i], root)
  }

  ghost predicate AllOk(g: Grammar, s: Snap, w: Words, saved: map<string, seq<Path>>,
                        savedFav: map<string, seq<Path>>) {
    g.Valid() && w.Keys <= s.Keys && SeedsOk(g, s, w, saved) && SeedsOk(g, s, w, savedFav)
  }

  ghost predicate CurrentOk(g: Grammar, s: Snap, w: Words, path: Path, root: string) {
    path != [] ==> PathOk(g, s, w, path, root)
  }

  /** Every node of the one snapshot is in the other, with the same fields. */
  ghost predicate Extends(s: Snap, s': Snap) {
    forall n <- s :: n in s' && s'[n] == s[n]
  }

  lemma {:induction false} OkExtends(s: Snap, s': Snap, node: PathNode)
    requires Ok(s, node) && Extends(s, s')
    ensures Ok(s', node) && ValueIn(s', node) == ValueIn(s, node)
    decreases s[node].repr
  {
    forall i | 0 <= i < |s[node].children|
      ensures Ok(s', s[node].children[i]) && ValueIn(s', s[node].children[i]) == ValueIn(s, s[node].children[i])
    {
      OkExtends(s, s', s[node].children[i]);
    }
    assert Ok(s', node);
    assert ValuesIn(s', node, |s[node].children|) == ValuesIn(s, node, |s[node].children|);
  }

  lemma {:induction false} NodesExtend(s: Snap, s': Snap, node: PathNode)
    requires Ok(s, node) && Ok(s', node) && Extends(s, s')
    ensures NodesOf(s', node) == NodesOf(s, node)
    decreases s[node].repr, 1, 0
  {
    NodesInExtend(s, s', node, 0);
  }

  lemma {:induction false} NodesInExtend(s: Snap, s': Snap, node: PathNode, n: nat)
    requires Ok(s, node) && Ok(s', node) && Extends(s, s') && n <= |s[node].children|
    ensures NodesIn(s', node, n) == NodesIn(s, node, n)
    decreases s[node].repr, 0, |s[node].children| - n
  {
    if n < |s[node].children| {
      NodesExtend(s, s', s[node].children[n]);
      NodesInExtend(s, s', node, n + 1);
    }
  }

  /** Words are remembered for new nodes only. */
  ghost predicate Remembers(s: Snap, w: Words, w': Words) {
    && (forall n <- w :: n in w' && w'[n] == w[n])
    && (forall n <- w' :: n in s ==> n in w)
  }

  lemma {:induction false} PathExtends(g: Grammar, s: Snap, s': Snap, w: Words, w': Words, path: Path, root: string)
    requires PathOk(g, s, w, path, root) && Extends(s, s') && Remembers(s, w, w')
    ensures PathOk(g, s', w', path, root)
  {
    OkExtends(s, s', path[0]);
    NodesExtend(s, s', path[0]);
  }

  lemma {:induction false} SeedsExtend(g: Grammar, s: Snap, s': Snap, w: Words, w': Words,
                                       saved: map<string, seq<Path>>)
    requires SeedsOk(g, s, w, saved) && Extends(s, s') && Remembers(s, w, w')
    ensures SeedsOk(g, s', w', saved)
  {
    forall root, i | root in saved && 0 <= i < |saved[root]|
      ensures PathOk(g, s', w', saved[root][i], root)
    {
      PathExtends(g, s, s', w, w', saved[root][i], root);
    }
  }

  lemma {:induction false} AllExtend(g: Grammar, s: Snap, s': Snap, w: Words, w': Words,
                                     saved: map<string, seq<Path>>, savedFav: map<string, seq<Path>>)
    requires AllOk(g, s, w, saved, savedFav) && Extends(s, s') && Remembers(s, w, w') && w'.Keys <= s'.Keys
    ensures AllOk(g, s', w', saved, savedFav)
  {
    SeedsExtend(g, s, s', w, w', saved);
    SeedsExtend(g, s, s', w, w', savedFav);
  }

  function Lookup(saved: map<string, seq<Path>>, root: string): seq<Path> {
    if root in saved then saved[root] else []
  }

  // ------------------------------------------------------------ mutated statements

  /** What mutating node i of a tree does to a statement: the new words differ from the old
      in the part for that node and where the outline leaves a choice, and nowhere else. */
  ghost predicate LocalChange(g: Grammar, v: Tree, root: string, i: nat, before: seq<string>, after: seq<string>)
    requires i < Size(v)
  {
    match ShownAs(g, v, root, i)
    case None => Fills(g, after, Outline(g, v, root))
    case Some(name) =>
      exists a, c :: Outline(g, v, root) == a + Outline(g, SubtreeAt(v, i), name) + c &&
          DifferAt(g, before, after, a, c, name)
  }

  lemma {:induction false} MutantIsLocal(e: Env, v: Tree, root: string, i: nat, depth: nat, fuel: nat, k: nat,
                                         before: seq<string>)
    requires e.g.Valid() && root in e.g.prods && i < Size(v) && Consistent(e.g, v, root)
    requires Fills(e.g, before, Outline(e.g, v, root))
    ensures var out := Gen(e, ClearAt(v, i), root, depth, fuel, k).out;
            out.Done? ==> LocalChange(e.g, v, root, i, before, out.words)
  {
    var a, c := MutationIsLocal(e, v, root, i, depth, fuel, k, before);
  }

  /** The statement comes from node i of the seed p: its tree with that node cleared.  With
      depth left, it differs locally from the statement remembered for the seed. */
  ghost predicate Mutant(g: Grammar, s: Snap, w: Words, p: Path, i: nat, root: string, t: Tree, out: Outcome,
                         depth: int) {
    && p != [] && Ok(s, p[0]) && i < Size(ValueIn(s, p[0])) && t == ClearAt(ValueIn(s, p[0]), i)
    && (i == 0 <==> Size(ValueIn(s, p[0])) <= 2)
    && (out.Done? && depth >= 0 && p[0] in w ==> LocalChange(g, ValueIn(s, p[0]), root, i, w[p[0]], out.words))
  }

  /** Where a statement comes from: a mutant of one of the seeds listed for its root, or an
      empty node. */
  ghost predicate ComesFrom(g: Grammar, s: Snap, w: Words, saved: map<string, seq<Path>>,
                            savedFav: map<string, seq<Path>>,
                            root: string, mutates: bool, t: Tree, out: Outcome, depth: int)
  {
    if mutates then
      exists p <- Lookup(saved, root) + Lookup(savedFav, root) :: MutantOf(g, s, w, p, root, t, out, depth)
    else t == Leaf(false)
  }

  ghost predicate MutantOf(g: Grammar, s: Snap, w: Words, p: Path, root: string, t: Tree, out: Outcome, depth: int) {
    exists i: nat :: Mutant(g, s, w, p, i, root, t, out, depth)
  }

  /** What is said of later lists, snapshots and words holds of the earlier ones. */
  lemma {:induction false} ComesFromBefore(g: Grammar, s: Snap, s': Snap, w: Words, w': Words,
                                           saved: map<string, seq<Path>>, fav: map<string, seq<Path>>,
                                           fav': map<string, seq<Path>>,
                                           root: string, mutates: bool, t: Tree, out: Outcome, depth: int)
    requires ComesFrom(g, s', w', saved, fav', root, mutates, t, out, depth)
    requires AllOk(g, s, w, saved, fav) && Extends(s, s') && Remembers(s, w, w') && Within(fav', fav)
    ensures ComesFrom(g, s, w, saved, fav, root, mutates, t, out, depth)
  {
    if mutates {
      var p :| p in Lookup(saved, root) + Lookup(fav', root) && MutantOf(g, s', w', p, root, t, out, depth);
      var i: nat :| Mutant(g, s', w', p, i, root, t, out, depth);
      ListedOk(g, s, w, saved, fav, root, p);
      OkExtends(s, s', p[0]);
      assert Mutant(g, s, w, p, i, root, t, out, depth);
      assert p in Lookup(saved, root) + Lookup(fav, root);
    }
  }

  lemma {:induction false} ListedOk(g: Grammar, s: Snap, w: Words, saved: map<string, seq<Path>>,
                                    fav: map<string, seq<Path>>, root: string, p: Path)
    requires AllOk(g, s, w, saved, fav) && (p in Lookup(saved, root) || p in Lookup(fav, root))
    ensures PathOk(g, s, w, p, root)
  {
    var list := if p in Lookup(saved, root) then Lookup(saved, root) else Lookup(fav, root);
    var i :| 0 <= i < |list| && list[i] == p;
  }

  // ------------------------------------------------------------ choosing a node

  /** Whether the choice is limited to favourites, if the path has any. */
  predicate PrefersFav(isUsingFav: bool, draw: nat -> nat, k: nat) {
    isUsingFav || draw(k) % 2 != 0
  }

  /** Some recorded node of the path is a favourite. */
  ghost predicate HasFav(path: Path)
    reads path
  {
    exists n <- path :: n.rule.Some? && n.isFav
  }

  /** The snapshot has a tree for the path: the value v. */
  ghost predicate Stands(s: Snap, p: Path, v: Tree) {
    p != [] && Ok(s, p[0]) && v == ValueIn(s, p[0])
  }

  /** What can be relied on after generation. */
  ghost predicate ResultOk(g: Grammar, r: Res, root: string, depth: int) {
    && (r.out != OutOfFuel ==> SeedOk(g, r.tree, root)) && (depth >= 0 ==> r.out != Nil)
    && (r.out.Done? && depth >= 0 ==> Fills(g, r.out.words, Outline(g, r.tree, root)))
  }

  /** The words to remember. */
  ghost function Said(r: Res, depth: int): Option<seq<string>> {
    if r.out.Done? && depth >= 0 then Some(r.out.words) else None
  }

  ghost predicate SaidOk(g: Grammar, said: Option<seq<string>>, t: Tree, root: string) {
    said.Some? ==> Fills(g, said.value, Outline(g, t, root))
  }

  /** Generation from a seed with a node cleared, or from an empty node. */
  lemma {:induction false} GenIsFine(e: Env, t: Tree, root: string, depth: int, fuel: nat, k: nat, r: Res)
    requires e.g.Valid() && root in e.g.prods && SeedOk(e.g, t, root) && r == Gen(e, t, root, depth, fuel, k)
    ensures ResultOk(e.g, r, root, depth)
  {
    GenKeepsConsistent(e, t, root, depth, fuel, k);
    GenKeepsMark(e, t, root, depth, fuel, k);
    ReplayNilExactly(e, t, root, depth, fuel, k);
    if t.rule.None? {
      FreshFills(e, t, root, depth, fuel, k);
    } else if depth >= 0 {
      ReplayFills(e, t, root, depth, fuel, k);
    }
  }

  lemma {:induction false} SeedCleared(g: Grammar, s: Snap, w: Words, root: string, p: Path, i: nat)
    requires PathOk(g, s, w, p, root) && i < Size(ValueIn(s, p[0]))
    ensures SeedOk(g, ClearAt(ValueIn(s, p[0]), i), root)
  {
    ClearConsistent(g, ValueIn(s, p[0]), root, i);
  }

  /** What a mutated seed leads to. */
  lemma {:induction false} SeedMutant(e: Env, s: Snap, w: Words, root: string, p: Path, i: nat, depth: int, fuel: nat,
                                      k: nat)
    requires e.g.Valid() && root in e.g.prods && PathOk(e.g, s, w, p, root) && i < Size(ValueIn(s, p[0]))
    requires i == 0 <==> Size(ValueIn(s, p[0])) <= 2
    ensures var t := ClearAt(ValueIn(s, p[0]), i);
            Mutant(e.g, s, w, p, i, root, t, Gen(e, t, root, depth, fuel, k).out, depth)
  {
    if depth >= 0 && p[0] in w {
      MutantIsLocal(e, ValueIn(s, p[0]), root, i, depth, fuel, k, w[p[0]]);
    }
  }

  /** The tree t is that of seed p with node i cleared, the root only if the tree is tiny. */
  ghost predicate ClearedSeed(g: Grammar, s: Snap, w: Words, root: string, p: Path, i: nat, t: Tree) {
    && PathOk(g, s, w, p, root) && i < Size(ValueIn(s, p[0])) && t == ClearAt(ValueIn(s, p[0]), i)
    && (i == 0 <==> Size(ValueIn(s, p[0])) <= 2)
  }

  /** The tree t is the tree of a listed seed with one node cleared, or empty. */
  ghost predicate StartsFrom(g: Grammar, s: Snap, w: Words, saved: map<string, seq<Path>>,
                             fav: map<string, seq<Path>>, root: string, mutates: bool, t: Tree)
  {
    if mutates then
      exists p, i: nat | p in Lookup(saved, root) + Lookup(fav, root) :: ClearedSeed(g, s, w, root, p, i, t)
    else t == Leaf(false)
  }

  /** The seed to mutate: the first favourite one time in two, if favourites count and there
      is one; otherwise any saved one. */
  ghost predicate PicksSeed(e: Env, useFav: bool, saved: map<string, seq<Path>>, fav: map<string, seq<Path>>,
                            root: string, draw: nat, p: Path, isUsingFav: bool)
  {
    var favs, all := Lookup(fav, root), Lookup(saved, root);
    && all != [] && (isUsingFav <==> useFav && e.draw(draw) % 2 == 0 && favs != [])
    && p == if isUsingFav then favs[0] else all[e.draw(draw + 1) % |all|]
  }

  lemma {:induction false} PickedIsOk(e: Env, s: Snap, w: Words, useFav: bool, saved: map<string, seq<Path>>,
                                      fav: map<string, seq<Path>>, root: string, draw: nat, p: Path, isUsingFav: bool)
    requires AllOk(e.g, s, w, saved, fav) && PicksSeed(e, useFav, saved, fav, root, draw, p, isUsingFav)
    ensures PathOk(e.g, s, w, p, root) && p in Lookup(saved, root) + Lookup(fav, root)
  {
    if isUsingFav {
      SavedOk(e.g, s, w, fav, root, 0);
    } else {
      SavedOk(e.g, s, w, saved, root, e.draw(draw + 1) % |Lookup(saved, root)|);
    }
  }

  lemma {:induction false} SeedStarts(g: Grammar, s: Snap, w: Words, saved: map<string, seq<Path>>,
                                      fav: map<string, seq<Path>>, root: string, t: Tree, p: Path, i: nat)
    requires PathOk(g, s, w, p, root) && p in Lookup(saved, root) + Lookup(fav, root)
    requires i < Size(ValueIn(s, p[0])) && t == ClearAt(ValueIn(s, p[0]), i)
    requires i == 0 <==> Size(ValueIn(s, p[0])) <= 2
    ensures StartsFrom(g, s, w, saved, fav, root, true, t)
  {
    assert ClearedSeed(g, s, w, root, p, i, t);
  }

  lemma {:induction false} StartDecides(e: Env, s: Snap, w: Words, saved: map<string, seq<Path>>,
                                        fav: map<string, seq<Path>>, root: string,
                                        mutates: bool, t: Tree, depth: int, fuel: nat, k: nat, r: Res)
    requires e.g.Valid() && root in e.g.prods && StartsFrom(e.g, s, w, saved, fav, root, mutates, t)
    requires r == Gen(e, t, root, depth, fuel, k)
    ensures SeedOk(e.g, t, root) && ComesFrom(e.g, s, w, saved, fav, root, mutates, t, r.out, depth)
  {
    if mutates {
      var p, i: nat :| p in Lookup(saved, root) + Lookup(fav, root) && ClearedSeed(e.g, s, w, root, p, i, t);
      SeedCleared(e.g, s, w, root, p, i);
      SeedMutant(e, s, w, root, p, i, depth, fuel, k);
      assert MutantOf(e.g, s, w, p, root, t, r.out, depth);
    }
  }

  /** strings.Join of the words is not empty. */
  predicate SaysSomething(out: Outcome) {
    out.Done? && out.words != [] && out.words != [""]
  }

  /** A saved statement is mutated in two draws out of three, if there is one. */
  ghost predicate Mutates(e: Env, saved: map<string, seq<Path>>, root: string, draw: nat) {
    Lookup(saved, root) != [] && e.draw(draw) % 3 != 0
  }

  /** One try: its first draw, whether a seed is mutated, the tree it starts from, the first
      draw of the generation, and what comes out. */
  datatype Attempt = Attempt(first: nat, mutates: bool, t: Tree, k: nat, out: Outcome)

  /** The try made with these draws. */
  ghost predicate Made(e: Env, root: string, depth: int, fuel: nat, saved: map<string, seq<Path>>, a: Attempt)
    requires e.g.Valid() && root in e.g.prods
  {
    && a.out == Gen(e, a.t, root, depth, fuel, a.k).out && a.first < a.k
    && (a.mutates <==> Mutates(e, saved, root, a.first))
  }

  /** Each try but the last was in vain, and each goes on with the draws where the one before
      has left off; `next` is where the last one did. */
  ghost predicate Tried(e: Env, root: string, depth: int, fuel: nat, saved: map<string, seq<Path>>,
                        tries: seq<Attempt>, first: nat, next: nat)
    requires e.g.Valid() && root in e.g.prods
    decreases |tries|
  {
    if tries == [] then next == first
    else
      var n := |tries| - 1;
      && Made(e, root, depth, fuel, saved, tries[n])
      && (tries[n].out != OutOfFuel ==> next == Left(e, root, depth, fuel, tries[n]))
      && (n > 0 ==> InVain(tries[n - 1].out))
      && Tried(e, root, depth, fuel, saved, tries[..n], first, tries[n].first)
  }

  lemma {:induction false} AllInVain(e: Env, root: string, depth: int, fuel: nat, saved: map<string, seq<Path>>,
                                     tries: seq<Attempt>, first: nat, next: nat, i: nat)
    requires e.g.Valid() && root in e.g.prods && Tried(e, root, depth, fuel, saved, tries, first, next)
    requires i < |tries| - 1
    ensures InVain(tries[i].out) && Made(e, root, depth, fuel, saved, tries[i])
    ensures tries[i + 1].first == Left(e, root, depth, fuel, tries[i])
    decreases |tries|
  {
    var n := |tries| - 1;
    if i < n - 1 {
      AllInVain(e, root, depth, fuel, saved, tries[..n], first, tries[n].first, i);
    } else {
      assert tries[..n][n - 1] == tries[n - 1];
    }
  }

  predicate InVain(out: Outcome) {
    !SaysSomething(out) && out != OutOfFuel
  }

  ghost function Left(e: Env, root: string, depth: int, fuel: nat, a: Attempt): nat
    requires e.g.Valid() && root in e.g.prods
  {
    Gen(e, a.t, root, depth, fuel, a.k).k
  }

  lemma {:induction false} TriedAgain(e: Env, root: string, depth: int, fuel: nat, saved: map<string, seq<Path>>,
                                      tries: seq<Attempt>, first: nat, next: nat, a: Attempt, next': nat)
    requires e.g.Valid() && root in e.g.prods && Tried(e, root, depth, fuel, saved, tries, first, next)
    requires Made(e, root, depth, fuel, saved, a) && a.first == next
    requires tries != [] ==> InVain(tries[|tries| - 1].out)
    requires a.out != OutOfFuel ==> next' == Left(e, root, depth, fuel, a)
    ensures Tried(e, root, depth, fuel, saved, tries + [a], first, next')
  {
    assert (tries + [a])[..|tries|] == tries;
  }

  /** The path's tree is t, and the words remembered for it, if any, are these. */
  ghost predicate HoldsIn(s: Snap, w: Words, path: Path, t: Tree, said: Option<seq<string>>) {
    && path != [] && Ok(s, path[0]) && ValueIn(s, path[0]) == t
    && (said.Some? ==> path[0] in w && w[path[0]] == said.value)
  }

  /** What the last try has come to: its statement comes from an empty node or from a seed
      listed when the first try began, and the current path has its tree and its words. */
  ghost predicate LastTry(e: Env, root: string, depth: int, fuel: nat, s0: Snap, w0: Words,
                          saved: map<string, seq<Path>>,
                          fav0: map<string, seq<Path>>, s: Snap, w: Words, path: Path, a: Attempt, out: Outcome)
    requires e.g.Valid() && root in e.g.prods
  {
    && CurrentOk(e.g, s, w, path, root) && a.out == out && (depth >= 0 ==> out != Nil)
    && ComesFrom(e.g, s0, w0, saved, fav0, root, a.mutates, a.t, out, depth)
    && (out != OutOfFuel ==>
          var r := Gen(e, a.t, root, depth, fuel, a.k); HoldsIn(s, w, path, r.tree, Said(r, depth)))
  }

  lemma {:induction false} ThisTry(e: Env, root: string, depth: int, fuel: nat, s0: Snap, w0: Words,
                                   saved: map<string, seq<Path>>, fav0: map<string, seq<Path>>, s: Snap, w: Words,
                                   path: Path, a: Attempt, out: Outcome, r: Res)
    requires e.g.Valid() && root in e.g.prods && r == Gen(e, a.t, root, depth, fuel, a.k)
    requires CurrentOk(e.g, s, w, path, root) && a.out == out == r.out && (depth >= 0 ==> out != Nil)
    requires ComesFrom(e.g, s0, w0, saved, fav0, root, a.mutates, a.t, out, depth)
    requires out != OutOfFuel ==> HoldsIn(s, w, path, r.tree, Said(r, depth))
    ensures LastTry(e, root, depth, fuel, s0, w0, saved, fav0, s, w, path, a, out)
  {
  }

  /** Some tries have been made since snapshot, words and favourites were s0, w0 and fav0. */
  ghost predicate Trying(e: Env, root: string, depth: int, fuel: nat, s0: Snap, w0: Words,
                         saved: map<string, seq<Path>>,
                         fav0: map<string, seq<Path>>, s: Snap, w: Words, fav: map<string, seq<Path>>, path: Path,
                         tries: seq<Attempt>, first: nat, next: nat, out: Outcome)
    requires e.g.Valid() && root in e.g.prods
  {
    && AllOk(e.g, s0, w0, saved, fav0) && Later(s0, w0, fav0, s, w, fav)
    && Tried(e, root, depth, fuel, saved, tries, first, next)
    && if tries == [] then out == Done([])
       else LastTry(e, root, depth, fuel, s0, w0, saved, fav0, s, w, path, tries[|tries| - 1], out)
  }

  lemma {:induction false} TryingStarts(e: Env, root: string, depth: int, fuel: nat, s: Snap, w: Words,
                                        saved: map<string, seq<Path>>, fav: map<string, seq<Path>>, path: Path,
                                        first: nat)
    requires e.g.Valid() && root in e.g.prods && AllOk(e.g, s, w, saved, fav)
    ensures Trying(e, root, depth, fuel, s, w, saved, fav, s, w, fav, path, [], first, first, Done([]))
  {
  }

  lemma {:induction false} TryingGoesOn(e: Env, root: string, depth: int, fuel: nat, s0: Snap, w0: Words,
                                        saved: map<string, seq<Path>>, fav0: map<string, seq<Path>>, s: Snap, w: Words,
                                        fav: map<string, seq<Path>>, path: Path, tries: seq<Attempt>, first: nat,
                                        next: nat, out: Outcome, s': Snap, w': Words, fav': map<string, seq<Path>>,
                                        path': Path, next': nat, a: Attempt, out': Outcome)
    requires e.g.Valid() && root in e.g.prods
    requires Trying(e, root, depth, fuel, s0, w0, saved, fav0, s, w, fav, path, tries, first, next, out) && InVain(out)
    requires Later(s, w, fav, s', w', fav')
    requires LastTry(e, root, depth, fuel, s, w, saved, fav, s', w', path', a, out')
    requires Made(e, root, depth, fuel, saved, a) && a.first == next
    requires out' != OutOfFuel ==> next' == Left(e, root, depth, fuel, a)
    ensures Trying(e, root, depth, fuel, s0, w0, saved, fav0, s', w', fav', path', tries + [a], first, next', out')
  {
    ComesFromBefore(e.g, s0, s, w0, w, saved, fav0, fav, root, a.mutates, a.t, out', depth);
    LaterStill(s0, w0, fav0, s, w, fav, s', w', fav');
    TriedAgain(e, root, depth, fuel, saved, tries, first, next, a, next');
  }

  function Added(saved: map<string, seq<Path>>, root: string, path: Path): map<string, seq<Path>> {
    saved[root := Lookup(saved, root) + [path]]
  }

  lemma {:induction false} AddedOk(g: Grammar, s: Snap, w: Words, saved: map<string, seq<Path>>, root: string,
                                   path: Path)
    requires SeedsOk(g, s, w, saved) && PathOk(g, s, w, path, root)
    ensures SeedsOk(g, s, w, Added(saved, root, path))
  {
  }

  lemma {:induction false} SavedOk(g: Grammar, s: Snap, w: Words, saved: map<string, seq<Path>>, root: string, i: nat)
    requires SeedsOk(g, s, w, saved) && root in saved && i < |saved[root]|
    ensures PathOk(g, s, w, saved[root][i], root) && saved[root][i] in Lookup(saved, root)
  {
  }

  /** No seed is listed that was not listed before. */
  ghost predicate Within(saved: map<string, seq<Path>>, before: map<string, seq<Path>>) {
    forall root, p | p in Lookup(saved, root) :: p in Lookup(before, root)
  }

  ghost predicate Later(s: Snap, w: Words, fav: map<string, seq<Path>>, s': Snap, w': Words,
                        fav': map<string, seq<Path>>) {
    Extends(s, s') && Remembers(s, w, w') && Within(fav', fav)
  }

  lemma {:induction false} LaterStill(s: Snap, w: Words, fav: map<string, seq<Path>>, s1: Snap, w1: Words,
                                      fav1: map<string, seq<Path>>,
                                      s2: Snap, w2: Words, fav2: map<string, seq<Path>>)
    requires Later(s, w, fav, s1, w1, fav1) && Later(s1, w1, fav1, s2, w2, fav2)
    ensures Later(s, w, fav, s2, w2, fav2)
  {
  }

  lemma {:induction false} CurrentIsOk(g: Grammar, s: Snap, s': Snap, w: Words, w': Words, path: Path, root: string,
                                       t: Tree, said: Option<seq<string>>)
    requires path != [] && path[0] !in s && w.Keys <= s.Keys
    requires Ok(s', path[0]) && path == NodesOf(s', path[0]) && ValueIn(s', path[0]) == t
    requires SeedOk(g, t, root) && SaidOk(g, said, t, root)
    requires w' == if said.Some? then w[path[0] := said.value] else w
    ensures CurrentOk(g, s', w', path, root)
  {
  }

  ghost function Noted(w: Words, n: PathNode, said: Option<seq<string>>): Words {
    if said.Some? then w[n := said.value] else w
  }

  /** A new tree among the nodes, with what it said, leaves the seeds as they are. */
  lemma {:induction false} KeptIsFine(g: Grammar, s: Snap, s': Snap, w: Words, saved: map<string, seq<Path>>,
                                      fav: map<string, seq<Path>>, path: Path, root: string, t: Tree,
                                      said: Option<seq<string>>, w': Words)
    requires AllOk(g, s, w, saved, fav) && Extends(s, s') && path != [] && path[0] !in s
    requires Ok(s', path[0]) && path == NodesOf(s', path[0]) && ValueIn(s', path[0]) == t
    requires SeedOk(g, t, root) && SaidOk(g, said, t, root) && w' == Noted(w, path[0], said)
    ensures AllOk(g, s', w', saved, fav) && CurrentOk(g, s', w', path, root) && Remembers(s, w, w')
  {
    AllExtend(g, s, s', w, w', saved, fav);
    CurrentIsOk(g, s, s', w, w', path, root, t, said);
  }
}
