/** RSG of rsg/rsgEntry.go and rsg/pathFeedbackHandling.go: it keeps the path trees of
    statements as seeds, mutates copies of them, and replays the copies.

    Its invariant is said of one snapshot, which holds every node of every seed and of the
    current statement.  No method changes what the snapshot says of a node; methods only
    add nodes to it.  So seeds are never altered, and that they are consistent needs to be
    shown once, when they are made. */
module SeedStore {
  import opened PathTree
  import opened PathNodes
  import opened SeedFacts

  /** The choice of a node to mutate.  As no root is a favourite, the root is chosen exactly
      in trees of at most two nodes. */
  method PickNode(path: Path, isUsingFav: bool, draw: nat -> nat, k: nat) returns (i: nat, k': nat)
    requires path != [] && !path[0].isFav
    ensures i < |path| && (i == 0 <==> |path| <= 2) && k' >= k
    ensures |path| > 2 && PrefersFav(isUsingFav, draw, k) && (exists n <- path :: n.isFav) ==> path[i].isFav
  {
    if |path| <= 2 {
      return 0, k;
    }
    var favs: seq<nat> := [];
    if draw(k) % 2 != 0 || isUsingFav {
      var j := 0;
      while j < |path|
        invariant j <= |path| && forall f <- favs :: f < |path| && path[f].isFav
        invariant favs == [] ==> forall n <- path[..j] :: !n.isFav
      {
        if path[j].isFav {
          favs := favs + [j];
        }
        assert path[..j + 1] == path[..j] + [path[j]];
        j := j + 1;
      }
      assert path[..j] == path;
    }
    if favs != [] {
      i := favs[draw(k + 1) % |favs|];
      assert i in favs;
    } else {
      i := draw(k + 1) % (|path| - 1) + 1;
    }
    k' := k + 2;
  }

  method IsFavPath(path: Path) returns (isFav: bool)
    ensures isFav <==> HasFav(path)
  {
    var j := 0;
    while j < |path|
      invariant j <= |path| && forall n <- path[..j] :: !(n.rule.Some? && n.isFav)
    {
      if path[j].rule.Some? && path[j].isFav {
        return true;
      }
      assert path[..j + 1] == path[..j] + [path[j]];
      j := j + 1;
    }
    assert path[..j] == path;
    return false;
  }

  method CopyAndGather(p: Path, ghost s: Snap, ghost v: Tree) returns (node: PathNode, newPath: Path, ghost c: Snap)
    requires Stands(s, p, v) && Shows(s)
    ensures node.Valid() && fresh(node.repr) && node.Value() == v
    ensures Shows(c) && c.Keys == node.repr && Gathered(c, node, newPath) && newPath != [] && newPath[0] == node
  {
    node := DeepCopyPathNode(p[0], s);
    c := Taken(node.repr);
    SnapshotOf(c, node);
    newPath := GatherAllPathNodes(node, c);
  }

  method PickAndClear(node: PathNode, newPath: Path, isUsingFav: bool, draw: nat -> nat, k: nat, ghost c: Snap)
      returns (i: nat, k': nat)
    requires node.Valid() && newPath != [] && newPath[0] == node && !node.isFav
    requires Shows(c) && c.Keys == node.repr && Gathered(c, node, newPath)
    modifies node.repr
    ensures node.Valid() && node.repr == old(node.repr)
    ensures i < Size(old(node.Value())) && node.Value() == ClearAt(old(node.Value()), i)
    ensures (i == 0 <==> Size(old(node.Value())) <= 2) && k' >= k
  {
    SnapshotOf(c, node);
    NodesOfRepr(c, node);
    i, k' := PickNode(newPath, isUsingFav, draw, k);
    ForgetNode(node, newPath, i, c);
  }

  /** A copy of a saved tree with one node cleared. */
  method CopyAndClear(p: Path, isUsingFav: bool, draw: nat -> nat, k: nat, ghost s: Snap, ghost v: Tree)
      returns (node: PathNode, k': nat, i: nat)
    requires Stands(s, p, v) && Shows(s) && !v.isFav
    ensures node.Valid() && fresh(node.repr) && i < Size(v) && node.Value() == ClearAt(v, i)
    ensures (i == 0 <==> Size(v) <= 2) && k' >= k
  {
    var newPath;
    ghost var c;
    node, newPath, c := CopyAndGather(p, s, v);
    i, k' := PickAndClear(node, newPath, isUsingFav, draw, k, c);
  }

  method MutantOfSeed(p: Path, isUsingFav: bool, e: Env, k: nat, ghost s: Snap, ghost w: Words,
                      ghost saved: map<string, seq<Path>>, ghost fav: map<string, seq<Path>>, ghost root: string)
      returns (node: PathNode, k': nat)
    requires PathOk(e.g, s, w, p, root) && p in Lookup(saved, root) + Lookup(fav, root) && Shows(s)
    ensures node.Valid() && fresh(node.repr) && k' >= k
    ensures StartsFrom(e.g, s, w, saved, fav, root, true, node.Value())
  {
    var i;
    node, k', i := CopyAndClear(p, isUsingFav, e.draw, k, s, ValueIn(s, p[0]));
    SeedStarts(e.g, s, w, saved, fav, root, node.Value(), p, i);
  }

  /** What is left of a generation: the tree on the heap, gathered, and snapped. */
  method GatherResult(node: PathNode, ghost s: Snap) returns (path: Path, ghost s': Snap)
    requires node.Valid() && Shows(s) && node.repr !! s.Keys
    ensures Extends(s, s') && Shows(s')
    ensures Ok(s', node) && path != [] && path[0] == node && path == NodesOf(s', node) &&
            ValueIn(s', node) == node.Value()
  {
    ghost var c := Taken(node.repr);
    SnapshotOf(c, node);
    path := GatherAllPathNodes(node, c);
    s' := s + c;
    OkExtends(c, s', node);
    NodesExtend(c, s', node);
  }

  class Rsg {
    const e: Env
    /** fuzzingMode < FuzzingModeNoFav, and < FuzzingModeNoFavNoMABNoAcc */
    const useFav: bool
    const accumulate: bool
    var draws: nat
    var allSavedPath: map<string, seq<Path>>
    var allSavedFavPath: map<string, seq<Path>>
    var curChosenPath: Path
    var curMutatingType: string
    /** All nodes of seeds and of the current statement, as they are and will stay; and what
        the statements said. */
    ghost var snap: Snap
    ghost var words: Words

    ghost predicate SeedsValid()
      reads this, snap.Keys
    {
      Shows(snap) && AllOk(e.g, snap, words, allSavedPath, allSavedFavPath)
    }

    ghost predicate Valid()
      reads this, snap.Keys
    {
      SeedsValid() && CurrentOk(e.g, snap, words, curChosenPath, curMutatingType)
    }

    constructor (e: Env, useFav: bool, accumulate: bool)
      requires e.g.Valid()
      ensures Valid() && this.e == e && allSavedPath == map[] && allSavedFavPath == map[] && curChosenPath == []
    {
      this.e, this.useFav, this.accumulate := e, useFav, accumulate;
      draws, allSavedPath, allSavedFavPath, curChosenPath, curMutatingType := 0, map[], map[], [], "";
      snap, words := map[], map[];
    }

    /** The favourite seed to try next, the first one, which is dropped from the list. */
    method TakeFav(root: string) returns (p: Path)
      requires SeedsValid()
      modifies this`allSavedFavPath
      ensures SeedsValid() && Within(allSavedFavPath, old(allSavedFavPath))
      ensures var list := Lookup(old(allSavedFavPath), root);
              if list == [] then p == [] && allSavedFavPath == old(allSavedFavPath)
              else p == list[0] && allSavedFavPath == old(allSavedFavPath)[root := list[1..]]
      ensures p != [] ==> PathOk(e.g, snap, words, p, root)
    {
      p := [];
      if root in allSavedFavPath && allSavedFavPath[root] != [] {
        p := allSavedFavPath[root][0];
        allSavedFavPath := allSavedFavPath[root := allSavedFavPath[root][1..]];
      }
    }

    /** A seed to mutate, from the favourites or from all that are saved; k is the next draw. */
    method PickSeed(root: string, k: nat) returns (p: Path, isUsingFav: bool)
      requires SeedsValid() && Lookup(allSavedPath, root) != []
      modifies this`allSavedFavPath
      ensures SeedsValid() && Within(allSavedFavPath, old(allSavedFavPath))
      ensures PicksSeed(e, useFav, allSavedPath, old(allSavedFavPath), root, k, p, isUsingFav)
    {
      p, isUsingFav := [], false;
      if useFav && e.draw(k) % 2 == 0 {
        p := TakeFav(root);
        isUsingFav := true;
      }
      if p == [] {
        var saved := allSavedPath[root];
        p := saved[e.draw(k + 1) % |saved|];
        isUsingFav := false;
      }
    }

    /** A seed is chosen and mutated in a copy. */
    method MutatedSeed(root: string, k: nat) returns (node: PathNode, k': nat)
      requires SeedsValid() && Lookup(allSavedPath, root) != []
      modifies this`allSavedFavPath
      ensures SeedsValid() && node.Valid() && fresh(node.repr)
      ensures Within(allSavedFavPath, old(allSavedFavPath)) && k' >= k
      ensures StartsFrom(e.g, snap, words, allSavedPath, old(allSavedFavPath), root, true, node.Value())
    {
      ghost var fav := allSavedFavPath;
      var p, isUsingFav := PickSeed(root, k);
      PickedIsOk(e, snap, words, useFav, allSavedPath, fav, root, k, p, isUsingFav);
      node, k' := MutantOfSeed(p, isUsingFav, e, k + 2, snap, words, allSavedPath, fav, root);
    }

    /** The node to generate from: in two cases out of three, if there are seeds, a copy of
        one of them with a node cleared, and otherwise an empty node. */
    method StartNode(root: string) returns (node: PathNode, mutates: bool)
      requires SeedsValid()
      modifies this`allSavedFavPath, this`draws
      ensures SeedsValid() && node.Valid() && fresh(node.repr)
      ensures Within(allSavedFavPath, old(allSavedFavPath))
      ensures StartsFrom(e.g, snap, words, allSavedPath, old(allSavedFavPath), root, mutates, node.Value())
      ensures mutates <==> Mutates(e, allSavedPath, root, old(draws))
      ensures draws > old(draws)
    {
      var k := draws + 1;
      mutates := Lookup(allSavedPath, root) != [] && e.draw(draws) % 3 != 0;
      if mutates {
        node, k := MutatedSeed(root, k);
      } else {
        node := new PathNode(false);
      }
      draws := k;
    }

    /** RSG.generate. */
    method GenerateOnce(root: string, depth: int, fuel: nat) returns (out: Outcome, ghost a: Attempt)
      requires SeedsValid() && root in e.g.prods && root == curMutatingType
      modifies this
      ensures SeedsValid() && curMutatingType == root && allSavedPath == old(allSavedPath)
      ensures Later(old(snap), old(words), old(allSavedFavPath), snap, words, allSavedFavPath)
      ensures LastTry(e, root, depth, fuel, old(snap), old(words), allSavedPath, old(allSavedFavPath),
                      snap, words, curChosenPath, a, out)
      ensures Made(e, root, depth, fuel, allSavedPath, a) && a.first == old(draws)
      ensures out != OutOfFuel ==> draws == Left(e, root, depth, fuel, a)
    {
      ghost var first, s0, w0, fav0 := draws, snap, words, allSavedFavPath;
      var node, mutates := StartNode(root);
      ghost var t, k := node.Value(), draws;
      ghost var r := Gen(e, t, root, depth, fuel, k);
      StartDecides(e, snap, words, allSavedPath, old(allSavedFavPath), root, mutates, t, depth, fuel, k, r);
      a := Attempt(first, mutates, t, k, r.out);
      out := FinishTry(node, root, depth, fuel, r, a, s0, w0, fav0);
    }

    /** The try goes on from its starting node. */
    method FinishTry(node: PathNode, root: string, depth: int, fuel: nat, ghost r: Res, ghost a: Attempt,
                     ghost s0: Snap, ghost w0: Words, ghost fav0: map<string, seq<Path>>)
        returns (out: Outcome)
      requires SeedsValid() && root in e.g.prods && root == curMutatingType
      requires node.Valid() && node.repr !! snap.Keys && node.Value() == a.t && SeedOk(e.g, a.t, root)
      requires r == Gen(e, a.t, root, depth, fuel, draws) && a.k == draws && a.out == r.out
      requires ComesFrom(e.g, s0, w0, allSavedPath, fav0, root, a.mutates, a.t, r.out, depth)
      modifies this`curChosenPath, this`snap, this`words, this`draws, node.repr
      ensures SeedsValid() && Later(old(snap), old(words), allSavedFavPath, snap, words, allSavedFavPath)
      ensures LastTry(e, root, depth, fuel, s0, w0, allSavedPath, fav0, snap, words, curChosenPath, a, out)
      ensures out != OutOfFuel ==> draws == r.k
    {
      out := RunFrom(node, root, depth, fuel, a.t, r);
      ThisTry(e, root, depth, fuel, s0, w0, allSavedPath, fav0, snap, words, curChosenPath, a, out, r);
    }

    /** Generation touches no node of a seed. */
    method Grow(node: PathNode, root: string, depth: int, fuel: nat, ghost t: Tree, ghost r: Res)
        returns (out: Outcome, k': nat)
      requires SeedsValid() && root in e.g.prods
      requires node.Valid() && node.repr !! snap.Keys && node.Value() == t && Consistent(e.g, t, root)
      requires r == Gen(e, t, root, depth, fuel, draws)
      modifies node.repr
      ensures SeedsValid() && out == r.out
      ensures out != OutOfFuel ==> node.Valid() && node.repr !! snap.Keys && node.Value() == r.tree && k' == r.k
    {
      out, k' := GenerateMySQL(e, root, node, depth, fuel, draws);
    }

    method RunFrom(node: PathNode, root: string, depth: int, fuel: nat, ghost t: Tree, ghost r: Res)
        returns (out: Outcome)
      requires SeedsValid() && root in e.g.prods && root == curMutatingType
      requires node.Valid() && node.repr !! snap.Keys && node.Value() == t && SeedOk(e.g, t, root)
      requires r == Gen(e, t, root, depth, fuel, draws)
      modifies this`curChosenPath, this`snap, this`words, this`draws, node.repr
      ensures Valid() && Later(old(snap), old(words), allSavedFavPath, snap, words, allSavedFavPath)
      ensures out == r.out && (depth >= 0 ==> out != Nil)
      ensures out != OutOfFuel ==> Holds(r.tree, Said(r, depth)) && draws == r.k
    {
      GenIsFine(e, t, root, depth, fuel, draws, r);
      var k';
      out, k' := Grow(node, root, depth, fuel, t, r);
      if out == OutOfFuel {
        ClearChosenExpr();
      } else {
        Keep(node, r.tree, Said(r, depth));
        draws := k';
      }
    }

    /** The current tree is t, and the words remembered for it, if any, are these. */
    ghost predicate Holds(t: Tree, said: Option<seq<string>>)
      reads this
    {
      HoldsIn(snap, words, curChosenPath, t, said)
    }

    /** The tree of the statement becomes the current one. */
    method Keep(node: PathNode, ghost t: Tree, ghost said: Option<seq<string>>)
      requires SeedsValid() && node.Valid() && node.repr !! snap.Keys
      requires node.Value() == t && SeedOk(e.g, t, curMutatingType)
      requires SaidOk(e.g, said, t, curMutatingType)
      modifies this`curChosenPath, this`snap, this`words
      ensures Valid() && Later(old(snap), old(words), allSavedFavPath, snap, words, allSavedFavPath)
      ensures Holds(t, said)
    {
      var path;
      ghost var s;
      path, s := GatherResult(node, snap);
      ghost var w := Noted(words, node, said);
      KeptIsFine(e.g, snap, s, words, allSavedPath, allSavedFavPath, path, curMutatingType, t, said, w);
      curChosenPath, snap, words := path, s, w;
    }

    /** RSG.Generate: try until there is something to say, at most 1000 times. */
    method Generate(root: string, depth: int, fuel: nat) returns (out: Outcome, ghost tries: seq<Attempt>)
      requires Valid() && root in e.g.prods
      modifies this
      ensures Valid() && curMutatingType == root && allSavedPath == old(allSavedPath)
      ensures Trying(e, root, depth, fuel, old(snap), old(words), allSavedPath, old(allSavedFavPath),
                     snap, words, allSavedFavPath, curChosenPath, tries, old(draws), draws, out)
      ensures 1 <= |tries| <= 1000 && (SaysSomething(out) || out == OutOfFuel || |tries| == 1000)
    {
      curMutatingType := root;
      ghost var s0, w0, fav0, first := snap, words, allSavedFavPath, draws;
      out, tries := Done([]), [];
      TryingStarts(e, root, depth, fuel, s0, w0, allSavedPath, fav0, curChosenPath, first);
      var i := 0;
      while i < TRIES && !SaysSomething(out) && out != OutOfFuel
        invariant SeedsValid() && curMutatingType == root && allSavedPath == old(allSavedPath)
        invariant i == |tries| <= 1000
        invariant Trying(e, root, depth, fuel, s0, w0, allSavedPath, fav0,
                         snap, words, allSavedFavPath, curChosenPath, tries, first, draws, out)
      {
        ghost var s, w, fav, path, next, was := snap, words, allSavedFavPath, curChosenPath, draws, out;
        ghost var a;
        out, a := GenerateOnce(root, depth, fuel);
        TryingGoesOn(e, root, depth, fuel, s0, w0, allSavedPath, fav0, s, w, fav, path, tries, first, next, was,
                     snap, words, allSavedFavPath, curChosenPath, draws, a, out);
        tries := tries + [a];
        i := i + 1;
      }
    }

    method ClearChosenExpr()
      requires SeedsValid()
      modifies this`curChosenPath
      ensures Valid() && curChosenPath == []
    {
      curChosenPath := [];
    }

    /** Save the current statement's tree among the favourites, if it has any. */
    method SaveFav()
      requires Valid()
      modifies this`allSavedFavPath
      ensures Valid()
      ensures allSavedFavPath ==
              if HasFav(curChosenPath)
              then Added(old(allSavedFavPath), curMutatingType, curChosenPath) else old(allSavedFavPath)
    {
      var isFav := IsFavPath(curChosenPath);
      if curChosenPath != [] && isFav {
        AddedOk(e.g, snap, words, allSavedFavPath, curMutatingType, curChosenPath);
        allSavedFavPath := Added(allSavedFavPath, curMutatingType, curChosenPath);
      }
    }

    /** The statement ran: keep its tree as a seed. */
    method IncrementSucceed()
      requires Valid()
      modifies this
      ensures Valid() && snap == old(snap) && curChosenPath == []
      ensures allSavedPath ==
              if old(curChosenPath) != [] && accumulate
              then Added(old(allSavedPath), old(curMutatingType), old(curChosenPath)) else old(allSavedPath)
      ensures allSavedFavPath ==
              if useFav && old(HasFav(curChosenPath))
              then Added(old(allSavedFavPath), old(curMutatingType), old(curChosenPath)) else old(allSavedFavPath)
    {
      if curChosenPath != [] && accumulate {
        AddedOk(e.g, snap, words, allSavedPath, curMutatingType, curChosenPath);
        allSavedPath := Added(allSavedPath, curMutatingType, curChosenPath);
      }
      if useFav {
        SaveFav();
      }
      ClearChosenExpr();
    }

    method IncrementFailed()
      requires Valid()
      modifies this
      ensures Valid() && snap == old(snap) && curChosenPath == [] && allSavedPath == old(allSavedPath)
      ensures allSavedFavPath ==
              if useFav && old(HasFav(curChosenPath))
              then Added(old(allSavedFavPath), old(curMutatingType), old(curChosenPath)) else old(allSavedFavPath)
    {
      if useFav {
        SaveFav();
      }
      ClearChosenExpr();
    }
  }
}
