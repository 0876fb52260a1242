/** How deep GenerateMySQL of rsg/rsgGenerator/mysqlGenerator.go expands: complex rules use up its depth. */
module PathDepth {
  import opened PathTree

  /** The rule has an item that is replaced by a fixed word when no depth is left. */
  ghost predicate HasCut(items: seq<Item>) {
    exists i | 0 <= i < |items| :: items[i].Token? && CutOf(items[i].name).Some?
  }

  // ------------------------------------------------------------ nodes and what is above

  /** A node of the tree, given by the way down to it: each node on the way records its
      rule, and has a child for each rule that it refers to. */
  ghost predicate IsPath(g: Grammar, t: Tree, path: seq<nat>)
    decreases |path|
  {
    path == [] ||
    (t.rule.Some? && path[0] < |t.children| == |Names(g, t.rule.value.items)| &&
        IsPath(g, t.children[path[0]], path[1..]))
  }

  ghost function NodeAt(g: Grammar, t: Tree, path: seq<nat>): Tree
    requires IsPath(g, t, path)
    decreases |path|
  {
    if path == [] then t else NodeAt(g, t.children[path[0]], path[1..])
  }

  /** The rule that the node was generated for. */
  ghost function NameAt(g: Grammar, t: Tree, root: string, path: seq<nat>): string
    requires IsPath(g, t, path)
    decreases |path|
  {
    if path == [] then root
    else NameAt(g, t.children[path[0]], Names(g, t.rule.value.items)[path[0]], path[1..])
  }

  /** What stood in the tree before for child i: an empty node if its parent was not recorded. */
  ghost function Before(b: Tree, i: nat, child: Tree): Tree {
    if b.rule.Some? && i < |b.children| then b.children[i] else Leaf(child.isFav)
  }

  /** How many complex rules are recorded above the node that were not recorded before. */
  ghost function ComplexAbove(g: Grammar, b: Tree, t: Tree, root: string, path: seq<nat>): nat
    requires IsPath(g, t, path)
    decreases |path|
  {
    if path == [] then 0
    else
      (if b.rule.None? && g.IsComplex(root, t.rule.value) then 1 else 0) +
      ComplexAbove(g, Before(b, path[0], t.children[path[0]]), t.children[path[0]],
                   Names(g, t.rule.value.items)[path[0]], path[1..])
  }

  // -------------------------------------------------------------------- the bound

  /** With d levels left: a node without a rule is one that is never expanded or that had no
      depth left, and a rule with a word to be cut is recorded only with depth left. */
  ghost predicate DepthKept(t: Tree, root: string, d: int) {
    (t.rule.None? ==> Banned(root) || d < 0) && (t.rule.Some? && HasCut(t.rule.value.items) ==> d >= 0)
  }

  /** The same all the way down. */
  ghost predicate DeepKept(g: Grammar, b: Tree, t: Tree, root: string, d: int)
    decreases t
  {
    && DepthKept(t, root, d)
    && (t.rule.Some? ==>
          ChildrenKept(g, b, t.children, Names(g, t.rule.value.items),
                       if b.rule.None? && g.IsComplex(root, t.rule.value) then d - 1 else d))
  }

  ghost predicate ChildrenKept(g: Grammar, b: Tree, ts: seq<Tree>, names: seq<string>, d: int)
    decreases ts
  {
    |ts| == |names| && forall i | 0 <= i < |ts| :: DeepKept(g, Before(b, i, ts[i]), ts[i], names[i], d)
  }

  lemma {:induction false} KeptAt(g: Grammar, b: Tree, t: Tree, root: string, d: int, path: seq<nat>)
    requires DeepKept(g, b, t, root, d) && IsPath(g, t, path)
    ensures DepthKept(NodeAt(g, t, path), NameAt(g, t, root, path), d - ComplexAbove(g, b, t, root, path))
    decreases |path|
  {
    if path != [] {
      var i := path[0];
      var d' := if b.rule.None? && g.IsComplex(root, t.rule.value) then d - 1 else d;
      KeptAt(g, Before(b, i, t.children[i]), t.children[i], Names(g, t.rule.value.items)[i], d', path[1..]);
    }
  }

  // ------------------------------------------------------------- generation keeps it

  /** A node being worked on: its children so far are deep enough, what is still to be
      replayed is what was there, and words are cut only with no depth left. */
  ghost predicate WorkKept(g: Grammar, b: Tree, root: string, mode: Mode, items: seq<Item>, w: Work,
                           doneNames: seq<string>, depth: int)
  {
    && (mode.Fresh? <==> b.rule.None?)
    && (mode.Replaying? ==>
          && depth >= 0 && w.rule == b.rule && |w.done| <= |b.children| && w.pending == b.children[|w.done|..]
          && ConsistentAll(g, w.pending, Names(g, items)))
    && (mode.Fresh? ==> w.pending == [])
    && (w.rule.None? ==> depth < 0)
    && (w.rule.Some? ==>
          && Names(g, w.rule.value.items) == doneNames + Names(g, items)
          && (mode.Fresh? ==> mode.complex == g.IsComplex(root, w.rule.value))
          && ChildrenKept(g, b, w.done, doneNames, ChildDepth(mode, depth))
          && (depth < 0 && HasCut(w.rule.value.items) ==> HasCut(items)))
  }

  lemma {:induction false} CutSkipped(items: seq<Item>)
    requires items != [] && HasCut(items) && !(items[0].Token? && CutOf(items[0].name).Some?)
    ensures HasCut(items[1..])
  {
    var i :| 0 <= i < |items| && items[i].Token? && CutOf(items[i].name).Some?;
    assert items[1..][i - 1] == items[i];
  }

  lemma {:induction false} ChildrenGrow(g: Grammar, b: Tree, ts: seq<Tree>, names: seq<string>, d: int, c: Tree,
                                        name: string)
    requires ChildrenKept(g, b, ts, names, d) && DeepKept(g, Before(b, |ts|, c), c, name, d)
    ensures ChildrenKept(g, b, ts + [c], names + [name], d)
  {
  }

  /** An item that is not a rule leaves the work in order. */
  lemma {:induction false} SaidKept(g: Grammar, b: Tree, root: string, mode: Mode, items: seq<Item>, w: Work, w': Work,
                                    doneNames: seq<string>, depth: int)
    requires WorkKept(g, b, root, mode, items, w, doneNames, depth) && items != []
    requires items[0].Literal? || !g.IsRule(items[0].name)
    requires items[0].Token? && CutOf(items[0].name).Some? ==> depth >= 0
    requires w'.rule == w.rule && w'.done == w.done && w'.pending == w.pending
    ensures WorkKept(g, b, root, mode, items[1..], w', doneNames, depth)
  {
    if depth < 0 && HasCut(items) {
      CutSkipped(items);
    }
  }

  lemma {:induction false} NextName(g: Grammar, items: seq<Item>, doneNames: seq<string>)
    requires items != [] && items[0].Token? && g.IsRule(items[0].name)
    ensures Names(g, items) == [items[0].name] + Names(g, items[1..])
    ensures doneNames + Names(g, items) == doneNames + [items[0].name] + Names(g, items[1..])
  {
  }

  lemma {:induction false} PendingKept(g: Grammar, b: Tree, items: seq<Item>, w: Work, c: Tree)
    requires items != [] && items[0].Token? && g.IsRule(items[0].name) && w.pending != []
    requires |w.done| <= |b.children| && w.pending == b.children[|w.done|..]
    requires ConsistentAll(g, w.pending, Names(g, items))
    ensures |w.done + [c]| <= |b.children| && w.pending[1..] == b.children[|w.done + [c]|..]
    ensures ConsistentAll(g, w.pending[1..], Names(g, items[1..]))
  {
    ConsistentTail(g, w.pending, Names(g, items));
    assert Names(g, items)[1..] == Names(g, items[1..]);
  }

  /** Nor does a child that is deep enough. */
  lemma {:induction false} ChildKept(g: Grammar, b: Tree, root: string, mode: Mode, items: seq<Item>, w: Work, c: Tree,
                                     k: nat, doneNames: seq<string>, depth: int, words: seq<string>)
    requires WorkKept(g, b, root, mode, items, w, doneNames, depth) && items != []
    requires items[0].Token? && g.IsRule(items[0].name) && (CutOf(items[0].name).Some? ==> depth >= 0)
    requires mode.Replaying? ==> w.pending != []
    requires w.rule.Some? ==> DeepKept(g, Before(b, |w.done|, c), c, items[0].name, ChildDepth(mode, depth))
    ensures var (child, w1) := NextChild(mode, w);
            WorkKept(g, b, root, mode, items[1..], w1.(done := w1.done + [c], k := k, words := words),
                     doneNames + [items[0].name], depth)
  {
    NextName(g, items, doneNames);
    if mode.Replaying? {
      PendingKept(g, b, items, w, c);
    }
    if w.rule.Some? {
      ChildrenGrow(g, b, w.done, doneNames, ChildDepth(mode, depth), c, items[0].name);
      if depth < 0 && HasCut(items) {
        CutSkipped(items);
      }
    }
  }

  lemma {:induction false} WorkKeptEnds(g: Grammar, b: Tree, root: string, mode: Mode, items: seq<Item>, w: Work,
                                        doneNames: seq<string>, depth: int, isFav: bool)
    requires WorkKept(g, b, root, mode, items, w, doneNames, depth) && items == []
    ensures DeepKept(g, b, w.Tree(isFav), root, depth)
  {
    if w.rule.Some? {
      assert doneNames + Names(g, items) == doneNames;
      assert w.pending == [] && w.done + w.pending == w.done;
    }
  }

  /** Generation from a consistent tree keeps to its depth; a recorded tree needs depth left. */
  lemma {:induction false} GenKeepsDepth(e: Env, t: Tree, root: string, depth: int, fuel: nat, k: nat)
    requires e.g.Valid() && root in e.g.prods && Consistent(e.g, t, root) && (t.rule.Some? ==> depth >= 0)
    ensures var r := Gen(e, t, root, depth, fuel, k); r.out.Done? ==> DeepKept(e.g, t, r.tree, root, depth)
    decreases fuel, Size(t), 0
  {
    if Banned(root) {
    } else if t.rule.Some? {
      var w := Work(t.rule, [], t.children, [], k);
      assert [] + Names(e.g, t.rule.value.items) == Names(e.g, t.rule.value.items);
      ItemsKeepDepth(e, t, root, Replaying, t.rule.value.items, w, [], t.isFav, depth, fuel);
    } else if fuel > 0 {
      var (mode, w) := StartFresh(e, root, k);
      assert [] + Names(e.g, w.rule.value.items) == Names(e.g, w.rule.value.items);
      ItemsKeepDepth(e, t, root, mode, w.rule.value.items, w, [], t.isFav, depth, fuel);
    }
  }

  lemma {:induction false} ItemsKeepDepth(e: Env, b: Tree, root: string, mode: Mode, items: seq<Item>, w: Work,
                                          doneNames: seq<string>, isFav: bool, depth: int, fuel: nat)
    requires e.g.Valid() && (mode.Fresh? ==> fuel > 0) && WorkKept(e.g, b, root, mode, items, w, doneNames, depth)
    ensures var r := Items(e, mode, items, w, isFav, depth, fuel);
            r.out.Done? ==> DeepKept(e.g, b, r.tree, root, depth)
    decreases fuel, Sizes(w.pending), |items|
  {
    if items == [] {
      WorkKeptEnds(e.g, b, root, mode, items, w, doneNames, depth, isFav);
    } else if items[0].Literal? {
      SaidKept(e.g, b, root, mode, items, w, w.Say(items[0].text), doneNames, depth);
      ItemsKeepDepth(e, b, root, mode, items[1..], w.Say(items[0].text), doneNames, isFav, depth, fuel);
    } else {
      var name := items[0].name;
      if depth < 0 && CutOf(name).Some? {
        ItemsKeepDepth(e, b, root, mode, items[1..], w.Cut(CutOf(name).value), doneNames, isFav, depth, fuel);
      } else if !e.g.IsRule(name) {
        SaidKept(e.g, b, root, mode, items, w, Terminal(e, name, w), doneNames, depth);
        ItemsKeepDepth(e, b, root, mode, items[1..], Terminal(e, name, w), doneNames, isFav, depth, fuel);
      } else if !(mode.Replaying? && w.pending == []) {
        ChildItemKeepsDepth(e, b, root, mode, items, w, doneNames, isFav, depth, fuel);
      }
    }
  }

  lemma {:induction false} ChildItemKeepsDepth(e: Env, b: Tree, root: string, mode: Mode, items: seq<Item>, w: Work,
                                               doneNames: seq<string>, isFav: bool, depth: int, fuel: nat)
    requires e.g.Valid() && (mode.Fresh? ==> fuel > 0) && WorkKept(e.g, b, root, mode, items, w, doneNames, depth)
    requires items != [] && items[0].Token? && e.g.IsRule(items[0].name)
    requires CutOf(items[0].name).Some? ==> depth >= 0
    requires mode.Replaying? ==> w.pending != []
    ensures var r := Items(e, mode, items, w, isFav, depth, fuel);
            r.out.Done? ==> DeepKept(e.g, b, r.tree, root, depth)
    decreases fuel, Sizes(w.pending), |items|, 0
  {
    var name, cd, cf := items[0].name, ChildDepth(mode, depth), ChildFuel(mode, fuel);
    var (child, w1) := NextChild(mode, w);
    ChildWas(e, b, root, mode, items, w, doneNames, depth, fuel);
    GenKeepsDepth(e, child, name, cd, cf, w.k);
    var r := Gen(e, child, name, cd, cf, w.k);
    if r.out.Done? {
      ChildKept(e.g, b, root, mode, items, w, r.tree, r.k, doneNames, depth, w.words + r.out.words);
      var w2 := w1.(done := w1.done + [r.tree], k := r.k, words := w.words + r.out.words);
      ItemsKeepDepth(e, b, root, mode, items[1..], w2, doneNames + [name], isFav, depth, fuel);
    }
  }

  /** The child worked on is what stood there before. */
  lemma {:induction false} ChildWas(e: Env, b: Tree, root: string, mode: Mode, items: seq<Item>, w: Work,
                                    doneNames: seq<string>, depth: int, fuel: nat)
    requires e.g.Valid() && (mode.Fresh? ==> fuel > 0) && WorkKept(e.g, b, root, mode, items, w, doneNames, depth)
    requires items != [] && items[0].Token? && e.g.IsRule(items[0].name)
    requires mode.Replaying? ==> w.pending != []
    ensures var child := NextChild(mode, w).0;
            && Consistent(e.g, child, items[0].name) && (child.rule.Some? ==> ChildDepth(mode, depth) >= 0)
            && child == Before(b, |w.done|, Gen(e, child, items[0].name, ChildDepth(mode, depth),
                ChildFuel(mode, fuel), w.k).tree)
  {
    var child := NextChild(mode, w).0;
    GenKeepsMark(e, child, items[0].name, ChildDepth(mode, depth), ChildFuel(mode, fuel), w.k);
  }

  /** Main result.  Take a node of the tree that generation leaves, below recorded nodes.  It
      is left without a rule only if it is of a kind that is never expanded or if more complex
      rules have newly been recorded above it than the depth allows; and a rule with an
      expression, a subquery or a table is recorded there only if no more than that have. */
  lemma DepthBound(e: Env, t: Tree, root: string, depth: int, fuel: nat, k: nat, path: seq<nat>)
    requires e.g.Valid() && root in e.g.prods && Consistent(e.g, t, root) && (t.rule.Some? ==> depth >= 0)
    requires var r := Gen(e, t, root, depth, fuel, k); r.out.Done? && IsPath(e.g, r.tree, path)
    ensures var r := Gen(e, t, root, depth, fuel, k).tree;
            var n, above := NodeAt(e.g, r, path), ComplexAbove(e.g, t, r, root, path);
            && (n.rule.None? ==> Banned(NameAt(e.g, r, root, path)) || above > depth)
            && (n.rule.Some? && HasCut(n.rule.value.items) ==> above <= depth)
  {
    GenKeepsDepth(e, t, root, depth, fuel, k);
    KeptAt(e.g, t, Gen(e, t, root, depth, fuel, k).tree, root, depth, path);
  }
}
