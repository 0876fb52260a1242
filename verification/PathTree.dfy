/** GenerateMySQL of rsg/rsgGenerator/mysqlGenerator.go, as a function of the path tree it is given. */
module PathTree {

  datatype Option<T> = None | Some(value: T)

  // ------------------------------------------------------------------ the grammar

  datatype Item = Literal(text: string) | Token(name: string)

  /** A production; id tells apart two that read the same. */
  datatype Rule = Rule(id: nat, items: seq<Item>)

  /** keywords stands for the table of fixed words, whose entries are never looked up as
      rules. */
  datatype Grammar = Grammar(prods: map<string, seq<Rule>>, complex: map<string, set<Rule>>,
                             keywords: map<string, string>)
  {
    predicate IsRule(name: string) {
      CoinOf(name).None? && name !in keywords && name in prods
    }

    predicate IsComplex(root: string, rule: Rule) {
      root in complex && rule in complex[root]
    }

    /** Every rule has a production. */
    ghost predicate Valid() {
      forall name <- prods :: prods[name] != []
    }
  }

  /** Roots that are never expanded. */
  predicate Banned(root: string) {
    root in ["shutdown_stmt", "drop_database_stmt", "alter_database_stmt", "alter_user_stmt", "set_role_stmt",
             "revoke", "grant", "drop_user_stmt", "set"]
  }

  /** The words that end a branch once the depth is used up. */
  function CutOf(name: string): Option<string> {
    if name == "expr" then Some(" TRUE ")
    else if name == "subquery" then Some(" (select 'abc') ")
    else if name == "table_factor" then Some(" v0 ")
    else None
  }

  /** The two keywords drawn at random each time. */
  function CoinOf(name: string): Option<(string, string)> {
    if name == "ANY_SYM" then Some((" ANY ", " SOME "))
    else if name == "RELAY_THREAD" then Some((" IO_THREAD ", " RELAY_THREAD "))
    else None
  }

  function WithoutSuffix(name: string): string {
    if |name| > 3 && name[|name| - 4..] == "_SYM" then name[..|name| - 4] else name
  }

  /** A terminal is said without the ending that marks symbols, and otherwise as it is called. */
  lemma {:induction false} SuffixGoes(stem: string, name: string)
    ensures WithoutSuffix(stem + "_SYM") == stem
    ensures (forall x: string :: name != x + "_SYM") ==> WithoutSuffix(name) == name
  {
    var n := |stem|;
    assert (stem + "_SYM")[n..] == "_SYM" && (stem + "_SYM")[..n] == stem;
    if |name| > 3 && name[|name| - 4..] == "_SYM" {
      assert name == name[..|name| - 4] + "_SYM";
    }
  }

  // ------------------------------------------------------------------ the tree

  /** A path node with what hangs below it; rule is the one recorded for replay. */
  datatype Tree = Node(isFav: bool, rule: Option<Rule>, children: seq<Tree>)

  function Leaf(isFav: bool): Tree {
    Node(isFav, None, [])
  }

  function Size(t: Tree): nat {
    1 + Sizes(t.children)
  }

  function Sizes(ts: seq<Tree>): nat {
    if ts == [] then 0 else Size(ts[0]) + Sizes(ts[1..])
  }

  /** The rules an item list refers to, in order. */
  function Names(g: Grammar, items: seq<Item>): seq<string> {
    if items == [] then []
    else if items[0].Token? && g.IsRule(items[0].name) then [items[0].name] + Names(g, items[1..])
    else Names(g, items[1..])
  }

  /** A node with a recorded rule has exactly one child for each rule it refers to. */
  ghost predicate Consistent(g: Grammar, t: Tree, root: string) {
    t.rule.Some? ==>
      && !Banned(root) && root in g.prods && t.rule.value in g.prods[root]
      && ConsistentAll(g, t.children, Names(g, t.rule.value.items))
  }

  ghost predicate ConsistentAll(g: Grammar, ts: seq<Tree>, names: seq<string>) {
    |ts| == |names| && forall i | 0 <= i < |ts| :: Consistent(g, ts[i], names[i])
  }

  // ------------------------------------------------------------------ generating

  /** The grammar, and the numbers the random generator and the prioritisation of rules
      will come up with. */
  datatype Env = Env(g: Grammar, draw: nat -> nat)

  /** Nil is the error return; OutOfFuel is where this model stops following a fresh
      generation, which need not end. */
  datatype Outcome = Done(words: seq<string>) | Nil | OutOfFuel

  /** What a call returns, the tree it leaves, and how many draws have been made. */
  datatype Res = Res(out: Outcome, tree: Tree, k: nat)

  datatype Mode = Replaying | Fresh(complex: bool, fav: bool)

  /** A node being worked on: children gone through, children still to replay. */
  datatype Work = Work(rule: Option<Rule>, done: seq<Tree>, pending: seq<Tree>, words: seq<string>, k: nat) {
    function Tree(isFav: bool): Tree {
      Node(isFav, rule, done + pending)
    }

    function Say(word: string): Work {
      this.(words := words + [word])
    }

    function Cut(word: string): Work {
      Work(None, [], [], words + [word], k)
    }
  }

  function TerminalWord(e: Env, name: string, k: nat): string {
    match CoinOf(name)
    case Some((a, b)) => if e.draw(k) % 2 == 0 then a else b
    case None => if name in e.g.keywords then e.g.keywords[name] else WithoutSuffix(name)
  }

  function Terminal(e: Env, name: string, w: Work): Work {
    w.Say(TerminalWord(e, name, w.k)).(k := if CoinOf(name).Some? then w.k + 1 else w.k)
  }

  function ChosenRule(e: Env, root: string, k: nat): (r: Rule)
    requires e.g.Valid() && root in e.g.prods
    ensures r in e.g.prods[root]
  {
    e.g.prods[root][e.draw(k) % |e.g.prods[root]|]
  }

  function StartFresh(e: Env, root: string, k: nat): (Mode, Work)
    requires e.g.Valid() && root in e.g.prods
  {
    var rule := ChosenRule(e, root, k);
    (Fresh(e.g.IsComplex(root, rule), e.draw(k + 1) % 2 == 0), Work(Some(rule), [], [], [], k + 2))
  }

  ghost function Gen(e: Env, t: Tree, root: string, depth: int, fuel: nat, k: nat): Res
    requires e.g.Valid() && root in e.g.prods
    decreases fuel, Size(t), 0
  {
    if Banned(root) then Res(Done([]), t, k)
    else if t.rule.Some? then
      Items(e, Replaying, t.rule.value.items, Work(t.rule, [], t.children, [], k), t.isFav, depth, fuel)
    else if fuel == 0 then Res(OutOfFuel, t, k)
    else
      var (mode, w) := StartFresh(e, root, k);
      Items(e, mode, w.rule.value.items, w, t.isFav, depth, fuel)
  }

  /** The child to work on next, and the work without it. */
  function NextChild(mode: Mode, w: Work): (Tree, Work)
    requires mode.Replaying? ==> w.pending != []
  {
    if mode.Replaying? then (w.pending[0], w.(pending := w.pending[1..])) else (Leaf(mode.fav), w)
  }

  function ChildDepth(mode: Mode, depth: int): int {
    if mode.Fresh? && mode.complex then depth - 1 else depth
  }

  function ChildFuel(mode: Mode, fuel: nat): nat
    requires mode.Fresh? ==> fuel > 0
  {
    if mode.Fresh? then fuel - 1 else fuel
  }

  ghost function Items(e: Env, mode: Mode, items: seq<Item>, w: Work, isFav: bool, depth: int, fuel: nat): Res
    requires e.g.Valid() && (mode.Fresh? ==> fuel > 0)
    decreases fuel, Sizes(w.pending), |items|
  {
    if items == [] then Res(Done(w.words), w.Tree(isFav), w.k)
    else if items[0].Literal? then Items(e, mode, items[1..], w.Say(items[0].text), isFav, depth, fuel)
    else
      var name := items[0].name;
      if depth < 0 && CutOf(name).Some? then Items(e, mode, items[1..], w.Cut(CutOf(name).value), isFav, depth, fuel)
      else if !e.g.IsRule(name) then Items(e, mode, items[1..], Terminal(e, name, w), isFav, depth, fuel)
      else if mode.Replaying? && w.pending == [] then Res(Nil, w.Tree(isFav), w.k)
      else
        var (child, w1) := NextChild(mode, w);
        var r := Gen(e, child, name, ChildDepth(mode, depth), ChildFuel(mode, fuel), w.k);
        var w2 := w1.(done := w1.done + [r.tree], k := r.k);
        if r.out.Done? then Items(e, mode, items[1..], w2.(words := w.words + r.out.words), isFav, depth, fuel)
        else Res(r.out, w2.Tree(isFav), r.k)
  }

  // ------------------------------------------------- what generation leaves behind

  /** The names of the rules whose children are done, and how they fit the recorded rule. */
  ghost predicate WorkOk(g: Grammar, root: string, mode: Mode, items: seq<Item>, w: Work, doneNames: seq<string>) {
    && (mode.Fresh? || w.rule.None? ==> w.pending == [])
    && (w.rule.Some? ==>
          && !Banned(root) && root in g.prods && w.rule.value in g.prods[root]
          && Names(g, w.rule.value.items) == doneNames + Names(g, items)
          && ConsistentAll(g, w.done, doneNames)
          && (mode.Replaying? ==> ConsistentAll(g, w.pending, Names(g, items))))
  }

  lemma {:induction false} ConsistentJoin(g: Grammar, a: seq<Tree>, an: seq<string>, b: seq<Tree>, bn: seq<string>)
    requires ConsistentAll(g, a, an) && ConsistentAll(g, b, bn)
    ensures ConsistentAll(g, a + b, an + bn)
  {
  }

  lemma {:induction false} ConsistentTail(g: Grammar, ts: seq<Tree>, names: seq<string>)
    requires ConsistentAll(g, ts, names) && names != []
    ensures Consistent(g, ts[0], names[0]) && ConsistentAll(g, ts[1..], names[1..])
  {
  }

  /** A child put in place keeps the work in order. */
  lemma {:induction false} ChildPlaced(g: Grammar, root: string, mode: Mode, items: seq<Item>, w: Work,
                                       doneNames: seq<string>, child: Tree, k: nat)
    requires WorkOk(g, root, mode, items, w, doneNames)
    requires items != [] && items[0].Token? && g.IsRule(items[0].name) && Consistent(g, child, items[0].name)
    requires mode.Replaying? ==> w.pending != []
    ensures WorkOk(g, root, mode, items[1..], NextChild(mode, w).1.(done := w.done + [child], k := k),
                   doneNames + [items[0].name])
  {
    var name := items[0].name;
    assert Names(g, items) == [name] + Names(g, items[1..]);
    assert doneNames + Names(g, items) == doneNames + [name] + Names(g, items[1..]);
    if w.rule.Some? {
      ConsistentJoin(g, w.done, doneNames, [child], [name]);
      if mode.Replaying? {
        ConsistentTail(g, w.pending, Names(g, items));
        assert Names(g, items)[1..] == Names(g, items[1..]);
      }
    }
  }

  /** Work that is over, or broken off while replaying, leaves a consistent node. */
  lemma {:induction false} WorkEnds(g: Grammar, root: string, mode: Mode, items: seq<Item>, w: Work,
                                    doneNames: seq<string>, isFav: bool)
    requires WorkOk(g, root, mode, items, w, doneNames) && (items == [] || mode.Replaying?)
    ensures Consistent(g, w.Tree(isFav), root)
  {
    if w.rule.Some? {
      if mode.Replaying? {
        ConsistentJoin(g, w.done, doneNames, w.pending, Names(g, items));
      } else {
        assert doneNames + Names(g, items) == doneNames && w.done + w.pending == w.done;
      }
    }
  }

  /** Every tree generation leaves behind is consistent, on the error return too; and a
      fresh node never gives the error return. */
  lemma {:induction false} GenKeepsConsistent(e: Env, t: Tree, root: string, depth: int, fuel: nat, k: nat)
    requires e.g.Valid() && root in e.g.prods && Consistent(e.g, t, root)
    ensures var r := Gen(e, t, root, depth, fuel, k);
            && (r.out != OutOfFuel ==> Consistent(e.g, r.tree, root))
            && (t.rule.None? ==> r.out != Nil)
    decreases fuel, Size(t), 0
  {
    if !Banned(root) {
      if t.rule.Some? {
        var w := Work(t.rule, [], t.children, [], k);
        assert [] + Names(e.g, t.rule.value.items) == Names(e.g, t.rule.value.items);
        ItemsKeepConsistent(e, root, Replaying, t.rule.value.items, w, [], t.isFav, depth, fuel);
      } else if fuel > 0 {
        var (mode, w) := StartFresh(e, root, k);
        assert [] + Names(e.g, w.rule.value.items) == Names(e.g, w.rule.value.items);
        ItemsKeepConsistent(e, root, mode, w.rule.value.items, w, [], t.isFav, depth, fuel);
      }
    }
  }

  lemma {:induction false} ItemsKeepConsistent(e: Env, root: string, mode: Mode, items: seq<Item>, w: Work,
                                               doneNames: seq<string>, isFav: bool, depth: int, fuel: nat)
    requires e.g.Valid() && (mode.Fresh? ==> fuel > 0)
    requires WorkOk(e.g, root, mode, items, w, doneNames)
    ensures var r := Items(e, mode, items, w, isFav, depth, fuel);
            && (r.out != OutOfFuel ==> Consistent(e.g, r.tree, root))
            && (mode.Fresh? ==> r.out != Nil)
    decreases fuel, Sizes(w.pending), |items|
  {
    if items == [] {
      WorkEnds(e.g, root, mode, items, w, doneNames, isFav);
    } else if items[0].Literal? {
      ItemsKeepConsistent(e, root, mode, items[1..], w.Say(items[0].text), doneNames, isFav, depth, fuel);
    } else {
      var name := items[0].name;
      if depth < 0 && CutOf(name).Some? {
        ItemsKeepConsistent(e, root, mode, items[1..], w.Cut(CutOf(name).value), doneNames, isFav, depth, fuel);
      } else if !e.g.IsRule(name) {
        ItemsKeepConsistent(e, root, mode, items[1..], Terminal(e, name, w), doneNames, isFav, depth, fuel);
      } else if mode.Replaying? && w.pending == [] {
        WorkEnds(e.g, root, mode, items, w, doneNames, isFav);
      } else {
        var (child, w1) := NextChild(mode, w);
        ChildConsistent(e.g, root, mode, items, w, doneNames);
        GenKeepsConsistent(e, child, name, ChildDepth(mode, depth), ChildFuel(mode, fuel), w.k);
        var r := Gen(e, child, name, ChildDepth(mode, depth), ChildFuel(mode, fuel), w.k);
        var w2 := w1.(done := w1.done + [r.tree], k := r.k);
        if r.out != OutOfFuel {
          ChildPlaced(e.g, root, mode, items, w, doneNames, r.tree, r.k);
          if r.out.Done? {
            ItemsKeepConsistent(e, root, mode, items[1..], w2.(words := w.words + r.out.words), doneNames + [name],
                isFav, depth, fuel);
          } else {
            WorkEnds(e.g, root, mode, items[1..], w2, doneNames + [name], isFav);
          }
        }
      }
    }
  }

  lemma {:induction false} ChildConsistent(g: Grammar, root: string, mode: Mode, items: seq<Item>, w: Work,
                                           doneNames: seq<string>)
    requires WorkOk(g, root, mode, items, w, doneNames)
    requires items != [] && items[0].Token? && g.IsRule(items[0].name)
    requires mode.Replaying? ==> w.pending != []
    ensures Consistent(g, NextChild(mode, w).0, items[0].name)
  {
    if mode.Replaying? {
      ConsistentTail(g, w.pending, Names(g, items));
    }
  }

  /** Generation leaves the favourite mark of its root alone. */
  lemma {:induction false} GenKeepsMark(e: Env, t: Tree, root: string, depth: int, fuel: nat, k: nat)
    requires e.g.Valid() && root in e.g.prods
    ensures Gen(e, t, root, depth, fuel, k).tree.isFav == t.isFav
  {
    if Banned(root) {
    } else if t.rule.Some? {
      ItemsKeepMark(e, Replaying, t.rule.value.items, Work(t.rule, [], t.children, [], k), t.isFav, depth, fuel);
    } else if fuel > 0 {
      var (mode, w) := StartFresh(e, root, k);
      ItemsKeepMark(e, mode, w.rule.value.items, w, t.isFav, depth, fuel);
    }
  }

  lemma {:induction false} ItemsKeepMark(e: Env, mode: Mode, items: seq<Item>, w: Work, isFav: bool, depth: int,
                                         fuel: nat)
    requires e.g.Valid() && (mode.Fresh? ==> fuel > 0)
    ensures Items(e, mode, items, w, isFav, depth, fuel).tree.isFav == isFav
    decreases |items|
  {
    if items != [] {
      forall w'
        ensures Items(e, mode, items[1..], w', isFav, depth, fuel).tree.isFav == isFav
      {
        ItemsKeepMark(e, mode, items[1..], w', isFav, depth, fuel);
      }
    }
  }

  // ------------------------------------------------------------ when replay fails

  /** A rule that is not among the cut-off words. */
  predicate Grows(g: Grammar, it: Item) {
    it.Token? && CutOf(it.name).None? && g.IsRule(it.name)
  }

  /** Replay with the depth used up breaks off in this tree: some recorded node that it
      reaches has a cut-off word followed by another rule, whose child the cut threw away. */
  ghost predicate Fails(g: Grammar, t: Tree, root: string)
    decreases Size(t), 0
  {
    !Banned(root) && t.rule.Some? && FailsIn(g, t.rule.value.items, t.children)
  }

  ghost predicate FailsIn(g: Grammar, items: seq<Item>, kids: seq<Tree>)
    decreases Sizes(kids), |items|
  {
    items != [] &&
    if items[0].Token? && CutOf(items[0].name).Some? then exists i | 0 <= i < |items| :: Grows(g, items[i])
    else if !Grows(g, items[0]) then FailsIn(g, items[1..], kids)
    else kids == [] || Fails(g, kids[0], items[0].name) || FailsIn(g, items[1..], kids[1..])
  }

  /** Replaying a consistent tree never gives the error return while there is depth left,
      and otherwise gives it exactly on the trees that fail. */
  lemma {:induction false} ReplayNilExactly(e: Env, t: Tree, root: string, depth: int, fuel: nat, k: nat)
    requires e.g.Valid() && root in e.g.prods && Consistent(e.g, t, root)
    ensures var out := Gen(e, t, root, depth, fuel, k).out;
            out != OutOfFuel ==> (out == Nil <==> depth < 0 && Fails(e.g, t, root))
    decreases fuel, Size(t), 0
  {
    if !Banned(root) && t.rule.Some? {
      ItemsNilExactly(e, t.rule.value.items, Work(t.rule, [], t.children, [], k), t.isFav, depth, fuel);
    } else {
      GenKeepsConsistent(e, t, root, depth, fuel, k);
    }
  }

  lemma {:induction false} ItemsNilExactly(e: Env, items: seq<Item>, w: Work, isFav: bool, depth: int, fuel: nat)
    requires e.g.Valid() && w.rule.Some? && ConsistentAll(e.g, w.pending, Names(e.g, items))
    ensures var out := Items(e, Replaying, items, w, isFav, depth, fuel).out;
            out != OutOfFuel ==> (out == Nil <==> depth < 0 && FailsIn(e.g, items, w.pending))
    decreases fuel, Sizes(w.pending), |items|
  {
    if items == [] {
    } else if items[0].Literal? {
      ItemsNilExactly(e, items[1..], w.Say(items[0].text), isFav, depth, fuel);
    } else {
      var name := items[0].name;
      if depth < 0 && CutOf(name).Some? {
        AfterCut(e, items[1..], w.Cut(CutOf(name).value), isFav, depth, fuel);
        GrowsLater(e.g, items);
      } else if !e.g.IsRule(name) {
        ItemsNilExactly(e, items[1..], Terminal(e, name, w), isFav, depth, fuel);
      } else {
        ConsistentTail(e.g, w.pending, Names(e.g, items));
        var child := w.pending[0];
        ReplayNilExactly(e, child, name, depth, fuel, w.k);
        var r := Gen(e, child, name, depth, fuel, w.k);
        if r.out.Done? {
          var w2 := Work(w.rule, w.done + [r.tree], w.pending[1..], w.words + r.out.words, r.k);
          assert Names(e.g, items)[1..] == Names(e.g, items[1..]);
          ItemsNilExactly(e, items[1..], w2, isFav, depth, fuel);
        }
      }
    }
  }

  /** Such trees exist: a recorded node for a rule with an expression and a table name. */
  lemma {:induction false} SomeTreeFails() returns (g: Grammar, t: Tree, root: string)
    ensures g.Valid() && root in g.prods && Consistent(g, t, root) && Fails(g, t, root)
  {
    root := "a";
    var rule := Rule(0, [Token("expr"), Token("b")]);
    g := Grammar(map["a" := [rule], "b" := [Rule(1, [])], "expr" := [Rule(2, [])]], map[], map[]);
    t := Node(false, Some(rule), [Leaf(false), Leaf(false)]);
    TwoNames(g, rule.items);
    assert rule in g.prods[root];
    assert Grows(g, rule.items[1]);
  }

  lemma {:induction false} TwoNames(g: Grammar, items: seq<Item>)
    requires |items| == 2 && items[0].Token? && items[1].Token? && g.IsRule(items[0].name) && g.IsRule(items[1].name)
    ensures Names(g, items) == [items[0].name, items[1].name]
  {
    var rest := items[1..];
    assert rest[0] == items[1] && rest[1..] == [];
    assert Names(g, rest) == [items[1].name] + Names(g, rest[1..]);
  }

  lemma {:induction false} GrowsLater(g: Grammar, items: seq<Item>)
    requires items != [] && !Grows(g, items[0])
    ensures (exists i | 0 <= i < |items| :: Grows(g, items[i])) <==>
            (exists i | 0 <= i < |items[1..]| :: Grows(g, items[1..][i]))
  {
    if i :| 0 <= i < |items| && Grows(g, items[i]) {
      assert items[1..][i - 1] == items[i];
    }
  }

  /** Once a cut has thrown the children away, the next rule fails. */
  lemma {:induction false} AfterCut(e: Env, items: seq<Item>, w: Work, isFav: bool, depth: int, fuel: nat)
    requires e.g.Valid() && depth < 0 && w.pending == []
    ensures Items(e, Replaying, items, w, isFav, depth, fuel).out == Nil <==>
            exists i | 0 <= i < |items| :: Grows(e.g, items[i])
    ensures Items(e, Replaying, items, w, isFav, depth, fuel).out != OutOfFuel
    decreases |items|
  {
    if items != [] && !Grows(e.g, items[0]) {
      GrowsLater(e.g, items);
      if items[0].Literal? {
        AfterCut(e, items[1..], w.Say(items[0].text), isFav, depth, fuel);
      } else if CutOf(items[0].name).Some? {
        AfterCut(e, items[1..], w.Cut(CutOf(items[0].name).value), isFav, depth, fuel);
      } else {
        AfterCut(e, items[1..], Terminal(e, items[0].name, w), isFav, depth, fuel);
      }
    }
  }

  // ------------------------------------------------------------ what replay says

  /** The text a tree stands for: fixed words, the two keywords drawn each time, and holes
      where no rule is recorded. */
  datatype Piece = Word(text: string) | Coin(a: string, b: string) | Hole(root: string)

  function TerminalPiece(g: Grammar, name: string): Piece {
    match CoinOf(name)
    case Some((a, b)) => Coin(a, b)
    case None => if name in g.keywords then Word(g.keywords[name]) else Word(WithoutSuffix(name))
  }

  ghost function Outline(g: Grammar, t: Tree, root: string): seq<Piece>
    decreases Size(t), 0
  {
    if Banned(root) then []
    else if t.rule.None? then [Hole(root)]
    else OutlineOf(g, t.rule.value.items, t.children)
  }

  ghost function OutlineOf(g: Grammar, items: seq<Item>, kids: seq<Tree>): seq<Piece>
    decreases Sizes(kids), |items|
  {
    if items == [] then []
    else if items[0].Literal? then [Word(items[0].text)] + OutlineOf(g, items[1..], kids)
    else if !g.IsRule(items[0].name) then [TerminalPiece(g, items[0].name)] + OutlineOf(g, items[1..], kids)
    else if kids == [] then []
    else Outline(g, kids[0], items[0].name) + OutlineOf(g, items[1..], kids[1..])
  }

  /** Some fresh generation from the root produces the words. */
  ghost predicate Yields(g: Grammar, root: string, words: seq<string>) {
    g.Valid() && root in g.prods &&
    exists draw, fav, depth, fuel, k :: Gen(Env(g, draw), Leaf(fav), root, depth, fuel, k).out == Done(words)
  }

  ghost predicate FillsOne(g: Grammar, words: seq<string>, p: Piece) {
    match p
    case Word(s) => words == [s]
    case Coin(a, b) => words == [a] || words == [b]
    case Hole(root) => Yields(g, root, words)
  }

  /** The words are an instance of the outline. */
  ghost predicate Fills(g: Grammar, words: seq<string>, pieces: seq<Piece>)
    decreases |pieces|, 1
  {
    if pieces == [] then words == []
    else exists n | 0 <= n <= |words| :: FillsAt(g, words, pieces, n)
  }

  ghost predicate FillsAt(g: Grammar, words: seq<string>, pieces: seq<Piece>, n: nat)
    requires pieces != [] && n <= |words|
    decreases |pieces|, 0
  {
    FillsOne(g, words[..n], pieces[0]) && Fills(g, words[n..], pieces[1..])
  }

  lemma {:induction false} FillsPiece(g: Grammar, a: seq<string>, p: Piece, words: seq<string>, pieces: seq<Piece>)
    requires FillsOne(g, a, p) && Fills(g, words, pieces)
    ensures Fills(g, a + words, [p] + pieces)
  {
    assert (a + words)[..|a|] == a && (a + words)[|a|..] == words;
    assert ([p] + pieces)[1..] == pieces;
    assert FillsAt(g, a + words, [p] + pieces, |a|);
  }

  lemma {:induction false} Regroup<T>(a: seq<T>, n: nat, b: seq<T>)
    requires n <= |a|
    ensures a[..n] + (a[n..] + b) == a + b
  {
  }

  lemma {:induction false} Resplit<T>(a: seq<T>, m: nat, k: nat)
    requires m + k <= |a|
    ensures a[..m] + a[m..][..k] == a[..m + k] && a[m..][k..] == a[m + k..]
  {
  }

  lemma {:induction false} FillsAppend(g: Grammar, a: seq<string>, p: seq<Piece>, b: seq<string>, q: seq<Piece>)
    requires Fills(g, a, p) && Fills(g, b, q)
    ensures Fills(g, a + b, p + q)
    decreases |p|
  {
    if p == [] {
      assert a + b == b && p + q == q;
    } else {
      var n :| 0 <= n <= |a| && FillsAt(g, a, p, n);
      FillsAppend(g, a[n..], p[1..], b, q);
      FillsPiece(g, a[..n], p[0], a[n..] + b, p[1..] + q);
      Regroup(a, n, b);
      Regroup(p, 1, q);
      assert p[..1] == [p[0]];
    }
  }

  lemma {:induction false} FillsFirst(g: Grammar, words: seq<string>, pieces: seq<Piece>) returns (n: nat)
    requires pieces != [] && Fills(g, words, pieces)
    ensures n <= |words| && FillsOne(g, words[..n], pieces[0]) && Fills(g, words[n..], pieces[1..])
  {
    n :| 0 <= n <= |words| && FillsAt(g, words, pieces, n);
  }

  /** An instance of two outlines in a row is an instance of each in a row. */
  lemma {:induction false} FillsSplit(g: Grammar, words: seq<string>, p: seq<Piece>, q: seq<Piece>) returns (n: nat)
    requires Fills(g, words, p + q)
    ensures n <= |words| && Fills(g, words[..n], p) && Fills(g, words[n..], q)
    decreases |p|
  {
    if p == [] {
      assert p + q == q;
      n := 0;
      assert words[n..] == words;
    } else {
      var m := FillsFirst(g, words, p + q);
      assert (p + q)[1..] == p[1..] + q && (p + q)[0] == p[0];
      var k := FillsSplit(g, words[m..], p[1..], q);
      n := m + k;
      FillsJoined(g, words, m, k, p);
      Resplit(words, m, k);
    }
  }

  lemma {:induction false} FillsJoined(g: Grammar, words: seq<string>, m: nat, k: nat, p: seq<Piece>)
    requires p != [] && m + k <= |words| && FillsOne(g, words[..m], p[0]) && Fills(g, words[m..][..k], p[1..])
    ensures Fills(g, words[..m + k], p)
  {
    FillsPiece(g, words[..m], p[0], words[m..][..k], p[1..]);
    Resplit(words, m, k);
    assert [p[0]] + p[1..] == p;
  }

  lemma {:induction false} FillsAlone(g: Grammar, words: seq<string>, p: Piece)
    requires FillsOne(g, words, p)
    ensures Fills(g, words, [p])
  {
    FillsPiece(g, words, p, [], []);
    assert words + [] == words && [p] + [] == [p];
  }

  /** What a fresh node says fills the hole it was. */
  lemma {:induction false} FreshYields(e: Env, t: Tree, root: string, depth: int, fuel: nat, k: nat)
    requires e.g.Valid() && root in e.g.prods && t.rule.None? && !Banned(root)
    ensures var out := Gen(e, t, root, depth, fuel, k).out;
            out.Done? ==> Fills(e.g, out.words, [Hole(root)])
  {
    var out := Gen(e, t, root, depth, fuel, k).out;
    if out.Done? {
      assert Gen(Env(e.g, e.draw), Leaf(t.isFav), root, depth, fuel, k).out == Done(out.words);
      FillsAlone(e.g, out.words, Hole(root));
    }
  }

  /** The recorded part of a tree is still there, and its holes may have been filled. */
  ghost predicate Grown(t: Tree, t': Tree) {
    t'.isFav == t.isFav && (t.rule.Some? ==> t'.rule == t.rule && GrownAll(t.children, t'.children))
  }

  ghost predicate GrownAll(ts: seq<Tree>, ts': seq<Tree>) {
    |ts| == |ts'| && forall i | 0 <= i < |ts| :: Grown(ts[i], ts'[i])
  }

  lemma {:induction false} GrownRefl(t: Tree)
    ensures Grown(t, t)
  {
    forall i | 0 <= i < |t.children|
      ensures Grown(t.children[i], t.children[i])
    {
      GrownRefl(t.children[i]);
    }
  }

  /** The first child's words, then the others'. */
  lemma {:induction false} ChildFills(g: Grammar, items: seq<Item>, words: seq<string>, kid: Tree, more: seq<string>,
                                      kids: seq<Tree>)
    requires items != [] && items[0].Token? && g.IsRule(items[0].name)
    requires Fills(g, words, Outline(g, kid, items[0].name)) && Fills(g, more, OutlineOf(g, items[1..], kids))
    ensures Fills(g, words + more, OutlineOf(g, items, [kid] + kids))
  {
    FillsAppend(g, words, Outline(g, kid, items[0].name), more, OutlineOf(g, items[1..], kids));
    assert ([kid] + kids)[1..] == kids;
  }

  /** An item that is said as it stands, and the piece of outline for it. */
  ghost predicate Says(g: Grammar, it: Item, p: Piece) {
    if it.Literal? then p == Word(it.text) else !g.IsRule(it.name) && p == TerminalPiece(g, it.name)
  }

  lemma {:induction false} WordFills(g: Grammar, items: seq<Item>, s: string, p: Piece, y: seq<string>, kids: seq<Tree>)
    requires items != [] && Says(g, items[0], p) && FillsOne(g, [s], p)
    requires Fills(g, y, OutlineOf(g, items[1..], kids))
    ensures Fills(g, [s] + y, OutlineOf(g, items, kids))
  {
    FillsPiece(g, [s], p, y, OutlineOf(g, items[1..], kids));
  }

  // Fresh generation.

  /** The loop over the items of a fresh node says x; unless a cut took the rule away, x is
      an instance of what kids, the children it makes, stand for. */
  ghost predicate FreshOk(g: Grammar, items: seq<Item>, w: Work, isFav: bool, r: Res, x: seq<string>, kids: seq<Tree>) {
    && r.out == Done(w.words + x) && r.tree.isFav == isFav
    && (r.tree.rule.Some? ==> r.tree == Node(isFav, w.rule, w.done + kids) && Fills(g, x, OutlineOf(g, items, kids)))
  }

  lemma {:induction false} FreshWord(g: Grammar, items: seq<Item>, w: Work, w1: Work, isFav: bool, r: Res, s: string,
                                     p: Piece, y: seq<string>, kids: seq<Tree>)
    requires items != [] && Says(g, items[0], p) && FillsOne(g, [s], p)
    requires w1 == w.Say(s).(k := w1.k) && FreshOk(g, items[1..], w1, isFav, r, y, kids)
    ensures FreshOk(g, items, w, isFav, r, [s] + y, kids)
  {
    assert w1.words + y == w.words + ([s] + y);
    if r.tree.rule.Some? {
      WordFills(g, items, s, p, y, kids);
    }
  }

  lemma {:induction false} FreshCut(g: Grammar, items: seq<Item>, w: Work, isFav: bool, r: Res, s: string,
                                    y: seq<string>, kids: seq<Tree>)
    requires items != [] && FreshOk(g, items[1..], w.Cut(s), isFav, r, y, kids)
    ensures FreshOk(g, items, w, isFav, r, [s] + y, kids)
  {
    assert w.words + [s] + y == w.words + ([s] + y);
  }

  lemma {:induction false} FreshChild(g: Grammar, items: seq<Item>, w: Work, isFav: bool, r: Res, words: seq<string>,
                                      kid: Tree, k: nat, y: seq<string>, more: seq<Tree>)
    requires items != [] && items[0].Token? && g.IsRule(items[0].name)
    requires Fills(g, words, Outline(g, kid, items[0].name))
    requires FreshOk(g, items[1..], Work(w.rule, w.done + [kid], [], w.words + words, k), isFav, r, y, more)
    ensures FreshOk(g, items, w, isFav, r, words + y, [kid] + more)
  {
    assert w.words + words + y == w.words + (words + y);
    assert w.done + [kid] + more == w.done + ([kid] + more);
    if r.tree.rule.Some? {
      ChildFills(g, items, words, kid, y, more);
    }
  }

  /** The words a fresh node gives are an instance of the tree it leaves, at any depth. */
  lemma {:induction false} FreshFills(e: Env, t: Tree, root: string, depth: int, fuel: nat, k: nat)
    requires e.g.Valid() && root in e.g.prods && t.rule.None?
    ensures var r := Gen(e, t, root, depth, fuel, k);
            r.out.Done? ==>
              Fills(e.g, r.out.words, Outline(e.g, t, root)) && Fills(e.g, r.out.words, Outline(e.g, r.tree, root))
                            && r.tree.isFav == t.isFav
    decreases fuel, 1, 0
  {
    if !Banned(root) && fuel > 0 {
      var r := Gen(e, t, root, depth, fuel, k);
      FreshYields(e, t, root, depth, fuel, k);
      var (mode, w) := StartFresh(e, root, k);
      if r.out.Done? {
        var x, kids := FreshItemsFill(e, mode, w.rule.value.items, w, t.isFav, depth, fuel);
        assert w.done + kids == kids && w.words + x == x;
      }
    }
  }

  lemma {:induction false} FreshItemsFill(e: Env, mode: Mode, items: seq<Item>, w: Work, isFav: bool, depth: int,
                                          fuel: nat)
      returns (x: seq<string>, kids: seq<Tree>)
    requires e.g.Valid() && mode.Fresh? && fuel > 0 && w.pending == []
    requires Items(e, mode, items, w, isFav, depth, fuel).out.Done?
    ensures FreshOk(e.g, items, w, isFav, Items(e, mode, items, w, isFav, depth, fuel), x, kids)
    decreases fuel, 0, |items|
  {
    var r := Items(e, mode, items, w, isFav, depth, fuel);
    if items == [] {
      x, kids := [], [];
    } else if items[0].Literal? {
      var s, y := items[0].text, [];
      y, kids := FreshItemsFill(e, mode, items[1..], w.Say(s), isFav, depth, fuel);
      x := [s] + y;
      FreshWord(e.g, items, w, w.Say(s), isFav, r, s, Word(s), y, kids);
    } else {
      var name, y := items[0].name, [];
      if depth < 0 && CutOf(name).Some? {
        var s := CutOf(name).value;
        y, kids := FreshItemsFill(e, mode, items[1..], w.Cut(s), isFav, depth, fuel);
        x := [s] + y;
        FreshCut(e.g, items, w, isFav, r, s, y, kids);
      } else if !e.g.IsRule(name) {
        var s, w1 := TerminalWord(e, name, w.k), Terminal(e, name, w);
        y, kids := FreshItemsFill(e, mode, items[1..], w1, isFav, depth, fuel);
        x := [s] + y;
        FreshWord(e.g, items, w, w1, isFav, r, s, TerminalPiece(e.g, name), y, kids);
      } else {
        var c := Gen(e, Leaf(mode.fav), name, ChildDepth(mode, depth), fuel - 1, w.k);
        FreshFills(e, Leaf(mode.fav), name, ChildDepth(mode, depth), fuel - 1, w.k);
        var w2 := Work(w.rule, w.done + [c.tree], [], w.words + c.out.words, c.k);
        var more;
        y, more := FreshItemsFill(e, mode, items[1..], w2, isFav, depth, fuel);
        x, kids := c.out.words + y, [c.tree] + more;
        FreshChild(e.g, items, w, isFav, r, c.out.words, c.tree, c.k, y, more);
      }
    }
  }

  // Replay.

  /** The loop over the items of a recorded node says x, an instance of what the children
      stood for before and stand for now. */
  ghost predicate ReplayOk(g: Grammar, items: seq<Item>, w: Work, isFav: bool, r: Res, x: seq<string>,
                           kids: seq<Tree>) {
    && r.out == Done(w.words + x) && r.tree == Node(isFav, w.rule, w.done + kids)
    && Fills(g, x, OutlineOf(g, items, w.pending)) && Fills(g, x, OutlineOf(g, items, kids))
    && GrownAll(w.pending, kids)
  }

  lemma {:induction false} ReplayWord(g: Grammar, items: seq<Item>, w: Work, w1: Work, isFav: bool, r: Res, s: string,
                                      p: Piece, y: seq<string>, kids: seq<Tree>)
    requires items != [] && Says(g, items[0], p) && FillsOne(g, [s], p)
    requires w1 == w.Say(s).(k := w1.k) && ReplayOk(g, items[1..], w1, isFav, r, y, kids)
    ensures ReplayOk(g, items, w, isFav, r, [s] + y, kids)
  {
    assert w1.words + y == w.words + ([s] + y);
    WordFills(g, items, s, p, y, w.pending);
    WordFills(g, items, s, p, y, kids);
  }

  lemma {:induction false} GrownCons(t: Tree, t': Tree, ts: seq<Tree>, ts': seq<Tree>)
    requires Grown(t, t') && GrownAll(ts, ts')
    ensures GrownAll([t] + ts, [t'] + ts')
  {
  }

  lemma {:induction false} ReplayChild(g: Grammar, items: seq<Item>, w: Work, isFav: bool, r: Res, words: seq<string>,
                                       kid: Tree, k: nat, y: seq<string>, more: seq<Tree>)
    requires items != [] && items[0].Token? && g.IsRule(items[0].name) && w.pending != []
    requires Fills(g, words, Outline(g, w.pending[0], items[0].name)) && Fills(g, words, Outline(g, kid, items[0].name))
    requires Grown(w.pending[0], kid)
    requires ReplayOk(g, items[1..], Work(w.rule, w.done + [kid], w.pending[1..], w.words + words, k), isFav, r,
                      y, more)
    ensures ReplayOk(g, items, w, isFav, r, words + y, [kid] + more)
  {
    var child, rest := w.pending[0], w.pending[1..];
    assert w.pending == [child] + rest;
    assert w.words + words + y == w.words + (words + y);
    assert w.done + [kid] + more == w.done + ([kid] + more);
    ChildFills(g, items, words, child, y, rest);
    ChildFills(g, items, words, kid, y, more);
    GrownCons(child, kid, rest, more);
  }

  /** While there is depth left, replay says what the recorded tree says: its words are an
      instance of the outline, of the tree as it was and as it is left; and the recorded
      part of the tree stays as it is. */
  lemma {:induction false} ReplayFills(e: Env, t: Tree, root: string, depth: nat, fuel: nat, k: nat)
    requires e.g.Valid() && root in e.g.prods && Consistent(e.g, t, root)
    ensures var r := Gen(e, t, root, depth, fuel, k);
            r.out.Done? ==>
              Fills(e.g, r.out.words, Outline(e.g, t, root)) && Fills(e.g, r.out.words, Outline(e.g, r.tree, root))
                            && Grown(t, r.tree)
    decreases Size(t), 0
  {
    var r := Gen(e, t, root, depth, fuel, k);
    if Banned(root) {
      GrownRefl(t);
    } else if t.rule.None? {
      FreshFills(e, t, root, depth, fuel, k);
    } else if r.out.Done? {
      var w := Work(t.rule, [], t.children, [], k);
      var x, kids := ReplayItemsFill(e, t.rule.value.items, w, t.isFav, depth, fuel);
      assert w.done + kids == kids && w.words + x == x;
    }
  }

  lemma {:induction false} ReplayItemsFill(e: Env, items: seq<Item>, w: Work, isFav: bool, depth: nat, fuel: nat)
      returns (x: seq<string>, kids: seq<Tree>)
    requires e.g.Valid() && ConsistentAll(e.g, w.pending, Names(e.g, items))
    requires Items(e, Replaying, items, w, isFav, depth, fuel).out.Done?
    ensures ReplayOk(e.g, items, w, isFav, Items(e, Replaying, items, w, isFav, depth, fuel), x, kids)
    decreases Sizes(w.pending), |items|
  {
    var r := Items(e, Replaying, items, w, isFav, depth, fuel);
    if items == [] {
      x, kids := [], [];
    } else if items[0].Literal? {
      var s, y := items[0].text, [];
      y, kids := ReplayItemsFill(e, items[1..], w.Say(s), isFav, depth, fuel);
      x := [s] + y;
      ReplayWord(e.g, items, w, w.Say(s), isFav, r, s, Word(s), y, kids);
    } else if !e.g.IsRule(items[0].name) {
      var name, y := items[0].name, [];
      var s, w1 := TerminalWord(e, name, w.k), Terminal(e, name, w);
      y, kids := ReplayItemsFill(e, items[1..], w1, isFav, depth, fuel);
      x := [s] + y;
      ReplayWord(e.g, items, w, w1, isFav, r, s, TerminalPiece(e.g, name), y, kids);
    } else {
      var name := items[0].name;
      ConsistentTail(e.g, w.pending, Names(e.g, items));
      assert Names(e.g, items)[1..] == Names(e.g, items[1..]);
      ReplayFills(e, w.pending[0], name, depth, fuel, w.k);
      var c := Gen(e, w.pending[0], name, depth, fuel, w.k);
      var w2 := Work(w.rule, w.done + [c.tree], w.pending[1..], w.words + c.out.words, c.k);
      var y, more := ReplayItemsFill(e, items[1..], w2, isFav, depth, fuel);
      x, kids := c.out.words + y, [c.tree] + more;
      ReplayChild(e.g, items, w, isFav, r, c.out.words, c.tree, c.k, y, more);
    }
  }

  // ------------------------------------------------------------ mutating one node

  /** Forgetting what was recorded at a node. */
  function Clear(t: Tree): Tree {
    Leaf(t.isFav)
  }

  /** The tree with node i, counted from the root down and left to right, cleared. */
  function ClearAt(t: Tree, i: nat): Tree
    requires i < Size(t)
  {
    if i == 0 then Clear(t) else Node(t.isFav, t.rule, ClearIn(t.children, i - 1))
  }

  function ClearIn(ts: seq<Tree>, i: nat): (r: seq<Tree>)
    requires i < Sizes(ts)
    ensures |r| == |ts|
  {
    if i < Size(ts[0]) then [ClearAt(ts[0], i)] + ts[1..] else [ts[0]] + ClearIn(ts[1..], i - Size(ts[0]))
  }

  function SubtreeAt(t: Tree, i: nat): Tree
    requires i < Size(t)
  {
    if i == 0 then t else SubtreeIn(t.children, i - 1)
  }

  function SubtreeIn(ts: seq<Tree>, i: nat): Tree
    requires i < Sizes(ts)
  {
    if i < Size(ts[0]) then SubtreeAt(ts[0], i) else SubtreeIn(ts[1..], i - Size(ts[0]))
  }

  /** The rule that node i stands for, if replay reaches it through recorded nodes. */
  ghost function ShownAs(g: Grammar, t: Tree, root: string, i: nat): Option<string>
    requires i < Size(t)
    decreases Size(t), 0
  {
    if Banned(root) then None
    else if i == 0 then Some(root)
    else if t.rule.None? then None
    else ShownIn(g, t.children, Names(g, t.rule.value.items), i - 1)
  }

  ghost function ShownIn(g: Grammar, ts: seq<Tree>, names: seq<string>, i: nat): Option<string>
    requires i < Sizes(ts)
    decreases Sizes(ts), 1
  {
    if names == [] then None
    else if i < Size(ts[0]) then ShownAs(g, ts[0], names[0], i)
    else ShownIn(g, ts[1..], names[1..], i - Size(ts[0]))
  }

  /** Clearing a node keeps the tree consistent. */
  lemma {:induction false} ClearConsistent(g: Grammar, t: Tree, root: string, i: nat)
    requires i < Size(t) && Consistent(g, t, root)
    ensures Consistent(g, ClearAt(t, i), root)
    decreases Size(t), 0
  {
    if i > 0 && t.rule.Some? {
      ClearInConsistent(g, t.children, Names(g, t.rule.value.items), i - 1);
    }
  }

  lemma {:induction false} ClearInConsistent(g: Grammar, ts: seq<Tree>, names: seq<string>, i: nat)
    requires i < Sizes(ts) && ConsistentAll(g, ts, names)
    ensures ConsistentAll(g, ClearIn(ts, i), names)
    decreases Sizes(ts), 1
  {
    ConsistentTail(g, ts, names);
    assert names == [names[0]] + names[1..];
    if i < Size(ts[0]) {
      ClearConsistent(g, ts[0], names[0], i);
      ConsistentJoin(g, [ClearAt(ts[0], i)], [names[0]], ts[1..], names[1..]);
    } else {
      ClearInConsistent(g, ts[1..], names[1..], i - Size(ts[0]));
      ConsistentJoin(g, [ts[0]], [names[0]], ClearIn(ts[1..], i - Size(ts[0])), names[1..]);
    }
  }

  /** The outline before and after, split around the cleared node: a, c stay. */
  ghost predicate Replaced(before: seq<Piece>, after: seq<Piece>, a: seq<Piece>, gone: seq<Piece>, c: seq<Piece>,
                           name: string) {
    before == a + gone + c && after == a + [Hole(name)] + c
  }

  lemma {:induction false} ReplacedWithin(l: seq<Piece>, before: seq<Piece>, after: seq<Piece>, a: seq<Piece>,
                                          gone: seq<Piece>, c: seq<Piece>, name: string, r: seq<Piece>)
    requires Replaced(before, after, a, gone, c, name)
    ensures Replaced(l + before + r, l + after + r, l + a, gone, c + r, name)
  {
    assert l + (a + gone + c) + r == l + a + gone + (c + r);
    assert l + (a + [Hole(name)] + c) + r == l + a + [Hole(name)] + (c + r);
  }

  /** Clearing a node that replay reaches turns the part of the outline it stood for into
      one hole; clearing any other changes nothing. */
  lemma {:induction false} ClearOutline(g: Grammar, t: Tree, root: string, i: nat)
      returns (a: seq<Piece>, c: seq<Piece>)
    requires i < Size(t) && Consistent(g, t, root)
    ensures match ShownAs(g, t, root, i)
            case None => Outline(g, ClearAt(t, i), root) == Outline(g, t, root)
            case Some(name) =>
              Replaced(Outline(g, t, root), Outline(g, ClearAt(t, i), root), a, Outline(g, SubtreeAt(t, i), name),
                       c, name)
    decreases Size(t), 0, 0
  {
    a, c := [], [];
    if Banned(root) {
    } else if i == 0 {
      assert Outline(g, t, root) == a + Outline(g, t, root) + c;
      assert [Hole(root)] == a + [Hole(root)] + c;
    } else if t.rule.Some? {
      a, c := ClearOutlineOf(g, t.rule.value.items, t.children, i - 1);
    }
  }

  /** The same for the children of a node. */
  ghost predicate ClearedIn(g: Grammar, items: seq<Item>, kids: seq<Tree>, i: nat, a: seq<Piece>, c: seq<Piece>)
    requires i < Sizes(kids)
  {
    match ShownIn(g, kids, Names(g, items), i)
    case None => OutlineOf(g, items, ClearIn(kids, i)) == OutlineOf(g, items, kids)
    case Some(name) =>
      Replaced(OutlineOf(g, items, kids), OutlineOf(g, items, ClearIn(kids, i)), a,
               Outline(g, SubtreeIn(kids, i), name), c, name)
  }

  lemma {:induction false} ClearAfterWord(g: Grammar, items: seq<Item>, kids: seq<Tree>, i: nat, p: Piece,
                                          a: seq<Piece>, c: seq<Piece>)
    requires items != [] && Says(g, items[0], p) && i < Sizes(kids) && ClearedIn(g, items[1..], kids, i, a, c)
    ensures ClearedIn(g, items, kids, i, [p] + a, c)
  {
    var kids', shown := ClearIn(kids, i), ShownIn(g, kids, Names(g, items), i);
    if shown.Some? {
      ReplacedWithin([p], OutlineOf(g, items[1..], kids), OutlineOf(g, items[1..], kids'), a,
        Outline(g, SubtreeIn(kids, i), shown.value), c, shown.value, []);
      assert c + [] == c;
    }
  }

  lemma {:induction false} ClearFirst(g: Grammar, items: seq<Item>, kids: seq<Tree>, i: nat, a: seq<Piece>,
                                      c: seq<Piece>, shown: Option<string>)
    requires items != [] && items[0].Token? && g.IsRule(items[0].name) && kids != [] && i < Size(kids[0])
    requires var name := items[0].name;
             shown == ShownAs(g, kids[0], name, i) &&
             match shown
             case None => Outline(g, ClearAt(kids[0], i), name) == Outline(g, kids[0], name)
             case Some(n) =>
               Replaced(Outline(g, kids[0], name), Outline(g, ClearAt(kids[0], i), name), a,
                        Outline(g, SubtreeAt(kids[0], i), n), c, n)
    ensures ClearedIn(g, items, kids, i, a, c + OutlineOf(g, items[1..], kids[1..]))
  {
    var name, os := items[0].name, OutlineOf(g, items[1..], kids[1..]);
    assert ClearIn(kids, i)[1..] == kids[1..];
    assert Names(g, items)[0] == name;
    if shown.Some? {
      ReplacedWithin([], Outline(g, kids[0], name), Outline(g, ClearAt(kids[0], i), name), a,
        Outline(g, SubtreeAt(kids[0], i), shown.value), c, shown.value, os);
      assert [] + a == a;
      assert forall o: seq<Piece> :: [] + o + os == o + os;
    }
  }

  lemma {:induction false} ClearLater(g: Grammar, items: seq<Item>, kids: seq<Tree>, i: nat, a: seq<Piece>,
                                      c: seq<Piece>)
    requires items != [] && items[0].Token? && g.IsRule(items[0].name) && kids != [] && Size(kids[0]) <= i < Sizes(kids)
    requires ClearedIn(g, items[1..], kids[1..], i - Size(kids[0]), a, c)
    ensures ClearedIn(g, items, kids, i, Outline(g, kids[0], items[0].name) + a, c)
  {
    var j, rest := i - Size(kids[0]), kids[1..];
    var o, shown := Outline(g, kids[0], items[0].name), ShownIn(g, kids, Names(g, items), i);
    assert Names(g, items)[1..] == Names(g, items[1..]);
    assert ClearIn(kids, i)[1..] == ClearIn(rest, j);
    if shown.Some? {
      ReplacedWithin(o, OutlineOf(g, items[1..], rest), OutlineOf(g, items[1..], ClearIn(rest, j)), a,
        Outline(g, SubtreeIn(rest, j), shown.value), c, shown.value, []);
      assert c + [] == c;
      assert forall os: seq<Piece> :: o + os + [] == o + os;
    }
  }

  lemma {:induction false} ClearOutlineOf(g: Grammar, items: seq<Item>, kids: seq<Tree>, i: nat)
      returns (a: seq<Piece>, c: seq<Piece>)
    requires i < Sizes(kids) && ConsistentAll(g, kids, Names(g, items))
    ensures ClearedIn(g, items, kids, i, a, c)
    decreases Sizes(kids), 1, |items|
  {
    if items[0].Literal? || !g.IsRule(items[0].name) {
      var p := if items[0].Literal? then Word(items[0].text) else TerminalPiece(g, items[0].name);
      a, c := ClearOutlineOf(g, items[1..], kids, i);
      ClearAfterWord(g, items, kids, i, p, a, c);
      a := [p] + a;
    } else {
      var name := items[0].name;
      ConsistentTail(g, kids, Names(g, items));
      assert Names(g, items)[1..] == Names(g, items[1..]);
      if i < Size(kids[0]) {
        a, c := ClearOutline(g, kids[0], name, i);
        ClearFirst(g, items, kids, i, a, c, ShownAs(g, kids[0], name, i));
        c := c + OutlineOf(g, items[1..], kids[1..]);
      } else {
        a, c := ClearOutlineOf(g, items[1..], kids[1..], i - Size(kids[0]));
        ClearLater(g, items, kids, i, a, c);
        a := Outline(g, kids[0], name) + a;
      }
    }
  }

  // ------------------------------------------------------------------ main results

  /** No hole and neither of the two random keywords. */
  ghost predicate Fixed(pieces: seq<Piece>) {
    forall i | 0 <= i < |pieces| :: pieces[i].Word?
  }

  /** A fixed outline has one instance. */
  lemma {:induction false} FixedHasOne(g: Grammar, u: seq<string>, v: seq<string>, pieces: seq<Piece>)
    requires Fixed(pieces) && Fills(g, u, pieces) && Fills(g, v, pieces)
    ensures u == v
    decreases |pieces|
  {
    if pieces != [] {
      var m := FillsFirst(g, u, pieces);
      var n := FillsFirst(g, v, pieces);
      FixedHasOne(g, u[m..], v[n..], pieces[1..]);
      assert u == u[..m] + u[m..] && v == v[..n] + v[n..];
    }
  }

  /** A statement and the replay of the tree recorded for it are instances of one outline,
      and the same statement if that outline is fixed. */
  lemma {:induction false} ReplayRepeats(e: Env, e': Env, t: Tree, root: string, depth: int, depth': nat, fuel: nat,
                                         fuel': nat, k: nat, k': nat)
    requires e.g.Valid() && e'.g == e.g && root in e.g.prods && Consistent(e.g, t, root) && (t.rule.None? || depth >= 0)
    requires Gen(e, t, root, depth, fuel, k).out.Done?
    ensures var r := Gen(e, t, root, depth, fuel, k);
            var again := Gen(e', r.tree, root, depth', fuel', k').out;
            var o := Outline(e.g, r.tree, root);
            && again != Nil && Fills(e.g, r.out.words, o)
            && (again.Done? ==> Fills(e.g, again.words, o) && (Fixed(o) ==> again.words == r.out.words))
  {
    var r := Gen(e, t, root, depth, fuel, k);
    GenKeepsConsistent(e, t, root, depth, fuel, k);
    if t.rule.None? {
      FreshFills(e, t, root, depth, fuel, k);
    } else {
      ReplayFills(e, t, root, depth, fuel, k);
    }
    ReplayNilExactly(e', r.tree, root, depth', fuel', k');
    ReplayFills(e', r.tree, root, depth', fuel', k');
    var again := Gen(e', r.tree, root, depth', fuel', k').out;
    if again.Done? && Fixed(Outline(e.g, r.tree, root)) {
      FixedHasOne(e.g, again.words, r.out.words, Outline(e.g, r.tree, root));
    }
  }

  /** Two statements, each split into a part that a allows, one part for the rule `name`,
      and a part that c allows; the middle of the second is newly generated. */
  ghost predicate DifferAt(g: Grammar, u: seq<string>, v: seq<string>, a: seq<Piece>, c: seq<Piece>, name: string) {
    exists x, y, z, x', y', z' :: SplitAt(g, u, a, c, x, y, z) && SplitAt(g, v, a, c, x', y', z') && Yields(g, name, y')
  }

  ghost predicate SplitAt(g: Grammar, u: seq<string>, a: seq<Piece>, c: seq<Piece>, x: seq<string>, y: seq<string>,
                          z: seq<string>) {
    u == x + y + z && Fills(g, x, a) && Fills(g, z, c)
  }

  lemma {:induction false} SplitThree(g: Grammar, u: seq<string>, a: seq<Piece>, b: seq<Piece>, c: seq<Piece>)
      returns (x: seq<string>, y: seq<string>, z: seq<string>)
    requires Fills(g, u, a + b + c)
    ensures SplitAt(g, u, a, c, x, y, z) && Fills(g, y, b)
  {
    var n := FillsSplit(g, u, a + b, c);
    var m := FillsSplit(g, u[..n], a, b);
    x, y, z := u[..n][..m], u[..n][m..], u[n..];
    assert u == u[..n] + u[n..];
    assert u[..n] == x + y;
  }

  /** Mutating a saved statement at one node never gives the error return, keeps the tree
      consistent, and changes the words only in that node's part: the rest is an instance
      of the same outline.  Clearing a node that replay does not reach changes nothing. */
  lemma {:induction false} MutationIsLocal(e: Env, t: Tree, root: string, i: nat, depth: nat, fuel: nat, k: nat,
                                           words: seq<string>)
      returns (a: seq<Piece>, c: seq<Piece>)
    requires e.g.Valid() && root in e.g.prods && i < Size(t) && Consistent(e.g, t, root)
    requires Fills(e.g, words, Outline(e.g, t, root))
    ensures var r := Gen(e, ClearAt(t, i), root, depth, fuel, k);
            && r.out != Nil
            && (r.out.Done? ==>
                  && Consistent(e.g, r.tree, root)
                  && match ShownAs(e.g, t, root, i)
                     case None => Fills(e.g, r.out.words, Outline(e.g, t, root))
                     case Some(name) =>
                       && Outline(e.g, t, root) == a + Outline(e.g, SubtreeAt(t, i), name) + c
                       && DifferAt(e.g, words, r.out.words, a, c, name))
  {
    var t' := ClearAt(t, i);
    var r := Gen(e, t', root, depth, fuel, k);
    ClearConsistent(e.g, t, root, i);
    ReplayNilExactly(e, t', root, depth, fuel, k);
    GenKeepsConsistent(e, t', root, depth, fuel, k);
    a, c := ClearOutline(e.g, t, root, i);
    if r.out.Done? {
      ReplayFills(e, t', root, depth, fuel, k);
      var shown := ShownAs(e.g, t, root, i);
      if shown.Some? {
        var x, y, z := SplitThree(e.g, words, a, Outline(e.g, SubtreeAt(t, i), shown.value), c);
        var x', y', z' := SplitThree(e.g, r.out.words, a, [Hole(shown.value)], c);
        HoleYields(e.g, y', shown.value);
      }
    }
  }

  lemma {:induction false} HoleYields(g: Grammar, words: seq<string>, name: string)
    requires Fills(g, words, [Hole(name)])
    ensures Yields(g, name, words)
  {
    var n := FillsFirst(g, words, [Hole(name)]);
    assert words[n..] == [];
    assert words[..n] == words;
  }
}
