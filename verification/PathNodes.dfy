/** The path tree of the grammar generator on the heap.

    GenerateMySQL rewrites the nodes it is given in place; deepCopyPathNode and
    GatherAllPathNodes read them; RSG.generate clears one of them.  Each is proved to do
    to the tree what the functions of PathTree.dfy say.  Where a change to one node has to
    be followed up through the tree above it, the proof works on snapshots: maps from
    nodes to their fields, on which the heap plays no part. */
module PathNodes {
  import opened PathTree

  class PathNode {
    var isFav: bool
    /** ExprProds; none stands for nil. */
    var rule: Option<Rule>
    var children: seq<PathNode>
    ghost var repr: set<PathNode>

    /** A tree: no node is below itself or in two places. */
    ghost predicate Valid()
      reads this, repr
      decreases repr
    {
      && this in repr
      && (forall i | 0 <= i < |children| ::
            children[i] in repr && children[i].repr <= repr && this !in children[i].repr && children[i].Valid())
      && (forall i, j | 0 <= i < j < |children| :: children[i].repr !! children[j].repr)
    }

    /** The value this node and those below it stand for. */
    ghost function Value(): Tree
      requires Valid()
      reads this, repr
      decreases repr, |children| + 1
    {
      Node(isFav, rule, Values(|children|))
    }

    ghost function Values(n: nat): (r: seq<Tree>)
      requires Valid() && n <= |children|
      reads this, repr
      ensures |r| == n && forall i | 0 <= i < n :: r[i] == children[i].Value()
      decreases repr, n
    {
      if n == 0 then [] else Values(n - 1) + [children[n - 1].Value()]
    }

    constructor (isFav: bool)
      ensures Valid() && repr == {this} && Value() == Leaf(isFav)
      ensures children == []
    {
      this.isFav, this.rule, this.children := isFav, None, [];
      this.repr := {this};
    }

    /** Forget the recorded rule and the children. */
    method Forget()
      requires Valid()
      modifies this
      ensures Valid() && repr == old(repr)
      ensures Value() == Clear(old(Value()))
    {
      rule, children := None, [];
    }

    method Record(r: Rule)
      requires Valid()
      modifies this
      ensures Valid() && repr == old(repr)
      ensures Value() == Node(old(isFav), Some(r), [])
    {
      rule, children := Some(r), [];
    }

    method AppendLeaf(fav: bool)
      requires Valid()
      modifies this
      ensures Valid() && fresh(repr - old(repr))
      ensures |children| == |old(children)| + 1
      ensures Value() == Node(old(isFav), old(rule), old(Value()).children + [Leaf(fav)])
    {
      var c := new PathNode(fav);
      children := children + [c];
      repr := repr + {c};
    }
  }

  // ------------------------------------------------------------------ generating

  /** The children are trees apart from each other and from the node, and those other than
      child i are what t says. */
  ghost predicate Family(node: PathNode, i: nat, t: Tree, kids: set<PathNode>)
    reads node, node.repr, kids, set c <- kids, o <- c.repr :: o
  {
    && node in node.repr && i < |node.children| == |t.children| && t.isFav == node.isFav && t.rule == node.rule
    && (forall c <- node.children :: c in kids)
    && (forall j | 0 <= j < |node.children| :: node.children[j].Valid() && node !in node.children[j].repr)
    && (forall j | 0 <= j < |node.children| && j != i ::
          node.children[j].repr <= node.repr && node.children[j].Value() == t.children[j])
    && (forall a, b | 0 <= a < b < |node.children| :: node.children[a].repr !! node.children[b].repr)
  }

  /** Take in the nodes that now hang below child i. */
  ghost method Adopt(node: PathNode, i: nat, t: Tree, kids: set<PathNode>)
    requires Family(node, i, t, kids)
    modifies node`repr
    ensures node.Valid() && node.repr == old(node.repr) + node.children[i].repr
    ensures node.Value() == t.(children := t.children[i := node.children[i].Value()])
  {
    node.repr := node.repr + node.children[i].repr;
    assert node.Valid();
    assert node.Values(|node.children|) == t.children[i := node.children[i].Value()];
  }

  method CallChild(e: Env, node: PathNode, i: nat, root: string, depth: int, fuel: nat, k: nat, ghost size: nat,
                   ghost t: Tree)
      returns (out: Outcome, k': nat, ghost kids: set<PathNode>)
    requires node.Valid() && node.Value() == t && i < |node.children| && e.g.Valid() && root in e.g.prods
    requires Size(t.children[i]) <= size
    modifies node.children[i].repr
    ensures Gen(e, t.children[i], root, depth, fuel, k).out == out
    ensures out != OutOfFuel ==>
        && Family(node, i, t, kids)
        && fresh(node.children[i].repr - old(node.children[i].repr)) && old(node.children[i].repr) <= node.repr
        && Res(out, node.children[i].Value(), k') == Gen(e, t.children[i], root, depth, fuel, k)
    decreases fuel, size, 1, 0
  {
    assert node.children[i].Value() == t.children[i];
    kids := set c <- node.children;
    out, k' := GenerateMySQL(e, root, node.children[i], depth, fuel, k);
  }

  /** Work on child i of the node. */
  method GenerateChild(e: Env, node: PathNode, i: nat, root: string, depth: int, fuel: nat, k: nat, ghost size: nat,
                       ghost t: Tree)
      returns (out: Outcome, k': nat)
    requires node.Valid() && node.Value() == t && i < |node.children| && e.g.Valid() && root in e.g.prods
    requires Size(t.children[i]) <= size
    modifies node.repr
    ensures Gen(e, t.children[i], root, depth, fuel, k).out == out
    ensures out != OutOfFuel ==>
        && node.Valid() && fresh(node.repr - old(node.repr))
        && var r := Gen(e, t.children[i], root, depth, fuel, k);
           k' == r.k && node.Value() == t.(children := t.children[i := r.tree])
    decreases fuel, size, 1, 1
  {
    ghost var kids;
    out, k', kids := CallChild(e, node, i, root, depth, fuel, k, size, t);
    if out != OutOfFuel {
      Adopt(node, i, t, kids);
    }
  }

  /** The node holds the work done so far; next is the child to replay next. */
  ghost predicate Holds(node: PathNode, mode: Mode, w: Work, next: nat, isFav: bool)
    reads node, node.repr
  {
    && node.Valid() && node.Value() == w.Tree(isFav)
    && (if mode.Fresh? then w.pending == []
        else if w.rule.Some? then next == |w.done| else w.done == [] && w.pending == [])
  }

  /** The child that an item calls for: the next recorded one, or a new leaf. */
  method PickChild(node: PathNode, mode: Mode, next: nat, ghost w: Work, ghost isFav: bool) returns (i: nat, next': nat)
    requires Holds(node, mode, w, next, isFav) && (mode.Replaying? ==> next < |node.children|)
    modifies node
    ensures node.Valid() && fresh(node.repr - old(node.repr)) && i < |node.children|
    ensures mode.Replaying? ==> i == next && next' == next + 1 && w.pending != []
    ensures node.children[i].Value() == NextChild(mode, w).0
    ensures var w1 := NextChild(mode, w).1;
            i == |w.done| && node.Value() == Node(isFav, w.rule, w.done + [NextChild(mode, w).0] + w1.pending)
  {
    if mode.Replaying? {
      i, next' := next, next + 1;
      assert node.Value().children[i] == w.pending[0];
      assert w.done + [w.pending[0]] + w.pending[1..] == w.done + w.pending;
    } else {
      node.AppendLeaf(mode.fav);
      i, next' := |node.children| - 1, next;
      assert node.Value().children[i] == Leaf(mode.fav);
      assert w.done + [Leaf(mode.fav)] + [] == w.done + [] + [Leaf(mode.fav)];
    }
  }

  lemma SetMiddle<T>(a: seq<T>, x: T, b: seq<T>, y: T)
    ensures (a + [x] + b)[|a| := y] == a + [y] + b
  {
  }

  /** An item that refers to a rule. */
  method RuleItem(e: Env, node: PathNode, mode: Mode, ghost items: seq<Item>, name: string, next: nat,
                  words: seq<string>, depth: int, fuel: nat, k: nat, ghost w: Work, ghost isFav: bool)
      returns (out: Outcome, next': nat, k': nat, ghost w': Work)
    requires e.g.Valid() && e.g.IsRule(name) && (mode.Fresh? ==> fuel > 0) && !(depth < 0 && CutOf(name).Some?)
    requires items != [] && items[0] == Token(name)
    requires Holds(node, mode, w, next, isFav) && w.words == words && w.k == k
    modifies node.repr
    ensures out.Done? ==>
        && Holds(node, mode, w', next', isFav) && fresh(node.repr - old(node.repr))
        && w'.words == out.words && w'.k == k'
        && Items(e, mode, items[1..], w', isFav, depth, fuel) == Items(e, mode, items, w, isFav, depth, fuel)
        && Sizes(w'.pending) <= Sizes(w.pending)
    ensures !out.Done? ==> Items(e, mode, items, w, isFav, depth, fuel).out == out
    ensures out == Nil ==>
        && node.Valid() && fresh(node.repr - old(node.repr))
        && Items(e, mode, items, w, isFav, depth, fuel) == Res(Nil, node.Value(), k')
    decreases fuel, Sizes(w.pending), 2, 0
  {
    next', w' := next, w;
    if mode.Replaying? && next >= |node.children| {
      assert w.pending == [];
      return Nil, next, k, w;
    }
    var i;
    i, next' := PickChild(node, mode, next, w, isFav);
    ghost var child, w1 := NextChild(mode, w).0, NextChild(mode, w).1;
    out, k' := GenerateChild(e, node, i, name, ChildDepth(mode, depth), ChildFuel(mode, fuel), k, Size(child),
        node.Value());
    if out != OutOfFuel {
      ghost var r := Gen(e, child, name, ChildDepth(mode, depth), ChildFuel(mode, fuel), k);
      w' := w1.(done := w.done + [r.tree], k := r.k);
      SetMiddle(w.done, child, w1.pending, r.tree);
      if out.Done? {
        w' := w'.(words := words + out.words);
        out := Done(words + out.words);
      }
    }
  }

  /** One round of the loop over the items. */
  method NextItem(e: Env, node: PathNode, mode: Mode, it: Item, ghost items: seq<Item>, next: nat, words: seq<string>,
                  depth: int, fuel: nat, k: nat, ghost w: Work, ghost isFav: bool)
      returns (out: Outcome, next': nat, k': nat, ghost w': Work)
    requires e.g.Valid() && (mode.Fresh? ==> fuel > 0) && items != [] && items[0] == it
    requires Holds(node, mode, w, next, isFav) && w.words == words && w.k == k
    modifies node.repr
    ensures out.Done? ==>
        && Holds(node, mode, w', next', isFav) && fresh(node.repr - old(node.repr))
        && w'.words == out.words && w'.k == k'
        && Items(e, mode, items[1..], w', isFav, depth, fuel) == Items(e, mode, items, w, isFav, depth, fuel)
        && Sizes(w'.pending) <= Sizes(w.pending)
    ensures !out.Done? ==> Items(e, mode, items, w, isFav, depth, fuel).out == out
    ensures out == Nil ==>
        && node.Valid() && fresh(node.repr - old(node.repr))
        && Items(e, mode, items, w, isFav, depth, fuel) == Res(Nil, node.Value(), k')
    decreases fuel, Sizes(w.pending), 3, 0
  {
    next', k', w' := next, k, w;
    match it {
      case Literal(text) =>
        out, w' := Done(words + [text]), w.Say(text);
      case Token(name) =>
        if depth < 0 && CutOf(name).Some? {
          node.Forget();
          out, w' := Done(words + [CutOf(name).value]), w.Cut(CutOf(name).value);
        } else if !e.g.IsRule(name) {
          out, w' := Done(words + [TerminalWord(e, name, k)]), Terminal(e, name, w);
          k' := if CoinOf(name).Some? then k + 1 else k;
        } else {
          out, next', k', w' := RuleItem(e, node, mode, items, name, next, words, depth, fuel, k, w, isFav);
        }
    }
  }

  /** The loop over the items of the chosen rule. */
  method GenerateItems(e: Env, node: PathNode, mode: Mode, items: seq<Item>, depth: int, fuel: nat, k: nat,
                       ghost w0: Work)
      returns (out: Outcome, k': nat)
    requires e.g.Valid() && (mode.Fresh? ==> fuel > 0)
    requires Holds(node, mode, w0, 0, node.isFav) && w0.words == [] && w0.k == k
    modifies node.repr
    ensures Items(e, mode, items, w0, old(node.isFav), depth, fuel).out == out
    ensures out != OutOfFuel ==>
        && node.Valid() && fresh(node.repr - old(node.repr))
        && Res(out, node.Value(), k') == Items(e, mode, items, w0, old(node.isFav), depth, fuel)
    decreases fuel, Sizes(w0.pending), 4, 0
  {
    ghost var isFav, w := node.isFav, w0;
    ghost var r := Items(e, mode, items, w0, isFav, depth, fuel);
    var next, i := 0, 0;
    out, k' := Done([]), k;
    assert items[0..] == items;
    while i < |items|
      invariant i <= |items| && out.Done? && Holds(node, mode, w, next, isFav) && w.words == out.words && w.k == k'
      invariant fresh(node.repr - old(node.repr)) && Sizes(w.pending) <= Sizes(w0.pending)
      invariant Items(e, mode, items[i..], w, isFav, depth, fuel) == r
    {
      out, next, k', w := NextItem(e, node, mode, items[i], items[i..], next, out.words, depth, fuel, k', w, isFav);
      if !out.Done? {
        return;
      }
      assert items[i..][1..] == items[i + 1..];
      i := i + 1;
    }
  }

  /** GenerateMySQL: generate from the root rule, replaying what the node has recorded and
      recording what it has not. */
  method GenerateMySQL(e: Env, root: string, node: PathNode, depth: int, fuel: nat, k: nat)
      returns (out: Outcome, k': nat)
    requires node.Valid() && e.g.Valid() && root in e.g.prods
    modifies node.repr
    ensures Gen(e, old(node.Value()), root, depth, fuel, k).out == out
    ensures out != OutOfFuel ==>
        && node.Valid() && fresh(node.repr - old(node.repr))
        && Res(out, node.Value(), k') == Gen(e, old(node.Value()), root, depth, fuel, k)
    decreases fuel, Size(node.Value()), 0, 0
  {
    if Banned(root) {
      return Done([]), k;
    }
    if node.rule.Some? {
      ghost var w := Work(node.rule, [], node.Value().children, [], k);
      assert w.done + w.pending == w.pending;
      out, k' := GenerateItems(e, node, Replaying, node.rule.value.items, depth, fuel, k, w);
    } else if fuel == 0 {
      return OutOfFuel, k;
    } else {
      var (mode, w) := StartFresh(e, root, k);
      node.Record(w.rule.value);
      assert w.done + w.pending == [];
      out, k' := GenerateItems(e, node, mode, w.rule.value.items, depth, fuel, w.k, w);
    }
  }

  // ------------------------------------------------------------------ snapshots

  /** The fields of a node. */
  datatype Fields = Fields(isFav: bool, rule: Option<Rule>, children: seq<PathNode>, repr: set<PathNode>)

  /** Some nodes at one moment: what is true of the tree then can be said, and proved,
      without the heap. */
  type Snap = map<PathNode, Fields>

  ghost predicate Shows(s: Snap)
    reads s.Keys
  {
    forall n <- s :: s[n] == Fields(n.isFav, n.rule, n.children, n.repr)
  }

  ghost function Taken(nodes: set<PathNode>): (s: Snap)
    reads nodes
    ensures s.Keys == nodes && Shows(s)
  {
    map n <- nodes :: Fields(n.isFav, n.rule, n.children, n.repr)
  }

  ghost predicate Ok(s: Snap, node: PathNode)
    decreases if node in s then s[node].repr else {}
  {
    && node in s
    && var f := s[node];
    && node in f.repr && f.repr <= s.Keys
    && (forall i | 0 <= i < |f.children| ::
          && f.children[i] in f.repr && s[f.children[i]].repr <= f.repr && node !in s[f.children[i]].repr
          && Ok(s, f.children[i]))
    && (forall i, j | 0 <= i < j < |f.children| :: s[f.children[i]].repr !! s[f.children[j]].repr)
  }

  ghost function ValueIn(s: Snap, node: PathNode): Tree
    requires Ok(s, node)
    decreases s[node].repr, |s[node].children| + 1
  {
    Node(s[node].isFav, s[node].rule, ValuesIn(s, node, |s[node].children|))
  }

  ghost function ValuesIn(s: Snap, node: PathNode, n: nat): (r: seq<Tree>)
    requires Ok(s, node) && n <= |s[node].children|
    ensures |r| == n && forall i | 0 <= i < n :: r[i] == ValueIn(s, s[node].children[i])
    decreases s[node].repr, n
  {
    if n == 0 then [] else ValuesIn(s, node, n - 1) + [ValueIn(s, s[node].children[n - 1])]
  }

  /** A snapshot says of a tree what the heap says. */
  lemma {:induction false} SnapshotOf(s: Snap, node: PathNode)
    requires node.Valid() && node.repr <= s.Keys && Shows(s)
    ensures Ok(s, node) && ValueIn(s, node) == node.Value() && s[node].repr == node.repr
    decreases node.repr
  {
    forall i | 0 <= i < |node.children|
      ensures Ok(s, node.children[i]) && ValueIn(s, node.children[i]) == node.children[i].Value()
      ensures s[node.children[i]].repr == node.children[i].repr
    {
      SnapshotOf(s, node.children[i]);
    }
    assert Ok(s, node);
    assert ValuesIn(s, node, |node.children|) == node.Values(|node.children|);
  }

  lemma {:induction false} HeapOf(s: Snap, node: PathNode)
    requires Ok(s, node) && Shows(s)
    ensures node.Valid() && ValueIn(s, node) == node.Value() && s[node].repr == node.repr
    decreases s[node].repr
  {
    forall i | 0 <= i < |node.children|
      ensures node.children[i].Valid() && ValueIn(s, node.children[i]) == node.children[i].Value()
      ensures s[node.children[i]].repr == node.children[i].repr
    {
      HeapOf(s, node.children[i]);
    }
    assert node.Valid();
    assert ValuesIn(s, node, |node.children|) == node.Values(|node.children|);
  }

  // ------------------------------------------------------------------ copies and lists

  method AppendChild(node: PathNode, c: PathNode)
    requires node.Valid() && c.Valid() && node.repr !! c.repr
    modifies node
    ensures node.Valid() && node.repr == old(node.repr) + c.repr
    ensures node.Value() == Node(old(node.isFav), old(node.rule), old(node.Value()).children + [c.Value()])
    ensures node.isFav == old(node.isFav) && node.rule == old(node.rule)
  {
    node.children := node.children + [c];
    node.repr := node.repr + c.repr;
  }

  method StartCopy(src: PathNode) returns (dest: PathNode)
    ensures fresh(dest.repr) && dest.Valid() && dest.Value() == Node(src.isFav, src.rule, [])
  {
    dest := new PathNode(src.isFav);
    dest.rule := src.rule;
  }

  ghost predicate CopiedUpTo(dest: PathNode, t: Tree, i: nat)
    reads dest, dest.repr
  {
    dest.Valid() && i <= |t.children| && dest.Value() == Node(t.isFav, t.rule, t.children[..i])
  }

  method AppendCopy(dest: PathNode, c: PathNode, ghost t: Tree, ghost i: nat)
    requires CopiedUpTo(dest, t, i) && i < |t.children|
    requires c.Valid() && c.Value() == t.children[i] && dest.repr !! c.repr
    modifies dest
    ensures dest.repr == old(dest.repr) + c.repr && CopiedUpTo(dest, t, i + 1)
  {
    AppendChild(dest, c);
    assert t.children[..i + 1] == t.children[..i] + [t.children[i]];
  }

  /** One round of the loop over the children. */
  method CopyNext(src: PathNode, i: nat, dest: PathNode, ghost s: Snap, ghost t: Tree)
    requires Ok(s, src) && Shows(s) && t == ValueIn(s, src) && i < |src.children|
    requires CopiedUpTo(dest, t, i) && dest.repr !! s.Keys
    modifies dest
    ensures Shows(s) && fresh(dest.repr - old(dest.repr)) && CopiedUpTo(dest, t, i + 1)
    decreases s[src].repr, 0
  {
    var c := DeepCopyPathNode(src.children[i], s);
    AppendCopy(dest, c, t, i);
  }

  /** A copy shares no node with its source; s is a snapshot with the source in it. */
  method DeepCopyPathNode(src: PathNode, ghost s: Snap) returns (dest: PathNode)
    requires Ok(s, src) && Shows(s)
    ensures dest.Valid() && fresh(dest.repr) && dest.Value() == ValueIn(s, src)
    decreases s[src].repr, 1
  {
    ghost var t := ValueIn(s, src);
    dest := StartCopy(src);
    var i := 0;
    while i < |src.children|
      invariant i <= |src.children| && fresh(dest.repr) && CopiedUpTo(dest, t, i)
      invariant Shows(s)
    {
      CopyNext(src, i, dest, s, t);
      i := i + 1;
    }
  }

  /** The nodes below a node, itself first, then from left to right. */
  ghost function NodesOf(s: Snap, node: PathNode): (r: seq<PathNode>)
    requires Ok(s, node)
    ensures r != [] && r[0] == node
    decreases s[node].repr, 1, 0
  {
    [node] + NodesIn(s, node, 0)
  }

  /** Those below its children from the n-th on. */
  ghost function NodesIn(s: Snap, node: PathNode, n: nat): seq<PathNode>
    requires Ok(s, node) && n <= |s[node].children|
    decreases s[node].repr, 0, |s[node].children| - n
  {
    if n == |s[node].children| then [] else NodesOf(s, s[node].children[n]) + NodesIn(s, node, n + 1)
  }

  lemma {:induction false} NodesOfRepr(s: Snap, node: PathNode)
    requires Ok(s, node)
    ensures |NodesOf(s, node)| == Size(ValueIn(s, node))
    ensures forall m <- NodesOf(s, node) :: m in s[node].repr
    decreases s[node].repr, 1, 0
  {
    NodesInRepr(s, node, 0);
    assert ValuesIn(s, node, |s[node].children|)[0..] == ValuesIn(s, node, |s[node].children|);
  }

  lemma {:induction false} NodesInRepr(s: Snap, node: PathNode, n: nat)
    requires Ok(s, node) && n <= |s[node].children|
    ensures |NodesIn(s, node, n)| == Sizes(ValueIn(s, node).children[n..])
    ensures forall m <- NodesIn(s, node, n) :: m in s[node].repr
    decreases s[node].repr, 0, |s[node].children| - n
  {
    if n < |s[node].children| {
      NodesOfRepr(s, s[node].children[n]);
      NodesInRepr(s, node, n + 1);
      assert ValueIn(s, node).children[n..][1..] == ValueIn(s, node).children[n + 1..];
    }
  }

  method GatherAllPathNodes(node: PathNode, ghost s: Snap) returns (path: seq<PathNode>)
    requires Ok(s, node) && Shows(s)
    ensures path == NodesOf(s, node)
    decreases s[node].repr
  {
    path := [node];
    var i := 0;
    while i < |node.children|
      invariant i <= |node.children| && path + NodesIn(s, node, i) == NodesOf(s, node)
    {
      var childPath := GatherAllPathNodes(node.children[i], s);
      path := path + childPath;
      i := i + 1;
    }
  }

  /** The record of m forgotten. */
  ghost function Forgot(s: Snap, m: PathNode): Snap
    requires m in s
  {
    s[m := s[m].(rule := None, children := [])]
  }

  lemma {:induction false} ForgotElsewhere(s: Snap, m: PathNode, node: PathNode)
    requires m in s && Ok(s, node) && m !in s[node].repr
    ensures Ok(Forgot(s, m), node) && ValueIn(Forgot(s, m), node) == ValueIn(s, node)
    decreases s[node].repr
  {
    var s' := Forgot(s, m);
    forall i | 0 <= i < |s[node].children|
      ensures Ok(s', s[node].children[i]) && ValueIn(s', s[node].children[i]) == ValueIn(s, s[node].children[i])
    {
      ForgotElsewhere(s, m, s[node].children[i]);
    }
    assert Ok(s', node);
    assert ValuesIn(s', node, |s[node].children|) == ValuesIn(s, node, |s[node].children|);
  }

  /** Forgetting node i clears node i of the tree. */
  lemma {:induction false} ForgotClears(s: Snap, node: PathNode, i: nat, m: PathNode)
    requires Ok(s, node) && i < |NodesOf(s, node)| && m == NodesOf(s, node)[i] && m in s
    ensures Ok(Forgot(s, m), node) && i < Size(ValueIn(s, node))
    ensures ValueIn(Forgot(s, m), node) == ClearAt(ValueIn(s, node), i)
    decreases s[node].repr, 1, 0
  {
    NodesOfRepr(s, node);
    if i == 0 {
      ForgotRoot(s, node);
    } else {
      ForgotClearsIn(s, node, 0, i - 1, m);
      ClearAll(ValueIn(s, node).children, i - 1);
    }
  }

  lemma {:induction false} ForgotRoot(s: Snap, node: PathNode)
    requires Ok(s, node)
    ensures Ok(Forgot(s, node), node) && ValueIn(Forgot(s, node), node) == Clear(ValueIn(s, node))
  {
    assert Ok(Forgot(s, node), node);
  }

  lemma {:induction false} ClearAll(ts: seq<Tree>, i: nat)
    requires i < Sizes(ts[0..])
    ensures ts[0..] == ts && ts[..0] + ClearIn(ts[0..], i) == ClearIn(ts, i)
  {
    assert ts[0..] == ts;
  }

  lemma {:induction false} ForgotClearsIn(s: Snap, node: PathNode, n: nat, i: nat, m: PathNode)
    requires Ok(s, node) && n <= |s[node].children|
    requires i < |NodesIn(s, node, n)| && m == NodesIn(s, node, n)[i] && m in s
    ensures var ts := ValueIn(s, node).children;
            && Ok(Forgot(s, m), node) && i < Sizes(ts[n..])
            && ValueIn(Forgot(s, m), node) == ValueIn(s, node).(children := ts[..n] + ClearIn(ts[n..], i))
    decreases s[node].repr, 0, |s[node].children| - n
  {
    var child := s[node].children[n];
    var ts := ValueIn(s, node).children;
    NodesOfRepr(s, child);
    NodesInRepr(s, node, n);
    assert ts[n] == ValueIn(s, child);
    if i < |NodesOf(s, child)| {
      ForgotClears(s, child, i, m);
      OneChildChanged(s, node, n, m);
      ClearHere(ts, n, i);
    } else {
      ForgotClearsIn(s, node, n + 1, i - |NodesOf(s, child)|, m);
      ClearFurther(ts, n, i);
    }
  }

  lemma {:induction false} ClearHere(ts: seq<Tree>, n: nat, i: nat)
    requires n < |ts| && i < Size(ts[n])
    ensures i < Sizes(ts[n..]) && ts[..n] + ClearIn(ts[n..], i) == ts[n := ClearAt(ts[n], i)]
  {
    assert ts[n..][0] == ts[n] && ts[n..][1..] == ts[n + 1..];
  }

  lemma {:induction false} ClearFurther(ts: seq<Tree>, n: nat, i: nat)
    requires n < |ts| && Size(ts[n]) <= i < Sizes(ts[n..])
    ensures i - Size(ts[n]) < Sizes(ts[n + 1..])
    ensures ts[..n] + ClearIn(ts[n..], i) == ts[..n + 1] + ClearIn(ts[n + 1..], i - Size(ts[n]))
  {
    assert ts[n..][0] == ts[n] && ts[n..][1..] == ts[n + 1..];
  }

  lemma {:induction false} OneChildChanged(s: Snap, node: PathNode, n: nat, m: PathNode)
    requires Ok(s, node) && m in s && n < |s[node].children|
    requires m in s[s[node].children[n]].repr && Ok(Forgot(s, m), s[node].children[n])
    ensures var s' := Forgot(s, m); var ts := ValueIn(s, node).children;
            Ok(s', node) &&
            ValueIn(s', node) == ValueIn(s, node).(children := ts[n := ValueIn(s', s[node].children[n])])
  {
    var s', kids := Forgot(s, m), s[node].children;
    forall j | 0 <= j < |kids| && j != n
      ensures Ok(s', kids[j]) && ValueIn(s', kids[j]) == ValueIn(s, kids[j])
    {
      ForgotElsewhere(s, m, kids[j]);
    }
    assert Ok(s', node);
    assert ValuesIn(s', node, |kids|) == ValueIn(s, node).children[n := ValueIn(s', kids[n])];
  }

  /** path lists the nodes of the tree. */
  ghost predicate Gathered(s: Snap, root: PathNode, path: seq<PathNode>) {
    Ok(s, root) && path == NodesOf(s, root)
  }

  lemma {:induction false} ForgetPlan(root: PathNode, s: Snap, path: seq<PathNode>, i: nat)
    requires root.Valid() && Shows(s) && s.Keys == root.repr && Gathered(s, root, path) && i < |path|
    ensures path[i] in root.repr && s[root].repr == root.repr && i < Size(root.Value())
    ensures Ok(Forgot(s, path[i]), root) && ValueIn(Forgot(s, path[i]), root) == ClearAt(root.Value(), i)
  {
    NodesOfRepr(s, root);
    SnapshotOf(s, root);
    ForgotClears(s, root, i, path[i]);
  }

  method ForgetOne(m: PathNode, ghost s: Snap)
    requires m in s && Shows(s)
    modifies m
    ensures Shows(Forgot(s, m))
  {
    m.rule, m.children := None, [];
  }

  /** Clear a node of a tree, as RSG.generate clears the one it has picked. */
  method ForgetNode(root: PathNode, path: seq<PathNode>, i: nat, ghost s: Snap)
    requires root.Valid() && Shows(s) && s.Keys == root.repr && Gathered(s, root, path) && i < |path|
    modifies root.repr
    ensures root.Valid() && root.repr == old(root.repr)
    ensures i < Size(old(root.Value())) && root.Value() == ClearAt(old(root.Value()), i)
  {
    ForgetPlan(root, s, path, i);
    var mutateNode := path[i];
    ForgetOne(mutateNode, s);
    HeapOf(Forgot(s, mutateNode), root);
  }
}
