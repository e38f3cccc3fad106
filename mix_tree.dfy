/** The tree of the mixed mode (src/mix_tree.py): nodes that count games and
    know their parent, the move path from the root rebuilt along the parent
    links, and the serialization that asks an engine for each kept node's best
    move. The engine is an oracle from a move path to a move. */
module MixTree {
  import opened Wrappers
  import opened Dicts
  import opened Core

  /** The two thresholds of `MixValues` the modelled logic reads. */
  datatype MixValues = MixValues(cutOff: int, threshold: int)

  /** The value an `InputNode` holds: colour, `count` and children in insertion order. */
  datatype InputTree = InputTree(color: Color, count: int, children: Dict<InputTree>)

  function EmptyInput(color: Color): (t: InputTree)
    ensures t.color == color && t.count == 0 && t.children == []
  {
    InputTree(color, 0, [])
  }

  /** The child `insert` works on for `key`: the existing one, or a new empty node of the other colour. */
  function InputChildFor(t: InputTree, key: string): (c: InputTree)
    ensures key !in Keys(t.children) ==> c == EmptyInput(NextColor(t.color))
    ensures key in Keys(t.children) ==> Lookup(t.children, key) == Some(c)
  {
    match Lookup(t.children, key)
    case Some(c) => c
    case None => EmptyInput(NextColor(t.color))
  }

  /** `insert(result, node, depth)` with the continuation as move keys and the
      new child's parent set to the node itself (the evident intent of line 50). */
  function InsertInput(t: InputTree, moves: seq<string>, depth: int, threshold: int): (r: InputTree)
    requires |moves| > 0
    ensures r.color == t.color && r.count == t.count + 1
    decreases |moves|
  {
    var key := moves[0];
    var i := IndexOf(t.children, key);
    var kids := if i < |t.children| then t.children else t.children + [(key, EmptyInput(NextColor(t.color)))];
    var c := kids[i].1;
    var c' := if |moves| > 1 && depth <= threshold then InsertInput(c, moves[1..], depth + 1, threshold) else c;
    InputTree(t.color, t.count + 1, kids[i := (key, c')])
  }

  /** The child as `insert` leaves it. */
  function NewInputChild(t: InputTree, moves: seq<string>, depth: int, threshold: int): (c: InputTree)
    requires |moves| > 0
    ensures c.count == InputChildFor(t, moves[0]).count + (if |moves| > 1 && depth <= threshold then 1 else 0)
  {
    if |moves| > 1 && depth <= threshold
    then InsertInput(InputChildFor(t, moves[0]), moves[1..], depth + 1, threshold)
    else InputChildFor(t, moves[0])
  }

  /** `insert` adds one to the count and assigns the move's child, descending
      into it only when the move has a continuation and `depth <= threshold`. */
  lemma InsertInputAssigns(t: InputTree, moves: seq<string>, depth: int, threshold: int)
    requires |moves| > 0
    ensures InsertInput(t, moves, depth, threshold) ==
              InputTree(t.color, t.count + 1, Assign(t.children, moves[0], NewInputChild(t, moves, depth, threshold)))
  {
    var key := moves[0];
    var i := IndexOf(t.children, key);
    if i == |t.children| {
      var c' := NewInputChild(t, moves, depth, threshold);
      assert (t.children + [(key, EmptyInput(NextColor(t.color)))])[i := (key, c')] == t.children + [(key, c')];
    }
  }

  /** `insert` never removes or replaces a child: the moves keep their order,
      a new move is added last with a child of the other colour, the move's
      child gains a count only when `insert` descends, and every other move
      keeps its child unchanged. */
  lemma InsertInputKeepsChildren(t: InputTree, moves: seq<string>, depth: int, threshold: int)
    requires |moves| > 0
    ensures var r := InsertInput(t, moves, depth, threshold);
      && Keys(r.children) == (if moves[0] in Keys(t.children) then Keys(t.children) else Keys(t.children) + [moves[0]])
      && (forall k :: k != moves[0] ==> Lookup(r.children, k) == Lookup(t.children, k))
      && Lookup(r.children, moves[0]).Some?
      && Lookup(r.children, moves[0]).value.count ==
           InputChildFor(t, moves[0]).count + (if |moves| > 1 && depth <= threshold then 1 else 0)
      && (moves[0] !in Keys(t.children) ==> Lookup(r.children, moves[0]).value.color == NextColor(t.color))
  {
    InsertInputAssigns(t, moves, depth, threshold);
  }

  /** `insert` as the three steps the method takes: count the game, create
      the child if the move is new, and pass the rest of the game to the child
      when `insert` descends. */
  lemma InsertInputByParts(was: InputTree, counted: InputTree, present: InputTree, done: InputTree,
                           moves: seq<string>, i: nat, depth: int, threshold: int)
    requires |moves| > 0 && i == IndexOf(was.children, moves[0])
    requires counted == was.(count := was.count + 1)
    requires present == if i < |was.children| then counted
                        else counted.(children := counted.children + [(moves[0], EmptyInput(NextColor(counted.color)))])
    requires i < |present.children|
    requires done == if |moves| > 1 && depth <= threshold
                     then present.(children := present.children[i :=
                            (present.children[i].0, InsertInput(present.children[i].1, moves[1..], depth + 1, threshold))])
                     else present
    ensures done == InsertInput(was, moves, depth, threshold)
  {
    assert present.children[i].0 == moves[0];
    assert !(|moves| > 1 && depth <= threshold) ==> present.children[i := (moves[0], present.children[i].1)] == present.children;
  }

  // ---------------------------------------------------------------------------
  // `insert` as written at src/mix_tree.py:50

  /** `insert` exactly as written: the constructor call passes two arguments
      where `InputNode.__init__` takes three, so creating a child raises
      `TypeError` (after the count has already been incremented). */
  function InsertInputAsWritten(t: InputTree, moves: seq<string>, depth: int, threshold: int): (r: Result<InputTree, string>)
    requires |moves| > 0
    ensures r.Success? ==> r.value.color == t.color && r.value.count == t.count + 1
    decreases |moves|
  {
    var key := moves[0];
    var i := IndexOf(t.children, key);
    if i == |t.children| then Failure("TypeError")
    else if |moves| > 1 && depth <= threshold then
      match InsertInputAsWritten(t.children[i].1, moves[1..], depth + 1, threshold)
      case Failure(e) => Failure(e)
      case Success(c') => Success(InputTree(t.color, t.count + 1, t.children[i := (key, c')]))
    else Success(InputTree(t.color, t.count + 1, t.children))
  }

  /** As written, a node without children can never take a game: every
      `insert` into it raises, so a fresh root stays empty forever. */
  lemma InsertAsWrittenFails(color: Color, moves: seq<string>, depth: int, threshold: int)
    requires |moves| > 0
    ensures InsertInputAsWritten(EmptyInput(color), moves, depth, threshold).Failure?
    ensures InsertInput(EmptyInput(color), moves, depth, threshold).children != []
  {
    assert IndexOf(EmptyInput(color).children, moves[0]) == 0;
  }

  /** Where it does not raise, the code as written agrees with the corrected `insert`. */
  lemma {:induction false} InsertAsWrittenAgrees(t: InputTree, moves: seq<string>, depth: int, threshold: int)
    requires |moves| > 0
    ensures InsertInputAsWritten(t, moves, depth, threshold).Success? ==>
              InsertInputAsWritten(t, moves, depth, threshold).value == InsertInput(t, moves, depth, threshold)
    decreases |moves|
  {
    var i := IndexOf(t.children, moves[0]);
    if i < |t.children| {
      if |moves| > 1 && depth <= threshold {
        InsertAsWrittenAgrees(t.children[i].1, moves[1..], depth + 1, threshold);
      } else {
        assert t.children[i := (moves[0], t.children[i].1)] == t.children;
      }
    }
  }

  // ---------------------------------------------------------------------------
  // The mutable, parent-linked node

  /** `InputNode`: `count` and `children` change in place; `parent` (the
      source's `root`) is fixed at construction. `depth` counts the parent hops
      to the root, `Model` is the value of the subtree and `Repr` its objects. */
  class InputNode {
    var count: int
    var children: seq<(string, InputNode)>
    const color: Color
    const parent: InputNode?
    const values: MixValues
    ghost const depth: nat
    ghost var Model: InputTree
    ghost var Repr: set<object>

    /** Each parent is one hop closer to the root. */
    ghost predicate Chained()
      decreases depth
    {
      if parent == null then depth == 0 else parent.depth + 1 == depth && parent.Chained()
    }

    /** The ancestors above the node. */
    ghost function Above(): (s: set<InputNode>)
      requires Chained()
      decreases depth
    {
      if parent == null then {} else {parent} + parent.Above()
    }

    /** Every node on the way up is one of its parent's children. */
    ghost predicate Linked()
      requires Chained()
      reads Above()
      decreases depth
    {
      parent == null || (Holds(parent.children, this) && parent.Linked())
    }

    /** The node below this one, the subtree's value in `Model`, and nothing
        shared between siblings. */
    ghost predicate Valid()
      reads this, Repr
      decreases Repr, 1
    {
      && this in Repr && Chained()
      && Model.color == color && Model.count == count
      && |Model.children| == |children|
      && (forall i :: 0 <= i < |children| ==> children[i].1 in Repr && Owns(i))
      && (forall i, j :: 0 <= i < j < |children| ==> children[i].1.Repr !! children[j].1.Repr)
    }

    /** Child `i` is a valid node inside this node's footprint whose parent is
        this node, and `Model` holds its value. */
    ghost predicate Owns(i: int)
      requires 0 <= i < |children| && |Model.children| == |children|
      reads this, Repr
      decreases Repr, 0
    {
      && this in Repr
      && children[i].1 in Repr && children[i].1 in children[i].1.Repr
      && children[i].1.Repr <= Repr && this !in children[i].1.Repr
      && children[i].1.parent == this && children[i].1.values == values
      && children[i].1.Valid()
      && Model.children[i] == (children[i].0, children[i].1.Model)
    }

    /** `InputNode(color, root, values)`. */
    constructor (color: Color, parent: InputNode?, values: MixValues)
      requires parent != null ==> parent.Chained()
      ensures Valid() && fresh(Repr) && Chained()
      ensures this.color == color && this.parent == parent && this.values == values
      ensures Model == EmptyInput(color)
    {
      count, children := 0, [];
      this.color, this.parent, this.values := color, parent, values;
      depth := if parent == null then 0 else parent.depth + 1;
      Model := EmptyInput(color);
      Repr := {this};
    }

    /** `insert(result, node, depth)` with the continuation as move keys; the
        result is not used. The subtree ends up holding `InsertInput` of what
        it held before. */
    method Insert(moves: seq<string>, level: int)
      requires Valid() && |moves| > 0
      modifies Repr
      ensures Valid() && fresh(Repr - old(Repr))
      ensures Model == InsertInput(old(Model), moves, level, values.threshold)
      decreases |moves|, 1
    {
      ghost var was := Model;
      Count();
      ghost var counted := Model;
      var key := moves[0];
      SameIndex(key);
      var i := IndexOf(children, key);
      if i == |children| {
        AddChild(key);
      }
      ghost var present := Model;
      if |moves| > 1 && level <= values.threshold {
        Descend(i, moves[1..], level + 1);
      }
      InsertInputByParts(was, counted, present, Model, moves, i, level, values.threshold);
    }

    /** A move sits at the same position among the children and in `Model`. */
    lemma SameIndex(key: string)
      requires Valid()
      ensures IndexOf(children, key) == IndexOf(Model.children, key)
    {
      assert forall j :: 0 <= j < |children| ==> Owns(j) && Keys(children)[j] == Keys(Model.children)[j];
      IndexOfSameKeys(children, Model.children, key);
    }

    /** `self.count += 1`. */
    method Count()
      requires Valid()
      modifies this
      ensures Valid() && Repr == old(Repr) && children == old(children)
      ensures Model == old(Model).(count := old(Model.count) + 1)
    {
      count := count + 1;
      Model := Model.(count := count);
    }

    /** `self.children[move] = InputNode(next_color(self.color), self, self.values)` for a new move. */
    method AddChild(key: string)
      requires Valid()
      modifies this
      ensures Valid() && fresh(Repr - old(Repr))
      ensures Model == old(Model).(children := old(Model.children) + [(key, EmptyInput(NextColor(color)))])
      ensures children[..|old(children)|] == old(children)
      ensures |children| == |old(children)| + 1 && children[|old(children)|].0 == key
      ensures children[|old(children)|].1.parent == this && fresh(children[|old(children)|].1)
      ensures forall a :: 0 <= a < |old(children)| ==> children[a].1 != children[|old(children)|].1
      ensures Chained() ==> children[|old(children)|].1.Chained()
    {
      var c := new InputNode(NextColor(color), this, values);
      children := children + [(key, c)];
      Repr := Repr + c.Repr;
      Model := Model.(children := Model.children + [(key, c.Model)]);
    }

    /** `self.children[move].insert(result, node.variations[0], depth + 1)`. */
    method Descend(i: nat, moves: seq<string>, level: int)
      requires Valid() && i < |children| && |moves| > 0
      modifies Repr
      ensures Valid() && fresh(Repr - old(Repr))
      ensures Model == old(Model).(children := old(Model.children)[i :=
                (old(Model.children)[i].0, InsertInput(old(Model.children)[i].1, moves, level, values.threshold))])
      decreases |moves| + 1, 0
    {
      var c := children[i].1;
      assert Owns(i);
      ghost var before := c.Repr;
      c.Insert(moves, level);
      assert this !in before;
      Repr := Repr + c.Repr;
      Model := Model.(children := Model.children[i := (children[i].0, c.Model)]);
      forall j | 0 <= j < |children|
        ensures children[j].1 in Repr && children[j].1 in children[j].1.Repr && children[j].1.Repr <= Repr
        ensures this !in children[j].1.Repr && children[j].1.parent == this && children[j].1.values == values
        ensures children[j].1.Valid()
        ensures Model.children[j] == (children[j].0, children[j].1.Model)
      {
        if j != i {
          assert old(Owns(j) && children[j].1.Repr !! c.Repr);
        }
      }
      forall a, b | 0 <= a < b < |children| ensures children[a].1.Repr !! children[b].1.Repr {
        assert old(children[a].1.Repr !! children[b].1.Repr);
      }
    }

    /** `path_from_root`: the moves from the root down to this node, one per
        parent hop. */
    ghost function PathFromRoot(): (p: seq<string>)
      requires Chained() && Linked()
      reads Above()
      ensures |p| == depth
    {
      if parent == null then [] else parent.PathTo(this)
    }

    /** `__path_from_root(last)`: the moves from the root down to this node,
        followed by the first move whose child is `last`. */
    ghost function PathTo(last: InputNode): (p: seq<string>)
      requires Chained() && Linked() && Holds(children, last)
      reads {this} + Above()
      ensures |p| == depth + 1 && p[depth] == KeyOf(children, last)
      decreases depth
    {
      (if parent == null then [] else parent.PathTo(this)) + [KeyOf(children, last)]
    }
  }

  /** Whether `n` is one of the nodes in `kids`. */
  ghost predicate Holds(kids: seq<(string, InputNode)>, n: InputNode)
  {
    exists j :: 0 <= j < |kids| && kids[j].1 == n
  }

  /** `next(move for move, node in children.items() if node == last)`: the first
      move whose child is `last` (nodes compare by identity). */
  function KeyOf(kids: seq<(string, InputNode)>, last: InputNode): (k: string)
    requires exists j :: 0 <= j < |kids| && kids[j].1 == last
    ensures exists j :: 0 <= j < |kids| && kids[j] == (k, last) && forall a :: 0 <= a < j ==> kids[a].1 != last
    decreases |kids|
  {
    if kids[0].1 == last then kids[0].0
    else
      var k := KeyOf(kids[1..], last);
      assert exists j :: 0 <= j < |kids| && kids[j] == (k, last) && forall a :: 0 <= a < j ==> kids[a].1 != last by {
        var j :| 0 <= j < |kids| - 1 && kids[1..][j] == (k, last) && forall a :: 0 <= a < j ==> kids[1..][a].1 != last;
        assert kids[j + 1] == (k, last);
        assert forall a :: 0 <= a < j + 1 ==> kids[a].1 != last by {
          forall a | 0 <= a < j + 1 ensures kids[a].1 != last {
            if a > 0 {
              assert kids[a] == kids[1..][a - 1];
            }
          }
        }
      }
      k
  }

  /** A node is not among its own ancestors. */
  lemma {:induction false} NotAbove(n: InputNode)
    requires n.Chained()
    ensures forall a :: a in n.Above() ==> a.depth < n.depth
    ensures n !in n.Above()
    decreases n.depth
  {
    if n.parent != null {
      NotAbove(n.parent);
    }
  }

  /** The root's path is empty. */
  lemma RootPath(n: InputNode)
    requires n.Chained() && n.Linked() && n.parent == null
    ensures n.PathFromRoot() == []
  {
  }

  /** A child sitting under move `k` of its parent, and under no earlier move,
      has its parent's path followed by `k`. */
  lemma ChildPath(p: InputNode, c: InputNode, j: nat)
    requires c.Chained() && c.Linked() && c.parent == p
    requires j < |p.children| && p.children[j].1 == c
    requires forall a :: 0 <= a < j ==> p.children[a].1 != c
    ensures p.Chained() && p.Linked()
    ensures c.PathFromRoot() == p.PathFromRoot() + [p.children[j].0]
  {
    KeyOfAt(p.children, c, j);
  }

  /** A node created under move `k` of a linked parent, and under no earlier
      move, is linked too and extends its parent's path by `k`. */
  lemma LinkedChild(p: InputNode, j: nat)
    requires p.Chained() && p.Linked()
    requires j < |p.children| && p.children[j].1.parent == p && p.children[j].1.Chained()
    requires forall a :: 0 <= a < j ==> p.children[a].1 != p.children[j].1
    ensures p.children[j].1.Linked()
    ensures p.children[j].1.PathFromRoot() == p.PathFromRoot() + [p.children[j].0]
  {
    var c := p.children[j].1;
    assert Holds(p.children, c) by { assert p.children[j].1 == c; }
    ChildPath(p, c, j);
  }

  /** The move `KeyOf` finds is the one at the first position holding the node. */
  lemma KeyOfAt(kids: seq<(string, InputNode)>, last: InputNode, j: nat)
    requires j < |kids| && kids[j].1 == last && forall a :: 0 <= a < j ==> kids[a].1 != last
    ensures KeyOf(kids, last) == kids[j].0
  {
    var k := KeyOf(kids, last);
    var j' :| 0 <= j' < |kids| && kids[j'] == (k, last) && forall a :: 0 <= a < j' ==> kids[a].1 != last;
    assert kids[j].1 == last && kids[j'].1 == last;
  }

  // ---------------------------------------------------------------------------
  // Serialization

  /** Whether a child gets an entry of its own: it has children and more than `cut_off` games. */
  predicate KeptInput(c: InputTree, values: MixValues)
  {
    |c.children| > 0 && c.count > values.cutOff
  }

  /** `__to_dict(best)` for the node at move path `path`, with `oracle` giving
      the engine's best move for a path (`get_best_for_node` on the child, whose
      `path_from_root` is its parent's path followed by its move, as
      `ChildPath` shows): `best`, then each kept child serialized. */
  function MixToDict(t: InputTree, path: seq<string>, best: string, values: MixValues, oracle: seq<string> -> string): (r: Json)
    ensures r.Obj?
    decreases t, 1
  {
    Obj(FromPairs([("best", Str(best))] + MixChildDicts(t, path, values, oracle, 0)))
  }

  /** `children_dicts` from position `i` on. */
  function MixChildDicts(t: InputTree, path: seq<string>, values: MixValues, oracle: seq<string> -> string, i: nat): (ds: Dict<Json>)
    requires i <= |t.children|
    decreases t, 0, |t.children| - i
  {
    if i == |t.children| then []
    else
      var (k, c) := t.children[i];
      var rest := MixChildDicts(t, path, values, oracle, i + 1);
      if KeptInput(c, values) then [(k, MixToDict(c, path + [k], oracle(path + [k]), values, oracle))] + rest
      else rest
  }

  /** The entry child `i` contributes. */
  function MixEntry(t: InputTree, path: seq<string>, values: MixValues, oracle: seq<string> -> string, i: nat): (e: Dict<Json>)
    requires i < |t.children|
    ensures |e| <= 1
    ensures KeptInput(t.children[i].1, values) <==> |e| == 1
  {
    if KeptInput(t.children[i].1, values)
    then [(t.children[i].0, MixToDict(t.children[i].1, path + [t.children[i].0], oracle(path + [t.children[i].0]), values, oracle))]
    else []
  }

  lemma MixChildDictsStep(t: InputTree, path: seq<string>, values: MixValues, oracle: seq<string> -> string, i: nat)
    requires i < |t.children|
    ensures MixChildDicts(t, path, values, oracle, i) == MixEntry(t, path, values, oracle, i) + MixChildDicts(t, path, values, oracle, i + 1)
  {
  }

  /** The serialized children from `i` on have unique keys, exactly the moves
      of the kept children from `i` on. */
  lemma {:induction false} MixChildDictsKeys(t: InputTree, path: seq<string>, values: MixValues, oracle: seq<string> -> string, i: nat, k: string)
    requires i <= |t.children| && UniqueKeys(t.children)
    ensures UniqueKeys(MixChildDicts(t, path, values, oracle, i))
    ensures k in Keys(MixChildDicts(t, path, values, oracle, i)) <==>
              exists j :: i <= j < |t.children| && t.children[j].0 == k && KeptInput(t.children[j].1, values)
    decreases |t.children| - i
  {
    if i < |t.children| {
      MixChildDictsKeys(t, path, values, oracle, i + 1, k);
      MixChildDictsKeys(t, path, values, oracle, i + 1, t.children[i].0);
      MixKeysStep(t, path, values, oracle, i, k);
    }
  }

  /** One step of `MixChildDictsKeys`. */
  lemma MixKeysStep(t: InputTree, path: seq<string>, values: MixValues, oracle: seq<string> -> string, i: nat, k: string)
    requires i < |t.children| && UniqueKeys(t.children)
    requires UniqueKeys(MixChildDicts(t, path, values, oracle, i + 1))
    requires k in Keys(MixChildDicts(t, path, values, oracle, i + 1)) <==>
               exists j :: i + 1 <= j < |t.children| && t.children[j].0 == k && KeptInput(t.children[j].1, values)
    requires t.children[i].0 in Keys(MixChildDicts(t, path, values, oracle, i + 1)) ==>
               exists j :: i + 1 <= j < |t.children| && t.children[j].0 == t.children[i].0
    ensures UniqueKeys(MixChildDicts(t, path, values, oracle, i))
    ensures k in Keys(MixChildDicts(t, path, values, oracle, i)) <==>
              exists j :: i <= j < |t.children| && t.children[j].0 == k && KeptInput(t.children[j].1, values)
  {
    var e := MixEntry(t, path, values, oracle, i);
    var rest := MixChildDicts(t, path, values, oracle, i + 1);
    MixChildDictsStep(t, path, values, oracle, i);
    KeysAppend(e, rest);
    assert Keys(e) == if KeptInput(t.children[i].1, values) then [t.children[i].0] else [];
    UniqueKeysAppend(e, rest);
    var here := KeptInput(t.children[i].1, values) && t.children[i].0 == k;
    assert k in Keys(MixChildDicts(t, path, values, oracle, i)) <==> here || k in Keys(rest);
    MixLaterOrHere(t, values, i, k);
  }

  /** A kept child with move `k` from `i` on is either child `i` or a later one. */
  lemma MixLaterOrHere(t: InputTree, values: MixValues, i: nat, k: string)
    requires i < |t.children|
    ensures (exists j :: i <= j < |t.children| && t.children[j].0 == k && KeptInput(t.children[j].1, values)) <==>
              (KeptInput(t.children[i].1, values) && t.children[i].0 == k) ||
              exists j :: i + 1 <= j < |t.children| && t.children[j].0 == k && KeptInput(t.children[j].1, values)
  {
    if exists j :: i <= j < |t.children| && t.children[j].0 == k && KeptInput(t.children[j].1, values) {
      var j :| i <= j < |t.children| && t.children[j].0 == k && KeptInput(t.children[j].1, values);
      if j > i {
        assert i + 1 <= j;
      }
    }
  }

  /** The entry for the move of child `j` is that child serialized at the
      extended path with the oracle's move for it, when the child is kept. */
  lemma {:induction false} MixChildDictsLookup(t: InputTree, path: seq<string>, values: MixValues, oracle: seq<string> -> string, i: nat, j: nat)
    requires i <= j < |t.children| && UniqueKeys(t.children)
    ensures Lookup(MixChildDicts(t, path, values, oracle, i), t.children[j].0) ==
              if KeptInput(t.children[j].1, values)
              then Some(MixToDict(t.children[j].1, path + [t.children[j].0], oracle(path + [t.children[j].0]), values, oracle))
              else None
    decreases |t.children| - i
  {
    if i < j {
      MixChildDictsLookup(t, path, values, oracle, i + 1, j);
      MixLookupPast(t, path, values, oracle, i, j);
    } else {
      MixLookupHere(t, path, values, oracle, i);
    }
  }

  /** The entry for the move of child `i` itself. */
  lemma MixLookupHere(t: InputTree, path: seq<string>, values: MixValues, oracle: seq<string> -> string, i: nat)
    requires i < |t.children| && UniqueKeys(t.children)
    ensures Lookup(MixChildDicts(t, path, values, oracle, i), t.children[i].0) ==
              if KeptInput(t.children[i].1, values)
              then Some(MixToDict(t.children[i].1, path + [t.children[i].0], oracle(path + [t.children[i].0]), values, oracle))
              else None
  {
    var k := t.children[i].0;
    MixChildDictsStep(t, path, values, oracle, i);
    LookupAppend(MixEntry(t, path, values, oracle, i), MixChildDicts(t, path, values, oracle, i + 1), k);
    MixChildDictsKeys(t, path, values, oracle, i + 1, k);
  }

  /** The entry for a later child's move does not depend on child `i`. */
  lemma MixLookupPast(t: InputTree, path: seq<string>, values: MixValues, oracle: seq<string> -> string, i: nat, j: nat)
    requires i < j < |t.children| && UniqueKeys(t.children)
    ensures Lookup(MixChildDicts(t, path, values, oracle, i), t.children[j].0) ==
              Lookup(MixChildDicts(t, path, values, oracle, i + 1), t.children[j].0)
  {
    MixChildDictsStep(t, path, values, oracle, i);
    LookupAppend(MixEntry(t, path, values, oracle, i), MixChildDicts(t, path, values, oracle, i + 1), t.children[j].0);
  }

  /** No move key is `best`. Moves are UCI strings. */
  predicate NoBestMove(t: InputTree)
  {
    forall j :: 0 <= j < |t.children| ==> t.children[j].0 != "best"
  }

  /** `__to_dict(best)` lists `best`, then one entry per child that has
      children and more than `cut_off` games, under its move, and nothing
      else; each such entry is the child's own serialization with the
      oracle's move for the child's path. */
  lemma MixToDictShape(t: InputTree, path: seq<string>, best: string, values: MixValues, oracle: seq<string> -> string)
    requires UniqueKeys(t.children) && NoBestMove(t)
    ensures var d := MixToDict(t, path, best, values, oracle).fields;
      && UniqueKeys(d)
      && Lookup(d, "best") == Some(Str(best))
      && (forall k :: k in Keys(d) <==>
            k == "best" || exists j :: 0 <= j < |t.children| && t.children[j].0 == k && KeptInput(t.children[j].1, values))
  {
    var cd := MixChildDicts(t, path, values, oracle, 0);
    MixChildDictsKeys(t, path, values, oracle, 0, "best");
    UniqueKeysAppend([("best", Str(best))], cd);
    FromPairsUnique([("best", Str(best))] + cd);
    forall k ensures k in Keys([("best", Str(best))] + cd) <==>
        k == "best" || exists j :: 0 <= j < |t.children| && t.children[j].0 == k && KeptInput(t.children[j].1, values)
    {
      KeysAppend([("best", Str(best))], cd);
      MixChildDictsKeys(t, path, values, oracle, 0, k);
    }
  }

  /** Each kept child's entry in `__to_dict(best)`. */
  lemma MixToDictChild(t: InputTree, path: seq<string>, best: string, values: MixValues, oracle: seq<string> -> string, j: nat)
    requires UniqueKeys(t.children) && NoBestMove(t) && j < |t.children|
    ensures Lookup(MixToDict(t, path, best, values, oracle).fields, t.children[j].0) ==
              if KeptInput(t.children[j].1, values)
              then Some(MixToDict(t.children[j].1, path + [t.children[j].0], oracle(path + [t.children[j].0]), values, oracle))
              else None
  {
    var h := [("best", Str(best))];
    var cd := MixChildDicts(t, path, values, oracle, 0);
    MixChildDictsKeys(t, path, values, oracle, 0, "best");
    UniqueKeysAppend(h, cd);
    FromPairsUnique(h + cd);
    LookupAppend(h, cd, t.children[j].0);
    MixChildDictsLookup(t, path, values, oracle, 0, j);
  }
}
