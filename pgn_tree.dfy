/** The statistics tree of the PGN-only mode (src/pgn_tree.py): a tree of moves
    whose nodes count the games that passed through them and add up their
    results, and its serialization into a nested `best`/children mapping. */
module PgnTree {
  import opened Wrappers
  import opened Dicts
  import opened Core
  import Config

  /** `PgnValues`: the three thresholds and the debug switch shared by every node. */
  datatype PgnValues = PgnValues(nodeCutOff: int, evalCutOff: int, maxDepth: int, debug: bool)

  /** `PgnValues(ctx)`. The option keys carry a leading '-', so the flags read are
      `---node_cut_off`, `---eval_cut_off` and `---max_depth`; `convert` stands
      for the `int(...)` conversion `type(default)` performs. */
  function ValuesOf(ctx: Config.Context, convert: string -> int): (v: PgnValues)
    ensures v.debug <==> "--debug" in Keys(ctx.flags)
    ensures Config.GetValueOrExit(ctx, "-node_cut_off").Success? ==>
              v.nodeCutOff == convert(Config.GetValueOrExit(ctx, "-node_cut_off").value)
    ensures Config.GetValueOrExit(ctx, "-node_cut_off").Failure? ==> v.nodeCutOff == 500
    ensures Config.GetValueOrExit(ctx, "-eval_cut_off").Success? ==>
              v.evalCutOff == convert(Config.GetValueOrExit(ctx, "-eval_cut_off").value)
    ensures Config.GetValueOrExit(ctx, "-eval_cut_off").Failure? ==> v.evalCutOff == 10
    ensures Config.GetValueOrExit(ctx, "-max_depth").Success? ==>
              v.maxDepth == convert(Config.GetValueOrExit(ctx, "-max_depth").value)
    ensures Config.GetValueOrExit(ctx, "-max_depth").Failure? ==> v.maxDepth == 5
  {
    PgnValues(
      Config.GetValueOrDefault(ctx, "-node_cut_off", 500, convert),
      Config.GetValueOrDefault(ctx, "-eval_cut_off", 10, convert),
      Config.GetValueOrDefault(ctx, "-max_depth", 5, convert),
      "--debug" in Keys(ctx.flags))
  }

  /** The values read from a command line: `debug` is set by a `--debug` token,
      and each threshold keeps its default when its flag is not among the tokens. */
  lemma ValuesOfTokens(tokens: seq<string>, convert: string -> int)
    ensures ValuesOf(Config.Parse(tokens), convert).debug <==> "--debug" in tokens
    ensures "---node_cut_off" !in tokens ==> ValuesOf(Config.Parse(tokens), convert).nodeCutOff == 500
    ensures "---eval_cut_off" !in tokens ==> ValuesOf(Config.Parse(tokens), convert).evalCutOff == 10
    ensures "---max_depth" !in tokens ==> ValuesOf(Config.Parse(tokens), convert).maxDepth == 5
  {
    var ctx := Config.Parse(tokens);
    DebugToken(tokens);
    DefaultWithoutFlag(tokens, "-node_cut_off", 500, convert);
    DefaultWithoutFlag(tokens, "-eval_cut_off", 10, convert);
    DefaultWithoutFlag(tokens, "-max_depth", 5, convert);
    FlagNames();
  }

  /** The flags the option names stand for. */
  lemma FlagNames()
    ensures "--" + "-node_cut_off" == "---node_cut_off"
    ensures "--" + "-eval_cut_off" == "---eval_cut_off"
    ensures "--" + "-max_depth" == "---max_depth"
  {
  }

  /** `--debug` is among the parsed flags exactly when it is among the tokens. */
  lemma DebugToken(tokens: seq<string>)
    ensures "--debug" in Keys(Config.Parse(tokens).flags) <==> "--debug" in tokens
  {
    Config.ParseHasFlag(tokens, "debug");
    assert Config.KeyToFlag("debug") == "--debug";
  }

  /** An option whose flag `--key` is not among the tokens reads as its default. */
  lemma DefaultWithoutFlag(tokens: seq<string>, key: string, default: int, convert: string -> int)
    ensures "--" + key !in tokens ==> Config.GetValueOrDefault(Config.Parse(tokens), key, default, convert) == default
  {
    if "--" + key !in tokens {
      Config.ParseMissingValue(tokens, key, default, convert);
    }
  }

  /** The value a `PgnNode` holds: its colour, `score`, `count` and its children
      in insertion order, keyed by move. */
  datatype Tree = Tree(color: Color, score: int, count: int, children: Dict<Tree>)

  /** A freshly constructed node. */
  function Empty(color: Color): (t: Tree)
    ensures t.color == color && t.score == 0 && t.count == 0 && t.children == []
  {
    Tree(color, 0, 0, [])
  }

  /** `insert(result, node, depth)` with the game continuation given as the
      remaining move keys `moves` (`moves[0]` is `node.move.uci()`, and
      `|moves| > 1` stands for `node.variations` being non-empty). */
  function InsertTree(t: Tree, result: int, moves: seq<string>, depth: int, maxDepth: int): (r: Tree)
    requires |moves| > 0
    ensures r.color == t.color && r.score == t.score + result && r.count == t.count + 1
    decreases |moves|
  {
    var key := moves[0];
    var i := IndexOf(t.children, key);
    var kids := if i < |t.children| then t.children else t.children + [(key, Empty(NextColor(t.color)))];
    var c := kids[i].1;
    var c' := if |moves| > 1 && depth <= maxDepth then InsertTree(c, result, moves[1..], depth + 1, maxDepth) else c;
    Tree(t.color, t.score + result, t.count + 1, kids[i := (key, c')])
  }

  /** The child `insert` works on for `key`: the existing one, or a new empty node of the other colour. */
  function ChildFor(t: Tree, key: string): (c: Tree)
    ensures key !in Keys(t.children) ==> c == Empty(NextColor(t.color))
    ensures key in Keys(t.children) ==> Lookup(t.children, key) == Some(c)
  {
    match Lookup(t.children, key)
    case Some(c) => c
    case None => Empty(NextColor(t.color))
  }

  /** Whether `insert` passes the rest of the game on to the child. */
  predicate Descends(moves: seq<string>, depth: int, maxDepth: int)
  {
    |moves| > 1 && depth <= maxDepth
  }

  /** The child as `insert` leaves it: the rest of the game is inserted into it
      exactly when `insert` descends. */
  function NewChild(t: Tree, result: int, moves: seq<string>, depth: int, maxDepth: int): (c: Tree)
    requires |moves| > 0
    ensures c.color == NextColor(t.color) || moves[0] in Keys(t.children)
  {
    if Descends(moves, depth, maxDepth)
    then InsertTree(ChildFor(t, moves[0]), result, moves[1..], depth + 1, maxDepth)
    else ChildFor(t, moves[0])
  }

  /** `insert` adds the result to the score and one to the count, and updates
      the children as the dict assignment `children[move] = child` would: an
      existing move keeps its place, a new one goes last, and no other child is
      touched. */
  lemma InsertAssigns(t: Tree, result: int, moves: seq<string>, depth: int, maxDepth: int)
    requires |moves| > 0
    ensures InsertTree(t, result, moves, depth, maxDepth) ==
              Tree(t.color, t.score + result, t.count + 1,
                   Assign(t.children, moves[0], NewChild(t, result, moves, depth, maxDepth)))
  {
    var key := moves[0];
    var i := IndexOf(t.children, key);
    var c' := NewChild(t, result, moves, depth, maxDepth);
    if i == |t.children| {
      SetLast(t.children, (key, Empty(NextColor(t.color))), (key, c'));
    }
  }

  /** After `insert` the move has a child, and it is the one `NewChild` describes. */
  lemma InsertChild(t: Tree, result: int, moves: seq<string>, depth: int, maxDepth: int)
    requires |moves| > 0
    ensures Lookup(InsertTree(t, result, moves, depth, maxDepth).children, moves[0]) ==
              Some(NewChild(t, result, moves, depth, maxDepth))
  {
    InsertAssigns(t, result, moves, depth, maxDepth);
  }

  /** `insert` never removes or replaces a child: the moves keep their order,
      a new move is added last with a child of the other colour, and every
      other move keeps its child unchanged. */
  lemma InsertKeepsChildren(t: Tree, result: int, moves: seq<string>, depth: int, maxDepth: int)
    requires |moves| > 0
    ensures var r := InsertTree(t, result, moves, depth, maxDepth);
      && Keys(r.children) == (if moves[0] in Keys(t.children) then Keys(t.children) else Keys(t.children) + [moves[0]])
      && (forall k :: k != moves[0] ==> Lookup(r.children, k) == Lookup(t.children, k))
      && (moves[0] !in Keys(t.children) ==> Lookup(r.children, moves[0]).value.color == NextColor(t.color))
  {
    InsertAssigns(t, result, moves, depth, maxDepth);
    InsertChild(t, result, moves, depth, maxDepth);
  }

  /** `eval`: the average result, 0 for a node no game was counted in. */
  function Eval(t: Tree): (e: real)
    ensures t.count == 0 ==> e == 0.0
    ensures t.count > 0 ==> e * t.count as real == t.score as real
  {
    if t.count == 0 then 0.0 else t.score as real / t.count as real
  }

  /** The average lies between -1 and 1 when the score is bounded by the count,
      and multiplies back to the score. */
  lemma EvalBounded(t: Tree)
    requires -t.count <= t.score <= t.count
    ensures -1.0 <= Eval(t) <= 1.0
    ensures Eval(t) * t.count as real == t.score as real
    ensures t.count == 0 ==> Eval(t) == 0.0
  {
    if t.count > 0 {
      var n, e := t.count as real, Eval(t);
      assert e * n == t.score as real;
      assert (e - 1.0) * n <= 0.0 && (e + 1.0) * n >= 0.0;
    }
  }

  // ---------------------------------------------------------------------------
  // Invariants kept by `insert`

  /** Sum of the children's counts. */
  function SumCounts(kids: Dict<Tree>): int
  {
    if kids == [] then 0 else SumCounts(kids[..|kids| - 1]) + kids[|kids| - 1].1.count
  }

  /** Every node has unique move keys, children of the other colour, a score
      bounded by its count, and at least as many games as its children together. */
  predicate WellFormed(t: Tree)
    decreases t
  {
    && UniqueKeys(t.children)
    && -t.count <= t.score <= t.count
    && SumCounts(t.children) <= t.count
    && (forall i :: 0 <= i < |t.children| ==>
          t.children[i].1.color == NextColor(t.color) && WellFormed(t.children[i].1))
  }

  /** Sum of the counts after replacing one child. */
  lemma {:induction false} SumCountsUpdate(kids: Dict<Tree>, i: nat, x: (string, Tree))
    requires i < |kids|
    ensures SumCounts(kids[i := x]) == SumCounts(kids) - kids[i].1.count + x.1.count
    decreases |kids|
  {
    var n := |kids| - 1;
    if i < n {
      SumCountsUpdate(kids[..n], i, x);
      assert kids[i := x][..n] == kids[..n][i := x];
    } else {
      assert kids[i := x][..n] == kids[..n];
    }
  }

  /** Sum of the counts after adding a child at the end. */
  lemma SumCountsAppend(kids: Dict<Tree>, x: (string, Tree))
    ensures SumCounts(kids + [x]) == SumCounts(kids) + x.1.count
  {
    assert (kids + [x])[..|kids|] == kids;
  }

  /** Sum of the counts after a dict assignment. */
  lemma SumCountsAssign(kids: Dict<Tree>, k: string, v: Tree)
    ensures SumCounts(Assign(kids, k, v)) ==
              SumCounts(kids) - (if k in Keys(kids) then Lookup(kids, k).value.count else 0) + v.count
  {
    var i := IndexOf(kids, k);
    if i < |kids| {
      SumCountsUpdate(kids, i, (k, v));
    } else {
      SumCountsAppend(kids, (k, v));
    }
  }

  /** The child `insert` works on is well formed and of the other colour. */
  lemma ChildForWellFormed(t: Tree, key: string)
    requires WellFormed(t)
    ensures WellFormed(ChildFor(t, key)) && ChildFor(t, key).color == NextColor(t.color)
  {
    var i := IndexOf(t.children, key);
    if i == |t.children| {
      assert ChildFor(t, key) == Empty(NextColor(t.color));
    }
  }

  /** A well-formed node stays well formed when one child is assigned a
      well-formed node of the other colour and the counters still bound it. */
  lemma WellFormedAssign(t: Tree, key: string, c: Tree, score: int, count: int)
    requires WellFormed(t) && WellFormed(c) && c.color == NextColor(t.color)
    requires -count <= score <= count
    requires SumCounts(Assign(t.children, key, c)) <= count
    ensures WellFormed(Tree(t.color, score, count, Assign(t.children, key, c)))
  {
    var kids := Assign(t.children, key, c);
    forall j | 0 <= j < |kids|
      ensures kids[j].1.color == NextColor(t.color) && WellFormed(kids[j].1)
    {
      AssignAt(t.children, key, c, j);
    }
  }

  /** With results in {-1, 0, 1}, `insert` keeps every node well formed:
      `|score| <= count`, `count` at least the children's total, unique moves,
      and children of the other colour. */
  lemma {:induction false} InsertPreservesWellFormed(t: Tree, result: int, moves: seq<string>, depth: int, maxDepth: int)
    requires WellFormed(t) && -1 <= result <= 1 && |moves| > 0
    ensures WellFormed(InsertTree(t, result, moves, depth, maxDepth))
    decreases |moves|
  {
    var key := moves[0];
    var c := ChildFor(t, key);
    var c' := NewChild(t, result, moves, depth, maxDepth);
    InsertAssigns(t, result, moves, depth, maxDepth);
    ChildForWellFormed(t, key);
    if Descends(moves, depth, maxDepth) {
      InsertPreservesWellFormed(c, result, moves[1..], depth + 1, maxDepth);
    }
    assert c'.count <= c.count + 1;
    SumCountsAssign(t.children, key, c');
    WellFormedAssign(t, key, c', t.score + result, t.count + 1);
  }

  /** No node more than `maxDepth` moves below the root has been counted or has
      children; `level` is the number of moves from the root to `t`. */
  predicate Shallow(t: Tree, level: nat, maxDepth: int)
    decreases t
  {
    && (level > 0 && level > maxDepth ==> t.count == 0 && t.children == [])
    && (forall i :: 0 <= i < |t.children| ==> Shallow(t.children[i].1, level + 1, maxDepth))
  }

  /** The child `insert` works on is shallow one level down. */
  lemma ChildForShallow(t: Tree, key: string, level: nat, maxDepth: int)
    requires Shallow(t, level, maxDepth)
    ensures Shallow(ChildFor(t, key), level + 1, maxDepth)
  {
    var i := IndexOf(t.children, key);
    if i == |t.children| {
      assert ChildFor(t, key) == Empty(NextColor(t.color));
    }
  }

  /** `insert` called with `depth` one more than the node's level (the root gets
      depth 1) only counts nodes at most `maxDepth` moves deep, and only creates
      nodes one move deeper than that. */
  lemma {:induction false} InsertShallow(t: Tree, result: int, moves: seq<string>, level: nat, maxDepth: int)
    requires |moves| > 0 && Shallow(t, level, maxDepth)
    requires level == 0 || level <= maxDepth
    ensures Shallow(InsertTree(t, result, moves, level + 1, maxDepth), level, maxDepth)
    decreases |moves|, 1
  {
    InsertAssigns(t, result, moves, level + 1, maxDepth);
    NewChildShallow(t, result, moves, level, maxDepth);
    ShallowAssign(t, moves[0], NewChild(t, result, moves, level + 1, maxDepth), level, maxDepth, t.score + result, t.count + 1);
  }

  /** The child `insert` leaves behind is shallow one level down. */
  lemma {:induction false} NewChildShallow(t: Tree, result: int, moves: seq<string>, level: nat, maxDepth: int)
    requires |moves| > 0 && Shallow(t, level, maxDepth)
    ensures Shallow(NewChild(t, result, moves, level + 1, maxDepth), level + 1, maxDepth)
    decreases |moves|, 0
  {
    var c := ChildFor(t, moves[0]);
    ChildForShallow(t, moves[0], level, maxDepth);
    if Descends(moves, level + 1, maxDepth) {
      InsertShallow(c, result, moves[1..], level + 1, maxDepth);
    }
  }

  /** A node within the depth bound stays shallow when one child is assigned a
      node that is shallow one level down. */
  lemma ShallowAssign(t: Tree, key: string, c: Tree, level: nat, maxDepth: int, score: int, count: int)
    requires Shallow(t, level, maxDepth) && Shallow(c, level + 1, maxDepth)
    requires level == 0 || level <= maxDepth
    ensures Shallow(Tree(t.color, score, count, Assign(t.children, key, c)), level, maxDepth)
  {
    var kids := Assign(t.children, key, c);
    forall j | 0 <= j < |kids| ensures Shallow(kids[j].1, level + 1, maxDepth) {
      AssignAt(t.children, key, c, j);
    }
  }

  // ---------------------------------------------------------------------------
  // Serialization

  /** Positions, in dict order, of the children counted in more than `cut`
      games from position `from` on: the filter of the `candidates` comprehension. */
  function Passing(kids: Dict<Tree>, cut: int, from: nat): (ix: seq<nat>)
    requires from <= |kids|
    ensures forall a :: 0 <= a < |ix| ==> from <= ix[a] < |kids| && kids[ix[a]].1.count > cut
    ensures forall a, b :: 0 <= a < b < |ix| ==> ix[a] < ix[b]
    ensures forall i :: from <= i < |kids| && kids[i].1.count > cut ==> i in ix
    decreases |kids| - from
  {
    if from == |kids| then []
    else if kids[from].1.count > cut then [from] + Passing(kids, cut, from + 1)
    else Passing(kids, cut, from + 1)
  }

  /** `candidates`: each child counted in more than `cut` games, as (move, eval), in dict order. */
  function Candidates(t: Tree, cut: int): (cs: seq<(string, real)>)
  {
    var ix := Passing(t.children, cut, 0);
    seq(|ix|, a requires 0 <= a < |ix| => (t.children[ix[a]].0, Eval(t.children[ix[a]].1)))
  }

  /** Whether `v` beats `w`: strictly larger when maximizing, strictly smaller otherwise. */
  predicate Beats(v: real, w: real, maximize: bool)
  {
    if maximize then v > w else v < w
  }

  /** `max(cs, key=itemgetter(1))` (`maximize`) or `min(...)`, as a position:
      the scan keeps the current best unless a later value strictly beats it. */
  function BestOf(cs: seq<(string, real)>, maximize: bool): (b: nat)
    requires |cs| > 0
    ensures b < |cs|
    ensures forall a :: 0 <= a < |cs| ==> !Beats(cs[a].1, cs[b].1, maximize)
    ensures forall a :: 0 <= a < b ==> Beats(cs[b].1, cs[a].1, maximize)
    decreases |cs|
  {
    if |cs| == 1 then 0
    else
      var p := BestOf(cs[..|cs| - 1], maximize);
      if Beats(cs[|cs| - 1].1, cs[p].1, maximize) then |cs| - 1 else p
  }

  /** Whether some child was counted in more than `cut` games. */
  predicate HasCandidate(t: Tree, cut: int)
  {
    exists j :: 0 <= j < |t.children| && t.children[j].1.count > cut
  }

  /** There are candidates exactly when some child passes the cut. */
  lemma CandidatesNonEmpty(t: Tree, cut: int)
    ensures |Candidates(t, cut)| > 0 <==> HasCandidate(t, cut)
  {
    var ix := Passing(t.children, cut, 0);
    if HasCandidate(t, cut) {
      var j :| 0 <= j < |t.children| && t.children[j].1.count > cut;
      assert j in ix;
    }
    if |ix| > 0 {
      assert t.children[ix[0]].1.count > cut;
    }
  }

  /** The position, among the children, of the candidate `max`/`min` picks. */
  function BestChild(t: Tree, cut: int): (i: nat)
    requires |Candidates(t, cut)| > 0
    ensures i < |t.children|
  {
    Passing(t.children, cut, 0)[BestOf(Candidates(t, cut), t.color == White)]
  }

  /** The best candidate compared with one other candidate `j`. */
  lemma BestChildVersus(t: Tree, cut: int, j: nat)
    requires |Candidates(t, cut)| > 0
    requires j < |t.children| && t.children[j].1.count > cut
    ensures !Beats(Eval(t.children[j].1), Eval(t.children[BestChild(t, cut)].1), t.color == White)
    ensures j < BestChild(t, cut) ==>
              Beats(Eval(t.children[BestChild(t, cut)].1), Eval(t.children[j].1), t.color == White)
  {
    var ix := Passing(t.children, cut, 0);
    var cs := Candidates(t, cut);
    var b := BestOf(cs, t.color == White);
    var a := PassingIndex(t.children, cut, j);
    assert cs[a].1 == Eval(t.children[j].1);
    assert cs[b].1 == Eval(t.children[ix[b]].1);
    if j < ix[b] {
      PassingOrder(t.children, cut, a, b);
    }
  }

  /** Every child passing the cut has a position among the candidates. */
  lemma PassingIndex(kids: Dict<Tree>, cut: int, j: nat) returns (a: nat)
    requires j < |kids| && kids[j].1.count > cut
    ensures a < |Passing(kids, cut, 0)| && Passing(kids, cut, 0)[a] == j
  {
    var ix := Passing(kids, cut, 0);
    assert j in ix;
    a :| 0 <= a < |ix| && ix[a] == j;
  }

  /** Candidates keep the children's dict order. */
  lemma PassingOrder(kids: Dict<Tree>, cut: int, a: nat, b: nat)
    requires a < |Passing(kids, cut, 0)| && b < |Passing(kids, cut, 0)|
    requires Passing(kids, cut, 0)[a] < Passing(kids, cut, 0)[b]
    ensures a < b
  {
  }

  /** The move `to_dict` names as best is, among the children counted in more
      than `cut` games, one with the highest average for White (lowest for
      Black), the first in dict order on a tie. */
  lemma BestChildOptimal(t: Tree, cut: int)
    requires HasCandidate(t, cut)
    ensures |Candidates(t, cut)| > 0
    ensures t.children[BestChild(t, cut)].1.count > cut
    ensures forall j :: 0 <= j < |t.children| && t.children[j].1.count > cut ==>
              !Beats(Eval(t.children[j].1), Eval(t.children[BestChild(t, cut)].1), t.color == White)
    ensures forall j :: 0 <= j < BestChild(t, cut) && t.children[j].1.count > cut ==>
              Beats(Eval(t.children[BestChild(t, cut)].1), Eval(t.children[j].1), t.color == White)
  {
    CandidatesNonEmpty(t, cut);
    forall j | 0 <= j < |t.children| && t.children[j].1.count > cut
      ensures !Beats(Eval(t.children[j].1), Eval(t.children[BestChild(t, cut)].1), t.color == White)
      ensures j < BestChild(t, cut) ==>
                Beats(Eval(t.children[BestChild(t, cut)].1), Eval(t.children[j].1), t.color == White)
    {
      BestChildVersus(t, cut, j);
    }
  }

  /** The entries before the children: `best` and, with `debug`, the counters and the average. */
  function Head(t: Tree, values: PgnValues, best: string): (h: Dict<Json>)
    ensures Keys(h) == if values.debug then ["best", "score", "count", "eval"] else ["best"]
  {
    [("best", Str(best))] +
    (if values.debug then [("score", Int(t.score)), ("count", Int(t.count)), ("eval", Num(Eval(t)))] else [])
  }

  /** `to_dict`, with the `best` entry as the evident intent of line 50 (one
      `("best", best)` pair): `None` when no child passes `eval_cut_off`,
      otherwise the best move, the debug fields when enabled, and the
      serializations of the children that have children, pass `node_cut_off`
      and serialize to something. */
  function ToDict(t: Tree, values: PgnValues): (r: Option<Json>)
    ensures r.None? <==> !HasCandidate(t, values.evalCutOff)
    ensures r.Some? ==> r.value.Obj?
    decreases t, 1
  {
    CandidatesNonEmpty(t, values.evalCutOff);
    var cs := Candidates(t, values.evalCutOff);
    if |cs| == 0 then None
    else
      var best := cs[BestOf(cs, t.color == White)].0;
      Some(Obj(FromPairs(Head(t, values, best) + ChildDicts(t, values, 0))))
  }

  /** Whether the child `c` gets an entry of its own in its parent's serialization. */
  predicate Kept(c: Tree, values: PgnValues)
  {
    |c.children| > 0 && c.count > values.nodeCutOff && HasCandidate(c, values.evalCutOff)
  }

  /** `children_dicts` from position `i` on: the children that have children
      and more than `node_cut_off` games, serialized, with `None` dropped. */
  function ChildDicts(t: Tree, values: PgnValues, i: nat): (ds: Dict<Json>)
    requires i <= |t.children|
    decreases t, 0, |t.children| - i
  {
    if i == |t.children| then []
    else
      var (k, c) := t.children[i];
      var rest := ChildDicts(t, values, i + 1);
      if |c.children| > 0 && c.count > values.nodeCutOff then
        match ToDict(c, values)
        case Some(j) => [(k, j)] + rest
        case None => rest
      else rest
  }

  /** The entry child `i` contributes: one pair when it is kept, none otherwise. */
  function Entry(t: Tree, values: PgnValues, i: nat): (e: Dict<Json>)
    requires i < |t.children|
    ensures |e| <= 1
    ensures Kept(t.children[i].1, values) <==> |e| == 1
  {
    if Kept(t.children[i].1, values) then [(t.children[i].0, ToDict(t.children[i].1, values).value)] else []
  }

  lemma ChildDictsStep(t: Tree, values: PgnValues, i: nat)
    requires i < |t.children|
    ensures ChildDicts(t, values, i) == Entry(t, values, i) + ChildDicts(t, values, i + 1)
  {
    var rest := ChildDicts(t, values, i + 1);
    if !Kept(t.children[i].1, values) {
      assert Entry(t, values, i) + rest == rest;
    }
  }

  /** The key of child `i` is none of the later children's. */
  lemma LaterKeys(t: Tree, values: PgnValues, i: nat)
    requires i < |t.children| && UniqueKeys(t.children)
    requires t.children[i].0 in Keys(ChildDicts(t, values, i + 1)) ==>
               exists j :: i + 1 <= j < |t.children| && t.children[j].0 == t.children[i].0
    ensures t.children[i].0 !in Keys(ChildDicts(t, values, i + 1))
  {
  }

  /** The keys of child `i`'s entry. */
  lemma EntryKeys(t: Tree, values: PgnValues, i: nat)
    requires i < |t.children|
    ensures Keys(Entry(t, values, i)) == if Kept(t.children[i].1, values) then [t.children[i].0] else []
  {
  }

  /** One step of `ChildDictsKeys`: uniqueness. */
  lemma ChildDictsUniqueStep(t: Tree, values: PgnValues, i: nat)
    requires i < |t.children|
    requires UniqueKeys(ChildDicts(t, values, i + 1))
    requires t.children[i].0 !in Keys(ChildDicts(t, values, i + 1))
    ensures UniqueKeys(ChildDicts(t, values, i))
  {
    ChildDictsStep(t, values, i);
    UniqueKeysAppend(Entry(t, values, i), ChildDicts(t, values, i + 1));
  }

  /** One step of `ChildDictsKeys`: membership. */
  lemma ChildDictsKeysStep(t: Tree, values: PgnValues, i: nat, k: string)
    requires i < |t.children|
    requires k in Keys(ChildDicts(t, values, i + 1)) <==>
               exists j :: i + 1 <= j < |t.children| && t.children[j].0 == k && Kept(t.children[j].1, values)
    ensures k in Keys(ChildDicts(t, values, i)) <==>
              exists j :: i <= j < |t.children| && t.children[j].0 == k && Kept(t.children[j].1, values)
  {
    var e := Entry(t, values, i);
    var rest := ChildDicts(t, values, i + 1);
    ChildDictsStep(t, values, i);
    KeysAppend(e, rest);
    EntryKeys(t, values, i);
    var here := Kept(t.children[i].1, values) && t.children[i].0 == k;
    assert k in Keys(ChildDicts(t, values, i)) <==> here || k in Keys(rest);
    LaterOrHere(t, values, i, k);
  }

  /** A kept child with move `k` from `i` on is either child `i` or a later one. */
  lemma LaterOrHere(t: Tree, values: PgnValues, i: nat, k: string)
    requires i < |t.children|
    ensures (exists j :: i <= j < |t.children| && t.children[j].0 == k && Kept(t.children[j].1, values)) <==>
              (Kept(t.children[i].1, values) && t.children[i].0 == k) ||
              exists j :: i + 1 <= j < |t.children| && t.children[j].0 == k && Kept(t.children[j].1, values)
  {
    if exists j :: i <= j < |t.children| && t.children[j].0 == k && Kept(t.children[j].1, values) {
      var j :| i <= j < |t.children| && t.children[j].0 == k && Kept(t.children[j].1, values);
      if j > i {
        assert i + 1 <= j;
      }
    }
  }

  /** The serialized children have unique keys, and a move is among them
      exactly when its child has children, passes `node_cut_off` and
      serializes to something. */
  lemma {:induction false} ChildDictsKeys(t: Tree, values: PgnValues, i: nat, k: string)
    requires i <= |t.children| && UniqueKeys(t.children)
    ensures UniqueKeys(ChildDicts(t, values, i))
    ensures k in Keys(ChildDicts(t, values, i)) <==>
              exists j :: i <= j < |t.children| && t.children[j].0 == k && Kept(t.children[j].1, values)
    decreases |t.children| - i, 0
  {
    if i < |t.children| {
      ChildDictsKeys(t, values, i + 1, k);
      ChildDictsKeys(t, values, i + 1, t.children[i].0);
      LaterKeys(t, values, i);
      ChildDictsUniqueStep(t, values, i);
      ChildDictsKeysStep(t, values, i, k);
    }
  }

  /** The entry for the move of child `i` itself. */
  lemma ChildDictsLookupHere(t: Tree, values: PgnValues, i: nat)
    requires i < |t.children| && UniqueKeys(t.children)
    ensures Lookup(ChildDicts(t, values, i), t.children[i].0) ==
              if Kept(t.children[i].1, values) then ToDict(t.children[i].1, values) else None
  {
    var k := t.children[i].0;
    ChildDictsStep(t, values, i);
    LookupAppend(Entry(t, values, i), ChildDicts(t, values, i + 1), k);
    ChildDictsKeys(t, values, i + 1, k);
    LaterKeys(t, values, i);
  }

  /** The entry for a later child's move does not depend on child `i`. */
  lemma ChildDictsLookupPast(t: Tree, values: PgnValues, i: nat, j: nat)
    requires i < j < |t.children| && UniqueKeys(t.children)
    ensures Lookup(ChildDicts(t, values, i), t.children[j].0) ==
              Lookup(ChildDicts(t, values, i + 1), t.children[j].0)
  {
    ChildDictsStep(t, values, i);
    LookupAppend(Entry(t, values, i), ChildDicts(t, values, i + 1), t.children[j].0);
  }

  /** The entry for a child's move is that child's own serialization when it is
      kept, and absent otherwise. */
  lemma {:induction false} ChildDictsLookup(t: Tree, values: PgnValues, i: nat, j: nat)
    requires i <= j < |t.children| && UniqueKeys(t.children)
    ensures Lookup(ChildDicts(t, values, i), t.children[j].0) ==
              if Kept(t.children[j].1, values) then ToDict(t.children[j].1, values) else None
    decreases |t.children| - i
  {
    if i < j {
      ChildDictsLookup(t, values, i + 1, j);
      ChildDictsLookupPast(t, values, i, j);
    } else {
      ChildDictsLookupHere(t, values, i);
    }
  }

  /** The keys `to_dict` writes itself. Moves are UCI strings, never one of these. */
  predicate Reserved(k: string)
  {
    k == "best" || k == "score" || k == "count" || k == "eval"
  }

  /** No move key collides with the keys `to_dict` writes itself. */
  predicate MovesNotReserved(t: Tree)
  {
    forall j :: 0 <= j < |t.children| ==> !Reserved(t.children[j].0)
  }

  /** A reserved key is not among the serialized children. */
  lemma ReservedNotChild(t: Tree, values: PgnValues, k: string)
    requires UniqueKeys(t.children) && MovesNotReserved(t) && Reserved(k)
    ensures k !in Keys(ChildDicts(t, values, 0))
  {
    ChildDictsKeys(t, values, 0, k);
  }

  /** The head entries have distinct keys. */
  lemma HeadUnique(t: Tree, values: PgnValues, best: string)
    ensures UniqueKeys(Head(t, values, best))
  {
    var h := Head(t, values, best);
    forall i, j | 0 <= i < j < |h| ensures h[i].0 != h[j].0 {
      assert h[i].0 == Keys(h)[i] && h[j].0 == Keys(h)[j];
    }
  }

  /** `to_dict` when some child passes `eval_cut_off`, before the comprehension is simplified. */
  lemma ToDictUnfold(t: Tree, values: PgnValues)
    requires HasCandidate(t, values.evalCutOff)
    ensures |Candidates(t, values.evalCutOff)| > 0
    ensures ToDict(t, values) ==
              Some(Obj(FromPairs(Head(t, values, t.children[BestChild(t, values.evalCutOff)].0) + ChildDicts(t, values, 0))))
  {
    CandidatesNonEmpty(t, values.evalCutOff);
  }

  /** The head and the serialized children have no key in common. */
  lemma HeadChildrenUnique(t: Tree, values: PgnValues, best: string)
    requires UniqueKeys(t.children) && MovesNotReserved(t)
    ensures UniqueKeys(Head(t, values, best) + ChildDicts(t, values, 0))
  {
    var h := Head(t, values, best);
    var cd := ChildDicts(t, values, 0);
    HeadUnique(t, values, best);
    ChildDictsKeys(t, values, 0, "best");
    forall i | 0 <= i < |h| ensures h[i].0 !in Keys(cd) {
      assert Reserved(h[i].0) by {
        assert h[i].0 == Keys(h)[i];
      }
      ReservedNotChild(t, values, h[i].0);
    }
    UniqueKeysAppend(h, cd);
  }

  /** When some child passes `eval_cut_off`, `to_dict` lists, without any
      overwriting, `best` (the move of `BestChild`), the debug fields when
      enabled, then the kept children in dict order. */
  lemma ToDictShape(t: Tree, values: PgnValues)
    requires UniqueKeys(t.children) && MovesNotReserved(t) && HasCandidate(t, values.evalCutOff)
    ensures |Candidates(t, values.evalCutOff)| > 0
    ensures ToDict(t, values) ==
              Some(Obj(Head(t, values, t.children[BestChild(t, values.evalCutOff)].0) + ChildDicts(t, values, 0)))
    ensures UniqueKeys(ToDict(t, values).value.fields)
  {
    var best := t.children[BestChild(t, values.evalCutOff)].0;
    ToDictUnfold(t, values);
    HeadChildrenUnique(t, values, best);
    FromPairsUnique(Head(t, values, best) + ChildDicts(t, values, 0));
  }

  /** The entries `to_dict` writes itself: `best` names the move `BestChild`
      picks, and the counters and the average appear exactly with `debug`. */
  lemma ToDictHead(t: Tree, values: PgnValues)
    requires UniqueKeys(t.children) && MovesNotReserved(t) && HasCandidate(t, values.evalCutOff)
    ensures |Candidates(t, values.evalCutOff)| > 0 && ToDict(t, values).Some?
    ensures Lookup(ToDict(t, values).value.fields, "best") ==
              Some(Str(t.children[BestChild(t, values.evalCutOff)].0))
    ensures Lookup(ToDict(t, values).value.fields, "score") == if values.debug then Some(Int(t.score)) else None
    ensures Lookup(ToDict(t, values).value.fields, "count") == if values.debug then Some(Int(t.count)) else None
    ensures Lookup(ToDict(t, values).value.fields, "eval") == if values.debug then Some(Num(Eval(t))) else None
  {
    ToDictShape(t, values);
    HeadFields(t, values, t.children[BestChild(t, values.evalCutOff)].0);
  }

  /** The head entries looked up in the head followed by the serialized children. */
  lemma HeadFields(t: Tree, values: PgnValues, best: string)
    requires UniqueKeys(t.children) && MovesNotReserved(t)
    ensures var d := Head(t, values, best) + ChildDicts(t, values, 0);
      && Lookup(d, "best") == Some(Str(best))
      && Lookup(d, "score") == (if values.debug then Some(Int(t.score)) else None)
      && Lookup(d, "count") == (if values.debug then Some(Int(t.count)) else None)
      && Lookup(d, "eval") == (if values.debug then Some(Num(Eval(t))) else None)
  {
    var h := Head(t, values, best);
    var cd := ChildDicts(t, values, 0);
    HeadEntries(t, values, best);
    HeadField(h, cd, "best", 0);
    if values.debug {
      DebugFields(h, cd, t.score, t.count, Eval(t));
    } else {
      HeadAbsent(t, values, h, "score");
      HeadAbsent(t, values, h, "count");
      HeadAbsent(t, values, h, "eval");
    }
  }

  /** The entries of the head, position by position. */
  lemma HeadEntries(t: Tree, values: PgnValues, best: string)
    ensures var h := Head(t, values, best);
      && h[0] == ("best", Str(best))
      && (values.debug ==> |h| == 4 && h[1] == ("score", Int(t.score)) && h[2] == ("count", Int(t.count))
                           && h[3] == ("eval", Num(Eval(t))))
  {
  }

  /** The debug entries looked up in a debug head followed by the children. */
  lemma DebugFields(h: Dict<Json>, cd: Dict<Json>, score: int, count: int, eval: real)
    requires |h| == 4 && h[0].0 == "best"
    requires h[1] == ("score", Int(score)) && h[2] == ("count", Int(count)) && h[3] == ("eval", Num(eval))
    ensures Lookup(h + cd, "score") == Some(Int(score))
    ensures Lookup(h + cd, "count") == Some(Int(count))
    ensures Lookup(h + cd, "eval") == Some(Num(eval))
  {
    HeadField(h, cd, "score", 1);
    HeadField(h, cd, "count", 2);
    HeadField(h, cd, "eval", 3);
  }

  /** Looking up the `a`-th head entry in the head followed by the children. */
  lemma HeadField(h: Dict<Json>, cd: Dict<Json>, k: string, a: nat)
    requires a < |h| && h[a].0 == k && forall b :: 0 <= b < a ==> h[b].0 != k
    ensures Lookup(h + cd, k) == Some(h[a].1)
  {
    IndexOfAt(h + cd, k, a);
  }

  /** A reserved key the head does not write is absent altogether. */
  lemma HeadAbsent(t: Tree, values: PgnValues, h: Dict<Json>, k: string)
    requires UniqueKeys(t.children) && MovesNotReserved(t) && Reserved(k) && k !in Keys(h)
    ensures Lookup(h + ChildDicts(t, values, 0), k).None?
  {
    ReservedNotChild(t, values, k);
    LookupAppend(h, ChildDicts(t, values, 0), k);
  }

  /** Each child's move maps to that child's own serialization when the child
      has children, passes `node_cut_off` and serializes to something, and is
      absent otherwise. */
  lemma ToDictChild(t: Tree, values: PgnValues, j: nat)
    requires UniqueKeys(t.children) && MovesNotReserved(t) && HasCandidate(t, values.evalCutOff)
    requires j < |t.children|
    ensures ToDict(t, values).Some?
    ensures Lookup(ToDict(t, values).value.fields, t.children[j].0) ==
              if Kept(t.children[j].1, values) then ToDict(t.children[j].1, values) else None
  {
    ToDictShape(t, values);
    ChildFields(t, values, t.children[BestChild(t, values.evalCutOff)].0, j);
  }

  /** A child's move looked up in the head followed by the serialized children. */
  lemma ChildFields(t: Tree, values: PgnValues, best: string, j: nat)
    requires UniqueKeys(t.children) && MovesNotReserved(t) && j < |t.children|
    ensures Lookup(Head(t, values, best) + ChildDicts(t, values, 0), t.children[j].0) ==
              if Kept(t.children[j].1, values) then ToDict(t.children[j].1, values) else None
  {
    var h := Head(t, values, best);
    assert t.children[j].0 !in Keys(h);
    LookupAppend(h, ChildDicts(t, values, 0), t.children[j].0);
    ChildDictsLookup(t, values, 0, j);
  }

  /** The keys of the serialization: `best`, the debug fields when enabled, and
      the moves of the kept children, nothing else. */
  lemma ToDictKeys(t: Tree, values: PgnValues, k: string)
    requires UniqueKeys(t.children) && MovesNotReserved(t) && HasCandidate(t, values.evalCutOff)
    ensures ToDict(t, values).Some?
    ensures k in Keys(ToDict(t, values).value.fields) <==>
              || k == "best"
              || (values.debug && Reserved(k))
              || exists j :: 0 <= j < |t.children| && t.children[j].0 == k && Kept(t.children[j].1, values)
  {
    ToDictShape(t, values);
    FieldKeys(t, values, t.children[BestChild(t, values.evalCutOff)].0, k);
  }

  /** The keys of the head followed by the serialized children. */
  lemma FieldKeys(t: Tree, values: PgnValues, best: string, k: string)
    requires UniqueKeys(t.children)
    ensures k in Keys(Head(t, values, best) + ChildDicts(t, values, 0)) <==>
              || k == "best"
              || (values.debug && Reserved(k))
              || exists j :: 0 <= j < |t.children| && t.children[j].0 == k && Kept(t.children[j].1, values)
  {
    KeysAppend(Head(t, values, best), ChildDicts(t, values, 0));
    ChildDictsKeys(t, values, 0, k);
  }

  // ---------------------------------------------------------------------------
  // `to_dict` as written at src/pgn_tree.py:50

  /** An element of the list the final comprehension unpacks: a proper pair, or
      a bare string, which `for (k, v) in ...` unpacks character by character. */
  datatype Item = Pair(key: string, val: Json) | Bare(s: string)

  /** `{k: v for (k, v) in items}` over `items` after the entries already in
      `acc`: a bare string unpacks only when it has exactly two characters, any
      other raises `ValueError`. */
  function Comprehend(acc: Dict<Json>, items: seq<Item>): (r: Result<Dict<Json>, string>)
    decreases |items|
  {
    if items == [] then Success(acc)
    else
      match items[0]
      case Pair(k, v) => Comprehend(Assign(acc, k, v), items[1..])
      case Bare(s) =>
        if |s| == 2 then Comprehend(Assign(acc, s[..1], Str(s[1..])), items[1..]) else Failure("ValueError")
  }

  /** The comprehension fails exactly when some bare string is not two characters long. */
  lemma {:induction false} ComprehendFails(acc: Dict<Json>, items: seq<Item>)
    ensures Comprehend(acc, items).Failure? <==>
              exists a :: 0 <= a < |items| && items[a].Bare? && |items[a].s| != 2
    decreases |items|
  {
    if items != [] {
      var acc' := match items[0]
        case Pair(k, v) => Assign(acc, k, v)
        case Bare(s) => if |s| == 2 then Assign(acc, s[..1], Str(s[1..])) else acc;
      ComprehendFails(acc', items[1..]);
      assert forall a :: 1 <= a < |items| ==> items[a] == items[1..][a - 1];
    }
  }

  /** `to_dict` exactly as written: `list(("best", best))` is the two-element
      list `["best", best]`, and a child's exception propagates to its parent. */
  function ToDictAsWritten(t: Tree, values: PgnValues): (r: Result<Option<Json>, string>)
    ensures r.Success? && r.value.None? <==> !HasCandidate(t, values.evalCutOff)
    decreases t, 1
  {
    CandidatesNonEmpty(t, values.evalCutOff);
    var cs := Candidates(t, values.evalCutOff);
    if |cs| == 0 then Success(None)
    else
      var best := cs[BestOf(cs, t.color == White)].0;
      var debug := if values.debug then [Pair("score", Int(t.score)), Pair("count", Int(t.count)), Pair("eval", Num(Eval(t)))] else [];
      match ChildItemsAsWritten(t, values, 0)
      case Failure(e) => Failure(e)
      case Success(kids) =>
        match Comprehend([], [Bare("best"), Bare(best)] + debug + kids)
        case Failure(e) => Failure(e)
        case Success(d) => Success(Some(Obj(d)))
  }

  /** `children_dicts` as written, from position `i` on, with the first
      exception a child's `to_dict` raises. */
  function ChildItemsAsWritten(t: Tree, values: PgnValues, i: nat): (r: Result<seq<Item>, string>)
    requires i <= |t.children|
    decreases t, 0, |t.children| - i
  {
    if i == |t.children| then Success([])
    else
      var (k, c) := t.children[i];
      var here :=
        if |c.children| > 0 && c.count > values.nodeCutOff then
          match ToDictAsWritten(c, values)
          case Success(Some(j)) => Success([Pair(k, j)])
          case Success(None) => Success([])
          case Failure(e) => Failure(e)
        else Success([]);
      match here
      case Failure(e) => Failure(e)
      case Success(p) =>
        match ChildItemsAsWritten(t, values, i + 1)
        case Failure(e) => Failure(e)
        case Success(rest) => Success(p + rest)
  }

  /** As written, `to_dict` raises whenever there is a best move to report, so
      it never returns a mapping at all: the word `best` does not unpack into a
      key and a value. */
  lemma ToDictAsWrittenFails(t: Tree, values: PgnValues)
    ensures ToDictAsWritten(t, values).Success? ==> ToDictAsWritten(t, values).value.None?
    ensures HasCandidate(t, values.evalCutOff) <==> ToDictAsWritten(t, values).Failure?
  {
    CandidatesNonEmpty(t, values.evalCutOff);
    var cs := Candidates(t, values.evalCutOff);
    if |cs| > 0 {
      var best := cs[BestOf(cs, t.color == White)].0;
      var debug := if values.debug then [Pair("score", Int(t.score)), Pair("count", Int(t.count)), Pair("eval", Num(Eval(t)))] else [];
      match ChildItemsAsWritten(t, values, 0)
      case Failure(e) =>
      case Success(kids) =>
        var items := [Bare("best"), Bare(best)] + debug + kids;
        ComprehendFails([], items);
        assert items[0].Bare? && |items[0].s| != 2;
    }
  }

  /** `insert` as the three steps the method takes: count the game, create
      the child if the move is new, and pass the rest of the game to the child
      when `insert` descends. */
  lemma InsertByParts(was: Tree, counted: Tree, present: Tree, done: Tree,
                      result: int, moves: seq<string>, i: nat, depth: int, maxDepth: int)
    requires |moves| > 0 && i == IndexOf(was.children, moves[0])
    requires counted == was.(score := was.score + result, count := was.count + 1)
    requires present == if i < |was.children| then counted
                        else counted.(children := counted.children + [(moves[0], Empty(NextColor(counted.color)))])
    requires i < |present.children|
    requires done == if Descends(moves, depth, maxDepth)
                     then present.(children := present.children[i :=
                            (present.children[i].0, InsertTree(present.children[i].1, result, moves[1..], depth + 1, maxDepth))])
                     else present
    ensures done == InsertTree(was, result, moves, depth, maxDepth)
  {
    assert present.children[i].0 == moves[0];
    assert !Descends(moves, depth, maxDepth) ==> present.children[i := (moves[0], present.children[i].1)] == present.children;
  }

  // ---------------------------------------------------------------------------
  // The mutable node

  /** `PgnNode`: a node whose counters and children dict `insert` updates in
      place. `Model` is the value the node and everything below it hold, and
      `Repr` the objects that make it up. */
  class PgnNode {
    var score: int
    var count: int
    var children: seq<(string, PgnNode)>
    const color: Color
    const values: PgnValues
    ghost var Model: Tree
    ghost var Repr: set<object>

    /** The children are distinct nodes sharing this node's `values`, no node
        is reachable along two paths, and `Model` mirrors the fields. */
    ghost predicate Valid()
      reads this, Repr
      decreases Repr, 1
    {
      && this in Repr
      && Model.color == color && Model.score == score && Model.count == count
      && |Model.children| == |children|
      && (forall i :: 0 <= i < |children| ==> children[i].1 in Repr && Owns(i))
      && (forall i, j :: 0 <= i < j < |children| ==> children[i].1.Repr !! children[j].1.Repr)
    }

    /** Child `i` is a valid node inside this node's footprint, and `Model` holds its value. */
    ghost predicate Owns(i: int)
      requires 0 <= i < |children| && |Model.children| == |children|
      reads this, Repr
      decreases Repr, 0
    {
      && this in Repr
      && children[i].1 in Repr && children[i].1 in children[i].1.Repr
      && children[i].1.Repr <= Repr && this !in children[i].1.Repr
      && children[i].1.values == values
      && children[i].1.Valid()
      && Model.children[i] == (children[i].0, children[i].1.Model)
    }

    /** `PgnNode(color, values)`: no games and no children yet. */
    constructor (color: Color, values: PgnValues)
      ensures Valid() && fresh(Repr)
      ensures this.color == color && this.values == values
      ensures Model == Empty(color)
    {
      score, count, children := 0, 0, [];
      this.color, this.values := color, values;
      Model := Empty(color);
      Repr := {this};
    }

    /** `insert(result, node, depth)` with the game continuation as the move
        keys `moves`: the node and everything below it end up holding
        `InsertTree` of what they held before. */
    method Insert(result: int, moves: seq<string>, depth: int)
      requires Valid() && |moves| > 0
      modifies Repr
      ensures Valid() && fresh(Repr - old(Repr))
      ensures Model == InsertTree(old(Model), result, moves, depth, values.maxDepth)
      decreases |moves|, 1
    {
      ghost var was := Model;
      Count(result);
      ghost var counted := Model;
      var key := moves[0];
      SameIndex(key);
      var i := IndexOf(children, key);
      if i == |children| {
        AddChild(key);
      }
      ghost var present := Model;
      if |moves| > 1 && depth <= values.maxDepth {
        Descend(i, result, moves[1..], depth + 1);
      }
      InsertByParts(was, counted, present, Model, result, moves, i, depth, values.maxDepth);
    }

    /** A move sits at the same position among the children and in `Model`. */
    lemma SameIndex(key: string)
      requires Valid()
      ensures IndexOf(children, key) == IndexOf(Model.children, key)
    {
      assert forall j :: 0 <= j < |children| ==> Owns(j) && Keys(children)[j] == Keys(Model.children)[j];
      IndexOfSameKeys(children, Model.children, key);
    }

    /** `self.score += result; self.count += 1`. */
    method Count(result: int)
      requires Valid()
      modifies this
      ensures Valid() && Repr == old(Repr) && children == old(children)
      ensures Model == old(Model).(score := old(Model.score) + result, count := old(Model.count) + 1)
    {
      score := score + result;
      count := count + 1;
      Model := Model.(score := score, count := count);
    }

    /** `self.children[move] = PgnNode(next_color(self.color), self.values)` for a new move. */
    method AddChild(key: string)
      requires Valid()
      modifies this
      ensures Valid() && fresh(Repr - old(Repr))
      ensures Model == old(Model).(children := old(Model.children) + [(key, Empty(NextColor(color)))])
      ensures |children| == |old(children)| + 1
    {
      var c := new PgnNode(NextColor(color), values);
      children := children + [(key, c)];
      Repr := Repr + c.Repr;
      Model := Model.(children := Model.children + [(key, c.Model)]);
    }

    /** `self.children[move].insert(result, node.variations[0], depth + 1)`:
        child `i` takes the rest of the game and the other children stay as they were. */
    method Descend(i: nat, result: int, moves: seq<string>, depth: int)
      requires Valid() && i < |children| && |moves| > 0
      modifies Repr
      ensures Valid() && fresh(Repr - old(Repr))
      ensures Model == old(Model).(children := old(Model.children)[i :=
                (old(Model.children)[i].0, InsertTree(old(Model.children)[i].1, result, moves, depth, values.maxDepth))])
      decreases |moves| + 1, 0
    {
      var c := children[i].1;
      assert Owns(i);
      ghost var before := c.Repr;
      c.Insert(result, moves, depth);
      assert this !in before;
      Repr := Repr + c.Repr;
      Model := Model.(children := Model.children[i := (children[i].0, c.Model)]);
      forall j | 0 <= j < |children|
        ensures children[j].1 in Repr && children[j].1 in children[j].1.Repr && children[j].1.Repr <= Repr
        ensures this !in children[j].1.Repr && children[j].1.values == values
        ensures children[j].1.Valid()
        ensures Model.children[j] == (children[j].0, children[j].1.Model)
      {
        if j != i {
          assert old(Owns(j) && children[j].1.Repr !! c.Repr);
        }
      }
      forall a, b | 0 <= a < b < |children| ensures children[a].1.Repr !! children[b].1.Repr {
        assert old(children[a].1.Repr !! children[b].1.Repr);
      }
    }
  }
}
