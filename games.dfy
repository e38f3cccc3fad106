/** A collection of games folded into a `PgnNode` tree, as generator.py's
    reading loop does (each game with at least one move is inserted at the
    root with depth 1), and what the counters of the resulting tree add up to. */
module Games {
  import opened Wrappers
  import opened Dicts
  import opened Core
  import opened PgnTree

  /** A game: its converted result and its main line as move keys. */
  datatype Game = Game(result: int, moves: seq<string>)

  /** Folding one game into the tree: a game without moves is skipped. */
  function Record(t: Tree, g: Game, maxDepth: int): (r: Tree)
    ensures r.color == t.color
    ensures r.count == t.count + (if |g.moves| > 0 then 1 else 0)
  {
    if |g.moves| == 0 then t else InsertTree(t, g.result, g.moves, 1, maxDepth)
  }

  /** The tree after reading `games` in order into a fresh White root. */
  function Build(games: seq<Game>, maxDepth: int): (t: Tree)
    ensures t.color == White
    decreases |games|
  {
    if games == [] then Empty(White)
    else Record(Build(games[..|games| - 1], maxDepth), games[|games| - 1], maxDepth)
  }

  /** The node reached from `t` by following the moves of `path`, if there is one. */
  function NodeAt(t: Tree, path: seq<string>): (r: Option<Tree>)
    ensures path == [] ==> r == Some(t)
    decreases |path|
  {
    if path == [] then Some(t)
    else
      match Lookup(t.children, path[0])
      case Some(c) => NodeAt(c, path[1..])
      case None => None
  }

  /** The number of games counted at the end of `path`; 0 where there is no node. */
  function CountAt(t: Tree, path: seq<string>): int
  {
    match NodeAt(t, path)
    case Some(n) => n.count
    case None => 0
  }

  /** The sum of the results counted at the end of `path`; 0 where there is no node. */
  function ScoreAt(t: Tree, path: seq<string>): int
  {
    match NodeAt(t, path)
    case Some(n) => n.score
    case None => 0
  }

  /** Whether inserting `moves` at a node `level` moves below the root counts
      the game at the node `path` further down: the path must be a proper
      prefix of the moves (the node of the last move is created but never
      counted), and a non-empty path must end within `maxDepth` of the root. */
  predicate Reaches(moves: seq<string>, path: seq<string>, level: nat, maxDepth: int)
  {
    |path| < |moves| && moves[..|path|] == path && (|path| == 0 || level + |path| <= maxDepth)
  }

  /** Nothing is counted below a fresh node. */
  lemma {:induction false} EmptyCountAt(color: Color, path: seq<string>)
    ensures CountAt(Empty(color), path) == 0 && ScoreAt(Empty(color), path) == 0
  {
    if path != [] {
      assert Lookup(Empty(color).children, path[0]).None?;
    }
  }

  /** The counters at a non-empty path are those of the child `insert` works on. */
  lemma ChildCountAt(t: Tree, path: seq<string>)
    requires |path| > 0
    ensures CountAt(t, path) == CountAt(ChildFor(t, path[0]), path[1..])
    ensures ScoreAt(t, path) == ScoreAt(ChildFor(t, path[0]), path[1..])
  {
    if path[0] !in Keys(t.children) {
      EmptyCountAt(NextColor(t.color), path[1..]);
    }
  }

  /** One step of `Reaches`: past the first move, the path is followed from the child. */
  lemma ReachesStep(moves: seq<string>, path: seq<string>, level: nat, maxDepth: int)
    requires |moves| > 1 && |path| > 0 && path[0] == moves[0] && level + 1 <= maxDepth
    ensures Reaches(moves, path, level, maxDepth) <==> Reaches(moves[1..], path[1..], level + 1, maxDepth)
  {
    if |path| - 1 < |moves| - 1 {
      assert moves[..|path|] == [moves[0]] + moves[1..][..|path| - 1];
      assert path == [path[0]] + path[1..];
    }
  }

  /** `insert` adds one to the count, and the result to the score, of exactly
      the nodes `Reaches` describes, and leaves every other counter alone. */
  lemma {:induction false} InsertCountAt(t: Tree, result: int, moves: seq<string>, level: nat, maxDepth: int, path: seq<string>)
    requires |moves| > 0
    ensures CountAt(InsertTree(t, result, moves, level + 1, maxDepth), path) ==
              CountAt(t, path) + (if Reaches(moves, path, level, maxDepth) then 1 else 0)
    ensures ScoreAt(InsertTree(t, result, moves, level + 1, maxDepth), path) ==
              ScoreAt(t, path) + (if Reaches(moves, path, level, maxDepth) then result else 0)
    decreases |moves|
  {
    if path == [] {
    } else if path[0] != moves[0] {
      InsertOtherMove(t, result, moves, level + 1, maxDepth, path);
      assert !Reaches(moves, path, level, maxDepth) by {
        if |path| <= |moves| {
          assert moves[..|path|][0] == moves[0];
        }
      }
    } else {
      InsertSameMove(t, result, moves, level + 1, maxDepth, path);
      ChildCountAt(t, path);
      if Descends(moves, level + 1, maxDepth) {
        InsertCountAt(ChildFor(t, moves[0]), result, moves[1..], level + 1, maxDepth, path[1..]);
        ReachesStep(moves, path, level, maxDepth);
      }
    }
  }

  /** A path that leaves by another move than the game's sees no change. */
  lemma InsertOtherMove(t: Tree, result: int, moves: seq<string>, depth: int, maxDepth: int, path: seq<string>)
    requires |moves| > 0 && |path| > 0 && path[0] != moves[0]
    ensures CountAt(InsertTree(t, result, moves, depth, maxDepth), path) == CountAt(t, path)
    ensures ScoreAt(InsertTree(t, result, moves, depth, maxDepth), path) == ScoreAt(t, path)
  {
    InsertAssigns(t, result, moves, depth, maxDepth);
    var r := InsertTree(t, result, moves, depth, maxDepth);
    assert Lookup(r.children, path[0]) == Lookup(t.children, path[0]);
    assert NodeAt(r, path) == NodeAt(t, path);
  }

  /** A path that leaves by the game's first move continues in the child as `insert` leaves it. */
  lemma InsertSameMove(t: Tree, result: int, moves: seq<string>, depth: int, maxDepth: int, path: seq<string>)
    requires |moves| > 0 && |path| > 0 && path[0] == moves[0]
    ensures CountAt(InsertTree(t, result, moves, depth, maxDepth), path) ==
              CountAt(NewChild(t, result, moves, depth, maxDepth), path[1..])
    ensures ScoreAt(InsertTree(t, result, moves, depth, maxDepth), path) ==
              ScoreAt(NewChild(t, result, moves, depth, maxDepth), path[1..])
  {
    var r := InsertTree(t, result, moves, depth, maxDepth);
    InsertChild(t, result, moves, depth, maxDepth);
    assert NodeAt(r, path) == NodeAt(NewChild(t, result, moves, depth, maxDepth), path[1..]);
  }

  /** Taking out the element at `k`. */
  lemma RemoveAt(b: seq<Game>, k: nat)
    requires k < |b|
    ensures b == b[..k] + [b[k]] + b[k + 1..]
    ensures multiset(b[..k] + b[k + 1..]) == multiset(b) - multiset{b[k]}
  {
    assert b == b[..k] + [b[k]] + b[k + 1..];
    assert multiset(b) == multiset(b[..k]) + multiset{b[k]} + multiset(b[k + 1..]);
  }

  /** The sum of `w` over `games`. */
  function SumOf(games: seq<Game>, w: Game -> int): int
    decreases |games|
  {
    if games == [] then 0 else SumOf(games[..|games| - 1], w) + w(games[|games| - 1])
  }

  /** One when `g` is counted at the end of `path`, zero otherwise. */
  function Through(path: seq<string>, maxDepth: int): (w: Game -> int)
  {
    (g: Game) => if Reaches(g.moves, path, 0, maxDepth) then 1 else 0
  }

  /** `g`'s result when it is counted at the end of `path`, zero otherwise. */
  function ResultThrough(path: seq<string>, maxDepth: int): (w: Game -> int)
  {
    (g: Game) => if Reaches(g.moves, path, 0, maxDepth) then g.result else 0
  }

  /** After reading `games`, the count at every node is the number of games
      counted there and the score the sum of their results. */
  lemma {:induction false} BuildCountAt(games: seq<Game>, maxDepth: int, path: seq<string>)
    ensures CountAt(Build(games, maxDepth), path) == SumOf(games, Through(path, maxDepth))
    ensures ScoreAt(Build(games, maxDepth), path) == SumOf(games, ResultThrough(path, maxDepth))
    decreases |games|
  {
    if games == [] {
      EmptyCountAt(White, path);
    } else {
      var init := games[..|games| - 1];
      var g := games[|games| - 1];
      BuildCountAt(init, maxDepth, path);
      RecordCountAt(Build(init, maxDepth), g, maxDepth, path);
    }
  }

  /** Recording one game adds it to the count and score of every node it is
      counted at, and changes nothing elsewhere. */
  lemma RecordCountAt(t: Tree, g: Game, maxDepth: int, path: seq<string>)
    ensures CountAt(Record(t, g, maxDepth), path) == CountAt(t, path) + Through(path, maxDepth)(g)
    ensures ScoreAt(Record(t, g, maxDepth), path) == ScoreAt(t, path) + ResultThrough(path, maxDepth)(g)
  {
    if |g.moves| > 0 {
      InsertCountAt(t, g.result, g.moves, 0, maxDepth, path);
    }
  }

  /** Sums over a concatenation. */
  lemma {:induction false} SumOfAppend(a: seq<Game>, b: seq<Game>, w: Game -> int)
    ensures SumOf(a + b, w) == SumOf(a, w) + SumOf(b, w)
    decreases |b|
  {
    if b == [] {
      assert a + b == a;
    } else {
      assert (a + b)[..|a + b| - 1] == a + b[..|b| - 1];
      SumOfAppend(a, b[..|b| - 1], w);
    }
  }

  /** A sum does not depend on the order of its terms. */
  lemma {:induction false} SumOfPermutation(a: seq<Game>, b: seq<Game>, w: Game -> int)
    requires multiset(a) == multiset(b)
    ensures SumOf(a, w) == SumOf(b, w)
    decreases |a|
  {
    if a != [] {
      var k := Match(a, b);
      SumOfPermutation(a[..|a| - 1], b[..k] + b[k + 1..], w);
      SumOfRemove(b, k, w);
    }
  }

  /** The last game of `a` sits somewhere in a permutation `b` of it, and the
      rest of `a` is a permutation of the rest of `b`. */
  lemma Match(a: seq<Game>, b: seq<Game>) returns (k: nat)
    requires multiset(a) == multiset(b) && a != []
    ensures k < |b| && b[k] == a[|a| - 1]
    ensures multiset(a[..|a| - 1]) == multiset(b[..k] + b[k + 1..])
  {
    var init, x := a[..|a| - 1], a[|a| - 1];
    assert a == init + [x];
    assert x in multiset(b);
    k :| 0 <= k < |b| && b[k] == x;
    RemoveAt(b, k);
    assert multiset(a) == multiset(init) + multiset{x};
  }

  /** Taking one game out of a sum takes out its term. */
  lemma SumOfRemove(b: seq<Game>, k: nat, w: Game -> int)
    requires k < |b|
    ensures SumOf(b, w) == SumOf(b[..k] + b[k + 1..], w) + w(b[k])
  {
    var x := b[k];
    assert b == b[..k] + [x] + b[k + 1..];
    SumOfAppend(b[..k] + [x], b[k + 1..], w);
    SumOfAppend(b[..k], [x], w);
    SumOfAppend(b[..k], b[k + 1..], w);
    assert SumOf([x], w) == w(x) by {
      assert [x][..0] == [];
    }
  }

  /** The counters at every node depend only on which games were read, not on
      the order they were read in (the order of the children can). */
  lemma BuildOrderIndependent(games: seq<Game>, others: seq<Game>, maxDepth: int, path: seq<string>)
    requires multiset(games) == multiset(others)
    ensures CountAt(Build(games, maxDepth), path) == CountAt(Build(others, maxDepth), path)
    ensures ScoreAt(Build(games, maxDepth), path) == ScoreAt(Build(others, maxDepth), path)
  {
    BuildCountAt(games, maxDepth, path);
    BuildCountAt(others, maxDepth, path);
    SumOfPermutation(games, others, Through(path, maxDepth));
    SumOfPermutation(games, others, ResultThrough(path, maxDepth));
  }

  /** With every result in {-1, 0, 1}, the tree read from the games is well formed. */
  lemma {:induction false} BuildWellFormed(games: seq<Game>, maxDepth: int)
    requires forall i :: 0 <= i < |games| ==> -1 <= games[i].result <= 1
    ensures WellFormed(Build(games, maxDepth))
    decreases |games|
  {
    if games != [] {
      var init := games[..|games| - 1];
      BuildWellFormed(init, maxDepth);
      var g := games[|games| - 1];
      if |g.moves| > 0 {
        InsertPreservesWellFormed(Build(init, maxDepth), g.result, g.moves, 1, maxDepth);
      }
    }
  }

  /** No node of the tree read from the games that is more than `maxDepth`
      moves deep has been counted or has children. */
  lemma {:induction false} BuildShallow(games: seq<Game>, maxDepth: int)
    ensures Shallow(Build(games, maxDepth), 0, maxDepth)
    decreases |games|
  {
    if games != [] {
      var init := games[..|games| - 1];
      BuildShallow(init, maxDepth);
      var g := games[|games| - 1];
      if |g.moves| > 0 {
        InsertShallow(Build(init, maxDepth), g.result, g.moves, 0, maxDepth);
      }
    }
  }

  /** Two games 1. e4 e5 (a White win and a draw) and one game 1. d4 (a Black
      win), with `max_depth` 2: the root counts all three, `e2e4` counts two
      games scoring 1 in total, and `d2d4`, the last move of its game, is
      created but counts none. */
  lemma ThreeGames(e4: seq<string>, d4: seq<string>, games: seq<Game>)
    requires e4 == ["e2e4", "e7e5"] && d4 == ["d2d4"]
    requires games == [Game(1, e4), Game(0, e4), Game(-1, d4)]
    ensures CountAt(Build(games, 2), []) == 3 && ScoreAt(Build(games, 2), []) == 0
    ensures CountAt(Build(games, 2), e4[..1]) == 2 && ScoreAt(Build(games, 2), e4[..1]) == 1
    ensures CountAt(Build(games, 2), d4) == 0 && CountAt(Build(games, 2), e4) == 0
  {
    assert Reaches(e4, e4[..1], 0, 2) && !Reaches(d4, e4[..1], 0, 2);
    assert !Reaches(e4, d4, 0, 2) && !Reaches(d4, d4, 0, 2);
    assert !Reaches(e4, e4, 0, 2) && !Reaches(d4, e4, 0, 2);
    RootCounts(games[0], games[1], games[2]);
    ThroughCounts(games[0], games[1], games[2], e4[..1]);
    ThroughCounts(games[0], games[1], games[2], d4);
    ThroughCounts(games[0], games[1], games[2], e4);
  }

  /** The root counts every game with a move. */
  lemma RootCounts(g0: Game, g1: Game, g2: Game)
    requires |g0.moves| > 0 && |g1.moves| > 0 && |g2.moves| > 0
    ensures CountAt(Build([g0, g1, g2], 2), []) == 3
    ensures ScoreAt(Build([g0, g1, g2], 2), []) == g0.result + g1.result + g2.result
  {
    BuildCountAt([g0, g1, g2], 2, []);
    SumOfThree(g0, g1, g2, Through([], 2));
    SumOfThree(g0, g1, g2, ResultThrough([], 2));
  }

  /** The counters at `path` after three games, term by term. */
  lemma ThroughCounts(g0: Game, g1: Game, g2: Game, path: seq<string>)
    ensures CountAt(Build([g0, g1, g2], 2), path) ==
              Through(path, 2)(g0) + Through(path, 2)(g1) + Through(path, 2)(g2)
    ensures ScoreAt(Build([g0, g1, g2], 2), path) ==
              ResultThrough(path, 2)(g0) + ResultThrough(path, 2)(g1) + ResultThrough(path, 2)(g2)
  {
    BuildCountAt([g0, g1, g2], 2, path);
    SumOfThree(g0, g1, g2, Through(path, 2));
    SumOfThree(g0, g1, g2, ResultThrough(path, 2));
  }

  lemma SumOfThree(x: Game, y: Game, z: Game, w: Game -> int)
    ensures SumOf([x, y, z], w) == w(x) + w(y) + w(z)
  {
    assert [x][..0] == [];
    assert SumOf([x], w) == w(x);
    assert [x, y][..1] == [x];
    assert SumOf([x, y], w) == w(x) + w(y);
    assert [x, y, z][..2] == [x, y];
  }

  /** The same three games build exactly this tree: `e2e4` with two games
      and its reply `e7e5` created but uncounted, then `d2d4` created but
      uncounted, in the order the moves were first seen. */
  lemma ThreeGamesTree(e4: seq<string>, d4: seq<string>, games: seq<Game>, t: Tree)
    requires e4 == ["e2e4", "e7e5"] && d4 == ["d2d4"]
    requires games == [Game(1, e4), Game(0, e4), Game(-1, d4)]
    requires t == Tree(White, 0, 3, [("e2e4", Tree(Black, 1, 2, [("e7e5", Empty(White))])), ("d2d4", Empty(Black))])
    ensures Build(games, 2) == t
  {
    var c1 := Tree(Black, 1, 1, [("e7e5", Empty(White))]);
    var c2 := Tree(Black, 1, 2, [("e7e5", Empty(White))]);
    var t1 := Tree(White, 1, 1, [("e2e4", c1)]);
    var t2 := Tree(White, 1, 2, [("e2e4", c2)]);
    BuildThree(games[0], games[1], games[2], 2);
    FirstGame(e4, c1, t1);
    SecondGame(e4, c1, c2, t1, t2);
    ThirdGame(d4, t2);
  }

  /** Reading three games is recording them one after the other. */
  lemma BuildThree(g0: Game, g1: Game, g2: Game, maxDepth: int)
    ensures Build([g0, g1, g2], maxDepth) ==
              Record(Record(Record(Empty(White), g0, maxDepth), g1, maxDepth), g2, maxDepth)
  {
    assert [g0][..0] == [];
    assert Build([g0], maxDepth) == Record(Empty(White), g0, maxDepth);
    assert [g0, g1][..1] == [g0];
    assert Build([g0, g1], maxDepth) == Record(Build([g0], maxDepth), g1, maxDepth);
    assert [g0, g1, g2][..2] == [g0, g1];
  }

  /** In a White node whose children are `e2e4` with two games and a second
      move with none, `eval_cut_off` 1 leaves `e2e4` as the only candidate and
      the best move, and `eval_cut_off` 2 leaves no candidate: a count equal to
      the cut-off does not pass it, one more does. */
  lemma ThreeGamesBest(t: Tree)
    requires |t.children| == 2 && t.color == White
    requires t.children[0].0 == "e2e4" && t.children[0].1.count == 2
    requires t.children[1].1.count == 0
    ensures HasCandidate(t, 1) && |Candidates(t, 1)| > 0 && t.children[BestChild(t, 1)].0 == "e2e4"
    ensures !HasCandidate(t, 2)
  {
    assert Passing(t.children, 1, 2) == [];
    assert Passing(t.children, 1, 1) == [];
    assert Passing(t.children, 1, 0) == [0];
    CandidatesNonEmpty(t, 1);
    assert BestOf(Candidates(t, 1), true) == 0;
  }

  /** For the three-game tree, `to_dict` names `e2e4` as best with
      `eval_cut_off` 1 and returns `None` with `eval_cut_off` 2. */
  lemma ThreeGamesToDict(t: Tree, values: PgnValues)
    requires t == Tree(White, 0, 3, [("e2e4", Tree(Black, 1, 2, [("e7e5", Empty(White))])), ("d2d4", Empty(Black))])
    ensures values.evalCutOff == 2 ==> ToDict(t, values).None?
    ensures values.evalCutOff == 1 ==>
              ToDict(t, values).Some? && Lookup(ToDict(t, values).value.fields, "best") == Some(Str("e2e4"))
  {
    ThreeGamesBest(t);
    if values.evalCutOff == 1 {
      assert UniqueKeys(t.children) && MovesNotReserved(t);
      ToDictHead(t, values);
    }
  }

  /** The first game, 1. e4 e5 won by White, into a fresh root. */
  lemma FirstGame(e4: seq<string>, c1: Tree, t1: Tree)
    requires e4 == ["e2e4", "e7e5"]
    requires c1 == Tree(Black, 1, 1, [("e7e5", Empty(White))]) && t1 == Tree(White, 1, 1, [("e2e4", c1)])
    ensures InsertTree(Empty(White), 1, e4, 1, 2) == t1
  {
    assert e4[1..] == ["e7e5"];
    assert NewChild(Empty(Black), 1, e4[1..], 2, 2) == Empty(White);
    InsertAssigns(Empty(Black), 1, e4[1..], 2, 2);
    AssignNew([], "e7e5", Empty(White));
    assert InsertTree(Empty(Black), 1, e4[1..], 2, 2) == c1;
    assert NewChild(Empty(White), 1, e4, 1, 2) == c1;
    InsertAssigns(Empty(White), 1, e4, 1, 2);
    AssignNew([], "e2e4", c1);
  }

  /** The second game, 1. e4 e5 drawn, follows the existing moves. */
  lemma SecondGame(e4: seq<string>, c1: Tree, c2: Tree, t1: Tree, t2: Tree)
    requires e4 == ["e2e4", "e7e5"]
    requires c1 == Tree(Black, 1, 1, [("e7e5", Empty(White))]) && t1 == Tree(White, 1, 1, [("e2e4", c1)])
    requires c2 == Tree(Black, 1, 2, [("e7e5", Empty(White))]) && t2 == Tree(White, 1, 2, [("e2e4", c2)])
    ensures InsertTree(t1, 0, e4, 1, 2) == t2
  {
    assert e4[1..] == ["e7e5"];
    IndexOfAt(c1.children, "e7e5", 0);
    assert ChildFor(c1, "e7e5") == Empty(White);
    assert NewChild(c1, 0, e4[1..], 2, 2) == Empty(White);
    InsertAssigns(c1, 0, e4[1..], 2, 2);
    assert Assign(c1.children, "e7e5", Empty(White)) == c1.children;
    assert InsertTree(c1, 0, e4[1..], 2, 2) == c2;
    IndexOfAt(t1.children, "e2e4", 0);
    assert ChildFor(t1, "e2e4") == c1;
    assert NewChild(t1, 0, e4, 1, 2) == c2;
    InsertAssigns(t1, 0, e4, 1, 2);
    assert Assign(t1.children, "e2e4", c2) == [("e2e4", c2)];
  }

  /** The third game, 1. d4 won by Black, adds a new uncounted child last. */
  lemma ThirdGame(d4: seq<string>, t2: Tree)
    requires d4 == ["d2d4"]
    requires t2 == Tree(White, 1, 2, [("e2e4", Tree(Black, 1, 2, [("e7e5", Empty(White))]))])
    ensures InsertTree(t2, -1, d4, 1, 2) == t2.(score := 0, count := 3, children := t2.children + [("d2d4", Empty(Black))])
  {
    InsertAssigns(t2, -1, d4, 1, 2);
    assert "d2d4" !in Keys(t2.children);
    AssignNew(t2.children, "d2d4", Empty(Black));
  }
}
