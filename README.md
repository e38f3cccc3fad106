# Opening-book tree, modelled in Dafny

The program builds a chess opening book from a collection of games. It parses
its command line into positional arguments and `--flag value…` groups. It folds
every game's main line into a tree of moves, where each node counts the games
that passed through it and adds up their results (1 for a White win, -1 for a
Black win, 0 otherwise). It then prunes the tree into a nested mapping that
names the `best` move at each node and keeps the well-played children. A second
tree kind asks an external engine for the best move at each kept node. It keeps
parent links so that it can rebuild the move path from the root.

The model has seven modules, one per file:

- `Core` (`core.dfy`): the colours and the result conversion.
- `Config` (`config.dfy`): the command-line tokenizer and the option getters. `ParseArgv` is the source's loops, proved equal to the pure `Parse`. The properties of the parsed context are proved about `Parse`.
- `PgnTree` (`pgn_tree.dfy`): the statistics tree.
  - `PgnNode` is a class whose `Insert` updates `score`, `count` and the `children` sequence in place. It is proved to leave its ghost `Model` equal to the pure `InsertTree` of the old model.
  - `eval` and `to_dict` are pure functions of that value tree (`Eval`, `ToDict`).
- `Games` (`games.dfy`): the tree obtained by reading a sequence of games, and what its counters add up to.
- `MixTree` (`mix_tree.dfy`): the engine-assisted tree.
  - `InputNode` is a class with a fixed `parent` link whose `Insert` updates `count` and `children` in place, proved against `InsertInput`.
  - `PathFromRoot` walks the parent links.
  - `MixToDict` is the serialization, with the engine as an oracle from move paths to moves.
- `Dicts` (`dicts.dfy`): Python's insertion-ordered `dict` as a sequence of (key, value) pairs. It covers assignment, lookup, the `{k: v for …}` comprehension, and the JSON-like values `to_dict` produces.
- `Wrappers` (`wrappers.dfy`): `Option` and `Result`.

A game continuation (`chess.pgn.GameNode`) is the sequence of its remaining
move keys: `moves[0]` is `node.move.uci()`, and `|moves| > 1` stands for
`node.variations` being non-empty.

## Model

| member | source | states |
|---|---|---|
| Core.NextColor | src/core.py:9-14 | the next colour always differs from the given one |
| Core.NextColorInvolution | src/core.py:9-14 | switching colour twice gives back the original colour |
| Core.ConvertResult | src/core.py:17-26 | the result is in -1..1; it is 1 exactly for "1-0" and -1 exactly for "0-1"; "1/2-1/2" (like any other string) gives 0 |
| Config.IsFlag | src/config.py:29-30 | a token is a flag when it starts with '-'; `Parse` proves that no parameter or value token is one, and every flag key is |
| Config.TakeArgs | src/config.py:40-42 | the inner loop stops at the first flag token or at the end, and returns exactly the non-flag tokens it passed over |
| Config.ParseArgv | src/config.py:33-57 | the loops compute `Parse(tokens)`; the `ERROR` branch is unreachable because each outer iteration starts at a flag |
| Config.Parse | src/config.py:33-57 | `params` is the longest prefix of non-flag tokens; every flag key starts with '-'; no value token does |
| Config.ParseReconstructs | src/config.py:36-55 | with no repeated flag, the params followed by each flag and its values, in insertion order, give back the tokens |
| Config.ParseLastOccurrenceWins | src/config.py:55 | a flag that occurs several times keeps the values of its last occurrence |
| Config.KeyToFlag | src/config.py:25-26 | the flag is `--` followed by the key, so the key is recovered by dropping two characters |
| Config.HasFlag | src/config.py:21-23 | `has_flag` holds exactly when the getters find a value list for `--key`; `ParseHasFlag` relates it to the tokens |
| Config.ParseHasFlag | src/config.py:21-23 | `has_flag(key)` holds iff the token `--key` occurs on the command line |
| Config.GetValueOrDefault | src/config.py:9-13 | the default when `--key` is absent; otherwise the conversion of the first value where `get_value_or_exit` gives one, and the default exactly where it exits |
| Config.GetValueOrExit | src/config.py:15-19 | the only failure is exit status -3 |
| Config.ParseValueOrDefault | src/config.py:9-19 | for a flag whose last occurrence has values `vs`: `get_value_or_default` converts `vs[0]`, or gives the default when `vs` is empty; `get_value_or_exit` gives `vs[0]` or exits with -3 |
| Config.ParseMissingValue | src/config.py:9-19 | for a flag that never occurs, the default is returned or the program exits with -3 |
| PgnTree.ValuesOf | src/pgn_tree.py:9-14 | each threshold is the conversion of its flag's first value, or its default (500, 10, 5) when the flag is absent or has no value; `debug` holds iff `--debug` is among the flags |
| PgnTree.ValuesOfTokens | src/pgn_tree.py:9-14 | on a parsed command line, `debug` holds iff a `--debug` token is given, and each threshold whose flag token is missing keeps its default |
| PgnTree.PgnNode.constructor | src/pgn_tree.py:18-23 | a new node has the given colour and values, no games and no children |
| PgnTree.Empty | src/pgn_tree.py:18-23 | the value of a new node: zero score and count, no children |
| PgnTree.InsertTree | src/pgn_tree.py:25-31 | insert keeps the colour, adds `result` to the score and exactly one to the count |
| PgnTree.PgnNode.Insert | src/pgn_tree.py:25-31 | the in-place insert leaves the node valid and its subtree holding `InsertTree` of what it held |
| PgnTree.PgnNode.Count | src/pgn_tree.py:26-27 | the node's score gains `result` and its count one; nothing else changes |
| PgnTree.PgnNode.AddChild | src/pgn_tree.py:28-29 | a fresh empty child of the other colour, sharing `values`, is added last under the move |
| PgnTree.PgnNode.Descend | src/pgn_tree.py:30-31 | the child at the move's position holds `InsertTree` of what it held; the other children are unchanged |
| PgnTree.InsertByParts | src/pgn_tree.py:25-31 | counting, creating the child and descending, done in that order, amount to `InsertTree` |
| PgnTree.InsertAssigns | src/pgn_tree.py:25-31 | insert is the dict assignment `children[move] = child` of the new child: an existing move keeps its position, a new one goes last |
| PgnTree.InsertChild | src/pgn_tree.py:28-31 | after insert, the move's child exists; it is the old or new child, into which the rest of the game was inserted exactly when insert descends |
| PgnTree.InsertKeepsChildren | src/pgn_tree.py:28-29 | insert keeps every existing key and adds at most the current move, last; no other child changes; a new child has the other colour |
| PgnTree.InsertPreservesWellFormed | src/pgn_tree.py:25-31 | with results in -1..1, every node keeps unique keys, `abs(score) <= count`, children of the other colour and `count >=` the children's counts together |
| PgnTree.InsertShallow | src/pgn_tree.py:30-31 | inserting at depth `level + 1` counts no node deeper than `max_depth`; nodes are created at most one level deeper |
| PgnTree.Eval | src/pgn_tree.py:33-36 | 0 for a node with no games; otherwise the average, i.e. `eval * count == score` |
| PgnTree.EvalBounded | src/pgn_tree.py:33-36 | with `abs(score) <= count`, `eval` is in -1..1, `eval * count == score`, and it is 0 when there are no games |
| PgnTree.Passing | src/pgn_tree.py:40 | the candidates are exactly the children counted in more than `eval_cut_off` games, in dict order |
| PgnTree.CandidatesNonEmpty | src/pgn_tree.py:40-43 | there are candidates iff some child passes `eval_cut_off` |
| PgnTree.BestOf | src/pgn_tree.py:45-48 | the `max`/`min` position: no candidate beats it, and it strictly beats every earlier candidate (first one wins a tie) |
| PgnTree.BestChildOptimal | src/pgn_tree.py:40-48 | the best move is a candidate. No candidate has a higher eval for White or a lower one for Black. Every earlier candidate is strictly worse. |
| PgnTree.ToDict | src/pgn_tree.py:38-67 | `to_dict` returns `None` iff no child passes `eval_cut_off`, and a mapping otherwise |
| PgnTree.ToDictShape | src/pgn_tree.py:50-67 | the mapping is the `best` entry, then the debug entries, then the kept children's mappings, with unique keys |
| PgnTree.ToDictHead | src/pgn_tree.py:45-56 | `best` is the chosen candidate's move; `score`, `count` and `eval` are present iff debug is on, with the node's values |
| PgnTree.ToDictChild | src/pgn_tree.py:59-64 | a child's move maps to the child's own `to_dict` when the child has children, passes `node_cut_off` and serializes to a mapping; otherwise the move is absent |
| PgnTree.ToDictKeys | src/pgn_tree.py:50-67 | the keys are exactly `best`, the debug keys when debug is on, and the moves of the kept children |
| PgnTree.ChildDictsKeys | src/pgn_tree.py:59-64 | the serialized children have unique keys, namely the moves of the kept children |
| PgnTree.ChildDictsLookup | src/pgn_tree.py:59-64 | each move maps to its child's serialization when the child is kept, and is absent otherwise |
| PgnTree.ComprehendFails | src/pgn_tree.py:67 | the comprehension fails iff some element is a bare string that is not two characters long |
| PgnTree.ToDictAsWritten | src/pgn_tree.py:38-67 | `to_dict` as written returns `None` exactly when no child passes `eval_cut_off`; `ToDictAsWrittenFails` shows every other call raises |
| PgnTree.ToDictAsWrittenFails | src/pgn_tree.py:50-67 | as written, `to_dict` raises exactly when there is a best move to report; it never returns a mapping |
| Games.Build | generator.py:24-30 | the reading loop folds `Record` over the games into a White root; `BuildCountAt`, `BuildOrderIndependent`, `BuildWellFormed` and `BuildShallow` state what it computes |
| Games.Record | generator.py:27-28 | reading a game keeps the root's colour; the root counts the game exactly when it has moves (it is inserted at depth 1) |
| Games.InsertCountAt | src/pgn_tree.py:25-31 | one insert adds one game and its result at exactly the nodes whose path is a proper prefix of the moves and lies within `max_depth` |
| Games.BuildCountAt | src/pgn_tree.py:25-31 | after reading the games, each node's count and score are the number and the result sum of the games counted there |
| Games.BuildOrderIndependent | src/pgn_tree.py:26-29 | reading the same games in any order gives the same count and score at every node |
| Games.BuildWellFormed | src/pgn_tree.py:25-31 | with results in -1..1, the tree read from any games is well formed |
| Games.BuildShallow | src/pgn_tree.py:30-31 | the tree read from any games counts nothing deeper than `max_depth` |
| Games.ThreeGames | src/pgn_tree.py:25-31 | e4 e5 (won), e4 e5 (drawn), d4 (lost) with `max_depth` 2: the root counts 3; `e2e4` counts 2 with score 1; `d2d4` and `e7e5`, each the last move of its games, count 0 |
| Games.ThreeGamesTree | src/pgn_tree.py:25-31 | the same games build exactly one tree: `e2e4` (2 games, score 1) holding an uncounted `e7e5`, then an uncounted `d2d4` |
| Games.ThreeGamesBest | src/pgn_tree.py:40-48 | a child with 2 games passes `eval_cut_off` 1 and is best; at `eval_cut_off` 2 there is no candidate |
| Games.ThreeGamesToDict | src/pgn_tree.py:40-50 | for that tree, `to_dict` names `e2e4` as best at `eval_cut_off` 1 and returns `None` at 2 |
| MixTree.InputNode.constructor | src/mix_tree.py:40-45 | a new node has the given colour, parent and values, no games and no children |
| MixTree.InsertInput | src/mix_tree.py:47-52 | insert keeps the colour and adds exactly one to the count |
| MixTree.InputNode.Insert | src/mix_tree.py:47-52 | the in-place insert leaves the node valid and its subtree holding `InsertInput` of what it held |
| MixTree.InputNode.Count | src/mix_tree.py:48 | the count gains one; nothing else changes |
| MixTree.InputNode.AddChild | src/mix_tree.py:49-50 | a fresh empty child of the other colour, whose parent is this node, is added last under the move; the earlier children are kept |
| MixTree.InputNode.Descend | src/mix_tree.py:51-52 | the child at the move's position holds `InsertInput` of what it held; the other children are unchanged |
| MixTree.InsertInputAssigns | src/mix_tree.py:47-52 | insert is the dict assignment of the new child under the move |
| MixTree.InsertInputKeepsChildren | src/mix_tree.py:47-52 | insert keeps every key and adds at most the current move, last. Only that move's child changes: it gains one game exactly when insert descends. A new child has the other colour. |
| MixTree.InsertInputAsWritten | src/mix_tree.py:47-52 | `insert` as written: when it does not raise, it keeps the colour and adds one to the count; `InsertAsWrittenFails` and `InsertAsWrittenAgrees` say when it raises and that it otherwise agrees with `InsertInput` |
| MixTree.InsertAsWrittenFails | src/mix_tree.py:50 | as written, inserting into a fresh node raises; the intended insert creates the child |
| MixTree.InsertAsWrittenAgrees | src/mix_tree.py:47-52 | whenever the as-written insert does not raise, it agrees with the intended one |
| MixTree.KeyOf | src/mix_tree.py:59-62 | the move found is the first move under which `last` sits among the children |
| MixTree.NotAbove | src/mix_tree.py:40-45 | parent links only lead up towards the root, so a node is never its own ancestor |
| MixTree.InputNode.PathFromRoot | src/mix_tree.py:54-57 | the path has one move per parent hop up to the root; `RootPath` and `ChildPath` give its value |
| MixTree.InputNode.PathTo | src/mix_tree.py:59-62 | the path down to this node followed by one more move, namely the first move under which `last` sits |
| MixTree.RootPath | src/mix_tree.py:54-56 | the path of a node without a parent is empty |
| MixTree.ChildPath | src/mix_tree.py:57-62 | a node stored under move `k` of its parent, and under no earlier move, has its parent's path followed by `k` |
| MixTree.LinkedChild | src/mix_tree.py:49-50 | a child created under a linked parent is linked too, and its path extends its parent's by its move |
| MixTree.MixToDict | src/mix_tree.py:67-86 | `__to_dict` always returns a mapping |
| MixTree.MixChildDictsKeys | src/mix_tree.py:73-83 | the serialized children have unique keys: the moves of the children that have children and more than `cut_off` games |
| MixTree.MixToDictShape | src/mix_tree.py:67-86 | the mapping has unique keys, and `best` maps to the given move. The keys are exactly `best` and the moves of the kept children. |
| MixTree.MixToDictChild | src/mix_tree.py:73-86 | a kept child's move maps to the child's own serialization, with the oracle's move for the child's path; any other move is absent |

## Left out

- The chess engine (`get_best_for_node`, `get_best_for_node_threaded`, the engine path and the engine objects, src/mix_tree.py:11, 23-36, 65, 76): a foreign process. It is an oracle function from a move path to a move, applied to a child's path as `path_from_root` would compute it.
- The thread pool in `__to_dict` (src/mix_tree.py:77-79): concurrency only; its results are modelled as the sequential map of the oracle over the kept children.
- `to_dict` of `InputNode` (src/mix_tree.py:64-65) only asks the engine for the root's move: `MixToDict` takes that move as its `best` parameter.
- `sys.argv`, `print` and `exit` (src/config.py:34, 46-47, 19): the tokens are a parameter; an exit is a `Failure(Exit(code))`.
- Config.ParseArgv: requires every token to be non-empty, because `__is_flag` indexes the first character and raises on an empty argument.
- Config.GetValueOrDefault: the dynamic `type(default)(…)` conversion is the parameter `convert`.
- `PgnTree.ValuesOf` passes the option names `-node_cut_off`, `-eval_cut_off` and `-max_depth`. Their leading '-' makes the flags looked up `---node_cut_off` and so on. The model keeps these names as written.
- `MixValues` (src/mix_tree.py:14-20) names its initializer `__int__`, so the class has no `__init__` taking arguments and `MixValues(ctx)` raises `TypeError`. The mix mode therefore fails at start-up, as it also does because `MixNode` (generator.py:41) is undefined. The two thresholds the modelled logic reads, `cut_off` and `threshold`, are plain parameters. `time`, `debug` and `stockfish` only matter to the engine and are not modelled.
- Floating-point division in `eval` (src/pgn_tree.py:36): `Eval` uses exact `real` division.
- generator.py is not part of this model apart from its reading loop (`Games.Record` and `Build`). File and JSON I/O, timing and the calls to undefined `MixNode`, `size` and `cut_size` are left out.
- src/pgn_tree.py:6 imports a `Node` that src/core.py does not define, and `PgnNode` derives from it. The model treats `PgnNode` as a plain class.
- PgnTree.ToDictShape, ToDictHead, ToDictChild and ToDictKeys: they assume no move key is `best`, `score`, `count` or `eval` (`MovesNotReserved`); UCI moves never are. `MixTree.MixToDictShape` and `MixToDictChild` likewise assume no move is `best` (`NoBestMove`).
- MixTree.InputNode.Insert: the `result` argument is accepted and ignored in the source, so the method omits it.
- MixTree.InputNode.Insert does not state that it keeps parent links consistent. A new child's links and path follow from `AddChild` and `LinkedChild`, but they are not carried through the recursion.
- MixTree.InputNode.PathFromRoot: a ghost function over the parent links rather than a compiled method. Nodes are compared by identity, as `==` does for objects without `__eq__`.
- Dict order is modelled, so tie-breaks in `max`/`min` and key order in the output follow insertion order. Python's hash-based dict internals are not modelled.
- The node of a game's last move is created but never counted (src/pgn_tree.py:28-31), so in the three-game example `d2d4` counts 0 (`Games.ThreeGames`).

## Findings

| source | as written | input that shows it | evidently intended | confidence | as-written member | corrected member |
|---|---|---|---|---|---|---|
| src/pgn_tree.py:50 | `list(("best", best))` builds the two-element list `["best", best]`. The comprehension at line 67 must then unpack the string `"best"` into a key and a value. | any node with a child counted in more than `eval_cut_off` games: `to_dict` raises `ValueError` instead of returning a mapping | a single `("best", best)` entry | not executed | PgnTree.ToDictAsWrittenFails | PgnTree.ToDictHead |
| src/mix_tree.py:50 | `InputNode(next_color(self.color), self.values)` passes two arguments to an initializer that takes colour, root and values | the first game inserted into a fresh root: the new child cannot be created, so `insert` raises `TypeError` | create the child with root `self` and the shared values | not executed | MixTree.InsertAsWrittenFails | MixTree.InsertInputKeepsChildren |
