# Monte Carlo tree search of a checkers engine, in Dafny

This project models the search bookkeeping of the `StudentAI` checkers engine
(`src/checkers-cpp/StudentAI.cpp`). It proves properties of that model. The engine picks its move by
Monte Carlo tree search. Each iteration does four things:

- it selects a frontier node by UCT;
- it expands that node into one child per legal move;
- it plays a random playout from one of the new children;
- it adds the playout's result to every node on the path back to the root.

Between turns the engine reuses its tree: it re-roots the tree on the child for the
opponent's move, and after the search on the child for its own move, and frees
every other node.

The board and move classes belong to the surrounding game framework. So does
their code for move generation, move application, game-over detection and piece counting.
They are a type parameter each, and their operations form a `Game` record of
functions (`game.dfy`). The constants `ENDGAME_THRESHOLD`,
`MAX_SIMULATION_DEPTH`, `DRAW_VALUE_DEFAULT` and `DRAW_VALUE_RISK` are not
defined in any source file of the engine shown, so they form a `Config` record.

Nodes are immutable values with a sequence of children. The C++ parent
pointer becomes an index path from the root: the ancestors of a node are the
nodes at the prefixes of its path. Manual deletion becomes the sequence of
freed paths in deletion order. That sequence is proved to name every node of the
deleted subtree exactly once and nothing else.

Modules, one per component:

| file | module | program part |
|---|---|---|
| `options.dfy` | `Options` | nullable pointers |
| `game.dfy` | `GameModel` | board adapter, constants, `opponentID` |
| `search_tree.dfy` | `SearchTree` | `Node`, paths, the tree invariant |
| `pruning.dfy` | `TreePruning` | `pruneTreeForNextMove`, `deleteSubtree` |
| `argmax.dfy` | `ArgMax` | the strict-`>` scans of `selectNode` and `getBestChild` |
| `selection.dfy` | `Selection` | `selectNode` |
| `expansion.dfy` | `Expansion` | `expandNode` |
| `playout.dfy` | `Playout` | `simulatePlayout` |
| `backpropagation.dfy` | `Backpropagation` | `backpropagate` |
| `best_child.dfy` | `BestChild` | `getBestChild` |
| `endgame.dfy` | `Endgame` | `updateEndgameStatus` |
| `search_loop.dfy` | `SearchLoop` | the select-expand-simulate-backpropagate loop of `GetMove` |
| `agent.dfy` | `StudentAgent` | the constructor and the rest of `GetMove` |

The tree invariant `WellFormed` says three things:

- a terminal node has no children;
- an expanded node has exactly one child per legal move, in enumeration order;
- every child carries its move, the board with that move applied and the other player to move, and has no more visits than its parent.

The model proves that expansion, backpropagation and a whole turn of
`GetMove` keep this invariant.

This code departs from textbook MCTS in several places. The model follows the code as written:

- The code adds the playout result unchanged at every level (`StudentAI.cpp:177`). It does not flip the result for the player to move.
- The code expands all legal moves at once (`StudentAI.cpp:123-130`). It does not keep a set of untried moves.
- The exploration term is `sqrt(log(v + 1) / (c + 1))` (`StudentAI.cpp:101`). Unvisited children get no infinite priority.
- The two expansion branches of `GetMove` (`StudentAI.cpp:242-255`) do the same thing, so the model has one branch.
- The playout picks uniformly random moves (`StudentAI.cpp:160`). It uses no heuristic move scoring.
- The code has no random-move fallback when time is short. Its allocation is at least 50 ms (`StudentAI.cpp:217`).

## Model

| member | source | states |
|---|---|---|
| `GameModel.Opponent` | src/checkers-cpp/StudentAI.cpp:5 | The opponent is always 1 or 2. For a player 1 or 2 it is the other of the two, and any other value maps to 1. |
| `SearchTree.NewNode` | src/checkers-cpp/StudentAI.cpp:14-25 | A new node has zero visits, zero wins and no children, keeps the given board, player and move, and is terminal exactly when the game is over on its board. |
| `StudentAgent.NewAgent` | src/checkers-cpp/StudentAI.cpp:4-11 | The initial engine has a single root for the initial board with itself to move. Both flags are off, and for player 1 or 2 it starts consistent: the tree is well formed, the root holds the engine's board, and a root with children has the opponent to move. |
| `Endgame.UpdateEndgameStatus` | src/checkers-cpp/StudentAI.cpp:39-56 | The endgame flag holds exactly when the total piece count is below the threshold. Risk mode holds exactly in the endgame with equal piece counts, so it is always off outside the endgame. |
| `Endgame.FlagsAgreeAcrossPlayers` | src/checkers-cpp/StudentAI.cpp:39-56 | For players 1 and 2, both engines at the same board compute the same endgame and risk-mode flags. |
| `TreePruning.FirstMatch` | src/checkers-cpp/StudentAI.cpp:62-69 | The match is the first child whose move equals the observed move. There is none exactly when no child carries it. |
| `TreePruning.PruneTreeForNextMove` | src/checkers-cpp/StudentAI.cpp:59-78 | A null root stays null and nothing is freed. A root is kept exactly when some child carries the move, and the kept root is the first such child. With no match the whole old tree is freed. |
| `TreePruning.Reroot` | src/checkers-cpp/StudentAI.cpp:70-77 | The chosen child becomes the root. The old root is the last node freed. |
| `TreePruning.RerootExact` | src/checkers-cpp/StudentAI.cpp:59-77 | Every node of the old tree is either freed exactly once or kept at the same position under the new root, never both. Nothing outside the old tree is freed. |
| `TreePruning.RerootPostOrder` | src/checkers-cpp/StudentAI.cpp:70-77 | A re-root frees no node before any of its descendants: the other children's subtrees post-order, then the old root. |
| `TreePruning.PruneNoMatchFreesAll` | src/checkers-cpp/StudentAI.cpp:59-77 | When no child carries the move, no root is left and every node of the old tree is freed exactly once, never before any of its descendants. |
| `TreePruning.DeleteSubtree` | src/checkers-cpp/StudentAI.cpp:80-87 | Deletion frees at least one node, and the subtree's own root is freed last. |
| `TreePruning.DeleteSubtreePostOrder` | src/checkers-cpp/StudentAI.cpp:80-87 | Deletion is post-order at every level: no node is freed before any of its descendants. |
| `TreePruning.DeleteChildrenPostOrder` | src/checkers-cpp/StudentAI.cpp:71-75 | Deleting the sibling subtrees in child order frees no node before any of its descendants. |
| `TreePruning.DeleteSubtreeExact` | src/checkers-cpp/StudentAI.cpp:80-87 | deleteSubtree frees exactly the nodes of the subtree, each once. |
| `TreePruning.DeleteChildrenExact` | src/checkers-cpp/StudentAI.cpp:71-75 | Deleting the children after a given index, except the kept one, frees exactly their subtrees' nodes, each once. |
| `ArgMax.FirstMax` | src/checkers-cpp/StudentAI.cpp:93-106 | The scan with a strict `>` returns the first index of a maximal value when that value beats the initial best. It returns nothing exactly when no value beats the initial best. |
| `Selection.SelectNode` | src/checkers-cpp/StudentAI.cpp:90-110 | The returned path is reachable from the root and ends at a node that is terminal or childless. Each step goes to the first child of maximal UCT score. A failure happens only where no child beats -1e9, which is the C++ null dereference. Failure is impossible when results and the exploration term are non-negative. |
| `Selection.SelectionDeterministic` | src/checkers-cpp/StudentAI.cpp:90-110 | Any two greedy descents that stop at a frontier node or at a stuck node are the same path, so the selected node is unique. |
| `Expansion.ExpandNode` | src/checkers-cpp/StudentAI.cpp:113-131 | A terminal node is unchanged. With no legal move the node only becomes terminal and gains no children. Otherwise exactly one child per legal move is appended in enumeration order, each with its move, the other player to move and the board with the move applied; nothing else about the node changes. |
| `Expansion.ExpandKeepsInvariants` | src/checkers-cpp/StudentAI.cpp:113-131 | An expanded node keeps its board, move, player and visits. Expanding a frontier node of a well-formed tree gives a well-formed subtree: one child per legal move, each with zero visits. Results stay non-negative. |
| `Playout.PlayoutFrom` | src/checkers-cpp/StudentAI.cpp:134-168 | A playout applies at most MAX_SIMULATION_DEPTH moves and ends at the cap only after applying all of them. A win or draw ends on a game-over board with that winner. A "no moves" end is on a live board where the player to move has no legal move. |
| `Playout.SimulatePlayout` | src/checkers-cpp/StudentAI.cpp:134-168 | The loop computes the playout of the reference definition, and the value it returns is that playout's score (`ScoresPlayout`). It returns 1.0 when the engine wins and 0.0 when the other player wins. A drawn game, a player without moves, or the depth cap gives the draw value, which is the risk-mode value while risk mode is on. |
| `Backpropagation.Backpropagate` | src/checkers-cpp/StudentAI.cpp:171-180 | The root gains exactly one visit and the result. Its board, move, player, terminal flag and number of children are unchanged. |
| `Backpropagation.BackpropagateOnPath` | src/checkers-cpp/StudentAI.cpp:171-180 | The node and each of its ancestors gain exactly one visit and the result. Nothing else about them changes except their children. |
| `Backpropagation.BackpropagateOffPath` | src/checkers-cpp/StudentAI.cpp:171-180 | Every node that is not an ancestor of the target is unchanged, together with its whole subtree. |
| `Backpropagation.BackpropagateShape` | src/checkers-cpp/StudentAI.cpp:171-180 | The tree keeps its shape: exactly the same paths lead to nodes. |
| `Backpropagation.BackpropagateWellFormed` | src/checkers-cpp/StudentAI.cpp:171-180 | The tree invariant is kept, in particular that no child has more visits than its parent. |
| `Backpropagation.BackpropagateWinsNonNeg` | src/checkers-cpp/StudentAI.cpp:171-180 | A non-negative result keeps every node's accumulated result non-negative. |
| `BestChild.GetBestChild` | src/checkers-cpp/StudentAI.cpp:183-206 | There is no best child exactly when the root has no children. The choice is the first maximal win rate when some win rate exceeds -1, and otherwise the first maximal visit count. With non-negative results the visit fallback is never used. |
| `SearchLoop.ExpandSelected` | src/checkers-cpp/StudentAI.cpp:241-255 | The result is an `ExpandedAt` step. A terminal selected node leaves the tree and path unchanged. Otherwise the node is replaced in place by its expansion, and the iteration continues from child `pick % size` of it when it gained children, or from the node itself when it did not. |
| `SearchLoop.ExpandInPlaceKeepsInvariants` | src/checkers-cpp/StudentAI.cpp:241-255 | Expanding a frontier node in place keeps the root's board, move, player and visits, the tree invariant, and non-negative results. |
| `SearchLoop.SelectAndExpand` | src/checkers-cpp/StudentAI.cpp:240-255 | The first half of an iteration: the path `selectNode` chooses, then the expansion step there, with the playout's start node a node of the new tree. It fails only at a stuck path, where the C++ would follow a null child, and never with non-negative results and exploration term. |
| `SearchLoop.IterationKeepsInvariants` | src/checkers-cpp/StudentAI.cpp:240-260 | Expanding the selected frontier node and adding a value along the path to the playout's start adds exactly one visit to the root. The root keeps its board, player and move, the tree invariant is kept, and a non-negative value keeps results non-negative. |
| `SearchLoop.SearchIteration` | src/checkers-cpp/StudentAI.cpp:239-261 | An iteration fails only at the selection's null dereference: when it fails, some greedy descent from the root is stuck at a node whose children all score at most -1e9. It cannot fail with non-negative results and exploration term. Otherwise it returns what the iteration did (an `Iteration` record of the `IterationStep` witnesses): the node chosen by `selectNode` is expanded in place, the playout starts at child `pick % size` of it (or at the node itself when it has no children), and that playout's score is backpropagated along the path to the playout's start. The root gains exactly one visit and keeps its board, player and move, and the tree invariant and non-negative results are kept. |
| `SearchLoop.RunSearch` | src/checkers-cpp/StudentAI.cpp:230-262 | The result is reached from the start by a chain of n `IterationStep`s, iteration k using the oracle values `pick(k)` and `roll(k, _)`. After n iterations the root has exactly n more visits and the same board and player, and the tree invariant is kept. The loop fails only when the tree reached by some earlier iterations has a stuck selection (`CrashedDuring`). |
| `StudentAgent.ReuseOrRebuild` | src/checkers-cpp/StudentAI.cpp:220-225 | The search starts from the first child carrying the observed move, if any. Otherwise it starts from a fresh root for the current board with the engine to move. |
| `StudentAgent.CommitChoice` | src/checkers-cpp/StudentAI.cpp:269-298 | With children, the best child's move is played and that child becomes the root. Without children, the first legal move is played on a fresh root with the opponent to move. With no legal move either, the empty move is returned and nothing changes. |
| `StudentAgent.GetMove` | src/checkers-cpp/StudentAI.cpp:209-302 | A turn reuses the subtree for the opponent's move and adds exactly one root visit per iteration. It plays the best child and re-roots on it, and it sets the endgame flags from the board after the opponent's move. The searched tree is the start after the given number of search iterations (`SearchedFrom`), run with the risk mode just computed. A consistent engine stays consistent, the searched root has the engine to move, and the move played, whether from the tree or the `moves[0]` fallback, is legal for the engine at the board after the opponent's move. Without children in the searched tree the engine plays its first legal move, advances its board and keeps a fresh root with the opponent to move. With no legal move it plays the empty move and keeps board and tree. The turn crashes only when a search iteration's selection gets stuck (`CrashedDuring`), and never with non-negative draw values, non-negative exploration term and non-negative accumulated results in the incoming tree. |

## Left out

- Board, move generation, move application, win detection and piece counting: they belong to the game framework and are not part of this model. They are parameters (`Game`), and move equality is the match test.
- Time management: the clock, `totalTimeUsedMs` and the time-bounded `while (true)` loop of `GetMove` (lines 215-218, 232-238, 264-267) read a wall clock. The loop runs a caller-supplied number of iterations instead.
- `rand()`: each call takes an oracle value. That value is reduced with `%` exactly as the code does it.
- The exploration term `1.414 * sqrt(log(parent visits + 1) / (child visits + 1))` is floating point, so it is the parameter `explore(parent visits, child visits)`. Win rates, results and their sums are exact `real` values, so double rounding is not modelled.
- `new`/`delete`: nodes are values. Deletion is recorded as the sequence of freed paths, and the parent pointer is replaced by paths.
- Draw values and the exploration term are not constrained. A selection that finds no child above -1e9 is undefined behaviour in the code (a null dereference), and the model reports it as `Crashed`, and proves that a crash happens only where selection gets stuck. It also proves this cannot happen when draw values, the exploration term at visit counts and the results already in the tree are non-negative.
- `visits` and the piece counts are `int` in the code. They are unbounded here, so overflow is not modelled.
- The headers `src/checkers-cpp/StudentAI.h` and `src/checkers-test/StudentAI.h` only declare functions, such as `isFullyExpanded` and the `MCTS` class. Those functions are not defined in the modelled code and do not match it, so they are not part of this model.
- Board and move values: the search loop and the turn take board and move types that hold no heap references (`!new`), because their contracts quantify over intermediate trees. The C++ `Board` and `Move` are copied by value.
- `StudentAgent.GetMove`: legality of the returned move and consistency of the new tree are proved only when the opponent's move is valid or matches no child. If an invalid move equalled a generated move, the reused child would not hold the engine's board.
