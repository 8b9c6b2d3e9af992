/**
 The engine's per-turn driver (StudentAI and its GetMove): re-root the tree
 on the opponent's move, or build a fresh root; set the endgame flags; run
 select, expand, simulate and backpropagate a number of times; play the best
 child and re-root the tree on it. The wall-clock budget of the program is
 replaced by a caller-supplied number of iterations, and every rand() call by
 an oracle value.
 */
module StudentAgent {
  import opened Options
  import opened GameModel
  import opened SearchTree
  import opened TreePruning
  import opened Selection
  import opened BestChild
  import opened Endgame
  import opened SearchLoop

  /** The state the engine keeps between turns. `rootNode` is never null between turns. */
  datatype Agent<B, M> = Agent(playerID: int, board: B, root: Node<B, M>, endgamePhase: bool, riskMode: bool)

  /**
   The engine is player 1 or 2, the tree is well formed, its root holds the
   engine's own board, and a root with children has the opponent to move
   (it is the child for the engine's last move).
   */
  ghost predicate Consistent<B, M>(game: Game<B, M>, a: Agent<B, M>)
  {
    && (a.playerID == 1 || a.playerID == 2)
    && WellFormed(game, a.root)
    && a.root.state == a.board
    && (|a.root.children| > 0 ==> a.root.player == Opponent(a.playerID))
  }

  /** The StudentAI constructor: a single root for the initial board, with the engine to move. */
  function NewAgent<B, M>(game: Game<B, M>, player: int, board: B): (a: Agent<B, M>)
    ensures a.playerID == player && a.board == board && !a.endgamePhase && !a.riskMode
    ensures a.root == NewNode(game, board, player, game.noMove)
    ensures (player == 1 || player == 2) ==> Consistent(game, a)
    ensures WinsNonNeg(a.root)
  {
    Agent(player, board, NewNode(game, board, player, game.noMove), false, false)
  }

  /**
   The start of a turn (GetMove up to the search): the first child carrying
   the observed move becomes the root; when there is none, a fresh root for
   the current board with the engine to move.
   */
  method ReuseOrRebuild<B, M(==)>(game: Game<B, M>, root: Node<B, M>, board: B, playerID: int, observed: M)
    returns (r: Node<B, M>)
    ensures FirstMatch(root.children, observed).Some? ==>
              r == root.children[FirstMatch(root.children, observed).value]
    ensures FirstMatch(root.children, observed).None? ==> r == NewNode(game, board, playerID, game.noMove)
    ensures WellFormed(game, root) ==> WellFormed(game, r)
    ensures WinsNonNeg(root) ==> WinsNonNeg(r)
  {
    var pruned := PruneTreeForNextMove(Some(root), observed);
    if pruned.root == None {
      r := NewNode(game, board, playerID, game.noMove);
    } else {
      r := pruned.root.value;
    }
  }

  /**
   The end of a turn (GetMove after the search). With a best child, its move
   is played and the child becomes the root. Without one, the first legal
   move of the engine is played on a fresh root with the opponent to move;
   and with no legal move either, nothing changes and the empty move is
   returned.
   */
  method CommitChoice<B, M>(game: Game<B, M>, searched: Node<B, M>, board: B, playerID: int)
    returns (root: Node<B, M>, nextBoard: B, move: M)
    ensures |searched.children| > 0 ==>
      exists i :: (&& 0 <= i < |searched.children|
                   && BestChoice(searched.children, i)
                   && root == searched.children[i]
                   && move == searched.children[i].move
                   && nextBoard == game.applyMove(board, move))
    ensures |searched.children| == 0 && |game.legalMoves(board, playerID)| > 0 ==>
      && move == game.legalMoves(board, playerID)[0]
      && nextBoard == game.applyMove(board, move)
      && root == NewNode(game, nextBoard, Opponent(playerID), game.noMove)
    ensures |searched.children| == 0 && |game.legalMoves(board, playerID)| == 0 ==>
      move == game.noMove && nextBoard == board && root == searched
  {
    var best := GetBestChild(searched);
    root := searched;
    nextBoard := board;
    move := game.noMove;
    if best.Some? {
      var i := best.value;
      move := searched.children[i].move;
      nextBoard := game.applyMove(nextBoard, move);
      root := Reroot(searched, i).root.value;
    } else {
      var moves := game.legalMoves(nextBoard, playerID);
      if |moves| > 0 {
        move := moves[0];
        nextBoard := game.applyMove(nextBoard, move);
        root := NewNode(game, nextBoard, Opponent(playerID), game.noMove);
      }
    }
  }

  /**
   The result of a turn: the program's undefined behaviour, or the move made.
   Both record the root the search started from.
   */
  datatype Decision<B, M> =
    | Crashed(start: Node<B, M>)
    | Decided(agent: Agent<B, M>, move: M, start: Node<B, M>, searched: Node<B, M>)

  /** The engine's board once the opponent's move, if it is a real move, is applied. */
  function BoardAfter<B, M>(game: Game<B, M>, board: B, opponentMove: M): B
  {
    if game.isValid(opponentMove) then game.applyMove(board, opponentMove) else board
  }

  /**
   GetMove. The search starts from the previous tree's child for the
   opponent's move when there is one (tree reuse), otherwise from a fresh
   root; the search is a chain of iterations from it, each adding one visit
   to it; the move returned is the best child's, which becomes the next root.
   With non-negative draw values, exploration term and accumulated results
   the program never follows a null child, and it crashes only where some
   iteration's selection gets stuck. Without a best child the engine plays
   its first legal move on a fresh root, or the empty move when it has none.
   A consistent engine stays consistent, and the move it plays is legal for
   itself.
   */
  method GetMove<B(!new), M(==, !new)>(game: Game<B, M>, cfg: Config, explore: (int, int) -> real,
                           a: Agent<B, M>, opponentMove: M, iterations: nat,
                           pick: nat -> nat, roll: (nat, nat) -> nat)
    returns (d: Decision<B, M>)
    ensures NonNegExploration(explore) && DrawsNonNeg(cfg) && WinsNonNeg(a.root) ==> d.Decided?
    ensures d.Decided? ==> d.agent.playerID == a.playerID
    ensures d.Decided? ==>
      var f := UpdateEndgameStatus(game, BoardAfter(game, a.board, opponentMove), a.playerID, cfg);
      d.agent.endgamePhase == f.endgamePhase && d.agent.riskMode == f.riskMode
    ensures FirstMatch(a.root.children, opponentMove).Some? ==>
      d.start == a.root.children[FirstMatch(a.root.children, opponentMove).value]
    ensures FirstMatch(a.root.children, opponentMove).None? ==>
      d.start == NewNode(game, BoardAfter(game, a.board, opponentMove), a.playerID, game.noMove)
    ensures d.Decided? ==>
      var f := UpdateEndgameStatus(game, BoardAfter(game, a.board, opponentMove), a.playerID, cfg);
      SearchedFrom(game, cfg, explore, a.playerID, f.riskMode, d.start, iterations, pick, roll, d.searched)
    ensures d.Crashed? ==>
      var f := UpdateEndgameStatus(game, BoardAfter(game, a.board, opponentMove), a.playerID, cfg);
      CrashedDuring(game, cfg, explore, a.playerID, f.riskMode, d.start, iterations, pick, roll)
    ensures d.Decided? ==> d.searched.visits == d.start.visits + iterations
    ensures d.Decided? ==> d.searched.state == d.start.state && d.searched.player == d.start.player
    ensures d.Decided? && |d.searched.children| > 0 ==>
      exists i :: (&& 0 <= i < |d.searched.children|
                   && BestChoice(d.searched.children, i)
                   && d.agent.root == d.searched.children[i]
                   && d.move == d.searched.children[i].move
                   && d.agent.board == game.applyMove(BoardAfter(game, a.board, opponentMove), d.move))
    ensures d.Decided? && |d.searched.children| == 0
            && |game.legalMoves(BoardAfter(game, a.board, opponentMove), a.playerID)| > 0 ==>
      && d.move == game.legalMoves(BoardAfter(game, a.board, opponentMove), a.playerID)[0]
      && d.agent.board == game.applyMove(BoardAfter(game, a.board, opponentMove), d.move)
      && d.agent.root == NewNode(game, d.agent.board, Opponent(a.playerID), game.noMove)
    ensures d.Decided? && |d.searched.children| == 0
            && |game.legalMoves(BoardAfter(game, a.board, opponentMove), a.playerID)| == 0 ==>
      d.move == game.noMove && d.agent.board == BoardAfter(game, a.board, opponentMove) && d.agent.root == d.searched
    ensures d.Decided? && WinsNonNeg(a.root) && DrawsNonNeg(cfg) ==> WinsNonNeg(d.agent.root)
    ensures d.Decided? && Consistent(game, a)
            && (game.isValid(opponentMove) || FirstMatch(a.root.children, opponentMove).None?) ==>
      && Consistent(game, d.agent)
      && d.searched.state == BoardAfter(game, a.board, opponentMove)
      && d.searched.player == a.playerID
      && (|d.searched.children| > 0 || |game.legalMoves(BoardAfter(game, a.board, opponentMove), a.playerID)| > 0 ==>
            d.move in game.legalMoves(BoardAfter(game, a.board, opponentMove), a.playerID))
  {
    var board := BoardAfter(game, a.board, opponentMove);
    var start := ReuseOrRebuild(game, a.root, board, a.playerID, opponentMove);
    var flags := UpdateEndgameStatus(game, board, a.playerID, cfg);
    var searched := RunSearch(game, cfg, explore, a.playerID, flags.riskMode, start, iterations, pick, roll);
    if searched.None? {
      return Crashed(start);
    }
    var root, nextBoard, move := CommitChoice(game, searched.value, board, a.playerID);
    d := Decided(Agent(a.playerID, nextBoard, root, flags.endgamePhase, flags.riskMode), move, start, searched.value);
  }
}
