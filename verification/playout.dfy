/**
 simulatePlayout: play random moves from a board until the game is over,
 the player to move has no move, or MAX_SIMULATION_DEPTH moves have been
 played, and score the end from the engine's point of view. The random
 choice `rand() % moves.size()` takes the value of rand() at ply d from the
 oracle `roll(d)`.
 */
module Playout {
  import opened GameModel

  /** How a playout ended. `Won` carries a non-zero winner; winner 0 is a draw. */
  datatype PlayoutEnd = Won(winner: int) | Drawn | NoMoves | DepthCapped

  /** A finished playout: how it ended, how many moves it applied, the last board and its player to move. */
  datatype Rollout<B> = Rollout(end: PlayoutEnd, plies: nat, last: B, mover: int)

  /**
   The playout from ply `depth` on, with board `s` and `p` to move: the
   reference the loop of SimulatePlayout is proved against.
   */
  function PlayoutFrom<B, M>(game: Game<B, M>, s: B, p: int, roll: nat -> nat, depth: nat, maxDepth: int)
    : (r: Rollout<B>)
    ensures depth <= r.plies
    ensures r.end.DepthCapped? ==> r.plies == if depth < maxDepth then maxDepth else depth
    ensures !r.end.DepthCapped? ==> r.plies < maxDepth
    ensures r.end.Won? ==> game.isGameOver(r.last) && game.winner(r.last) == r.end.winner != 0
    ensures r.end.Drawn? ==> game.isGameOver(r.last) && game.winner(r.last) == 0
    ensures r.end.NoMoves? ==> !game.isGameOver(r.last) && |game.legalMoves(r.last, r.mover)| == 0
    decreases if depth < maxDepth then maxDepth - depth else 0
  {
    if depth >= maxDepth then Rollout(DepthCapped, depth, s, p)
    else if game.isGameOver(s) then
      Rollout(if game.winner(s) == 0 then Drawn else Won(game.winner(s)), depth, s, p)
    else
      var moves := game.legalMoves(s, p);
      if |moves| == 0 then Rollout(NoMoves, depth, s, p)
      else PlayoutFrom(game, game.applyMove(s, moves[roll(depth) % |moves|]), Opponent(p), roll, depth + 1, maxDepth)
  }

  /**
   `value` scores the reference playout from `state` with `player` to move
   for `playerID`: 1.0 when `playerID` wins, 0.0 when the other side wins,
   and the draw value (the risk-mode value while risk mode is on) for a drawn
   game, a player with no move, or the depth cap.
   */
  predicate ScoresPlayout<B, M>(game: Game<B, M>, cfg: Config, playerID: int, riskMode: bool,
                                state: B, player: int, roll: nat -> nat, value: real)
  {
    var end := PlayoutFrom(game, state, player, roll, 0, cfg.maxSimulationDepth).end;
    && (end == Won(playerID) ==> value == 1.0)
    && (end.Won? && end.winner != playerID ==> value == 0.0)
    && (!end.Won? ==> value == DrawValue(cfg, riskMode))
  }

  /** simulatePlayout returns the score of the reference playout. */
  method SimulatePlayout<B, M>(game: Game<B, M>, cfg: Config, playerID: int, riskMode: bool,
                               state: B, currentPlayer: int, roll: nat -> nat)
    returns (value: real)
    ensures ScoresPlayout(game, cfg, playerID, riskMode, state, currentPlayer, roll, value)
    ensures value == 1.0 || value == 0.0 || value == DrawValue(cfg, riskMode)
  {
    ghost var reference := PlayoutFrom(game, state, currentPlayer, roll, 0, cfg.maxSimulationDepth);
    var depth: nat := 0;
    var s := state;
    var playerTurn := currentPlayer;
    while depth < cfg.maxSimulationDepth
      invariant PlayoutFrom(game, s, playerTurn, roll, depth, cfg.maxSimulationDepth) == reference
      decreases cfg.maxSimulationDepth - depth
    {
      if game.isGameOver(s) {
        var winner := game.winner(s);
        if winner == 0 {
          return DrawValue(cfg, riskMode);
        } else if winner == playerID {
          return 1.0;
        } else {
          return 0.0;
        }
      }
      var moves := game.legalMoves(s, playerTurn);
      if |moves| == 0 {
        return DrawValue(cfg, riskMode);
      }
      var randIndex := roll(depth) % |moves|;
      s := game.applyMove(s, moves[randIndex]);
      playerTurn := if playerTurn == 1 then 2 else 1;
      depth := depth + 1;
    }
    return DrawValue(cfg, riskMode);
  }
}
