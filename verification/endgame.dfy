/**
 updateEndgameStatus: the endgame starts when fewer than ENDGAME_THRESHOLD
 pieces remain on the board, and risk mode, in which draws are valued
 differently, is on in the endgame while both players have as many pieces.
 */
module Endgame {
  import opened GameModel

  datatype Flags = Flags(endgamePhase: bool, riskMode: bool)

  function Abs(x: int): int
  {
    if x < 0 then -x else x
  }

  function UpdateEndgameStatus<B, M>(game: Game<B, M>, board: B, playerID: int, cfg: Config): (f: Flags)
    ensures f.endgamePhase <==> game.pieceCount(board, 1) + game.pieceCount(board, 2) < cfg.endgameThreshold
    ensures f.riskMode <==>
      f.endgamePhase && game.pieceCount(board, playerID) == game.pieceCount(board, Opponent(playerID))
    ensures !f.endgamePhase ==> !f.riskMode
  {
    var total := game.pieceCount(board, 1) + game.pieceCount(board, 2);
    var endgamePhase := total < cfg.endgameThreshold;
    if endgamePhase then
      var myCount := game.pieceCount(board, playerID);
      var oppCount := game.pieceCount(board, Opponent(playerID));
      Flags(true, Abs(myCount - oppCount) == 0)
    else
      Flags(false, false)
  }

  /** Both players' engines at the same board agree on the endgame and risk-mode flags. */
  lemma FlagsAgreeAcrossPlayers<B, M>(game: Game<B, M>, board: B, playerID: int, cfg: Config)
    requires playerID == 1 || playerID == 2
    ensures UpdateEndgameStatus(game, board, playerID, cfg) == UpdateEndgameStatus(game, board, Opponent(playerID), cfg)
  {
  }
}
