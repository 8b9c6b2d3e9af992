/**
 The board adapter the search engine consumes, and the engine's tuning constants.
 The board and move types are parameters: their representation, the move generator
 and the win detection belong to the surrounding game framework, so they are
 modelled only through the operations the engine calls on them.
 */
module GameModel {

  /** The operations of the board and move classes that the engine calls. */
  datatype Game<!B, !M> = Game(
    legalMoves: (B, int) -> seq<M>,  // Board::getLegalMoves for a player, in enumeration order
    applyMove: (B, M) -> B,          // Board::applyMove on a copy of the board
    isGameOver: B -> bool,           // Board::isGameOver
    winner: B -> int,                // Board::getWinner: 1, 2, or 0 for a draw
    pieceCount: (B, int) -> int,     // Board::getPieceCount for a player
    noMove: M,                       // the default-constructed Move
    isValid: M -> bool               // Move::isValid
  )

  /**
   The engine's constants. None of them is defined in any source file of the
   engine shown, so they are configuration here.
   */
  datatype Config = Config(
    endgameThreshold: int,     // ENDGAME_THRESHOLD
    maxSimulationDepth: int,   // MAX_SIMULATION_DEPTH
    drawValueDefault: real,    // DRAW_VALUE_DEFAULT
    drawValueRisk: real        // DRAW_VALUE_RISK
  )

  /** The other player: 2 for player 1, and 1 for every other value. */
  function Opponent(player: int): (q: int)
    ensures q == 1 || q == 2
    ensures player == 1 || player == 2 ==> q != player && q + player == 3
    ensures player != 1 ==> q == 1
  {
    if player == 1 then 2 else 1
  }

  /** Draw outcomes are worth the risk-mode value while risk mode is on. */
  function DrawValue(cfg: Config, riskMode: bool): real
  {
    if riskMode then cfg.drawValueRisk else cfg.drawValueDefault
  }
}
