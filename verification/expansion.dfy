/**
 expandNode: give a non-terminal node one child per legal move of its player
 to move, in the order the move generator lists them.
 */
module Expansion {
  import opened GameModel
  import opened SearchTree

  /** The child expandNode creates for move `mv` of `n`. */
  function ChildFor<B, M>(game: Game<B, M>, n: Node<B, M>, mv: M): Node<B, M>
  {
    NewNode(game, game.applyMove(n.state, mv), Opponent(n.player), mv)
  }

  /**
   `r` is `n` after expandNode: a terminal node is left as it is; a node whose
   player has no legal move becomes terminal and gains no children; otherwise
   exactly one child per legal move is appended, in enumeration order, each
   carrying its move, the other player to move and the board with the move
   applied, and nothing else about the node changes.
   */
  ghost predicate ExpandedFrom<B, M>(game: Game<B, M>, n: Node<B, M>, r: Node<B, M>)
  {
    var moves := game.legalMoves(n.state, n.player);
    if n.terminal then r == n
    else if |moves| == 0 then r == n.(terminal := true)
    else
      && r == n.(children := r.children)
      && |r.children| == |n.children| + |moves|
      && r.children[..|n.children|] == n.children
      && forall i :: 0 <= i < |moves| ==> r.children[|n.children| + i] == ChildFor(game, n, moves[i])
  }

  /** expandNode, with the three cases of ExpandedFrom. */
  method ExpandNode<B, M>(game: Game<B, M>, n: Node<B, M>) returns (r: Node<B, M>)
    ensures ExpandedFrom(game, n, r)
  {
    if n.terminal {
      return n;
    }
    var moves := game.legalMoves(n.state, n.player);
    if |moves| == 0 {
      return n.(terminal := true);
    }
    var children := n.children;
    for i := 0 to |moves|
      invariant |children| == |n.children| + i
      invariant children[..|n.children|] == n.children
      invariant forall j :: 0 <= j < i ==> children[|n.children| + j] == ChildFor(game, n, moves[j])
    {
      var nextState := game.applyMove(n.state, moves[i]);
      var nextPlayer := if n.player == 1 then 2 else 1;
      children := children + [NewNode(game, nextState, nextPlayer, moves[i])];
    }
    r := n.(children := children);
  }

  /**
   Expansion keeps the fields the parent links to, keeps the tree invariant
   at a frontier node, and keeps results non-negative.
   */
  lemma ExpandKeepsInvariants<B, M>(game: Game<B, M>, n: Node<B, M>, r: Node<B, M>)
    requires ExpandedFrom(game, n, r)
    ensures SameLink(n, r)
    ensures IsFrontier(n) && WellFormed(game, n) ==> WellFormed(game, r)
    ensures WinsNonNeg(n) ==> WinsNonNeg(r)
  {
    var moves := game.legalMoves(n.state, n.player);
    if n.terminal || |moves| == 0 {
      return;
    }
    var children := r.children;
    forall i | 0 <= i < |children|
      ensures WinsNonNeg(n) ==> WinsNonNeg(children[i])
    {
      if i >= |n.children| {
        assert children[i] == ChildFor(game, n, moves[i - |n.children|]);
      } else {
        assert children[i] == children[..|n.children|][i];
      }
    }
    if IsFrontier(n) {
      assert |n.children| == 0;
      forall i | 0 <= i < |children|
        ensures ChildLink(game, r, i) && WellFormed(game, children[i])
      {
        assert children[i] == ChildFor(game, n, moves[i]);
      }
    }
  }
}
