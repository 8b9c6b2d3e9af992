/**
 The search tree. A node owns its board snapshot, the move that produced it,
 the player to move, its statistics and its children. The parent pointer of
 the program is replaced by index paths from the root: the node at path
 [i, j] is child j of child i of the root, and a node's ancestors are the
 nodes at the prefixes of its path.
 */
module SearchTree {
  import opened GameModel

  type Path = seq<nat>

  datatype Node<B, M> = Node(
    state: B,
    move: M,
    player: int,
    visits: nat,
    wins: real,
    terminal: bool,
    children: seq<Node<B, M>>
  )

  /** The Node constructor: no statistics, no children, terminal when the game is over. */
  function NewNode<B, M>(game: Game<B, M>, state: B, player: int, move: M): (n: Node<B, M>)
    ensures n.state == state && n.move == move && n.player == player
    ensures n.visits == 0 && n.wins == 0.0 && n.children == []
    ensures n.terminal <==> game.isGameOver(state)
  {
    Node(state, move, player, 0, 0.0, game.isGameOver(state), [])
  }

  /** Selection descends no further than a node that is terminal or has no children. */
  predicate IsFrontier<B, M>(n: Node<B, M>)
  {
    n.terminal || |n.children| == 0
  }

  /** Average result per visit, and 0 for a node never visited. */
  function WinRate<B, M>(n: Node<B, M>): real
  {
    if n.visits > 0 then n.wins / (n.visits as real) else 0.0
  }

  lemma WinRateBounds<B, M>(n: Node<B, M>)
    ensures n.wins >= 0.0 ==> WinRate(n) >= 0.0
    ensures 0.0 <= n.wins <= n.visits as real ==> WinRate(n) <= 1.0
  {
  }

  predicate ValidPath<B, M>(t: Node<B, M>, p: Path)
    decreases |p|
  {
    |p| == 0 || (p[0] < |t.children| && ValidPath(t.children[p[0]], p[1..]))
  }

  /** The node reached from `t` along `p`. */
  function At<B, M>(t: Node<B, M>, p: Path): Node<B, M>
    requires ValidPath(t, p)
    decreases |p|
  {
    if |p| == 0 then t else At(t.children[p[0]], p[1..])
  }

  /** `t` with the node at `p` replaced by `n`. */
  function Update<B, M>(t: Node<B, M>, p: Path, n: Node<B, M>): Node<B, M>
    requires ValidPath(t, p)
    decreases |p|
  {
    if |p| == 0 then n
    else t.(children := t.children[p[0] := Update(t.children[p[0]], p[1..], n)])
  }

  /** `q` names an ancestor of the node at `p`, or that node itself. */
  predicate IsPrefix(q: Path, p: Path)
  {
    |q| <= |p| && q == p[..|q|]
  }

  /** The fields a parent relies on when it links to a child. */
  ghost predicate SameLink<B, M>(a: Node<B, M>, b: Node<B, M>)
  {
    a.state == b.state && a.move == b.move && a.player == b.player && a.visits == b.visits
  }

  /**
   Child `i` of `t` was produced by the expansion of `t`: it carries the i-th
   legal move, the board with that move applied, the other player to move, and
   no more visits than its parent.
   */
  ghost predicate ChildLink<B, M>(game: Game<B, M>, t: Node<B, M>, i: nat)
    requires i < |t.children|
  {
    var moves := game.legalMoves(t.state, t.player);
    var c := t.children[i];
    i < |moves|
    && c.move == moves[i]
    && c.state == game.applyMove(t.state, moves[i])
    && c.player == Opponent(t.player)
    && c.visits <= t.visits
  }

  /**
   The tree invariant kept by the search: terminal nodes have no children, an
   expanded node has one child per legal move in enumeration order, and every
   child is linked to its parent as the expansion made it.
   */
  ghost predicate WellFormed<B, M>(game: Game<B, M>, t: Node<B, M>)
  {
    && (t.terminal ==> |t.children| == 0)
    && (|t.children| > 0 ==> |t.children| == |game.legalMoves(t.state, t.player)|)
    && forall i :: 0 <= i < |t.children| ==> ChildLink(game, t, i) && WellFormed(game, t.children[i])
  }

  /** No node's accumulated result is negative. */
  ghost predicate WinsNonNeg<B, M>(t: Node<B, M>)
  {
    t.wins >= 0.0 && forall i :: 0 <= i < |t.children| ==> WinsNonNeg(t.children[i])
  }

  lemma {:induction false} PathAppend<B, M>(t: Node<B, M>, p: Path, i: nat)
    requires ValidPath(t, p) && i < |At(t, p).children|
    ensures ValidPath(t, p + [i]) && At(t, p + [i]) == At(t, p).children[i]
    decreases |p|
  {
    if |p| == 0 {
      assert p + [i] == [i];
      assert [i][1..] == [];
    } else {
      assert (p + [i])[0] == p[0];
      assert (p + [i])[1..] == p[1..] + [i];
      PathAppend(t.children[p[0]], p[1..], i);
    }
  }

  lemma {:induction false} UpdateAt<B, M>(t: Node<B, M>, p: Path, n: Node<B, M>)
    requires ValidPath(t, p)
    ensures ValidPath(Update(t, p, n), p) && At(Update(t, p, n), p) == n
    decreases |p|
  {
    if |p| > 0 {
      UpdateAt(t.children[p[0]], p[1..], n);
    }
  }

  lemma {:induction false} UpdateKeepsRoot<B, M>(t: Node<B, M>, p: Path, n: Node<B, M>)
    requires ValidPath(t, p) && SameLink(At(t, p), n)
    ensures SameLink(Update(t, p, n), t)
    ensures Update(t, p, n).terminal == (if |p| == 0 then n.terminal else t.terminal)
  {
  }

  /** Replacing a node by a well-formed node with the same link keeps the tree well formed. */
  lemma {:induction false} UpdateWellFormed<B, M>(game: Game<B, M>, t: Node<B, M>, p: Path, n: Node<B, M>)
    requires WellFormed(game, t) && ValidPath(t, p)
    requires WellFormed(game, n) && SameLink(At(t, p), n)
    ensures WellFormed(game, Update(t, p, n))
    decreases |p|
  {
    if |p| > 0 {
      var c := t.children[p[0]];
      UpdateWellFormed(game, c, p[1..], n);
      var u := Update(c, p[1..], n);
      UpdateKeepsRoot(c, p[1..], n);
      var r := Update(t, p, n);
      assert r.children == t.children[p[0] := u];
      forall i | 0 <= i < |r.children|
        ensures ChildLink(game, r, i) && WellFormed(game, r.children[i])
      {
        assert ChildLink(game, t, i);
      }
    }
  }

  /** Replacing a node by one whose results are non-negative keeps all results non-negative. */
  lemma {:induction false} UpdateWinsNonNeg<B, M>(t: Node<B, M>, p: Path, n: Node<B, M>)
    requires WinsNonNeg(t) && ValidPath(t, p) && WinsNonNeg(n)
    ensures WinsNonNeg(Update(t, p, n))
    decreases |p|
  {
    if |p| > 0 {
      UpdateWinsNonNeg(t.children[p[0]], p[1..], n);
    }
  }

  /** Every subtree of a well-formed tree is well formed. */
  lemma {:induction false} WellFormedAt<B, M>(game: Game<B, M>, t: Node<B, M>, p: Path)
    requires WellFormed(game, t) && ValidPath(t, p)
    ensures WellFormed(game, At(t, p))
    decreases |p|
  {
    if |p| > 0 {
      WellFormedAt(game, t.children[p[0]], p[1..]);
    }
  }

  lemma {:induction false} WinsNonNegAt<B, M>(t: Node<B, M>, p: Path)
    requires WinsNonNeg(t) && ValidPath(t, p)
    ensures WinsNonNeg(At(t, p))
    decreases |p|
  {
    if |p| > 0 {
      WinsNonNegAt(t.children[p[0]], p[1..]);
    }
  }
}
