/**
 The search loop of GetMove: every iteration selects a frontier node,
 expands it in place, plays out from one of its new children and adds the
 playout's score along the path back to the root. Iteration `k` takes the
 oracle values `pick(k)` for the child to play out from and `roll(k, _)` for
 the playout's rand() calls.
 */
module SearchLoop {
  import opened Options
  import opened GameModel
  import opened SearchTree
  import opened Selection
  import opened Expansion
  import opened Playout
  import opened Backpropagation

  /** The draw values are non-negative, so no result that is backpropagated is negative. */
  predicate DrawsNonNeg(cfg: Config)
  {
    cfg.drawValueDefault >= 0.0 && cfg.drawValueRisk >= 0.0
  }

  /**
   The expansion step of an iteration from `root`: the node at `selected`,
   unless it is terminal, is expanded in place into `tree`; the playout then
   starts at `leaf`, which is child `pick % |children|` of it when it has
   gained children and the selected node itself otherwise.
   */
  ghost predicate ExpandedAt<B, M>(game: Game<B, M>, root: Node<B, M>, selected: Path, pick: nat,
                                   tree: Node<B, M>, leaf: Path)
  {
    && ValidPath(root, selected)
    && (At(root, selected).terminal ==> tree == root && leaf == selected)
    && (!At(root, selected).terminal ==>
          && ValidPath(tree, selected)
          && ExpandedFrom(game, At(root, selected), At(tree, selected))
          && tree == Update(root, selected, At(tree, selected))
          && (|At(tree, selected).children| == 0 ==> leaf == selected)
          && (|At(tree, selected).children| > 0 ==> leaf == selected + [pick % |At(tree, selected).children|]))
  }

  /** The expansion step, as ExpandedAt describes it. */
  method ExpandSelected<B, M>(game: Game<B, M>, root: Node<B, M>, selected: Path, pick: nat)
    returns (tree: Node<B, M>, path: Path)
    requires ValidPath(root, selected)
    ensures ExpandedAt(game, root, selected, pick, tree, path)
  {
    tree := root;
    path := selected;
    var node := At(root, selected);
    if !node.terminal {
      var expanded := ExpandNode(game, node);
      UpdateAt(root, selected, expanded);
      tree := Update(root, selected, expanded);
      if |expanded.children| > 0 {
        path := selected + [pick % |expanded.children|];
      }
    }
  }

  /**
   Expanding a frontier node in place keeps the root's board, move, player and
   visits, the tree invariant, and non-negative results.
   */
  lemma ExpandInPlaceKeepsInvariants<B, M>(game: Game<B, M>, root: Node<B, M>, selected: Path, expanded: Node<B, M>)
    requires ValidPath(root, selected) && IsFrontier(At(root, selected))
    requires ExpandedFrom(game, At(root, selected), expanded)
    ensures SameLink(Update(root, selected, expanded), root)
    ensures WellFormed(game, root) ==> WellFormed(game, Update(root, selected, expanded))
    ensures WinsNonNeg(root) ==> WinsNonNeg(Update(root, selected, expanded))
  {
    var node := At(root, selected);
    ExpandKeepsInvariants(game, node, expanded);
    UpdateKeepsRoot(root, selected, expanded);
    if WellFormed(game, root) {
      WellFormedAt(game, root, selected);
      UpdateWellFormed(game, root, selected, expanded);
    }
    if WinsNonNeg(root) {
      WinsNonNegAt(root, selected);
      UpdateWinsNonNeg(root, selected, expanded);
    }
  }

  /**
   `next` is `root` after one iteration of the search loop: the node selected
   from `root` is expanded in place, a playout is scored from the node where
   the expansion step leaves off, and its value is added along the path to
   that node.
   */
  ghost predicate IterationStep<B(!new), M(!new)>(game: Game<B, M>, cfg: Config, explore: (int, int) -> real,
                                      playerID: int, riskMode: bool, root: Node<B, M>,
                                      pick: nat, roll: nat -> nat, next: Node<B, M>)
  {
    exists selected: Path, tree: Node<B, M>, leaf: Path, value: real ::
      && Selected(root, selected, explore)
      && ExpandedAt(game, root, selected, pick, tree, leaf)
      && ValidPath(tree, leaf)
      && ScoresPlayout(game, cfg, playerID, riskMode, At(tree, leaf).state, At(tree, leaf).player, roll, value)
      && next == Backpropagate(tree, leaf, value)
  }

  /**
   An iteration keeps the root's board, player and move, adds exactly one
   visit to it, and keeps the tree invariant and, for a non-negative value,
   non-negative results.
   */
  lemma IterationKeepsInvariants<B, M>(game: Game<B, M>, root: Node<B, M>, selected: Path, pick: nat,
                                       tree: Node<B, M>, leaf: Path, value: real)
    requires ValidPath(root, selected) && IsFrontier(At(root, selected))
    requires ExpandedAt(game, root, selected, pick, tree, leaf) && ValidPath(tree, leaf)
    ensures Backpropagate(tree, leaf, value).visits == root.visits + 1
    ensures var next := Backpropagate(tree, leaf, value);
      next.state == root.state && next.player == root.player && next.move == root.move
    ensures WellFormed(game, root) ==> WellFormed(game, Backpropagate(tree, leaf, value))
    ensures WinsNonNeg(root) && value >= 0.0 ==> WinsNonNeg(Backpropagate(tree, leaf, value))
  {
    if !At(root, selected).terminal {
      var expanded := At(tree, selected);
      ExpandInPlaceKeepsInvariants(game, root, selected, expanded);
    }
    if WellFormed(game, tree) {
      BackpropagateWellFormed(game, tree, leaf, value);
    }
    if WinsNonNeg(tree) && value >= 0.0 {
      BackpropagateWinsNonNeg(tree, leaf, value);
    }
  }

  /**
   The first half of an iteration: selectNode, then the expansion step. It
   fails only where selection would follow a null child.
   */
  method SelectAndExpand<B, M>(game: Game<B, M>, explore: (int, int) -> real, root: Node<B, M>, pick: nat)
    returns (found: bool, selected: Path, tree: Node<B, M>, leaf: Path)
    ensures found ==>
      && Selected(root, selected, explore)
      && ExpandedAt(game, root, selected, pick, tree, leaf)
      && ValidPath(tree, leaf)
    ensures !found ==> exists p :: StuckAt(root, p, explore)
    ensures NonNegExploration(explore) && WinsNonNeg(root) ==> found
  {
    tree := root;
    leaf := [];
    selected := [];
    var selection := SelectNode(root, explore);
    if selection.None? {
      return false, selected, tree, leaf;
    }
    found := true;
    selected := selection.value;
    tree, leaf := ExpandSelected(game, root, selected, pick);
    if !At(root, selected).terminal && |At(tree, selected).children| > 0 {
      PathAppend(tree, selected, pick % |At(tree, selected).children|);
    }
  }

  /**
   What an iteration did: the path it selected, the tree after the expansion
   step, the path to the playout's start, the playout's score, and the tree
   after backpropagation.
   */
  datatype Iteration<B, M> = Iteration(selected: Path, tree: Node<B, M>, leaf: Path, score: real, next: Node<B, M>)

  /**
   One iteration of the search loop. It fails (None) only where the program
   would follow a null child during selection. Otherwise it reports the
   IterationStep it took: the selected path, the tree expanded there, the
   playout's start and score, and the tree with the score backpropagated,
   whose root has exactly one more visit and the same board, player and move,
   and which stays well formed.
   */
  method SearchIteration<B, M>(game: Game<B, M>, cfg: Config, explore: (int, int) -> real,
                               playerID: int, riskMode: bool, root: Node<B, M>,
                               pick: nat, roll: nat -> nat)
    returns (r: Option<Iteration<B, M>>)
    ensures r.Some? ==>
      var it := r.value;
      && Selected(root, it.selected, explore)
      && ExpandedAt(game, root, it.selected, pick, it.tree, it.leaf)
      && ValidPath(it.tree, it.leaf)
      && ScoresPlayout(game, cfg, playerID, riskMode, At(it.tree, it.leaf).state, At(it.tree, it.leaf).player, roll, it.score)
      && it.next == Backpropagate(it.tree, it.leaf, it.score)
    ensures r.Some? ==> r.value.next.visits == root.visits + 1
    ensures r.Some? ==>
      r.value.next.state == root.state && r.value.next.player == root.player && r.value.next.move == root.move
    ensures r.Some? && WellFormed(game, root) ==> WellFormed(game, r.value.next)
    ensures r.Some? && WinsNonNeg(root) && DrawsNonNeg(cfg) ==> WinsNonNeg(r.value.next)
    ensures r.None? ==> exists p :: StuckAt(root, p, explore)
    ensures NonNegExploration(explore) && WinsNonNeg(root) ==> r.Some?
  {
    var found, selected, tree, leaf := SelectAndExpand(game, explore, root, pick);
    if !found {
      return None;
    }
    var start := At(tree, leaf);
    var score := SimulatePlayout(game, cfg, playerID, riskMode, start.state, start.player, roll);
    IterationKeepsInvariants(game, root, selected, pick, tree, leaf, score);
    r := Some(Iteration(selected, tree, leaf, score, Backpropagate(tree, leaf, score)));
  }

  /** The rand() values of iteration `k`'s playout. */
  function RollAt(roll: (nat, nat) -> nat, k: nat): nat -> nat
  {
    d => roll(k, d)
  }

  /** Each tree of `trees` is the one before it after iteration `k` of the search loop. */
  ghost predicate SearchRun<B(!new), M(!new)>(game: Game<B, M>, cfg: Config, explore: (int, int) -> real,
                                              playerID: int, riskMode: bool, trees: seq<Node<B, M>>,
                                              pick: nat -> nat, roll: (nat, nat) -> nat)
  {
    forall k :: 0 <= k < |trees| - 1 ==>
      IterationStep(game, cfg, explore, playerID, riskMode, trees[k], pick(k), RollAt(roll, k), trees[k + 1])
  }

  /** `searched` is `start` after `iterations` iterations of the search loop. */
  ghost predicate SearchedFrom<B(!new), M(!new)>(game: Game<B, M>, cfg: Config, explore: (int, int) -> real,
                                                 playerID: int, riskMode: bool, start: Node<B, M>, iterations: nat,
                                                 pick: nat -> nat, roll: (nat, nat) -> nat, searched: Node<B, M>)
  {
    exists trees: seq<Node<B, M>> ::
      && |trees| == iterations + 1
      && trees[0] == start
      && trees[iterations] == searched
      && SearchRun(game, cfg, explore, playerID, riskMode, trees, pick, roll)
  }

  /**
   Some iteration before the `iterations`-th starts from a tree reached by the
   earlier iterations in which selection gets stuck: the program would
   follow a null child there.
   */
  ghost predicate CrashedDuring<B(!new), M(!new)>(game: Game<B, M>, cfg: Config, explore: (int, int) -> real,
                                                  playerID: int, riskMode: bool, start: Node<B, M>, iterations: nat,
                                                  pick: nat -> nat, roll: (nat, nat) -> nat)
  {
    exists n: nat, stuck: Node<B, M> ::
      && n < iterations
      && SearchedFrom(game, cfg, explore, playerID, riskMode, start, n, pick, roll, stuck)
      && exists p :: StuckAt(stuck, p, explore)
  }

  /**
   The search loop run `iterations` times, iteration `k` with the oracle
   values `pick(k)` and `roll(k, _)`: the root gains exactly one visit per
   iteration and keeps its board and player. It fails only when an
   iteration's selection gets stuck.
   */
  method RunSearch<B(!new), M(!new)>(game: Game<B, M>, cfg: Config, explore: (int, int) -> real,
                                     playerID: int, riskMode: bool, start: Node<B, M>, iterations: nat,
                                     pick: nat -> nat, roll: (nat, nat) -> nat)
    returns (r: Option<Node<B, M>>)
    ensures r.Some? ==> SearchedFrom(game, cfg, explore, playerID, riskMode, start, iterations, pick, roll, r.value)
    ensures r.Some? ==> r.value.visits == start.visits + iterations
    ensures r.Some? ==> r.value.state == start.state && r.value.player == start.player
    ensures r.Some? && WellFormed(game, start) ==> WellFormed(game, r.value)
    ensures r.Some? && WinsNonNeg(start) && DrawsNonNeg(cfg) ==> WinsNonNeg(r.value)
    ensures r.None? ==> CrashedDuring(game, cfg, explore, playerID, riskMode, start, iterations, pick, roll)
    ensures NonNegExploration(explore) && DrawsNonNeg(cfg) && WinsNonNeg(start) ==> r.Some?
  {
    var root := start;
    var simulations := 0;
    ghost var trees := [start];
    while simulations < iterations
      invariant simulations <= iterations
      invariant |trees| == simulations + 1 && trees[0] == start && trees[simulations] == root
      invariant SearchRun(game, cfg, explore, playerID, riskMode, trees, pick, roll)
      invariant root.visits == start.visits + simulations
      invariant root.state == start.state && root.player == start.player
      invariant WellFormed(game, start) ==> WellFormed(game, root)
      invariant WinsNonNeg(start) && DrawsNonNeg(cfg) ==> WinsNonNeg(root)
    {
      var k := simulations;
      var step := SearchIteration(game, cfg, explore, playerID, riskMode, root, pick(k), RollAt(roll, k));
      if step.None? {
        assert SearchedFrom(game, cfg, explore, playerID, riskMode, start, simulations, pick, roll, root);
        return None;
      }
      var it := step.value;
      assert IterationStep(game, cfg, explore, playerID, riskMode, root, pick(k), RollAt(roll, k), it.next);
      trees := trees + [it.next];
      root := it.next;
      simulations := simulations + 1;
    }
    assert trees[iterations] == root;
    return Some(root);
  }
}
