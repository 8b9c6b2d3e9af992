/**
 selectNode: descend from the root, at every level to the first child with
 the highest UCT value, until a node is terminal or has no children. The UCT
 value is the child's win rate plus an exploration term; the exploration
 term (a square root of a logarithm in floating point) is a parameter
 `explore(parentVisits, childVisits)`.
 */
module Selection {
  import opened Options
  import opened SearchTree
  import opened ArgMax

  /** The initial best value of the scan: a child must beat it to be chosen. */
  const SelectFloor: real := -1000000000.0

  /**
   The exploration term is non-negative wherever the program applies it, at
   visit counts; `1.414 * sqrt(log(a + 1) / (b + 1))` is.
   */
  ghost predicate NonNegExploration(explore: (int, int) -> real)
  {
    forall a: int, b: int :: a >= 0 && b >= 0 ==> explore(a, b) >= 0.0
  }

  /** The UCT values of the children of `n`, in child order. */
  function Scores<B, M>(n: Node<B, M>, explore: (int, int) -> real): (s: seq<real>)
    ensures |s| == |n.children|
  {
    seq(|n.children|, i requires 0 <= i < |n.children| =>
      WinRate(n.children[i]) + explore(n.visits, n.children[i].visits))
  }

  /** Every step of `p` from `t` goes to the first child of maximal score, which beats the floor. */
  ghost predicate GreedySteps<B, M>(t: Node<B, M>, p: Path, explore: (int, int) -> real)
    decreases |p|
  {
    |p| == 0 ||
      (&& !IsFrontier(t)
       && p[0] < |t.children|
       && IsFirstMax(Scores(t, explore), p[0])
       && Scores(t, explore)[p[0]] > SelectFloor
       && GreedySteps(t.children[p[0]], p[1..], explore))
  }

  /** `p` is where selection stops: reached greedily, and terminal or childless. */
  ghost predicate Selected<B, M>(t: Node<B, M>, p: Path, explore: (int, int) -> real)
  {
    ValidPath(t, p) && GreedySteps(t, p, explore) && IsFrontier(At(t, p))
  }

  /**
   `p` is where the program would dereference a null child: reached greedily,
   not a frontier, and no child's score beats the floor.
   */
  ghost predicate StuckAt<B, M>(t: Node<B, M>, p: Path, explore: (int, int) -> real)
  {
    && ValidPath(t, p) && GreedySteps(t, p, explore) && !IsFrontier(At(t, p))
    && forall j :: 0 <= j < |At(t, p).children| ==> Scores(At(t, p), explore)[j] <= SelectFloor
  }

  lemma {:induction false} GreedyExtend<B, M>(t: Node<B, M>, p: Path, i: nat, explore: (int, int) -> real)
    requires ValidPath(t, p) && GreedySteps(t, p, explore)
    requires !IsFrontier(At(t, p)) && i < |At(t, p).children|
    requires IsFirstMax(Scores(At(t, p), explore), i) && Scores(At(t, p), explore)[i] > SelectFloor
    ensures ValidPath(t, p + [i]) && GreedySteps(t, p + [i], explore)
    decreases |p|
  {
    PathAppend(t, p, i);
    if |p| > 0 {
      assert (p + [i])[0] == p[0];
      assert (p + [i])[1..] == p[1..] + [i];
      GreedyExtend(t.children[p[0]], p[1..], i, explore);
    } else {
      assert p + [i] == [i];
      assert [i][1..] == [];
    }
  }

  /**
   selectNode. Some(p): the node at `p` is reachable from `t`, terminal or
   childless, and every step chose the first child of maximal score. None:
   some node on the way has children none of which scores above the floor,
   where the program would follow a null child. With non-negative results
   and a non-negative exploration term, as the program's UCT formula has,
   that cannot happen.
   */
  method SelectNode<B, M>(t: Node<B, M>, explore: (int, int) -> real) returns (r: Option<Path>)
    ensures r.Some? ==> Selected(t, r.value, explore)
    ensures r.None? ==> exists p :: StuckAt(t, p, explore)
    ensures NonNegExploration(explore) && WinsNonNeg(t) ==> r.Some?
  {
    var path: Path := [];
    var node := t;
    while |node.children| > 0 && !node.terminal
      invariant ValidPath(t, path) && node == At(t, path)
      invariant GreedySteps(t, path, explore)
      invariant WinsNonNeg(t) ==> WinsNonNeg(node)
      decreases node
    {
      var scores := Scores(node, explore);
      if NonNegExploration(explore) && WinsNonNeg(t) {
        WinRateBounds(node.children[0]);
        assert explore(node.visits, node.children[0].visits) >= 0.0;
        assert scores[0] > SelectFloor;
      }
      var best := FirstMax(scores, SelectFloor);
      if best.None? {
        assert StuckAt(t, path, explore);
        return None;
      }
      var i := best.value;
      GreedyExtend(t, path, i, explore);
      PathAppend(t, path, i);
      path := path + [i];
      node := node.children[i];
    }
    return Some(path);
  }

  /** Selection is deterministic: it stops at one path or gets stuck, never both. */
  lemma {:induction false} SelectionDeterministic<B, M>(t: Node<B, M>, p: Path, q: Path, explore: (int, int) -> real)
    requires ValidPath(t, p) && GreedySteps(t, p, explore)
    requires ValidPath(t, q) && GreedySteps(t, q, explore)
    requires IsFrontier(At(t, p)) || StuckAt(t, p, explore)
    requires IsFrontier(At(t, q)) || StuckAt(t, q, explore)
    ensures p == q
    decreases |p|
  {
    assert |q| > 0 ==> !IsFrontier(t) && Scores(t, explore)[q[0]] > SelectFloor;
    assert |p| > 0 ==> !IsFrontier(t) && Scores(t, explore)[p[0]] > SelectFloor;
    if |p| > 0 && |q| > 0 {
      FirstMaxUnique(Scores(t, explore), p[0], q[0]);
      var c := t.children[p[0]];
      SelectionDeterministic(c, p[1..], q[1..], explore);
      assert p == [p[0]] + p[1..] && q == [q[0]] + q[1..];
    }
  }
}
