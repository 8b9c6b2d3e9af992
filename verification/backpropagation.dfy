/**
 backpropagate: walk from a node up to the root through the parent pointers,
 adding one visit and the playout result to every node on the way. With
 paths in place of parent pointers, the nodes on the way are those at the
 prefixes of the node's path.
 */
module Backpropagation {
  import opened GameModel
  import opened SearchTree

  function Backpropagate<B, M>(t: Node<B, M>, p: Path, result: real): (r: Node<B, M>)
    requires ValidPath(t, p)
    ensures r.visits == t.visits + 1 && r.wins == t.wins + result
    ensures r == t.(visits := r.visits, wins := r.wins, children := r.children)
    ensures |r.children| == |t.children|
    decreases |p|
  {
    var u := t.(visits := t.visits + 1, wins := t.wins + result);
    if |p| == 0 then u
    else u.(children := t.children[p[0] := Backpropagate(t.children[p[0]], p[1..], result)])
  }

  lemma PrefixTail(q: Path, p: Path)
    requires |q| > 0 && |p| > 0 && q[0] == p[0]
    ensures IsPrefix(q, p) <==> IsPrefix(q[1..], p[1..])
  {
  }

  /** The tree keeps its shape: the same paths lead to nodes. */
  lemma {:induction false} BackpropagateShape<B, M>(t: Node<B, M>, p: Path, result: real, q: Path)
    requires ValidPath(t, p)
    ensures ValidPath(Backpropagate(t, p, result), q) <==> ValidPath(t, q)
    decreases |q|
  {
    var r := Backpropagate(t, p, result);
    if |q| > 0 && q[0] < |t.children| {
      if |p| > 0 && q[0] == p[0] {
        BackpropagateShape(t.children[p[0]], p[1..], result, q[1..]);
      } else {
        assert r.children[q[0]] == t.children[q[0]];
      }
    }
  }

  /** Every node that is not an ancestor of the target, with its whole subtree, is unchanged. */
  lemma {:induction false} BackpropagateOffPath<B, M>(t: Node<B, M>, p: Path, result: real, q: Path)
    requires ValidPath(t, p) && ValidPath(t, q) && !IsPrefix(q, p)
    ensures ValidPath(Backpropagate(t, p, result), q)
    ensures At(Backpropagate(t, p, result), q) == At(t, q)
    decreases |q|
  {
    var r := Backpropagate(t, p, result);
    if |p| > 0 && q[0] == p[0] {
      PrefixTail(q, p);
      BackpropagateOffPath(t.children[p[0]], p[1..], result, q[1..]);
    } else {
      assert r.children[q[0]] == t.children[q[0]];
    }
  }

  /**
   Every ancestor of the target, and the target itself, gains exactly one
   visit and the result; nothing else about it changes but its children.
   */
  lemma {:induction false} BackpropagateOnPath<B, M>(t: Node<B, M>, p: Path, result: real, q: Path)
    requires ValidPath(t, p) && IsPrefix(q, p)
    ensures ValidPath(t, q) && ValidPath(Backpropagate(t, p, result), q)
    ensures At(Backpropagate(t, p, result), q).visits == At(t, q).visits + 1
    ensures At(Backpropagate(t, p, result), q).wins == At(t, q).wins + result
    ensures At(Backpropagate(t, p, result), q).(visits := At(t, q).visits, wins := At(t, q).wins,
                                                 children := At(t, q).children) == At(t, q)
    ensures |At(Backpropagate(t, p, result), q).children| == |At(t, q).children|
    decreases |q|
  {
    if |q| > 0 {
      PrefixTail(q, p);
      BackpropagateOnPath(t.children[p[0]], p[1..], result, q[1..]);
    }
  }

  /** The tree invariant survives: each child on the path gains a visit together with its parent. */
  lemma {:induction false} BackpropagateWellFormed<B, M>(game: Game<B, M>, t: Node<B, M>, p: Path, result: real)
    requires ValidPath(t, p) && WellFormed(game, t)
    ensures WellFormed(game, Backpropagate(t, p, result))
    decreases |p|
  {
    var r := Backpropagate(t, p, result);
    if |p| > 0 {
      BackpropagateWellFormed(game, t.children[p[0]], p[1..], result);
    }
    forall i | 0 <= i < |r.children|
      ensures ChildLink(game, r, i) && WellFormed(game, r.children[i])
    {
      assert ChildLink(game, t, i);
    }
  }

  lemma {:induction false} BackpropagateWinsNonNeg<B, M>(t: Node<B, M>, p: Path, result: real)
    requires ValidPath(t, p) && WinsNonNeg(t) && result >= 0.0
    ensures WinsNonNeg(Backpropagate(t, p, result))
    decreases |p|
  {
    if |p| > 0 {
      BackpropagateWinsNonNeg(t.children[p[0]], p[1..], result);
    }
    var r := Backpropagate(t, p, result);
    forall i | 0 <= i < |r.children|
      ensures WinsNonNeg(r.children[i])
    {
    }
  }
}
