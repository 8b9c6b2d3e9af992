/**
 Re-rooting the tree on an observed move and freeing what is no longer
 reachable. The freed nodes are recorded as the sequence of their paths in
 the order the program deletes them, so that "freed exactly once" and
 "nothing else freed" can be stated.
 */
module TreePruning {
  import opened Options
  import opened SearchTree

  /** Every path of `ps` prefixed by the child index `k`. */
  function Prefixed(k: nat, ps: seq<Path>): (r: seq<Path>)
    ensures |r| == |ps|
    ensures forall j :: 0 <= j < |ps| ==> r[j] == [k] + ps[j]
  {
    seq(|ps|, j requires 0 <= j < |ps| => [k] + ps[j])
  }

  predicate Distinct<T(==)>(s: seq<T>)
  {
    forall i, j :: 0 <= i < j < |s| ==> s[i] != s[j]
  }

  /**
   deleteSubtree: the paths (relative to `t`) of the nodes deleted, children
   first, in child order, and `t` itself last.
   */
  function DeleteSubtree<B, M>(t: Node<B, M>): (freed: seq<Path>)
    ensures |freed| > 0 && freed[|freed| - 1] == []
    decreases t, 1
  {
    DeleteChildren(t.children, -1, 0) + [[]]
  }

  /** The subtrees of children k.. of a node, except child `skip`, deleted in order. */
  function DeleteChildren<B, M>(cs: seq<Node<B, M>>, skip: int, k: nat): seq<Path>
    requires k <= |cs|
    decreases cs, 0, |cs| - k
  {
    if k == |cs| then []
    else if k == skip then DeleteChildren(cs, skip, k + 1)
    else Prefixed(k, DeleteSubtree(cs[k])) + DeleteChildren(cs, skip, k + 1)
  }

  /** `p` names a node below one of the children k.. other than `skip`. */
  predicate InChildren<B, M>(cs: seq<Node<B, M>>, skip: int, k: nat, p: Path)
  {
    |p| > 0 && k <= p[0] < |cs| && p[0] != skip && ValidPath(cs[p[0]], p[1..])
  }

  lemma PrefixedMembers(k: nat, ps: seq<Path>, p: Path)
    ensures p in Prefixed(k, ps) <==> |p| > 0 && p[0] == k && p[1..] in ps
  {
    var r := Prefixed(k, ps);
    if p in r {
      var j :| 0 <= j < |r| && r[j] == p;
      assert p[1..] == ps[j];
    }
    if |p| > 0 && p[0] == k && p[1..] in ps {
      var j :| 0 <= j < |ps| && ps[j] == p[1..];
      assert r[j] == p;
    }
  }

  lemma PrefixedDistinct(k: nat, ps: seq<Path>)
    requires Distinct(ps)
    ensures Distinct(Prefixed(k, ps))
  {
    var r := Prefixed(k, ps);
    forall i, j | 0 <= i < j < |r|
      ensures r[i] != r[j]
    {
      assert r[i][1..] == ps[i] && r[j][1..] == ps[j];
    }
  }

  lemma DistinctConcat<T>(a: seq<T>, b: seq<T>)
    requires Distinct(a) && Distinct(b)
    requires forall x :: x in a ==> x !in b
    ensures Distinct(a + b)
  {
    var s := a + b;
    forall i, j | 0 <= i < j < |s|
      ensures s[i] != s[j]
    {
      if j >= |a| && i < |a| {
        assert s[i] in a && s[j] in b;
      } else if i >= |a| {
        assert s[i] == b[i - |a|] && s[j] == b[j - |a|];
      }
    }
  }

  /** deleteSubtree frees every node of the subtree exactly once and nothing else. */
  lemma {:induction false} DeleteSubtreeExact<B, M>(t: Node<B, M>)
    ensures forall p :: p in DeleteSubtree(t) <==> ValidPath(t, p)
    ensures Distinct(DeleteSubtree(t))
    decreases t, 1
  {
    var cs := t.children;
    DeleteChildrenExact(cs, -1, 0);
    var d := DeleteChildren(cs, -1, 0);
    forall p
      ensures p in DeleteSubtree(t) <==> ValidPath(t, p)
    {
      assert p in DeleteSubtree(t) <==> p in d || p == [];
      assert ValidPath(t, p) <==> p == [] || InChildren(cs, -1, 0, p);
    }
    DistinctConcat(d, [[]]);
  }

  lemma {:induction false} DeleteChildrenExact<B, M>(cs: seq<Node<B, M>>, skip: int, k: nat)
    requires k <= |cs|
    ensures forall p :: p in DeleteChildren(cs, skip, k) <==> InChildren(cs, skip, k, p)
    ensures Distinct(DeleteChildren(cs, skip, k))
    decreases cs, 0, |cs| - k
  {
    if k == |cs| {
    } else if k == skip {
      DeleteChildrenExact(cs, skip, k + 1);
    } else {
      var sub := DeleteSubtree(cs[k]);
      var a := Prefixed(k, sub);
      var b := DeleteChildren(cs, skip, k + 1);
      DeleteSubtreeExact(cs[k]);
      DeleteChildrenExact(cs, skip, k + 1);
      forall p
        ensures p in a <==> |p| > 0 && p[0] == k && ValidPath(cs[k], p[1..])
      {
        PrefixedMembers(k, sub, p);
      }
      PrefixedDistinct(k, sub);
      DistinctConcat(a, b);
    }
  }

  /**
   No node is freed before one of its descendants: the order of the C++
   recursion, which deletes all children of a node before the node itself.
   */
  predicate PostOrder(f: seq<Path>)
  {
    forall i, j :: 0 <= i < j < |f| ==> !(|f[i]| < |f[j]| && IsPrefix(f[i], f[j]))
  }

  lemma PrefixedPostOrder(k: nat, ps: seq<Path>)
    requires PostOrder(ps)
    ensures PostOrder(Prefixed(k, ps))
  {
    var r := Prefixed(k, ps);
    forall i, j | 0 <= i < j < |r|
      ensures !(|r[i]| < |r[j]| && IsPrefix(r[i], r[j]))
    {
      assert r[i] == [k] + ps[i] && r[j] == [k] + ps[j];
      if |r[i]| < |r[j]| && IsPrefix(r[i], r[j]) {
        assert ps[i] == r[j][1..|r[i]|];
        assert IsPrefix(ps[i], ps[j]);
        assert false;
      }
    }
  }

  /** deleteSubtree frees every node after all of its descendants, at every level. */
  lemma {:induction false} DeleteSubtreePostOrder<B, M>(t: Node<B, M>)
    ensures PostOrder(DeleteSubtree(t))
    decreases t, 1
  {
    DeleteChildrenPostOrder(t.children, -1, 0);
  }

  lemma {:induction false} DeleteChildrenPostOrder<B, M>(cs: seq<Node<B, M>>, skip: int, k: nat)
    requires k <= |cs|
    ensures PostOrder(DeleteChildren(cs, skip, k))
    decreases cs, 0, |cs| - k
  {
    if k == |cs| {
    } else if k == skip {
      DeleteChildrenPostOrder(cs, skip, k + 1);
    } else {
      var sub := DeleteSubtree(cs[k]);
      var a := Prefixed(k, sub);
      var b := DeleteChildren(cs, skip, k + 1);
      DeleteSubtreePostOrder(cs[k]);
      PrefixedPostOrder(k, sub);
      DeleteChildrenPostOrder(cs, skip, k + 1);
      DeleteChildrenExact(cs, skip, k + 1);
      var f := a + b;
      forall i, j | 0 <= i < j < |f|
        ensures !(|f[i]| < |f[j]| && IsPrefix(f[i], f[j]))
      {
        if j < |a| {
          assert f[i] == a[i] && f[j] == a[j];
        } else if i >= |a| {
          assert f[i] == b[i - |a|] && f[j] == b[j - |a|];
        } else {
          assert f[i] == a[i] && f[j] == b[j - |a|];
          assert f[j] in b;
          assert f[i][0] == k && f[j][0] > k;
        }
      }
    }
  }

  /** The outcome of a re-root: the new root, if any, and the paths of the nodes freed. */
  datatype Pruned<B, M> = Pruned(root: Option<Node<B, M>>, freed: seq<Path>)

  /**
   Make child `i` the new root: its subtree is kept, the other children's
   subtrees are deleted in order, then the old root.
   */
  function Reroot<B, M>(t: Node<B, M>, i: nat): (r: Pruned<B, M>)
    requires i < |t.children|
    ensures r.root == Some(t.children[i])
    ensures |r.freed| > 0 && r.freed[|r.freed| - 1] == []
  {
    Pruned(Some(t.children[i]), DeleteChildren(t.children, i, 0) + [[]])
  }

  /**
   Every node of the old tree is either freed, exactly once, or kept as the
   node at the same path below the new root; never both.
   */
  lemma RerootExact<B, M>(t: Node<B, M>, i: nat)
    requires i < |t.children|
    ensures forall p :: ValidPath(t, p) <==>
      (p in Reroot(t, i).freed || (|p| > 0 && p[0] == i && ValidPath(t.children[i], p[1..])))
    ensures forall p :: p in Reroot(t, i).freed ==> ValidPath(t, p) && !(|p| > 0 && p[0] == i)
    ensures Distinct(Reroot(t, i).freed)
  {
    var d := DeleteChildren(t.children, i, 0);
    DeleteChildrenExact(t.children, i, 0);
    assert Reroot(t, i).freed == d + [[]];
    DistinctConcat(d, [[]]);
  }

  /** A re-root frees no node before any of its descendants. */
  lemma RerootPostOrder<B, M>(t: Node<B, M>, i: nat)
    requires i < |t.children|
    ensures PostOrder(Reroot(t, i).freed)
  {
    DeleteChildrenPostOrder(t.children, i, 0);
  }

  /** The first child whose move equals `mv`, searching from child `k`. */
  function FirstMatch<B, M(==)>(cs: seq<Node<B, M>>, mv: M, k: nat := 0): (r: Option<nat>)
    requires k <= |cs|
    ensures r.Some? ==> k <= r.value < |cs| && cs[r.value].move == mv
    ensures r.Some? ==> forall j :: k <= j < r.value ==> cs[j].move != mv
    ensures r.None? <==> forall j :: k <= j < |cs| ==> cs[j].move != mv
    decreases |cs| - k
  {
    if k == |cs| then None
    else if cs[k].move == mv then Some(k)
    else FirstMatch(cs, mv, k + 1)
  }

  /**
   pruneTreeForNextMove: with no tree nothing happens; when a child carries
   the move, the first such child becomes the new root; otherwise the whole
   tree is freed and no root is left.
   */
  function PruneTreeForNextMove<B, M(==)>(root: Option<Node<B, M>>, mv: M): (r: Pruned<B, M>)
    ensures root.None? ==> r == Pruned(None, [])
    ensures r.root.Some? <==>
      root.Some? && exists j :: 0 <= j < |root.value.children| && root.value.children[j].move == mv
    ensures r.root.Some? ==> (exists i :: 0 <= i < |root.value.children|
                                && r.root.value == root.value.children[i]
                                && r.root.value.move == mv
                                && (forall j :: 0 <= j < i ==> root.value.children[j].move != mv)
                                && r == Reroot(root.value, i))
    ensures root.Some? && r.root.None? ==> r.freed == DeleteSubtree(root.value)
  {
    match root
    case None => Pruned(None, [])
    case Some(t) =>
      match FirstMatch(t.children, mv)
      case Some(i) => Reroot(t, i)
      case None => Pruned(None, DeleteSubtree(t))
  }

  /** A move no child carries frees every node of the old tree exactly once. */
  lemma PruneNoMatchFreesAll<B, M>(t: Node<B, M>, mv: M)
    requires forall j :: 0 <= j < |t.children| ==> t.children[j].move != mv
    ensures PruneTreeForNextMove(Some(t), mv).root.None?
    ensures forall p :: p in PruneTreeForNextMove(Some(t), mv).freed <==> ValidPath(t, p)
    ensures Distinct(PruneTreeForNextMove(Some(t), mv).freed)
    ensures PostOrder(PruneTreeForNextMove(Some(t), mv).freed)
  {
    DeleteSubtreeExact(t);
    DeleteSubtreePostOrder(t);
  }
}
