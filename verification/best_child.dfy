/**
 getBestChild: after the search, the root's child with the highest win rate;
 only if no child's win rate exceeds -1 does the choice fall back to the
 child with the most visits.
 */
module BestChild {
  import opened Options
  import opened SearchTree
  import opened ArgMax

  /** The win rates of the children, in child order. */
  function WinRates<B, M>(cs: seq<Node<B, M>>): (s: seq<real>)
    ensures |s| == |cs|
  {
    seq(|cs|, i requires 0 <= i < |cs| => WinRate(cs[i]))
  }

  /** The visit counts of the children, in child order. */
  function VisitCounts<B, M>(cs: seq<Node<B, M>>): (s: seq<real>)
    ensures |s| == |cs|
  {
    seq(|cs|, i requires 0 <= i < |cs| => cs[i].visits as real)
  }

  /**
   The choice getBestChild makes among `cs`: the first child of maximal win
   rate when some win rate exceeds -1, and otherwise the first child of
   maximal visit count.
   */
  ghost predicate BestChoice<B, M>(cs: seq<Node<B, M>>, i: nat)
  {
    if exists j :: 0 <= j < |cs| && WinRate(cs[j]) > -1.0 then IsFirstMax(WinRates(cs), i)
    else IsFirstMax(VisitCounts(cs), i)
  }

  /**
   The first child of maximal win rate, when some win rate exceeds -1;
   otherwise the first child of maximal visit count. There is no best child
   exactly when the root has no children.
   */
  method GetBestChild<B, M>(root: Node<B, M>) returns (r: Option<nat>)
    ensures r.None? <==> |root.children| == 0
    ensures r.Some? ==> BestChoice(root.children, r.value)
    ensures (exists j :: 0 <= j < |root.children| && WinRate(root.children[j]) > -1.0) ==>
              r.Some? && IsFirstMax(WinRates(root.children), r.value)
    ensures r.Some? && (forall j :: 0 <= j < |root.children| ==> WinRate(root.children[j]) <= -1.0) ==>
              IsFirstMax(VisitCounts(root.children), r.value)
    ensures (forall j :: 0 <= j < |root.children| ==> root.children[j].wins >= 0.0) && r.Some? ==>
              IsFirstMax(WinRates(root.children), r.value)
  {
    var rates := WinRates(root.children);
    r := FirstMax(rates, -1.0);
    if r.None? {
      var visits := VisitCounts(root.children);
      assert |visits| > 0 ==> visits[0] > -1.0;
      r := FirstMax(visits, -1.0);
    }
    forall j | 0 <= j < |root.children| && root.children[j].wins >= 0.0
      ensures rates[j] > -1.0
    {
      WinRateBounds(root.children[j]);
    }
  }
}
