/** Maximum bipartite matching by one pass of augmenting searches.  The search works in place on
    the `left` and `right` vectors; the predicates below speak about snapshots of them. */
module Matching {
  import opened Sets

  datatype Graph = Graph(lhs: nat, rhs: nat, edges: set<(int, int)>) {
    ghost predicate Bounded() {
      forall e | e in edges :: 0 <= e.0 < lhs && 0 <= e.1 < rhs
    }

    predicate HasEdge(l: int, r: int) { (l, r) in edges }
  }

  // kUnused, the largest size_t
  const UNUSED: int := -1

  /** `left` and `right` refer to each other along real edges; the right node `stale`, if it is
      one, may still name a left node that has moved on. */
  ghost predicate Linked(g: Graph, left: seq<int>, right: seq<int>, stale: int) {
    && |left| == g.lhs && |right| == g.rhs
    && (forall l | 0 <= l < |left| && left[l] != UNUSED ::
          0 <= left[l] < |right| && g.HasEdge(l, left[l]) && right[left[l]] == l)
    && (forall r | 0 <= r < |right| && right[r] != UNUSED ::
          0 <= right[r] < |left| && (r != stale ==> left[right[r]] == r))
  }

  /** Every neighbour of `a` is matched, and matched into `a`: a search from `a` cannot succeed. */
  ghost predicate Closed(g: Graph, right: seq<int>, a: set<int>) {
    && |right| == g.rhs && g.Bounded() && UNUSED !in a
    && (forall e | e in g.edges && e.0 in a :: right[e.1] != UNUSED && right[e.1] in a)
  }

  ghost predicate Neighbours(g: Graph, l: int, seen: seq<bool>) {
    && |seen| == g.rhs && g.Bounded()
    && (forall e | e in g.edges && e.0 == l :: seen[e.1])
  }

  ghost predicate Grows(before: seq<bool>, after: seq<bool>) {
    |before| == |after| && (forall r | 0 <= r < |before| && before[r] :: after[r])
  }

  ghost function Unseen(seen: seq<bool>): set<int> {
    set r | 0 <= r < |seen| && !seen[r]
  }

  /** Everything reached between `before` and `after` is a dead end whose own neighbours have all
      been seen. */
  ghost predicate DeadEnds(g: Graph, right: seq<int>, before: seq<bool>, after: seq<bool>) {
    && |before| == |after| == |right| == g.rhs
    && (forall r | 0 <= r < |right| && after[r] && !before[r] ::
          right[r] != UNUSED && Neighbours(g, right[r], after))
  }

  /** What a successful search from `ilhs` did to the matching. */
  ghost predicate Augmented(g: Graph, left: seq<int>, right: seq<int>, seen: seq<bool>, ilhs: int,
                            left': seq<int>, right': seq<int>)
    requires |left| == |left'| == g.lhs && |right| == |right'| == |seen| == g.rhs
    requires 0 <= ilhs < |left|
  {
    // `ilhs` is matched to a node first reached by this search; its old partner is left stale
    && Linked(g, left', right', left[ilhs])
    && left'[ilhs] != UNUSED && !seen[left'[ilhs]]
    // matched nodes stay matched; of the free left nodes only `ilhs` changes
    && (forall l | 0 <= l < |left| && l != ilhs :: left'[l] == UNUSED <==> left[l] == UNUSED)
    // matches with nodes seen before are not touched
    && (forall l | 0 <= l < |left| && l != ilhs && left[l] != UNUSED ::
          0 <= left[l] < |seen| && (seen[left[l]] ==> left'[l] == left[l]))
    && (forall r | 0 <= r < |seen| && seen[r] :: right'[r] == right[r])
    // exactly one free right node becomes matched
    && OneEnd(right, right')
  }

  /** Nothing matched into `a` was touched. */
  ghost predicate Spares(a: set<int>, left: seq<int>, right: seq<int>, left': seq<int>, right': seq<int>)
    requires |left| == |left'| && |right| == |right'|
  {
    && (forall l | 0 <= l < |left| && l in a :: left'[l] == left[l])
    && (forall r | 0 <= r < |right| && right[r] in a :: right'[r] == right[r])
  }

  /** The last assignment pair of a successful search, when `irhs` was free. */
  lemma LinkFree(g: Graph, left: seq<int>, right: seq<int>, seen: seq<bool>, ilhs: int, irhs: int)
    requires Linked(g, left, right, UNUSED) && |seen| == g.rhs
    requires 0 <= ilhs < |left| && 0 <= irhs < |right| && !seen[irhs]
    requires g.HasEdge(ilhs, irhs) && right[irhs] == UNUSED
    ensures Augmented(g, left, right, seen, ilhs, left[ilhs := irhs], right[irhs := ilhs])
  {
    assert forall r | 0 <= r < |right| :: right[irhs := ilhs][r] == UNUSED <==> right[r] == UNUSED && r != irhs;
  }

  /** Taking `irhs` over from `l1`, which has found another partner, leaves a linked matching. */
  lemma TakeOver(g: Graph, left1: seq<int>, right1: seq<int>, ilhs: int, irhs: int)
    requires Linked(g, left1, right1, irhs)
    requires 0 <= ilhs < |left1| && 0 <= irhs < |right1| && g.HasEdge(ilhs, irhs)
    requires 0 <= right1[irhs] < |left1| && left1[right1[irhs]] != irhs
    ensures Linked(g, left1[ilhs := irhs], right1[irhs := ilhs], left1[ilhs])
  {
    var left', right' := left1[ilhs := irhs], right1[irhs := ilhs];
    forall l | 0 <= l < |left'| && left'[l] != UNUSED
      ensures 0 <= left'[l] < |right'| && g.HasEdge(l, left'[l]) && right'[left'[l]] == l
    {
      if l != ilhs {
        assert right1[left1[l]] == l;
        assert left1[l] != irhs;
      }
    }
    forall r | 0 <= r < |right'| && right'[r] != UNUSED
      ensures 0 <= right'[r] < |left'| && (r != left1[ilhs] ==> left'[right'[r]] == r)
    {
      if r != irhs {
        assert left1[right1[r]] == r;
      }
    }
  }

  /** The last assignment pair when the search went on from the left node matched to `irhs`. */
  lemma LinkTaken(g: Graph, left: seq<int>, right: seq<int>, seen: seq<bool>, seen1: seq<bool>,
                  ilhs: int, irhs: int, left1: seq<int>, right1: seq<int>)
    requires Linked(g, left, right, UNUSED) && |seen| == |seen1| == g.rhs
    requires |left1| == |left| && |right1| == |right|
    requires 0 <= ilhs < |left| && 0 <= irhs < |right| && !seen[irhs]
    requires g.HasEdge(ilhs, irhs) && right[irhs] != UNUSED
    requires left[ilhs] != UNUSED ==> seen[left[ilhs]]
    requires Grows(seen, seen1) && seen1[irhs]
    requires Augmented(g, left, right, seen1, right[irhs], left1, right1)
    ensures Augmented(g, left, right, seen, ilhs, left1[ilhs := irhs], right1[irhs := ilhs])
  {
    var l1 := right[irhs];
    assert left[l1] == irhs && l1 != ilhs;
    assert right1[irhs] == l1;
    assert left1[ilhs] == left[ilhs];
    assert left1[l1] != irhs;
    TakeOver(g, left1, right1, ilhs, irhs);
    OneMoreMatched(right, right1, irhs, ilhs);
  }

  ghost predicate OneEnd(right: seq<int>, right': seq<int>)
    requires |right'| == |right|
  {
    exists end | 0 <= end < |right| && right[end] == UNUSED ::
      forall r | 0 <= r < |right| :: right'[r] == UNUSED <==> right[r] == UNUSED && r != end
  }

  lemma OneMoreMatched(right: seq<int>, right1: seq<int>, irhs: int, ilhs: int)
    requires |right1| == |right| && OneEnd(right, right1)
    requires 0 <= irhs < |right| && right[irhs] != UNUSED && ilhs != UNUSED
    ensures OneEnd(right, right1[irhs := ilhs])
  {
    var right' := right1[irhs := ilhs];
    var end :| 0 <= end < |right| && right[end] == UNUSED
      && (forall r | 0 <= r < |right| :: right1[r] == UNUSED <==> right[r] == UNUSED && r != end);
    assert forall r | 0 <= r < |right| :: right'[r] == UNUSED <==> right[r] == UNUSED && r != end;
  }

  lemma AugmentedSinceEarlier(g: Graph, left: seq<int>, right: seq<int>, before: seq<bool>, seen: seq<bool>,
                              ilhs: int, left': seq<int>, right': seq<int>)
    requires |left| == |left'| == g.lhs && |right| == |right'| == |seen| == g.rhs
    requires 0 <= ilhs < |left| && Grows(before, seen)
    requires Augmented(g, left, right, seen, ilhs, left', right')
    ensures Augmented(g, left, right, before, ilhs, left', right')
  {
  }

  // ---- Nothing is explored twice ----

  ghost predicate Distinct(s: seq<int>) {
    forall i, j | 0 <= i < j < |s| :: s[i] != s[j]
  }

  lemma DistinctConcat(s: seq<int>, t: seq<int>)
    requires Distinct(s) && Distinct(t) && forall x | x in t :: x !in s
    ensures Distinct(s + t)
  {
    forall i, j | 0 <= i < j < |s + t| ensures (s + t)[i] != (s + t)[j] {
      assert j >= |s| ==> (s + t)[j] in t;
    }
  }

  /** The left nodes matched to right nodes that were first seen between `before` and `after`. */
  ghost function Behind(right: seq<int>, before: seq<bool>, after: seq<bool>): set<int>
    requires |right| == |before| == |after|
  {
    set r | 0 <= r < |right| && after[r] && !before[r] && right[r] != UNUSED :: right[r]
  }

  /** A search from `ilhs` explored each of these left nodes once: `ilhs` and, through right nodes
      it was the first to see, some of their partners. */
  ghost predicate ExploredOnce(ilhs: int, right: seq<int>, before: seq<bool>, after: seq<bool>, explored: seq<int>)
    requires |right| == |before| == |after|
  {
    && explored != [] && explored[0] == ilhs
    && Distinct(explored)
    && (forall x | x in explored :: x == ilhs || x in Behind(right, before, after))
  }

  lemma UnseenShrinks(before: seq<bool>, after: seq<bool>)
    requires Grows(before, after)
    ensures Unseen(after) <= Unseen(before)
  {
  }

  /** What the search behind `irhs` explored lies behind right nodes not seen before `irhs`. */
  lemma ExploredBehind(right: seq<int>, seen: seq<bool>, irhs: int, after: seq<bool>, explored: seq<int>)
    requires |right| == |seen| == |after| && 0 <= irhs < |right| && !seen[irhs] && right[irhs] != UNUSED
    requires Grows(seen[irhs := true], after)
    requires ExploredOnce(right[irhs], right, seen[irhs := true], after, explored)
    ensures forall x | x in explored :: x in Behind(right, seen, after)
  {
    assert after[irhs];
  }

  /** A left node is behind at most one right node, so what a later edge explores is new. */
  lemma ExploresOn(g: Graph, left: seq<int>, right: seq<int>, ilhs: int, before: seq<bool>, seen: seq<bool>,
                   after: seq<bool>, explored: seq<int>, more: seq<int>)
    requires Linked(g, left, right, UNUSED) && |before| == |seen| == |after| == |right|
    requires 0 <= ilhs < |left| && (left[ilhs] != UNUSED ==> before[left[ilhs]])
    requires Grows(before, seen) && Grows(seen, after)
    requires ExploredOnce(ilhs, right, before, seen, explored)
    requires Distinct(more) && forall x | x in more :: x in Behind(right, seen, after)
    ensures ExploredOnce(ilhs, right, before, after, explored + more)
  {
    forall x | x in more ensures x !in explored {
      var r :| 0 <= r < |right| && after[r] && !seen[r] && right[r] == x;
      assert left[x] == r;
    }
    DistinctConcat(explored, more);
  }

  class MaxBipartiteMatchState {
    const graph: Graph
    const left: array<int>
    const right: array<int>

    constructor (graph: Graph)
      requires graph.Bounded()
      ensures this.graph == graph && fresh(left) && fresh(right) && left != right
      ensures left[..] == seq(graph.lhs, i => UNUSED) && right[..] == seq(graph.rhs, i => UNUSED)
    {
      this.graph := graph;
      left := new int[graph.lhs](i => UNUSED);
      right := new int[graph.rhs](i => UNUSED);
    }

    ghost predicate Consistent()
      reads left, right
    {
      left != right && graph.Bounded() && Linked(graph, left[..], right[..], UNUSED)
    }

    /** Depth-first search for an augmenting path from `ilhs`.  `a` is any closed set of left
        nodes: the search fails inside it and does not touch it from outside.  `explored` lists
        the left nodes that this call and the calls it makes start from. */
    method TryAugment(ilhs: int, seen: array<bool>, ghost a: set<int>)
      returns (found: bool, ghost explored: seq<int>)
      requires Consistent() && seen.Length == graph.rhs
      requires 0 <= ilhs < left.Length
      requires left[ilhs] != UNUSED ==> seen[left[ilhs]]
      requires Closed(graph, right[..], a)
      modifies left, right, seen
      ensures Grows(old(seen[..]), seen[..])
      ensures !found ==> left[..] == old(left[..]) && right[..] == old(right[..])
      ensures !found ==> Neighbours(graph, ilhs, seen[..])
      ensures !found ==> DeadEnds(graph, right[..], old(seen[..]), seen[..])
      ensures found ==> Augmented(graph, old(left[..]), old(right[..]), old(seen[..]), ilhs, left[..], right[..])
      ensures found ==> ilhs !in a && Spares(a, old(left[..]), old(right[..]), left[..], right[..])
      ensures ExploredOnce(ilhs, old(right[..]), old(seen[..]), seen[..], explored)
      decreases Unseen(seen[..]), 1
    {
      ghost var l0, r0, s0 := left[..], right[..], seen[..];
      explored := [ilhs];
      for irhs := 0 to graph.rhs
        invariant left[..] == l0 && right[..] == r0
        invariant Grows(s0, seen[..])
        invariant DeadEnds(graph, r0, s0, seen[..])
        invariant forall e | e in graph.edges && e.0 == ilhs && e.1 < irhs :: seen[..][e.1]
        invariant ExploredOnce(ilhs, r0, s0, seen[..], explored)
      {
        if seen[irhs] || !graph.HasEdge(ilhs, irhs) {
          continue;
        }
        ghost var s1, more := seen[..], [];
        UnseenShrinks(s0, s1);
        found, more := TryEdge(ilhs, irhs, seen, a);
        ExploresOn(graph, l0, r0, ilhs, s0, s1, seen[..], explored, more);
        explored := explored + more;
        if found {
          AugmentedSinceEarlier(graph, l0, r0, s0, s1, ilhs, left[..], right[..]);
          return;
        }
      }
      found := false;
    }

    /** The search over one available edge, and on success the new link. */
    method TryEdge(ilhs: int, irhs: int, seen: array<bool>, ghost a: set<int>)
      returns (found: bool, ghost explored: seq<int>)
      requires Consistent() && seen.Length == graph.rhs
      requires 0 <= ilhs < left.Length && 0 <= irhs < right.Length
      requires !seen[irhs] && graph.HasEdge(ilhs, irhs)
      requires left[ilhs] != UNUSED ==> seen[left[ilhs]]
      requires Closed(graph, right[..], a)
      modifies left, right, seen
      ensures Grows(old(seen[..]), seen[..]) && seen[irhs]
      ensures !found ==> left[..] == old(left[..]) && right[..] == old(right[..])
      ensures !found ==> DeadEnds(graph, right[..], old(seen[..]), seen[..])
      ensures found ==> Augmented(graph, old(left[..]), old(right[..]), old(seen[..]), ilhs, left[..], right[..])
      ensures found ==> ilhs !in a && Spares(a, old(left[..]), old(right[..]), left[..], right[..])
      ensures Distinct(explored)
      ensures forall x | x in explored :: x in Behind(old(right[..]), old(seen[..]), seen[..])
      decreases Unseen(seen[..]), 0
    {
      ghost var l0, r0, s0 := left[..], right[..], seen[..];
      ghost var s1 := s0[irhs := true];
      seen[irhs] := true;
      assert seen[..] == s1;
      explored := [];
      if right[irhs] == UNUSED {
        LinkFree(graph, l0, r0, s0, ilhs, irhs);
        found := true;
      } else {
        assert irhs in Unseen(s0) && irhs !in Unseen(s1);
        found, explored := TryAugment(right[irhs], seen, a);
        ExploredBehind(r0, s0, irhs, seen[..], explored);
        if found {
          LinkTaken(graph, l0, r0, s0, s1, ilhs, irhs, left[..], right[..]);
        }
      }
      if found {
        left[ilhs] := irhs;
        right[irhs] := ilhs;
      }
    }

    /** The pass over the left nodes.  `a` is closed and holds every processed node that is
        still free: the certificate that looking at each node once was enough. */
    method AugmentAll() returns (ghost a: set<int>)
      requires Consistent()
      requires forall l | 0 <= l < left.Length :: left[l] == UNUSED
      modifies left, right
      ensures Consistent() && Closed(graph, right[..], a)
      ensures forall l | 0 <= l < left.Length && left[l] == UNUSED :: l in a
    {
      a := {};
      for ilhs := 0 to left.Length
        invariant Consistent() && Closed(graph, right[..], a)
        invariant forall l | ilhs <= l < left.Length :: left[l] == UNUSED
        invariant forall l | 0 <= l < ilhs && left[l] == UNUSED :: l in a
        invariant forall l | l in a :: l < ilhs
      {
        assert left[ilhs] == UNUSED;  // the check at the top of the source's loop never fails
        var seen := new bool[graph.rhs](i => false);
        ghost var l0, r0, s0 := left[..], right[..], seen[..];
        var found, _ := TryAugment(ilhs, seen, a);
        if found {
          SparedStaysClosed(graph, l0, r0, left[..], right[..], a);
        } else {
          DeadEndsClose(graph, r0, s0, seen[..], ilhs, a);
          MatchedAreProcessed(graph, l0, r0, ilhs);
          a := a + {ilhs} + Reached(r0, seen[..]);
        }
      }
    }

    method CollectPairs() returns (result: seq<(int, int)>)
      ensures result == PairList(left[..])
    {
      result := [];
      for ilhs := 0 to left.Length
        invariant result == PairList(left[..ilhs])
      {
        assert left[..ilhs + 1][..ilhs] == left[..ilhs];
        if left[ilhs] != UNUSED {
          result := result + [(ilhs, left[ilhs])];
        }
      }
      assert left[..left.Length] == left[..];
    }

    /** One pass over the left nodes gives a matching no other matching exceeds. */
    method Compute() returns (result: seq<(int, int)>)
      requires Consistent()
      requires forall l | 0 <= l < left.Length :: left[l] == UNUSED
      modifies left, right
      ensures IsMatchingList(graph, result)
      ensures forall m | IsMatching(graph, m) :: |m| <= |result|
    {
      ghost var a := AugmentAll();
      ClosedSetBounds(graph, left[..], right[..], a);
      PairListIsMatching(graph, left[..], right[..]);
      result := CollectPairs();
    }
  }

  /** The left nodes a failed search went through on its way. */
  ghost function Reached(right: seq<int>, seen: seq<bool>): set<int>
    requires |seen| == |right|
  {
    set r | 0 <= r < |right| && seen[r] :: right[r]
  }

  lemma MatchedAreProcessed(g: Graph, left: seq<int>, right: seq<int>, ilhs: nat)
    requires Linked(g, left, right, UNUSED)
    requires forall l | ilhs <= l < |left| :: left[l] == UNUSED
    ensures forall r | 0 <= r < |right| :: right[r] < ilhs
  {
  }

  lemma SparedStaysClosed(g: Graph, left: seq<int>, right: seq<int>, left': seq<int>, right': seq<int>, a: set<int>)
    requires Closed(g, right, a) && |left| == |left'| && |right| == |right'|
    requires Spares(a, left, right, left', right')
    ensures Closed(g, right', a)
  {
  }

  /** A failed search adds its start and everything it reached to the closed set. */
  lemma DeadEndsClose(g: Graph, right: seq<int>, before: seq<bool>, after: seq<bool>, ilhs: int, a: set<int>)
    requires Closed(g, right, a) && ilhs != UNUSED
    requires DeadEnds(g, right, before, after) && Neighbours(g, ilhs, after)
    requires forall r | 0 <= r < |before| :: !before[r]
    ensures Closed(g, right, a + {ilhs} + Reached(right, after))
  {
    var a' := a + {ilhs} + Reached(right, after);
    forall e | e in g.edges && e.0 in a' ensures right[e.1] != UNUSED && right[e.1] in a' {
      if e.0 !in a {
        assert after[e.1];
      }
    }
  }

  // ---- Maximality ----

  /** A set of edges no two of which share a node. */
  ghost predicate IsMatching(g: Graph, m: set<(int, int)>) {
    && m <= g.edges
    && (forall p, q | p in m && q in m && (p.0 == q.0 || p.1 == q.1) :: p == q)
  }

  ghost predicate IsMatchingList(g: Graph, pairs: seq<(int, int)>) {
    && IsMatching(g, set p | p in pairs)
    && |set p | p in pairs| == |pairs|
  }

  ghost function Pairs(left: seq<int>): set<(int, int)> {
    set l | 0 <= l < |left| && left[l] != UNUSED :: (l, left[l])
  }

  function PairList(left: seq<int>): seq<(int, int)>
    decreases |left|
  {
    if left == [] then [] else
      var n := |left| - 1;
      PairList(left[..n]) + if left[n] != UNUSED then [(n, left[n])] else []
  }

  lemma {:induction false} PairListIsPairs(left: seq<int>)
    ensures (set p | p in PairList(left)) == Pairs(left)
    ensures |PairList(left)| == |Pairs(left)|
    decreases |left|
  {
    if left != [] {
      var n := |left| - 1;
      PairListIsPairs(left[..n]);
      var last := if left[n] != UNUSED then {(n, left[n])} else {};
      assert Pairs(left) == Pairs(left[..n]) + last;
      assert (set p | p in PairList(left)) == (set p | p in PairList(left[..n])) + last;
      assert (n, left[n]) !in Pairs(left[..n]);
    }
  }

  lemma PairListIsMatching(g: Graph, left: seq<int>, right: seq<int>)
    requires Linked(g, left, right, UNUSED)
    ensures IsMatchingList(g, PairList(left))
    ensures |PairList(left)| == |Pairs(left)|
  {
    PairListIsPairs(left);
    forall p, q | p in Pairs(left) && q in Pairs(left) && (p.0 == q.0 || p.1 == q.1) ensures p == q {
      assert right[p.1] == p.0 && right[q.1] == q.0;
    }
  }

  /** The pair of the computed matching that pays for an edge of any other matching: the partner
      of its left node outside the closed set, the partner of its right node inside. */
  ghost function Charge(left: seq<int>, right: seq<int>, a: set<int>, e: (int, int)): (int, int)
    requires 0 <= e.0 < |left| && 0 <= e.1 < |right|
  {
    if e.0 in a then (right[e.1], e.1) else (e.0, left[e.0])
  }

  lemma ChargesDiffer(g: Graph, left: seq<int>, right: seq<int>, a: set<int>,
                      m: set<(int, int)>, e: (int, int), x: (int, int))
    requires Linked(g, left, right, UNUSED) && Closed(g, right, a) && IsMatching(g, m)
    requires e in m && x in m && e != x
    ensures Charge(left, right, a, e) != Charge(left, right, a, x)
  {
    assert e.0 != x.0 && e.1 != x.1;
  }

  ghost function Charges(left: seq<int>, right: seq<int>, a: set<int>, m: set<(int, int)>): set<(int, int)>
    requires forall e | e in m :: 0 <= e.0 < |left| && 0 <= e.1 < |right|
  {
    set e | e in m :: Charge(left, right, a, e)
  }

  lemma ChargesSplit(left: seq<int>, right: seq<int>, a: set<int>, m: set<(int, int)>, e: (int, int))
    requires forall e | e in m :: 0 <= e.0 < |left| && 0 <= e.1 < |right|
    requires e in m
    ensures Charges(left, right, a, m) == Charges(left, right, a, m - {e}) + {Charge(left, right, a, e)}
  {
    assert m == m - {e} + {e};
  }

  lemma {:induction false} ChargesAreDistinct(g: Graph, left: seq<int>, right: seq<int>, a: set<int>,
                                              m: set<(int, int)>)
    requires Linked(g, left, right, UNUSED) && Closed(g, right, a) && IsMatching(g, m)
    ensures |Charges(left, right, a, m)| == |m|
    decreases |m|
  {
    if m != {} {
      var e :| e in m;
      var rest := m - {e};
      ChargesAreDistinct(g, left, right, a, rest);
      ChargesSplit(left, right, a, m, e);
      forall x | x in rest ensures Charge(left, right, a, e) != Charge(left, right, a, x) {
        ChargesDiffer(g, left, right, a, m, e, x);
      }
      assert Charge(left, right, a, e) !in Charges(left, right, a, rest);
    }
  }

  /** Koenig's argument: with every unmatched left node inside a closed set, no matching is
      larger than the one at hand. */
  lemma ClosedSetBounds(g: Graph, left: seq<int>, right: seq<int>, a: set<int>)
    requires Linked(g, left, right, UNUSED) && Closed(g, right, a)
    requires forall l | 0 <= l < |left| && left[l] == UNUSED :: l in a
    ensures forall m | IsMatching(g, m) :: |m| <= |Pairs(left)|
  {
    forall m | IsMatching(g, m) ensures |m| <= |Pairs(left)| {
      ChargesAreDistinct(g, left, right, a, m);
      var charged := Charges(left, right, a, m);
      assert charged <= Pairs(left);
      SubsetSize(charged, Pairs(left));
    }
  }

  method FindMaxBipartiteMatching(g: Graph) returns (result: seq<(int, int)>)
    requires g.Bounded()
    ensures IsMatchingList(g, result)
    ensures forall m | IsMatching(g, m) :: |m| <= |result|
  {
    var state := new MaxBipartiteMatchState(g);
    result := state.Compute();
  }
}
