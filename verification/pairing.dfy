/** Matching a container's elements with matchers in any order: the prefilter, the pairing, and
    the decision built from both. */
module Pairing {
  import opened Matching
  import opened MatchMatrices
  import opened Sets

  // UnorderedMatcherRequire: Superset asks that every matcher is used, Subset that every element is
  datatype Flags = Flags(superset: bool, subset: bool)

  ghost function Rights(m: set<(int, int)>): set<int> {
    set e | e in m :: e.1
  }

  ghost function Lefts(m: set<(int, int)>): set<int> {
    set e | e in m :: e.0
  }

  ghost predicate CoversMatchers(g: Graph, m: set<(int, int)>) {
    forall r | 0 <= r < g.rhs :: r in Rights(m)
  }

  ghost predicate CoversElements(g: Graph, m: set<(int, int)>) {
    forall l | 0 <= l < g.lhs :: l in Lefts(m)
  }

  ghost predicate Covers(g: Graph, flags: Flags, m: set<(int, int)>) {
    && IsMatching(g, m)
    && (flags.superset ==> CoversMatchers(g, m))
    && (flags.subset ==> CoversElements(g, m))
  }

  /** Some one-to-one assignment along edges uses everything the flags ask for. */
  ghost predicate Satisfiable(g: Graph, flags: Flags) {
    exists m :: Covers(g, flags, m)
  }

  /** `f` gives elements matchers of their own that match them, and leaves out no matcher, or no
      element, if the flags say so. */
  ghost predicate IsAssignment(g: Graph, flags: Flags, f: map<int, int>) {
    && (forall i | i in f :: 0 <= i < g.lhs && 0 <= f[i] < g.rhs && (i, f[i]) in g.edges)
    && (forall i, k | i in f && k in f && f[i] == f[k] :: i == k)
    && (flags.superset ==> forall j | 0 <= j < g.rhs :: IsUsed(f, j))
    && (flags.subset ==> forall i | 0 <= i < g.lhs :: i in f)
  }

  ghost predicate IsUsed(f: map<int, int>, j: int) {
    exists i :: i in f && f[i] == j
  }

  lemma AssignmentCovers(g: Graph, flags: Flags, f: map<int, int>)
    requires IsAssignment(g, flags, f)
    ensures Satisfiable(g, flags)
  {
    var m := set i | i in f :: (i, f[i]);
    forall i | i in f ensures i in Lefts(m) && f[i] in Rights(m) {
      assert (i, f[i]) in m;
    }
    if flags.superset {
      forall j | 0 <= j < g.rhs ensures j in Rights(m) {
        assert IsUsed(f, j);
      }
    }
    assert Covers(g, flags, m);
  }

  lemma CoverAssigns(g: Graph, flags: Flags, m: set<(int, int)>) returns (f: map<int, int>)
    requires g.Bounded() && Covers(g, flags, m)
    ensures IsAssignment(g, flags, f)
  {
    f := map e | e in m :: e.0 := e.1;
    forall e | e in m ensures e.0 in f && f[e.0] == e.1 {
    }
    if flags.superset {
      forall j | 0 <= j < g.rhs ensures IsUsed(f, j) {
        assert j in Rights(m);
        var e: (int, int) :| e in m && e.1 == j;
        assert e.0 in f && f[e.0] == j;
      }
    }
    if flags.subset {
      forall i | 0 <= i < g.lhs ensures i in f {
        assert i in Lefts(m);
      }
    }
  }

  lemma SatisfiableMeansAssignment(g: Graph, flags: Flags)
    requires g.Bounded()
    ensures Satisfiable(g, flags) <==> exists f :: IsAssignment(g, flags, f)
  {
    if m: set<(int, int)> :| Covers(g, flags, m) {
      var f := CoverAssigns(g, flags, m);
    }
    if f: map<int, int> :| IsAssignment(g, flags, f) {
      AssignmentCovers(g, flags, f);
    }
  }

  ghost function Range(n: nat): (s: set<int>)
    ensures |s| == n
    ensures forall i :: i in s <==> 0 <= i < n
  {
    if n == 0 then {} else Range(n - 1) + {n - 1}
  }

  lemma SidesSplit(m: set<(int, int)>, e: (int, int))
    requires e in m
    ensures Rights(m) == Rights(m - {e}) + {e.1} && Lefts(m) == Lefts(m - {e}) + {e.0}
  {
    assert m == m - {e} + {e};
  }

  lemma {:induction false} MatchingSides(g: Graph, m: set<(int, int)>)
    requires IsMatching(g, m)
    ensures |Rights(m)| == |Lefts(m)| == |m|
    decreases |m|
  {
    if m != {} {
      var e :| e in m;
      MatchingSides(g, m - {e});
      SidesSplit(m, e);
      assert e.1 !in Rights(m - {e}) && e.0 !in Lefts(m - {e});
    }
  }

  /** A matching uses every matcher exactly when it has as many pairs as there are matchers, and
      likewise for elements. */
  lemma CoverageIsSize(g: Graph, m: set<(int, int)>)
    requires g.Bounded() && IsMatching(g, m)
    ensures |m| <= g.rhs && |m| <= g.lhs
    ensures |m| == g.rhs <==> CoversMatchers(g, m)
    ensures |m| == g.lhs <==> CoversElements(g, m)
  {
    MatchingSides(g, m);
    FullSide(Rights(m), g.rhs);
    FullSide(Lefts(m), g.lhs);
  }

  lemma FullSide(s: set<int>, n: nat)
    requires forall i | i in s :: 0 <= i < n
    ensures |s| <= n
    ensures |s| == n <==> forall i | 0 <= i < n :: i in s
  {
    SubsetSize(s, Range(n));
    if forall i | 0 <= i < n :: i in s {
      assert s == Range(n);
    }
  }

  method FindPairing(matrix: MatchMatrix, flags: Flags) returns (result: bool)
    requires matrix.Valid()
    ensures result <==> Satisfiable(matrix.AsGraph(), flags)
  {
    var g := matrix.AsGraph();
    var matches := FindMaxBipartiteMatching(g);
    var maxFlow := |matches|;
    ghost var best := set p | p in matches;
    CoverageIsSize(g, best);
    forall m | Covers(g, flags, m)
      ensures (flags.superset ==> maxFlow == g.rhs) && (flags.subset ==> maxFlow == g.lhs)
    {
      CoverageIsSize(g, m);
    }
    if flags.superset && maxFlow < matrix.numMatchers {
      return false;
    }
    if flags.subset && maxFlow < matrix.numElements {
      return false;
    }
    assert Covers(g, flags, best);
    return true;
  }

  // ---- The prefilter ----

  ghost predicate RowHas(g: Graph, i: int, k: int) {
    exists j | 0 <= j < k :: g.HasEdge(i, j)
  }

  ghost predicate ColumnHas(g: Graph, j: int, k: int) {
    exists i | 0 <= i < k :: g.HasEdge(i, j)
  }

  lemma OneMore(g: Graph, i: int, j: int)
    requires i >= 0 && j >= 0
    ensures RowHas(g, i, j + 1) <==> RowHas(g, i, j) || g.HasEdge(i, j)
    ensures ColumnHas(g, j, i + 1) <==> ColumnHas(g, j, i) || g.HasEdge(i, j)
  {
  }

  /** Says whether every matcher matches something and every element is matched by something, as
      far as the flags ask. */
  method VerifyMatchMatrix(matrix: MatchMatrix, flags: Flags) returns (result: bool)
    requires matrix.Valid()
    ensures result <==> Plausible(matrix.AsGraph(), flags)
  {
    ghost var g := matrix.AsGraph();
    var elementMatched, matcherMatched := MarkMatched(matrix);
    result := true;
    if flags.superset {
      for mi := 0 to matrix.numMatchers
        invariant result <==> forall j | 0 <= j < mi :: ColumnHas(g, j, g.lhs)
      {
        if !matcherMatched[mi] {
          result := false;
        }
      }
    }
    if flags.subset {
      ghost var before := result;
      for ei := 0 to matrix.numElements
        invariant result <==> before && forall i | 0 <= i < ei :: RowHas(g, i, g.rhs)
      {
        if !elementMatched[ei] {
          result := false;
        }
      }
    }
  }

  /** One sweep over the matrix marks who matches anything at all. */
  method MarkMatched(matrix: MatchMatrix) returns (elementMatched: array<bool>, matcherMatched: array<bool>)
    requires matrix.Valid()
    ensures fresh(elementMatched) && elementMatched.Length == matrix.numElements
    ensures fresh(matcherMatched) && matcherMatched.Length == matrix.numMatchers
    ensures forall i | 0 <= i < matrix.numElements ::
              elementMatched[i] <==> RowHas(matrix.AsGraph(), i, matrix.numMatchers)
    ensures forall j | 0 <= j < matrix.numMatchers ::
              matcherMatched[j] <==> ColumnHas(matrix.AsGraph(), j, matrix.numElements)
  {
    ghost var g := matrix.AsGraph();
    var lhs, rhs := matrix.numElements, matrix.numMatchers;
    elementMatched := new bool[lhs](i => false);
    matcherMatched := new bool[rhs](i => false);
    for ilhs := 0 to lhs
      invariant forall i | 0 <= i < ilhs :: elementMatched[i] <==> RowHas(g, i, rhs)
      invariant forall i | ilhs <= i < lhs :: !elementMatched[i]
      invariant forall j | 0 <= j < rhs :: matcherMatched[j] <==> ColumnHas(g, j, ilhs)
    {
      MarkRow(matrix, ilhs, elementMatched, matcherMatched);
    }
  }

  /** The inner loop: marks element `ilhs` and every matcher that matches it. */
  method MarkRow(matrix: MatchMatrix, ilhs: nat, elementMatched: array<bool>, matcherMatched: array<bool>)
    requires matrix.Valid() && ilhs < matrix.numElements == elementMatched.Length
    requires matcherMatched.Length == matrix.numMatchers
    requires elementMatched != matcherMatched && matrix.matched !in {elementMatched, matcherMatched}
    requires !elementMatched[ilhs]
    requires forall j | 0 <= j < matcherMatched.Length :: matcherMatched[j] <==> ColumnHas(matrix.AsGraph(), j, ilhs)
    modifies elementMatched, matcherMatched
    ensures elementMatched[ilhs] <==> RowHas(matrix.AsGraph(), ilhs, matrix.numMatchers)
    ensures forall i | 0 <= i < elementMatched.Length && i != ilhs :: elementMatched[i] == old(elementMatched[i])
    ensures forall j | 0 <= j < matcherMatched.Length ::
              matcherMatched[j] <==> ColumnHas(matrix.AsGraph(), j, ilhs + 1)
  {
    ghost var g := matrix.AsGraph();
    for irhs := 0 to matrix.numMatchers
      invariant elementMatched[ilhs] <==> RowHas(g, ilhs, irhs)
      invariant forall i | 0 <= i < elementMatched.Length && i != ilhs :: elementMatched[i] == old(elementMatched[i])
      invariant forall j | 0 <= j < irhs :: matcherMatched[j] <==> ColumnHas(g, j, ilhs + 1)
      invariant forall j | irhs <= j < matrix.numMatchers :: matcherMatched[j] <==> ColumnHas(g, j, ilhs)
    {
      var matched := matrix.HasEdge(ilhs, irhs);
      OneMore(g, ilhs, irhs);
      elementMatched[ilhs] := elementMatched[ilhs] || matched;
      matcherMatched[irhs] := matcherMatched[irhs] || matched;
    }
  }

  ghost predicate Plausible(g: Graph, flags: Flags) {
    && (flags.superset ==> forall j | 0 <= j < g.rhs :: ColumnHas(g, j, g.lhs))
    && (flags.subset ==> forall i | 0 <= i < g.lhs :: RowHas(g, i, g.rhs))
  }

  /** The prefilter looks at all the edges at once, as if they could all be used. */
  lemma PlausibleMeansCovered(g: Graph, flags: Flags)
    requires g.Bounded()
    ensures Plausible(g, flags) <==>
      (flags.superset ==> CoversMatchers(g, g.edges)) && (flags.subset ==> CoversElements(g, g.edges))
  {
    forall j | 0 <= j < g.rhs ensures ColumnHas(g, j, g.lhs) <==> j in Rights(g.edges) {
      if e: (int, int) :| e in g.edges && e.1 == j {
        assert g.HasEdge(e.0, j);
      }
      if i :| 0 <= i < g.lhs && g.HasEdge(i, j) {
        assert (i, j) in g.edges;
      }
    }
    forall i | 0 <= i < g.lhs ensures RowHas(g, i, g.rhs) <==> i in Lefts(g.edges) {
      if e: (int, int) :| e in g.edges && e.0 == i {
        assert g.HasEdge(i, e.1);
      }
      if j :| 0 <= j < g.rhs && g.HasEdge(i, j) {
        assert (i, j) in g.edges;
      }
    }
  }

  /** The prefilter never rejects what a pairing could satisfy. */
  lemma PrefilterIsSound(g: Graph, flags: Flags)
    requires g.Bounded() && Satisfiable(g, flags)
    ensures Plausible(g, flags)
  {
    var m: set<(int, int)> :| Covers(g, flags, m);
    if flags.superset {
      forall j | 0 <= j < g.rhs ensures ColumnHas(g, j, g.lhs) {
        assert j in Rights(m);
        var e: (int, int) :| e in m && e.1 == j;
        assert g.HasEdge(e.0, j);
      }
    }
    if flags.subset {
      forall i | 0 <= i < g.lhs ensures RowHas(g, i, g.rhs) {
        assert i in Lefts(m);
        var e: (int, int) :| e in m && e.0 == i;
        assert g.HasEdge(i, e.1);
      }
    }
  }

  /** The whole decision: its early exits and the prefilter change nothing about the answer. */
  method MatchesUnordered(matrix: MatchMatrix, flags: Flags) returns (result: bool)
    requires matrix.Valid()
    ensures result <==> Satisfiable(matrix.AsGraph(), flags)
  {
    ghost var g := matrix.AsGraph();
    if matrix.numElements == 0 && matrix.numMatchers == 0 {
      assert Covers(g, flags, {});
      return true;
    }
    if flags == Flags(true, true) && matrix.numElements != matrix.numMatchers {
      forall m | Covers(g, flags, m) ensures false {
        CoverageIsSize(g, m);
      }
      return false;
    }
    if Satisfiable(g, flags) {
      PrefilterIsSound(g, flags);
    }
    result := VerifyMatchMatrix(matrix, flags);
    if result {
      result := FindPairing(matrix, flags);
    }
  }

  /** Which element each matcher matches. */
  ghost function MatchGraph(numElements: nat, numMatchers: nat, matches: (int, int) -> bool): Graph {
    Graph(numElements, numMatchers,
          set i: int, j: int | 0 <= i < numElements && 0 <= j < numMatchers && matches(i, j) :: (i, j))
  }

  /** Asks every matcher about every element and writes the answers into a matrix. */
  method AnalyzeElements(numElements: nat, numMatchers: nat, matches: (int, int) -> bool)
    returns (matrix: MatchMatrix)
    ensures fresh(matrix) && fresh(matrix.matched) && matrix.Valid()
    ensures matrix.numElements == numElements && matrix.numMatchers == numMatchers
    ensures matrix.AsGraph() == MatchGraph(numElements, numMatchers, matches)
  {
    var didMatch: seq<bool> := [];
    for ilhs := 0 to numElements
      invariant |didMatch| == ilhs * numMatchers
      invariant Answers(didMatch, numMatchers, matches)
    {
      for irhs := 0 to numMatchers
        invariant |didMatch| == ilhs * numMatchers + irhs
        invariant Answers(didMatch, numMatchers, matches)
      {
        PairOfCell(ilhs, irhs, numMatchers);
        didMatch := didMatch + [matches(ilhs, irhs)];
      }
    }
    matrix := new MatchMatrix(numElements, numMatchers);
    var next := 0;
    for ilhs := 0 to numElements
      invariant next == ilhs * numMatchers
      invariant matrix.Valid() && fresh(matrix.matched)
      invariant matrix.AsGraph().edges == Filled(numMatchers, matches, ilhs, 0)
    {
      CellsOfRow(ilhs, numElements, numMatchers);
      for irhs := 0 to numMatchers
        invariant next == ilhs * numMatchers + irhs
        invariant matrix.Valid() && fresh(matrix.matched)
        invariant matrix.AsGraph().edges == Filled(numMatchers, matches, ilhs, irhs)
      {
        PairOfCell(ilhs, irhs, numMatchers);
        matrix.SetEdge(ilhs, irhs, didMatch[next]);
        next := next + 1;
        FillOne(numMatchers, matches, ilhs, irhs);
      }
      FillRow(numMatchers, matches, ilhs);
    }
    AllFilled(numElements, numMatchers, matches);
  }

  /** The answers so far, element by element. */
  ghost predicate Answers(didMatch: seq<bool>, numMatchers: nat, matches: (int, int) -> bool) {
    forall k | 0 <= k < |didMatch| ::
      numMatchers > 0 && (didMatch[k] <==> matches(k / numMatchers, k % numMatchers))
  }

  /** The edges written when `irhs` cells of row `ilhs` are done. */
  ghost function Filled(numMatchers: nat, matches: (int, int) -> bool, ilhs: nat, irhs: nat): set<(int, int)> {
    set i: int, j: int | 0 <= i <= ilhs && 0 <= j < numMatchers && (i < ilhs || j < irhs) && matches(i, j) :: (i, j)
  }

  lemma FillOne(numMatchers: nat, matches: (int, int) -> bool, ilhs: nat, irhs: nat)
    requires irhs < numMatchers
    ensures Filled(numMatchers, matches, ilhs, irhs + 1)
         == Filled(numMatchers, matches, ilhs, irhs) + if matches(ilhs, irhs) then {(ilhs as int, irhs as int)} else {}
    ensures (ilhs, irhs) !in Filled(numMatchers, matches, ilhs, irhs)
  {
  }

  lemma FillRow(numMatchers: nat, matches: (int, int) -> bool, ilhs: nat)
    ensures Filled(numMatchers, matches, ilhs, numMatchers) == Filled(numMatchers, matches, ilhs + 1, 0)
  {
  }

  lemma AllFilled(numElements: nat, numMatchers: nat, matches: (int, int) -> bool)
    ensures Filled(numMatchers, matches, numElements, 0) == MatchGraph(numElements, numMatchers, matches).edges
  {
  }

  /** The matcher as its user sees it: true exactly if the elements can be assigned matchers of
      their own that match them. */
  method MatchAndExplain(numElements: nat, numMatchers: nat, matches: (int, int) -> bool, flags: Flags)
    returns (result: bool)
    ensures result <==> exists f :: IsAssignment(MatchGraph(numElements, numMatchers, matches), flags, f)
  {
    var matrix := AnalyzeElements(numElements, numMatchers, matches);
    result := MatchesUnordered(matrix, flags);
    SatisfiableMeansAssignment(matrix.AsGraph(), flags);
  }
}
