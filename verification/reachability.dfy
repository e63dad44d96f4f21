/** Transitive prerequisites over a finite graph, and acyclicity. */
module Reachability {
  import opened Sets

  type Graph<T> = map<T, set<T>>

  ghost predicate ClosedGraph<T>(g: Graph<T>) {
    forall x | x in g :: g[x] <= g.Keys
  }

  /** A path of `n + 1` edges leads from `x` to `y`. */
  ghost predicate Leads<T>(g: Graph<T>, x: T, y: T, n: nat) {
    x in g && if n == 0 then y in g[x] else exists z | z in g[x] :: Leads(g, z, y, n - 1)
  }

  ghost predicate Reaches<T>(g: Graph<T>, x: T, y: T) {
    exists n: nat :: Leads(g, x, y, n)
  }

  /** The transitive prerequisites of `x`. */
  ghost function Transitive<T>(g: Graph<T>, x: T): set<T> {
    set y | y in g && Reaches(g, x, y)
  }

  /** `x` and its transitive prerequisites: what a walk from `x` can meet. */
  ghost function Downstream<T>(g: Graph<T>, x: T): set<T> {
    {x} + Transitive(g, x)
  }

  lemma DownstreamEdges<T>(g: Graph<T>, x: T, y: T)
    requires ClosedGraph(g) && x in g && y in Downstream(g, x)
    ensures y in g && g[y] <= Transitive(g, x)
  {
    forall p | p in g[y] ensures p in Transitive(g, x) {
      FirstEdge(g, y, p, p);
      if y != x {
        ReachesJoins(g, x, y, p);
      }
    }
  }

  lemma FirstEdge<T>(g: Graph<T>, x: T, z: T, y: T)
    requires ClosedGraph(g) && x in g && z in g[x]
    ensures Reaches(g, x, z)
    ensures Reaches(g, z, y) ==> Reaches(g, x, y)
  {
    assert Leads(g, x, z, 0);
    if Reaches(g, z, y) {
      var n: nat :| Leads(g, z, y, n);
      assert Leads(g, x, y, n + 1);
    }
  }

  /** Whatever contains the prerequisites of `x` and of its own members contains everything
      reachable from `x`. */
  lemma {:induction false} ClosureIsLeast<T>(g: Graph<T>, s: set<T>, x: T, y: T, n: nat)
    requires forall z | z in s && z in g :: g[z] <= s
    requires x in g && g[x] <= s
    requires Leads(g, x, y, n)
    ensures y in s
    decreases n
  {
    if n > 0 {
      var z :| z in g[x] && Leads(g, z, y, n - 1);
      ClosureIsLeast(g, s, z, y, n - 1);
    }
  }

  lemma TransitiveIsLeast<T>(g: Graph<T>, s: set<T>, x: T)
    requires forall z | z in s && z in g :: g[z] <= s
    requires x in g && g[x] <= s
    ensures Transitive(g, x) <= s
  {
    forall y | y in Transitive(g, x) ensures y in s {
      var n: nat :| Leads(g, x, y, n);
      ClosureIsLeast(g, s, x, y, n);
    }
  }

  /** One step unfolds the closure: the immediate prerequisites and theirs. */
  lemma TransitiveUnfolds<T>(g: Graph<T>, x: T, y: T)
    requires ClosedGraph(g) && x in g
    ensures y in Transitive(g, x) <==> y in g[x] || exists z | z in g[x] :: y in Transitive(g, z)
  {
    if y in g[x] {
      FirstEdge(g, x, y, y);
    }
    if z :| z in g[x] && y in Transitive(g, z) {
      FirstEdge(g, x, z, y);
    }
    if y in Transitive(g, x) && y !in g[x] {
      var n: nat :| Leads(g, x, y, n);
      var z :| z in g[x] && Leads(g, z, y, n - 1);
      assert y in Transitive(g, z);
    }
  }

  lemma {:induction false} LeadsJoin<T>(g: Graph<T>, x: T, y: T, z: T, n: nat, k: nat)
    requires Leads(g, x, y, n) && Leads(g, y, z, k)
    ensures Reaches(g, x, z)
    decreases n
  {
    if n == 0 {
      assert Leads(g, x, z, k + 1);
    } else {
      var w :| w in g[x] && Leads(g, w, y, n - 1);
      LeadsJoin(g, w, y, z, n - 1, k);
      var m: nat :| Leads(g, w, z, m);
      assert Leads(g, x, z, m + 1);
    }
  }

  lemma ReachesJoins<T>(g: Graph<T>, x: T, y: T, z: T)
    requires Reaches(g, x, y) && Reaches(g, y, z)
    ensures Reaches(g, x, z)
  {
    var n: nat :| Leads(g, x, y, n);
    var k: nat :| Leads(g, y, z, k);
    LeadsJoin(g, x, y, z, n, k);
  }

  ghost predicate Acyclic<T>(g: Graph<T>) {
    forall x | x in g :: !Reaches(g, x, x)
  }

  /** On an acyclic graph a prerequisite has strictly fewer transitive prerequisites. */
  lemma PrerequisiteIsSmaller<T>(g: Graph<T>, x: T, p: T)
    requires ClosedGraph(g) && Acyclic(g) && x in g && p in g[x]
    ensures |Transitive(g, p)| < |Transitive(g, x)|
  {
    FirstEdge(g, x, p, p);
    forall y | y in Transitive(g, p) ensures y in Transitive(g, x) {
      FirstEdge(g, x, p, y);
    }
    assert Transitive(g, p) + {p} <= Transitive(g, x);
    assert p !in Transitive(g, p);
    SubsetSize(Transitive(g, p) + {p}, Transitive(g, x));
  }

  // ---- Adding edges ----

  /** `e` is made to wait for all of `more` as well. */
  ghost function Waits<T>(g: Graph<T>, e: T, more: set<T>): Graph<T>
    requires e in g
  {
    g[e := g[e] + more]
  }

  /** `y` is `x` or one of its transitive prerequisites. */
  ghost predicate Meets<T>(g: Graph<T>, x: T, y: T) {
    x == y || Reaches(g, x, y)
  }

  /** None of `more` is `e` or depends on it. */
  ghost predicate SafeToWait<T>(g: Graph<T>, e: T, more: set<T>) {
    forall l | l in more :: !Meets(g, l, e)
  }

  lemma {:induction false} LeadsSurvives<T>(g: Graph<T>, g': Graph<T>, x: T, y: T, n: nat)
    requires forall z | z in g :: z in g' && g[z] <= g'[z]
    requires Leads(g, x, y, n)
    ensures Leads(g', x, y, n)
    decreases n
  {
    if n > 0 {
      var z :| z in g[x] && Leads(g, z, y, n - 1);
      LeadsSurvives(g, g', z, y, n - 1);
    }
  }

  /** Edges are never taken away, so a cycle stays. */
  lemma CyclesStay<T>(g: Graph<T>, g': Graph<T>)
    requires forall z | z in g :: z in g' && g[z] <= g'[z]
    ensures Acyclic(g') ==> Acyclic(g)
  {
    forall x | x in g && Reaches(g, x, x) ensures !Acyclic(g') {
      var n: nat :| Leads(g, x, x, n);
      LeadsSurvives(g, g', x, x, n);
    }
  }

  lemma ReachesSurvives<T>(g: Graph<T>, g': Graph<T>, x: T, y: T)
    requires forall z | z in g :: z in g' && g[z] <= g'[z]
    ensures Reaches(g, x, y) ==> Reaches(g', x, y)
  {
    if n: nat :| Leads(g, x, y, n) {
      LeadsSurvives(g, g', x, y, n);
    }
  }

  /** Whoever is made to wait for others does wait for them, for all they wait for, and for all it
      waited for before. */
  lemma WaitsTakeEffect<T>(g: Graph<T>, e: T, more: set<T>)
    requires ClosedGraph(g) && e in g && more <= g.Keys
    ensures more + Transitive(g, e) <= Transitive(Waits(g, e, more), e)
    ensures forall l | l in more :: Transitive(g, l) <= Transitive(Waits(g, e, more), e)
  {
    var g' := Waits(g, e, more);
    forall y | y in g ensures Reaches(g, e, y) ==> Reaches(g', e, y) {
      ReachesSurvives(g, g', e, y);
    }
    forall l | l in more ensures Reaches(g', e, l) && Transitive(g, l) <= Transitive(g', e) {
      assert Leads(g', e, l, 0);
      forall y | y in Transitive(g, l) ensures y in Transitive(g', e) {
        ReachesSurvives(g, g', l, y);
        ReachesJoins(g', e, l, y);
      }
    }
  }

  /** A path over a new edge splits there. */
  lemma {:induction false} NewPaths<T>(g: Graph<T>, e: T, more: set<T>, x: T, y: T, n: nat)
    requires ClosedGraph(g) && e in g && more <= g.Keys
    requires Leads(Waits(g, e, more), x, y, n)
    ensures Reaches(g, x, y) || (Meets(g, x, e) && exists l | l in more :: Meets(g, l, y))
    decreases n
  {
    var g' := Waits(g, e, more);
    if n == 0 {
      assert y in g[x] ==> Leads(g, x, y, 0);
    } else {
      var z :| z in g'[x] && Leads(g', z, y, n - 1);
      NewPaths(g, e, more, z, y, n - 1);
      if z in g[x] {
        FirstEdge(g, x, z, y);
        FirstEdge(g, x, z, e);
      }
    }
  }

  /** New prerequisites of `e` keep an acyclic graph acyclic exactly when none of them is `e` or
      already depends on it. */
  lemma AddEdgesAcyclic<T>(g: Graph<T>, e: T, more: set<T>)
    requires ClosedGraph(g) && e in g && more <= g.Keys
    ensures ClosedGraph(Waits(g, e, more))
    ensures Acyclic(Waits(g, e, more)) <==> Acyclic(g) && SafeToWait(g, e, more)
  {
    var g' := Waits(g, e, more);
    CyclesStay(g, g');
    if l :| l in more && Meets(g, l, e) {
      assert Leads(g', e, l, 0);
      if l != e {
        var n: nat :| Leads(g, l, e, n);
        LeadsSurvives(g, g', l, e, n);
        ReachesJoins(g', e, l, e);
      }
    } else if Acyclic(g) {
      forall x | x in g' ensures !Reaches(g', x, x) {
        if Reaches(g', x, x) {
          var n: nat :| Leads(g', x, x, n);
          NewPaths(g, e, more, x, x, n);
          var l :| l in more && Meets(g, l, x);
          if x != e && x != l {
            ReachesJoins(g, l, x, e);
          }
        }
      }
    }
  }
}
