/** Expectations and the prerequisite relation between them.  `all` is a set of expectation
    objects that contains every prerequisite of its members. */
module Expectations {
  import opened Reachability
  import opened Sets

  class Expectation {
    var retired: bool
    // Whether the calls so far satisfy the cardinality.
    var satisfied: bool
    var prerequisites: set<Expectation>

    constructor (satisfied: bool, ghost all: set<Expectation>)
      ensures !retired && this.satisfied == satisfied
      ensures GraphOf(all + {this}) == old(GraphOf(all))[this := {}]
    {
      retired := false;
      this.satisfied := satisfied;
      prerequisites := {};
    }

    /** Makes this expectation wait for each of `older`. */
    method After(older: set<Expectation>, ghost all: set<Expectation>)
      requires this in all && older <= all && Universe(all)
      modifies this`prerequisites
      ensures GraphOf(all) == old(Waits(GraphOf(all), this, older))
      ensures older <= Transitive(GraphOf(all), this)
      ensures Universe(all)
      ensures Acyclic(GraphOf(all)) <==> old(Acyclic(GraphOf(all)) && SafeToWait(GraphOf(all), this, older))
      ensures old(RetiredDownwards(all)) && !retired ==> RetiredDownwards(all)
    {
      AddEdgesAcyclic(GraphOf(all), this, older);
      WaitsTakeEffect(GraphOf(all), this, older);
      ghost var g: Graph<Expectation>, before := GraphOf(all), prerequisites;
      var todo := older;
      while todo != {}
        invariant todo <= older && prerequisites == before + (older - todo)
        decreases todo
      {
        var next :| next in todo;
        todo := todo - {next};
        prerequisites := prerequisites + {next};
      }
      assert older - todo == older;
      assert GraphOf(all) == Waits(g, this, older);
    }
  }

  ghost function GraphOf(all: set<Expectation>): Graph<Expectation>
    reads all`prerequisites
  {
    map x | x in all :: x.prerequisites
  }

  ghost predicate Universe(all: set<Expectation>)
    reads all`prerequisites
  {
    ClosedGraph(GraphOf(all))
  }

  ghost function Retired(all: set<Expectation>): set<Expectation>
    reads all`retired
  {
    set x | x in all && x.retired
  }

  ghost function Unsatisfied(all: set<Expectation>): set<Expectation>
    reads all`satisfied
  {
    set x | x in all && !x.satisfied
  }

  /** An expectation is only retired once all its prerequisites are. */
  ghost predicate RetiredDownwards(all: set<Expectation>)
    reads all`retired, all`prerequisites
  {
    forall x | x in all && x.retired :: x.prerequisites <= Retired(all)
  }

  /** What the walk keeps while it is under way: only expectations still on the stack may have
      prerequisites that are not retired yet. */
  ghost predicate RetiredExcept(all: set<Expectation>, self: Expectation, stack: seq<Expectation>)
    reads all`retired, all`prerequisites
  {
    forall x | x in all && (x.retired || x == self) && x !in stack :: x.prerequisites <= Retired(all)
  }

  method RetireAllPreRequisites(self: Expectation, ghost all: set<Expectation>)
    requires self in all && Universe(all) && RetiredDownwards(all)
    modifies all`retired
    ensures Retired(all) == old(Retired(all)) + Transitive(GraphOf(all), self)
    ensures forall x | x in all :: x.retired <==> old(x.retired) || x in Transitive(GraphOf(all), self)
    ensures RetiredDownwards(all)
  {
    ghost var g: Graph<Expectation> := GraphOf(all);
    if self.retired {
      TransitiveIsLeast(g, Retired(all), self);
      return;
    }
    ghost var before := Retired(all);
    var expectations := [self];
    while expectations != []
      invariant forall x | x in expectations :: x in Downstream(g, self)
      invariant RetiredExcept(all, self, expectations)
      invariant before <= Retired(all) <= before + Transitive(g, self)
      decreases all - Retired(all), |expectations|
    {
      var exp := expectations[|expectations| - 1];
      expectations := expectations[..|expectations| - 1];
      expectations := RetireImmediate(exp, expectations, self, all);
    }
    TransitiveIsLeast(g, Retired(all), self);
    assert forall x | x in all :: x.retired <==> x in Retired(all);
    assert forall x | x in all :: old(x.retired) <==> x in before;
  }

  /** The inner loop: retires the prerequisites of `exp` that are not retired yet, and stacks
      them. */
  method RetireImmediate(exp: Expectation, stack: seq<Expectation>,
                         ghost self: Expectation, ghost all: set<Expectation>)
    returns (stack': seq<Expectation>)
    requires self in all && Universe(all)
    requires exp in Downstream(GraphOf(all), self)
    requires forall x | x in stack :: x in Downstream(GraphOf(all), self)
    requires RetiredExcept(all, self, stack + [exp])
    modifies all`retired
    ensures forall x | x in stack' :: x in Downstream(GraphOf(all), self)
    ensures RetiredExcept(all, self, stack')
    ensures old(Retired(all)) <= Retired(all) <= old(Retired(all)) + Transitive(GraphOf(all), self)
    ensures Retired(all) == old(Retired(all)) ==> stack' == stack
  {
    ghost var before, reach := Retired(all), Transitive(GraphOf(all), self);
    DownstreamEdges(GraphOf(all), self, exp);
    stack' := stack;
    var todo := exp.prerequisites;
    while todo != {}
      invariant todo <= exp.prerequisites && exp.prerequisites - todo <= Retired(all)
      invariant forall x | x in stack' :: x == self || x in reach
      invariant RetiredExcept(all, self, stack' + [exp])
      invariant before <= Retired(all) <= before + reach
      invariant Retired(all) == before ==> stack' == stack
      decreases todo
    {
      var next :| next in todo;
      todo := todo - {next};
      if !next.retired {
        ghost var was := Retired(all);
        next.retired := true;
        assert Retired(all) == was + {next};
        stack' := stack' + [next];
      }
    }
  }

  /** Retiring an expectation whose prerequisites are retired keeps the rule the short-cut in
      `RetireAllPreRequisites` relies on. */
  method RetireAfterPrerequisites(self: Expectation, saturated: bool, ghost all: set<Expectation>)
    requires self in all && Universe(all) && RetiredDownwards(all)
    modifies all`retired
    ensures RetiredDownwards(all)
    ensures Retired(all) == old(Retired(all)) + Transitive(GraphOf(all), self) + if saturated then {self} else {}
  {
    ghost var g: Graph<Expectation> := GraphOf(all);
    RetireAllPreRequisites(self, all);
    if saturated {
      ghost var was := Retired(all);
      DownstreamEdges(g, self, self);
      assert g[self] <= was;
      self.retired := true;
      assert Retired(all) == was + {self};
    }
  }

  // ---- Are all prerequisites satisfied? ----

  ghost function Pow(b: nat, e: nat): nat {
    if e == 0 then 1 else b * Pow(b, e - 1)
  }

  /** How much walking an expectation can still cause: it is expanded again on every path that
      leads to it, so the bound is exponential in the number of its transitive prerequisites. */
  ghost function Weight<T>(g: Graph<T>, x: T): nat {
    Pow(|g| + 1, |Transitive(g, x)|)
  }

  ghost function StackWeight<T>(g: Graph<T>, stack: seq<T>): nat
    decreases |stack|
  {
    if stack == [] then 0 else StackWeight(g, stack[..|stack| - 1]) + Weight(g, stack[|stack| - 1])
  }

  lemma TimesAtLeast(b: nat, x: nat)
    requires b >= 1
    ensures b * x >= x
  {
  }

  lemma {:induction false} PowGrows(b: nat, e: nat, f: nat)
    requires b >= 1 && e <= f
    ensures 1 <= Pow(b, e) <= Pow(b, f)
    decreases f
  {
    if e < f {
      PowGrows(b, e, f - 1);
      TimesAtLeast(b, Pow(b, f - 1));
    } else if e > 0 {
      PowGrows(b, e - 1, e - 1);
      TimesAtLeast(b, Pow(b, e - 1));
    }
  }

  // Repeated addition, so that taking one summand away needs no multiplication.
  ghost function Times(n: nat, k: nat): nat {
    if n == 0 then 0 else k + Times(n - 1, k)
  }

  lemma {:induction false} FewerTimes(n: nat, d: nat, each: nat)
    requires n <= d && each >= 1
    ensures Times(n, each) < (d + 1) * each
  {
    if n > 0 {
      FewerTimes(n - 1, d - 1, each);
      assert d * each + each == (d + 1) * each;
    }
  }

  /** All the prerequisites of `x` together weigh less than `x`. */
  lemma PrerequisitesWeighLess<T>(g: Graph<T>, x: T) returns (each: nat)
    requires ClosedGraph(g) && Acyclic(g) && x in g
    ensures forall p | p in g[x] :: Weight(g, p) <= each
    ensures Times(|g[x]|, each) < Weight(g, x)
  {
    PowGrows(|g| + 1, 0, |Transitive(g, x)|);
    if g[x] == {} {
      each := 0;
    } else {
      var k := |Transitive(g, x)|;
      forall p | p in g[x] ensures |Transitive(g, p)| < k {
        PrerequisiteIsSmaller(g, x, p);
      }
      var some :| some in g[x];
      assert k > 0;
      each := Pow(|g| + 1, k - 1);
      forall p | p in g[x] ensures Weight(g, p) <= each {
        PowGrows(|g| + 1, |Transitive(g, p)|, k - 1);
      }
      PowGrows(|g| + 1, 0, k - 1);
      SubsetSize(g[x], g.Keys);
      FewerTimes(|g[x]|, |g|, each);
    }
  }

  ghost function StackReach<T>(g: Graph<T>, stack: seq<T>): set<T>
    decreases |stack|
  {
    if stack == [] then {} else StackReach(g, stack[..|stack| - 1]) + Transitive(g, stack[|stack| - 1])
  }

  lemma PushOnStack<T>(g: Graph<T>, stack: seq<T>, x: T)
    ensures StackWeight(g, stack + [x]) == StackWeight(g, stack) + Weight(g, x)
    ensures StackReach(g, stack + [x]) == StackReach(g, stack) + Transitive(g, x)
  {
    assert (stack + [x])[..|stack|] == stack;
  }

  /** Keeps no record of what was visited, so shared prerequisites are walked repeatedly; on an
      acyclic graph it ends nevertheless, with the right answer. */
  method AllPrerequisitesAreSatisfied(self: Expectation, ghost all: set<Expectation>) returns (result: bool)
    requires self in all && Universe(all) && Acyclic(GraphOf(all))
    ensures result <==> forall x | x in Transitive(GraphOf(all), self) :: x.satisfied
  {
    ghost var g: Graph<Expectation> := GraphOf(all);
    var expectations := [self];
    PushOnStack(g, [], self);
    while expectations != []
      invariant forall x | x in expectations :: x in Downstream(g, self)
      invariant Transitive(g, self) * Unsatisfied(all) <= StackReach(g, expectations)
      decreases StackWeight(g, expectations)
    {
      var exp := expectations[|expectations| - 1];
      var ok;
      ok, expectations := PushSatisfied(exp, expectations[..|expectations| - 1], self, all);
      if !ok {
        return false;
      }
    }
    return true;
  }

  /** The inner loop: gives up on an unsatisfied prerequisite of `exp`, else stacks them all. */
  method PushSatisfied(exp: Expectation, stack: seq<Expectation>,
                       ghost self: Expectation, ghost all: set<Expectation>)
    returns (ok: bool, stack': seq<Expectation>)
    requires self in all && Universe(all) && Acyclic(GraphOf(all))
    requires exp in Downstream(GraphOf(all), self)
    requires forall x | x in stack :: x in Downstream(GraphOf(all), self)
    ensures !ok ==> !(Transitive(GraphOf(all), self) !! Unsatisfied(all))
    ensures ok ==> forall x | x in stack' :: x in Downstream(GraphOf(all), self)
    ensures ok ==> (StackReach(GraphOf(all), stack) + Transitive(GraphOf(all), exp)) * Unsatisfied(all)
                   <= StackReach(GraphOf(all), stack')
    ensures ok ==> StackWeight(GraphOf(all), stack') < StackWeight(GraphOf(all), stack) + Weight(GraphOf(all), exp)
  {
    ghost var g: Graph<Expectation> := GraphOf(all);
    ghost var reach := Transitive(g, self);
    DownstreamEdges(g, self, exp);
    ghost var each := PrerequisitesWeighLess(g, exp);
    stack' := stack;
    var todo := exp.prerequisites;
    ghost var covered, bound := StackReach(g, stack), StackWeight(g, stack) + Times(|todo|, each);
    while todo != {}
      invariant todo <= exp.prerequisites
      invariant forall x | x in stack' :: x == self || x in reach
      invariant forall p | p in exp.prerequisites - todo :: p.satisfied && Transitive(g, p) <= StackReach(g, stack')
      invariant covered <= StackReach(g, stack')
      invariant StackWeight(g, stack') + Times(|todo|, each) <= bound
      decreases todo
    {
      var next :| next in todo;
      if !next.satisfied {
        return false, stack';
      }
      PushOnStack(g, stack', next);
      assert |todo - {next}| == |todo| - 1;
      todo := todo - {next};
      stack' := stack' + [next];
    }
    ok := true;
    forall y | y in Transitive(g, exp) && y in Unsatisfied(all) ensures y in StackReach(g, stack') {
      TransitiveUnfolds(g, exp, y);
    }
  }

  // ---- Sequences ----

  ghost function Single(e: Expectation?): set<Expectation> {
    if e == null then {} else {e}
  }

  class Sequence {
    var lastExpectation: Expectation?

    constructor ()
      ensures lastExpectation == null
    {
      lastExpectation := null;
    }

    /** Makes `expectation` wait for the last one added.  The prerequisite graph stays acyclic
        exactly when the last one does not itself depend on it. */
    method AddExpectation(expectation: Expectation, ghost all: set<Expectation>)
      requires expectation in all && Universe(all)
      requires Single(lastExpectation) <= all
      modifies this, expectation`prerequisites
      ensures lastExpectation == expectation
      ensures GraphOf(all)
           == old(Waits(GraphOf(all), expectation, Single(lastExpectation) - {expectation}))
      ensures old(Single(lastExpectation)) - {expectation} <= Transitive(GraphOf(all), expectation)
      ensures Universe(all)
      ensures Acyclic(GraphOf(all))
         <==> old(Acyclic(GraphOf(all))
                  && SafeToWait(GraphOf(all), expectation, Single(lastExpectation) - {expectation}))
      ensures old(RetiredDownwards(all)) && !expectation.retired ==> RetiredDownwards(all)
    {
      ghost var g: Graph<Expectation>, more := GraphOf(all), Single(lastExpectation) - {expectation};
      AddEdgesAcyclic(g, expectation, more);
      WaitsTakeEffect(g, expectation, more);
      if lastExpectation != expectation {
        if lastExpectation != null {
          expectation.prerequisites := expectation.prerequisites + {lastExpectation};
        }
        lastExpectation := expectation;
      }
      assert expectation.prerequisites == g[expectation] + more;
      assert GraphOf(all) == Waits(g, expectation, more);
    }
  }
}
